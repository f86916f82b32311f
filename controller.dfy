/**
  The dialogue controller itself: the table of rows read from the dialogue
  file, the dictionary from (NPC, mood) keys to dialogue entries, and the
  first-seen key list, with the three operations that change them: loading
  the file, serving one dialogue line, and writing the counts back.
  Each operation is proved to compute the value-level functions of modules
  Index and Persist, whose properties are proved there.
 */
module Controller {
  import opened Text
  import opened Decimal
  import opened Types
  import opened Index
  import opened Persist

  /** One line of dialogue. Only its view count ever changes. */
  class DialogueInfo {
    const id: NPCID
    const text: string
    const mood: Mood
    var views: nat
    const lineOfOrigin: nat

    constructor (id: NPCID, text: string, mood: Mood, views: nat, lineOfOrigin: nat)
      ensures this.id == id && this.text == text && this.mood == mood
      ensures this.views == views && this.lineOfOrigin == lineOfOrigin
    {
      this.id := id;
      this.text := text;
      this.mood := mood;
      this.views := views;
      this.lineOfOrigin := lineOfOrigin;
    }
  }

  /** Every entry held by a dictionary. */
  ghost function Objects(d: map<NPCID, seq<DialogueInfo>>): set<DialogueInfo>
  {
    set k, o | k in d && o in d[k] :: o
  }

  /** An entry holds, field by field, the given value. */
  ghost predicate HoldsAt(o: DialogueInfo, r: Record)
    reads o
  {
    Record(o.id, o.text, o.mood, o.views, o.lineOfOrigin) == r
  }

  /** The entries of a dictionary hold, key by key and position by position, the given values. */
  ghost predicate Holds(d: map<NPCID, seq<DialogueInfo>>, vals: map<NPCID, seq<Record>>)
    reads Objects(d)
  {
    && d.Keys == vals.Keys
    && (forall k :: k in d ==> |d[k]| == |vals[k]|)
    && (forall k, j :: k in d && 0 <= j < |d[k]| ==>
          assert d[k][j] in d[k] && d[k][j] in Objects(d); HoldsAt(d[k][j], vals[k][j]))
  }

  /** The entries of one bucket carry, position by position, the counts and rows of origin of the given records. */
  ghost predicate Counts(entries: seq<DialogueInfo>, bucket: seq<Record>)
    reads set o | o in entries
  {
    && |entries| == |bucket|
    && forall k :: 0 <= k < |entries| ==>
         entries[k].views == bucket[k].views && entries[k].lineOfOrigin == bucket[k].lineOfOrigin
  }

  /** Entries whose fields hold the given values, key by key and position by position, hold those values. */
  lemma HoldsOfFields(d: map<NPCID, seq<DialogueInfo>>, vals: map<NPCID, seq<Record>>)
    requires d.Keys == vals.Keys
    requires forall k :: k in d ==> |d[k]| == |vals[k]|
    requires forall k, j :: k in d && 0 <= j < |d[k]| ==>
      Record(d[k][j].id, d[k][j].text, d[k][j].mood, d[k][j].views, d[k][j].lineOfOrigin) == vals[k][j]
    ensures Holds(d, vals)
  {
  }

  /** The first loop of loading: a fresh table holding each line split at ','. */
  method SplitAll(lines: seq<string>) returns (formatted: array<seq<string>>)
    ensures fresh(formatted)
    ensures formatted[..] == SplitLines(lines)
  {
    formatted := new seq<string>[|lines|];
    for i := 0 to |lines|
      invariant forall t :: 0 <= t < i ==> formatted[t] == Split(lines[t])
    {
      formatted[i] := Split(lines[i]);
    }
  }

  /**
    The grouping loop of loading: every row with a non-blank cell 0 becomes a
    fresh entry appended to the bucket of its (NPC, mood) key; `newIds` lists
    the keys in the order their first row was met. The entries hold exactly
    the records `IndexRows` reads from the table.
   */
  method ReadEntries(table: array<seq<string>>) returns (moodDictionary: map<NPCID, seq<DialogueInfo>>, newIds: seq<NPCID>)
    requires WellFormedTable(table[..])
    ensures newIds == IndexRows(table[..]).ids
    ensures moodDictionary.Keys == IndexRows(table[..]).buckets.Keys
    ensures forall k :: k in moodDictionary ==> |moodDictionary[k]| == |IndexRows(table[..]).buckets[k]|
    ensures forall k, j :: k in moodDictionary && 0 <= j < |moodDictionary[k]| ==>
      var o := moodDictionary[k][j];
      fresh(o) && Record(o.id, o.text, o.mood, o.views, o.lineOfOrigin) == IndexRows(table[..]).buckets[k][j]
  {
    ghost var read := Index(map[], []);
    moodDictionary := map[];
    newIds := [];
    for i := 0 to table.Length
      invariant read == IndexRows(table[..i])
      invariant newIds == read.ids
      invariant moodDictionary.Keys == read.buckets.Keys
      invariant forall k :: k in moodDictionary ==> |moodDictionary[k]| == |read.buckets[k]|
      invariant forall k, j :: k in moodDictionary && 0 <= j < |moodDictionary[k]| ==>
        var o := moodDictionary[k][j];
        fresh(o) && Record(o.id, o.text, o.mood, o.views, o.lineOfOrigin) == read.buckets[k][j]
    {
      IndexRowsStep(table[..], i);
      var row := table[i];
      var id := row[0];
      if id != "" {
        var mood := row[1];
        var dialogue := row[2];
        var views: nat;
        if |row| < 4 {
          views := 0;
        } else {
          views := ParseNat(row[3]);
        }
        var currentMood := MoodOf(mood);
        var key := NPCID(ParseNat(id), currentMood);
        var newDialogue := new DialogueInfo(key, dialogue, currentMood, views, i);
        ghost var r := Record(key, dialogue, currentMood, views, i);
        assert ParseRow(table[..][i], i) == Some(r);
        if key in moodDictionary {
          moodDictionary := moodDictionary[key := moodDictionary[key] + [newDialogue]];
        } else {
          moodDictionary := moodDictionary[key := [newDialogue]];
          newIds := newIds + [key];
        }
        read := Add(read, r);
      }
    }
    assert table[..table.Length] == table[..];
  }

  /**
    Writes one count into cell 3 of row `line` of the table: a row of fewer
    than four cells is copied into a row one cell longer first.
   */
  method PatchRow(rows: array<seq<string>>, line: nat, views: nat)
    requires line < rows.Length && |rows[line]| >= 3
    modifies rows
    ensures rows[..] == old(rows[..])[line := WithViews(old(rows[..])[line], views)]
  {
    var row := rows[line];
    if |row| < 4 {
      var grown := new string[|row| + 1];
      for j := 0 to |row|
        modifies grown
        invariant forall t :: 0 <= t < j ==> grown[t] == row[t]
      {
        grown[j] := row[j];
      }
      grown[3] := NatToString(views);
      assert grown[..] == WithViews(row, views);
      rows[line] := grown[..];
    } else {
      rows[line] := row[3 := NatToString(views)];
    }
  }

  /**
    The inner loop of the first half of saving: the entries of one bucket, in
    order, write their counts into the table. The entries hold the records
    `bucket`, which are records `start` to `stop` of `recs`, and the table
    arrives patched with the records before `start`.
   */
  method PatchBucket(rows: array<seq<string>>, entries: seq<DialogueInfo>, ghost bucket: seq<Record>,
                     ghost table: seq<seq<string>>, ghost recs: seq<Record>, ghost start: nat, ghost stop: nat)
    requires Patchable(table, recs) && start <= stop <= |recs| && recs[start..stop] == bucket
    requires Counts(entries, bucket)
    requires rows[..] == PatchAll(table, recs[..start])
    modifies rows
    ensures rows[..] == PatchAll(table, recs[..stop])
  {
    ghost var n := start;
    for k := 0 to |entries|
      invariant n == start + k
      invariant rows[..] == PatchAll(table, recs[..n])
    {
      var current := entries[k];
      ghost var before := rows[..];
      ghost var r := recs[n];
      assert r == bucket[k];
      assert |before[r.lineOfOrigin]| >= 3;
      PatchRow(rows, current.lineOfOrigin, current.views);
      PatchAllNext(table, recs, n, before, rows[..]);
      n := n + 1;
    }
    assert n == stop;
  }

  /**
    The loops of the first half of saving: for each key of `ids` in order, and
    for each entry of its bucket in order, the entry's count goes into its row
    of origin. `vals` are the values the entries hold.
   */
  method PatchEntries(rows: array<seq<string>>, dict: map<NPCID, seq<DialogueInfo>>,
                      ids: seq<NPCID>, ghost vals: map<NPCID, seq<Record>>)
    requires forall i :: 0 <= i < |ids| ==> ids[i] in vals
    requires dict.Keys == vals.Keys
    requires forall k :: k in dict ==> Counts(dict[k], vals[k])
    requires Patchable(rows[..], Visit(vals, ids))
    modifies rows
    ensures rows[..] == PatchAll(old(rows[..]), Visit(vals, ids))
  {
    ghost var table := rows[..];
    ghost var recs := Visit(vals, ids);
    ghost var m := 0;
    for i := 0 to |ids|
      invariant m == |Visit(vals, ids[..i])| && m <= |recs|
      invariant Patchable(table, recs[..m])
      invariant rows[..] == PatchAll(table, recs[..m])
    {
      var currentDialogue := dict[ids[i]];
      VisitBucket(vals, ids, i);
      ghost var next := |Visit(vals, ids[..i + 1])|;
      PatchablePrefix(table, recs, next);
      PatchBucket(rows, currentDialogue, vals[ids[i]], table, recs, m, next);
      m := next;
    }
    assert ids[..|ids|] == ids;
    assert m == |recs| && recs[..m] == recs;
  }

  class DialogueController {
    /** The dictionary keys in the order their first row was read. */
    var ids: seq<NPCID>
    /** The dialogue entries of each (NPC, mood) key, in file order. */
    var allDialogue: map<NPCID, seq<DialogueInfo>>
    /** The dialogue file as a table: one row of cells per line. */
    var rows: array<seq<string>>
    /** The dictionary and key list as a value. */
    ghost var model: Index

    ghost function Entries(): set<DialogueInfo>
      reads this
    {
      Objects(allDialogue)
    }

    /**
      The class invariant: the entries hold the model, the key list is the
      model's, and the model is consistent with the table.
     */
    ghost predicate Valid()
      reads this, rows, Entries()
    {
      model.ids == ids && Holds(allDialogue, model.buckets) && Consistent(model, rows[..])
    }

    /** An empty controller, before any file is loaded. */
    constructor ()
      ensures ids == [] && allDialogue == map[] && rows.Length == 0
      ensures Valid() && model == Index(map[], [])
    {
      ids := [];
      allDialogue := map[];
      rows := new seq<string>[0];
      model := Index(map[], []);
    }

    /**
      Reads the dialogue file given as its lines: every line becomes a row of
      the table, every row with a non-blank cell 0 becomes an entry under its
      (NPC, mood) key, and new keys are appended to the key list. The
      dictionary is replaced only when some row was read into it.
     */
    method LoadFile(lines: seq<string>)
      requires WellFormedTable(SplitLines(lines))
      modifies this
      ensures fresh(rows) && rows[..] == SplitLines(lines)
      ensures ids == old(ids) + IndexRows(rows[..]).ids
      ensures IndexRows(rows[..]).buckets == map[] ==> allDialogue == old(allDialogue)
      ensures IndexRows(rows[..]).buckets != map[] ==>
        fresh(Entries()) && Holds(allDialogue, IndexRows(rows[..]).buckets)
      ensures old(ids) == [] && old(allDialogue) == map[] ==>
        Valid() && model == IndexRows(rows[..])
    {
      ghost var table := SplitLines(lines);
      rows := SplitAll(lines);
      var moodDictionary, newIds := ReadEntries(rows);
      ids := ids + newIds;
      if moodDictionary != map[] {
        allDialogue := moodDictionary;
      }
      if moodDictionary != map[] || allDialogue == map[] {
        model := Index(IndexRows(table).buckets, ids);
      } else {
        model := Index(model.buckets, ids);
      }
      if moodDictionary != map[] {
        HoldsOfFields(allDialogue, IndexRows(table).buckets);
        forall o | o in Objects(allDialogue) ensures fresh(o) {
          var k, j :| k in allDialogue && 0 <= j < |allDialogue[k]| && allDialogue[k][j] == o;
        }
      }
      if old(ids) == [] && old(allDialogue) == map[] {
        assert model == IndexRows(table);
        HoldsOfFields(allDialogue, IndexRows(table).buckets);
        IndexRowsConsistent(table);
      }
    }

    /**
      Serves one line of dialogue for `id`: `pick` stands for the random index
      the engine draws from [0, bucket size). The chosen entry's count goes up
      by one and the result is the new count, ". ", and the text. A key with no
      dialogue fails and changes nothing.
     */
    method GetDialogue(id: NPCID, pick: nat) returns (result: DialogueResult)
      requires Valid()
      requires id in allDialogue ==> pick < |allDialogue[id]|
      modifies this, if id in allDialogue then {allDialogue[id][pick]} else {}
      ensures Valid()
      ensures ids == old(ids) && allDialogue == old(allDialogue) && rows == old(rows)
      ensures id !in allDialogue ==> result == KeyNotFound && model == old(model)
      ensures id in allDialogue ==>
        && allDialogue[id][pick].views == old(allDialogue[id][pick].views) + 1
        && result == Dialogue(NatToString(allDialogue[id][pick].views) + ". " + allDialogue[id][pick].text)
        && model == Bump(old(model), id, pick)
    {
      if id !in allDialogue {
        return KeyNotFound;
      }
      var dialogues := allDialogue[id];
      var dialogue := dialogues[pick];
      dialogue.views := dialogue.views + 1;
      result := Dialogue(NatToString(dialogue.views) + ". " + dialogue.text);

      ghost var before := model;
      model := Bump(before, id, pick);
      BumpOnlyOne(before, id, pick);
      forall k, j | k in allDialogue && 0 <= j < |allDialogue[k]|
        ensures HoldsAt(allDialogue[k][j], model.buckets[k][j])
      {
        var o := allDialogue[k][j];
        if (k, j) != (id, pick) {
          assert o in allDialogue[k] && old(HoldsAt(o, before.buckets[k][j]));
          assert before.buckets[k][j].lineOfOrigin != before.buckets[id][pick].lineOfOrigin;
          assert o != dialogue;
        } else {
          assert dialogue in allDialogue[k] && old(HoldsAt(dialogue, before.buckets[k][j]));
        }
      }
      BumpKeepsConsistent(before, rows[..], id, pick);
    }

    /**
      The first half of saving: every entry, visited key by key in list order,
      writes its count into cell 3 of its row of origin, growing a three-cell
      row to four cells. Rows no entry comes from are left alone.
     */
    method PatchViewCounts()
      requires Valid()
      modifies rows
      ensures Valid()
      ensures Patchable(old(rows[..]), Visit(model.buckets, ids))
      ensures rows[..] == PatchAll(old(rows[..]), Visit(model.buckets, ids))
    {
      ghost var ix := model;
      ghost var table := rows[..];
      forall k | k in allDialogue ensures Counts(allDialogue[k], ix.buckets[k]) {
        forall j | 0 <= j < |allDialogue[k]| ensures allDialogue[k][j] in allDialogue[k] {
        }
      }
      VisitPatchable(ix, table);
      PatchEntries(rows, allDialogue, ids, ix.buckets);
      PatchKeepsIndex(ix, table);
    }

    /** The second half of saving: the file text, each row joined with ',' and ended by a newline. */
    method Serialize() returns (contents: string)
      ensures contents == Lines(rows[..])
    {
      var builder := "";
      for i := 0 to rows.Length
        invariant builder == Lines(rows[..i])
      {
        assert rows[..i + 1][..i] == rows[..i];
        builder := builder + Join(rows[i]) + [Newline];
      }
      assert rows[..rows.Length] == rows[..];
      contents := builder;
    }

    /** Saving: patch the counts into the table, then return the text written to the file. */
    method OnDestroy() returns (contents: string)
      requires Valid()
      modifies rows
      ensures Valid()
      ensures Patchable(old(rows[..]), Visit(model.buckets, ids))
      ensures rows[..] == PatchAll(old(rows[..]), Visit(model.buckets, ids))
      ensures contents == Lines(rows[..])
    {
      PatchViewCounts();
      contents := Serialize();
    }
  }
}
