/**
  The dialogue dictionary built by `LoadFile`, as values: each non-blank row
  of the table becomes one record, records are grouped by their (NPC, mood)
  key in file order, and the keys are listed in the order they are first met.
  The imperative loader in module Controller is proved to build exactly
  `IndexRows` of its table; the lemmas here state what that index promises.
 */
module Index {
  import opened Decimal
  import opened Types

  datatype Option<T> = None | Some(value: T)

  /** The dictionary (key to records in file order) and the first-seen key list. */
  datatype Index = Index(buckets: map<NPCID, seq<Record>>, ids: seq<NPCID>)

  /**
    A row the loader can read without failing: a row with a non-blank cell 0
    has at least three cells, a numeric cell 0 and, when present, a numeric
    cell 3. Rows with a blank cell 0 are skipped and may hold anything.
   */
  predicate WellFormedRow(row: seq<string>) {
    |row| >= 1 &&
    (row[0] != "" ==> |row| >= 3 && IsDigits(row[0]) && (|row| >= 4 ==> IsDigits(row[3])))
  }

  predicate WellFormedTable(rows: seq<seq<string>>) {
    forall i :: 0 <= i < |rows| ==> WellFormedRow(rows[i])
  }

  /** The record read from row `line` of the table, or None for a skipped row. */
  function ParseRow(row: seq<string>, line: nat): Option<Record>
    requires WellFormedRow(row)
  {
    if row[0] == "" then None
    else
      var mood := MoodOf(row[1]);
      var views := if |row| < 4 then 0 else ParseNat(row[3]);
      Some(Record(NPCID(ParseNat(row[0]), mood), row[2], mood, views, line))
  }

  /** Appends a record to its key's bucket, opening the bucket (and listing the key) if new. */
  function Add(ix: Index, r: Record): Index {
    if r.id in ix.buckets then Index(ix.buckets[r.id := ix.buckets[r.id] + [r]], ix.ids)
    else Index(ix.buckets[r.id := [r]], ix.ids + [r.id])
  }

  /** The index of a whole table: the rows are read in order, skipped rows add nothing. */
  function IndexRows(rows: seq<seq<string>>): (ix: Index)
    requires WellFormedTable(rows)
    ensures forall t :: 0 <= t < |ix.ids| ==> ix.ids[t] in ix.buckets
    decreases |rows|
  {
    if rows == [] then Index(map[], [])
    else
      var last := |rows| - 1;
      var ix := IndexRows(rows[..last]);
      match ParseRow(rows[last], last)
      case None => ix
      case Some(r) => Add(ix, r)
  }

  /** The effect of one dialogue request on the index: one record's count goes up by one. */
  function Bump(ix: Index, k: NPCID, idx: nat): Index
    requires k in ix.buckets && idx < |ix.buckets[k]|
  {
    var b := ix.buckets[k];
    Index(ix.buckets[k := b[idx := b[idx].(views := b[idx].views + 1)]], ix.ids)
  }

  /** Reading one more row of a table extends the index of the rows before it. */
  lemma IndexRowsStep(rows: seq<seq<string>>, i: nat)
    requires WellFormedTable(rows) && i < |rows|
    ensures WellFormedTable(rows[..i]) && WellFormedTable(rows[..i + 1])
    ensures IndexRows(rows[..i + 1]) ==
      match ParseRow(rows[i], i)
      case None => IndexRows(rows[..i])
      case Some(r) => Add(IndexRows(rows[..i]), r)
  {
    assert rows[..i + 1][..i] == rows[..i];
  }

  // ----- what a well-built index looks like -----

  ghost predicate NoDup<T>(s: seq<T>) {
    forall a, c :: 0 <= a < c < |s| ==> s[a] != s[c]
  }

  /** The key list has no duplicates and lists exactly the keys of the dictionary. */
  ghost predicate KeyList(ix: Index) {
    NoDup(ix.ids) && forall k :: k in ix.buckets <==> k in ix.ids
  }

  /** Buckets are non-empty and every record sits under its own key. */
  ghost predicate Grouped(ix: Index) {
    && (forall k :: k in ix.buckets ==> |ix.buckets[k]| > 0)
    && (forall k, j :: k in ix.buckets && 0 <= j < |ix.buckets[k]| ==>
          ix.buckets[k][j].id == k && ix.buckets[k][j].mood == k.mood)
  }

  /** Within a bucket the records are in strictly increasing row order. */
  ghost predicate InFileOrder(ix: Index) {
    forall k, j1, j2 :: k in ix.buckets && 0 <= j1 < j2 < |ix.buckets[k]| ==>
      ix.buckets[k][j1].lineOfOrigin < ix.buckets[k][j2].lineOfOrigin
  }

  /** Records of different buckets come from different rows. */
  ghost predicate DistinctOrigins(ix: Index) {
    forall k1, j1, k2, j2 ::
      k1 in ix.buckets && k2 in ix.buckets && k1 != k2 &&
      0 <= j1 < |ix.buckets[k1]| && 0 <= j2 < |ix.buckets[k2]| ==>
      ix.buckets[k1][j1].lineOfOrigin != ix.buckets[k2][j2].lineOfOrigin
  }

  /** Keys are listed in the order of the first row of their buckets. */
  ghost predicate FirstSeenOrder(ix: Index) {
    forall a, c ::
      (0 <= a < c < |ix.ids| && ix.ids[a] in ix.buckets && ix.ids[c] in ix.buckets &&
       |ix.buckets[ix.ids[a]]| > 0 && |ix.buckets[ix.ids[c]]| > 0) ==>
      ix.buckets[ix.ids[a]][0].lineOfOrigin < ix.buckets[ix.ids[c]][0].lineOfOrigin
  }

  /** Every record's row exists, has a non-blank cell 0 and at least three cells. */
  ghost predicate OriginsIn(ix: Index, rows: seq<seq<string>>) {
    forall k, j :: k in ix.buckets && 0 <= j < |ix.buckets[k]| ==>
      var e := ix.buckets[k][j];
      e.lineOfOrigin < |rows| && |rows[e.lineOfOrigin]| >= 3 && rows[e.lineOfOrigin][0] != ""
  }

  /**
    What the controller's operations rely on: the key list lists the
    dictionary, every row of origin is named once and can be patched.
   */
  ghost predicate Consistent(ix: Index, rows: seq<seq<string>>) {
    KeyList(ix) && InFileOrder(ix) && DistinctOrigins(ix) && OriginsIn(ix, rows)
  }

  /** The structural invariant of the dictionary, the key list and the table. */
  ghost predicate WellIndexed(ix: Index, rows: seq<seq<string>>) {
    KeyList(ix) && Grouped(ix) && InFileOrder(ix) && DistinctOrigins(ix) &&
    FirstSeenOrder(ix) && OriginsIn(ix, rows)
  }

  /** Every record is exactly what its row of origin reads as. */
  ghost predicate LoadedFrom(ix: Index, rows: seq<seq<string>>)
    requires WellFormedTable(rows) && OriginsIn(ix, rows)
  {
    forall k, j :: k in ix.buckets && 0 <= j < |ix.buckets[k]| ==>
      ParseRow(rows[ix.buckets[k][j].lineOfOrigin], ix.buckets[k][j].lineOfOrigin) == Some(ix.buckets[k][j])
  }

  /** Every non-blank row has its record in the bucket of its key. */
  ghost predicate Complete(ix: Index, rows: seq<seq<string>>)
    requires WellFormedTable(rows)
  {
    forall i :: 0 <= i < |rows| && rows[i][0] != "" ==>
      ParseRow(rows[i], i).value.id in ix.buckets &&
      ParseRow(rows[i], i).value in ix.buckets[ParseRow(rows[i], i).value.id]
  }

  ghost predicate AllBelow(ix: Index, n: nat) {
    forall k, j :: k in ix.buckets && 0 <= j < |ix.buckets[k]| ==> ix.buckets[k][j].lineOfOrigin < n
  }

  // ----- adding one row's record keeps each part of the invariant -----

  lemma AddKeyList(ix: Index, r: Record)
    requires KeyList(ix)
    ensures KeyList(Add(ix, r))
  {
  }

  lemma AddGrouped(ix: Index, r: Record)
    requires Grouped(ix) && r.mood == r.id.mood
    ensures Grouped(Add(ix, r))
  {
  }

  lemma AddInFileOrder(ix: Index, r: Record)
    requires InFileOrder(ix) && AllBelow(ix, r.lineOfOrigin)
    ensures InFileOrder(Add(ix, r))
  {
  }

  lemma AddDistinctOrigins(ix: Index, r: Record)
    requires DistinctOrigins(ix) && AllBelow(ix, r.lineOfOrigin)
    ensures DistinctOrigins(Add(ix, r))
  {
    var b': map<NPCID, seq<Record>> := Add(ix, r).buckets;
    forall k1: NPCID, j1: int, k2: NPCID, j2: int |
      k1 in b' && k2 in b' && k1 != k2 && 0 <= j1 < |b'[k1]| && 0 <= j2 < |b'[k2]|
      ensures b'[k1][j1].lineOfOrigin != b'[k2][j2].lineOfOrigin
    {
      var old1 := k1 in ix.buckets && j1 < |ix.buckets[k1]|;
      var old2 := k2 in ix.buckets && j2 < |ix.buckets[k2]|;
      if old1 { assert b'[k1][j1] == ix.buckets[k1][j1]; }
      if old2 { assert b'[k2][j2] == ix.buckets[k2][j2]; }
      if !old1 { assert b'[k1][j1] == r; }
      if !old2 { assert b'[k2][j2] == r; }
    }
  }

  lemma AddFirstSeenOrder(ix: Index, r: Record)
    requires KeyList(ix) && Grouped(ix) && FirstSeenOrder(ix) && AllBelow(ix, r.lineOfOrigin)
    ensures FirstSeenOrder(Add(ix, r))
  {
    var ix' := Add(ix, r);
    var b': map<NPCID, seq<Record>> := ix'.buckets;
    forall a: int, c: int | 0 <= a < c < |ix'.ids| && ix'.ids[a] in b' && ix'.ids[c] in b' &&
      |b'[ix'.ids[a]]| > 0 && |b'[ix'.ids[c]]| > 0
      ensures b'[ix'.ids[a]][0].lineOfOrigin < b'[ix'.ids[c]][0].lineOfOrigin
    {
      assert ix.ids[a] in ix.buckets;
      assert b'[ix'.ids[a]][0] == ix.buckets[ix.ids[a]][0];
      if c < |ix.ids| {
        assert ix.ids[c] in ix.buckets;
        assert b'[ix'.ids[c]][0] == ix.buckets[ix.ids[c]][0];
      } else {
        assert ix'.ids[c] == r.id && r.id !in ix.buckets;
      }
    }
  }

  lemma AddOriginsIn(ix: Index, rows: seq<seq<string>>, r: Record)
    requires OriginsIn(ix, rows)
    requires r.lineOfOrigin < |rows| && |rows[r.lineOfOrigin]| >= 3 && rows[r.lineOfOrigin][0] != ""
    ensures OriginsIn(Add(ix, r), rows)
  {
  }

  lemma AddAllBelow(ix: Index, r: Record)
    requires AllBelow(ix, r.lineOfOrigin)
    ensures AllBelow(Add(ix, r), r.lineOfOrigin + 1)
  {
  }

  /** Adding the record of a row below every indexed row keeps the index well built. */
  lemma AddKeepsIndex(ix: Index, rows: seq<seq<string>>, r: Record)
    requires WellIndexed(ix, rows) && AllBelow(ix, r.lineOfOrigin)
    requires r.lineOfOrigin < |rows| && |rows[r.lineOfOrigin]| >= 3 && rows[r.lineOfOrigin][0] != ""
    requires r.mood == r.id.mood
    ensures WellIndexed(Add(ix, r), rows) && AllBelow(Add(ix, r), r.lineOfOrigin + 1)
  {
    AddKeyList(ix, r);
    AddGrouped(ix, r);
    AddInFileOrder(ix, r);
    AddDistinctOrigins(ix, r);
    AddFirstSeenOrder(ix, r);
    AddOriginsIn(ix, rows, r);
    AddAllBelow(ix, r);
  }

  // ----- the index of a table -----

  /** Facts about an index of the table without its last row, restated for the whole table. */
  lemma ExtendTable(ix: Index, rows: seq<seq<string>>)
    requires |rows| > 0 && WellFormedTable(rows)
    requires WellIndexed(ix, rows[..|rows| - 1]) && LoadedFrom(ix, rows[..|rows| - 1])
    requires Complete(ix, rows[..|rows| - 1])
    ensures WellIndexed(ix, rows) && LoadedFrom(ix, rows) && AllBelow(ix, |rows| - 1)
    ensures forall i :: 0 <= i < |rows| - 1 && rows[i][0] != "" ==>
      ParseRow(rows[i], i).value.id in ix.buckets &&
      ParseRow(rows[i], i).value in ix.buckets[ParseRow(rows[i], i).value.id]
  {
    var pre := rows[..|rows| - 1];
    assert forall i :: 0 <= i < |pre| ==> pre[i] == rows[i];
  }

  /** The record of the last row is the one LoadedFrom expects, and the older ones keep theirs. */
  lemma AddLoadedFrom(ix: Index, rows: seq<seq<string>>, r: Record)
    requires WellFormedTable(rows) && OriginsIn(ix, rows) && LoadedFrom(ix, rows)
    requires r.lineOfOrigin < |rows| && ParseRow(rows[r.lineOfOrigin], r.lineOfOrigin) == Some(r)
    requires OriginsIn(Add(ix, r), rows)
    ensures LoadedFrom(Add(ix, r), rows)
  {
    var b': map<NPCID, seq<Record>> := Add(ix, r).buckets;
    forall k: NPCID, j: int | k in b' && 0 <= j < |b'[k]|
      ensures ParseRow(rows[b'[k][j].lineOfOrigin], b'[k][j].lineOfOrigin) == Some(b'[k][j])
    {
      if k in ix.buckets && j < |ix.buckets[k]| {
        assert b'[k][j] == ix.buckets[k][j];
      } else {
        assert b'[k][j] == r;
      }
    }
  }

  /** Records already in a bucket stay there when another record is added. */
  lemma AddComplete(ix: Index, rows: seq<seq<string>>, r: Record)
    requires WellFormedTable(rows) && |rows| > 0
    requires forall i :: 0 <= i < |rows| - 1 && rows[i][0] != "" ==>
      ParseRow(rows[i], i).value.id in ix.buckets &&
      ParseRow(rows[i], i).value in ix.buckets[ParseRow(rows[i], i).value.id]
    requires ParseRow(rows[|rows| - 1], |rows| - 1) == Some(r)
    ensures Complete(Add(ix, r), rows)
  {
  }

  /**
    The index of any readable table is well built, each record is what its row
    reads as (key from cells 0 and 1, text from cell 2, count from cell 3 or 0),
    and every non-blank row has its record in its key's bucket.
   */
  lemma {:induction false} IndexRowsSound(rows: seq<seq<string>>)
    requires WellFormedTable(rows)
    ensures WellIndexed(IndexRows(rows), rows)
    ensures LoadedFrom(IndexRows(rows), rows)
    ensures Complete(IndexRows(rows), rows)
    decreases |rows|
  {
    if rows != [] {
      var last := |rows| - 1;
      var pre := rows[..last];
      assert WellFormedTable(pre);
      IndexRowsSound(pre);
      var ix := IndexRows(pre);
      ExtendTable(ix, rows);
      match ParseRow(rows[last], last)
      case None =>
        assert IndexRows(rows) == ix;
      case Some(r) =>
        assert IndexRows(rows) == Add(ix, r);
        AddKeepsIndex(ix, rows, r);
        AddLoadedFrom(ix, rows, r);
        AddComplete(ix, rows, r);
    }
  }

  /** The index of a table is consistent with it. */
  lemma IndexRowsConsistent(rows: seq<seq<string>>)
    requires WellFormedTable(rows)
    ensures Consistent(IndexRows(rows), rows)
  {
    IndexRowsSound(rows);
  }

  // ----- a dialogue request -----

  /** A request changes exactly one count, by one, and nothing else. */
  lemma BumpOnlyOne(ix: Index, k: NPCID, idx: nat)
    requires k in ix.buckets && idx < |ix.buckets[k]|
    ensures Bump(ix, k, idx).ids == ix.ids
    ensures Bump(ix, k, idx).buckets.Keys == ix.buckets.Keys
    ensures forall k' :: k' in ix.buckets ==> |Bump(ix, k, idx).buckets[k']| == |ix.buckets[k']|
    ensures Bump(ix, k, idx).buckets[k][idx] == ix.buckets[k][idx].(views := ix.buckets[k][idx].views + 1)
    ensures forall k', j :: k' in ix.buckets && 0 <= j < |ix.buckets[k']| && (k', j) != (k, idx) ==>
      Bump(ix, k, idx).buckets[k'][j] == ix.buckets[k'][j]
  {
  }

  /** Two indexes with the same keys, key list, bucket sizes and per-record key and row. */
  ghost predicate SameShape(ix: Index, ix': Index) {
    && ix'.ids == ix.ids
    && ix'.buckets.Keys == ix.buckets.Keys
    && (forall k :: k in ix.buckets ==> |ix'.buckets[k]| == |ix.buckets[k]|)
    && (forall k, j :: k in ix.buckets && 0 <= j < |ix.buckets[k]| ==>
          ix'.buckets[k][j].lineOfOrigin == ix.buckets[k][j].lineOfOrigin &&
          ix'.buckets[k][j].id == ix.buckets[k][j].id &&
          ix'.buckets[k][j].mood == ix.buckets[k][j].mood)
  }

  lemma SameShapeOrder(ix: Index, ix': Index)
    requires SameShape(ix, ix') && InFileOrder(ix) && DistinctOrigins(ix)
    ensures InFileOrder(ix') && DistinctOrigins(ix')
  {
  }

  lemma SameShapeKeys(ix: Index, ix': Index, rows: seq<seq<string>>)
    requires SameShape(ix, ix') && KeyList(ix) && Grouped(ix) && FirstSeenOrder(ix) && OriginsIn(ix, rows)
    ensures KeyList(ix') && Grouped(ix') && FirstSeenOrder(ix') && OriginsIn(ix', rows)
  {
    forall a: int, c: int | 0 <= a < c < |ix'.ids| && ix'.ids[a] in ix'.buckets && ix'.ids[c] in ix'.buckets &&
      |ix'.buckets[ix'.ids[a]]| > 0 && |ix'.buckets[ix'.ids[c]]| > 0
      ensures ix'.buckets[ix'.ids[a]][0].lineOfOrigin < ix'.buckets[ix'.ids[c]][0].lineOfOrigin
    {
      assert ix.buckets[ix.ids[a]][0].lineOfOrigin < ix.buckets[ix.ids[c]][0].lineOfOrigin;
    }
  }

  /** A request keeps the index consistent with the table. */
  lemma BumpKeepsConsistent(ix: Index, rows: seq<seq<string>>, k: NPCID, idx: nat)
    requires Consistent(ix, rows)
    requires k in ix.buckets && idx < |ix.buckets[k]|
    ensures Consistent(Bump(ix, k, idx), rows)
  {
    var ix' := Bump(ix, k, idx);
    BumpOnlyOne(ix, k, idx);
    assert SameShape(ix, ix');
    SameShapeOrder(ix, ix');
  }

  /** A request keeps the index well built: keys, rows of origin and order do not change. */
  lemma BumpKeepsIndex(ix: Index, rows: seq<seq<string>>, k: NPCID, idx: nat)
    requires WellIndexed(ix, rows)
    requires k in ix.buckets && idx < |ix.buckets[k]|
    ensures WellIndexed(Bump(ix, k, idx), rows)
  {
    var ix' := Bump(ix, k, idx);
    BumpOnlyOne(ix, k, idx);
    assert SameShape(ix, ix');
    SameShapeOrder(ix, ix');
    SameShapeKeys(ix, ix', rows);
  }
}
