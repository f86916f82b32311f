/**
  What saving is for: the file `OnDestroy` writes is read back by the next
  `LoadFile`. The lemmas here state that loading the saved file rebuilds the
  dictionary and key list as they were when saved, counts included, and what
  saving right after loading does to each line of the file.
 */
module Reload {
  import opened Text
  import opened Decimal
  import opened Types
  import opened Index
  import opened Persist

  /**
    `ix` is `ix0` after some dialogue requests: the same key list, keys and
    bucket sizes, and every record as in `ix0` except for its count.
   */
  ghost predicate Recounted(ix0: Index, ix: Index) {
    && ix.ids == ix0.ids
    && ix.buckets.Keys == ix0.buckets.Keys
    && (forall k :: k in ix0.buckets ==> |ix.buckets[k]| == |ix0.buckets[k]|)
    && (forall k, j :: k in ix0.buckets && 0 <= j < |ix0.buckets[k]| ==>
          ix.buckets[k][j] == ix0.buckets[k][j].(views := ix.buckets[k][j].views))
  }

  /** A dialogue request keeps the index a recount of the loaded one. */
  lemma BumpRecounted(ix0: Index, ix: Index, k: NPCID, idx: nat)
    requires Recounted(ix0, ix) && k in ix.buckets && idx < |ix.buckets[k]|
    ensures Recounted(ix0, Bump(ix, k, idx))
  {
    BumpOnlyOne(ix, k, idx);
  }

  /** A recount of a consistent index is consistent with the same table. */
  lemma RecountedConsistent(ix0: Index, ix: Index, rows: seq<seq<string>>)
    requires WellIndexed(ix0, rows) && Recounted(ix0, ix)
    ensures Consistent(ix, rows)
  {
    assert SameShape(ix0, ix);
    SameShapeOrder(ix0, ix);
    SameShapeKeys(ix0, ix, rows);
  }

  /** Two recounts of one index that agree on every record are the same index. */
  lemma RecountedEqual(ix0: Index, a: Index, b: Index)
    requires Recounted(ix0, a) && Recounted(ix0, b)
    requires forall k, j :: k in ix0.buckets && 0 <= j < |ix0.buckets[k]| ==> a.buckets[k][j] == b.buckets[k][j]
    ensures a == b
  {
    forall k | k in a.buckets ensures a.buckets[k] == b.buckets[k] {
      assert |a.buckets[k]| == |b.buckets[k]|;
      forall j | 0 <= j < |a.buckets[k]| ensures a.buckets[k][j] == b.buckets[k][j] {
      }
    }
    assert a.buckets == b.buckets;
  }

  /** Adding a record and a recount of it to two recounted indexes keeps them recounted. */
  lemma AddRecounted(ix1: Index, ix2: Index, r1: Record, r2: Record)
    requires Recounted(ix1, ix2) && r2 == r1.(views := r2.views)
    ensures Recounted(Add(ix1, r1), Add(ix2, r2))
  {
  }

  /**
    Two readable tables of the same length whose rows read, row by row, as the
    same records up to the counts, or are both skipped.
   */
  ghost predicate RowsRecounted(t1: seq<seq<string>>, t2: seq<seq<string>>) {
    && |t1| == |t2| && WellFormedTable(t1) && WellFormedTable(t2)
    && forall i :: 0 <= i < |t1| ==>
         && (ParseRow(t1[i], i).None? <==> ParseRow(t2[i], i).None?)
         && (ParseRow(t1[i], i).Some? ==>
               ParseRow(t2[i], i).value == ParseRow(t1[i], i).value.(views := ParseRow(t2[i], i).value.views))
  }

  /** Tables that read the same up to the counts index to recounts of each other. */
  lemma {:induction false} IndexRowsRecount(t1: seq<seq<string>>, t2: seq<seq<string>>)
    requires RowsRecounted(t1, t2)
    ensures Recounted(IndexRows(t1), IndexRows(t2))
    decreases |t1|
  {
    if t1 != [] {
      var n := |t1| - 1;
      assert forall i :: 0 <= i < n ==> t1[..n][i] == t1[i] && t2[..n][i] == t2[i];
      assert RowsRecounted(t1[..n], t2[..n]);
      IndexRowsRecount(t1[..n], t2[..n]);
      match ParseRow(t1[n], n)
      case None =>
      case Some(r1) =>
        AddRecounted(IndexRows(t1[..n]), IndexRows(t2[..n]), r1, ParseRow(t2[n], n).value);
    }
  }

  /** Writing a count into a readable, non-skipped row changes only the count it reads as. */
  lemma ParseWithViews(row: seq<string>, line: nat, views: nat)
    requires WellFormedRow(row) && row[0] != ""
    ensures WellFormedRow(WithViews(row, views))
    ensures ParseRow(WithViews(row, views), line) == Some(ParseRow(row, line).value.(views := views))
  {
    var r := WithViews(row, views);
    ParseNatToString(views);
    assert r[0] == row[0] && r[1] == row[1] && r[2] == row[2];
  }

  /** After saving a recount of the loaded index, a record's row of origin reads as that record. */
  lemma SavedOrigin(rows: seq<seq<string>>, ix0: Index, ix: Index, k: NPCID, j: nat)
    requires WellFormedTable(rows) && OriginsIn(ix0, rows) && LoadedFrom(ix0, rows)
    requires Recounted(ix0, ix) && Consistent(ix, rows)
    requires k in ix.buckets && j < |ix.buckets[k]|
    ensures Patchable(rows, Visit(ix.buckets, ix.ids))
    ensures ix.buckets[k][j].lineOfOrigin < |rows|
    ensures WellFormedRow(PatchAll(rows, Visit(ix.buckets, ix.ids))[ix.buckets[k][j].lineOfOrigin])
    ensures ParseRow(PatchAll(rows, Visit(ix.buckets, ix.ids))[ix.buckets[k][j].lineOfOrigin], ix.buckets[k][j].lineOfOrigin)
      == Some(ix.buckets[k][j])
  {
    SavedAt(ix, rows, k, j);
    var e := ix.buckets[k][j];
    var l := e.lineOfOrigin;
    assert ParseRow(rows[l], l) == Some(ix0.buckets[k][j]);
    ParseWithViews(rows[l], l, e.views);
  }

  /** Saving leaves a skipped row unchanged: no record comes from it. */
  lemma SavedSkipped(rows: seq<seq<string>>, ix: Index, i: nat)
    requires Consistent(ix, rows) && i < |rows| && |rows[i]| >= 1 && rows[i][0] == ""
    ensures Patchable(rows, Visit(ix.buckets, ix.ids))
    ensures PatchAll(rows, Visit(ix.buckets, ix.ids))[i] == rows[i]
  {
    assert !IsOrigin(ix, i);
    SavedUntouched(ix, rows, i);
  }

  /**
    After saving a recount of the loaded index, a non-skipped row is still
    readable and reads as before up to its count.
   */
  lemma SavedRead(rows: seq<seq<string>>, ix0: Index, ix: Index, i: nat)
    requires WellFormedTable(rows) && Complete(ix0, rows)
    requires Recounted(ix0, ix) && Consistent(ix, rows) && i < |rows| && rows[i][0] != ""
    ensures Patchable(rows, Visit(ix.buckets, ix.ids))
    ensures var p := PatchAll(rows, Visit(ix.buckets, ix.ids))[i];
      && WellFormedRow(p) && p[0] != ""
      && ParseRow(p, i).value == ParseRow(rows[i], i).value.(views := ParseRow(p, i).value.views)
  {
    var r := ParseRow(rows[i], i).value;
    var j :| 0 <= j < |ix0.buckets[r.id]| && ix0.buckets[r.id][j] == r;
    var e := ix.buckets[r.id][j];
    assert e.lineOfOrigin == i;
    SavedAt(ix, rows, r.id, j);
    ParseWithViews(rows[i], i, e.views);
  }

  /**
    After saving a recount of the loaded index, every row is readable and
    reads as before up to its count; a skipped row is still skipped.
   */
  lemma SavedTable(rows: seq<seq<string>>, ix0: Index, ix: Index)
    requires WellFormedTable(rows) && Complete(ix0, rows)
    requires Recounted(ix0, ix) && Consistent(ix, rows)
    ensures Patchable(rows, Visit(ix.buckets, ix.ids))
    ensures RowsRecounted(rows, PatchAll(rows, Visit(ix.buckets, ix.ids)))
  {
    VisitPatchable(ix, rows);
    var patched := PatchAll(rows, Visit(ix.buckets, ix.ids));
    forall i | 0 <= i < |rows|
      ensures WellFormedRow(patched[i])
      ensures ParseRow(rows[i], i).None? <==> ParseRow(patched[i], i).None?
      ensures ParseRow(rows[i], i).Some? ==>
        ParseRow(patched[i], i).value == ParseRow(rows[i], i).value.(views := ParseRow(patched[i], i).value.views)
    {
      if rows[i][0] == "" {
        SavedSkipped(rows, ix, i);
      } else {
        SavedRead(rows, ix0, ix, i);
      }
    }
  }

  /**
    Loading the table saved from a recount of the loaded index rebuilds that
    index: the same keys in the same order, the same records in the same
    buckets, each with the count it had when saved.
   */
  lemma ReloadRestores(rows: seq<seq<string>>, ix: Index)
    requires WellFormedTable(rows) && Recounted(IndexRows(rows), ix)
    ensures Patchable(rows, Visit(ix.buckets, ix.ids))
    ensures WellFormedTable(PatchAll(rows, Visit(ix.buckets, ix.ids)))
    ensures IndexRows(PatchAll(rows, Visit(ix.buckets, ix.ids))) == ix
  {
    var ix0 := IndexRows(rows);
    IndexRowsSound(rows);
    RecountedConsistent(ix0, ix, rows);
    SavedTable(rows, ix0, ix);
    var patched := PatchAll(rows, Visit(ix.buckets, ix.ids));
    IndexRowsRecount(rows, patched);
    var back := IndexRows(patched);
    IndexRowsSound(patched);
    forall k, j | k in ix0.buckets && 0 <= j < |ix0.buckets[k]|
      ensures back.buckets[k][j] == ix.buckets[k][j]
    {
      var l := ix0.buckets[k][j].lineOfOrigin;
      SavedOrigin(rows, ix0, ix, k, j);
      assert ParseRow(patched[l], l) == Some(back.buckets[k][j]);
    }
    RecountedEqual(ix0, back, ix);
  }

  // ----- the saved file as text -----

  /** The lines of the saved file: each row joined with ','. */
  function JoinRows(rows: seq<seq<string>>): seq<string>
  {
    seq(|rows|, i requires 0 <= i < |rows| => Join(rows[i]))
  }

  /** The saved text is the joined rows, each followed by a newline. */
  lemma {:induction false} LinesJoinRows(rows: seq<seq<string>>)
    ensures Lines(rows) == Unlines(JoinRows(rows))
    decreases |rows|
  {
    if rows != [] {
      var n := |rows| - 1;
      LinesJoinRows(rows[..n]);
      assert JoinRows(rows)[..n] == JoinRows(rows[..n]);
    }
  }

  /** Every row holds at least one cell and no cell holds a ','. */
  ghost predicate CellRows(rows: seq<seq<string>>) {
    forall i :: 0 <= i < |rows| ==> |rows[i]| >= 1 && forall c :: 0 <= c < |rows[i]| ==> IsCell(rows[i][c])
  }

  /** Reading back the joined lines of a table of cells gives the table. */
  lemma SplitJoinRows(rows: seq<seq<string>>)
    requires CellRows(rows)
    ensures SplitLines(JoinRows(rows)) == rows
  {
    forall i | 0 <= i < |rows| ensures SplitLines(JoinRows(rows))[i] == rows[i] {
      SplitJoin(rows[i]);
    }
  }

  /** A decimal count holds no ','. */
  lemma DigitsAreCell(s: string)
    requires IsDigits(s)
    ensures IsCell(s)
  {
  }

  /** Patching counts into a table of cells leaves a table of cells. */
  lemma {:induction false} PatchAllCells(rows: seq<seq<string>>, recs: seq<Record>)
    requires Patchable(rows, recs) && CellRows(rows)
    ensures CellRows(PatchAll(rows, recs))
    decreases |recs|
  {
    if recs != [] {
      var init := recs[..|recs| - 1];
      var r := recs[|recs| - 1];
      assert Patchable(rows, init);
      PatchAllCells(rows, init);
      DigitsAreCell(NatToString(r.views));
    }
  }

  /**
    Saving, then loading the saved file: the text written is `Unlines` of some
    lines, and loading those lines rebuilds the saved index. `ix` is the index
    loaded from `lines` after any number of dialogue requests.
   */
  lemma SaveThenLoad(lines: seq<string>, ix: Index)
    requires WellFormedTable(SplitLines(lines)) && Recounted(IndexRows(SplitLines(lines)), ix)
    ensures Patchable(SplitLines(lines), Visit(ix.buckets, ix.ids))
    ensures var saved := JoinRows(PatchAll(SplitLines(lines), Visit(ix.buckets, ix.ids)));
      && Lines(PatchAll(SplitLines(lines), Visit(ix.buckets, ix.ids))) == Unlines(saved)
      && WellFormedTable(SplitLines(saved))
      && IndexRows(SplitLines(saved)) == ix
  {
    var rows := SplitLines(lines);
    ReloadRestores(rows, ix);
    var patched := PatchAll(rows, Visit(ix.buckets, ix.ids));
    PatchAllCells(rows, Visit(ix.buckets, ix.ids));
    SplitJoinRows(patched);
    LinesJoinRows(patched);
  }

  /** Saving right after loading leaves a skipped row as it was and writes the count it was read with into any other row. */
  lemma SavedAfterLoad(rows: seq<seq<string>>, i: nat)
    requires WellFormedTable(rows) && i < |rows|
    ensures Patchable(rows, Visit(IndexRows(rows).buckets, IndexRows(rows).ids))
    ensures PatchAll(rows, Visit(IndexRows(rows).buckets, IndexRows(rows).ids))[i] ==
      if rows[i][0] == "" then rows[i] else WithViews(rows[i], ParseRow(rows[i], i).value.views)
  {
    var ix := IndexRows(rows);
    IndexRowsSound(rows);
    VisitPatchable(ix, rows);
    if rows[i][0] == "" {
      assert !IsOrigin(ix, i);
      SavedUntouched(ix, rows, i);
    } else {
      var r := ParseRow(rows[i], i).value;
      var j :| 0 <= j < |ix.buckets[r.id]| && ix.buckets[r.id][j] == r;
      SavedAt(ix, rows, r.id, j);
    }
  }

  /**
    The line written for a row read from `line`: a skipped row gives the line
    back, a three-cell row gains the cell "0", and a row with a count gets
    that count rewritten in canonical decimal.
   */
  lemma SavedLine(line: string, i: nat, saved: seq<string>)
    requires WellFormedRow(Split(line))
    requires saved == if Split(line)[0] == "" then Split(line)
                      else WithViews(Split(line), ParseRow(Split(line), i).value.views)
    ensures Split(line)[0] == "" ==> Join(saved) == line
    ensures Split(line)[0] != "" && |Split(line)| == 3 ==> Join(saved) == line + [Delimiter, '0']
    ensures Split(line)[0] != "" && |Split(line)| >= 4 ==>
      saved == Split(line)[3 := NatToString(ParseNat(Split(line)[3]))] &&
      (IsCanonical(Split(line)[3]) ==> Join(saved) == line)
  {
    var row := Split(line);
    JoinSplit(line);
    if row[0] != "" {
      if |row| == 3 {
        assert NatToString(0) == "0";
        assert saved == row + ["0"];
        JoinAppend(row, "0");
        assert Join(row) + [Delimiter] + "0" == line + [Delimiter, '0'];
      } else if IsCanonical(row[3]) {
        NatToStringParse(row[3]);
        assert row[3 := NatToString(ParseNat(row[3]))] == row;
      }
    }
  }

  /**
    Saving right after loading, line by line: a skipped line is written back
    as it was, a three-cell line gains the cell "0", and a line with a count
    gets its count rewritten in canonical decimal (so a line whose count was
    already canonical is written back as it was).
   */
  lemma SaveAfterLoad(lines: seq<string>)
    requires WellFormedTable(SplitLines(lines))
    ensures Patchable(SplitLines(lines), Visit(IndexRows(SplitLines(lines)).buckets, IndexRows(SplitLines(lines)).ids))
    ensures var saved := JoinRows(PatchAll(SplitLines(lines),
                                  Visit(IndexRows(SplitLines(lines)).buckets, IndexRows(SplitLines(lines)).ids)));
      && |saved| == |lines|
      && forall i :: 0 <= i < |lines| ==>
           var row := SplitLines(lines)[i];
           && (row[0] == "" ==> saved[i] == lines[i])
           && (row[0] != "" && |row| == 3 ==> saved[i] == lines[i] + [Delimiter, '0'])
           && (row[0] != "" && |row| >= 4 ==>
                 saved[i] == Join(row[3 := NatToString(ParseNat(row[3]))]) &&
                 (IsCanonical(row[3]) ==> saved[i] == lines[i]))
  {
    var rows := SplitLines(lines);
    var ix := IndexRows(rows);
    IndexRowsSound(rows);
    VisitPatchable(ix, rows);
    var patched := PatchAll(rows, Visit(ix.buckets, ix.ids));
    forall i | 0 <= i < |lines|
      ensures var row := rows[i];
        && (row[0] == "" ==> Join(patched[i]) == lines[i])
        && (row[0] != "" && |row| == 3 ==> Join(patched[i]) == lines[i] + [Delimiter, '0'])
        && (row[0] != "" && |row| >= 4 ==>
              Join(patched[i]) == Join(row[3 := NatToString(ParseNat(row[3]))]) &&
              (IsCanonical(row[3]) ==> Join(patched[i]) == lines[i]))
    {
      assert rows[i] == Split(lines[i]);
      SavedAfterLoad(rows, i);
      SavedLine(lines[i], i, patched[i]);
    }
  }
}
