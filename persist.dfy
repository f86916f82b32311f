/**
  Writing view counts back (`OnDestroy`), as values: every record patches
  cell 3 of its row of origin (growing a three-cell row to four cells), then
  each row is joined with ',' and ended with a newline. The imperative save in
  module Controller is proved to compute `PatchAll` and `Lines`; the lemmas
  here state what that does to the table and to the file text.
 */
module Persist {
  import opened Text
  import opened Decimal
  import opened Types
  import opened Index

  /** The line terminator appended after every row (one fixed character in this model). */
  const Newline: char := '\n'

  /**
    A row with its view count cell set: a row of fewer than four cells grows by
    one cell, a longer row is overwritten in cell 3 only.
   */
  function WithViews(row: seq<string>, views: nat): (r: seq<string>)
    requires |row| >= 3
    ensures |r| == if |row| < 4 then 4 else |row|
    ensures r[3] == NatToString(views)
    ensures forall c :: 0 <= c < |row| && c != 3 ==> r[c] == row[c]
  {
    if |row| < 4 then row + [NatToString(views)] else row[3 := NatToString(views)]
  }

  /** The records in the order the save visits them: keys in list order, each bucket in file order. */
  function Visit(buckets: map<NPCID, seq<Record>>, ids: seq<NPCID>): seq<Record>
    requires forall i :: 0 <= i < |ids| ==> ids[i] in buckets
  {
    if ids == [] then []
    else Visit(buckets, ids[..|ids| - 1]) + buckets[ids[|ids| - 1]]
  }

  /** Every record names a row of the table that has at least three cells. */
  ghost predicate Patchable(rows: seq<seq<string>>, recs: seq<Record>) {
    forall j :: 0 <= j < |recs| ==>
      recs[j].lineOfOrigin < |rows| && |rows[recs[j].lineOfOrigin]| >= 3
  }

  ghost predicate DistinctLines(recs: seq<Record>) {
    forall a, c :: 0 <= a < c < |recs| ==> recs[a].lineOfOrigin != recs[c].lineOfOrigin
  }

  /**
    The table after the records, in order, have written their counts into
    their rows of origin. Rows keep their number and never shrink.
   */
  function PatchAll(rows: seq<seq<string>>, recs: seq<Record>): (patched: seq<seq<string>>)
    requires Patchable(rows, recs)
    ensures |patched| == |rows|
    ensures forall i {:trigger patched[i]} :: 0 <= i < |rows| ==> |patched[i]| >= |rows[i]|
    decreases |recs|
  {
    if recs == [] then rows
    else
      var prev := PatchAll(rows, recs[..|recs| - 1]);
      var r := recs[|recs| - 1];
      prev[r.lineOfOrigin := WithViews(prev[r.lineOfOrigin], r.views)]
  }

  /** Patching changes no cell other than cell 3. */
  lemma {:induction false} PatchAllKeeps(rows: seq<seq<string>>, recs: seq<Record>)
    requires Patchable(rows, recs)
    ensures forall i, c :: 0 <= i < |rows| && 0 <= c < |rows[i]| && c != 3 ==> PatchAll(rows, recs)[i][c] == rows[i][c]
    decreases |recs|
  {
    if recs != [] {
      var init := recs[..|recs| - 1];
      assert Patchable(rows, init);
      PatchAllKeeps(rows, init);
    }
  }

  /** The file text of a table: each row joined with ',' and followed by a newline. */
  function Lines(rows: seq<seq<string>>): string
  {
    if rows == [] then ""
    else Lines(rows[..|rows| - 1]) + Join(rows[|rows| - 1]) + [Newline]
  }

  /** The file text made of the given lines, each followed by a newline. */
  function Unlines(lines: seq<string>): string
  {
    if lines == [] then ""
    else Unlines(lines[..|lines| - 1]) + lines[|lines| - 1] + [Newline]
  }

  /** The table read from the given lines, one row per line. */
  function SplitLines(lines: seq<string>): seq<seq<string>>
  {
    seq(|lines|, i requires 0 <= i < |lines| => Split(lines[i]))
  }

  /** Row i of the table read from some lines joins back to line i. */
  lemma SplitLinesJoin(lines: seq<string>)
    ensures |SplitLines(lines)| == |lines|
    ensures forall i :: 0 <= i < |lines| ==> Join(SplitLines(lines)[i]) == lines[i]
  {
    forall i | 0 <= i < |lines| ensures Join(SplitLines(lines)[i]) == lines[i] {
      JoinSplit(lines[i]);
    }
  }

  // ----- patching -----

  /** The records of a prefix name patchable rows when all the records do. */
  lemma PatchablePrefix(rows: seq<seq<string>>, recs: seq<Record>, n: nat)
    requires Patchable(rows, recs) && n <= |recs|
    ensures Patchable(rows, recs[..n])
  {
  }

  /** Patching with the first n + 1 records patches record n's row of the table patched with the first n. */
  lemma PatchAllStep(rows: seq<seq<string>>, recs: seq<Record>, n: nat)
    requires Patchable(rows, recs) && n < |recs|
    ensures Patchable(rows, recs[..n]) && Patchable(rows, recs[..n + 1])
    ensures PatchAll(rows, recs[..n + 1]) ==
      PatchAll(rows, recs[..n])[recs[n].lineOfOrigin := WithViews(PatchAll(rows, recs[..n])[recs[n].lineOfOrigin], recs[n].views)]
  {
    assert recs[..n + 1][..n] == recs[..n];
  }

  /** A table patched with the first n records, then patched with record n, is the table patched with the first n + 1. */
  lemma PatchAllNext(rows: seq<seq<string>>, recs: seq<Record>, n: nat, before: seq<seq<string>>, after: seq<seq<string>>)
    requires Patchable(rows, recs) && n < |recs|
    requires before == PatchAll(rows, recs[..n])
    requires recs[n].lineOfOrigin < |before| && |before[recs[n].lineOfOrigin]| >= 3
    requires after == before[recs[n].lineOfOrigin := WithViews(before[recs[n].lineOfOrigin], recs[n].views)]
    ensures Patchable(rows, recs[..n + 1]) && after == PatchAll(rows, recs[..n + 1])
  {
    PatchAllStep(rows, recs, n);
  }

  /**
    With distinct rows of origin, a row named by no record is left alone and a
    row named by a record ends up as that row with that record's count.
   */
  lemma {:induction false} PatchAllAt(rows: seq<seq<string>>, recs: seq<Record>, i: nat)
    requires Patchable(rows, recs) && DistinctLines(recs) && i < |rows|
    ensures (forall j :: 0 <= j < |recs| ==> recs[j].lineOfOrigin != i) ==> PatchAll(rows, recs)[i] == rows[i]
    ensures forall j :: 0 <= j < |recs| && recs[j].lineOfOrigin == i ==>
      PatchAll(rows, recs)[i] == WithViews(rows[i], recs[j].views)
    decreases |recs|
  {
    if recs != [] {
      var n := |recs| - 1;
      var init := recs[..n];
      var r := recs[n];
      assert Patchable(rows, init) && DistinctLines(init);
      var prev := PatchAll(rows, init);
      assert PatchAll(rows, recs) == prev[r.lineOfOrigin := WithViews(prev[r.lineOfOrigin], r.views)];
      PatchAllAt(rows, init, i);
      if r.lineOfOrigin == i {
        assert forall j :: 0 <= j < n ==> init[j].lineOfOrigin != i;
        assert prev[i] == rows[i];
        assert PatchAll(rows, recs)[i] == WithViews(rows[i], r.views);
      } else {
        assert PatchAll(rows, recs)[i] == prev[i];
        assert forall j :: 0 <= j < n ==> init[j] == recs[j];
      }
    }
  }

  /** Visiting a prefix of the key list visits a prefix of the records. */
  lemma {:induction false} VisitPrefix(buckets: map<NPCID, seq<Record>>, ids: seq<NPCID>, i: nat)
    requires forall t :: 0 <= t < |ids| ==> ids[t] in buckets
    requires i <= |ids|
    ensures |Visit(buckets, ids[..i])| <= |Visit(buckets, ids)|
    ensures Visit(buckets, ids)[..|Visit(buckets, ids[..i])|] == Visit(buckets, ids[..i])
    decreases |ids|
  {
    if i == |ids| {
      assert ids[..i] == ids;
    } else {
      var n := |ids| - 1;
      assert ids[..n][..i] == ids[..i];
      VisitPrefix(buckets, ids[..n], i);
    }
  }

  /** Visiting one more key appends that key's bucket. */
  lemma VisitSnoc(buckets: map<NPCID, seq<Record>>, ids: seq<NPCID>, i: nat)
    requires forall t :: 0 <= t < |ids| ==> ids[t] in buckets
    requires i < |ids|
    ensures Visit(buckets, ids[..i + 1]) == Visit(buckets, ids[..i]) + buckets[ids[i]]
  {
    assert ids[..i + 1][..i] == ids[..i];
  }

  /** When p + q is a prefix of s, q is the slice of s that follows p. */
  lemma PrefixThen<T>(s: seq<T>, p: seq<T>, q: seq<T>)
    requires |p| + |q| <= |s| && s[..|p| + |q|] == p + q
    ensures s[|p|..|p| + |q|] == q
  {
    assert s[|p|..|p| + |q|] == (p + q)[|p|..];
  }

  /** The bucket of key i is visited right after the buckets of the keys before it. */
  lemma VisitBucket(buckets: map<NPCID, seq<Record>>, ids: seq<NPCID>, i: nat)
    requires forall t :: 0 <= t < |ids| ==> ids[t] in buckets
    requires i < |ids|
    ensures |Visit(buckets, ids[..i + 1])| == |Visit(buckets, ids[..i])| + |buckets[ids[i]]|
    ensures |Visit(buckets, ids[..i + 1])| <= |Visit(buckets, ids)|
    ensures Visit(buckets, ids)[|Visit(buckets, ids[..i])|..|Visit(buckets, ids[..i + 1])|] == buckets[ids[i]]
  {
    VisitPrefix(buckets, ids, i + 1);
    VisitSnoc(buckets, ids, i);
    PrefixThen(Visit(buckets, ids), Visit(buckets, ids[..i]), buckets[ids[i]]);
  }

  /** Every record visited comes from the bucket of a listed key. */
  lemma {:induction false} VisitFrom(buckets: map<NPCID, seq<Record>>, ids: seq<NPCID>, p: nat)
    requires forall i :: 0 <= i < |ids| ==> ids[i] in buckets
    requires p < |Visit(buckets, ids)|
    ensures exists k, j :: k in ids && 0 <= j < |buckets[k]| && Visit(buckets, ids)[p] == buckets[k][j]
    decreases |ids|
  {
    var n := |ids| - 1;
    var init := Visit(buckets, ids[..n]);
    if p < |init| {
      VisitFrom(buckets, ids[..n], p);
      var k, j :| k in ids[..n] && 0 <= j < |buckets[k]| && init[p] == buckets[k][j];
      assert k in ids;
    } else {
      assert Visit(buckets, ids)[p] == buckets[ids[n]][p - |init|];
    }
  }

  /** Every record of a listed key's bucket is visited. */
  lemma {:induction false} VisitCovers(buckets: map<NPCID, seq<Record>>, ids: seq<NPCID>, k: NPCID, j: nat)
    requires forall i :: 0 <= i < |ids| ==> ids[i] in buckets
    requires k in ids && j < |buckets[k]|
    ensures buckets[k][j] in Visit(buckets, ids)
    decreases |ids|
  {
    var n := |ids| - 1;
    if ids[n] == k {
      assert Visit(buckets, ids)[|Visit(buckets, ids[..n])| + j] == buckets[k][j];
    } else {
      assert k in ids[..n] by {
        var a :| 0 <= a < |ids| && ids[a] == k;
        assert a < n;
      }
      VisitCovers(buckets, ids[..n], k, j);
    }
  }

  /** Visiting a duplicate-free key list of a well-built index meets every row of origin once. */
  lemma {:induction false} VisitDistinct(ix: Index, ids: seq<NPCID>)
    requires InFileOrder(ix) && DistinctOrigins(ix)
    requires NoDup(ids) && forall i :: 0 <= i < |ids| ==> ids[i] in ix.buckets
    ensures DistinctLines(Visit(ix.buckets, ids))
    decreases |ids|
  {
    if ids != [] {
      var n := |ids| - 1;
      var b := ix.buckets;
      var init := Visit(b, ids[..n]);
      var last := b[ids[n]];
      VisitDistinct(ix, ids[..n]);
      var all := Visit(b, ids);
      assert all == init + last;
      forall a, c | 0 <= a < c < |all|
        ensures all[a].lineOfOrigin != all[c].lineOfOrigin
      {
        if c >= |init| && a < |init| {
          VisitFrom(b, ids[..n], a);
          var k, j :| k in ids[..n] && 0 <= j < |b[k]| && init[a] == b[k][j];
          assert k != ids[n] by {
            var t :| 0 <= t < n && ids[t] == k;
          }
          assert all[c] == last[c - |init|];
        } else if a >= |init| {
          assert all[a] == last[a - |init|] && all[c] == last[c - |init|];
        }
      }
    }
  }

  /** Some record of the index comes from row i. */
  ghost predicate IsOrigin(ix: Index, i: int) {
    exists k, j :: k in ix.buckets && 0 <= j < |ix.buckets[k]| && ix.buckets[k][j].lineOfOrigin == i
  }

  /** The visited records of an index all name rows the save can patch. */
  lemma VisitPatchable(ix: Index, rows: seq<seq<string>>)
    requires Consistent(ix, rows)
    ensures Patchable(rows, Visit(ix.buckets, ix.ids))
  {
    var v := Visit(ix.buckets, ix.ids);
    forall p | 0 <= p < |v|
      ensures v[p].lineOfOrigin < |rows| && |rows[v[p].lineOfOrigin]| >= 3
    {
      VisitFrom(ix.buckets, ix.ids, p);
    }
  }

  /** Saving an index writes each record's count into its row of origin. */
  lemma SavedAt(ix: Index, rows: seq<seq<string>>, k: NPCID, j: nat)
    requires Consistent(ix, rows) && k in ix.buckets && j < |ix.buckets[k]|
    ensures Patchable(rows, Visit(ix.buckets, ix.ids))
    ensures ix.buckets[k][j].lineOfOrigin < |rows|
    ensures PatchAll(rows, Visit(ix.buckets, ix.ids))[ix.buckets[k][j].lineOfOrigin] ==
      WithViews(rows[ix.buckets[k][j].lineOfOrigin], ix.buckets[k][j].views)
  {
    VisitPatchable(ix, rows);
    VisitDistinct(ix, ix.ids);
    VisitCovers(ix.buckets, ix.ids, k, j);
    PatchAllAt(rows, Visit(ix.buckets, ix.ids), ix.buckets[k][j].lineOfOrigin);
  }

  /** Saving an index leaves a row that is no record's row of origin unchanged. */
  lemma SavedUntouched(ix: Index, rows: seq<seq<string>>, i: nat)
    requires Consistent(ix, rows) && i < |rows| && !IsOrigin(ix, i)
    ensures Patchable(rows, Visit(ix.buckets, ix.ids))
    ensures PatchAll(rows, Visit(ix.buckets, ix.ids))[i] == rows[i]
  {
    var v := Visit(ix.buckets, ix.ids);
    VisitPatchable(ix, rows);
    VisitDistinct(ix, ix.ids);
    forall p | 0 <= p < |v| ensures v[p].lineOfOrigin != i {
      VisitFrom(ix.buckets, ix.ids, p);
    }
    PatchAllAt(rows, v, i);
  }

  /** Saving keeps the index consistent with the patched table: rows of origin keep cell 0 and grow only. */
  lemma PatchKeepsIndex(ix: Index, rows: seq<seq<string>>)
    requires Consistent(ix, rows)
    ensures Patchable(rows, Visit(ix.buckets, ix.ids))
    ensures Consistent(ix, PatchAll(rows, Visit(ix.buckets, ix.ids)))
  {
    VisitPatchable(ix, rows);
    PatchAllKeeps(rows, Visit(ix.buckets, ix.ids));
    var patched := PatchAll(rows, Visit(ix.buckets, ix.ids));
    forall k, j | k in ix.buckets && 0 <= j < |ix.buckets[k]|
      ensures ix.buckets[k][j].lineOfOrigin < |patched|
      ensures |patched[ix.buckets[k][j].lineOfOrigin]| >= 3 && patched[ix.buckets[k][j].lineOfOrigin][0] != ""
    {
      var l := ix.buckets[k][j].lineOfOrigin;
      assert patched[l][0] == rows[l][0];
    }
  }
}
