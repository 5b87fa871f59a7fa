/**
 * createCoarseToFineMapping for one row: the inverse of the fine-to-coarse
 * map `coarseIndex`, as a compressed-row connectivity from the coarse site to
 * the fine site. A first pass counts the fine rows of each coarse row, the
 * counts become row offsets, and a second pass files every fine row with a
 * coarse id (negative ids are skipped) under that id, in ascending order.
 */
module MFCoarseToFine {
  import opened MFTypes

  /** The fine rows among the first n that are aggregated into coarse row c, in ascending order. */
  function FineRowsOf(s: seq<int>, c: int, n: nat): (r: seq<int>)
    requires n <= |s|
    ensures |r| == CountOf(s, c, n)
  {
    if n == 0 then [] else FineRowsOf(s, c, n - 1) + (if s[n - 1] == c then [n - 1] else [])
  }

  /** How many of the first n fine rows are aggregated into coarse row c (addCount's tally). */
  function CountOf(s: seq<int>, c: int, n: nat): nat
    requires n <= |s|
  {
    if n == 0 then 0 else CountOf(s, c, n - 1) + (if s[n - 1] == c then 1 else 0)
  }

  /** A coarse row lists exactly the fine rows mapped to it, so a row with a negative id is listed nowhere. */
  lemma {:induction false} FineRowsMembership(s: seq<int>, c: int, n: nat, nr: int)
    requires n <= |s|
    ensures nr in FineRowsOf(s, c, n) <==> 0 <= nr < n && s[nr] == c
  {
    if n > 0 {
      FineRowsMembership(s, c, n - 1, nr);
    }
  }

  /** Each list is strictly ascending, so no fine row is listed twice. */
  lemma {:induction false} FineRowsAscending(s: seq<int>, c: int, n: nat)
    requires n <= |s|
    ensures Increasing(FineRowsOf(s, c, n))
    ensures forall i :: 0 <= i < |FineRowsOf(s, c, n)| ==> FineRowsOf(s, c, n)[i] < n
  {
    if n > 0 {
      FineRowsAscending(s, c, n - 1);
    }
  }

  /** Counts only grow as fine rows are scanned. */
  lemma {:induction false} CountOfMonotone(s: seq<int>, c: int, a: nat, b: nat)
    requires a <= b <= |s|
    ensures CountOf(s, c, a) <= CountOf(s, c, b)
    decreases b - a
  {
    if a < b {
      CountOfMonotone(s, c, a, b - 1);
    }
  }

  /** The fine-to-coarse map sends every fine row below n to a coarse row below nCoarse (or to a negative id). */
  predicate IdsBelow(s: seq<int>, n: int, nCoarse: int)
  {
    forall nr :: 0 <= nr < n && nr < |s| ==> s[nr] < nCoarse
  }

  /** The counts of every coarse row, over the first n fine rows. */
  function Counts(s: seq<int>, n: nat, nCoarse: nat): (r: seq<int>)
    requires n <= |s|
    ensures |r| == nCoarse
    ensures forall c :: 0 <= c < nCoarse ==> r[c] == CountOf(s, c, n)
  {
    seq(nCoarse, c => CountOf(s, c, n))
  }

  /** initCount and addCount: the tally of every coarse row. */
  method CountRows(coarseIndex: array<int>, nFine: nat, nCoarse: nat) returns (counts: array<int>)
    requires nFine <= coarseIndex.Length && IdsBelow(coarseIndex[..], nFine, nCoarse)
    ensures counts[..] == Counts(coarseIndex[..], nFine, nCoarse)
  {
    ghost var s := coarseIndex[..];
    counts := new int[nCoarse](_ => 0);
    var nr := 0;
    while nr < nFine
      invariant 0 <= nr <= nFine
      invariant counts.Length == nCoarse
      invariant forall c :: 0 <= c < nCoarse ==> counts[c] == CountOf(s, c, nr)
    {
      var c := coarseIndex[nr];
      if c >= 0 {
        counts[c] := counts[c] + 1;
      }
      nr := nr + 1;
    }
    assert counts[..] == Counts(s, nFine, nCoarse);
  }

  /**
   * The offsets lay the coarse rows out one after the other: the first starts
   * at 0 and each next one starts where the previous one's count ends.
   */
  ghost predicate Laid(offsets: seq<int>, counts: seq<int>, nCoarse: nat)
  {
    |offsets| == nCoarse + 1 && |counts| == nCoarse && offsets[0] == 0 &&
    forall c :: 0 <= c < nCoarse ==> counts[c] >= 0 && offsets[c + 1] == offsets[c] + counts[c]
  }

  /** Laid-out offsets never decrease. */
  lemma {:induction false} LaidMonotone(offsets: seq<int>, counts: seq<int>, nCoarse: nat, a: int, b: int)
    requires Laid(offsets, counts, nCoarse) && 0 <= a <= b <= nCoarse
    ensures 0 <= offsets[a] <= offsets[b]
    decreases b, a
  {
    if a < b {
      LaidMonotone(offsets, counts, nCoarse, a, b - 1);
    } else if 0 < a {
      LaidMonotone(offsets, counts, nCoarse, 0, a);
    }
  }

  /** finishCount: row offsets from the counts, one more than there are coarse rows. */
  method FinishCount(counts: array<int>) returns (row: array<int>)
    requires forall c :: 0 <= c < counts.Length ==> counts[c] >= 0
    ensures Laid(row[..], counts[..], counts.Length)
  {
    row := new int[counts.Length + 1];
    row[0] := 0;
    var c := 0;
    while c < counts.Length
      invariant 0 <= c <= counts.Length
      invariant row[0] == 0
      invariant forall c' :: 0 <= c' < c ==> row[c' + 1] == row[c'] + counts[c']
    {
      row[c + 1] := row[c] + counts[c];
      c := c + 1;
    }
  }

  /** The places from `start` on hold exactly `list`. */
  ghost predicate Holds(col: seq<int>, start: int, list: seq<int>)
  {
    0 <= start && start + |list| <= |col| && col[start..start + |list|] == list
  }

  /** Every coarse row holds, from its offset on, the fine rows below nr that map to it. */
  ghost predicate Filed(col: seq<int>, offsets: seq<int>, s: seq<int>, nCoarse: nat, nr: nat)
    requires nr <= |s| && |offsets| == nCoarse + 1
  {
    forall c :: 0 <= c < nCoarse ==> Holds(col, offsets[c], FineRowsOf(s, c, nr))
  }

  /** A write outside a row's places leaves the row. */
  lemma HoldsAfterWriteElsewhere(col: seq<int>, start: int, list: seq<int>, at: int, v: int)
    requires Holds(col, start, list) && 0 <= at < |col| && (at < start || start + |list| <= at)
    ensures Holds(col[at := v], start, list)
  {
    assert col[at := v][start..start + |list|] == col[start..start + |list|];
  }

  /** A write just after a row's places extends the row. */
  lemma HoldsAfterWriteNext(col: seq<int>, start: int, list: seq<int>, v: int)
    requires Holds(col, start, list) && start + |list| < |col|
    ensures Holds(col[start + |list| := v], start, list + [v])
  {
    assert col[start + |list| := v][start..start + |list| + 1] == col[start..start + |list|] + [v];
  }

  /** Filing fine row nr at place `at`, the next free one of coarse row c, keeps the list of coarse row c'. */
  lemma RowAfterAdd(before: seq<int>, offsets: seq<int>, s: seq<int>, nCoarse: nat, nFine: nat,
                    counts: seq<int>, nr: nat, c: int, at: int, c': int)
    requires nr < nFine <= |s| && 0 <= c < nCoarse && s[nr] == c && 0 <= c' < nCoarse
    requires counts == Counts(s, nFine, nCoarse) && Laid(offsets, counts, nCoarse)
    requires at == offsets[c] + CountOf(s, c, nr) && 0 <= at < offsets[c + 1] <= offsets[nCoarse] == |before|
    requires Holds(before, offsets[c'], FineRowsOf(s, c', nr))
    ensures Holds(before[at := nr], offsets[c'], FineRowsOf(s, c', nr + 1))
  {
    if c' == c {
      HoldsAfterWriteNext(before, offsets[c], FineRowsOf(s, c, nr), nr);
    } else {
      CountOfMonotone(s, c', nr, nFine);
      if c' < c {
        LaidMonotone(offsets, counts, nCoarse, c' + 1, c);
      } else {
        LaidMonotone(offsets, counts, nCoarse, c + 1, c');
      }
      HoldsAfterWriteElsewhere(before, offsets[c'], FineRowsOf(s, c', nr), at, nr);
    }
  }

  /** The next free place of coarse row c, before fine row nr of that row is filed, lies inside the row. */
  lemma NextPlaceInRow(offsets: seq<int>, s: seq<int>, nCoarse: nat, nFine: nat, counts: seq<int>, nr: nat, c: int)
    requires nr < nFine <= |s| && 0 <= c < nCoarse && s[nr] == c
    requires counts == Counts(s, nFine, nCoarse) && Laid(offsets, counts, nCoarse)
    ensures 0 <= offsets[c] + CountOf(s, c, nr) < offsets[c + 1] <= offsets[nCoarse]
  {
    CountOfMonotone(s, c, nr + 1, nFine);
    LaidMonotone(offsets, counts, nCoarse, 0, c);
    LaidMonotone(offsets, counts, nCoarse, c + 1, nCoarse);
  }

  /** Filing fine row nr at the next free place of its coarse row c keeps every row's list. */
  lemma FiledAfterAdd(before: seq<int>, offsets: seq<int>, s: seq<int>, nCoarse: nat, nFine: nat,
                      counts: seq<int>, nr: nat, c: int, at: int)
    requires nr < nFine <= |s| && 0 <= c < nCoarse && s[nr] == c
    requires counts == Counts(s, nFine, nCoarse) && Laid(offsets, counts, nCoarse)
    requires |before| == offsets[nCoarse] && Filed(before, offsets, s, nCoarse, nr)
    requires at == offsets[c] + CountOf(s, c, nr)
    ensures 0 <= at < |before|
    ensures Filed(before[at := nr], offsets, s, nCoarse, nr + 1)
  {
    NextPlaceInRow(offsets, s, nCoarse, nFine, counts, nr, c);
    forall c' | 0 <= c' < nCoarse
      ensures Holds(before[at := nr], offsets[c'], FineRowsOf(s, c', nr + 1))
    {
      RowAfterAdd(before, offsets, s, nCoarse, nFine, counts, nr, c, at, c');
    }
  }

  /** A fine row with a negative coarse id is filed nowhere. */
  lemma FiledSkip(col: seq<int>, offsets: seq<int>, s: seq<int>, nCoarse: nat, nr: nat)
    requires nr < |s| && s[nr] < 0 && |offsets| == nCoarse + 1
    requires Filed(col, offsets, s, nCoarse, nr)
    ensures Filed(col, offsets, s, nCoarse, nr + 1)
  {
    forall c' | 0 <= c' < nCoarse
      ensures Holds(col, offsets[c'], FineRowsOf(s, c', nr + 1))
    {
      assert FineRowsOf(s, c', nr + 1) == FineRowsOf(s, c', nr);
    }
  }

  /** One add(c, nr): fine row nr goes to the next free place of coarse row c. */
  method FileOne(col: array<int>, next: array<int>, nr: nat, c: int, ghost s: seq<int>, nCoarse: nat, nFine: nat,
                 ghost counts: seq<int>, ghost offsets: seq<int>)
    requires nr < nFine <= |s| && 0 <= c < nCoarse && s[nr] == c && next.Length == nCoarse && col != next
    requires counts == Counts(s, nFine, nCoarse) && Laid(offsets, counts, nCoarse)
    requires col.Length == offsets[nCoarse]
    requires forall c' :: 0 <= c' < nCoarse ==> next[c'] == offsets[c'] + CountOf(s, c', nr)
    requires Filed(col[..], offsets, s, nCoarse, nr)
    modifies col, next
    ensures forall c' :: 0 <= c' < nCoarse ==> next[c'] == offsets[c'] + CountOf(s, c', nr + 1)
    ensures Filed(col[..], offsets, s, nCoarse, nr + 1)
  {
    FiledAfterAdd(col[..], offsets, s, nCoarse, nFine, counts, nr, c, next[c]);
    col[next[c]] := nr;
    next[c] := next[c] + 1;
  }

  /** add: every fine row with a coarse id, in ascending order, goes to the next free place of its coarse row. */
  method FillRows(coarseIndex: array<int>, nFine: nat, nCoarse: nat, row: array<int>, ghost counts: seq<int>)
    returns (col: array<int>)
    requires nFine <= coarseIndex.Length && IdsBelow(coarseIndex[..], nFine, nCoarse)
    requires counts == Counts(coarseIndex[..], nFine, nCoarse) && Laid(row[..], counts, nCoarse)
    ensures col.Length == row[nCoarse]
    ensures Filed(col[..], row[..], coarseIndex[..], nCoarse, nFine)
  {
    ghost var s := coarseIndex[..];
    ghost var offsets := row[..];
    LaidMonotone(offsets, counts, nCoarse, 0, nCoarse);
    col := new int[row[nCoarse]];
    var next := new int[nCoarse](c requires 0 <= c < nCoarse reads row => row[c]);
    forall c | 0 <= c < nCoarse ensures Holds(col[..], offsets[c], FineRowsOf(s, c, 0)) {
      LaidMonotone(offsets, counts, nCoarse, c, nCoarse);
    }
    var nr := 0;
    while nr < nFine
      invariant 0 <= nr <= nFine
      invariant forall c :: 0 <= c < nCoarse ==> next[c] == offsets[c] + CountOf(s, c, nr)
      invariant Filed(col[..], offsets, s, nCoarse, nr)
    {
      var c := coarseIndex[nr];
      if c >= 0 {
        FileOne(col, next, nr, c, s, nCoarse, nFine, counts, offsets);
      } else {
        FiledSkip(col[..], offsets, s, nCoarse, nr);
      }
      nr := nr + 1;
    }
  }

  /** The fine rows a compressed-row connectivity lists for coarse row c. */
  function RowOf(ctf: CoarseToFine, c: int): seq<int>
  {
    if 0 <= c && c + 1 < |ctf.row| && 0 <= ctf.row[c] <= ctf.row[c + 1] <= |ctf.col|
    then ctf.col[ctf.row[c]..ctf.row[c + 1]] else []
  }

  /** ctf, from a coarse site of nCoarse rows to a fine site of nFine rows, is the inverse of s. */
  ghost predicate InverseOf(ctf: CoarseToFine, s: seq<int>, nFine: nat, nCoarse: nat)
    requires nFine <= |s|
  {
    ctf.rowCount == nCoarse && ctf.colCount == nFine &&
    |ctf.row| == nCoarse + 1 && ctf.row[0] == 0 && ctf.row[nCoarse] == |ctf.col| &&
    forall c :: 0 <= c < nCoarse ==> RowLists(ctf, s, nFine, c)
  }

  /** Coarse row c of ctf has its places in the column list and lists the fine rows that map to c. */
  ghost predicate RowLists(ctf: CoarseToFine, s: seq<int>, nFine: nat, c: int)
    requires nFine <= |s|
  {
    0 <= c && c + 1 < |ctf.row| &&
    0 <= ctf.row[c] <= ctf.row[c + 1] <= |ctf.col| && RowOf(ctf, c) == FineRowsOf(s, c, nFine)
  }

  /** createCoarseToFineMapping for one row: count, lay out the offsets, file the fine rows. */
  method BuildCoarseToFine(coarseIndex: array<int>, nFine: nat, nCoarse: nat) returns (ctf: CoarseToFine)
    requires nFine <= coarseIndex.Length && IdsBelow(coarseIndex[..], nFine, nCoarse)
    ensures InverseOf(ctf, coarseIndex[..], nFine, nCoarse)
  {
    var counts := CountRows(coarseIndex, nFine, nCoarse);
    var row := FinishCount(counts);
    var col := FillRows(coarseIndex, nFine, nCoarse, row, counts[..]);
    ctf := CoarseToFine(nCoarse, nFine, row[..], col[..]);
    forall c | 0 <= c < nCoarse ensures RowLists(ctf, coarseIndex[..], nFine, c) {
      LaidMonotone(row[..], counts[..], nCoarse, c, c + 1);
      LaidMonotone(row[..], counts[..], nCoarse, c + 1, nCoarse);
      assert Holds(col[..], row[c], FineRowsOf(coarseIndex[..], c, nFine));
    }
  }

  /**
   * In the inverse, fine row nr is listed under coarse row c exactly when
   * coarseIndex[nr] == c: a row with a coarse id is listed under that id
   * only, and a row with a negative id under none.
   */
  lemma InverseMembership(ctf: CoarseToFine, s: seq<int>, nFine: nat, nCoarse: nat, c: int, nr: int)
    requires nFine <= |s| && InverseOf(ctf, s, nFine, nCoarse) && 0 <= c < nCoarse
    ensures nr in RowOf(ctf, c) <==> 0 <= nr < nFine && s[nr] == c
  {
    assert RowLists(ctf, s, nFine, c);
    FineRowsMembership(s, c, nFine, nr);
  }

  /** Each coarse row of the inverse lists its fine rows once each, in ascending order, and as many as were counted. */
  lemma InverseRowsAscending(ctf: CoarseToFine, s: seq<int>, nFine: nat, nCoarse: nat, c: int)
    requires nFine <= |s| && InverseOf(ctf, s, nFine, nCoarse) && 0 <= c < nCoarse
    ensures Increasing(RowOf(ctf, c)) && |RowOf(ctf, c)| == CountOf(s, c, nFine)
  {
    assert RowLists(ctf, s, nFine, c);
    FineRowsAscending(s, c, nFine);
  }
}
