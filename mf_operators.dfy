/**
 * What the block operators of a MultiFieldMatrix compute, row by row: the
 * products (multiply, multiplyAndAdd), the residual, and the three sweeps
 * (forward and reverse Gauss-Seidel, boundary solve). Blocks are reached
 * through the map `m` from (row, col) to Block; arrays through maps from Index
 * to Vec.
 */
module MFOperators {
  import opened MFTypes

  /** One column's term: acc + M(row, col) x[col] when that block exists (and col != row when offDiagonal). */
  function AddCoupling(k: Kernels, m: map<EntryIndex, Block>, row: Index, acc: Vec, col: Index,
                       xs: map<Index, Vec>, offDiagonal: bool): Vec
  {
    var e := EntryIndex(row, col);
    if (!offDiagonal || col != row) && e in m && col in xs then k.multiplyAndAdd(m[e], acc, xs[col]) else acc
  }

  /** The accumulation of a row's terms over the columns `cols`, first column first. */
  function RowFold(k: Kernels, m: map<EntryIndex, Block>, row: Index, acc: Vec, cols: seq<Index>,
                   xs: map<Index, Vec>, offDiagonal: bool): Vec
    decreases |cols|
  {
    if cols == [] then acc
    else
      AddCoupling(k, m, row, RowFold(k, m, row, acc, cols[..|cols| - 1], xs, offDiagonal),
                  cols[|cols| - 1], xs, offDiagonal)
  }

  /** The row has a block in one of the columns (other than its own when offDiagonal). */
  predicate Coupled(m: map<EntryIndex, Block>, row: Index, cols: seq<Index>, offDiagonal: bool)
  {
    exists j :: 0 <= j < |cols| && (!offDiagonal || cols[j] != row) && EntryIndex(row, cols[j]) in m
  }

  /** A row without any block in the columns accumulates nothing. */
  lemma {:induction false} RowFoldUncoupled(k: Kernels, m: map<EntryIndex, Block>, row: Index, acc: Vec,
                                            cols: seq<Index>, xs: map<Index, Vec>, offDiagonal: bool)
    requires !Coupled(m, row, cols, offDiagonal)
    ensures RowFold(k, m, row, acc, cols, xs, offDiagonal) == acc
  {
    if cols != [] {
      var pre := cols[..|cols| - 1];
      assert !Coupled(m, row, pre, offDiagonal) by {
        forall j | 0 <= j < |pre| ensures !((!offDiagonal || pre[j] != row) && EntryIndex(row, pre[j]) in m) {
          assert pre[j] == cols[j];
        }
      }
      RowFoldUncoupled(k, m, row, acc, pre, xs, offDiagonal);
    }
  }

  /** xs and ys hold the same arrays at every key other than `row`. */
  ghost predicate AgreeExcept(xs: map<Index, Vec>, ys: map<Index, Vec>, row: Index)
  {
    forall c :: c != row ==> (c in xs <==> c in ys) && (c in xs ==> xs[c] == ys[c])
  }

  /**
   * When the diagonal is skipped, the row's accumulation does not read the
   * row's own array: only the off-diagonal couplings feed it.
   */
  lemma {:induction false} RowFoldIgnoresOwnRow(k: Kernels, m: map<EntryIndex, Block>, row: Index, acc: Vec,
                                                cols: seq<Index>, xs: map<Index, Vec>, ys: map<Index, Vec>)
    requires AgreeExcept(xs, ys, row)
    ensures RowFold(k, m, row, acc, cols, xs, true) == RowFold(k, m, row, acc, cols, ys, true)
  {
    if cols != [] {
      RowFoldIgnoresOwnRow(k, m, row, acc, cols[..|cols| - 1], xs, ys);
    }
  }

  /** Without a diagonal block, skipping the diagonal changes nothing. */
  lemma {:induction false} RowFoldWithoutDiagonal(k: Kernels, m: map<EntryIndex, Block>, row: Index, acc: Vec,
                                                  cols: seq<Index>, xs: map<Index, Vec>)
    requires EntryIndex(row, row) !in m
    ensures RowFold(k, m, row, acc, cols, xs, true) == RowFold(k, m, row, acc, cols, xs, false)
  {
    if cols != [] {
      RowFoldWithoutDiagonal(k, m, row, acc, cols[..|cols| - 1], xs);
    }
  }

  // ---------------------------------------------------------------- products

  /**
   * multiply (zeroFirst) and multiplyAndAdd: each row of y in turn becomes
   * its accumulation over x's columns, started from zero or from its value.
   */
  function ProductRows(k: Kernels, m: map<EntryIndex, Block>, rows: seq<Index>, cols: seq<Index>,
                       xs: map<Index, Vec>, ys: map<Index, Vec>, zeroFirst: bool): map<Index, Vec>
    decreases |rows|
  {
    if rows == [] then ys
    else
      var done := ProductRows(k, m, rows[..|rows| - 1], cols, xs, ys, zeroFirst);
      var row := rows[|rows| - 1];
      if row in done then
        done[row := RowFold(k, m, row, if zeroFirst then Zero(done[row]) else done[row], cols, xs, false)]
      else done
  }

  /**
   * The rows are independent: a listed row holds its own accumulation over
   * all columns with a block, started from zero (multiply) or from its old
   * value (multiplyAndAdd); every other array is unchanged.
   */
  lemma {:induction false} ProductRowsAt(k: Kernels, m: map<EntryIndex, Block>, rows: seq<Index>, cols: seq<Index>,
                                         xs: map<Index, Vec>, ys: map<Index, Vec>, zeroFirst: bool, r: Index)
    requires Distinct(rows)
    ensures ProductRows(k, m, rows, cols, xs, ys, zeroFirst).Keys == ys.Keys
    ensures r in ys ==>
              ProductRows(k, m, rows, cols, xs, ys, zeroFirst)[r] ==
              (if r in rows then RowFold(k, m, r, if zeroFirst then Zero(ys[r]) else ys[r], cols, xs, false)
               else ys[r])
  {
    if rows != [] {
      var pre := rows[..|rows| - 1];
      assert rows == pre + [rows[|rows| - 1]];
      ProductRowsAt(k, m, pre, cols, xs, ys, zeroFirst, r);
      ProductRowsAt(k, m, pre, cols, xs, ys, zeroFirst, rows[|rows| - 1]);
    }
  }

  /** The arrays of the listed rows set to zero. */
  function ZeroRows(rows: seq<Index>, ys: map<Index, Vec>): (zs: map<Index, Vec>)
    ensures zs.Keys == ys.Keys
  {
    map r | r in ys :: if r in rows then Zero(ys[r]) else ys[r]
  }

  /** multiply is multiplyAndAdd applied to y with its listed rows zeroed first. */
  lemma MultiplyIsZeroThenAdd(k: Kernels, m: map<EntryIndex, Block>, rows: seq<Index>, cols: seq<Index>,
                              xs: map<Index, Vec>, ys: map<Index, Vec>)
    requires Distinct(rows)
    ensures ProductRows(k, m, rows, cols, xs, ys, true) == ProductRows(k, m, rows, cols, xs, ZeroRows(rows, ys), false)
  {
    var a := ProductRows(k, m, rows, cols, xs, ys, true);
    var b := ProductRows(k, m, rows, cols, xs, ZeroRows(rows, ys), false);
    forall r | r in ys ensures r in a && r in b && a[r] == b[r] {
      ProductRowsAt(k, m, rows, cols, xs, ys, true, r);
      ProductRowsAt(k, m, rows, cols, xs, ZeroRows(rows, ys), false, r);
    }
    var any := Index(0, Site(0, 0, 0, []));
    ProductRowsAt(k, m, rows, cols, xs, ys, true, any);
    ProductRowsAt(k, m, rows, cols, xs, ZeroRows(rows, ys), false, any);
  }

  // ---------------------------------------------------------------- residual

  /** computeResidual's start for a row: b on the site's own rows, zero on its ghost rows. */
  function ResidualSeed(r: Vec, b: Vec, site: Site): (s: Vec)
    ensures |s| == |r|
    ensures forall i :: 0 <= i < |r| ==>
              s[i] == if i < site.selfCount && i < |b| then b[i]
                      else if site.selfCount <= i < site.count then 0.0
                      else r[i]
  {
    ZeroPartial(CopyPartial(r, b, 0, site.selfCount), site.selfCount, site.count)
  }

  /** computeResidual: each row with a diagonal block in turn is seeded, then accumulates every coupling. */
  function ResidualRows(k: Kernels, m: map<EntryIndex, Block>, rows: seq<Index>, cols: seq<Index>,
                        xs: map<Index, Vec>, bs: map<Index, Vec>, rs: map<Index, Vec>): map<Index, Vec>
    decreases |rows|
  {
    if rows == [] then rs
    else
      var done := ResidualRows(k, m, rows[..|rows| - 1], cols, xs, bs, rs);
      var row := rows[|rows| - 1];
      if EntryIndex(row, row) in m && row in done && row in bs then
        done[row := RowFold(k, m, row, ResidualSeed(done[row], bs[row], row.site), cols, xs, false)]
      else done
  }

  /**
   * A listed row with a diagonal block holds its seed plus every coupling,
   * the diagonal included; a row without a diagonal block, or not listed,
   * keeps its array.
   */
  lemma {:induction false} ResidualRowsAt(k: Kernels, m: map<EntryIndex, Block>, rows: seq<Index>, cols: seq<Index>,
                                          xs: map<Index, Vec>, bs: map<Index, Vec>, rs: map<Index, Vec>, r: Index)
    requires Distinct(rows)
    ensures ResidualRows(k, m, rows, cols, xs, bs, rs).Keys == rs.Keys
    ensures r in rs ==>
              ResidualRows(k, m, rows, cols, xs, bs, rs)[r] ==
              (if r in rows && EntryIndex(r, r) in m && r in bs
               then RowFold(k, m, r, ResidualSeed(rs[r], bs[r], r.site), cols, xs, false)
               else rs[r])
  {
    if rows != [] {
      var pre := rows[..|rows| - 1];
      assert rows == pre + [rows[|rows| - 1]];
      ResidualRowsAt(k, m, pre, cols, xs, bs, rs, r);
      ResidualRowsAt(k, m, pre, cols, xs, bs, rs, rows[|rows| - 1]);
    }
  }

  // ---------------------------------------------------------------- sweeps

  datatype SweepKind = Forward | Reverse | Boundary

  /** The unknowns x and the scratch arrays temp during a sweep. */
  datatype SweepState = SweepState(x: map<Index, Vec>, temp: map<Index, Vec>)

  /**
   * One row of a sweep. A row with a diagonal block seeds temp[row] from b
   * (the own rows for the Gauss-Seidel sweeps, all of b for the boundary
   * solve), adds the off-diagonal couplings, synchronises x[row] (not for the
   * boundary solve) and lets the diagonal block's kernel produce x[row] and
   * temp[row]. Any other row is skipped.
   */
  function RelaxRow(k: Kernels, m: map<EntryIndex, Block>, kind: SweepKind, cols: seq<Index>,
                    bs: map<Index, Vec>, st: SweepState, row: Index): SweepState
  {
    var e := EntryIndex(row, row);
    if e in m && row in st.x && row in st.temp && row in bs then
      var r0 := if kind == Boundary then bs[row] else CopyPartial(st.temp[row], bs[row], 0, row.site.selfCount);
      var r := RowFold(k, m, row, r0, cols, st.x, true);
      var out := match kind
        case Forward => k.forwardGS(m[e], k.syncLocal(row, st.x[row]), r)
        case Reverse => k.reverseGS(m[e], k.syncLocal(row, st.x[row]), r)
        case Boundary => k.solveBoundary(m[e], st.x[row], r);
      SweepState(st.x[row := out.0], st.temp[row := out.1])
    else st
  }

  /** The rows of `order` relaxed one after the other, first row first. */
  function Sweep(k: Kernels, m: map<EntryIndex, Block>, kind: SweepKind, order: seq<Index>, cols: seq<Index>,
                 bs: map<Index, Vec>, st: SweepState): SweepState
    decreases |order|
  {
    if order == [] then st
    else RelaxRow(k, m, kind, cols, bs, Sweep(k, m, kind, order[..|order| - 1], cols, bs, st), order[|order| - 1])
  }

  /** Sweeping o1 and then o2 is sweeping o1 + o2: each row sees the rows relaxed before it. */
  lemma {:induction false} SweepAppend(k: Kernels, m: map<EntryIndex, Block>, kind: SweepKind,
                                       o1: seq<Index>, o2: seq<Index>, cols: seq<Index>,
                                       bs: map<Index, Vec>, st: SweepState)
    ensures Sweep(k, m, kind, o1 + o2, cols, bs, st) == Sweep(k, m, kind, o2, cols, bs, Sweep(k, m, kind, o1, cols, bs, st))
    decreases |o2|
  {
    if o2 == [] {
      assert o1 + o2 == o1;
    } else {
      var pre := o2[..|o2| - 1];
      assert (o1 + o2)[..|o1 + o2| - 1] == o1 + pre;
      SweepAppend(k, m, kind, o1, pre, cols, bs, st);
    }
  }

  /**
   * A sweep writes only the rows it visits that have a diagonal block: every
   * other row keeps x and temp, and no array is added or removed.
   */
  lemma {:induction false} SweepFrame(k: Kernels, m: map<EntryIndex, Block>, kind: SweepKind, order: seq<Index>,
                                      cols: seq<Index>, bs: map<Index, Vec>, st: SweepState, r: Index)
    ensures Sweep(k, m, kind, order, cols, bs, st).x.Keys == st.x.Keys
    ensures Sweep(k, m, kind, order, cols, bs, st).temp.Keys == st.temp.Keys
    ensures (r !in order || EntryIndex(r, r) !in m) ==>
              (r in st.x ==> Sweep(k, m, kind, order, cols, bs, st).x[r] == st.x[r]) &&
              (r in st.temp ==> Sweep(k, m, kind, order, cols, bs, st).temp[r] == st.temp[r])
  {
    if order != [] {
      var pre := order[..|order| - 1];
      assert order == pre + [order[|order| - 1]];
      SweepFrame(k, m, kind, pre, cols, bs, st, r);
    }
  }

  /** reverseGS's loop: the rows from the last down to rows[i]. */
  function SweepDown(k: Kernels, m: map<EntryIndex, Block>, kind: SweepKind, rows: seq<Index>, i: nat,
                     cols: seq<Index>, bs: map<Index, Vec>, st: SweepState): SweepState
    requires i <= |rows|
    decreases |rows| - i
  {
    if i == |rows| then st else RelaxRow(k, m, kind, cols, bs, SweepDown(k, m, kind, rows, i + 1, cols, bs, st), rows[i])
  }

  /** The reversed order of a sequence. */
  function Backwards<T>(s: seq<T>): (r: seq<T>)
    ensures |r| == |s|
  {
    if s == [] then [] else Backwards(s[1..]) + [s[0]]
  }

  /** Backwards lists the same elements. */
  lemma {:induction false} BackwardsMembership<T>(s: seq<T>, x: T)
    ensures x in Backwards(s) <==> x in s
  {
    if s != [] {
      BackwardsMembership(s[1..], x);
      assert s == [s[0]] + s[1..];
    }
  }

  /** The descending loop is the sweep over the reversed order. */
  lemma {:induction false} SweepDownIsReverseOrder(k: Kernels, m: map<EntryIndex, Block>, kind: SweepKind,
                                                   rows: seq<Index>, i: nat, cols: seq<Index>,
                                                   bs: map<Index, Vec>, st: SweepState)
    requires i <= |rows|
    ensures SweepDown(k, m, kind, rows, i, cols, bs, st) == Sweep(k, m, kind, Backwards(rows[i..]), cols, bs, st)
    decreases |rows| - i
  {
    if i < |rows| {
      SweepDownIsReverseOrder(k, m, kind, rows, i + 1, cols, bs, st);
      var t := rows[i..];
      assert t[1..] == rows[i + 1..];
      assert Backwards(t)[..|Backwards(t)| - 1] == Backwards(rows[i + 1..]);
    }
  }
}
