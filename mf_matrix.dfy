/**
 * MultiFieldMatrix: a block matrix whose blocks are keyed by (row, col)
 * pairs of Indexes, together with the per-row bookkeeping algebraic
 * multigrid builds on it: coarse sizes and ghost sizes, the coarse ghost
 * mappers, the coarse-to-fine connectivities, and the coarse connectivities
 * and matrices per block.
 */
module MFMatrix {
  import opened MFTypes
  import opened MFOperators
  import opened MFGhostCoarsening
  import opened MFCoarseToFine
  import opened MFMultigrid

  /** The keys of s other than e, in their order. */
  function Without(s: seq<EntryIndex>, e: EntryIndex): (r: seq<EntryIndex>)
    ensures forall k :: k in r <==> k in s && k != e
    ensures Distinct(s) ==> Distinct(r)
  {
    if s == [] then []
    else
      assert Distinct(s) ==> Distinct(s[1..]) && s[0] !in s[1..];
      (if s[0] == e then [] else [s[0]]) + Without(s[1..], e)
  }

  /** getSize's tally over keys: the row site's count (ghost rows included) for each diagonal block. */
  function DiagonalSize(keys: seq<EntryIndex>): int
  {
    if keys == [] then 0
    else DiagonalSize(keys[..|keys| - 1]) + BlockSize(keys[|keys| - 1])
  }

  /** A diagonal block contributes its row site's count, an off-diagonal one nothing. */
  function BlockSize(e: EntryIndex): int
  {
    if e.row == e.col then e.row.site.count else 0
  }

  /** The tally taken front first is the same as back first. */
  lemma {:induction false} DiagonalSizeFront(keys: seq<EntryIndex>)
    requires keys != []
    ensures DiagonalSize(keys) == BlockSize(keys[0]) + DiagonalSize(keys[1..])
    decreases |keys|
  {
    if |keys| > 1 {
      DiagonalSizeFront(keys[..|keys| - 1]);
      assert keys[..|keys| - 1][1..] == keys[1..][..|keys[1..]| - 1];
    }
  }

  /**
   * Removing a block from distinct keys lowers the size by its row site's
   * count when it is diagonal and leaves it otherwise: the size does not
   * depend on where the block sits in the iteration order.
   */
  lemma {:induction false} DiagonalSizeWithout(keys: seq<EntryIndex>, e: EntryIndex)
    requires Distinct(keys) && e in keys
    ensures DiagonalSize(keys) == DiagonalSize(Without(keys, e)) + BlockSize(e)
    decreases |keys|
  {
    DiagonalSizeFront(keys);
    assert Distinct(keys[1..]);
    if keys[0] == e {
      assert e !in keys[1..];
      WithoutAbsent(keys[1..], e);
      assert Without(keys, e) == Without(keys[1..], e);
    } else {
      DiagonalSizeWithout(keys[1..], e);
      DiagonalSizeFront(Without(keys, e));
    }
  }

  /** Removing a key that is not there changes nothing. */
  lemma {:induction false} WithoutAbsent(s: seq<EntryIndex>, e: EntryIndex)
    requires e !in s
    ensures Without(s, e) == s
  {
    if s != [] {
      WithoutAbsent(s[1..], e);
    }
  }

  class MultiFieldMatrix {
    /** _matrices, and its keys in iteration order. */
    var matrices: map<EntryIndex, Block>
    var keys: seq<EntryIndex>
    var coarseSizes: map<Index, int>
    var coarseGhostSizes: map<Index, int>
    var coarseMappers: map<EntryIndex, OneToOneIndexMap>
    /** _coarseSites: the coarse site of each row, provided by the caller. */
    var coarseSites: map<Index, Site>
    var coarseToFineMappings: map<Index, CoarseToFine>
    var coarseConnectivities: map<EntryIndex, Connectivity>
    var coarseMatrices: map<EntryIndex, Block>

    /** The key list enumerates the blocks, each once. */
    ghost predicate Valid()
      reads this
    {
      Distinct(keys) && forall e :: e in matrices <==> e in keys
    }

    /** A matrix with no blocks and no coarse data. */
    constructor()
      ensures Valid()
      ensures matrices == map[] && coarseSizes == map[] && coarseGhostSizes == map[] && coarseMappers == map[]
      ensures coarseSites == map[] && coarseToFineMappings == map[] && coarseConnectivities == map[]
      ensures coarseMatrices == map[]
    {
      matrices := map[];
      keys := [];
      coarseSizes := map[];
      coarseGhostSizes := map[];
      coarseMappers := map[];
      coarseSites := map[];
      coarseToFineMappings := map[];
      coarseConnectivities := map[];
      coarseMatrices := map[];
    }

    /** Puts block b at (row, col), replacing a block already there. */
    method AddMatrix(row: Index, col: Index, b: Block)
      requires Valid()
      modifies this
      ensures Valid()
      ensures matrices == old(matrices)[EntryIndex(row, col) := b]
      ensures coarseSizes == old(coarseSizes) && coarseGhostSizes == old(coarseGhostSizes)
      ensures coarseMappers == old(coarseMappers) && coarseSites == old(coarseSites)
      ensures coarseToFineMappings == old(coarseToFineMappings)
      ensures coarseConnectivities == old(coarseConnectivities) && coarseMatrices == old(coarseMatrices)
    {
      var e := EntryIndex(row, col);
      if e !in matrices {
        keys := keys + [e];
      }
      matrices := matrices[e := b];
    }

    /**
     * hasMatrix: whether a block is stored at (row, col); in a valid matrix
     * that is exactly when (row, col) is one of the recorded keys.
     */
    function HasMatrix(row: Index, col: Index): (h: bool)
      reads this
      ensures h <==> EntryIndex(row, col) in matrices
      ensures Valid() ==> (h <==> EntryIndex(row, col) in keys)
    {
      EntryIndex(row, col) in matrices
    }

    /** getMatrix: the block stored at (row, col). */
    function GetMatrix(row: Index, col: Index): (b: Block)
      requires HasMatrix(row, col)
      reads this
      ensures EntryIndex(row, col) in matrices && matrices[EntryIndex(row, col)] == b
    {
      matrices[EntryIndex(row, col)]
    }

    /** removeMatrix: the block at (row, col) is gone, if there was one; every other block is kept. */
    method RemoveMatrix(row: Index, col: Index)
      requires Valid()
      modifies this
      ensures Valid()
      ensures !HasMatrix(row, col)
      ensures forall e :: e != EntryIndex(row, col) ==> (e in matrices <==> e in old(matrices))
      ensures forall e :: e in matrices ==> matrices[e] == old(matrices)[e]
      ensures keys == Without(old(keys), EntryIndex(row, col))
      ensures coarseSizes == old(coarseSizes) && coarseGhostSizes == old(coarseGhostSizes)
      ensures coarseMappers == old(coarseMappers) && coarseSites == old(coarseSites)
      ensures coarseToFineMappings == old(coarseToFineMappings)
      ensures coarseConnectivities == old(coarseConnectivities) && coarseMatrices == old(coarseMatrices)
    {
      var e := EntryIndex(row, col);
      matrices := matrices - {e};
      keys := Without(keys, e);
    }

    /** initAssembly: every block's own initAssembly, and nothing else. */
    method InitAssembly(k: Kernels)
      requires Valid()
      modifies this
      ensures Valid() && keys == old(keys) && matrices.Keys == old(matrices).Keys
      ensures forall e :: e in matrices ==> matrices[e] == k.initAssembly(old(matrices)[e])
      ensures coarseSizes == old(coarseSizes) && coarseGhostSizes == old(coarseGhostSizes)
      ensures coarseMappers == old(coarseMappers) && coarseSites == old(coarseSites)
      ensures coarseToFineMappings == old(coarseToFineMappings)
      ensures coarseConnectivities == old(coarseConnectivities) && coarseMatrices == old(coarseMatrices)
    {
      var i := 0;
      while i < |keys|
        invariant 0 <= i <= |keys| && Valid() && keys == old(keys) && matrices.Keys == old(matrices).Keys
        invariant forall j :: 0 <= j < i ==> matrices[keys[j]] == k.initAssembly(old(matrices)[keys[j]])
        invariant forall j :: i <= j < |keys| ==> matrices[keys[j]] == old(matrices)[keys[j]]
        invariant coarseSizes == old(coarseSizes) && coarseGhostSizes == old(coarseGhostSizes)
        invariant coarseMappers == old(coarseMappers) && coarseSites == old(coarseSites)
        invariant coarseToFineMappings == old(coarseToFineMappings)
        invariant coarseConnectivities == old(coarseConnectivities) && coarseMatrices == old(coarseMatrices)
      {
        matrices := matrices[keys[i] := k.initAssembly(matrices[keys[i]])];
        i := i + 1;
      }
      forall e | e in matrices ensures matrices[e] == k.initAssembly(old(matrices)[e]) {
        var j :| 0 <= j < |keys| && keys[j] == e;
      }
    }

    /** getSize: the count of every diagonal block's row site, summed over the blocks. */
    method GetSize() returns (size: int)
      requires Valid()
      ensures size == DiagonalSize(keys)
    {
      size := 0;
      var i := 0;
      while i < |keys|
        invariant 0 <= i <= |keys| && size == DiagonalSize(keys[..i])
      {
        var e := keys[i];
        if e.row == e.col {
          size := size + e.row.site.count;
        }
        assert keys[..i + 1][..i] == keys[..i];
        i := i + 1;
      }
      assert keys[..|keys|] == keys;
    }

    // ------------------------------------------------------------ products and sweeps

    /** The inner column loop of the products and sweeps: acc plus every coupling of row over cols. */
    method Accumulate(k: Kernels, row: Index, acc: Vec, cols: seq<Index>, xs: map<Index, Vec>, offDiagonal: bool)
      returns (r: Vec)
      requires forall j :: 0 <= j < |cols| ==> cols[j] in xs
      ensures r == RowFold(k, matrices, row, acc, cols, xs, offDiagonal)
    {
      r := acc;
      var j := 0;
      while j < |cols|
        invariant 0 <= j <= |cols| && r == RowFold(k, matrices, row, acc, cols[..j], xs, offDiagonal)
      {
        var col := cols[j];
        if (!offDiagonal || row != col) && HasMatrix(row, col) {
          r := k.multiplyAndAdd(GetMatrix(row, col), r, xs[col]);
        }
        assert cols[..j + 1][..j] == cols[..j];
        j := j + 1;
      }
      assert cols[..|cols|] == cols;
    }

    /** multiply (zeroFirst) and multiplyAndAdd over y's arrays, one row after the other. */
    method Product(k: Kernels, y: MultiField<Vec>, x: MultiField<Vec>, zeroFirst: bool) returns (y': MultiField<Vec>)
      requires WellFormed(y) && WellFormed(x)
      ensures y'.indices == y.indices
      ensures y'.arrays == ProductRows(k, matrices, y.indices, x.indices, x.arrays, y.arrays, zeroFirst)
    {
      var arrays := y.arrays;
      var i := 0;
      while i < |y.indices|
        invariant 0 <= i <= |y.indices|
        invariant arrays == ProductRows(k, matrices, y.indices[..i], x.indices, x.arrays, y.arrays, zeroFirst)
      {
        var row := y.indices[i];
        assert Distinct(y.indices[..i]);
        ProductRowsAt(k, matrices, y.indices[..i], x.indices, x.arrays, y.arrays, zeroFirst, row);
        var yI := if zeroFirst then Zero(arrays[row]) else arrays[row];
        yI := Accumulate(k, row, yI, x.indices, x.arrays, false);
        arrays := arrays[row := yI];
        assert y.indices[..i + 1][..i] == y.indices[..i];
        i := i + 1;
      }
      assert y.indices[..|y.indices|] == y.indices;
      y' := MultiField(y.indices, arrays);
    }

    /** multiply: y = A x, row by row. */
    method Multiply(k: Kernels, y: MultiField<Vec>, x: MultiField<Vec>) returns (y': MultiField<Vec>)
      requires WellFormed(y) && WellFormed(x)
      ensures y'.indices == y.indices
      ensures y'.arrays == ProductRows(k, matrices, y.indices, x.indices, x.arrays, y.arrays, true)
    {
      y' := Product(k, y, x, true);
    }

    /** multiplyAndAdd: y = y + A x, row by row. */
    method MultiplyAndAdd(k: Kernels, y: MultiField<Vec>, x: MultiField<Vec>) returns (y': MultiField<Vec>)
      requires WellFormed(y) && WellFormed(x)
      ensures y'.indices == y.indices
      ensures y'.arrays == ProductRows(k, matrices, y.indices, x.indices, x.arrays, y.arrays, false)
    {
      y' := Product(k, y, x, false);
    }

    /** Every row of x has arrays in b and temp. */
    ghost predicate SweepReady(x: MultiField<Vec>, b: MultiField<Vec>, temp: MultiField<Vec>)
    {
      WellFormed(x) && forall i :: 0 <= i < |x.indices| ==> x.indices[i] in b.arrays && x.indices[i] in temp.arrays
    }

    /** The body of a sweep for one row: relax it when it has a diagonal block, skip it otherwise. */
    method RelaxStep(k: Kernels, kind: SweepKind, cols: seq<Index>, bs: map<Index, Vec>, st: SweepState, row: Index)
      returns (st': SweepState)
      requires row in bs && row in st.x && row in st.temp
      requires forall j :: 0 <= j < |cols| ==> cols[j] in st.x
      ensures st' == RelaxRow(k, matrices, kind, cols, bs, st, row)
    {
      st' := st;
      if HasMatrix(row, row) {
        var r := if kind == Boundary then bs[row] else CopyPartial(st.temp[row], bs[row], 0, row.site.selfCount);
        r := Accumulate(k, row, r, cols, st.x, true);
        var mII := GetMatrix(row, row);
        var out;
        match kind {
          case Forward => out := k.forwardGS(mII, k.syncLocal(row, st.x[row]), r);
          case Reverse => out := k.reverseGS(mII, k.syncLocal(row, st.x[row]), r);
          case Boundary => out := k.solveBoundary(mII, st.x[row], r);
        }
        st' := SweepState(st.x[row := out.0], st.temp[row := out.1]);
      }
    }

    /** forwardGS (Forward) and solveBoundary (Boundary): the rows of x in ascending order. */
    method SweepUp(k: Kernels, kind: SweepKind, x: MultiField<Vec>, b: MultiField<Vec>, temp: MultiField<Vec>)
      returns (x': MultiField<Vec>, temp': MultiField<Vec>)
      requires SweepReady(x, b, temp)
      ensures x'.indices == x.indices && temp'.indices == temp.indices
      ensures SweepState(x'.arrays, temp'.arrays) ==
              Sweep(k, matrices, kind, x.indices, x.indices, b.arrays, SweepState(x.arrays, temp.arrays))
    {
      ghost var st0 := SweepState(x.arrays, temp.arrays);
      var st := SweepState(x.arrays, temp.arrays);
      var i := 0;
      while i < |x.indices|
        invariant 0 <= i <= |x.indices|
        invariant st == Sweep(k, matrices, kind, x.indices[..i], x.indices, b.arrays, st0)
      {
        var row := x.indices[i];
        SweepFrame(k, matrices, kind, x.indices[..i], x.indices, b.arrays, st0, row);
        st := RelaxStep(k, kind, x.indices, b.arrays, st, row);
        assert x.indices[..i + 1][..i] == x.indices[..i];
        i := i + 1;
      }
      assert x.indices[..|x.indices|] == x.indices;
      x' := MultiField(x.indices, st.x);
      temp' := MultiField(temp.indices, st.temp);
    }

    /** forwardGS: each row with a diagonal block relaxed in ascending order, seeing the rows relaxed before it. */
    method ForwardGS(k: Kernels, x: MultiField<Vec>, b: MultiField<Vec>, temp: MultiField<Vec>)
      returns (x': MultiField<Vec>, temp': MultiField<Vec>)
      requires SweepReady(x, b, temp)
      ensures x'.indices == x.indices && temp'.indices == temp.indices
      ensures SweepState(x'.arrays, temp'.arrays) ==
              Sweep(k, matrices, Forward, x.indices, x.indices, b.arrays, SweepState(x.arrays, temp.arrays))
    {
      x', temp' := SweepUp(k, Forward, x, b, temp);
    }

    /** solveBoundary: as forwardGS, seeded with all of b and without synchronising x. */
    method SolveBoundary(k: Kernels, x: MultiField<Vec>, b: MultiField<Vec>, temp: MultiField<Vec>)
      returns (x': MultiField<Vec>, temp': MultiField<Vec>)
      requires SweepReady(x, b, temp)
      ensures x'.indices == x.indices && temp'.indices == temp.indices
      ensures SweepState(x'.arrays, temp'.arrays) ==
              Sweep(k, matrices, Boundary, x.indices, x.indices, b.arrays, SweepState(x.arrays, temp.arrays))
    {
      x', temp' := SweepUp(k, Boundary, x, b, temp);
    }

    /** reverseGS: the rows of x from the last to the first, which is the forward sweep over the reversed order. */
    method ReverseGS(k: Kernels, x: MultiField<Vec>, b: MultiField<Vec>, temp: MultiField<Vec>)
      returns (x': MultiField<Vec>, temp': MultiField<Vec>)
      requires SweepReady(x, b, temp)
      ensures x'.indices == x.indices && temp'.indices == temp.indices
      ensures SweepState(x'.arrays, temp'.arrays) ==
              Sweep(k, matrices, Reverse, Backwards(x.indices), x.indices, b.arrays, SweepState(x.arrays, temp.arrays))
    {
      ghost var st0 := SweepState(x.arrays, temp.arrays);
      var st := SweepState(x.arrays, temp.arrays);
      var i := |x.indices|;
      while i > 0
        invariant 0 <= i <= |x.indices|
        invariant st == SweepDown(k, matrices, Reverse, x.indices, i, x.indices, b.arrays, st0)
      {
        i := i - 1;
        var row := x.indices[i];
        SweepDownIsReverseOrder(k, matrices, Reverse, x.indices, i + 1, x.indices, b.arrays, st0);
        SweepFrame(k, matrices, Reverse, Backwards(x.indices[i + 1..]), x.indices, b.arrays, st0, row);
        st := RelaxStep(k, Reverse, x.indices, b.arrays, st, row);
      }
      SweepDownIsReverseOrder(k, matrices, Reverse, x.indices, 0, x.indices, b.arrays, st0);
      assert x.indices[0..] == x.indices;
      x' := MultiField(x.indices, st.x);
      temp' := MultiField(temp.indices, st.temp);
    }

    /**
     * computeResidual: each row of x with a diagonal block is seeded from b on
     * the site's own rows and zero on its ghost rows, then accumulates every
     * coupling, the diagonal one included.
     */
    method ComputeResidual(k: Kernels, x: MultiField<Vec>, b: MultiField<Vec>, r: MultiField<Vec>)
      returns (r': MultiField<Vec>)
      requires SweepReady(x, b, r)
      ensures r'.indices == r.indices
      ensures r'.arrays == ResidualRows(k, matrices, x.indices, x.indices, x.arrays, b.arrays, r.arrays)
    {
      var arrays := r.arrays;
      var i := 0;
      while i < |x.indices|
        invariant 0 <= i <= |x.indices|
        invariant arrays == ResidualRows(k, matrices, x.indices[..i], x.indices, x.arrays, b.arrays, r.arrays)
      {
        var row := x.indices[i];
        assert Distinct(x.indices[..i]);
        ResidualRowsAt(k, matrices, x.indices[..i], x.indices, x.arrays, b.arrays, r.arrays, row);
        if HasMatrix(row, row) {
          var site := row.site;
          var rI := CopyPartial(arrays[row], b.arrays[row], 0, site.selfCount);
          rI := ZeroPartial(rI, site.selfCount, site.count);
          rI := Accumulate(k, row, rI, x.indices, x.arrays, false);
          arrays := arrays[row := rI];
        }
        assert x.indices[..i + 1][..i] == x.indices[..i];
        i := i + 1;
      }
      assert x.indices[..|x.indices|] == x.indices;
      r' := MultiField(r.indices, arrays);
    }

    // ------------------------------------------------------------ multigrid bookkeeping

    /** The loop body of createCoarsening for one row of the coarse index field. */
    method CoarsenAt(k: Kernels, coarseIndex: MultiField<array<int>>, row: Index, groupSize: int, threshold: real)
      requires Valid() && row in coarseIndex.arrays && Separate(coarseIndex)
      requires forall b: Block, s: seq<int>, g: int, t: real :: |k.createCoarsening(b, s, g, t).1| == |s|
      modifies this, coarseIndex.arrays[row]
      ensures Valid() && matrices == old(matrices) && keys == old(keys)
      ensures Coarsening(coarseSizes, Contents(coarseIndex)) ==
                CoarsenRow(k, matrices, row, groupSize, threshold, old(Coarsening(coarseSizes, Contents(coarseIndex))))
      ensures coarseGhostSizes == old(coarseGhostSizes) && coarseMappers == old(coarseMappers)
      ensures coarseSites == old(coarseSites) && coarseToFineMappings == old(coarseToFineMappings)
      ensures coarseConnectivities == old(coarseConnectivities) && coarseMatrices == old(coarseMatrices)
    {
      if HasMatrix(row, row) {
        var res := k.createCoarsening(GetMatrix(row, row), coarseIndex.arrays[row][..], groupSize, threshold);
        StoreRow(coarseIndex, row, res.1);
        coarseSizes := coarseSizes[row := res.0];
      }
    }

    /**
     * createCoarsening: every row of the coarse index field with a diagonal
     * block lets that block aggregate the row's fine rows, writing the coarse
     * index in place and recording the coarse size.
     */
    method CreateCoarsening(k: Kernels, coarseIndex: MultiField<array<int>>, groupSize: int, threshold: real)
      requires Valid() && WellFormed(coarseIndex) && Separate(coarseIndex)
      requires forall b: Block, s: seq<int>, g: int, t: real :: |k.createCoarsening(b, s, g, t).1| == |s|
      modifies this, coarseIndex.arrays.Values
      ensures Valid() && matrices == old(matrices) && keys == old(keys)
      ensures Coarsening(coarseSizes, Contents(coarseIndex)) ==
                CoarsenRows(k, matrices, coarseIndex.indices, groupSize, threshold,
                            Coarsening(old(coarseSizes), old(Contents(coarseIndex))))
      ensures coarseGhostSizes == old(coarseGhostSizes) && coarseMappers == old(coarseMappers)
      ensures coarseSites == old(coarseSites) && coarseToFineMappings == old(coarseToFineMappings)
      ensures coarseConnectivities == old(coarseConnectivities) && coarseMatrices == old(coarseMatrices)
    {
      ghost var c0 := Coarsening(coarseSizes, Contents(coarseIndex));
      var rows := coarseIndex.indices;
      var i := 0;
      while i < |rows|
        invariant 0 <= i <= |rows|
        invariant Valid() && matrices == old(matrices) && keys == old(keys)
        invariant Coarsening(coarseSizes, Contents(coarseIndex)) ==
                    CoarsenRows(k, matrices, rows[..i], groupSize, threshold, c0)
        invariant coarseGhostSizes == old(coarseGhostSizes) && coarseMappers == old(coarseMappers)
        invariant coarseSites == old(coarseSites) && coarseToFineMappings == old(coarseToFineMappings)
        invariant coarseConnectivities == old(coarseConnectivities) && coarseMatrices == old(coarseMatrices)
      {
        CoarsenAt(k, coarseIndex, rows[i], groupSize, threshold);
        assert rows[..i + 1][..i] == rows[..i];
        i := i + 1;
      }
      assert rows[..|rows|] == rows;
    }

    /** The loop body of syncGhostCoarsening for one row of the coarse index field. */
    method SyncGhostAt(coarseIndex: MultiField<array<int>>, row: Index)
      requires row in coarseIndex.arrays && Separate(coarseIndex) && Syncable(coarseSizes, Contents(coarseIndex), row)
      modifies this, coarseIndex.arrays[row]
      ensures GhostSync(coarseGhostSizes, coarseMappers, Contents(coarseIndex)) ==
                SyncFrom(row, coarseSizes, old(GhostSync(coarseGhostSizes, coarseMappers, Contents(coarseIndex))))
      ensures matrices == old(matrices) && keys == old(keys) && coarseSizes == old(coarseSizes)
      ensures coarseSites == old(coarseSites) && coarseToFineMappings == old(coarseToFineMappings)
      ensures coarseConnectivities == old(coarseConnectivities) && coarseMatrices == old(coarseMatrices)
    {
      coarseGhostSizes, coarseMappers := SyncFieldAt(coarseIndex, row, coarseSizes, coarseGhostSizes, coarseMappers);
    }

    /**
     * syncGhostCoarsening: every row of the coarse index field renumbers its
     * ghost rows after its coarse size, records the coarse mapper towards
     * each neighbour and the number of coarse ghost rows.
     */
    method SyncGhostCoarsening(coarseIndex: MultiField<array<int>>)
      requires Valid() && WellFormed(coarseIndex) && Separate(coarseIndex)
      requires forall i :: 0 <= i < |coarseIndex.indices| ==>
                 Syncable(coarseSizes, Contents(coarseIndex), coarseIndex.indices[i])
      modifies this, coarseIndex.arrays.Values
      ensures Valid() && matrices == old(matrices) && keys == old(keys)
      ensures GhostSync(coarseGhostSizes, coarseMappers, Contents(coarseIndex)) ==
                SyncRows(coarseIndex.indices, coarseSizes,
                         GhostSync(old(coarseGhostSizes), old(coarseMappers), old(Contents(coarseIndex))))
      ensures coarseSizes == old(coarseSizes)
      ensures coarseSites == old(coarseSites) && coarseToFineMappings == old(coarseToFineMappings)
      ensures coarseConnectivities == old(coarseConnectivities) && coarseMatrices == old(coarseMatrices)
    {
      ghost var g0 := GhostSync(coarseGhostSizes, coarseMappers, Contents(coarseIndex));
      var rows := coarseIndex.indices;
      var i := 0;
      while i < |rows|
        invariant 0 <= i <= |rows|
        invariant Valid() && matrices == old(matrices) && keys == old(keys)
        invariant GhostSync(coarseGhostSizes, coarseMappers, Contents(coarseIndex)) ==
                    SyncRows(rows[..i], coarseSizes, g0)
        invariant coarseSizes == old(coarseSizes)
        invariant coarseSites == old(coarseSites) && coarseToFineMappings == old(coarseToFineMappings)
        invariant coarseConnectivities == old(coarseConnectivities) && coarseMatrices == old(coarseMatrices)
      {
        assert Distinct(rows[..i]) && rows[i] !in rows[..i];
        SyncRowsAt(rows[..i], coarseSizes, g0, rows[i]);
        SyncGhostAt(coarseIndex, rows[i]);
        assert rows[..i + 1][..i] == rows[..i];
        i := i + 1;
      }
      assert rows[..|rows|] == rows;
    }

    /**
     * createCoarseToFineMapping: every row of the coarse index field gets the
     * compressed-row inverse of its coarse index, coarse row by coarse row.
     */
    method CreateCoarseToFineMapping(coarseIndex: MultiField<array<int>>)
      requires WellFormed(coarseIndex)
      requires forall i :: 0 <= i < |coarseIndex.indices| ==>
                 Mappable(Contents(coarseIndex), coarseSites, coarseIndex.indices[i])
      modifies this
      ensures forall i :: 0 <= i < |coarseIndex.indices| ==>
                MapsBack(coarseToFineMappings, Contents(coarseIndex), coarseSites, coarseIndex.indices[i])
      ensures forall r :: r !in coarseIndex.indices ==>
                (r in coarseToFineMappings <==> r in old(coarseToFineMappings)) &&
                (r in old(coarseToFineMappings) ==> coarseToFineMappings[r] == old(coarseToFineMappings)[r])
      ensures matrices == old(matrices) && keys == old(keys) && coarseSizes == old(coarseSizes)
      ensures coarseGhostSizes == old(coarseGhostSizes) && coarseMappers == old(coarseMappers)
      ensures coarseSites == old(coarseSites)
      ensures coarseConnectivities == old(coarseConnectivities) && coarseMatrices == old(coarseMatrices)
    {
      ghost var contents := Contents(coarseIndex);
      var rows := coarseIndex.indices;
      var mappings := coarseToFineMappings;
      var i := 0;
      while i < |rows|
        invariant 0 <= i <= |rows|
        invariant unchanged(this)
        invariant forall j :: 0 <= j < i ==> MapsBack(mappings, contents, coarseSites, rows[j])
        invariant forall r :: r !in rows[..i] ==>
                    (r in mappings <==> r in old(coarseToFineMappings)) &&
                    (r in old(coarseToFineMappings) ==> mappings[r] == old(coarseToFineMappings)[r])
      {
        var row := rows[i];
        assert Mappable(contents, coarseSites, row);
        var ctf := BuildCoarseToFine(coarseIndex.arrays[row], row.site.count, coarseSites[row].count);
        mappings := mappings[row := ctf];
        assert rows[..i + 1] == rows[..i] + [row];
        i := i + 1;
      }
      assert rows[..|rows|] == rows;
      coarseToFineMappings := mappings;
    }

    /**
     * createCoarseConnectivity: every block whose row and column are rows of
     * the coarse index field gets its coarse connectivity.
     */
    method CreateCoarseConnectivity(k: Kernels, coarseIndex: MultiField<array<int>>)
      requires WellFormed(coarseIndex)
      requires Prepared(coarseIndex.indices, Contents(coarseIndex), coarseToFineMappings, coarseSites)
      modifies this
      ensures coarseConnectivities ==
                old(coarseConnectivities) +
                CoarseConnections(k, matrices, coarseIndex.indices, coarseIndex.indices, Contents(coarseIndex),
                                  coarseToFineMappings, coarseSites)
      ensures matrices == old(matrices) && keys == old(keys) && coarseSizes == old(coarseSizes)
      ensures coarseGhostSizes == old(coarseGhostSizes) && coarseMappers == old(coarseMappers)
      ensures coarseSites == old(coarseSites) && coarseToFineMappings == old(coarseToFineMappings)
      ensures coarseMatrices == old(coarseMatrices)
    {
      ghost var contents := Contents(coarseIndex);
      ghost var c0 := coarseConnectivities;
      var rows := coarseIndex.indices;
      var i := 0;
      while i < |rows|
        invariant 0 <= i <= |rows|
        invariant contents == Contents(coarseIndex)
        invariant coarseConnectivities ==
                    c0 +
                    CoarseConnections(k, matrices, rows[..i], rows, contents, coarseToFineMappings, coarseSites)
        invariant matrices == old(matrices) && keys == old(keys) && coarseSizes == old(coarseSizes)
        invariant coarseGhostSizes == old(coarseGhostSizes) && coarseMappers == old(coarseMappers)
        invariant coarseSites == old(coarseSites) && coarseToFineMappings == old(coarseToFineMappings)
        invariant coarseMatrices == old(coarseMatrices)
      {
        ConnectionsRowStep(k, matrices, rows, rows, i, contents, coarseToFineMappings, coarseSites);
        ghost var done := CoarseConnections(k, matrices, rows[..i], rows, contents, coarseToFineMappings, coarseSites);
        ghost var next := CoarseConnections(k, matrices, [rows[i]], rows, contents, coarseToFineMappings, coarseSites);
        coarseConnectivities := ConnectRow(k, matrices, rows[i], rows, coarseIndex.arrays[rows[i]][..], contents,
                                           coarseToFineMappings, coarseSites, coarseConnectivities);
        UnionRegroup(c0, done, next);
        i := i + 1;
      }
      assert rows[..|rows|] == rows;
    }

    /**
     * createCoarseMatrices: every block whose row and column are rows of the
     * coarse index field gets its coarse matrix, built over its coarse
     * connectivity.
     */
    method CreateCoarseMatrices(k: Kernels, coarseIndex: MultiField<array<int>>)
      requires WellFormed(coarseIndex)
      requires MappedRows(coarseIndex.indices, coarseToFineMappings)
      requires forall e :: e in matrices && e.row in coarseIndex.indices && e.col in coarseIndex.indices ==>
                 e in coarseConnectivities
      modifies this
      ensures coarseMatrices ==
                old(coarseMatrices) +
                CoarseBlocks(k, matrices, coarseIndex.indices, coarseIndex.indices, Contents(coarseIndex),
                             coarseToFineMappings, coarseConnectivities)
      ensures matrices == old(matrices) && keys == old(keys) && coarseSizes == old(coarseSizes)
      ensures coarseGhostSizes == old(coarseGhostSizes) && coarseMappers == old(coarseMappers)
      ensures coarseSites == old(coarseSites) && coarseToFineMappings == old(coarseToFineMappings)
      ensures coarseConnectivities == old(coarseConnectivities)
    {
      ghost var contents := Contents(coarseIndex);
      ghost var b0 := coarseMatrices;
      var rows := coarseIndex.indices;
      var i := 0;
      while i < |rows|
        invariant 0 <= i <= |rows|
        invariant contents == Contents(coarseIndex)
        invariant coarseMatrices ==
                    b0 + CoarseBlocks(k, matrices, rows[..i], rows, contents, coarseToFineMappings, coarseConnectivities)
        invariant matrices == old(matrices) && keys == old(keys) && coarseSizes == old(coarseSizes)
        invariant coarseGhostSizes == old(coarseGhostSizes) && coarseMappers == old(coarseMappers)
        invariant coarseSites == old(coarseSites) && coarseToFineMappings == old(coarseToFineMappings)
        invariant coarseConnectivities == old(coarseConnectivities)
      {
        var row := rows[i];
        BlocksRowStep(k, matrices, rows, rows, i, contents, coarseToFineMappings, coarseConnectivities);
        ghost var done := CoarseBlocks(k, matrices, rows[..i], rows, contents, coarseToFineMappings, coarseConnectivities);
        ghost var next := CoarseBlocks(k, matrices, [row], rows, contents, coarseToFineMappings, coarseConnectivities);
        coarseMatrices := CoarsenBlocksOfRow(k, matrices, row, rows, coarseIndex.arrays[row][..], contents,
                                             coarseToFineMappings, coarseConnectivities, coarseMatrices);
        UnionRegroup(b0, done, next);
        i := i + 1;
      }
      assert rows[..|rows|] == rows;
    }

    /**
     * injectResidual: every array of the fine residual is injected, over its
     * site's own rows, into the coarse right-hand side of the same field on
     * the row's coarse site.
     */
    method InjectResidual(k: Kernels, coarseIndex: MultiField<array<int>>, fineResidual: MultiField<Vec>,
                          coarseB: MultiField<Vec>) returns (coarseB': MultiField<Vec>)
      requires WellFormed(fineResidual)
      requires forall i :: 0 <= i < |fineResidual.indices| ==>
                 Transferable(fineResidual.indices[i], fineResidual.arrays, Contents(coarseIndex), coarseSites,
                              coarseB.arrays)
      ensures coarseB'.indices == coarseB.indices
      ensures coarseB'.arrays ==
                InjectRows(k, fineResidual.indices, fineResidual.arrays, Contents(coarseIndex), coarseSites, coarseB.arrays)
    {
      ghost var contents := Contents(coarseIndex);
      var rows := fineResidual.indices;
      var arrays := coarseB.arrays;
      var i := 0;
      while i < |rows|
        invariant 0 <= i <= |rows|
        invariant arrays == InjectRows(k, rows[..i], fineResidual.arrays, contents, coarseSites, coarseB.arrays)
      {
        var row := rows[i];
        var coarseRow := Index(row.field, coarseSites[row]);
        arrays := arrays[coarseRow := k.inject(fineResidual.arrays[row], arrays[coarseRow], coarseIndex.arrays[row][..],
                                               row.site.selfCount)];
        assert rows[..i + 1][..i] == rows[..i];
        i := i + 1;
      }
      assert rows[..|rows|] == rows;
      coarseB' := MultiField(coarseB.indices, arrays);
    }

    /**
     * correctSolution: every array of the fine solution is corrected, over
     * its site's own rows, from the coarse solution of the same field on the
     * row's coarse site.
     */
    method CorrectSolution(k: Kernels, coarseIndex: MultiField<array<int>>, fineSolution: MultiField<Vec>,
                           coarseSolution: MultiField<Vec>) returns (fineSolution': MultiField<Vec>)
      requires WellFormed(fineSolution)
      requires forall i :: 0 <= i < |fineSolution.indices| ==>
                 Transferable(fineSolution.indices[i], fineSolution.arrays, Contents(coarseIndex), coarseSites,
                              coarseSolution.arrays)
      ensures fineSolution'.indices == fineSolution.indices
      ensures fineSolution'.arrays ==
                CorrectRows(k, fineSolution.indices, fineSolution.arrays, Contents(coarseIndex), coarseSites,
                            coarseSolution.arrays)
    {
      ghost var contents := Contents(coarseIndex);
      var rows := fineSolution.indices;
      var arrays := fineSolution.arrays;
      var i := 0;
      while i < |rows|
        invariant 0 <= i <= |rows|
        invariant arrays == CorrectRows(k, rows[..i], fineSolution.arrays, contents, coarseSites, coarseSolution.arrays)
      {
        var row := rows[i];
        var coarseRow := Index(row.field, coarseSites[row]);
        arrays := arrays[row := k.correct(arrays[row], coarseSolution.arrays[coarseRow], coarseIndex.arrays[row][..],
                                          row.site.selfCount)];
        assert rows[..i + 1][..i] == rows[..i];
        i := i + 1;
      }
      assert rows[..|rows|] == rows;
      fineSolution' := MultiField(fineSolution.indices, arrays);
    }
  }

  /** After removeMatrix the size drops by the row site's count when the block was diagonal, and is kept otherwise. */
  lemma SizeAfterRemove(keys: seq<EntryIndex>, e: EntryIndex)
    requires Distinct(keys)
    ensures DiagonalSize(Without(keys, e)) == DiagonalSize(keys) - (if e in keys then BlockSize(e) else 0)
  {
    if e in keys {
      DiagonalSizeWithout(keys, e);
    } else {
      WithoutAbsent(keys, e);
    }
  }
}
