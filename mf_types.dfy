/**
 * The identities and values a MultiFieldMatrix works with: a block is keyed by
 * a (row, column) pair of Indexes, an Index pairs a field with a storage site,
 * and a MultiField holds one array per Index.
 */
module MFTypes {
  /** Handle of a Field. */
  type FieldId = nat

  /** A StorageSite: its own rows, its rows including ghosts, and the ghost mappers to neighbour sites. */
  datatype Site = Site(id: nat, selfCount: nat, count: nat, mappers: seq<Mapper>)

  /** The ghost rows of the owning site that mirror rows of the neighbour site `other` (its toIndices). */
  datatype Mapper = Mapper(other: Site, toIndices: seq<int>)

  /** An Index is the pair (field, site); an EntryIndex names the block (row, col). */
  datatype Index = Index(field: FieldId, site: Site)
  datatype EntryIndex = EntryIndex(row: Index, col: Index)

  /** A per-block Matrix, a coarse sparsity pattern, and the contents of one numeric array. */
  datatype Block = Block(handle: nat)
  datatype Connectivity = Connectivity(handle: nat)
  type Vec = seq<real>

  /** A OneToOneIndexMap: fromIndices[i] on the neighbour corresponds to toIndices[i] here. */
  datatype OneToOneIndexMap = OneToOneIndexMap(fromIndices: seq<int>, toIndices: seq<int>)

  /**
   * The coarse-to-fine CRConnectivity in compressed-row form: the fine rows
   * aggregated into coarse row c are col[row[c]..row[c + 1]].
   */
  datatype CoarseToFine = CoarseToFine(rowCount: nat, colCount: nat, row: seq<int>, col: seq<int>)

  /** A MultiField: the arrays it holds, in the order of its array indices. */
  datatype MultiField<A> = MultiField(indices: seq<Index>, arrays: map<Index, A>)

  /** No element is listed twice. */
  predicate Distinct<T(==)>(s: seq<T>)
  {
    forall i, j :: 0 <= i < j < |s| ==> s[i] != s[j]
  }

  /** Strictly ascending. */
  predicate Increasing(s: seq<int>)
  {
    forall i, j :: 0 <= i < j < |s| ==> s[i] < s[j]
  }

  /** Every listed index has an array and no index is listed twice. */
  predicate WellFormed<A>(f: MultiField<A>)
  {
    (forall i :: 0 <= i < |f.indices| ==> f.indices[i] in f.arrays) && Distinct(f.indices)
  }

  /** The numeric capabilities of blocks and arrays that the matrix only calls. */
  datatype Kernels = Kernels(
    // y + M x
    multiplyAndAdd: (Block, Vec, Vec) -> Vec,
    // (x, r) -> (x', r') for the diagonal block's relaxations
    forwardGS: (Block, Vec, Vec) -> (Vec, Vec),
    reverseGS: (Block, Vec, Vec) -> (Vec, Vec),
    solveBoundary: (Block, Vec, Vec) -> (Vec, Vec),
    // the halo exchange of one array of x
    syncLocal: (Index, Vec) -> Vec,
    initAssembly: Block -> Block,
    // (coarse size, coarse index contents)
    createCoarsening: (Block, seq<int>, int, real) -> (int, seq<int>),
    createCoarseConnectivity: (Block, seq<int>, CoarseToFine, Site, Site) -> Connectivity,
    createCoarseMatrix: (Block, seq<int>, CoarseToFine, Connectivity) -> Block,
    // fine.inject(coarse, fineToCoarse, length) and fine.correct(coarse, fineToCoarse, length)
    inject: (Vec, Vec, seq<int>, nat) -> Vec,
    correct: (Vec, Vec, seq<int>, nat) -> Vec)

  /** ArrayBase::zero. */
  function Zero(v: Vec): (r: Vec)
    ensures |r| == |v| && forall i :: 0 <= i < |r| ==> r[i] == 0.0
  {
    seq(|v|, _ => 0.0)
  }

  /**
   * ArrayBase::copyPartial(b, lo, hi): entries in [lo, hi) are taken from b,
   * the others keep their value (entries beyond either array are left alone).
   */
  function CopyPartial(r: Vec, b: Vec, lo: int, hi: int): (c: Vec)
    ensures |c| == |r|
    ensures forall i :: 0 <= i < |r| ==> c[i] == if lo <= i < hi && i < |b| then b[i] else r[i]
  {
    seq(|r|, i requires 0 <= i < |r| => if lo <= i < hi && i < |b| then b[i] else r[i])
  }

  /** ArrayBase::zeroPartial(lo, hi): entries in [lo, hi) become zero, the others keep their value. */
  function ZeroPartial(r: Vec, lo: int, hi: int): (c: Vec)
    ensures |c| == |r|
    ensures forall i :: 0 <= i < |r| ==> c[i] == if lo <= i < hi then 0.0 else r[i]
  {
    seq(|r|, i requires 0 <= i < |r| => if lo <= i < hi then 0.0 else r[i])
  }
}
