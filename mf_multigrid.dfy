/**
 * What the multigrid passes of a MultiFieldMatrix record, row by row over the
 * rows of the coarse index field: the coarse sizes and coarse index contents
 * (createCoarsening), the ghost sizes, ghost-renumbered contents and coarse
 * mappers (syncGhostCoarsening), the coarse connectivities and coarse
 * matrices per block (createCoarseConnectivity, createCoarseMatrices), and
 * the restriction and prolongation of arrays (injectResidual,
 * correctSolution). Contents of integer arrays are given as a map from Index
 * to their sequence of entries.
 */
module MFMultigrid {
  import opened MFTypes
  import opened MFGhostCoarsening
  import opened MFCoarseToFine

  // ---------------------------------------------------------------- createCoarsening

  /** The coarse sizes recorded so far and the coarse index contents. */
  datatype Coarsening = Coarsening(sizes: map<Index, int>, contents: map<Index, seq<int>>)

  /** createCoarsening: each row with a diagonal block in turn lets that block aggregate its fine rows. */
  function CoarsenRows(k: Kernels, m: map<EntryIndex, Block>, rows: seq<Index>, groupSize: int, threshold: real,
                       st: Coarsening): Coarsening
    decreases |rows|
  {
    if rows == [] then st
    else
      CoarsenRow(k, m, rows[|rows| - 1], groupSize, threshold,
                 CoarsenRows(k, m, rows[..|rows| - 1], groupSize, threshold, st))
  }

  /** One row of createCoarsening: a row with a diagonal block has it aggregate the row's fine rows. */
  function CoarsenRow(k: Kernels, m: map<EntryIndex, Block>, row: Index, groupSize: int, threshold: real,
                      st: Coarsening): Coarsening
  {
    var e := EntryIndex(row, row);
    if e in m && row in st.contents then
      var res := k.createCoarsening(m[e], st.contents[row], groupSize, threshold);
      Coarsening(st.sizes[row := res.0], st.contents[row := res.1])
    else st
  }

  /**
   * A listed row with a diagonal block gets the coarse size and the coarse
   * index its block computes from the row's own contents; every other row
   * keeps its contents and its recorded size, and no other size is recorded.
   */
  lemma {:induction false} CoarsenRowsAt(k: Kernels, m: map<EntryIndex, Block>, rows: seq<Index>, groupSize: int,
                                         threshold: real, st: Coarsening, r: Index)
    requires Distinct(rows)
    ensures CoarsenRows(k, m, rows, groupSize, threshold, st).contents.Keys == st.contents.Keys
    ensures r in st.contents && r in rows && EntryIndex(r, r) in m ==>
              var res := k.createCoarsening(m[EntryIndex(r, r)], st.contents[r], groupSize, threshold);
              CoarsenRows(k, m, rows, groupSize, threshold, st).contents[r] == res.1 &&
              r in CoarsenRows(k, m, rows, groupSize, threshold, st).sizes &&
              CoarsenRows(k, m, rows, groupSize, threshold, st).sizes[r] == res.0
    ensures r in st.contents && !(r in rows && EntryIndex(r, r) in m) ==>
              CoarsenRows(k, m, rows, groupSize, threshold, st).contents[r] == st.contents[r]
    ensures !(r in rows && EntryIndex(r, r) in m && r in st.contents) ==>
              (r in CoarsenRows(k, m, rows, groupSize, threshold, st).sizes <==> r in st.sizes) &&
              (r in st.sizes ==> CoarsenRows(k, m, rows, groupSize, threshold, st).sizes[r] == st.sizes[r])
  {
    if rows != [] {
      var pre := rows[..|rows| - 1];
      assert rows == pre + [rows[|rows| - 1]];
      CoarsenRowsAt(k, m, pre, groupSize, threshold, st, r);
    }
  }

  // ---------------------------------------------------------------- syncGhostCoarsening

  /** The key under which a row's coarse mapper towards a neighbour is kept: (row, (row's field, neighbour)). */
  function MapperKey(row: Index, mp: Mapper): EntryIndex
  {
    EntryIndex(row, Index(row.field, mp.other))
  }

  /** A site's mappers are keyed by neighbour: no neighbour twice. */
  predicate KeyedByNeighbour(mappers: seq<Mapper>)
  {
    forall j1, j2 :: 0 <= j1 < j2 < |mappers| ==> mappers[j1].other != mappers[j2].other
  }

  /** The coarse mappers of one row stored under their keys, neighbour by neighbour. */
  function StoreMappers(cm: map<EntryIndex, OneToOneIndexMap>, row: Index, mappers: seq<Mapper>,
                        maps: seq<OneToOneIndexMap>): map<EntryIndex, OneToOneIndexMap>
    requires |maps| == |mappers|
    decreases |mappers|
  {
    if mappers == [] then cm
    else StoreMappers(cm, row, mappers[..|mappers| - 1], maps[..|maps| - 1])[MapperKey(row, mappers[|mappers| - 1]) := maps[|maps| - 1]]
  }

  /** The store loop of syncGhostCoarsening: each neighbour's coarse mapper under its key. */
  method StoreAll(cm: map<EntryIndex, OneToOneIndexMap>, row: Index, mappers: seq<Mapper>,
                  maps: seq<OneToOneIndexMap>) returns (cm': map<EntryIndex, OneToOneIndexMap>)
    requires |maps| == |mappers|
    ensures cm' == StoreMappers(cm, row, mappers, maps)
  {
    cm' := cm;
    var j := 0;
    while j < |mappers|
      invariant 0 <= j <= |mappers|
      invariant cm' == StoreMappers(cm, row, mappers[..j], maps[..j])
    {
      assert mappers[..j + 1][..j] == mappers[..j] && maps[..j + 1][..j] == maps[..j];
      cm' := cm'[MapperKey(row, mappers[j]) := maps[j]];
      j := j + 1;
    }
    assert mappers[..j] == mappers && maps[..j] == maps;
  }

  /**
   * After storing a row's mappers, the key of each neighbour holds that
   * neighbour's coarse mapper, and keys of other rows are kept.
   */
  lemma {:induction false} StoreMappersAt(cm: map<EntryIndex, OneToOneIndexMap>, row: Index, mappers: seq<Mapper>,
                                          maps: seq<OneToOneIndexMap>, e: EntryIndex)
    requires |maps| == |mappers|
    ensures e.row != row ==> (e in StoreMappers(cm, row, mappers, maps) <==> e in cm)
    ensures e.row != row && e in cm ==> StoreMappers(cm, row, mappers, maps)[e] == cm[e]
    decreases |mappers|
  {
    if mappers != [] {
      StoreMappersAt(cm, row, mappers[..|mappers| - 1], maps[..|maps| - 1], e);
    }
  }

  /** The neighbour jn's key holds its coarse mapper when the site's mappers are keyed by neighbour. */
  lemma {:induction false} StoreMappersOwn(cm: map<EntryIndex, OneToOneIndexMap>, row: Index, mappers: seq<Mapper>,
                                           maps: seq<OneToOneIndexMap>, jn: int)
    requires |maps| == |mappers| && KeyedByNeighbour(mappers) && 0 <= jn < |mappers|
    ensures MapperKey(row, mappers[jn]) in StoreMappers(cm, row, mappers, maps)
    ensures StoreMappers(cm, row, mappers, maps)[MapperKey(row, mappers[jn])] == maps[jn]
    decreases |mappers|
  {
    if jn < |mappers| - 1 {
      assert mappers[jn].other != mappers[|mappers| - 1].other;
      StoreMappersOwn(cm, row, mappers[..|mappers| - 1], maps[..|maps| - 1], jn);
    }
  }

  /** The ghost sizes and coarse mappers recorded so far and the coarse index contents. */
  datatype GhostSync = GhostSync(ghostSizes: map<Index, int>, mappers: map<EntryIndex, OneToOneIndexMap>,
                                 contents: map<Index, seq<int>>)

  /** The row's contents exist, its coarse size is recorded and its mappers name rows of its contents. */
  predicate Syncable(sizes: map<Index, int>, contents: map<Index, seq<int>>, row: Index)
  {
    row in contents && row in sizes && MappersInRange(row.site.mappers, |contents[row]|)
  }

  /** syncGhostCoarsening: every row in turn, whether or not it has a diagonal block. */
  function SyncRows(rows: seq<Index>, sizes: map<Index, int>, st: GhostSync): GhostSync
    decreases |rows|
  {
    if rows == [] then st
    else
      SyncFrom(rows[|rows| - 1], sizes, SyncRows(rows[..|rows| - 1], sizes, st))
  }

  /** One row of syncGhostCoarsening: its renumbered contents, its ghost count and its neighbours' mappers. */
  function SyncFrom(row: Index, sizes: map<Index, int>, st: GhostSync): GhostSync
  {
    if Syncable(sizes, st.contents, row) then
      var mappers := row.site.mappers;
      var rs := SyncRow(sizes[row], st.contents[row], mappers, |mappers|);
      GhostSync(st.ghostSizes[row := rs.nGhost], StoreMappers(st.mappers, row, mappers, rs.maps),
                st.contents[row := rs.idx])
    else st
  }

  /**
   * Each listed row ends with the contents and the ghost size its own
   * SyncRow computes from its contents; keys of rows not listed keep their
   * contents, ghost sizes and mappers.
   */
  lemma {:induction false} SyncRowsAt(rows: seq<Index>, sizes: map<Index, int>, st: GhostSync, r: Index)
    requires Distinct(rows)
    ensures SyncRows(rows, sizes, st).contents.Keys == st.contents.Keys
    ensures r in rows && Syncable(sizes, st.contents, r) ==>
              var rs := SyncRow(sizes[r], st.contents[r], r.site.mappers, |r.site.mappers|);
              SyncRows(rows, sizes, st).contents[r] == rs.idx &&
              r in SyncRows(rows, sizes, st).ghostSizes && SyncRows(rows, sizes, st).ghostSizes[r] == rs.nGhost
    ensures r !in rows ==>
              (r in st.contents ==> SyncRows(rows, sizes, st).contents[r] == st.contents[r]) &&
              (r in SyncRows(rows, sizes, st).ghostSizes <==> r in st.ghostSizes) &&
              (r in st.ghostSizes ==> SyncRows(rows, sizes, st).ghostSizes[r] == st.ghostSizes[r])
  {
    if rows != [] {
      var pre := rows[..|rows| - 1];
      assert rows == pre + [rows[|rows| - 1]];
      SyncRowsAt(pre, sizes, st, r);
    }
  }

  /**
   * Each listed row's neighbour jn has its coarse mapper under the key
   * (row, (field, neighbour)); keys of rows not listed keep their mapper.
   */
  lemma {:induction false} SyncRowsMapperAt(rows: seq<Index>, sizes: map<Index, int>, st: GhostSync, r: Index, jn: int)
    requires Distinct(rows) && r in rows && Syncable(sizes, st.contents, r)
    requires KeyedByNeighbour(r.site.mappers) && 0 <= jn < |r.site.mappers|
    ensures MapperKey(r, r.site.mappers[jn]) in SyncRows(rows, sizes, st).mappers
    ensures SyncRows(rows, sizes, st).mappers[MapperKey(r, r.site.mappers[jn])] ==
              SyncRow(sizes[r], st.contents[r], r.site.mappers, |r.site.mappers|).maps[jn]
  {
    var pre := rows[..|rows| - 1];
    var last := rows[|rows| - 1];
    assert rows == pre + [last];
    var done := SyncRows(pre, sizes, st);
    if last == r {
      assert r !in pre;
      SyncRowsAt(pre, sizes, st, r);
      StoreMappersOwn(done.mappers, r, r.site.mappers,
                      SyncRow(sizes[r], done.contents[r], r.site.mappers, |r.site.mappers|).maps, jn);
    } else {
      SyncRowsMapperAt(pre, sizes, st, r, jn);
      SyncRowsAt(pre, sizes, st, last);
      if Syncable(sizes, done.contents, last) {
        var mappers := last.site.mappers;
        StoreMappersAt(done.mappers, last, mappers,
                       SyncRow(sizes[last], done.contents[last], mappers, |mappers|).maps, MapperKey(r, r.site.mappers[jn]));
      }
    }
  }

  // ---------------------------------------------------------------- integer index fields

  /** The entries of every array of an integer MultiField. */
  ghost function Contents(f: MultiField<array<int>>): (c: map<Index, seq<int>>)
    reads f.arrays.Values
    ensures c.Keys == f.arrays.Keys
    ensures forall i :: i in c ==> c[i] == f.arrays[i][..]
  {
    map i | i in f.arrays :: f.arrays[i][..]
  }

  /** No two indices of the field share an array. */
  predicate Separate(f: MultiField<array<int>>)
  {
    forall i, j :: i in f.arrays && j in f.arrays && i != j ==> f.arrays[i] != f.arrays[j]
  }

  /** Overwrites the array of row with s; the other arrays of the field keep their entries. */
  method StoreRow(f: MultiField<array<int>>, row: Index, s: seq<int>)
    requires row in f.arrays && Separate(f) && |s| == f.arrays[row].Length
    modifies f.arrays[row]
    ensures Contents(f) == old(Contents(f))[row := s]
  {
    var a := f.arrays[row];
    forall j | 0 <= j < |s| {
      a[j] := s[j];
    }
    assert a[..] == s;
    forall i | i in f.arrays
      ensures Contents(f)[i] == old(Contents(f))[row := s][i]
    {
      if i != row {
        assert f.arrays[i] != a;
        assert f.arrays[i][..] == old(f.arrays[i][..]);
      }
    }
  }

  /** syncGhostCoarsening on the array of one row; the other arrays of the field keep their entries. */
  method SyncFieldRow(f: MultiField<array<int>>, row: Index, coarseSize: int)
    returns (coarseGhostSize: nat, coarseMaps: seq<OneToOneIndexMap>)
    requires row in f.arrays && Separate(f) && MappersInRange(row.site.mappers, f.arrays[row].Length)
    modifies f.arrays[row]
    ensures var rs := SyncRow(coarseSize, old(f.arrays[row][..]), row.site.mappers, |row.site.mappers|);
            rs.nGhost == coarseGhostSize && rs.maps == coarseMaps && Contents(f) == old(Contents(f))[row := rs.idx]
  {
    var a := f.arrays[row];
    coarseGhostSize, coarseMaps := SyncGhostRow(a, coarseSize, row.site.mappers);
    forall i | i in f.arrays
      ensures Contents(f)[i] == old(Contents(f))[row := a[..]][i]
    {
      if i != row {
        assert f.arrays[i] != a;
        assert f.arrays[i][..] == old(f.arrays[i][..]);
      }
    }
  }

  /** The loop body of syncGhostCoarsening: one row's contents, ghost count and coarse mappers. */
  method SyncFieldAt(f: MultiField<array<int>>, row: Index, sizes: map<Index, int>,
                     ghostSizes: map<Index, int>, mappers: map<EntryIndex, OneToOneIndexMap>)
    returns (ghostSizes': map<Index, int>, mappers': map<EntryIndex, OneToOneIndexMap>)
    requires row in f.arrays && Separate(f) && Syncable(sizes, Contents(f), row)
    modifies f.arrays[row]
    ensures GhostSync(ghostSizes', mappers', Contents(f)) ==
              SyncFrom(row, sizes, old(GhostSync(ghostSizes, mappers, Contents(f))))
  {
    var coarseGhostSize, coarseMaps := SyncFieldRow(f, row, sizes[row]);
    mappers' := StoreAll(mappers, row, row.site.mappers, coarseMaps);
    ghostSizes' := ghostSizes[row := coarseGhostSize];
  }

  // ---------------------------------------------------------------- createCoarseToFineMapping

  /** The row has a coarse site and its coarse index covers its fine rows with ids below the coarse count. */
  predicate Mappable(contents: map<Index, seq<int>>, sites: map<Index, Site>, row: Index)
  {
    row in contents && row in sites && row.site.count <= |contents[row]| &&
    IdsBelow(contents[row], row.site.count, sites[row].count)
  }

  /** The row's coarse-to-fine mapping lists, for each coarse row, the fine rows aggregated into it. */
  ghost predicate MapsBack(ctf: map<Index, CoarseToFine>, contents: map<Index, seq<int>>, sites: map<Index, Site>,
                           row: Index)
  {
    row in ctf && row in contents && row in sites && row.site.count <= |contents[row]| &&
    InverseOf(ctf[row], contents[row], row.site.count, sites[row].count)
  }

  // ---------------------------------------------------------------- createCoarseConnectivity, createCoarseMatrices

  /**
   * The coarse connectivity of every block whose row and column are among
   * the listed ones, built from the row's coarse index, its coarse-to-fine
   * mapping and the coarse sites of row and column.
   */
  function CoarseConnections(k: Kernels, m: map<EntryIndex, Block>, rows: seq<Index>, cols: seq<Index>,
                             contents: map<Index, seq<int>>, ctf: map<Index, CoarseToFine>,
                             sites: map<Index, Site>): map<EntryIndex, Connectivity>
  {
    map e | e in m && e.row in rows && e.col in cols && e.row in contents && e.row in ctf &&
            e.row in sites && e.col in sites
          :: k.createCoarseConnectivity(m[e], contents[e.row], ctf[e.row], sites[e.row], sites[e.col])
  }

  /**
   * The coarse matrix of every block whose row and column are among the
   * listed ones, built from the row's coarse index, its coarse-to-fine
   * mapping and the block's coarse connectivity.
   */
  function CoarseBlocks(k: Kernels, m: map<EntryIndex, Block>, rows: seq<Index>, cols: seq<Index>,
                        contents: map<Index, seq<int>>, ctf: map<Index, CoarseToFine>,
                        conn: map<EntryIndex, Connectivity>): map<EntryIndex, Block>
  {
    map e | e in m && e.row in rows && e.col in cols && e.row in contents && e.row in ctf && e in conn
          :: k.createCoarseMatrix(m[e], contents[e.row], ctf[e.row], conn[e])
  }

  /** Every row of the field has its coarse-to-fine mapping. */
  predicate MappedRows(rows: seq<Index>, ctf: map<Index, CoarseToFine>)
  {
    forall i :: 0 <= i < |rows| ==> rows[i] in ctf
  }

  /** Every row of the field has its coarse index, its coarse-to-fine mapping and its coarse site. */
  predicate Prepared(rows: seq<Index>, contents: map<Index, seq<int>>, ctf: map<Index, CoarseToFine>,
                     sites: map<Index, Site>)
  {
    forall i :: 0 <= i < |rows| ==> rows[i] in contents && rows[i] in ctf && rows[i] in sites
  }

  /**
   * Once every row is prepared, the coarse connectivities are exactly one
   * per fine block among the rows, and the coarse matrices are then exactly
   * one per fine block among the rows as well: the levels share their
   * sparsity of blocks.
   */
  lemma CoarseKeys(k: Kernels, m: map<EntryIndex, Block>, rows: seq<Index>, contents: map<Index, seq<int>>,
                   ctf: map<Index, CoarseToFine>, sites: map<Index, Site>, e: EntryIndex)
    requires Prepared(rows, contents, ctf, sites)
    ensures var conn := CoarseConnections(k, m, rows, rows, contents, ctf, sites);
            (e in conn <==> e in m && e.row in rows && e.col in rows) &&
            (e in CoarseBlocks(k, m, rows, rows, contents, ctf, conn) <==> e in conn)
  {
    if e.row in rows && e.col in rows {
      var i :| 0 <= i < |rows| && rows[i] == e.row;
      var j :| 0 <= j < |rows| && rows[j] == e.col;
    }
  }

  /** The column loop of createCoarseConnectivity for one row, whose coarse index is fineToCoarse. */
  method ConnectRow(k: Kernels, m: map<EntryIndex, Block>, row: Index, cols: seq<Index>, fineToCoarse: seq<int>,
                    ghost contents: map<Index, seq<int>>, ctf: map<Index, CoarseToFine>, sites: map<Index, Site>,
                    base: map<EntryIndex, Connectivity>) returns (conn: map<EntryIndex, Connectivity>)
    requires row in contents && contents[row] == fineToCoarse && row in ctf && row in sites
    requires forall j :: 0 <= j < |cols| ==> cols[j] in sites
    ensures conn == base + CoarseConnections(k, m, [row], cols, contents, ctf, sites)
  {
    conn := base;
    var j := 0;
    while j < |cols|
      invariant 0 <= j <= |cols|
      invariant conn == base + CoarseConnections(k, m, [row], cols[..j], contents, ctf, sites)
    {
      var col := cols[j];
      ConnectionsColumnStep(k, m, row, cols, j, contents, ctf, sites);
      var e := EntryIndex(row, col);
      if e in m {
        var c := k.createCoarseConnectivity(m[e], fineToCoarse, ctf[row], sites[row], sites[col]);
        UnionUpdate(base, CoarseConnections(k, m, [row], cols[..j], contents, ctf, sites), e, c);
        conn := conn[e := c];
      }
      j := j + 1;
    }
    assert cols[..|cols|] == cols;
  }

  /** The column loop of createCoarseMatrices for one row, whose coarse index is fineToCoarse. */
  method CoarsenBlocksOfRow(k: Kernels, m: map<EntryIndex, Block>, row: Index, cols: seq<Index>, fineToCoarse: seq<int>,
                            ghost contents: map<Index, seq<int>>, ctf: map<Index, CoarseToFine>,
                            conn: map<EntryIndex, Connectivity>, base: map<EntryIndex, Block>)
    returns (blocks: map<EntryIndex, Block>)
    requires row in contents && contents[row] == fineToCoarse && row in ctf
    requires forall j :: 0 <= j < |cols| && EntryIndex(row, cols[j]) in m ==> EntryIndex(row, cols[j]) in conn
    ensures blocks == base + CoarseBlocks(k, m, [row], cols, contents, ctf, conn)
  {
    blocks := base;
    var j := 0;
    while j < |cols|
      invariant 0 <= j <= |cols|
      invariant blocks == base + CoarseBlocks(k, m, [row], cols[..j], contents, ctf, conn)
    {
      var col := cols[j];
      BlocksColumnStep(k, m, row, cols, j, contents, ctf, conn);
      var e := EntryIndex(row, col);
      if e in m {
        var b := k.createCoarseMatrix(m[e], fineToCoarse, ctf[row], conn[e]);
        UnionUpdate(base, CoarseBlocks(k, m, [row], cols[..j], contents, ctf, conn), e, b);
        blocks := blocks[e := b];
      }
      j := j + 1;
    }
    assert cols[..|cols|] == cols;
  }

  /** Map union regroups: adding b and then c adds their union. */
  lemma UnionRegroup<K, V>(a: map<K, V>, b: map<K, V>, c: map<K, V>)
    ensures a + b + c == a + (b + c)
  {
  }

  /** Updating the right operand of a union updates the union. */
  lemma UnionUpdate<K, V>(a: map<K, V>, b: map<K, V>, e: K, v: V)
    ensures a + b[e := v] == (a + b)[e := v]
  {
  }

  /** One more column of a row joins its couplings. */
  lemma ConnectionsColumnStep(k: Kernels, m: map<EntryIndex, Block>, row: Index, cols: seq<Index>, j: int,
                              contents: map<Index, seq<int>>, ctf: map<Index, CoarseToFine>, sites: map<Index, Site>)
    requires 0 <= j < |cols| && row in contents && row in ctf && row in sites && cols[j] in sites
    ensures var e := EntryIndex(row, cols[j]);
            var before := CoarseConnections(k, m, [row], cols[..j], contents, ctf, sites);
            CoarseConnections(k, m, [row], cols[..j + 1], contents, ctf, sites) ==
              if e in m then before[e := k.createCoarseConnectivity(m[e], contents[row], ctf[row], sites[row], sites[cols[j]])]
              else before
  {
    assert cols[..j + 1] == cols[..j] + [cols[j]];
  }

  /** One more row joins the couplings. */
  lemma ConnectionsRowStep(k: Kernels, m: map<EntryIndex, Block>, rows: seq<Index>, cols: seq<Index>, i: int,
                           contents: map<Index, seq<int>>, ctf: map<Index, CoarseToFine>, sites: map<Index, Site>)
    requires 0 <= i < |rows|
    ensures CoarseConnections(k, m, rows[..i + 1], cols, contents, ctf, sites) ==
              CoarseConnections(k, m, rows[..i], cols, contents, ctf, sites) +
              CoarseConnections(k, m, [rows[i]], cols, contents, ctf, sites)
  {
    assert rows[..i + 1] == rows[..i] + [rows[i]];
  }

  /** One more column of a row joins its coarse matrices. */
  lemma BlocksColumnStep(k: Kernels, m: map<EntryIndex, Block>, row: Index, cols: seq<Index>, j: int,
                         contents: map<Index, seq<int>>, ctf: map<Index, CoarseToFine>, conn: map<EntryIndex, Connectivity>)
    requires 0 <= j < |cols| && row in contents && row in ctf
    ensures var e := EntryIndex(row, cols[j]);
            var before := CoarseBlocks(k, m, [row], cols[..j], contents, ctf, conn);
            CoarseBlocks(k, m, [row], cols[..j + 1], contents, ctf, conn) ==
              if e in m && e in conn then before[e := k.createCoarseMatrix(m[e], contents[row], ctf[row], conn[e])]
              else before
  {
    assert cols[..j + 1] == cols[..j] + [cols[j]];
  }

  /** One more row joins the coarse matrices. */
  lemma BlocksRowStep(k: Kernels, m: map<EntryIndex, Block>, rows: seq<Index>, cols: seq<Index>, i: int,
                      contents: map<Index, seq<int>>, ctf: map<Index, CoarseToFine>, conn: map<EntryIndex, Connectivity>)
    requires 0 <= i < |rows|
    ensures CoarseBlocks(k, m, rows[..i + 1], cols, contents, ctf, conn) ==
              CoarseBlocks(k, m, rows[..i], cols, contents, ctf, conn) +
              CoarseBlocks(k, m, [rows[i]], cols, contents, ctf, conn)
  {
    assert rows[..i + 1] == rows[..i] + [rows[i]];
  }

  // ---------------------------------------------------------------- injectResidual, correctSolution

  /** The coarse array index of a fine row: the same field on the row's coarse site. */
  function CoarseRow(row: Index, sites: map<Index, Site>): Index
    requires row in sites
  {
    Index(row.field, sites[row])
  }

  /** Every listed fine row has a coarse site, and no two of them share a coarse array index. */
  predicate CoarseRowsApart(rows: seq<Index>, sites: map<Index, Site>)
  {
    (forall i :: 0 <= i < |rows| ==> rows[i] in sites) &&
    forall i, j :: 0 <= i < j < |rows| && rows[i] in sites && rows[j] in sites ==>
      CoarseRow(rows[i], sites) != CoarseRow(rows[j], sites)
  }

  /** The row's fine array, its coarse index and its coarse array are all present. */
  predicate Transferable(row: Index, fine: map<Index, Vec>, idx: map<Index, seq<int>>, sites: map<Index, Site>,
                         coarse: map<Index, Vec>)
  {
    row in fine && row in idx && row in sites && CoarseRow(row, sites) in coarse
  }

  /** injectResidual: each fine row in turn injects its own rows into its coarse array. */
  function InjectRows(k: Kernels, rows: seq<Index>, fine: map<Index, Vec>, idx: map<Index, seq<int>>,
                      sites: map<Index, Site>, coarse: map<Index, Vec>): (r: map<Index, Vec>)
    ensures r.Keys == coarse.Keys
    decreases |rows|
  {
    if rows == [] then coarse
    else
      var done := InjectRows(k, rows[..|rows| - 1], fine, idx, sites, coarse);
      var row := rows[|rows| - 1];
      if Transferable(row, fine, idx, sites, done) then
        var cr := CoarseRow(row, sites);
        done[cr := k.inject(fine[row], done[cr], idx[row], row.site.selfCount)]
      else done
  }

  /**
   * The coarse array of each listed row is the injection of that row's fine
   * array into the coarse array it started from; coarse arrays that belong
   * to no listed row are kept, and so is the set of coarse arrays.
   */
  lemma {:induction false} InjectRowsAt(k: Kernels, rows: seq<Index>, fine: map<Index, Vec>, idx: map<Index, seq<int>>,
                                        sites: map<Index, Site>, coarse: map<Index, Vec>, c: Index)
    requires CoarseRowsApart(rows, sites)
    ensures InjectRows(k, rows, fine, idx, sites, coarse).Keys == coarse.Keys
    ensures forall i :: 0 <= i < |rows| && Transferable(rows[i], fine, idx, sites, coarse) && c == CoarseRow(rows[i], sites) ==>
              InjectRows(k, rows, fine, idx, sites, coarse)[c] ==
                k.inject(fine[rows[i]], coarse[c], idx[rows[i]], rows[i].site.selfCount)
    ensures c in coarse && (forall i :: 0 <= i < |rows| ==> c != CoarseRow(rows[i], sites)) ==>
              InjectRows(k, rows, fine, idx, sites, coarse)[c] == coarse[c]
    decreases |rows|
  {
    if rows != [] {
      var pre := rows[..|rows| - 1];
      assert forall i :: 0 <= i < |pre| ==> pre[i] == rows[i];
      InjectRowsAt(k, pre, fine, idx, sites, coarse, c);
    }
  }

  /** correctSolution: each fine row in turn is corrected from its coarse array. */
  function CorrectRows(k: Kernels, rows: seq<Index>, fine: map<Index, Vec>, idx: map<Index, seq<int>>,
                       sites: map<Index, Site>, coarse: map<Index, Vec>): (r: map<Index, Vec>)
    ensures r.Keys == fine.Keys
    decreases |rows|
  {
    if rows == [] then fine
    else
      var done := CorrectRows(k, rows[..|rows| - 1], fine, idx, sites, coarse);
      var row := rows[|rows| - 1];
      if Transferable(row, done, idx, sites, coarse) then
        done[row := k.correct(done[row], coarse[CoarseRow(row, sites)], idx[row], row.site.selfCount)]
      else done
  }

  /**
   * Each listed fine row is its own array corrected from its coarse array;
   * fine arrays not listed are kept, and so is the set of fine arrays.
   */
  lemma {:induction false} CorrectRowsAt(k: Kernels, rows: seq<Index>, fine: map<Index, Vec>, idx: map<Index, seq<int>>,
                                         sites: map<Index, Site>, coarse: map<Index, Vec>, r: Index)
    requires Distinct(rows)
    ensures CorrectRows(k, rows, fine, idx, sites, coarse).Keys == fine.Keys
    ensures r in rows && Transferable(r, fine, idx, sites, coarse) ==>
              CorrectRows(k, rows, fine, idx, sites, coarse)[r] ==
                k.correct(fine[r], coarse[CoarseRow(r, sites)], idx[r], r.site.selfCount)
    ensures r in fine && r !in rows ==> CorrectRows(k, rows, fine, idx, sites, coarse)[r] == fine[r]
    decreases |rows|
  {
    if rows != [] {
      var pre := rows[..|rows| - 1];
      assert rows == pre + [rows[|rows| - 1]];
      CorrectRowsAt(k, pre, fine, idx, sites, coarse, r);
    }
  }
}
