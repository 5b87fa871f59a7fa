/**
 * syncGhostCoarsening for one row: the ghost rows that mirror a neighbour
 * site get fresh coarse ids, numbered after the row's own coarse rows. Per
 * neighbour, a map from the neighbour's coarse id to the new id makes ghost
 * rows the neighbour aggregated together share one id here; the counter of
 * new ids runs on across neighbours.
 */
module MFGhostCoarsening {
  import opened MFTypes

  /** Insertion of a key into the ascending key list of a std::map (no change when present). */
  function InsertSorted(s: seq<int>, x: int): seq<int>
  {
    if s == [] then [x]
    else if x < s[0] then [x] + s
    else if x == s[0] then s
    else [s[0]] + InsertSorted(s[1..], x)
  }

  /** Inserting a key adds it once and keeps an ascending key list ascending; a present key changes nothing. */
  lemma {:induction false} InsertSortedSpec(s: seq<int>, x: int)
    ensures forall v :: v in InsertSorted(s, x) <==> v in s || v == x
    ensures Increasing(s) ==> Increasing(InsertSorted(s, x))
    ensures x !in s ==> |InsertSorted(s, x)| == |s| + 1
    ensures Increasing(s) && x in s ==> InsertSorted(s, x) == s
  {
    if s != [] && x > s[0] {
      var rest := InsertSorted(s[1..], x);
      InsertSortedSpec(s[1..], x);
      assert s == [s[0]] + s[1..];
      assert InsertSorted(s, x) == [s[0]] + rest;
      if Increasing(s) {
        assert Increasing(s[1..]);
        forall i | 0 <= i < |rest| ensures s[0] < rest[i] {
          assert rest[i] in rest;
        }
      }
    }
  }

  /**
   * otherToMyMapping for one neighbour together with its keys in ascending
   * order (the map's iteration order), the coarse index array, and the
   * running coarseGhostSize.
   */
  datatype GhostState = GhostState(idx: seq<int>, mapping: map<int, int>, keys: seq<int>, nGhost: nat)

  /** Every ghost row named is a row of the coarse index array. */
  predicate ValidRows(toIndices: seq<int>, n: int)
  {
    forall ng :: 0 <= ng < |toIndices| ==> 0 <= toIndices[ng] < n
  }

  /** One ghost row: reuse the id given to its neighbour coarse id, or hand out the next one. */
  function GhostStep(coarseSize: int, s: GhostState, fineIndex: int): GhostState
    requires 0 <= fineIndex < |s.idx|
  {
    var other := s.idx[fineIndex];
    if other in s.mapping then s.(idx := s.idx[fineIndex := s.mapping[other]])
    else
      var id := coarseSize + s.nGhost;
      GhostState(s.idx[fineIndex := id], s.mapping[other := id], InsertSorted(s.keys, other), s.nGhost + 1)
  }

  /** The first n ghost rows of a neighbour, in order. */
  function GhostPass(coarseSize: int, s: GhostState, toIndices: seq<int>, n: nat): (r: GhostState)
    requires n <= |toIndices| && ValidRows(toIndices, |s.idx|)
    ensures |r.idx| == |s.idx|
    decreases n
  {
    if n == 0 then s else GhostStep(coarseSize, GhostPass(coarseSize, s, toIndices, n - 1), toIndices[n - 1])
  }

  /** Every id in the map lies in [lo, hi). */
  ghost predicate ValuesIn(mapping: map<int, int>, lo: int, hi: int)
  {
    forall v :: v in mapping ==> lo <= mapping[v] < hi
  }

  /** No two keys share an id. */
  ghost predicate OneToOne(mapping: map<int, int>)
  {
    forall v, w :: v in mapping && w in mapping && v != w ==> mapping[v] != mapping[w]
  }

  /**
   * The neighbour's map is a one-to-one map from its keys (ascending) into
   * the ids [coarseSize + g0, coarseSize + nGhost), one key per id handed out.
   */
  ghost predicate GhostInv(coarseSize: int, g0: nat, s: GhostState)
  {
    g0 <= s.nGhost &&
    Increasing(s.keys) && |s.keys| == s.nGhost - g0 &&
    (forall v :: v in s.keys <==> v in s.mapping) &&
    ValuesIn(s.mapping, coarseSize + g0, coarseSize + s.nGhost) &&
    OneToOne(s.mapping)
  }

  /** A step hands out ids from the range only. */
  lemma GhostStepRange(coarseSize: int, lo: int, s: GhostState, fineIndex: int)
    requires 0 <= fineIndex < |s.idx| && lo <= coarseSize + s.nGhost
    requires ValuesIn(s.mapping, lo, coarseSize + s.nGhost)
    ensures ValuesIn(GhostStep(coarseSize, s, fineIndex).mapping, lo, coarseSize + GhostStep(coarseSize, s, fineIndex).nGhost)
    ensures lo <= GhostStep(coarseSize, s, fineIndex).idx[fineIndex] < coarseSize + GhostStep(coarseSize, s, fineIndex).nGhost
    ensures GhostStep(coarseSize, s, fineIndex).nGhost >= s.nGhost
  {
  }

  lemma GhostStepInv(coarseSize: int, g0: nat, s: GhostState, fineIndex: int)
    requires 0 <= fineIndex < |s.idx| && GhostInv(coarseSize, g0, s)
    ensures GhostInv(coarseSize, g0, GhostStep(coarseSize, s, fineIndex))
    ensures forall v :: v in s.mapping ==>
              (v in GhostStep(coarseSize, s, fineIndex).mapping &&
               GhostStep(coarseSize, s, fineIndex).mapping[v] == s.mapping[v])
  {
    GhostStepRange(coarseSize, coarseSize + g0, s, fineIndex);
    InsertSortedSpec(s.keys, s.idx[fineIndex]);
  }

  /** A step writes only the row it visits. */
  lemma GhostStepFrame(coarseSize: int, s: GhostState, fineIndex: int, i: int)
    requires 0 <= fineIndex < |s.idx| && 0 <= i < |s.idx| && i != fineIndex
    ensures GhostStep(coarseSize, s, fineIndex).idx[i] == s.idx[i]
  {
  }

  /** A row whose neighbour coarse id has no entry yet gets the next id. */
  lemma GhostStepFresh(coarseSize: int, s: GhostState, fineIndex: int)
    requires 0 <= fineIndex < |s.idx| && s.idx[fineIndex] !in s.mapping
    ensures GhostStep(coarseSize, s, fineIndex).idx[fineIndex] == coarseSize + s.nGhost
  {
  }

  /** The rows in toIndices[..n]. */
  predicate Visited(toIndices: seq<int>, n: int, i: int)
    requires 0 <= n <= |toIndices|
  {
    i in toIndices[..n]
  }

  /** A neighbour's pass keeps the map one-to-one and only adds keys to it. */
  lemma {:induction false} GhostPassInv(coarseSize: int, g0: nat, s: GhostState, toIndices: seq<int>, n: nat)
    requires n <= |toIndices| && ValidRows(toIndices, |s.idx|) && GhostInv(coarseSize, g0, s)
    ensures GhostInv(coarseSize, g0, GhostPass(coarseSize, s, toIndices, n))
    ensures forall v :: v in s.mapping ==>
              (v in GhostPass(coarseSize, s, toIndices, n).mapping &&
               GhostPass(coarseSize, s, toIndices, n).mapping[v] == s.mapping[v])
    decreases n
  {
    if n > 0 {
      GhostPassInv(coarseSize, g0, s, toIndices, n - 1);
      GhostStepInv(coarseSize, g0, GhostPass(coarseSize, s, toIndices, n - 1), toIndices[n - 1]);
    }
  }

  /** A neighbour's pass leaves every row it does not visit alone. */
  lemma {:induction false} GhostPassFrame(coarseSize: int, s: GhostState, toIndices: seq<int>, n: nat, i: int)
    requires n <= |toIndices| && ValidRows(toIndices, |s.idx|)
    requires 0 <= i < |s.idx| && !Visited(toIndices, n, i)
    ensures GhostPass(coarseSize, s, toIndices, n).idx[i] == s.idx[i]
    decreases n
  {
    if n > 0 {
      assert toIndices[..n] == toIndices[..n - 1] + [toIndices[n - 1]];
      GhostPassFrame(coarseSize, s, toIndices, n - 1, i);
    }
  }

  /** The rows toIndices[..n] all hold ids in [lo, hi). */
  ghost predicate IdsIn(idx: seq<int>, toIndices: seq<int>, n: int, lo: int, hi: int)
    requires 0 <= n <= |toIndices| && ValidRows(toIndices, |idx|)
  {
    forall ng :: 0 <= ng < n ==> lo <= idx[toIndices[ng]] < hi
  }

  /** A neighbour's pass gives every row it visits one of the ids [lo, coarseSize + nGhost). */
  lemma {:induction false} GhostPassVisited(coarseSize: int, lo: int, s: GhostState, toIndices: seq<int>, n: nat)
    requires n <= |toIndices| && ValidRows(toIndices, |s.idx|)
    requires lo <= coarseSize + s.nGhost && ValuesIn(s.mapping, lo, coarseSize + s.nGhost)
    ensures ValuesIn(GhostPass(coarseSize, s, toIndices, n).mapping, lo, coarseSize + GhostPass(coarseSize, s, toIndices, n).nGhost)
    ensures GhostPass(coarseSize, s, toIndices, n).nGhost >= s.nGhost
    ensures IdsIn(GhostPass(coarseSize, s, toIndices, n).idx, toIndices, n, lo, coarseSize + GhostPass(coarseSize, s, toIndices, n).nGhost)
    decreases n
  {
    if n > 0 {
      var p := GhostPass(coarseSize, s, toIndices, n - 1);
      var q := GhostStep(coarseSize, p, toIndices[n - 1]);
      GhostPassVisited(coarseSize, lo, s, toIndices, n - 1);
      GhostStepRange(coarseSize, lo, p, toIndices[n - 1]);
      assert GhostPass(coarseSize, s, toIndices, n) == q;
      forall ng | 0 <= ng < n
        ensures lo <= q.idx[toIndices[ng]] < coarseSize + q.nGhost
      {
        if toIndices[ng] != toIndices[n - 1] {
          GhostStepFrame(coarseSize, p, toIndices[n - 1], toIndices[ng]);
        }
      }
    }
  }

  /** Some row of toIndices[..n] held the neighbour coarse id v in the array as it was. */
  ghost predicate Met(idx: seq<int>, toIndices: seq<int>, n: int, v: int)
    requires 0 <= n <= |toIndices| && ValidRows(toIndices, |idx|)
  {
    exists ng :: 0 <= ng < n && idx[toIndices[ng]] == v
  }

  /** Row toIndices[a] is where its neighbour coarse id is met first. */
  ghost predicate FirstMet(idx: seq<int>, toIndices: seq<int>, a: int)
    requires 0 <= a < |toIndices| && ValidRows(toIndices, |idx|)
  {
    forall j :: 0 <= j < a ==> idx[toIndices[j]] != idx[toIndices[a]]
  }

  /** A step only adds keys to the map. */
  lemma GhostStepExtends(coarseSize: int, s: GhostState, fineIndex: int, v: int)
    requires 0 <= fineIndex < |s.idx| && v in s.mapping
    ensures v in GhostStep(coarseSize, s, fineIndex).mapping
    ensures GhostStep(coarseSize, s, fineIndex).mapping[v] == s.mapping[v]
  {
  }

  /** Row t is not among the first n - 1 rows of a list of distinct rows whose n-th row it is. */
  lemma LastNotVisited(toIndices: seq<int>, n: int)
    requires 0 < n <= |toIndices| && Distinct(toIndices)
    ensures !Visited(toIndices, n - 1, toIndices[n - 1])
  {
  }

  /** Over distinct ghost rows, starting from an empty map, the keys are exactly the neighbour coarse ids met. */
  lemma {:induction false} GhostPassKeys(coarseSize: int, idx: seq<int>, g0: nat, toIndices: seq<int>, n: nat)
    requires n <= |toIndices| && ValidRows(toIndices, |idx|) && Distinct(toIndices)
    ensures forall v :: v in GhostPass(coarseSize, GhostState(idx, map[], [], g0), toIndices, n).mapping <==>
              Met(idx, toIndices, n, v)
    decreases n
  {
    var s0 := GhostState(idx, map[], [], g0);
    if n > 0 {
      var p := GhostPass(coarseSize, s0, toIndices, n - 1);
      var t := toIndices[n - 1];
      GhostPassKeys(coarseSize, idx, g0, toIndices, n - 1);
      LastNotVisited(toIndices, n);
      GhostPassFrame(coarseSize, s0, toIndices, n - 1, t);
      var q := GhostStep(coarseSize, p, t);
      forall w ensures w in q.mapping <==> Met(idx, toIndices, n, w) {
        if Met(idx, toIndices, n, w) && w != idx[t] {
          var ng :| 0 <= ng < n && idx[toIndices[ng]] == w;
          assert Met(idx, toIndices, n - 1, w);
        }
        if Met(idx, toIndices, n - 1, w) {
          var ng :| 0 <= ng < n - 1 && idx[toIndices[ng]] == w;
          assert Met(idx, toIndices, n, w);
        }
      }
    }
  }

  /**
   * Over distinct ghost rows, starting from an empty map, every ghost row
   * holds the id of the neighbour coarse id it held: rows the neighbour
   * aggregated together share one id.
   */
  lemma {:induction false} GhostPassShared(coarseSize: int, idx: seq<int>, g0: nat, toIndices: seq<int>, n: nat)
    requires n <= |toIndices| && ValidRows(toIndices, |idx|) && Distinct(toIndices)
    ensures forall ng :: 0 <= ng < n ==>
              (idx[toIndices[ng]] in GhostPass(coarseSize, GhostState(idx, map[], [], g0), toIndices, n).mapping &&
               GhostPass(coarseSize, GhostState(idx, map[], [], g0), toIndices, n).idx[toIndices[ng]] ==
               GhostPass(coarseSize, GhostState(idx, map[], [], g0), toIndices, n).mapping[idx[toIndices[ng]]])
    decreases n
  {
    var s0 := GhostState(idx, map[], [], g0);
    if n > 0 {
      var p := GhostPass(coarseSize, s0, toIndices, n - 1);
      var t := toIndices[n - 1];
      GhostPassShared(coarseSize, idx, g0, toIndices, n - 1);
      LastNotVisited(toIndices, n);
      GhostPassFrame(coarseSize, s0, toIndices, n - 1, t);
      var q := GhostStep(coarseSize, p, t);
      forall ng | 0 <= ng < n
        ensures idx[toIndices[ng]] in q.mapping && q.idx[toIndices[ng]] == q.mapping[idx[toIndices[ng]]]
      {
        if ng < n - 1 {
          assert toIndices[ng] != t;
          GhostStepExtends(coarseSize, p, t, idx[toIndices[ng]]);
        }
      }
    }
  }

  /** A neighbour coarse id met first at row toIndices[b] was not met before it. */
  lemma FirstMetIsNew(idx: seq<int>, toIndices: seq<int>, b: int)
    requires 0 <= b < |toIndices| && ValidRows(toIndices, |idx|) && FirstMet(idx, toIndices, b)
    ensures !Met(idx, toIndices, b, idx[toIndices[b]])
  {
  }

  /** The ghost row where a neighbour coarse id is met first gets an id above all ids handed out before. */
  lemma FirstMetGetsNextId(coarseSize: int, idx: seq<int>, g0: nat, toIndices: seq<int>, n: nat)
    requires 0 < n <= |toIndices| && ValidRows(toIndices, |idx|) && Distinct(toIndices)
    requires FirstMet(idx, toIndices, n - 1)
    ensures forall a :: 0 <= a < n - 1 ==>
              GhostPass(coarseSize, GhostState(idx, map[], [], g0), toIndices, n - 1).idx[toIndices[a]] <
              GhostPass(coarseSize, GhostState(idx, map[], [], g0), toIndices, n).idx[toIndices[n - 1]]
  {
    var s0 := GhostState(idx, map[], [], g0);
    var p := GhostPass(coarseSize, s0, toIndices, n - 1);
    var t := toIndices[n - 1];
    GhostPassKeys(coarseSize, idx, g0, toIndices, n - 1);
    GhostPassVisited(coarseSize, coarseSize + g0, s0, toIndices, n - 1);
    FirstMetIsNew(idx, toIndices, n - 1);
    LastNotVisited(toIndices, n);
    GhostPassFrame(coarseSize, s0, toIndices, n - 1, t);
    assert p.idx[t] == idx[t] && idx[t] !in p.mapping;
    GhostStepFresh(coarseSize, p, t);
    assert GhostPass(coarseSize, s0, toIndices, n) == GhostStep(coarseSize, p, t);
    assert IdsIn(p.idx, toIndices, n - 1, coarseSize + g0, coarseSize + p.nGhost);
  }

  /**
   * Over distinct ghost rows, starting from an empty map, ids are handed
   * out in the order in which the neighbour coarse ids are first met.
   */
  lemma {:induction false} GhostPassOrder(coarseSize: int, idx: seq<int>, g0: nat, toIndices: seq<int>, n: nat,
                                          a: int, b: int)
    requires n <= |toIndices| && ValidRows(toIndices, |idx|) && Distinct(toIndices)
    requires 0 <= a < b < n && FirstMet(idx, toIndices, a) && FirstMet(idx, toIndices, b)
    ensures GhostPass(coarseSize, GhostState(idx, map[], [], g0), toIndices, n).idx[toIndices[a]] <
            GhostPass(coarseSize, GhostState(idx, map[], [], g0), toIndices, n).idx[toIndices[b]]
    decreases n
  {
    var s0 := GhostState(idx, map[], [], g0);
    var p := GhostPass(coarseSize, s0, toIndices, n - 1);
    var t := toIndices[n - 1];
    var q := GhostStep(coarseSize, p, t);
    assert toIndices[a] != t;
    assert q.idx[toIndices[a]] == p.idx[toIndices[a]];
    if b == n - 1 {
      FirstMetGetsNextId(coarseSize, idx, g0, toIndices, n);
    } else {
      GhostPassOrder(coarseSize, idx, g0, toIndices, n - 1, a, b);
      assert toIndices[b] != t;
      assert q.idx[toIndices[b]] == p.idx[toIndices[b]];
    }
  }

  // ---------------------------------------------------------------- one row, all neighbours

  /** The coarse mapper of one neighbour: its coarse ids in ascending order, and the ids they were given here. */
  function PairsOf(s: GhostState): (r: OneToOneIndexMap)
    ensures |r.fromIndices| == |r.toIndices| == |s.keys|
  {
    OneToOneIndexMap(s.keys, seq(|s.keys|, i requires 0 <= i < |s.keys| =>
                                   if s.keys[i] in s.mapping then s.mapping[s.keys[i]] else 0))
  }

  /**
   * A neighbour's coarse mapper lists every key once, in ascending order,
   * beside the id the map gives it; the ids listed are distinct and are the
   * ones handed out for this neighbour.
   */
  lemma PairsOfBijection(coarseSize: int, g0: nat, s: GhostState)
    requires GhostInv(coarseSize, g0, s)
    ensures Increasing(PairsOf(s).fromIndices) && |PairsOf(s).fromIndices| == s.nGhost - g0
    ensures forall v :: v in s.mapping <==> v in PairsOf(s).fromIndices
    ensures forall i :: 0 <= i < |s.keys| ==> PairsOf(s).toIndices[i] == s.mapping[PairsOf(s).fromIndices[i]]
    ensures forall i :: 0 <= i < |s.keys| ==> coarseSize + g0 <= PairsOf(s).toIndices[i] < coarseSize + s.nGhost
    ensures forall i, j :: 0 <= i < j < |s.keys| ==> PairsOf(s).toIndices[i] != PairsOf(s).toIndices[j]
  {
  }

  /** The result of syncGhostCoarsening on one row: its coarse index, coarseGhostSize and one coarse mapper per neighbour. */
  datatype RowSync = RowSync(idx: seq<int>, nGhost: nat, maps: seq<OneToOneIndexMap>)

  /** Every mapper names rows of the coarse index array only. */
  predicate MappersInRange(mappers: seq<Mapper>, n: int)
  {
    forall j :: 0 <= j < |mappers| ==> ValidRows(mappers[j].toIndices, n)
  }

  /** One neighbour: a fresh map, the counter carried on from the neighbours before. */
  function MapperPass(coarseSize: int, idx: seq<int>, nGhost: nat, toIndices: seq<int>): (s: GhostState)
    requires ValidRows(toIndices, |idx|)
    ensures |s.idx| == |idx|
  {
    GhostPass(coarseSize, GhostState(idx, map[], [], nGhost), toIndices, |toIndices|)
  }

  /** The first j neighbours of a row, in the order of the site's mappers. */
  function SyncRow(coarseSize: int, idx: seq<int>, mappers: seq<Mapper>, j: nat): (r: RowSync)
    requires j <= |mappers| && MappersInRange(mappers, |idx|)
    ensures |r.idx| == |idx| && |r.maps| == j
    decreases j
  {
    if j == 0 then RowSync(idx, 0, [])
    else
      var prev := SyncRow(coarseSize, idx, mappers, j - 1);
      var s := MapperPass(coarseSize, prev.idx, prev.nGhost, mappers[j - 1].toIndices);
      RowSync(s.idx, s.nGhost, prev.maps + [PairsOf(s)])
  }

  /** The number of pairs in a list of coarse mappers. */
  function TotalPairs(maps: seq<OneToOneIndexMap>): nat
  {
    if maps == [] then 0 else TotalPairs(maps[..|maps| - 1]) + |maps[|maps| - 1].fromIndices|
  }

  /** coarseGhostSize is the number of pairs over all neighbours' coarse mappers. */
  lemma {:induction false} SyncRowCount(coarseSize: int, idx: seq<int>, mappers: seq<Mapper>, j: nat)
    requires j <= |mappers| && MappersInRange(mappers, |idx|)
    ensures SyncRow(coarseSize, idx, mappers, j).nGhost == TotalPairs(SyncRow(coarseSize, idx, mappers, j).maps)
    decreases j
  {
    if j > 0 {
      var prev := SyncRow(coarseSize, idx, mappers, j - 1);
      var r := SyncRow(coarseSize, idx, mappers, j);
      SyncRowCount(coarseSize, idx, mappers, j - 1);
      GhostPassInv(coarseSize, prev.nGhost, GhostState(prev.idx, map[], [], prev.nGhost),
                   mappers[j - 1].toIndices, |mappers[j - 1].toIndices|);
      assert r.maps[..j - 1] == prev.maps;
    }
  }

  /**
   * The ids in the coarse mapper of neighbour jn form the jn-th consecutive
   * block after coarseSize: no id is shared between neighbours.
   */
  lemma {:induction false} SyncRowBlocks(coarseSize: int, idx: seq<int>, mappers: seq<Mapper>, j: nat, jn: int, i: int)
    requires j <= |mappers| && MappersInRange(mappers, |idx|)
    requires 0 <= jn < j && 0 <= i < |SyncRow(coarseSize, idx, mappers, j).maps[jn].toIndices|
    ensures coarseSize + TotalPairs(SyncRow(coarseSize, idx, mappers, j).maps[..jn]) <=
            SyncRow(coarseSize, idx, mappers, j).maps[jn].toIndices[i] <
            coarseSize + TotalPairs(SyncRow(coarseSize, idx, mappers, j).maps[..jn + 1])
    decreases j
  {
    var prev := SyncRow(coarseSize, idx, mappers, j - 1);
    var r := SyncRow(coarseSize, idx, mappers, j);
    if jn < j - 1 {
      SyncRowBlocks(coarseSize, idx, mappers, j - 1, jn, i);
      assert r.maps[..jn] == prev.maps[..jn] && r.maps[..jn + 1] == prev.maps[..jn + 1];
    } else {
      var s := MapperPass(coarseSize, prev.idx, prev.nGhost, mappers[j - 1].toIndices);
      SyncRowCount(coarseSize, idx, mappers, j - 1);
      SyncRowCount(coarseSize, idx, mappers, j);
      GhostPassInv(coarseSize, prev.nGhost, GhostState(prev.idx, map[], [], prev.nGhost),
                   mappers[j - 1].toIndices, |mappers[j - 1].toIndices|);
      PairsOfBijection(coarseSize, prev.nGhost, s);
      assert r.maps[..jn] == prev.maps && r.maps[..jn + 1] == r.maps;
    }
  }

  /** Row i is a ghost row of one of the first j neighbours. */
  ghost predicate Listed(mappers: seq<Mapper>, j: int, i: int)
    requires 0 <= j <= |mappers|
  {
    exists jn :: 0 <= jn < j && i in mappers[jn].toIndices
  }

  /** Rows that are no neighbour's ghost rows keep their coarse index. */
  lemma {:induction false} SyncRowFrame(coarseSize: int, idx: seq<int>, mappers: seq<Mapper>, j: nat, i: int)
    requires j <= |mappers| && MappersInRange(mappers, |idx|)
    requires 0 <= i < |idx| && !Listed(mappers, j, i)
    ensures SyncRow(coarseSize, idx, mappers, j).idx[i] == idx[i]
    decreases j
  {
    if j > 0 {
      var prev := SyncRow(coarseSize, idx, mappers, j - 1);
      var toIndices := mappers[j - 1].toIndices;
      assert !Listed(mappers, j - 1, i);
      SyncRowFrame(coarseSize, idx, mappers, j - 1, i);
      assert toIndices[..|toIndices|] == toIndices;
      GhostPassFrame(coarseSize, GhostState(prev.idx, map[], [], prev.nGhost), toIndices, |toIndices|, i);
    }
  }

  /** A neighbour's full pass from an empty map gives its rows fresh ids and leaves the other rows alone. */
  lemma PassFromEmpty(coarseSize: int, idx: seq<int>, nGhost: nat, toIndices: seq<int>, t: int)
    requires ValidRows(toIndices, |idx|) && 0 <= t < |idx|
    ensures MapperPass(coarseSize, idx, nGhost, toIndices).nGhost >= nGhost
    ensures t in toIndices ==>
              coarseSize + nGhost <= MapperPass(coarseSize, idx, nGhost, toIndices).idx[t] <
              coarseSize + MapperPass(coarseSize, idx, nGhost, toIndices).nGhost
    ensures t !in toIndices ==> MapperPass(coarseSize, idx, nGhost, toIndices).idx[t] == idx[t]
  {
    var s0 := GhostState(idx, map[], [], nGhost);
    GhostPassVisited(coarseSize, coarseSize + nGhost, s0, toIndices, |toIndices|);
    if t in toIndices {
      var ng :| 0 <= ng < |toIndices| && toIndices[ng] == t;
    } else {
      assert toIndices[..|toIndices|] == toIndices;
      GhostPassFrame(coarseSize, s0, toIndices, |toIndices|, t);
    }
  }

  /** Every ghost row of every neighbour ends with an id in [coarseSize, coarseSize + coarseGhostSize). */
  lemma {:induction false} SyncRowVisited(coarseSize: int, idx: seq<int>, mappers: seq<Mapper>, j: nat, jn: int, ng: int)
    requires j <= |mappers| && MappersInRange(mappers, |idx|)
    requires 0 <= jn < j && 0 <= ng < |mappers[jn].toIndices|
    ensures coarseSize <= SyncRow(coarseSize, idx, mappers, j).idx[mappers[jn].toIndices[ng]] <
            coarseSize + SyncRow(coarseSize, idx, mappers, j).nGhost
    decreases j
  {
    var prev := SyncRow(coarseSize, idx, mappers, j - 1);
    var t := mappers[jn].toIndices[ng];
    PassFromEmpty(coarseSize, prev.idx, prev.nGhost, mappers[j - 1].toIndices, t);
    if jn < j - 1 {
      SyncRowVisited(coarseSize, idx, mappers, j - 1, jn, ng);
    }
  }

  /** With no neighbours, coarseGhostSize is 0 and the coarse index is unchanged. */
  lemma NoMappersNoGhosts(coarseSize: int, idx: seq<int>)
    ensures SyncRow(coarseSize, idx, [], 0) == RowSync(idx, 0, [])
  {
  }

  // ---------------------------------------------------------------- the loops

  /** The elements of a sequence, as a set. */
  function Elements(s: seq<int>): set<int>
  {
    set v | v in s
  }

  /** A strictly ascending sequence has as many elements as entries. */
  lemma {:induction false} ElementsOfIncreasing(s: seq<int>)
    requires Increasing(s)
    ensures |Elements(s)| == |s|
  {
    if s != [] {
      var pre := s[..|s| - 1];
      ElementsOfIncreasing(pre);
      assert Elements(s) == Elements(pre) + {s[|s| - 1]};
      assert s[|s| - 1] !in Elements(pre);
    }
  }

  /** One ghost row of syncGhostCoarsening: the body of its first loop. */
  method GhostRow(coarseIndex: array<int>, coarseSize: int, otherToMyMapping: map<int, int>, keys: seq<int>,
                  nGhost: nat, fineIndex: int, ghost cur: seq<int>)
    returns (mapping': map<int, int>, keys': seq<int>, nGhost': nat)
    requires coarseIndex[..] == cur && 0 <= fineIndex < coarseIndex.Length
    modifies coarseIndex
    ensures GhostStep(coarseSize, GhostState(cur, otherToMyMapping, keys, nGhost), fineIndex) ==
              GhostState(coarseIndex[..], mapping', keys', nGhost')
  {
    var coarseOtherIndex := coarseIndex[fineIndex];
    if coarseOtherIndex in otherToMyMapping {
      coarseIndex[fineIndex] := otherToMyMapping[coarseOtherIndex];
      mapping', keys', nGhost' := otherToMyMapping, keys, nGhost;
    } else {
      coarseIndex[fineIndex] := nGhost + coarseSize;
      mapping' := otherToMyMapping[coarseOtherIndex := coarseIndex[fineIndex]];
      keys' := InsertSorted(keys, coarseOtherIndex);
      nGhost' := nGhost + 1;
    }
  }

  /**
   * The ghost-row loop of syncGhostCoarsening for one neighbour, from a
   * fresh otherToMyMapping (kept with its keys in ascending order).
   */
  method SyncGhostRows(coarseIndex: array<int>, coarseSize: int, toIndices: seq<int>, coarseGhostSize: nat,
                       ghost cur: seq<int>)
    returns (otherToMyMapping: map<int, int>, keys: seq<int>, nGhost: nat)
    requires coarseIndex[..] == cur && ValidRows(toIndices, coarseIndex.Length)
    modifies coarseIndex
    ensures MapperPass(coarseSize, cur, coarseGhostSize, toIndices) ==
              GhostState(coarseIndex[..], otherToMyMapping, keys, nGhost)
  {
    ghost var s0 := GhostState(cur, map[], [], coarseGhostSize);
    otherToMyMapping := map[];
    keys := [];
    nGhost := coarseGhostSize;
    var ng := 0;
    while ng < |toIndices|
      invariant 0 <= ng <= |toIndices|
      invariant GhostPass(coarseSize, s0, toIndices, ng) == GhostState(coarseIndex[..], otherToMyMapping, keys, nGhost)
    {
      otherToMyMapping, keys, nGhost :=
        GhostRow(coarseIndex, coarseSize, otherToMyMapping, keys, nGhost, toIndices[ng], coarseIndex[..]);
      ng := ng + 1;
    }
  }

  /** The pairs loop: the coarse mapper of one neighbour, from its map in ascending key order. */
  method MapperPairs(coarseSize: int, g0: nat, s: GhostState) returns (coarseMap: OneToOneIndexMap)
    requires GhostInv(coarseSize, g0, s)
    ensures coarseMap == PairsOf(s)
  {
    assert s.mapping.Keys == Elements(s.keys) by {
      forall v ensures v in s.mapping.Keys <==> v in Elements(s.keys) {
        assert v in s.keys <==> v in s.mapping;
      }
    }
    ElementsOfIncreasing(s.keys);
    var coarseMappersSize := |s.mapping|;
    var coarseToIndices := new int[coarseMappersSize];
    var coarseFromIndices := new int[coarseMappersSize];
    var ncm := 0;
    while ncm < coarseMappersSize
      invariant 0 <= ncm <= coarseMappersSize
      invariant forall i :: 0 <= i < ncm ==> coarseFromIndices[i] == s.keys[i] && coarseToIndices[i] == s.mapping[s.keys[i]]
    {
      coarseToIndices[ncm] := s.mapping[s.keys[ncm]];
      coarseFromIndices[ncm] := s.keys[ncm];
      ncm := ncm + 1;
    }
    coarseMap := OneToOneIndexMap(coarseFromIndices[..], coarseToIndices[..]);
  }

  /** syncGhostCoarsening for one neighbour. */
  method SyncMapper(coarseIndex: array<int>, coarseSize: int, toIndices: seq<int>, coarseGhostSize: nat,
                    ghost cur: seq<int>)
    returns (nGhost: nat, coarseMap: OneToOneIndexMap)
    requires coarseIndex[..] == cur && ValidRows(toIndices, coarseIndex.Length)
    modifies coarseIndex
    ensures coarseIndex[..] == MapperPass(coarseSize, cur, coarseGhostSize, toIndices).idx
    ensures nGhost == MapperPass(coarseSize, cur, coarseGhostSize, toIndices).nGhost
    ensures coarseMap == PairsOf(MapperPass(coarseSize, cur, coarseGhostSize, toIndices))
  {
    var otherToMyMapping, keys;
    otherToMyMapping, keys, nGhost := SyncGhostRows(coarseIndex, coarseSize, toIndices, coarseGhostSize, cur);
    GhostPassInv(coarseSize, coarseGhostSize, GhostState(cur, map[], [], coarseGhostSize), toIndices, |toIndices|);
    coarseMap := MapperPairs(coarseSize, coarseGhostSize, GhostState(coarseIndex[..], otherToMyMapping, keys, nGhost));
  }

  /** syncGhostCoarsening for one row: its neighbours in turn, sharing one counter. */
  method SyncGhostRow(coarseIndex: array<int>, coarseSize: int, mappers: seq<Mapper>)
    returns (coarseGhostSize: nat, coarseMaps: seq<OneToOneIndexMap>)
    requires MappersInRange(mappers, coarseIndex.Length)
    modifies coarseIndex
    ensures SyncRow(coarseSize, old(coarseIndex[..]), mappers, |mappers|) ==
              RowSync(coarseIndex[..], coarseGhostSize, coarseMaps)
  {
    ghost var idx0 := coarseIndex[..];
    coarseGhostSize := 0;
    coarseMaps := [];
    var j := 0;
    while j < |mappers|
      invariant 0 <= j <= |mappers|
      invariant SyncRow(coarseSize, idx0, mappers, j) == RowSync(coarseIndex[..], coarseGhostSize, coarseMaps)
    {
      var coarseMap;
      coarseGhostSize, coarseMap := SyncMapper(coarseIndex, coarseSize, mappers[j].toIndices, coarseGhostSize, coarseIndex[..]);
      coarseMaps := coarseMaps + [coarseMap];
      j := j + 1;
    }
  }
}
