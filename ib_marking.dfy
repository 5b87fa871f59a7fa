/**
 * The classification passes of the immersed-boundary manager that write the
 * ibType array in place: the boundary-face-group tagging at the end of
 * markIntersections, the flood fill markFluid with the driver that repeats it,
 * and markSolid.
 */
module IBMarking {
  import opened IBCells

  // ---------------------------------------------------------------------------
  // markIntersections: boundary face groups
  // ---------------------------------------------------------------------------

  /** The types markIntersections starts the face-group pass from: every cell
      UNKNOWN except those the geometric (AABB) test marked BOUNDARY. */
  function InitialTypes(n: nat, intersected: set<int>): (r: seq<IBType>)
    ensures |r| == n
    ensures forall c :: 0 <= c < n ==> (r[c] == Boundary <==> c in intersected)
    ensures forall c :: 0 <= c < n ==> r[c] in {Boundary, Unknown}
  {
    seq(n, c => if c in intersected then Boundary else Unknown)
  }

  /** One boundary face (c0, c1): two UNKNOWN cells both become FLUID,
      otherwise c1 becomes BOUNDARY and c0 keeps its type. */
  function TagFace(t: seq<IBType>, c0: int, c1: int): (r: seq<IBType>)
    requires 0 <= c0 < |t| && 0 <= c1 < |t|
    ensures |r| == |t|
    ensures t[c0] == Unknown && t[c1] == Unknown ==> r[c0] == Fluid && r[c1] == Fluid
    ensures !(t[c0] == Unknown && t[c1] == Unknown) ==> r[c1] == Boundary && (c0 != c1 ==> r[c0] == t[c0])
    ensures forall c :: 0 <= c < |t| && c != c0 && c != c1 ==> r[c] == t[c]
  {
    if t[c0] == Unknown && t[c1] == Unknown then t[c1 := Fluid][c0 := Fluid] else t[c1 := Boundary]
  }

  /** The face-group pass over faces in order. */
  function TagFaces(t: seq<IBType>, faces: seq<(int, int)>): (r: seq<IBType>)
    requires ValidFaceCells(faces, |t|)
    ensures |r| == |t|
  {
    if faces == [] then t
    else
      var last := faces[|faces| - 1];
      TagFace(TagFaces(t, faces[..|faces| - 1]), last.0, last.1)
  }

  /** A known type is never made UNKNOWN again, and the pass only writes FLUID or BOUNDARY. */
  lemma {:induction false} TagFacesOnlyFluidOrBoundary(t: seq<IBType>, faces: seq<(int, int)>, c: int)
    requires ValidFaceCells(faces, |t|) && 0 <= c < |t|
    ensures t[c] != Unknown ==> TagFaces(t, faces)[c] != Unknown
    ensures TagFaces(t, faces)[c] in {t[c], Fluid, Boundary}
  {
    if faces != [] {
      TagFacesOnlyFluidOrBoundary(t, faces[..|faces| - 1], c);
    }
  }

  /** A cell that is on no face of the groups keeps its type. */
  lemma {:induction false} TagFacesFrame(t: seq<IBType>, faces: seq<(int, int)>, c: int)
    requires ValidFaceCells(faces, |t|) && 0 <= c < |t|
    requires forall f :: 0 <= f < |faces| ==> faces[f].0 != c && faces[f].1 != c
    ensures TagFaces(t, faces)[c] == t[c]
  {
    if faces != [] {
      TagFacesFrame(t, faces[..|faces| - 1], c);
    }
  }

  /** After the pass, no cell of any boundary face is left UNKNOWN as the face's second cell. */
  lemma {:induction false} TagFacesSecondCellKnown(t: seq<IBType>, faces: seq<(int, int)>, f: int)
    requires ValidFaceCells(faces, |t|) && 0 <= f < |faces|
    ensures TagFaces(t, faces)[faces[f].1] in {Fluid, Boundary}
  {
    var pre := faces[..|faces| - 1];
    if f < |faces| - 1 {
      TagFacesSecondCellKnown(t, pre, f);
      var last := faces[|faces| - 1];
      var mid := TagFaces(t, pre);
      assert mid[pre[f].1] in {Fluid, Boundary};
    }
  }

  /** markIntersections with the geometric hits given: reset to UNKNOWN, mark the
      intersected cells BOUNDARY, then tag every face of the boundary face groups. */
  method MarkIntersections(cellIBType: array<IBType>, intersected: set<int>, boundaryFaces: seq<(int, int)>)
    requires ValidFaceCells(boundaryFaces, cellIBType.Length)
    modifies cellIBType
    ensures cellIBType[..] == TagFaces(InitialTypes(cellIBType.Length, intersected), boundaryFaces)
  {
    var n := cellIBType.Length;
    forall c | 0 <= c < n {
      cellIBType[c] := if c in intersected then Boundary else Unknown;
    }
    ghost var t0 := cellIBType[..];
    assert t0 == InitialTypes(n, intersected);
    var f := 0;
    while f < |boundaryFaces|
      invariant 0 <= f <= |boundaryFaces|
      invariant cellIBType[..] == TagFaces(t0, boundaryFaces[..f])
    {
      var c0 := boundaryFaces[f].0;
      var c1 := boundaryFaces[f].1;
      assert boundaryFaces[..f + 1][..f] == boundaryFaces[..f];
      if cellIBType[c0] == Unknown && cellIBType[c1] == Unknown {
        cellIBType[c1] := Fluid;
        cellIBType[c0] := Fluid;
      } else {
        cellIBType[c1] := Boundary;
      }
      f := f + 1;
    }
    assert boundaryFaces[..f] == boundaryFaces;
  }

  // ---------------------------------------------------------------------------
  // markFluid
  // ---------------------------------------------------------------------------

  /** No FLUID cell has an UNKNOWN neighbour: the fill has reached its fixpoint. */
  predicate FluidClosed(t: seq<IBType>, cellCells: seq<seq<int>>)
  {
    forall c, k ::
      0 <= c < |t| && c < |cellCells| && t[c] == Fluid && 0 <= k < |cellCells[c]| && 0 <= cellCells[c][k] < |t|
      ==> t[cellCells[c][k]] != Unknown
  }

  /** p is a walk along cellCells that starts at a FLUID cell of t, continues only
      through cells that are UNKNOWN in t, and ends at x. */
  predicate FillPath(t: seq<IBType>, cellCells: seq<seq<int>>, p: seq<int>, x: int)
  {
    |p| >= 1 && p[|p| - 1] == x &&
    (forall i :: 0 <= i < |p| ==> 0 <= p[i] < |t| && p[i] < |cellCells|) &&
    t[p[0]] == Fluid &&
    (forall i :: 1 <= i < |p| ==> t[p[i]] == Unknown && p[i] in cellCells[p[i - 1]])
  }

  /** t grew from t0 only by turning UNKNOWN cells into FLUID. */
  predicate FilledFrom(t0: seq<IBType>, t: seq<IBType>)
  {
    |t| == |t0| &&
    forall c :: 0 <= c < |t| && t[c] != t0[c] ==> t0[c] == Unknown && t[c] == Fluid
  }

  /** Discovery record of the fill: the filled cells are exactly the cells with a
      parent; each was found from a FLUID neighbour that was FLUID from the start
      or was filled earlier (smaller rank). */
  ghost predicate ParentLinks(t0: seq<IBType>, t: seq<IBType>, cellCells: seq<seq<int>>,
                              parent: map<int, int>, rank: map<int, nat>)
  {
    (forall x :: 0 <= x < |t| && x < |t0| && t[x] != t0[x] ==> x in parent) &&
    (forall x {:trigger parent[x]} :: x in parent ==>
       0 <= x < |t0| && x < |t| && t[x] != t0[x] && t0[x] == Unknown && x in rank &&
       0 <= parent[x] < |t0| && parent[x] < |cellCells| && x in cellCells[parent[x]] &&
       (t0[parent[x]] == Fluid || (parent[x] in parent && parent[x] in rank && rank[parent[x]] < rank[x])))
  }

  /** Following the discovery record back from a filled cell gives a fill path. */
  lemma {:induction false} PathFromParents(t0: seq<IBType>, t: seq<IBType>, cellCells: seq<seq<int>>,
                                           parent: map<int, int>, rank: map<int, nat>, x: int)
    returns (p: seq<int>)
    requires ParentLinks(t0, t, cellCells, parent, rank) && |cellCells| == |t0|
    requires x in parent
    ensures FillPath(t0, cellCells, p, x)
    decreases rank[x]
  {
    var q := parent[x];
    if t0[q] == Fluid {
      p := [q, x];
    } else {
      var pq := PathFromParents(t0, t, cellCells, parent, rank, q);
      p := pq + [x];
    }
  }

  /** Once the fill is closed, every cell a fill path of the start state reaches is FLUID. */
  lemma {:induction false} ClosedCoversPaths(t0: seq<IBType>, t: seq<IBType>, cellCells: seq<seq<int>>,
                                             p: seq<int>, x: int)
    requires FilledFrom(t0, t) && FluidClosed(t, cellCells)
    requires FillPath(t0, cellCells, p, x)
    ensures t[x] == Fluid
    decreases |p|
  {
    if |p| > 1 {
      var p' := p[..|p| - 1];
      var y := p'[|p'| - 1];
      assert FillPath(t0, cellCells, p', y);
      ClosedCoversPaths(t0, t, cellCells, p', y);
      var k :| 0 <= k < |cellCells[y]| && cellCells[y][k] == x;
      assert t[x] != Unknown;
    }
  }

  /** In a closed state a fill path cannot leave its starting FLUID cell. */
  lemma ClosedPathIsTrivial(t: seq<IBType>, cellCells: seq<seq<int>>, p: seq<int>, x: int)
    requires FluidClosed(t, cellCells) && FillPath(t, cellCells, p, x)
    ensures t[x] == Fluid
  {
    ClosedCoversPaths(t, t, cellCells, p, x);
  }

  /** What the fill keeps true between steps: only UNKNOWN cells became FLUID,
      nFound counts them, each has a discovery record, and every cell in `done`
      has no UNKNOWN neighbour left. */
  ghost predicate FillState(t0: seq<IBType>, t: seq<IBType>, cellCells: seq<seq<int>>, nFound: int,
                            parent: map<int, int>, rank: map<int, nat>, done: set<int>)
  {
    FilledFrom(t0, t) &&
    nFound == Occurrences(t0, Unknown) - Occurrences(t, Unknown) &&
    ParentLinks(t0, t, cellCells, parent, rank) &&
    (forall x :: x in rank ==> rank[x] <= nFound) &&
    (forall d :: d in done ==> Checked(t, cellCells, d))
  }

  /** Cell d has no UNKNOWN neighbour. */
  predicate Checked(t: seq<IBType>, cellCells: seq<seq<int>>, d: int)
  {
    0 <= d < |t| && d < |cellCells| &&
    forall k :: 0 <= k < |cellCells[d]| ==> 0 <= cellCells[d][k] < |t| && t[cellCells[d][k]] != Unknown
  }

  /** Filling one UNKNOWN neighbour nb of the FLUID cell cNb keeps the fill state. */
  lemma FillStep(t0: seq<IBType>, t: seq<IBType>, cellCells: seq<seq<int>>, nFound: nat,
                 parent: map<int, int>, rank: map<int, nat>, done: set<int>, cNb: int, nb: int)
    requires FillState(t0, t, cellCells, nFound, parent, rank, done)
    requires 0 <= cNb < |t| && cNb < |cellCells| && t[cNb] == Fluid
    requires 0 <= nb < |t| && t[nb] == Unknown && nb in cellCells[cNb]
    ensures FillState(t0, t[nb := Fluid], cellCells, nFound + 1, parent[nb := cNb], rank[nb := nFound + 1], done)
  {
    var t' := t[nb := Fluid];
    OccurrencesUpdate(t, nb, Fluid, Unknown);
    forall d | d in done ensures Checked(t', cellCells, d) {
      assert Checked(t, cellCells, d);
    }
  }

  /** Progress of the scan of one neighbour list: starting from ts, the first nn
      neighbours are no longer UNKNOWN, and `found` holds exactly the cells filled. */
  predicate ScanState(ts: seq<IBType>, t: seq<IBType>, neighbors: seq<int>, nn: int, found: seq<int>)
  {
    FilledFrom(ts, t) && 0 <= nn <= |neighbors| &&
    (forall k :: 0 <= k < nn ==> 0 <= neighbors[k] < |t| && t[neighbors[k]] != Unknown) &&
    (forall i :: 0 <= i < |found| ==> 0 <= found[i] < |t| && t[found[i]] == Fluid) &&
    (forall x :: 0 <= x < |t| && t[x] != ts[x] ==> x in found) &&
    Occurrences(ts, Unknown) == Occurrences(t, Unknown) + |found|
  }

  /** Filling the next neighbour advances the scan. */
  lemma ScanFill(ts: seq<IBType>, t: seq<IBType>, neighbors: seq<int>, nn: int, found: seq<int>)
    requires ScanState(ts, t, neighbors, nn, found) && nn < |neighbors|
    requires 0 <= neighbors[nn] < |t| && t[neighbors[nn]] == Unknown
    ensures ScanState(ts, t[neighbors[nn] := Fluid], neighbors, nn + 1, found + [neighbors[nn]])
  {
    OccurrencesUpdate(t, neighbors[nn], Fluid, Unknown);
  }

  /** A neighbour that is already known is passed over. */
  lemma ScanSkip(ts: seq<IBType>, t: seq<IBType>, neighbors: seq<int>, nn: int, found: seq<int>)
    requires ScanState(ts, t, neighbors, nn, found) && nn < |neighbors|
    requires 0 <= neighbors[nn] < |t| && t[neighbors[nn]] != Unknown
    ensures ScanState(ts, t, neighbors, nn + 1, found)
  {
  }

  /** One step of the neighbour scan of markFluid: an UNKNOWN neighbour becomes
      FLUID, is counted and is recorded for pushing. */
  method VisitNeighbor(cellIBType: array<IBType>, cellCells: seq<seq<int>>, cNb: int, neighbors: seq<int>,
                       nn: int, found: seq<int>, nFound: nat,
                       ghost t0: seq<IBType>, ghost ts: seq<IBType>, ghost cur: seq<IBType>,
                       ghost parent: map<int, int>, ghost rank: map<int, nat>, ghost done: set<int>)
    returns (found': seq<int>, nFound': nat, ghost next: seq<IBType>,
             ghost parent': map<int, int>, ghost rank': map<int, nat>)
    requires cellIBType[..] == cur
    requires 0 <= cNb < |cur| && cNb < |cellCells| && neighbors == cellCells[cNb]
    requires cur[cNb] == Fluid && 0 <= nn < |neighbors| && 0 <= neighbors[nn] < |cur|
    requires FillState(t0, cur, cellCells, nFound, parent, rank, done)
    requires ScanState(ts, cur, neighbors, nn, found)
    modifies cellIBType
    ensures cellIBType[..] == next && next[cNb] == Fluid
    ensures FillState(t0, next, cellCells, nFound', parent', rank', done)
    ensures ScanState(ts, next, neighbors, nn + 1, found')
  {
    var neighbor := neighbors[nn];
    if cellIBType[neighbor] == Unknown {
      FillStep(t0, cur, cellCells, nFound, parent, rank, done, cNb, neighbor);
      ScanFill(ts, cur, neighbors, nn, found);
      cellIBType[neighbor] := Fluid;
      next := cur[neighbor := Fluid];
      assert cellIBType[..] == next;
      nFound' := nFound + 1;
      parent' := parent[neighbor := cNb];
      rank' := rank[neighbor := nFound'];
      found' := found + [neighbor];
    } else {
      ScanSkip(ts, cur, neighbors, nn, found);
      found', nFound', next, parent', rank' := found, nFound, cur, parent, rank;
    }
  }

  /** The body of the stack loop of markFluid for one popped cell cNb: every UNKNOWN
      neighbour becomes FLUID and is counted; `found` lists them in the order they
      are pushed onto the stack. */
  method CheckNeighbors(cellIBType: array<IBType>, cellCells: seq<seq<int>>, cNb: int, nFound: nat,
                        ghost t0: seq<IBType>, ghost cur: seq<IBType>, ghost parent: map<int, int>,
                        ghost rank: map<int, nat>, ghost done: set<int>)
    returns (found: seq<int>, nFound': nat, ghost next: seq<IBType>,
             ghost parent': map<int, int>, ghost rank': map<int, nat>)
    requires cellIBType[..] == cur && ValidCellCells(cellCells, |cur|)
    requires 0 <= cNb < |cur| && cur[cNb] == Fluid
    requires FillState(t0, cur, cellCells, nFound, parent, rank, done)
    modifies cellIBType
    ensures cellIBType[..] == next
    ensures FillState(t0, next, cellCells, nFound', parent', rank', done + {cNb})
    ensures ScanState(cur, next, cellCells[cNb], |cellCells[cNb]|, found)
  {
    found, nFound', next, parent', rank' := [], nFound, cur, parent, rank;
    var neighbors := cellCells[cNb];
    var nn := 0;
    while nn < |neighbors|
      invariant 0 <= nn <= |neighbors| && cellIBType[..] == next && next[cNb] == Fluid
      invariant FillState(t0, next, cellCells, nFound', parent', rank', done)
      invariant ScanState(cur, next, neighbors, nn, found)
    {
      found, nFound', next, parent', rank' :=
        VisitNeighbor(cellIBType, cellCells, cNb, neighbors, nn, found, nFound', t0, cur, next, parent', rank', done);
      nn := nn + 1;
    }
    CheckedAfterScan(t0, cur, next, cellCells, nFound', parent', rank', done, cNb, found);
  }

  /** A cell whose neighbours have all been scanned joins `done`. */
  lemma CheckedAfterScan(t0: seq<IBType>, ts: seq<IBType>, t: seq<IBType>, cellCells: seq<seq<int>>, nFound: int,
                         parent: map<int, int>, rank: map<int, nat>, done: set<int>, cNb: int, found: seq<int>)
    requires 0 <= cNb < |t| && cNb < |cellCells|
    requires FillState(t0, t, cellCells, nFound, parent, rank, done)
    requires ScanState(ts, t, cellCells[cNb], |cellCells[cNb]|, found)
    ensures FillState(t0, t, cellCells, nFound, parent, rank, done + {cNb})
  {
    assert Checked(t, cellCells, cNb);
  }

  /** Every FLUID cell is done, waiting on the stack, or an original FLUID cell the outer loop has not reached. */
  ghost predicate Covered(t0: seq<IBType>, t: seq<IBType>, done: set<int>, cellsToCheck: seq<int>, c: int)
  {
    |t0| == |t| &&
    (forall i :: 0 <= i < |cellsToCheck| ==> 0 <= cellsToCheck[i] < |t| && t[cellsToCheck[i]] == Fluid) &&
    (forall x :: 0 <= x < |t| && t[x] == Fluid ==> x in done || x in cellsToCheck || (c <= x && t0[x] == Fluid))
  }

  /** Checking the popped cell cNb moves it to `done` and pushes the cells it filled. */
  lemma CoveredAfterCheck(t0: seq<IBType>, t: seq<IBType>, t': seq<IBType>, done: set<int>,
                          rest: seq<int>, cNb: int, neighbors: seq<int>, found: seq<int>, c: int)
    requires Covered(t0, t, done, rest + [cNb], c)
    requires ScanState(t, t', neighbors, |neighbors|, found)
    ensures Covered(t0, t', done + {cNb}, rest + found, c)
  {
    forall i | 0 <= i < |rest + found|
      ensures 0 <= (rest + found)[i] < |t'| && t'[(rest + found)[i]] == Fluid
    {
      if i < |rest| {
        assert (rest + [cNb])[i] == rest[i];
      } else {
        assert (rest + found)[i] == found[i - |rest|];
      }
    }
    forall x | 0 <= x < |t'| && t'[x] == Fluid
      ensures x in done + {cNb} || x in rest + found || (c <= x && t0[x] == Fluid)
    {
      if t[x] == t'[x] {
        assert x in done || x in rest + [cNb] || (c <= x && t0[x] == Fluid);
      } else {
        assert x in found;
      }
    }
  }

  /** The outer loop may move past cell c once c, if FLUID, is done. */
  lemma CoveredAdvance(t0: seq<IBType>, t: seq<IBType>, done: set<int>, c: int)
    requires Covered(t0, t, done, [], c) && 0 <= c < |t|
    requires FilledFrom(t0, t) && (t[c] == Fluid ==> c in done)
    ensures Covered(t0, t, done, [], c + 1)
  {
  }

  /** The completed fill is exactly the set of UNKNOWN cells a fill path reaches. */
  lemma FillCharacterization(t0: seq<IBType>, t: seq<IBType>, cellCells: seq<seq<int>>,
                             parent: map<int, int>, rank: map<int, nat>)
    requires FilledFrom(t0, t) && ParentLinks(t0, t, cellCells, parent, rank) && |cellCells| == |t|
    requires FluidClosed(t, cellCells)
    ensures forall c :: 0 <= c < |t| ==>
              (t[c] != t0[c] <==> t0[c] == Unknown && exists p :: FillPath(t0, cellCells, p, c))
  {
    forall x | 0 <= x < |t| && t[x] != t0[x]
      ensures exists p :: FillPath(t0, cellCells, p, x)
    {
      var p := PathFromParents(t0, t, cellCells, parent, rank, x);
    }
    forall x, p | 0 <= x < |t| && t0[x] == Unknown && FillPath(t0, cellCells, p, x)
      ensures t[x] != t0[x]
    {
      ClosedCoversPaths(t0, t, cellCells, p, x);
    }
  }

  /** When the fill is done and the outer loop has passed every cell, the FLUID cells are closed. */
  lemma CoveredDoneIsClosed(t0: seq<IBType>, t: seq<IBType>, cellCells: seq<seq<int>>, nFound: int,
                            parent: map<int, int>, rank: map<int, nat>, done: set<int>)
    requires FillState(t0, t, cellCells, nFound, parent, rank, done) && Covered(t0, t, done, [], |t|)
    ensures FluidClosed(t, cellCells)
  {
    forall c, k | 0 <= c < |t| && c < |cellCells| && t[c] == Fluid && 0 <= k < |cellCells[c]|
                  && 0 <= cellCells[c][k] < |t|
      ensures t[cellCells[c][k]] != Unknown
    {
      assert Checked(t, cellCells, c);
    }
  }

  /** The stack-driven fill started from the FLUID cell c in the outer loop of markFluid. */
  method FillFrom(cellIBType: array<IBType>, cellCells: seq<seq<int>>, c: int, nFound: nat,
                  ghost t0: seq<IBType>, ghost cur: seq<IBType>, ghost parent: map<int, int>,
                  ghost rank: map<int, nat>, ghost done: set<int>)
    returns (nFound': nat, ghost next: seq<IBType>, ghost parent': map<int, int>, ghost rank': map<int, nat>,
             ghost done': set<int>)
    requires cellIBType[..] == cur && ValidCellCells(cellCells, |cur|)
    requires 0 <= c < |cur| && cur[c] == Fluid
    requires FillState(t0, cur, cellCells, nFound, parent, rank, done)
    requires Covered(t0, cur, done, [], c)
    modifies cellIBType
    ensures cellIBType[..] == next
    ensures FillState(t0, next, cellCells, nFound', parent', rank', done')
    ensures Covered(t0, next, done', [], c) && c in done'
  {
    nFound', next, parent', rank', done' := nFound, cur, parent, rank, done;
    var cellsToCheck := [c];
    while cellsToCheck != []
      invariant cellIBType[..] == next && |next| == |cur|
      invariant FillState(t0, next, cellCells, nFound', parent', rank', done')
      invariant Covered(t0, next, done', cellsToCheck, c)
      invariant c in done' || c in cellsToCheck
      decreases Occurrences(next, Unknown), |cellsToCheck|
    {
      var cNb := cellsToCheck[|cellsToCheck| - 1];
      var rest := cellsToCheck[..|cellsToCheck| - 1];
      assert cellsToCheck == rest + [cNb];
      ghost var before := next;
      var found;
      found, nFound', next, parent', rank' :=
        CheckNeighbors(cellIBType, cellCells, cNb, nFound', t0, before, parent', rank', done');
      CoveredAfterCheck(t0, before, next, done', rest, cNb, cellCells[cNb], found, c);
      done' := done' + {cNb};
      cellsToCheck := rest + found;
    }
  }

  /** The empty fill. */
  lemma StartFill(t0: seq<IBType>, cellCells: seq<seq<int>>)
    ensures FillState(t0, t0, cellCells, 0, map[], map[], {}) && Covered(t0, t0, {}, [], 0)
  {
  }

  /** What markFluid promises, from the state at the end of its outer loop. */
  lemma FinishFill(t0: seq<IBType>, t: seq<IBType>, cellCells: seq<seq<int>>, nFound: int,
                   parent: map<int, int>, rank: map<int, nat>, done: set<int>)
    requires |cellCells| == |t|
    requires FillState(t0, t, cellCells, nFound, parent, rank, done) && Covered(t0, t, done, [], |t|)
    ensures FilledFrom(t0, t)
    ensures nFound == Occurrences(t0, Unknown) - Occurrences(t, Unknown)
    ensures FluidClosed(t, cellCells)
    ensures forall c :: 0 <= c < |t| ==>
              (t[c] != t0[c] <==> t0[c] == Unknown && exists p :: FillPath(t0, cellCells, p, c))
  {
    CoveredDoneIsClosed(t0, t, cellCells, nFound, parent, rank, done);
    FillCharacterization(t0, t, cellCells, parent, rank);
  }

  /** markFluid: from every FLUID cell, in ascending cell order, a stack-driven
      fill turns reachable UNKNOWN cells into FLUID; returns how many it changed. */
  method MarkFluid(cellIBType: array<IBType>, cellCells: seq<seq<int>>) returns (nFound: nat)
    requires ValidCellCells(cellCells, cellIBType.Length)
    modifies cellIBType
    ensures FilledFrom(old(cellIBType[..]), cellIBType[..])
    ensures nFound == Occurrences(old(cellIBType[..]), Unknown) - Occurrences(cellIBType[..], Unknown)
    ensures FluidClosed(cellIBType[..], cellCells)
    ensures forall c :: 0 <= c < cellIBType.Length ==>
              (cellIBType[..][c] != old(cellIBType[..])[c] <==>
               old(cellIBType[..])[c] == Unknown && exists p :: FillPath(old(cellIBType[..]), cellCells, p, c))
  {
    var n := cellIBType.Length;
    ghost var t0 := cellIBType[..];
    ghost var parent: map<int, int> := map[];
    ghost var rank: map<int, nat> := map[];
    ghost var done: set<int> := {};
    StartFill(t0, cellCells);
    ghost var cur := t0;
    nFound := 0;
    var c := 0;
    while c < n
      invariant 0 <= c <= n && cellIBType[..] == cur
      invariant FillState(t0, cur, cellCells, nFound, parent, rank, done)
      invariant Covered(t0, cur, done, [], c)
    {
      if cellIBType[c] == Fluid {
        nFound, cur, parent, rank, done := FillFrom(cellIBType, cellCells, c, nFound, t0, cur, parent, rank, done);
      }
      CoveredAdvance(t0, cur, done, c);
      c := c + 1;
    }
    FinishFill(t0, cur, cellCells, nFound, parent, rank, done);
  }

  /** A pass of markFluid over a closed state changes nothing. */
  lemma ClosedPassIsStable(t0: seq<IBType>, t: seq<IBType>, cellCells: seq<seq<int>>)
    requires FluidClosed(t0, cellCells) && FilledFrom(t0, t)
    requires forall c :: 0 <= c < |t| ==>
               (t[c] != t0[c] <==> t0[c] == Unknown && exists p :: FillPath(t0, cellCells, p, c))
    ensures t == t0
  {
    forall c | 0 <= c < |t|
      ensures t[c] == t0[c]
    {
      if t[c] != t0[c] {
        var p :| FillPath(t0, cellCells, p, c);
        ClosedPathIsTrivial(t0, cellCells, p, c);
      }
    }
  }

  /** The driver loop of update: repeat markFluid until a pass finds no new FLUID
      cell. The second pass never finds one, so there are at most two passes, and
      the result is the fill of the original state. */
  method MarkFluidUntilStable(cellIBType: array<IBType>, cellCells: seq<seq<int>>) returns (nIter: nat)
    requires ValidCellCells(cellCells, cellIBType.Length)
    modifies cellIBType
    ensures 1 <= nIter <= 2
    ensures FilledFrom(old(cellIBType[..]), cellIBType[..])
    ensures FluidClosed(cellIBType[..], cellCells)
    ensures forall c :: 0 <= c < cellIBType.Length ==>
              (cellIBType[..][c] != old(cellIBType[..])[c] <==>
               old(cellIBType[..])[c] == Unknown && exists p :: FillPath(old(cellIBType[..]), cellCells, p, c))
  {
    ghost var t0 := cellIBType[..];
    nIter := 0;
    var nFound := 1;
    while nFound > 0
      invariant nIter <= 2 && (nFound > 0 ==> nIter <= 1) && (nIter == 0 ==> nFound > 0 && cellIBType[..] == t0)
      invariant nIter >= 1 ==> FilledFrom(t0, cellIBType[..]) && FluidClosed(cellIBType[..], cellCells)
      invariant nIter >= 1 ==> forall c :: 0 <= c < |t0| ==>
                  (cellIBType[..][c] != t0[c] <==> t0[c] == Unknown && exists p :: FillPath(t0, cellCells, p, c))
      decreases 2 - nIter
    {
      ghost var before := cellIBType[..];
      nFound := MarkFluid(cellIBType, cellCells);
      if nIter == 1 {
        ClosedPassIsStable(before, cellIBType[..], cellCells);
      }
      nIter := nIter + 1;
    }
  }

  // ---------------------------------------------------------------------------
  // markSolid
  // ---------------------------------------------------------------------------

  /** Every cell still UNKNOWN becomes SOLID. */
  function SolidFill(t: seq<IBType>): (r: seq<IBType>)
  {
    seq(|t|, c requires 0 <= c < |t| => if t[c] == Unknown then Solid else t[c])
  }

  /** markSolid leaves no UNKNOWN cell and changes no other cell. */
  lemma SolidFillSpec(t: seq<IBType>)
    ensures |SolidFill(t)| == |t| && Occurrences(SolidFill(t), Unknown) == 0
    ensures forall c :: 0 <= c < |t| && t[c] != Unknown ==> SolidFill(t)[c] == t[c]
    ensures forall c :: 0 <= c < |t| && t[c] == Unknown ==> SolidFill(t)[c] == Solid
  {
    OccurrencesZero(SolidFill(t), Unknown);
  }

  /** markSolid: turn every UNKNOWN cell into SOLID and count them. */
  method MarkSolid(cellIBType: array<IBType>) returns (nFound: nat)
    modifies cellIBType
    ensures cellIBType[..] == SolidFill(old(cellIBType[..]))
    ensures nFound == Occurrences(old(cellIBType[..]), Unknown)
  {
    ghost var t0 := cellIBType[..];
    nFound := 0;
    var c := 0;
    while c < cellIBType.Length
      invariant 0 <= c <= cellIBType.Length
      invariant cellIBType[..c] == SolidFill(t0[..c]) && cellIBType[c..] == t0[c..]
      invariant nFound == Occurrences(t0[..c], Unknown)
    {
      assert t0[..c + 1][..c] == t0[..c];
      if cellIBType[c] == Unknown {
        cellIBType[c] := Solid;
        nFound := nFound + 1;
      }
      assert cellIBType[..c + 1] == SolidFill(t0[..c + 1]);
      c := c + 1;
    }
    assert t0[..c] == t0 && cellIBType[..c] == cellIBType[..];
  }

  // ---------------------------------------------------------------------------
  // The classification part of update
  // ---------------------------------------------------------------------------

  /** No FLUID cell has a SOLID neighbour. */
  predicate FluidSeparated(t: seq<IBType>, cellCells: seq<seq<int>>)
  {
    forall c, k ::
      0 <= c < |t| && c < |cellCells| && t[c] == Fluid && 0 <= k < |cellCells[c]| && 0 <= cellCells[c][k] < |t|
      ==> t[cellCells[c][k]] != Solid
  }

  /** Filling the UNKNOWN cells of a closed state that has no SOLID cell separates FLUID from SOLID. */
  lemma SolidFillSeparates(t: seq<IBType>, cellCells: seq<seq<int>>)
    requires FluidClosed(t, cellCells) && forall c :: 0 <= c < |t| ==> t[c] != Solid
    ensures FluidSeparated(SolidFill(t), cellCells)
  {
  }

  /** The face-group pass never produces a SOLID cell. */
  lemma TagFacesNoSolid(n: nat, intersected: set<int>, faces: seq<(int, int)>)
    requires ValidFaceCells(faces, n)
    ensures forall c :: 0 <= c < n ==> TagFaces(InitialTypes(n, intersected), faces)[c] != Solid
  {
    forall c | 0 <= c < n
      ensures TagFaces(InitialTypes(n, intersected), faces)[c] != Solid
    {
      TagFacesOnlyFluidOrBoundary(InitialTypes(n, intersected), faces, c);
    }
  }

  /** The cell classification of update for one mesh: markIntersections with the
      geometric hits given, markFluid until stable, then markSolid. Every cell ends
      up FLUID, SOLID or BOUNDARY, no FLUID cell touches a SOLID one, and the
      BOUNDARY cells are exactly those of the face-group pass. */
  method ClassifyCells(cellIBType: array<IBType>, cellCells: seq<seq<int>>, intersected: set<int>,
                       boundaryFaces: seq<(int, int)>)
    returns (nIter: nat, nSolid: nat)
    requires ValidCellCells(cellCells, cellIBType.Length) && ValidFaceCells(boundaryFaces, cellIBType.Length)
    modifies cellIBType
    ensures 1 <= nIter <= 2
    ensures Occurrences(cellIBType[..], Unknown) == 0
    ensures FluidSeparated(cellIBType[..], cellCells)
    ensures forall c :: 0 <= c < cellIBType.Length ==>
              (cellIBType[..][c] == Boundary <==>
               TagFaces(InitialTypes(cellIBType.Length, intersected), boundaryFaces)[c] == Boundary)
  {
    MarkIntersections(cellIBType, intersected, boundaryFaces);
    ghost var tagged := cellIBType[..];
    TagFacesNoSolid(cellIBType.Length, intersected, boundaryFaces);
    nIter := MarkFluidUntilStable(cellIBType, cellCells);
    ghost var filled := cellIBType[..];
    assert forall c :: 0 <= c < |filled| ==> filled[c] != Solid && (filled[c] == Boundary <==> tagged[c] == Boundary);
    nSolid := MarkSolid(cellIBType);
    SolidFillSpec(filled);
    SolidFillSeparates(filled, cellCells);
  }
}
