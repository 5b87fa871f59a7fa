/**
 * The interpolation stencils of the immersed-boundary manager: addFluidNeighbors
 * grows a set of cells by one layer of FLUID neighbours, and the stencil loops
 * repeat it, at most ten times, until the stencil holds enough cells.
 */
module IBStencil {
  import opened IBCells
  import opened Outcome

  /** Fluid cells the IB-face stencil needs. */
  const FluidNeighborsPerIBFace := 8
  /** Fluid cells the solid-face stencil needs. */
  const FluidNeighborsPerSolidFace := 10
  /** The cap on the number of layers. */
  const MaxLayers := 10

  /** Every member of s is a cell of an n-cell mesh. */
  predicate CellSet(s: set<int>, n: int)
  {
    forall c :: c in s ==> 0 <= c < n
  }

  /** The FLUID cells among the first m neighbours of cell c. */
  function FluidNeighborsOf(c: int, cellCells: seq<seq<int>>, ibType: seq<IBType>, m: int): set<int>
    requires 0 <= c < |cellCells| && 0 <= m <= |cellCells[c]|
  {
    if m == 0 then {}
    else
      var x := cellCells[c][m - 1];
      FluidNeighborsOf(c, cellCells, ibType, m - 1) + (if 0 <= x < |ibType| && ibType[x] == Fluid then {x} else {})
  }

  /** The FLUID neighbours of the cells of s below c. */
  function LayerBelow(s: set<int>, cellCells: seq<seq<int>>, ibType: seq<IBType>, c: int): set<int>
    requires 0 <= c <= |cellCells|
  {
    if c == 0 then {}
    else
      LayerBelow(s, cellCells, ibType, c - 1) +
      (if c - 1 in s then FluidNeighborsOf(c - 1, cellCells, ibType, |cellCells[c - 1]|) else {})
  }

  /** The FLUID cells that are cellCells neighbours of a cell of s. */
  function FluidLayer(s: set<int>, cellCells: seq<seq<int>>, ibType: seq<IBType>): set<int>
  {
    LayerBelow(s, cellCells, ibType, |cellCells|)
  }

  /** One layer of growth: the set and its FLUID neighbours. */
  function Grow(s: set<int>, cellCells: seq<seq<int>>, ibType: seq<IBType>): set<int>
  {
    s + FluidLayer(s, cellCells, ibType)
  }

  /** x is collected from cell c exactly when it is one of c's first m neighbours and FLUID. */
  lemma {:induction false} FluidNeighborsOfMembership(c: int, cellCells: seq<seq<int>>, ibType: seq<IBType>,
                                                      m: int, x: int)
    requires 0 <= c < |cellCells| && 0 <= m <= |cellCells[c]|
    ensures x in FluidNeighborsOf(c, cellCells, ibType, m) <==>
              0 <= x < |ibType| && ibType[x] == Fluid && exists k :: 0 <= k < m && cellCells[c][k] == x
  {
    if m > 0 {
      FluidNeighborsOfMembership(c, cellCells, ibType, m - 1, x);
    }
  }

  /** x is in the layer below c exactly when it is a FLUID neighbour of a cell of s below c. */
  lemma {:induction false} LayerBelowMembership(s: set<int>, cellCells: seq<seq<int>>, ibType: seq<IBType>,
                                                c: int, x: int)
    requires 0 <= c <= |cellCells|
    ensures x in LayerBelow(s, cellCells, ibType, c) <==>
              0 <= x < |ibType| && ibType[x] == Fluid &&
              exists d, k :: d in s && 0 <= d < c && 0 <= k < |cellCells[d]| && cellCells[d][k] == x
  {
    if c > 0 {
      LayerBelowMembership(s, cellCells, ibType, c - 1, x);
      FluidNeighborsOfMembership(c - 1, cellCells, ibType, |cellCells[c - 1]|, x);
      if c - 1 in s && x in FluidNeighborsOf(c - 1, cellCells, ibType, |cellCells[c - 1]|) {
        var k :| 0 <= k < |cellCells[c - 1]| && cellCells[c - 1][k] == x;
        assert c - 1 in s && 0 <= c - 1 < c && 0 <= k < |cellCells[c - 1]| && cellCells[c - 1][k] == x;
      }
    }
  }

  /** A cell is added by one layer exactly when it is FLUID and the neighbour of a cell of the set. */
  lemma GrowMembership(s: set<int>, cellCells: seq<seq<int>>, ibType: seq<IBType>, x: int)
    requires ValidCellCells(cellCells, |ibType|) && CellSet(s, |ibType|)
    ensures s <= Grow(s, cellCells, ibType)
    ensures x in Grow(s, cellCells, ibType) - s <==>
              x !in s && 0 <= x < |ibType| && ibType[x] == Fluid &&
              exists c, k :: c in s && 0 <= k < |cellCells[c]| && cellCells[c][k] == x
  {
    LayerBelowMembership(s, cellCells, ibType, |cellCells|, x);
  }

  /** The inner loop of addFluidNeighbors for one cell c. */
  method AddCellFluidNeighbors(newNeighbors: set<int>, c: int, cellCells: seq<seq<int>>, ibType: seq<IBType>)
    returns (r: set<int>)
    requires ValidCellCells(cellCells, |ibType|) && 0 <= c < |ibType|
    ensures r == newNeighbors + FluidNeighborsOf(c, cellCells, ibType, |cellCells[c]|)
  {
    r := newNeighbors;
    var neighborCount := |cellCells[c]|;
    var nnb := 0;
    while nnb < neighborCount
      invariant 0 <= nnb <= neighborCount
      invariant r == newNeighbors + FluidNeighborsOf(c, cellCells, ibType, nnb)
    {
      var cNb := cellCells[c][nnb];
      if ibType[cNb] == Fluid {
        r := r + {cNb};
      }
      nnb := nnb + 1;
    }
  }

  /** addFluidNeighbors: for every cell of the set, in ascending order as the
      set is iterated, every FLUID neighbour is collected into a new set, which
      is then merged into the set. */
  method AddFluidNeighbors(neighbors: set<int>, cellCells: seq<seq<int>>, ibType: seq<IBType>)
    returns (grown: set<int>)
    requires ValidCellCells(cellCells, |ibType|) && CellSet(neighbors, |ibType|)
    ensures grown == Grow(neighbors, cellCells, ibType) && CellSet(grown, |ibType|)
  {
    var newNeighbors: set<int> := {};
    var c := 0;
    while c < |cellCells|
      invariant 0 <= c <= |cellCells|
      invariant newNeighbors == LayerBelow(neighbors, cellCells, ibType, c)
    {
      if c in neighbors {
        newNeighbors := AddCellFluidNeighbors(newNeighbors, c, cellCells, ibType);
      }
      c := c + 1;
    }
    grown := neighbors + newNeighbors;
    forall x | x in grown
      ensures 0 <= x < |ibType|
    {
      GrowMembership(neighbors, cellCells, ibType, x);
    }
  }

  // ---------------------------------------------------------------------------
  // The layer-capped growth loop
  // ---------------------------------------------------------------------------

  /** A subset is no larger, and only as large when it is the whole set. */
  lemma SubsetCard(a: set<int>, b: set<int>)
    requires a <= b
    ensures |a| <= |b|
    ensures |a| == |b| ==> a == b
  {
    assert b == a + (b - a);
    if |a| == |b| {
      assert |b - a| == 0;
      assert b - a == {};
    }
  }

  /** The growth loop as a function of its state: while the set is smaller than
      required and layers remain in the budget, add a layer. Returns the final set
      and the number of layers added. */
  function GrowUntil(s: set<int>, cellCells: seq<seq<int>>, ibType: seq<IBType>, required: int, budget: nat)
    : (r: (set<int>, nat))
    ensures r.1 <= budget && s <= r.0
    decreases budget
  {
    if budget == 0 || |s| >= required then (s, 0)
    else
      var next := GrowUntil(Grow(s, cellCells, ibType), cellCells, ibType, required, budget - 1);
      (next.0, next.1 + 1)
  }

  /** One turn of the loop. */
  lemma GrowUntilStep(s: set<int>, cellCells: seq<seq<int>>, ibType: seq<IBType>, required: int, budget: nat)
    requires budget > 0 && |s| < required
    ensures GrowUntil(s, cellCells, ibType, required, budget).0
            == GrowUntil(Grow(s, cellCells, ibType), cellCells, ibType, required, budget - 1).0
    ensures GrowUntil(s, cellCells, ibType, required, budget).1
            == GrowUntil(Grow(s, cellCells, ibType), cellCells, ibType, required, budget - 1).1 + 1
  {
  }

  /** The loop is done once the set is large enough or the budget is spent. */
  lemma GrowUntilDone(s: set<int>, cellCells: seq<seq<int>>, ibType: seq<IBType>, required: int, budget: nat)
    requires budget == 0 || |s| >= required
    ensures GrowUntil(s, cellCells, ibType, required, budget) == (s, 0)
  {
  }

  /** The loop stops early only because the set is large enough, and it adds a
      layer whenever the set starts too small. */
  lemma {:induction false} GrowUntilStops(s: set<int>, cellCells: seq<seq<int>>, ibType: seq<IBType>,
                                          required: int, budget: nat)
    ensures GrowUntil(s, cellCells, ibType, required, budget).1 < budget ==>
              |GrowUntil(s, cellCells, ibType, required, budget).0| >= required
    ensures GrowUntil(s, cellCells, ibType, required, budget).1 == 0 <==> budget == 0 || |s| >= required
    decreases budget
  {
    if budget > 0 && |s| < required {
      GrowUntilStep(s, cellCells, ibType, required, budget);
      GrowUntilStops(Grow(s, cellCells, ibType), cellCells, ibType, required, budget - 1);
    } else {
      GrowUntilDone(s, cellCells, ibType, required, budget);
    }
  }

  /** A set that a layer does not change is the loop's answer whatever the budget. */
  lemma {:induction false} StallIsFinal(s: set<int>, cellCells: seq<seq<int>>, ibType: seq<IBType>,
                                        required: int, budget: nat)
    requires Grow(s, cellCells, ibType) == s
    ensures GrowUntil(s, cellCells, ibType, required, budget).0 == s
    decreases budget
  {
    if budget > 0 && |s| < required {
      StallIsFinal(s, cellCells, ibType, required, budget - 1);
    }
  }

  /** When the loop uses its whole budget b >= 1, either the final set is short,
      or no layer stalled and even the set before the last layer was short,
      which needs |s| + b - 1 < required. */
  lemma {:induction false} CapReached(s: set<int>, cellCells: seq<seq<int>>, ibType: seq<IBType>,
                                      required: int, budget: nat)
    requires budget >= 1 && GrowUntil(s, cellCells, ibType, required, budget).1 == budget
    ensures |GrowUntil(s, cellCells, ibType, required, budget).0| < required || |s| + budget - 1 < required
    decreases budget
  {
    var g := Grow(s, cellCells, ibType);
    SubsetCard(s, g);
    if g == s {
      StallIsFinal(s, cellCells, ibType, required, budget);
    } else if budget > 1 {
      CapReached(g, cellCells, ibType, required, budget - 1);
    }
  }

  /** From a single seed cell with a requirement of at most cap cells, reaching
      the cap means the stencil is short: the last layer is never the one that
      completes it. */
  lemma CapMeansShort(seed: int, cellCells: seq<seq<int>>, ibType: seq<IBType>, required: int, cap: nat)
    requires 1 <= cap && required <= cap
    ensures GrowUntil({seed}, cellCells, ibType, required, cap).1 == cap <==>
              |GrowUntil({seed}, cellCells, ibType, required, cap).0| < required
  {
    GrowUntilStops({seed}, cellCells, ibType, required, cap);
    if GrowUntil({seed}, cellCells, ibType, required, cap).1 == cap {
      CapReached({seed}, cellCells, ibType, required, cap);
    }
  }

  /** The stencil the growth loop builds from a seed cell. */
  function FaceStencil(seed: int, cellCells: seq<seq<int>>, ibType: seq<IBType>, required: int): set<int>
  {
    GrowUntil({seed}, cellCells, ibType, required, MaxLayers).0
  }

  /** The growth loop of both stencil builders, from the seed cell. */
  method GrowStencil(seed: int, required: int, cellCells: seq<seq<int>>, ibType: seq<IBType>)
    returns (neighbors: set<int>, nLayers: nat)
    requires ValidCellCells(cellCells, |ibType|) && 0 <= seed < |ibType|
    ensures (neighbors, nLayers) == GrowUntil({seed}, cellCells, ibType, required, MaxLayers)
  {
    neighbors := {seed};
    nLayers := 0;
    ghost var budget: nat := MaxLayers;
    ghost var target := GrowUntil(neighbors, cellCells, ibType, required, budget);
    while |neighbors| < required && nLayers < MaxLayers
      invariant nLayers + budget == MaxLayers && CellSet(neighbors, |ibType|)
      invariant target.0 == GrowUntil(neighbors, cellCells, ibType, required, budget).0
      invariant target.1 == GrowUntil(neighbors, cellCells, ibType, required, budget).1 + nLayers
      decreases budget
    {
      GrowUntilStep(neighbors, cellCells, ibType, required, budget);
      neighbors := AddFluidNeighbors(neighbors, cellCells, ibType);
      nLayers := nLayers + 1;
      budget := budget - 1;
    }
    GrowUntilDone(neighbors, cellCells, ibType, required, budget);
  }

  /** The stencil of one IB face (createIBInterpolationStencil): throws when the
      cap is reached, which happens exactly when the grown stencil is short. */
  method IBFaceStencil(seed: int, cellCells: seq<seq<int>>, ibType: seq<IBType>) returns (r: Result<set<int>>)
    requires ValidCellCells(cellCells, |ibType|) && 0 <= seed < |ibType|
    ensures r.Error? <==> |FaceStencil(seed, cellCells, ibType, FluidNeighborsPerIBFace)| < FluidNeighborsPerIBFace
    ensures r.Ok? ==> r.value == FaceStencil(seed, cellCells, ibType, FluidNeighborsPerIBFace)
  {
    var neighbors, nLayers := GrowStencil(seed, FluidNeighborsPerIBFace, cellCells, ibType);
    CapMeansShort(seed, cellCells, ibType, FluidNeighborsPerIBFace, MaxLayers);
    if nLayers == MaxLayers {
      return Error("not enough fluid cells for IB face interpolation");
    }
    r := Ok(neighbors);
  }

  /** The stencil of one solid face (createSolidInterpolationStencil): no error at
      the cap, and the cap is reached only by a stencil that stays short. */
  method SolidFaceStencil(seed: int, cellCells: seq<seq<int>>, ibType: seq<IBType>)
    returns (neighbors: set<int>, nLayers: nat)
    requires ValidCellCells(cellCells, |ibType|) && 0 <= seed < |ibType|
    ensures neighbors == FaceStencil(seed, cellCells, ibType, FluidNeighborsPerSolidFace)
    ensures nLayers == MaxLayers <==> |neighbors| < FluidNeighborsPerSolidFace
  {
    neighbors, nLayers := GrowStencil(seed, FluidNeighborsPerSolidFace, cellCells, ibType);
    CapMeansShort(seed, cellCells, ibType, FluidNeighborsPerSolidFace, MaxLayers);
  }

  /** Every seed is a cell. */
  predicate ValidSeeds(seeds: seq<int>, n: int)
  {
    forall f :: 0 <= f < |seeds| ==> 0 <= seeds[f] < n
  }

  /** The stencil pass of createIBInterpolationStencil over the IB faces, each
      with its nearest FLUID cell as seed: the first face whose stencil stays
      short aborts the pass. */
  method IBInterpolationStencils(seeds: seq<int>, cellCells: seq<seq<int>>, ibType: seq<IBType>)
    returns (r: Result<seq<set<int>>>)
    requires ValidCellCells(cellCells, |ibType|) && ValidSeeds(seeds, |ibType|)
    ensures r.Error? <==>
              exists f :: 0 <= f < |seeds| &&
                |FaceStencil(seeds[f], cellCells, ibType, FluidNeighborsPerIBFace)| < FluidNeighborsPerIBFace
    ensures r.Ok? ==> |r.value| == |seeds|
    ensures r.Ok? ==> forall f :: 0 <= f < |seeds| ==>
              r.value[f] == FaceStencil(seeds[f], cellCells, ibType, FluidNeighborsPerIBFace) &&
              |r.value[f]| >= FluidNeighborsPerIBFace
  {
    var stencils: seq<set<int>> := [];
    var f := 0;
    while f < |seeds|
      invariant 0 <= f <= |seeds| && |stencils| == f
      invariant forall g :: 0 <= g < f ==>
                  stencils[g] == FaceStencil(seeds[g], cellCells, ibType, FluidNeighborsPerIBFace) &&
                  |stencils[g]| >= FluidNeighborsPerIBFace
    {
      var one := IBFaceStencil(seeds[f], cellCells, ibType);
      if one.Error? {
        return Error(one.message);
      }
      stencils := stencils + [one.value];
      f := f + 1;
    }
    r := Ok(stencils);
  }

  /** The stencil pass of createSolidInterpolationStencil over the solid faces:
      a face whose nearest cell lies in this mesh gets the stencil grown from that
      cell, any other face no stencil here. */
  method SolidInterpolationStencils(nearest: seq<Option<int>>, cellCells: seq<seq<int>>, ibType: seq<IBType>)
    returns (stencils: seq<set<int>>)
    requires ValidCellCells(cellCells, |ibType|)
    requires forall f :: 0 <= f < |nearest| && nearest[f].Some? ==> 0 <= nearest[f].value < |ibType|
    ensures |stencils| == |nearest|
    ensures forall f :: 0 <= f < |nearest| ==>
              stencils[f] == if nearest[f].Some?
                             then FaceStencil(nearest[f].value, cellCells, ibType, FluidNeighborsPerSolidFace)
                             else {}
  {
    stencils := [];
    var f := 0;
    while f < |nearest|
      invariant 0 <= f <= |nearest| && |stencils| == f
      invariant forall g :: 0 <= g < f ==>
                  stencils[g] == if nearest[g].Some?
                                 then FaceStencil(nearest[g].value, cellCells, ibType, FluidNeighborsPerSolidFace)
                                 else {}
    {
      var one: set<int> := {};
      if nearest[f].Some? {
        var nLayers;
        one, nLayers := SolidFaceStencil(nearest[f].value, cellCells, ibType);
      }
      stencils := stencils + [one];
      f := f + 1;
    }
  }
}
