/**
 * Immersed-boundary cell classification: the cell types, the shape of the
 * integer connectivities the classification passes read, and counting.
 */
module IBCells {

  /** The immersed-boundary type of one cell, as stored in the ibType field. */
  datatype IBType = Unknown | Fluid | Solid | Boundary

  /** A cell-to-cell connectivity over n cells: one neighbour list per cell, every neighbour a cell. */
  predicate ValidCellCells(cellCells: seq<seq<int>>, n: int)
  {
    |cellCells| == n &&
    forall c, k :: 0 <= c < n && 0 <= k < |cellCells[c]| ==> 0 <= cellCells[c][k] < n
  }

  /** A face-to-cell connectivity whose two cells (c0, c1) are cells of an n-cell mesh. */
  predicate ValidFaceCells(faceCells: seq<(int, int)>, n: int)
  {
    forall f :: 0 <= f < |faceCells| ==> 0 <= faceCells[f].0 < n && 0 <= faceCells[f].1 < n
  }

  /** Number of cells of type t. */
  function Occurrences(s: seq<IBType>, t: IBType): (r: nat)
    ensures r <= |s|
  {
    if s == [] then 0 else Occurrences(s[..|s| - 1], t) + (if s[|s| - 1] == t then 1 else 0)
  }

  /** Changing one cell's type moves it from one count to the other. */
  lemma {:induction false} OccurrencesUpdate(s: seq<IBType>, i: int, v: IBType, t: IBType)
    requires 0 <= i < |s|
    ensures Occurrences(s[i := v], t)
            == Occurrences(s, t) - (if s[i] == t then 1 else 0) + (if v == t then 1 else 0)
  {
    var s' := s[i := v];
    if i == |s| - 1 {
      assert s'[..|s'| - 1] == s[..|s| - 1];
    } else {
      assert s'[..|s'| - 1] == s[..|s| - 1][i := v];
      OccurrencesUpdate(s[..|s| - 1], i, v, t);
    }
  }

  /** The count is zero exactly when no cell has the type. */
  lemma {:induction false} OccurrencesZero(s: seq<IBType>, t: IBType)
    ensures Occurrences(s, t) == 0 <==> forall i :: 0 <= i < |s| ==> s[i] != t
  {
    if s != [] {
      OccurrencesZero(s[..|s| - 1], t);
      assert forall i :: 0 <= i < |s| - 1 ==> s[..|s| - 1][i] == s[i];
    }
  }
}
