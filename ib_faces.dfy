/**
 * createIBFaces: the immersed-boundary faces of a fluid mesh are the faces
 * between a FLUID and a BOUNDARY cell; a face between a FLUID and a SOLID cell
 * is an error.
 */
module IBFaces {
  import opened IBCells
  import opened Outcome

  /** The face (c0, c1) joins a FLUID and a BOUNDARY cell, in either order. */
  predicate IsIBFace(t: seq<IBType>, c0: int, c1: int)
    requires 0 <= c0 < |t| && 0 <= c1 < |t|
  {
    (t[c0] == Fluid && t[c1] == Boundary) || (t[c1] == Fluid && t[c0] == Boundary)
  }

  /** The face (c0, c1) joins a FLUID and a SOLID cell, in either order. */
  predicate IsFluidSolidFace(t: seq<IBType>, c0: int, c1: int)
    requires 0 <= c0 < |t| && 0 <= c1 < |t|
  {
    (t[c0] == Fluid && t[c1] == Solid) || (t[c1] == Fluid && t[c0] == Solid)
  }

  /** The IB faces among the first n faces, in face order. */
  function IBFaceIndices(t: seq<IBType>, faceCells: seq<(int, int)>, n: int): (r: seq<int>)
    requires ValidFaceCells(faceCells, |t|) && 0 <= n <= |faceCells|
    ensures |r| <= n
  {
    if n == 0 then []
    else
      var rest := IBFaceIndices(t, faceCells, n - 1);
      if IsIBFace(t, faceCells[n - 1].0, faceCells[n - 1].1) then rest + [n - 1] else rest
  }

  /** A face index is listed exactly when it is an IB face. */
  lemma {:induction false} IBFaceIndicesMembership(t: seq<IBType>, faceCells: seq<(int, int)>, n: int, f: int)
    requires ValidFaceCells(faceCells, |t|) && 0 <= n <= |faceCells|
    ensures f in IBFaceIndices(t, faceCells, n) <==>
              0 <= f < n && IsIBFace(t, faceCells[f].0, faceCells[f].1)
  {
    if n > 0 {
      IBFaceIndicesMembership(t, faceCells, n - 1, f);
    }
  }

  /** The list is strictly ascending and every entry is a face index below n. */
  lemma {:induction false} IBFaceIndicesAscending(t: seq<IBType>, faceCells: seq<(int, int)>, n: int)
    requires ValidFaceCells(faceCells, |t|) && 0 <= n <= |faceCells|
    ensures forall i :: 0 <= i < |IBFaceIndices(t, faceCells, n)| ==> 0 <= IBFaceIndices(t, faceCells, n)[i] < n
    ensures forall i, j :: 0 <= i < j < |IBFaceIndices(t, faceCells, n)| ==>
              IBFaceIndices(t, faceCells, n)[i] < IBFaceIndices(t, faceCells, n)[j]
  {
    if n > 0 {
      IBFaceIndicesAscending(t, faceCells, n - 1);
    }
  }

  /** The IB face list of a mesh and the count its ibFaces site is given. */
  datatype IBFaceList = IBFaceList(count: nat, ibFaceList: seq<int>)

  /** No face of the first n joins a FLUID and a SOLID cell. */
  predicate NoFluidSolidFace(t: seq<IBType>, faceCells: seq<(int, int)>, n: int)
    requires ValidFaceCells(faceCells, |t|) && 0 <= n <= |faceCells|
  {
    forall f :: 0 <= f < n ==> !IsFluidSolidFace(t, faceCells[f].0, faceCells[f].1)
  }

  /** The counting pass of createIBFaces: counts the IB faces and throws at the first FLUID/SOLID face. */
  method CountIBFaces(cellIBType: array<IBType>, faceCells: seq<(int, int)>) returns (r: Result<nat>)
    requires ValidFaceCells(faceCells, cellIBType.Length)
    ensures r.Error? <==> !NoFluidSolidFace(cellIBType[..], faceCells, |faceCells|)
    ensures r.Ok? ==> r.value == |IBFaceIndices(cellIBType[..], faceCells, |faceCells|)|
  {
    ghost var t := cellIBType[..];
    var nIBFaces := 0;
    var f := 0;
    while f < |faceCells|
      invariant 0 <= f <= |faceCells|
      invariant nIBFaces == |IBFaceIndices(t, faceCells, f)|
      invariant NoFluidSolidFace(t, faceCells, f)
    {
      var c0 := faceCells[f].0;
      var c1 := faceCells[f].1;
      var ibType0 := cellIBType[c0];
      var ibType1 := cellIBType[c1];
      if (ibType0 == Fluid && ibType1 == Boundary) || (ibType1 == Fluid && ibType0 == Boundary) {
        nIBFaces := nIBFaces + 1;
      }
      if (ibType0 == Fluid && ibType1 == Solid) || (ibType1 == Fluid && ibType0 == Solid) {
        assert IsFluidSolidFace(t, faceCells[f].0, faceCells[f].1);
        return Error("found face between solid and fluid cells");
      }
      f := f + 1;
    }
    r := Ok(nIBFaces);
  }

  /** The filling pass of createIBFaces: writes the IB face indices, in face order,
      into a list of the counted length. */
  method FillIBFaces(cellIBType: array<IBType>, faceCells: seq<(int, int)>, count: nat) returns (list: seq<int>)
    requires ValidFaceCells(faceCells, cellIBType.Length)
    requires count == |IBFaceIndices(cellIBType[..], faceCells, |faceCells|)|
    ensures list == IBFaceIndices(cellIBType[..], faceCells, |faceCells|)
  {
    ghost var t := cellIBType[..];
    var ibFaceList := new int[count];
    var nIBFaces := 0;
    var f := 0;
    while f < |faceCells|
      invariant 0 <= f <= |faceCells|
      invariant nIBFaces == |IBFaceIndices(t, faceCells, f)| <= ibFaceList.Length
      invariant ibFaceList[..nIBFaces] == IBFaceIndices(t, faceCells, f)
    {
      var c0 := faceCells[f].0;
      var c1 := faceCells[f].1;
      var ibType0 := cellIBType[c0];
      var ibType1 := cellIBType[c1];
      IBFaceIndicesPrefix(t, faceCells, f + 1, |faceCells|);
      if (ibType0 == Fluid && ibType1 == Boundary) || (ibType1 == Fluid && ibType0 == Boundary) {
        ibFaceList[nIBFaces] := f;
        nIBFaces := nIBFaces + 1;
      }
      f := f + 1;
    }
    list := ibFaceList[..];
  }

  /** createIBFaces: the IB face list is exactly the FLUID/BOUNDARY faces in face
      order and the ibFaces count is its length; a FLUID/SOLID face is an error. */
  method CreateIBFaces(cellIBType: array<IBType>, faceCells: seq<(int, int)>) returns (r: Result<IBFaceList>)
    requires ValidFaceCells(faceCells, cellIBType.Length)
    ensures r.Error? <==> !NoFluidSolidFace(cellIBType[..], faceCells, |faceCells|)
    ensures r.Ok? ==> r.value.ibFaceList == IBFaceIndices(cellIBType[..], faceCells, |faceCells|)
    ensures r.Ok? ==> r.value.count == |r.value.ibFaceList|
  {
    var counted := CountIBFaces(cellIBType, faceCells);
    if counted.Error? {
      return Error(counted.message);
    }
    var list := FillIBFaces(cellIBType, faceCells, counted.value);
    r := Ok(IBFaceList(counted.value, list));
  }

  /** Considering more faces never shortens the list. */
  lemma {:induction false} IBFaceIndicesPrefix(t: seq<IBType>, faceCells: seq<(int, int)>, m: int, n: int)
    requires ValidFaceCells(faceCells, |t|) && 0 <= m <= n <= |faceCells|
    ensures |IBFaceIndices(t, faceCells, m)| <= |IBFaceIndices(t, faceCells, n)|
    decreases n
  {
    if m < n {
      IBFaceIndicesPrefix(t, faceCells, m, n - 1);
    }
  }

  /** Once the classification has separated FLUID from SOLID cells, a mesh whose
      faces join cell-cell neighbours has no FLUID/SOLID face, so createIBFaces
      does not throw. */
  lemma SeparatedMeansNoFluidSolidFace(t: seq<IBType>, cellCells: seq<seq<int>>, faceCells: seq<(int, int)>)
    requires ValidCellCells(cellCells, |t|) && ValidFaceCells(faceCells, |t|)
    requires forall c, k ::
               0 <= c < |t| && t[c] == Fluid && 0 <= k < |cellCells[c]| ==> t[cellCells[c][k]] != Solid
    requires forall f :: 0 <= f < |faceCells| ==>
               faceCells[f].1 in cellCells[faceCells[f].0] && faceCells[f].0 in cellCells[faceCells[f].1]
    ensures NoFluidSolidFace(t, faceCells, |faceCells|)
  {
    forall f | 0 <= f < |faceCells|
      ensures !IsFluidSolidFace(t, faceCells[f].0, faceCells[f].1)
    {
      var (c0, c1) := faceCells[f];
      if t[c0] == Fluid {
        var k :| 0 <= k < |cellCells[c0]| && cellCells[c0][k] == c1;
      }
      if t[c1] == Fluid {
        var k :| 0 <= k < |cellCells[c1]| && cellCells[c1][k] == c0;
      }
    }
  }
}
