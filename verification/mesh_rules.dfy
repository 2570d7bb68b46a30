/** When a mesh is accepted, in words: which cells, faces and patches it must have, and what its
    closed cells mean for the faces that share an edge. */
module MeshRules {
  import opened MeshGeometry
  import opened MeshAssembly

  // ----- Patches -----

  predicate InPatch(p: Patch, f: int) {
    p.start <= f < p.start + p.count
  }

  /** How many patches have the face. */
  function PatchesWith(patches: seq<Patch>, f: nat): nat {
    if patches == [] then 0
    else PatchesWith(patches[..|patches| - 1], f) + if InPatch(patches[|patches| - 1], f) then 1 else 0
  }

  lemma {:induction false} RangeCount(start: nat, count: nat, f: nat)
    ensures multiset(FaceRange(start, count))[f] == if start <= f < start + count then 1 else 0
  {
    var r := FaceRange(start, count);
    if count > 0 {
      RangeCount(start, count - 1, f);
      assert r == FaceRange(start, count - 1) + [start + count - 1];
    }
  }

  lemma {:induction false} CoveredCount(patches: seq<Patch>, f: nat)
    ensures multiset(Covered(patches))[f] == PatchesWith(patches, f)
  {
    if patches != [] {
      var rest, p := patches[..|patches| - 1], patches[|patches| - 1];
      CoveredCount(rest, f);
      RangeCount(p.start, p.count, f);
    }
  }

  /** Patch names differ, processor patches need permission, and each external face is in exactly
      one patch while internal faces are in none. */
  ghost predicate BoundaryAllowed(patches: seq<Patch>, internalFaces: nat, faces: nat, allowProcessor: bool) {
    && internalFaces <= faces
    && (forall i, j :: 0 <= i < j < |patches| ==> patches[i].name != patches[j].name)
    && (forall i :: 0 <= i < |patches| ==> allowProcessor || !("processor" <= patches[i].kind))
    && PatchesInside(patches, internalFaces, faces) && EachOnce(patches, internalFaces, faces)
  }

  lemma {:induction false} OutsidePatches(patches: seq<Patch>, internalFaces: nat, faces: nat, f: nat)
    requires forall i :: 0 <= i < |patches| ==>
      internalFaces <= patches[i].start && patches[i].start + patches[i].count <= faces
    requires !(internalFaces <= f < faces)
    ensures PatchesWith(patches, f) == 0
  {
    if patches != [] {
      OutsidePatches(patches[..|patches| - 1], internalFaces, faces, f);
    }
  }

  predicate PatchesInside(patches: seq<Patch>, internalFaces: nat, faces: nat) {
    forall i :: 0 <= i < |patches| ==>
      internalFaces <= patches[i].start && patches[i].start + patches[i].count <= faces
  }

  lemma FaceCounts(patches: seq<Patch>, internalFaces: nat, faces: nat, f: nat)
    requires internalFaces <= faces && PatchesInside(patches, internalFaces, faces)
    ensures multiset(Covered(patches))[f] == multiset(FaceRange(internalFaces, faces - internalFaces))[f] <==>
      (internalFaces <= f < faces ==> PatchesWith(patches, f) == 1)
  {
    CoveredCount(patches, f);
    RangeCount(internalFaces, faces - internalFaces, f);
    if !(internalFaces <= f < faces) {
      OutsidePatches(patches, internalFaces, faces, f);
    }
  }

  lemma SameBag(a: multiset<nat>, b: multiset<nat>)
    ensures a == b <==> forall f: nat :: a[f] == b[f]
  {}

  ghost predicate EachOnce(patches: seq<Patch>, internalFaces: nat, faces: nat) {
    forall f: nat :: internalFaces <= f < faces ==> PatchesWith(patches, f) == 1
  }

  lemma CoveredExact(patches: seq<Patch>, internalFaces: nat, faces: nat)
    requires internalFaces <= faces && PatchesInside(patches, internalFaces, faces)
    ensures multiset(Covered(patches)) == multiset(FaceRange(internalFaces, faces - internalFaces)) <==>
      EachOnce(patches, internalFaces, faces)
  {
    var covered, all := multiset(Covered(patches)), multiset(FaceRange(internalFaces, faces - internalFaces));
    SameBag(covered, all);
    forall f: nat
      ensures covered[f] == all[f] <==> (internalFaces <= f < faces ==> PatchesWith(patches, f) == 1)
    {
      FaceCounts(patches, internalFaces, faces, f);
    }
  }

  /** Main theorem: the boundary is accepted exactly when it is allowed. */
  lemma BoundaryExact(patches: seq<Patch>, internalFaces: nat, faces: nat, allowProcessor: bool)
    ensures CoversBoundary(patches, internalFaces, faces, allowProcessor) <==>
      BoundaryAllowed(patches, internalFaces, faces, allowProcessor)
  {
    assert (forall i :: 0 <= i < |patches| ==> AcceptablePatch(patches[i], internalFaces, faces, allowProcessor)) <==>
      PatchesInside(patches, internalFaces, faces) &&
      forall i :: 0 <= i < |patches| ==> allowProcessor || !("processor" <= patches[i].kind);
    if internalFaces <= faces && PatchesInside(patches, internalFaces, faces) {
      CoveredExact(patches, internalFaces, faces);
    }
  }

  // ----- Cells -----

  /** The cells in use are numbered from 0 on. */
  ghost predicate CellsAre(cells: seq<nat>, n: nat) {
    (forall c :: c in cells ==> c < n) && forall c: nat :: c < n ==> c in cells
  }

  lemma {:induction false} CountBounds(cells: seq<nat>)
    ensures forall c :: c in cells ==> c < CellCount(cells)
    ensures CellCount(cells) > 0 ==> CellCount(cells) - 1 in cells
  {
    if cells != [] {
      var n := |cells| - 1;
      CountBounds(cells[..n]);
      assert cells == cells[..n] + [cells[n]];
    }
  }

  lemma CellCountExact(cells: seq<nat>, n: nat)
    ensures CellsAre(cells, n) <==> Contiguous(cells) && CellCount(cells) == n
  {
    CountBounds(cells);
    if CellsAre(cells, n) && n > 0 {
      assert n - 1 in cells;
    }
  }

  // ----- The whole mesh -----

  /** A face has at least three different corners, a nonzero area and an acceptable shape, and an
      internal one leads to a cell with a higher number. */
  ghost predicate FaceAllowed(points: seq<Vec>, a: Addressing, shapeOk: seq<Vec> -> bool, f: nat)
    requires f < |a.faces| == |a.owner|
  {
    var face := a.faces[f];
    && |face| >= 3
    && (forall i, j :: 0 <= i < j < |face| ==> face[i] != face[j])
    && (forall i :: 0 <= i < |face| ==> face[i] < |points|)
    && FaceArea(points, face) != ZERO && shapeOk(Corners(points, face))
    && (f < |a.neighbour| ==> a.owner[f] < a.neighbour[f])
  }

  /** A cell is closed and has a positive volume. */
  ghost predicate CellAllowed(points: seq<Vec>, origin: Vec, a: Addressing, c: nat)
    requires |a.faces| == |a.owner|
  {
    ClosedSurface(SidesEdges(a, Sides(a, c, |a.faces|))) && SidesVolume(points, origin, a, Sides(a, c, |a.faces|)) > 0.0
  }

  ghost predicate MeshAllowed(points: seq<Vec>, origin: Vec, a: Addressing, patches: seq<Patch>, allowProcessor: bool,
                              shapeOk: seq<Vec> -> bool, cells: nat) {
    && points != [] && a.faces != [] && |a.owner| == |a.faces| && |a.neighbour| <= |a.faces|
    && cells <= 250000 && CellsAre(a.owner + a.neighbour, cells)
    && BoundaryAllowed(patches, |a.neighbour|, |a.faces|, allowProcessor)
    && (forall f: nat :: f < |a.faces| ==> FaceAllowed(points, a, shapeOk, f))
    && forall c: nat :: c < cells ==> CellAllowed(points, origin, a, c)
  }

  /** Main theorem: a mesh is accepted exactly when it is allowed with some number of cells. */
  lemma MeshExact(points: seq<Vec>, origin: Vec, a: Addressing, patches: seq<Patch>, allowProcessor: bool,
                  shapeOk: seq<Vec> -> bool)
    ensures AcceptableMesh(points, origin, a, patches, allowProcessor, shapeOk) <==>
      exists cells :: MeshAllowed(points, origin, a, patches, allowProcessor, shapeOk, cells)
  {
    if |a.owner| == |a.faces| {
      BoundaryExact(patches, |a.neighbour|, |a.faces|, allowProcessor);
      CellCountExact(a.owner + a.neighbour, CellCount(a.owner + a.neighbour));
      if AcceptableMesh(points, origin, a, patches, allowProcessor, shapeOk) {
        AcceptedIsAllowed(points, origin, a, patches, allowProcessor, shapeOk);
      }
      forall cells | MeshAllowed(points, origin, a, patches, allowProcessor, shapeOk, cells)
        ensures AcceptableMesh(points, origin, a, patches, allowProcessor, shapeOk)
      {
        CellCountExact(a.owner + a.neighbour, cells);
        AllowedIsAccepted(points, origin, a, patches, allowProcessor, shapeOk, cells);
      }
    }
  }

  lemma AcceptedIsAllowed(points: seq<Vec>, origin: Vec, a: Addressing, patches: seq<Patch>, allowProcessor: bool,
                          shapeOk: seq<Vec> -> bool)
    requires AcceptableMesh(points, origin, a, patches, allowProcessor, shapeOk)
    ensures MeshAllowed(points, origin, a, patches, allowProcessor, shapeOk, CellCount(a.owner + a.neighbour))
  {
    BoundaryExact(patches, |a.neighbour|, |a.faces|, allowProcessor);
    CellCountExact(a.owner + a.neighbour, CellCount(a.owner + a.neighbour));
    forall f: nat | f < |a.faces| ensures FaceAllowed(points, a, shapeOk, f) {
      assert AcceptableFace(points, a.faces[f], shapeOk);
    }
    forall c: nat | c < CellCount(a.owner + a.neighbour) ensures CellAllowed(points, origin, a, c) {
      assert AcceptableCell(PyramidVolumes(points, origin, a), a, c);
    }
  }

  lemma AllowedIsAccepted(points: seq<Vec>, origin: Vec, a: Addressing, patches: seq<Patch>, allowProcessor: bool,
                          shapeOk: seq<Vec> -> bool, cells: nat)
    requires MeshAllowed(points, origin, a, patches, allowProcessor, shapeOk, cells)
    ensures AcceptableMesh(points, origin, a, patches, allowProcessor, shapeOk)
  {
    BoundaryExact(patches, |a.neighbour|, |a.faces|, allowProcessor);
    CellCountExact(a.owner + a.neighbour, cells);
    forall f: nat | f < |a.faces|
      ensures AcceptableFace(points, a.faces[f], shapeOk) && (f < |a.neighbour| ==> a.owner[f] < a.neighbour[f])
    {
      assert FaceAllowed(points, a, shapeOk, f);
    }
    forall c: nat | c < cells ensures AcceptableCell(PyramidVolumes(points, origin, a), a, c) {
      assert CellAllowed(points, origin, a, c);
    }
  }

  // ----- Edges of a cell -----

  /** The face runs from corner a to corner b, the last corner being followed by the first. */
  predicate Runs(face: Face, a: nat, b: nat) {
    exists i :: 0 <= i < |face| && face[i] == a && face[if i + 1 == |face| then 0 else i + 1] == b
  }

  /** Seen from the cell: owned faces run as they are, the others the other way. */
  predicate SideRuns(m: Addressing, s: Side, a: nat, b: nat)
    requires s.face < |m.faces|
  {
    if s.outward then Runs(m.faces[s.face], a, b) else Runs(m.faces[s.face], b, a)
  }

  lemma {:induction false} LoopRuns(face: Face, outward: bool, n: nat, a: nat, b: nat)
    requires n <= |face|
    ensures DirectedEdge(a, b) in LoopEdges(face, outward, n) <==>
      exists i :: 0 <= i < n && face[i] == (if outward then a else b) &&
        face[if i + 1 == |face| then 0 else i + 1] == (if outward then b else a)
  {
    if n > 0 {
      LoopRuns(face, outward, n - 1, a, b);
    }
  }

  lemma {:induction false} EdgeOfSomeSide(m: Addressing, sides: seq<Side>, a: nat, b: nat)
    requires forall i :: 0 <= i < |sides| ==> sides[i].face < |m.faces|
    ensures DirectedEdge(a, b) in SidesEdges(m, sides) <==>
      exists i :: 0 <= i < |sides| && SideRuns(m, sides[i], a, b)
  {
    if sides != [] {
      var n := |sides| - 1;
      var s := sides[n];
      EdgeOfSomeSide(m, sides[..n], a, b);
      LoopRuns(m.faces[s.face], s.outward, |m.faces[s.face]|, a, b);
      assert SideRuns(m, s, a, b) <==> DirectedEdge(a, b) in LoopEdges(m.faces[s.face], s.outward, |m.faces[s.face]|);
    }
  }

  /** In an accepted cell, wherever one face runs from a to b, another runs from b to a. */
  lemma EdgesShared(m: Addressing, sides: seq<Side>, i: nat, a: nat, b: nat)
    requires forall k :: 0 <= k < |sides| ==> sides[k].face < |m.faces|
    requires ClosedSurface(SidesEdges(m, sides)) && i < |sides| && SideRuns(m, sides[i], a, b)
    ensures exists j :: 0 <= j < |sides| && SideRuns(m, sides[j], b, a)
  {
    var es := SidesEdges(m, sides);
    EdgeOfSomeSide(m, sides, a, b);
    EdgeOfSomeSide(m, sides, b, a);
    assert Uses(es, a, b) == Uses(es, b, a);
    assert DirectedEdge(b, a) in multiset(es);
  }
}
