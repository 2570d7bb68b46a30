/** Reading a mesh: patch coverage, per-face geometry, per-cell accumulation, and the
    final acceptance test, together with the balance theorems over all cells. */
module MeshAssembly {
  import opened MeshGeometry

  const MAX_ITEMS: nat := 250_000

  datatype Patch = Patch(name: string, kind: string, start: nat, count: nat)

  datatype MeshError =
    | InvalidAddressing
    | NoncontiguousCells
    | DuplicatePatch(name: string)
    | ProcessorPatch(name: string)
    | PatchOutOfRange(name: string)
    | BoundaryNotCovered
    | DegenerateFace(face: nat)
    | ZeroArea(face: nat)
    | UnsupportedShape(face: nat)
    | InvalidOrientation(face: nat)
    | CellsNotClosed

  datatype Mesh = Mesh(points: seq<Vec>, addressing: Addressing, patches: seq<Patch>, volumes: seq<real>)

  datatype Result<T> = Accepted(value: T) | Rejected(error: MeshError)

  // ----- Patches cover the boundary -----

  function FaceRange(start: nat, count: nat): (r: seq<nat>)
    ensures |r| == count && forall i :: 0 <= i < count ==> r[i] == start + i
  {
    seq(count, i requires 0 <= i < count => start + i)
  }

  function Covered(patches: seq<Patch>): seq<nat> {
    if patches == [] then []
    else
      var p := patches[|patches| - 1];
      Covered(patches[..|patches| - 1]) + FaceRange(p.start, p.count)
  }

  predicate AcceptablePatch(p: Patch, internalFaces: nat, faces: nat, allowProcessor: bool) {
    (allowProcessor || !("processor" <= p.kind)) && internalFaces <= p.start && p.start + p.count <= faces
  }

  ghost predicate DistinctNames(patches: seq<Patch>) {
    forall i, j :: 0 <= i < j < |patches| ==> patches[i].name != patches[j].name
  }

  /** The patch list names every external face exactly once. */
  ghost predicate CoversBoundary(patches: seq<Patch>, internalFaces: nat, faces: nat, allowProcessor: bool) {
    DistinctNames(patches) &&
    (forall i :: 0 <= i < |patches| ==> AcceptablePatch(patches[i], internalFaces, faces, allowProcessor)) &&
    internalFaces <= faces &&
    multiset(Covered(patches)) == multiset(FaceRange(internalFaces, faces - internalFaces))
  }

  method ReadBoundary(patches: seq<Patch>, internalFaces: nat, faces: nat, allowProcessor: bool)
    returns (r: Result<()>)
    requires internalFaces <= faces
    ensures r.Accepted? <==> CoversBoundary(patches, internalFaces, faces, allowProcessor)
  {
    var names: set<string> := {};
    var covered: seq<nat> := [];
    for i := 0 to |patches|
      invariant names == set j | 0 <= j < i :: patches[j].name
      invariant covered == Covered(patches[..i])
      invariant DistinctNames(patches[..i])
      invariant forall j :: 0 <= j < i ==> AcceptablePatch(patches[j], internalFaces, faces, allowProcessor)
    {
      var p := patches[i];
      if p.name in names {
        var j :| 0 <= j < i && patches[j].name == p.name;
        return Rejected(DuplicatePatch(p.name));
      }
      if "processor" <= p.kind && !allowProcessor {
        return Rejected(ProcessorPatch(p.name));
      }
      if p.start < internalFaces || p.start + p.count > faces {
        return Rejected(PatchOutOfRange(p.name));
      }
      names := names + {p.name};
      assert patches[..i + 1][..i] == patches[..i];
      covered := covered + FaceRange(p.start, p.count);
    }
    assert patches[..|patches|] == patches;
    // Two lists have the same sorted form exactly when they are the same multiset.
    if multiset(covered) != multiset(FaceRange(internalFaces, faces - internalFaces)) {
      return Rejected(BoundaryNotCovered);
    }
    return Accepted(());
  }

  function SumOver(f: nat -> real, s: seq<nat>): real {
    if s == [] then 0.0 else SumOver(f, s[..|s| - 1]) + f(s[|s| - 1])
  }

  lemma {:induction false} SumOverConcat(f: nat -> real, a: seq<nat>, b: seq<nat>)
    ensures SumOver(f, a + b) == SumOver(f, a) + SumOver(f, b)
  {
    if b == [] {
      assert a + b == a;
    } else {
      assert (a + b)[..|a + b| - 1] == a + b[..|b| - 1];
      SumOverConcat(f, a, b[..|b| - 1]);
    }
  }

  lemma {:induction false} SumOverMultiset(f: nat -> real, a: seq<nat>, b: seq<nat>)
    requires multiset(a) == multiset(b)
    ensures SumOver(f, a) == SumOver(f, b)
    decreases |a|
  {
    if a == [] {
      assert |multiset(b)| == 0;
    } else {
      var last := a[|a| - 1];
      var a' := a[..|a| - 1];
      assert a == a' + [last];
      assert last in multiset(b);
      var i :| 0 <= i < |b| && b[i] == last;
      var b' := b[..i] + b[i + 1..];
      assert b == b[..i] + ([last] + b[i + 1..]);
      assert multiset(b') == multiset(b) - multiset{last};
      SumOverMultiset(f, a', b');
      SumOverConcat(f, b[..i], b[i + 1..]);
      SumOverConcat(f, b[..i], [last] + b[i + 1..]);
      SumOverConcat(f, [last], b[i + 1..]);
      assert SumOver(f, [last]) == SumOver(f, []) + f(last);
    }
  }

  /** Sum of a face quantity over each patch, then over the patches. */
  function PatchTotal(f: nat -> real, patches: seq<Patch>): real {
    if patches == [] then 0.0
    else
      var p := patches[|patches| - 1];
      PatchTotal(f, patches[..|patches| - 1]) + SumOver(f, FaceRange(p.start, p.count))
  }

  lemma {:induction false} PatchTotalIsCovered(f: nat -> real, patches: seq<Patch>)
    ensures PatchTotal(f, patches) == SumOver(f, Covered(patches))
  {
    if patches != [] {
      var p := patches[|patches| - 1];
      PatchTotalIsCovered(f, patches[..|patches| - 1]);
      SumOverConcat(f, Covered(patches[..|patches| - 1]), FaceRange(p.start, p.count));
    }
  }

  /** Summing any face quantity patch by patch counts each external face exactly once. */
  lemma PatchesCountEachExternalFaceOnce(f: nat -> real, patches: seq<Patch>, internalFaces: nat, faces: nat,
                                         allowProcessor: bool)
    requires CoversBoundary(patches, internalFaces, faces, allowProcessor)
    ensures PatchTotal(f, patches) == SumOver(f, FaceRange(internalFaces, faces - internalFaces))
  {
    PatchTotalIsCovered(f, patches);
    SumOverMultiset(f, Covered(patches), FaceRange(internalFaces, faces - internalFaces));
  }

  // ----- Face quantities over all cells -----

  /** What face f contributes to a cell: its value at the owner, minus it at the neighbour. */
  function Contribution(v: nat -> real, a: Addressing, cell: nat, f: nat): real
    requires |a.owner| == |a.faces| && f < |a.faces|
  {
    (if a.owner[f] == cell then v(f) else 0.0) -
    (if f < |a.neighbour| && a.neighbour[f] == cell then v(f) else 0.0)
  }

  /** A face quantity summed over the sides of a cell, counting the first k faces. */
  function CellSum(v: nat -> real, a: Addressing, cell: nat, k: nat): real
    requires |a.owner| == |a.faces| && k <= |a.faces|
  {
    if k == 0 then 0.0 else CellSum(v, a, cell, k - 1) + Contribution(v, a, cell, k - 1)
  }

  /** Total over the first n cells. */
  function CellsSum(v: nat -> real, a: Addressing, k: nat, n: nat): real
    requires |a.owner| == |a.faces| && k <= |a.faces|
  {
    if n == 0 then 0.0 else CellsSum(v, a, k, n - 1) + CellSum(v, a, n - 1, k)
  }

  /** One more face adds its value to its owner and takes it from its neighbour. */
  lemma {:induction false} CellsSumStep(v: nat -> real, a: Addressing, k: nat, n: nat)
    requires |a.owner| == |a.faces| && k < |a.faces|
    ensures CellsSum(v, a, k + 1, n) == CellsSum(v, a, k, n) +
      (if a.owner[k] < n then v(k) else 0.0) -
      (if k < |a.neighbour| && a.neighbour[k] < n then v(k) else 0.0)
  {
    if n > 0 {
      CellsSumStep(v, a, k, n - 1);
    }
  }

  ghost predicate CellsInRange(a: Addressing, cells: nat) {
    (forall f :: 0 <= f < |a.owner| ==> a.owner[f] < cells) &&
    (forall f :: 0 <= f < |a.neighbour| ==> a.neighbour[f] < cells)
  }

  lemma {:induction false} CellsSumPrefix(v: nat -> real, a: Addressing, cells: nat, k: nat)
    requires |a.owner| == |a.faces| && CellsInRange(a, cells) && |a.neighbour| <= |a.faces| && k <= |a.faces|
    ensures k <= |a.neighbour| ==> CellsSum(v, a, k, cells) == 0.0
    ensures k > |a.neighbour| ==>
      CellsSum(v, a, k, cells) == SumOver(v, FaceRange(|a.neighbour|, k - |a.neighbour|))
  {
    if k == 0 {
      NoFacesNoSum(v, a, cells);
    } else {
      CellsSumPrefix(v, a, cells, k - 1);
      CellsSumStep(v, a, k - 1, cells);
      if k > |a.neighbour| {
        var r := FaceRange(|a.neighbour|, k - |a.neighbour|);
        assert r[..|r| - 1] == FaceRange(|a.neighbour|, k - 1 - |a.neighbour|);
      }
    }
  }

  lemma {:induction false} NoFacesNoSum(v: nat -> real, a: Addressing, n: nat)
    requires |a.owner| == |a.faces|
    ensures CellsSum(v, a, 0, n) == 0.0
  {
    if n > 0 {
      NoFacesNoSum(v, a, n - 1);
    }
  }

  /** Main theorem: whatever is summed over the sides of every cell, internal faces cancel
      and what is left is the sum over the external faces, or patch by patch. */
  lemma InternalFacesCancel(v: nat -> real, a: Addressing, cells: nat, patches: seq<Patch>, allowProcessor: bool)
    requires |a.owner| == |a.faces| && CellsInRange(a, cells)
    requires CoversBoundary(patches, |a.neighbour|, |a.faces|, allowProcessor)
    ensures CellsSum(v, a, |a.faces|, cells) ==
            SumOver(v, FaceRange(|a.neighbour|, |a.faces| - |a.neighbour|)) ==
            PatchTotal(v, patches)
  {
    CellsSumPrefix(v, a, cells, |a.faces|);
    PatchesCountEachExternalFaceOnce(v, patches, |a.neighbour|, |a.faces|, allowProcessor);
  }

  lemma {:induction false} SidesSumConcat(v: nat -> real, s: seq<Side>, t: seq<Side>)
    ensures SidesSum(v, s + t) == SidesSum(v, s) + SidesSum(v, t)
  {
    if t == [] {
      assert s + t == s;
    } else {
      assert (s + t)[..|s + t| - 1] == s + t[..|t| - 1];
      SidesSumConcat(v, s, t[..|t| - 1]);
    }
  }

  lemma SidesAtSum(v: nat -> real, a: Addressing, cell: nat, f: nat)
    requires |a.owner| == |a.faces| && f < |a.faces|
    ensures SidesSum(v, SidesAt(a, cell, f)) == Contribution(v, a, cell, f)
  {
    var plus := if a.owner[f] == cell then [Side(f, true)] else [];
    var minus := if f < |a.neighbour| && a.neighbour[f] == cell then [Side(f, false)] else [];
    SidesSumConcat(v, plus, minus);
    assert [Side(f, true)][..0] == [] && [Side(f, false)][..0] == [];
    assert SidesSum(v, [Side(f, true)]) == v(f) && SidesSum(v, [Side(f, false)]) == -v(f);
  }

  /** The sides of one more face add its contribution. */
  lemma NextFaceSum(v: nat -> real, a: Addressing, cell: nat, k: nat)
    requires |a.owner| == |a.faces| && 0 < k <= |a.faces|
    ensures SidesSum(v, Sides(a, cell, k)) == SidesSum(v, Sides(a, cell, k - 1)) + Contribution(v, a, cell, k - 1)
  {
    SidesAtSum(v, a, cell, k - 1);
    SidesSumConcat(v, Sides(a, cell, k - 1), SidesAt(a, cell, k - 1));
  }

  lemma NextFaceSame(v: nat -> real, a: Addressing, cell: nat, k: nat)
    requires |a.owner| == |a.faces| && 0 < k <= |a.faces|
    requires SidesSum(v, Sides(a, cell, k - 1)) == CellSum(v, a, cell, k - 1)
    ensures SidesSum(v, Sides(a, cell, k)) == CellSum(v, a, cell, k)
  {
    NextFaceSum(v, a, cell, k);
  }

  /** Summing over a cell's list of sides is summing over its faces. */
  lemma {:induction false} SidesSumIsCellSum(v: nat -> real, a: Addressing, cell: nat, k: nat)
    requires |a.owner| == |a.faces| && k <= |a.faces|
    ensures SidesSum(v, Sides(a, cell, k)) == CellSum(v, a, cell, k)
    decreases k
  {
    if k > 0 {
      SidesSumIsCellSum(v, a, cell, k - 1);
      NextFaceSame(v, a, cell, k);
    }
  }

  // ----- What an acceptable mesh is -----

  predicate DistinctCorners(face: Face) {
    forall i, j :: 0 <= i < j < |face| ==> face[i] != face[j]
  }

  /** A simple polygon of nonzero area that passes the planarity and convexity tests. */
  predicate AcceptableFace(points: seq<Vec>, face: Face, shapeOk: seq<Vec> -> bool) {
    |face| >= 3 && DistinctCorners(face) && FaceInRange(points, face) &&
    FaceArea(points, face) != ZERO && shapeOk(Corners(points, face))
  }

  ghost predicate AcceptableFaces(points: seq<Vec>, a: Addressing, shapeOk: seq<Vec> -> bool, k: nat)
    requires |a.owner| == |a.faces| && k <= |a.faces|
  {
    forall f: nat :: f < k ==>
      AcceptableFace(points, a.faces[f], shapeOk) && (f < |a.neighbour| ==> a.owner[f] < a.neighbour[f])
  }

  function CellCount(cells: seq<nat>): nat {
    if cells == [] then 0
    else
      var before, last := CellCount(cells[..|cells| - 1]), cells[|cells| - 1];
      if before <= last then last + 1 else before
  }

  /** Every cell number below the largest one occurs. */
  ghost predicate Contiguous(cells: seq<nat>) {
    forall c: nat :: c < CellCount(cells) ==> c in cells
  }

  /** A cell is a closed oriented surface of positive volume. */
  ghost predicate AcceptableCell(v: nat -> real, a: Addressing, cell: nat)
    requires |a.owner| == |a.faces|
  {
    var sides := Sides(a, cell, |a.faces|);
    ClosedSurface(SidesEdges(a, sides)) && SidesSum(v, sides) > 0.0
  }

  ghost predicate AcceptableCells(v: nat -> real, a: Addressing, cells: nat)
    requires |a.owner| == |a.faces|
  {
    forall c: nat :: c < cells ==> AcceptableCell(v, a, c)
  }

  ghost predicate AcceptableMesh(points: seq<Vec>, origin: Vec, a: Addressing, patches: seq<Patch>,
                                 allowProcessor: bool, shapeOk: seq<Vec> -> bool) {
    points != [] && a.faces != [] && |a.owner| == |a.faces| && |a.neighbour| <= |a.faces| &&
    CellCount(a.owner + a.neighbour) <= 250_000 && Contiguous(a.owner + a.neighbour) &&
    CoversBoundary(patches, |a.neighbour|, |a.faces|, allowProcessor) &&
    AcceptableFaces(points, a, shapeOk, |a.faces|) &&
    AcceptableCells(PyramidVolumes(points, origin, a), a, CellCount(a.owner + a.neighbour))
  }

  function PointSum(points: seq<Vec>): Vec {
    if points == [] then ZERO else Add(PointSum(points[..|points| - 1]), points[|points| - 1])
  }

  /** The origin the reader measures from. */
  function Centroid(points: seq<Vec>): Vec
    requires points != []
  {
    Scale(1.0 / |points| as real, PointSum(points))
  }

  lemma {:induction false} CellCountBounds(cells: seq<nat>)
    ensures forall i :: 0 <= i < |cells| ==> cells[i] < CellCount(cells)
  {
    if cells != [] {
      CellCountBounds(cells[..|cells| - 1]);
    }
  }

  lemma AddressingInRange(a: Addressing)
    ensures CellsInRange(a, CellCount(a.owner + a.neighbour))
  {
    var all := a.owner + a.neighbour;
    CellCountBounds(all);
    assert forall f :: 0 <= f < |a.owner| ==> a.owner[f] == all[f];
    assert forall f :: 0 <= f < |a.neighbour| ==> a.neighbour[f] == all[|a.owner| + f];
  }

  lemma {:induction false} LoopEdgesNoLoops(face: Face, outward: bool, n: nat)
    requires |face| >= 3 && DistinctCorners(face) && n <= |face|
    ensures NoLoops(LoopEdges(face, outward, n))
  {
    if n > 0 {
      LoopEdgesNoLoops(face, outward, n - 1);
      assert face[n - 1] != face[if n == |face| then 0 else n];
    }
  }

  lemma {:induction false} SidesEdgesNoLoops(points: seq<Vec>, a: Addressing, sides: seq<Side>)
    requires ValidSides(points, a, sides)
    requires forall i :: 0 <= i < |sides| ==> DistinctCorners(a.faces[sides[i].face])
    ensures NoLoops(SidesEdges(a, sides))
  {
    if sides != [] {
      var s := sides[|sides| - 1];
      SidesEdgesNoLoops(points, a, sides[..|sides| - 1]);
      LoopEdgesNoLoops(a.faces[s.face], s.outward, |a.faces[s.face]|);
    }
  }

  /** The volumes of an acceptable mesh, whatever origin they are measured from, add up to
      the pyramid volumes of its patches. */
  lemma TotalVolumeIsBoundaryVolume(points: seq<Vec>, o: Vec, a: Addressing, patches: seq<Patch>,
                                    allowProcessor: bool, shapeOk: seq<Vec> -> bool)
    requires points != [] && AcceptableMesh(points, Centroid(points), a, patches, allowProcessor, shapeOk)
    ensures TotalVolume(points, Centroid(points), a, CellCount(a.owner + a.neighbour)) ==
            TotalVolume(points, o, a, CellCount(a.owner + a.neighbour)) ==
            PatchTotal(PyramidVolumes(points, o, a), patches)
  {
    var cells := CellCount(a.owner + a.neighbour);
    AddressingInRange(a);
    TotalVolumeIsCellsSum(points, o, a, cells);
    InternalFacesCancel(PyramidVolumes(points, o, a), a, cells, patches, allowProcessor);
    TotalVolumeShift(points, Centroid(points), o, a, shapeOk, cells);
  }

  ghost function TotalVolume(points: seq<Vec>, o: Vec, a: Addressing, n: nat): real
    requires |a.owner| == |a.faces|
  {
    if n == 0 then 0.0 else TotalVolume(points, o, a, n - 1) + SidesVolume(points, o, a, Sides(a, n - 1, |a.faces|))
  }

  lemma NextCellSame(points: seq<Vec>, o: Vec, a: Addressing, n: nat)
    requires |a.owner| == |a.faces| && n > 0
    requires TotalVolume(points, o, a, n - 1) == CellsSum(PyramidVolumes(points, o, a), a, |a.faces|, n - 1)
    ensures TotalVolume(points, o, a, n) == CellsSum(PyramidVolumes(points, o, a), a, |a.faces|, n)
  {
    SidesSumIsCellSum(PyramidVolumes(points, o, a), a, n - 1, |a.faces|);
  }

  lemma {:induction false} TotalVolumeIsCellsSum(points: seq<Vec>, o: Vec, a: Addressing, n: nat)
    requires |a.owner| == |a.faces|
    ensures TotalVolume(points, o, a, n) == CellsSum(PyramidVolumes(points, o, a), a, |a.faces|, n)
    decreases n
  {
    if n > 0 {
      TotalVolumeIsCellsSum(points, o, a, n - 1);
      NextCellSame(points, o, a, n);
    }
  }

  lemma TotalVolumeShift(points: seq<Vec>, o1: Vec, o2: Vec, a: Addressing, shapeOk: seq<Vec> -> bool, n: nat)
    requires |a.owner| == |a.faces| && AcceptableFaces(points, a, shapeOk, |a.faces|)
    requires AcceptableCells(PyramidVolumes(points, o1, a), a, n)
    ensures TotalVolume(points, o1, a, n) == TotalVolume(points, o2, a, n)
  {
    forall c: nat | c < n ensures SameVolume(points, o1, o2, a, c) {
      assert AcceptableCell(PyramidVolumes(points, o1, a), a, c);
      CellVolumeShift(points, o1, o2, a, shapeOk, c);
    }
    SameVolumesSameTotal(points, o1, o2, a, n);
  }

  ghost predicate SameVolume(points: seq<Vec>, o1: Vec, o2: Vec, a: Addressing, cell: nat)
    requires |a.owner| == |a.faces|
  {
    SidesVolume(points, o1, a, Sides(a, cell, |a.faces|)) == SidesVolume(points, o2, a, Sides(a, cell, |a.faces|))
  }

  lemma {:induction false} SameVolumesSameTotal(points: seq<Vec>, o1: Vec, o2: Vec, a: Addressing, n: nat)
    requires |a.owner| == |a.faces| && forall c: nat :: c < n ==> SameVolume(points, o1, o2, a, c)
    ensures TotalVolume(points, o1, a, n) == TotalVolume(points, o2, a, n)
  {
    if n > 0 {
      SameVolumesSameTotal(points, o1, o2, a, n - 1);
      assert SameVolume(points, o1, o2, a, n - 1);
    }
  }

  lemma CellVolumeShift(points: seq<Vec>, o1: Vec, o2: Vec, a: Addressing, shapeOk: seq<Vec> -> bool, cell: nat)
    requires |a.owner| == |a.faces| && AcceptableFaces(points, a, shapeOk, |a.faces|)
    requires ClosedSurface(SidesEdges(a, Sides(a, cell, |a.faces|)))
    ensures SameVolume(points, o1, o2, a, cell)
  {
    var sides := Sides(a, cell, |a.faces|);
    SidesEdgesNoLoops(points, a, sides);
    BalancedIffClosedSurface(SidesEdges(a, sides));
    VolumeIndependentOfOrigin(points, o1, o2, a, sides);
  }

  // ----- Assembly -----

  /** Area vector and pyramid volume of a face, in one pass over its fan. */
  method MeasureFace(p: seq<Vec>, origin: Vec) returns (area: Vec, volume: real)
    requires |p| >= 3
    ensures area == FanArea(p, |p|) && volume == FanVolume(p, origin, |p|)
  {
    area, volume := ZERO, 0.0;
    for i := 1 to |p| - 1
      invariant area == FanArea(p, i + 1) && volume == FanVolume(p, origin, i + 1)
    {
      var tri := Cross(Sub(p[i], p[0]), Sub(p[i + 1], p[0]));
      area := Add(area, Scale(0.5, tri));
      volume := volume + Dot(Sub(p[0], origin), tri) / 6.0;
    }
  }

  /** The corner after corner i on a face's loop. */
  function Next(face: Face, i: nat): nat
    requires i < |face|
  {
    face[if i + 1 == |face| then 0 else i + 1]
  }

  /** Enter the edge from a to b of a face with the given sign. */
  function PostEdge(ledger: Ledger, a: nat, b: nat, sign: int): Ledger {
    var key := if a < b then DirectedEdge(a, b) else DirectedEdge(b, a);
    var t := Lookup(ledger, key);
    ledger[key := Tally(t.count + 1, t.total + (if a < b then sign else -sign))]
  }

  lemma PostStep(before: seq<DirectedEdge>, face: Face, sign: int, i: nat)
    requires |face| >= 3 && DistinctCorners(face) && i < |face| && sign in {1, -1}
    ensures LedgerOf(before + LoopEdges(face, sign == 1, i + 1)) ==
            PostEdge(LedgerOf(before + LoopEdges(face, sign == 1, i)), face[i], Next(face, i), sign)
  {
    var es, es' := before + LoopEdges(face, sign == 1, i), before + LoopEdges(face, sign == 1, i + 1);
    assert es' == es + [LoopEdges(face, sign == 1, i + 1)[i]];
    assert es'[..|es'| - 1] == es;
  }

  /** Enter one face's edges in a cell's ledger. */
  method PostFace(ledger: Ledger, face: Face, sign: int, ghost before: seq<DirectedEdge>) returns (r: Ledger)
    requires |face| >= 3 && DistinctCorners(face) && sign in {1, -1}
    requires ledger == LedgerOf(before)
    ensures r == LedgerOf(before + LoopEdges(face, sign == 1, |face|))
  {
    r := ledger;
    assert before + LoopEdges(face, sign == 1, 0) == before;
    for i := 0 to |face|
      invariant r == LedgerOf(before + LoopEdges(face, sign == 1, i))
    {
      PostStep(before, face, sign, i);
      r := PostEdge(r, face[i], Next(face, i), sign);
    }
  }

  /** Accumulated state of a cell after some of its sides. */
  ghost predicate CellState(points: seq<Vec>, v: nat -> real, a: Addressing, sides: seq<Side>,
                            volume: real, closure: Vec, ledger: Ledger) {
    ValidSides(points, a, sides) && volume == SidesSum(v, sides) &&
    closure == SidesArea(points, a, sides) && ledger == LedgerOf(SidesEdges(a, sides))
  }

  /** Add one side to a cell's volume, area vector and ledger. */
  method AddSide(ghost points: seq<Vec>, ghost v: nat -> real, ghost a: Addressing, ghost sides: seq<Side>,
                 ghost side: Side, face: Face, sign: int, faceArea: Vec, faceVolume: real,
                 volume0: real, closure0: Vec, ledger0: Ledger)
    returns (volume: real, closure: Vec, ledger: Ledger)
    requires CellState(points, v, a, sides, volume0, closure0, ledger0)
    requires sign in {1, -1} && side.outward == (sign == 1) && ValidSide(points, a, side)
    requires face == a.faces[side.face] && DistinctCorners(face)
    requires faceArea == FaceArea(points, face) && faceVolume == v(side.face)
    ensures CellState(points, v, a, sides + [side], volume, closure, ledger)
  {
    volume := volume0 + Signed(sign == 1, faceVolume);
    closure := Add(closure0, SignedVec(sign == 1, faceArea));
    ledger := PostFace(ledger0, face, sign, SidesEdges(a, sides));
  }

  ghost predicate CellStates(points: seq<Vec>, v: nat -> real, a: Addressing, k: nat, cells: nat,
                             volumes: seq<real>, closure: seq<Vec>, edges: seq<Ledger>)
    requires |a.owner| == |a.faces| && k <= |a.faces|
  {
    |volumes| == |closure| == |edges| == cells &&
    forall c: nat :: c < cells ==>
      CellState(points, v, a, Sides(a, c, k), volumes[c], closure[c], edges[c])
  }

  /** Measure one face and add it to its owner and, if it is internal, its neighbour. */
  method AddFace(ghost points: seq<Vec>, ghost v: nat -> real, a: Addressing, k: nat, ghost cells: nat,
                 ghost shapeOk: seq<Vec> -> bool,
                 area: Vec, volume: real, volumes0: seq<real>, closure0: seq<Vec>, edges0: seq<Ledger>)
    returns (volumes: seq<real>, closure: seq<Vec>, edges: seq<Ledger>)
    requires |a.owner| == |a.faces| && k < |a.faces| && CellsInRange(a, cells)
    requires AcceptableFace(points, a.faces[k], shapeOk) && (k < |a.neighbour| ==> a.owner[k] < a.neighbour[k])
    requires area == FaceArea(points, a.faces[k]) && volume == v(k)
    requires CellStates(points, v, a, k, cells, volumes0, closure0, edges0)
    ensures CellStates(points, v, a, k + 1, cells, volumes, closure, edges)
  {
    volumes, closure, edges := volumes0, closure0, edges0;
    var cell := a.owner[k];
    var vol, area', ledger := AddSide(points, v, a, Sides(a, cell, k), Side(k, true), a.faces[k], 1, area, volume,
                           volumes[cell], closure[cell], edges[cell]);
    volumes, closure, edges := volumes[cell := vol], closure[cell := area'], edges[cell := ledger];
    if k < |a.neighbour| {
      var other := a.neighbour[k];
      vol, area', ledger := AddSide(points, v, a, Sides(a, other, k), Side(k, false), a.faces[k], -1, area, volume,
                         volumes[other], closure[other], edges[other]);
      volumes, closure, edges := volumes[other := vol], closure[other := area'], edges[other := ledger];
    }
    forall d: nat | d < cells
      ensures CellState(points, v, a, Sides(a, d, k + 1), volumes[d], closure[d], edges[d])
    {
      assert Sides(a, d, k + 1) == Sides(a, d, k) + SidesAt(a, d, k);
      if d == cell {
        assert SidesAt(a, d, k) == [Side(k, true)];
      } else if k < |a.neighbour| && d == a.neighbour[k] {
        assert SidesAt(a, d, k) == [Side(k, false)];
      } else {
        assert Sides(a, d, k + 1) == Sides(a, d, k);
      }
    }
  }

  method CountCells(cells: seq<nat>) returns (n: nat)
    ensures n == CellCount(cells)
  {
    n := 0;
    for i := 0 to |cells|
      invariant n == CellCount(cells[..i])
    {
      assert cells[..i + 1][..i] == cells[..i];
      if n <= cells[i] {
        n := cells[i] + 1;
      }
    }
    assert cells[..|cells|] == cells;
  }

  method SumPoints(points: seq<Vec>) returns (sum: Vec)
    ensures sum == PointSum(points)
  {
    sum := ZERO;
    for i := 0 to |points|
      invariant sum == PointSum(points[..i])
    {
      assert points[..i + 1][..i] == points[..i];
      sum := Add(sum, points[i]);
    }
    assert points[..|points|] == points;
  }

  datatype FaceMeasure = FaceMeasure(area: Vec, volume: real)

  /** The tests on one face, in order, and its area vector and pyramid volume. */
  method CheckFace(points: seq<Vec>, origin: Vec, a: Addressing, k: nat, shapeOk: seq<Vec> -> bool)
    returns (r: Result<FaceMeasure>)
    requires |a.owner| == |a.faces| && k < |a.faces|
    ensures r.Accepted? <==>
      (AcceptableFace(points, a.faces[k], shapeOk) && (k < |a.neighbour| ==> a.owner[k] < a.neighbour[k]))
    ensures r.Accepted? ==>
      r.value == FaceMeasure(FaceArea(points, a.faces[k]), FaceVolume(points, origin, a.faces[k]))
  {
    var face := a.faces[k];
    if |face| < 3 || !DistinctCorners(face) || !FaceInRange(points, face) {
      return Rejected(DegenerateFace(k));
    }
    var p := Corners(points, face);
    var area, volume := MeasureFace(p, origin);
    if area == ZERO {
      return Rejected(ZeroArea(k));
    }
    if !shapeOk(p) {
      return Rejected(UnsupportedShape(k));
    }
    if k < |a.neighbour| && a.owner[k] >= a.neighbour[k] {
      return Rejected(InvalidOrientation(k));
    }
    return Accepted(FaceMeasure(area, volume));
  }

  datatype CellData = CellData(volumes: seq<real>, closure: seq<Vec>, edges: seq<Ledger>)

  lemma NoFacesYet(points: seq<Vec>, v: nat -> real, a: Addressing, cells: nat, volumes: seq<real>,
                   closure: seq<Vec>, edges: seq<Ledger>)
    requires |a.owner| == |a.faces| && |volumes| == |closure| == |edges| == cells
    requires forall c: nat :: c < cells ==> volumes[c] == 0.0 && closure[c] == ZERO && edges[c] == map[]
    ensures CellStates(points, v, a, 0, cells, volumes, closure, edges)
  {}

  lemma MeasuredVolume(points: seq<Vec>, origin: Vec, a: Addressing, k: nat)
    requires k < |a.faces| && FaceInRange(points, a.faces[k])
    ensures PyramidVolumes(points, origin, a)(k) == FaceVolume(points, origin, a.faces[k])
  {}

  method AccumulateFaces(points: seq<Vec>, origin: Vec, a: Addressing, cells: nat, shapeOk: seq<Vec> -> bool)
    returns (r: Result<CellData>)
    requires |a.owner| == |a.faces| && CellsInRange(a, cells)
    ensures r.Accepted? <==> AcceptableFaces(points, a, shapeOk, |a.faces|)
    ensures r.Accepted? ==>
      CellStates(points, PyramidVolumes(points, origin, a), a, |a.faces|, cells,
                 r.value.volumes, r.value.closure, r.value.edges)
  {
    ghost var v := PyramidVolumes(points, origin, a);
    var volumes, closure, edges := seq(cells, _ => 0.0), seq(cells, _ => ZERO), seq(cells, _ => map[]);
    NoFacesYet(points, v, a, cells, volumes, closure, edges);
    for k := 0 to |a.faces|
      invariant AcceptableFaces(points, a, shapeOk, k)
      invariant CellStates(points, v, a, k, cells, volumes, closure, edges)
    {
      var face := CheckFace(points, origin, a, k, shapeOk);
      if face.Rejected? {
        return Rejected(face.error);
      }
      MeasuredVolume(points, origin, a, k);
      volumes, closure, edges :=
        AddFace(points, v, a, k, cells, shapeOk, face.value.area, face.value.volume, volumes, closure, edges);
    }
    return Accepted(CellData(volumes, closure, edges));
  }

  /** The accumulated data decide each cell; the area test never decides alone. */
  ghost predicate Decides(v: nat -> real, a: Addressing, cells: nat, data: CellData)
    requires |a.owner| == |a.faces|
  {
    |data.volumes| == |data.closure| == |data.edges| == cells &&
    forall c: nat :: c < cells ==>
      (Balanced(data.edges[c]) ==> data.closure[c] == ZERO) &&
      (AcceptableCell(v, a, c) <==> data.volumes[c] > 0.0 && Balanced(data.edges[c]))
  }

  lemma StatesDecide(points: seq<Vec>, v: nat -> real, a: Addressing, cells: nat, shapeOk: seq<Vec> -> bool,
                     data: CellData)
    requires |a.owner| == |a.faces| && AcceptableFaces(points, a, shapeOk, |a.faces|)
    requires CellStates(points, v, a, |a.faces|, cells, data.volumes, data.closure, data.edges)
    ensures Decides(v, a, cells, data)
  {
    forall c: nat | c < cells
      ensures (Balanced(data.edges[c]) ==> data.closure[c] == ZERO) &&
        (AcceptableCell(v, a, c) <==> data.volumes[c] > 0.0 && Balanced(data.edges[c]))
    {
      CellTest(points, v, a, shapeOk, c, data.volumes[c], data.closure[c], data.edges[c]);
    }
  }

  method TestCells(ghost v: nat -> real, ghost a: Addressing, cells: nat, data: CellData) returns (ok: bool)
    requires |a.owner| == |a.faces| && Decides(v, a, cells, data)
    ensures ok <==> AcceptableCells(v, a, cells)
  {
    for c := 0 to cells
      invariant forall d: nat :: d < c ==> data.volumes[d] > 0.0 && Balanced(data.edges[d])
    {
      if data.volumes[c] <= 0.0 || data.closure[c] != ZERO || !Balanced(data.edges[c]) {
        return false;
      }
    }
    return true;
  }

  /** Read a mesh from its parsed lists.  It is accepted exactly when it is acceptable, and
      then carries each cell's volume. */
  method ReadMesh(points: seq<Vec>, a: Addressing, patches: seq<Patch>, allowProcessor: bool,
                  shapeOk: seq<Vec> -> bool)
    returns (r: Result<Mesh>)
    ensures r.Accepted? <==>
      (points != [] && AcceptableMesh(points, Centroid(points), a, patches, allowProcessor, shapeOk))
    ensures r.Accepted? ==> r.value.points == points && r.value.addressing == a && r.value.patches == patches
    ensures r.Accepted? ==> |r.value.volumes| == CellCount(a.owner + a.neighbour)
    ensures r.Accepted? ==> forall c: nat :: c < |r.value.volumes| ==>
      r.value.volumes[c] == SidesVolume(points, Centroid(points), a, Sides(a, c, |a.faces|))
  {
    if points == [] || a.faces == [] || |a.owner| != |a.faces| || |a.neighbour| > |a.faces| {
      return Rejected(InvalidAddressing);
    }
    var cells := CountCells(a.owner + a.neighbour);
    AddressingInRange(a);
    if cells > MAX_ITEMS || exists c: nat :: c < cells && c !in a.owner + a.neighbour {
      return Rejected(NoncontiguousCells);
    }
    var boundary := ReadBoundary(patches, |a.neighbour|, |a.faces|, allowProcessor);
    if boundary.Rejected? {
      return Rejected(boundary.error);
    }
    var sum := SumPoints(points);
    var origin := Scale(1.0 / |points| as real, sum);
    var data := AccumulateFaces(points, origin, a, cells, shapeOk);
    if data.Rejected? {
      return Rejected(data.error);
    }
    StatesDecide(points, PyramidVolumes(points, origin, a), a, cells, shapeOk, data.value);
    var ok := TestCells(PyramidVolumes(points, origin, a), a, cells, data.value);
    if !ok {
      return Rejected(CellsNotClosed);
    }
    return Accepted(Mesh(points, a, patches, data.value.volumes));
  }

  /** The three final tests on a cell, of which the area test is implied by the others. */
  lemma CellTest(points: seq<Vec>, v: nat -> real, a: Addressing, shapeOk: seq<Vec> -> bool, cell: nat,
                 volume: real, closure: Vec, ledger: Ledger)
    requires |a.owner| == |a.faces| && AcceptableFaces(points, a, shapeOk, |a.faces|)
    requires CellState(points, v, a, Sides(a, cell, |a.faces|), volume, closure, ledger)
    ensures Balanced(ledger) ==> closure == ZERO
    ensures AcceptableCell(v, a, cell) <==> volume > 0.0 && Balanced(ledger)
  {
    var sides := Sides(a, cell, |a.faces|);
    SidesEdgesNoLoops(points, a, sides);
    BalancedIffClosedSurface(SidesEdges(a, sides));
    if Balanced(ledger) {
      BalancedCellIsClosed(points, a, sides);
    }
  }
}
