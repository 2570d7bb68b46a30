/** What the mesh reader measures, in coordinates: a mesh of one tetrahedron is accepted exactly
    when its faces point outward, and its volume is a sixth of the determinant of its edges. */
module MeshVolumes {
  import opened MeshGeometry
  import opened MeshAssembly

  /** Six times the signed volume of the tetrahedron with these corners. */
  function EdgeDeterminant(a: Vec, b: Vec, c: Vec, d: Vec): real {
    (b.x - a.x) * ((c.y - a.y) * (d.z - a.z) - (c.z - a.z) * (d.y - a.y)) -
    (b.y - a.y) * ((c.x - a.x) * (d.z - a.z) - (c.z - a.z) * (d.x - a.x)) +
    (b.z - a.z) * ((c.x - a.x) * (d.y - a.y) - (c.y - a.y) * (d.x - a.x))
  }

  /** The faces of the tetrahedron 0, 1, 2, 3; seen from outside they run counterclockwise when
      the determinant of its corners is positive. */
  const OUTWARD: seq<Face> := [[0, 2, 1], [0, 1, 3], [0, 3, 2], [1, 2, 3]]

  /** The same faces run through the other way. */
  const INWARD: seq<Face> := [[0, 1, 2], [0, 3, 1], [0, 2, 3], [1, 3, 2]]

  function OneCell(faces: seq<Face>): Addressing {
    Addressing(faces, seq(|faces|, i => 0), [])
  }

  function Walls(count: nat): seq<Patch> {
    [Patch("walls", "wall", 0, count)]
  }

  // ----- Triple products -----

  function Triple(u: Vec, v: Vec, w: Vec): real {
    Dot(u, Cross(v, w))
  }

  lemma DotSub(a: Vec, u: Vec, v: Vec)
    ensures Dot(a, Sub(u, v)) == Dot(a, u) - Dot(a, v)
  {}

  lemma DotAdd(a: Vec, u: Vec, v: Vec)
    ensures Dot(a, Add(u, v)) == Dot(a, u) + Dot(a, v)
  {}

  lemma CrossSub(u: Vec, v: Vec, w: Vec)
    ensures Cross(Sub(u, w), Sub(v, w)) == Sub(Cross(u, v), Add(Cross(u, w), Cross(w, v)))
  {
    SubProduct(u.y, u.z, v.y, v.z, w.y, w.z);
    SubProduct(u.z, u.x, v.z, v.x, w.z, w.x);
    SubProduct(u.x, u.y, v.x, v.y, w.x, w.y);
  }

  lemma SubProduct(a: real, a': real, b: real, b': real, c: real, c': real)
    ensures Determinant(a - c, a' - c', b - c, b' - c') ==
      Determinant(a, a', b, b') - (Determinant(a, a', c, c') + Determinant(c, c', b, b'))
  {
    assert (a - c) * (b' - c') == a * b' - a * c' - c * b' + c * c';
    assert (a' - c') * (b - c) == a' * b - a' * c - c' * b + c' * c;
  }

  lemma TripleRotates(u: Vec, v: Vec, w: Vec)
    ensures Triple(u, v, w) == Triple(v, w, u) == Triple(w, u, v)
    ensures Triple(u, w, v) == -Triple(u, v, w)
  {
    var p1, p2, p3 := u.x * (v.y * w.z), u.x * (v.z * w.y), u.y * (v.z * w.x);
    var p4, p5, p6 := u.y * (v.x * w.z), u.z * (v.x * w.y), u.z * (v.y * w.x);
    assert Triple(u, v, w) == p1 - p2 + p3 - p4 + p5 - p6;
    assert Triple(u, w, v) == p2 - p1 + p4 - p3 + p6 - p5;
    assert Triple(v, w, u) == p1 - p2 + p3 - p4 + p5 - p6;
    assert Triple(w, u, v) == p1 - p2 + p3 - p4 + p5 - p6;
  }

  lemma TripleOfRepeated(u: Vec, v: Vec)
    ensures Triple(u, u, v) == 0.0 && Triple(u, v, u) == 0.0
  {
    TripleRotates(u, u, v);
    TripleRotates(u, v, u);
    TripleRotates(v, u, u);
  }

  lemma DeterminantIsTriple(a: Vec, b: Vec, c: Vec, d: Vec)
    ensures EdgeDeterminant(a, b, c, d) == Triple(Sub(b, a), Sub(c, a), Sub(d, a))
  {
    var u, v, w := Sub(b, a), Sub(c, a), Sub(d, a);
    assert u.y * (v.z * w.x - v.x * w.z) == -(u.y * (v.x * w.z - v.z * w.x));
  }

  /** The face opposite to the first corner spans the same volume as the three edges. */
  lemma FarFace(u: Vec, v: Vec, w: Vec)
    ensures Dot(u, Cross(Sub(v, u), Sub(w, u))) == Triple(u, v, w)
  {
    CrossSub(v, w, u);
    DotSub(u, Cross(v, w), Add(Cross(v, u), Cross(u, w)));
    DotAdd(u, Cross(v, u), Cross(u, w));
    TripleOfRepeated(u, v);
    TripleOfRepeated(u, w);
  }

  // ----- Faces of the tetrahedron -----

  lemma TriangleMeasures(points: seq<Vec>, face: Face, origin: Vec)
    requires FaceInRange(points, face) && |face| == 3
    ensures FaceArea(points, face) ==
      Scale(0.5, Cross(Sub(points[face[1]], points[face[0]]), Sub(points[face[2]], points[face[0]])))
    ensures FaceVolume(points, origin, face) ==
      Dot(Sub(points[face[0]], origin),
          Cross(Sub(points[face[1]], points[face[0]]), Sub(points[face[2]], points[face[0]]))) / 6.0
  {
    var p := Corners(points, face);
    assert FanArea(p, 3) == Add(FanArea(p, 2), Scale(0.5, Triangle(p, 1)));
    assert FanVolume(p, origin, 3) == FanVolume(p, origin, 2) + Dot(Sub(p[0], origin), Triangle(p, 1)) / 6.0;
  }

  lemma ShiftedEdges(a: Vec, b: Vec, c: Vec)
    ensures Sub(Sub(c, a), Sub(b, a)) == Sub(c, b)
  {}

  lemma DotZero(v: Vec)
    ensures Dot(ZERO, v) == 0.0 && Dot(v, ZERO) == 0.0
  {}

  /** Pyramids from the first corner: only the far face has a volume. */
  lemma FaceVolumes(points: seq<Vec>, face: Face)
    requires |points| == 4 && |face| == 3 && FaceInRange(points, face)
    ensures face[0] == 0 ==> FaceVolume(points, points[0], face) == 0.0
    ensures face[0] == 1 ==>
      FaceVolume(points, points[0], face) ==
      Triple(Sub(points[1], points[0]), Sub(points[face[1]], points[0]), Sub(points[face[2]], points[0])) / 6.0
  {
    var a, b := points[0], points[1];
    TriangleMeasures(points, face, a);
    DotZero(Cross(Sub(points[face[1]], a), Sub(points[face[2]], a)));
    FarFace(Sub(b, a), Sub(points[face[1]], a), Sub(points[face[2]], a));
    ShiftedEdges(a, b, points[face[1]]);
    ShiftedEdges(a, b, points[face[2]]);
  }

  lemma FlatFace(points: seq<Vec>, face: Face, far: Vec)
    requires |face| == 3 && FaceInRange(points, face) && FaceArea(points, face) == ZERO
    ensures Triple(Sub(far, points[face[0]]), Sub(points[face[1]], points[face[0]]),
                   Sub(points[face[2]], points[face[0]])) == 0.0
  {
    var v, w := Sub(points[face[1]], points[face[0]]), Sub(points[face[2]], points[face[0]]);
    TriangleMeasures(points, face, ZERO);
    assert Scale(0.5, Cross(v, w)) == ZERO;
    assert Cross(v, w) == ZERO;
    DotZero(Sub(far, points[face[0]]));
  }

  // ----- The cell -----

  /** A face list of the tetrahedron: each triangle leaves out one corner. */
  predicate TetrahedronFaces(faces: seq<Face>) {
    faces == OUTWARD || faces == INWARD
  }

  function AllSides(count: nat): seq<Side> {
    seq(count, i requires 0 <= i < count => Side(i, true))
  }

  lemma {:induction false} SidesOfOneCell(faces: seq<Face>, k: nat)
    requires k <= |faces|
    ensures Sides(OneCell(faces), 0, k) == AllSides(k)
  {
    if k > 0 {
      SidesOfOneCell(faces, k - 1);
      assert AllSides(k) == AllSides(k - 1) + [Side(k - 1, true)];
    }
  }

  /** The directed edges of a triangle. */
  function Around(face: Face): seq<DirectedEdge>
    requires |face| == 3
  {
    [DirectedEdge(face[0], face[1]), DirectedEdge(face[1], face[2]), DirectedEdge(face[2], face[0])]
  }

  lemma TriangleEdges(face: Face)
    requires |face| == 3
    ensures LoopEdges(face, true, 3) == Around(face)
  {
    assert LoopEdges(face, true, 0) == [];
    assert LoopEdges(face, true, 1) == [DirectedEdge(face[0], face[1])];
    assert LoopEdges(face, true, 2) == [DirectedEdge(face[0], face[1]), DirectedEdge(face[1], face[2])];
  }

  lemma EdgesStep(faces: seq<Face>, k: nat)
    requires 0 < k <= |faces| && |faces[k - 1]| == 3
    ensures SidesEdges(OneCell(faces), AllSides(k)) ==
      SidesEdges(OneCell(faces), AllSides(k - 1)) + Around(faces[k - 1])
  {
    assert AllSides(k)[..k - 1] == AllSides(k - 1);
    TriangleEdges(faces[k - 1]);
  }

  lemma FourTriangles(faces: seq<Face>)
    requires |faces| == 4 && forall i :: 0 <= i < 4 ==> |faces[i]| == 3
    ensures SidesEdges(OneCell(faces), AllSides(4)) ==
      Around(faces[0]) + Around(faces[1]) + Around(faces[2]) + Around(faces[3])
  {
    EdgesStep(faces, 1);
    EdgesStep(faces, 2);
    EdgesStep(faces, 3);
    EdgesStep(faces, 4);
  }

  /** How often the triangle p, q, r has the edge from a to b. */
  function On(p: nat, q: nat, r: nat, a: nat, b: nat): nat {
    if (a == p && b == q) || (a == q && b == r) || (a == r && b == p) then 1 else 0
  }

  lemma UsesOfTriangle(face: Face, a: nat, b: nat)
    requires |face| == 3 && DistinctCorners(face)
    ensures Uses(Around(face), a, b) == On(face[0], face[1], face[2], a, b)
    ensures NoLoops(Around(face))
  {
    assert multiset(Around(face)) ==
      multiset{DirectedEdge(face[0], face[1]), DirectedEdge(face[1], face[2]), DirectedEdge(face[2], face[0])};
  }

  function FourOn(f: Face, g: Face, h: Face, k: Face, a: nat, b: nat): nat
    requires |f| == |g| == |h| == |k| == 3
  {
    On(f[0], f[1], f[2], a, b) + On(g[0], g[1], g[2], a, b) + On(h[0], h[1], h[2], a, b) + On(k[0], k[1], k[2], a, b)
  }

  lemma UsesOfFour(f: Face, g: Face, h: Face, k: Face, a: nat, b: nat)
    requires |f| == |g| == |h| == |k| == 3
    requires DistinctCorners(f) && DistinctCorners(g) && DistinctCorners(h) && DistinctCorners(k)
    ensures Uses(Around(f) + Around(g) + Around(h) + Around(k), a, b) == FourOn(f, g, h, k, a, b)
    ensures NoLoops(Around(f) + Around(g) + Around(h) + Around(k))
  {
    UsesOfTriangle(f, a, b);
    UsesOfTriangle(g, a, b);
    UsesOfTriangle(h, a, b);
    UsesOfTriangle(k, a, b);
    UsesConcat(Around(f), Around(g), a, b);
    UsesConcat(Around(f) + Around(g), Around(h), a, b);
    UsesConcat(Around(f) + Around(g) + Around(h), Around(k), a, b);
  }

  lemma UsesConcat(es: seq<DirectedEdge>, more: seq<DirectedEdge>, a: nat, b: nat)
    ensures Uses(es + more, a, b) == Uses(es, a, b) + Uses(more, a, b)
    ensures NoLoops(es) && NoLoops(more) ==> NoLoops(es + more)
  {}

  /** Four corners, each joined to each. */
  function Joined(a: nat, b: nat): nat {
    if a != b && a < 4 && b < 4 then 1 else 0
  }

  lemma ClosedWhenJoined(es: seq<DirectedEdge>)
    requires forall a: nat, b: nat :: Uses(es, a, b) == Joined(a, b)
    ensures ClosedSurface(es)
  {
    forall a: nat, b: nat ensures Uses(es, a, b) == Uses(es, b, a) <= 1 {
      assert Uses(es, a, b) == Joined(a, b) && Uses(es, b, a) == Joined(b, a);
    }
  }

  lemma OutwardPaired(a: nat, b: nat)
    ensures On(0, 2, 1, a, b) + On(0, 1, 3, a, b) + On(0, 3, 2, a, b) + On(1, 2, 3, a, b) == Joined(a, b)
  {}

  lemma InwardPaired(a: nat, b: nat)
    ensures On(0, 1, 2, a, b) + On(0, 3, 1, a, b) + On(0, 2, 3, a, b) + On(1, 3, 2, a, b) == Joined(a, b)
  {}

  lemma FacesPaired(faces: seq<Face>, a: nat, b: nat)
    requires TetrahedronFaces(faces)
    ensures FourOn(faces[0], faces[1], faces[2], faces[3], a, b) == Joined(a, b)
  {
    OutwardPaired(a, b);
    InwardPaired(a, b);
  }

  lemma TetrahedronShape(faces: seq<Face>)
    requires TetrahedronFaces(faces)
    ensures |faces| == 4 && forall i :: 0 <= i < 4 ==> |faces[i]| == 3 && DistinctCorners(faces[i])
  {}

  lemma TrianglesJoined(faces: seq<Face>, es: seq<DirectedEdge>)
    requires TetrahedronFaces(faces)
    requires es == Around(faces[0]) + Around(faces[1]) + Around(faces[2]) + Around(faces[3])
    ensures NoLoops(es) && forall a: nat, b: nat :: Uses(es, a, b) == Joined(a, b)
  {
    TetrahedronShape(faces);
    UsesOfFour(faces[0], faces[1], faces[2], faces[3], 0, 0);
    forall a: nat, b: nat ensures Uses(es, a, b) == Joined(a, b) {
      UsesOfFour(faces[0], faces[1], faces[2], faces[3], a, b);
      FacesPaired(faces, a, b);
    }
  }

  lemma TetrahedronCloses(faces: seq<Face>)
    requires TetrahedronFaces(faces)
    ensures ClosedSurface(SidesEdges(OneCell(faces), AllSides(4)))
    ensures NoLoops(SidesEdges(OneCell(faces), AllSides(4)))
  {
    TetrahedronShape(faces);
    FourTriangles(faces);
    var es := Around(faces[0]) + Around(faces[1]) + Around(faces[2]) + Around(faces[3]);
    TrianglesJoined(faces, es);
    ClosedWhenJoined(es);
  }

  lemma SumOfSides(v: nat -> real)
    ensures SidesSum(v, AllSides(4)) == v(0) + v(1) + v(2) + v(3)
  {
    assert AllSides(4)[..3] == AllSides(3) && AllSides(3)[..2] == AllSides(2);
    assert AllSides(2)[..1] == AllSides(1) && AllSides(1)[..0] == [];
  }

  lemma OutwardFaceVolumes(points: seq<Vec>, u: Vec, v: Vec, w: Vec)
    requires |points| == 4 && u == Sub(points[1], points[0]) && v == Sub(points[2], points[0])
    requires w == Sub(points[3], points[0])
    ensures FaceVolume(points, points[0], [0, 2, 1]) == 0.0 && FaceVolume(points, points[0], [0, 1, 3]) == 0.0
    ensures FaceVolume(points, points[0], [0, 3, 2]) == 0.0
    ensures FaceVolume(points, points[0], [1, 2, 3]) == Triple(u, v, w) / 6.0
  {
    FaceVolumes(points, [0, 2, 1]);
    FaceVolumes(points, [0, 1, 3]);
    FaceVolumes(points, [0, 3, 2]);
    FaceVolumes(points, [1, 2, 3]);
  }

  lemma InwardFaceVolumes(points: seq<Vec>, u: Vec, v: Vec, w: Vec)
    requires |points| == 4 && u == Sub(points[1], points[0]) && v == Sub(points[2], points[0])
    requires w == Sub(points[3], points[0])
    ensures FaceVolume(points, points[0], [0, 1, 2]) == 0.0 && FaceVolume(points, points[0], [0, 3, 1]) == 0.0
    ensures FaceVolume(points, points[0], [0, 2, 3]) == 0.0
    ensures FaceVolume(points, points[0], [1, 3, 2]) == Triple(u, w, v) / 6.0
  {
    FaceVolumes(points, [0, 1, 2]);
    FaceVolumes(points, [0, 3, 1]);
    FaceVolumes(points, [0, 2, 3]);
    FaceVolumes(points, [1, 3, 2]);
  }

  /** The volume of the cell measured from its first corner. */
  lemma VolumeFromCorner(points: seq<Vec>)
    requires |points| == 4
    ensures var det := EdgeDeterminant(points[0], points[1], points[2], points[3]);
      SidesVolume(points, points[0], OneCell(OUTWARD), AllSides(4)) == det / 6.0 &&
      SidesVolume(points, points[0], OneCell(INWARD), AllSides(4)) == -det / 6.0
  {
    var u, v, w := Sub(points[1], points[0]), Sub(points[2], points[0]), Sub(points[3], points[0]);
    DeterminantIsTriple(points[0], points[1], points[2], points[3]);
    TripleRotates(u, v, w);
    OutwardFaceVolumes(points, u, v, w);
    InwardFaceVolumes(points, u, v, w);
    SumOfSides(PyramidVolumes(points, points[0], OneCell(OUTWARD)));
    SumOfSides(PyramidVolumes(points, points[0], OneCell(INWARD)));
  }

  lemma CellVolume(points: seq<Vec>, faces: seq<Face>, origin: Vec)
    requires |points| == 4 && TetrahedronFaces(faces)
    ensures SidesVolume(points, origin, OneCell(faces), AllSides(4)) ==
      SidesVolume(points, points[0], OneCell(faces), AllSides(4))
  {
    var a := OneCell(faces);
    TetrahedronCloses(faces);
    forall i | 0 <= i < 4 ensures ValidSide(points, a, AllSides(4)[i]) {}
    CancelsIffPaired(SidesEdges(a, AllSides(4)));
    VolumeIndependentOfOrigin(points, origin, points[0], a, AllSides(4));
  }

  // ----- Reading the mesh -----

  /** A tetrahedron with a volume has no flat face. */
  lemma FacesNotFlat(points: seq<Vec>, faces: seq<Face>, i: nat)
    requires |points| == 4 && TetrahedronFaces(faces) && i < 4
    requires EdgeDeterminant(points[0], points[1], points[2], points[3]) != 0.0
    ensures FaceArea(points, faces[i]) != ZERO
  {
    var a, b, c, d := points[0], points[1], points[2], points[3];
    var u, v, w := Sub(b, a), Sub(c, a), Sub(d, a);
    DeterminantIsTriple(a, b, c, d);
    TripleRotates(u, v, w);
    TripleRotates(v, u, w);
    if FaceArea(points, faces[i]) == ZERO {
      if faces[i][0] == 0 {
        FlatFace(points, faces[i], points[if i == 0 then 3 else if i == 1 then 2 else 1]);
      } else {
        FarCornerFlat(points, faces[i]);
      }
    }
  }

  lemma FarCornerFlat(points: seq<Vec>, face: Face)
    requires |points| == 4 && |face| == 3 && FaceInRange(points, face) && face[0] == 1
    requires FaceArea(points, face) == ZERO
    ensures Triple(Sub(points[1], points[0]), Sub(points[face[1]], points[0]), Sub(points[face[2]], points[0])) == 0.0
  {
    var a, b, p, q := points[0], points[1], points[face[1]], points[face[2]];
    TriangleMeasures(points, face, ZERO);
    assert Scale(0.5, Cross(Sub(p, b), Sub(q, b))) == ZERO;
    assert Cross(Sub(p, b), Sub(q, b)) == ZERO;
    FarFace(Sub(b, a), Sub(p, a), Sub(q, a));
    ShiftedEdges(a, b, p);
    ShiftedEdges(a, b, q);
    DotZero(Sub(b, a));
  }

  predicate ShapesOk(points: seq<Vec>, faces: seq<Face>, shapeOk: seq<Vec> -> bool)
    requires |points| == 4
  {
    forall face :: face in faces && FaceInRange(points, face) ==> shapeOk(Corners(points, face))
  }

  lemma BoundaryCovered(allowProcessor: bool)
    ensures CoversBoundary(Walls(4), 0, 4, allowProcessor)
  {
    var p := Walls(4)[0];
    assert Walls(4)[..0] == [] && Covered([]) == [];
    assert Covered(Walls(4)) == FaceRange(0, 4);
    assert !("processor" <= "wall");
  }

  lemma OneCellCounted(faces: seq<Face>)
    requires |faces| == 4
    ensures CellCount(OneCell(faces).owner + OneCell(faces).neighbour) == 1
    ensures Contiguous(OneCell(faces).owner + OneCell(faces).neighbour)
  {
    var cells := OneCell(faces).owner + OneCell(faces).neighbour;
    assert cells == [0, 0, 0, 0];
    assert cells[..3] == [0, 0, 0] && [0, 0, 0][..2] == [0, 0] && [0, 0][..1] == [0] && [0][..0] == [];
    assert CellCount([0]) == 1 && CellCount([0, 0]) == 1 && CellCount([0, 0, 0]) == 1;
  }

  lemma FacesAcceptable(points: seq<Vec>, faces: seq<Face>, shapeOk: seq<Vec> -> bool)
    requires |points| == 4 && TetrahedronFaces(faces) && ShapesOk(points, faces, shapeOk)
    requires EdgeDeterminant(points[0], points[1], points[2], points[3]) != 0.0
    ensures AcceptableFaces(points, OneCell(faces), shapeOk, 4)
  {
    forall f: nat | f < 4 ensures AcceptableFace(points, faces[f], shapeOk) {
      FacesNotFlat(points, faces, f);
      assert faces[f] in faces;
    }
  }

  /** The volume that the faces of a tetrahedron enclose, with its sign. */
  function Enclosed(points: seq<Vec>, faces: seq<Face>): real
    requires |points| == 4
  {
    var det := EdgeDeterminant(points[0], points[1], points[2], points[3]);
    if faces == OUTWARD then det / 6.0 else -det / 6.0
  }

  lemma CellAcceptable(points: seq<Vec>, faces: seq<Face>, origin: Vec)
    requires |points| == 4 && TetrahedronFaces(faces)
    ensures SidesVolume(points, origin, OneCell(faces), Sides(OneCell(faces), 0, 4)) == Enclosed(points, faces)
    ensures AcceptableCell(PyramidVolumes(points, origin, OneCell(faces)), OneCell(faces), 0) <==>
      Enclosed(points, faces) > 0.0
  {
    TetrahedronShape(faces);
    TetrahedronCloses(faces);
    SidesOfOneCell(faces, 4);
    CellVolume(points, faces, origin);
    VolumeFromCorner(points);
  }

  lemma MeshAcceptable(points: seq<Vec>, faces: seq<Face>, allowProcessor: bool, shapeOk: seq<Vec> -> bool)
    requires |points| == 4 && TetrahedronFaces(faces) && ShapesOk(points, faces, shapeOk)
    ensures AcceptableMesh(points, Centroid(points), OneCell(faces), Walls(4), allowProcessor, shapeOk) <==>
      Enclosed(points, faces) > 0.0
  {
    TetrahedronShape(faces);
    CellAcceptable(points, faces, Centroid(points));
    OneCellCounted(faces);
    BoundaryCovered(allowProcessor);
    if Enclosed(points, faces) > 0.0 {
      FacesAcceptable(points, faces, shapeOk);
    }
  }

  /** Main theorem: a mesh of one tetrahedron is accepted exactly when its volume, with the sign
      its faces give it, is positive; and that is the volume it is read with. */
  method ReadTetrahedron(points: seq<Vec>, faces: seq<Face>, allowProcessor: bool, shapeOk: seq<Vec> -> bool)
    returns (r: MeshAssembly.Result<Mesh>)
    requires |points| == 4 && TetrahedronFaces(faces) && ShapesOk(points, faces, shapeOk)
    ensures r.Accepted? <==> Enclosed(points, faces) > 0.0
    ensures r.Accepted? ==> r.value.volumes == [Enclosed(points, faces)]
  {
    TetrahedronShape(faces);
    MeshAcceptable(points, faces, allowProcessor, shapeOk);
    CellAcceptable(points, faces, Centroid(points));
    OneCellCounted(faces);
    r := ReadMesh(points, OneCell(faces), Walls(4), allowProcessor, shapeOk);
  }
}
