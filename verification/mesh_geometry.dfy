/** Geometry of a polyhedral mesh, in exact arithmetic.

    A cell is accepted when an edge ledger balances: every undirected edge of the cell is
    used by exactly two of its faces, in opposite directions.  That is a statement about
    vertex numbers only.  The theorems turn it into geometry: the face areas of an
    accepted cell sum to the zero vector, its volume does not depend on the origin it was
    measured from, and all cell volumes together are a sum over boundary faces. */
module MeshGeometry {

  datatype Vec = Vec(x: real, y: real, z: real)

  const ZERO := Vec(0.0, 0.0, 0.0)

  function Add(a: Vec, b: Vec): Vec { Vec(a.x + b.x, a.y + b.y, a.z + b.z) }

  function Sub(a: Vec, b: Vec): Vec { Vec(a.x - b.x, a.y - b.y, a.z - b.z) }

  function Scale(s: real, a: Vec): Vec { Vec(s * a.x, s * a.y, s * a.z) }

  function Determinant(a: real, a': real, b: real, b': real): real { a * b' - a' * b }

  function Cross(a: Vec, b: Vec): Vec {
    Vec(Determinant(a.y, a.z, b.y, b.z), Determinant(a.z, a.x, b.z, b.x), Determinant(a.x, a.y, b.x, b.y))
  }

  function Negate(a: Vec): Vec { Vec(-a.x, -a.y, -a.z) }

  function Dot(a: Vec, b: Vec): real { a.x * b.x + a.y * b.y + a.z * b.z }

  // ----- Faces -----

  type Face = seq<nat>

  predicate FaceInRange(points: seq<Vec>, face: Face) {
    forall i :: 0 <= i < |face| ==> face[i] < |points|
  }

  function Corners(points: seq<Vec>, face: Face): seq<Vec>
    requires FaceInRange(points, face)
  {
    seq(|face|, i requires 0 <= i < |face| => points[face[i]])
  }

  /** Twice the area vector of the i-th triangle of the fan around the first corner. */
  function Triangle(p: seq<Vec>, i: nat): Vec
    requires i + 1 < |p|
  {
    Cross(Sub(p[i], p[0]), Sub(p[i + 1], p[0]))
  }

  /** Area vector of the fan over the first n corners. */
  function FanArea(p: seq<Vec>, n: nat): Vec
    requires n <= |p|
  {
    if n <= 2 then ZERO else Add(FanArea(p, n - 1), Scale(0.5, Triangle(p, n - 2)))
  }

  /** Signed volume of the pyramid from an origin to the fan over the first n corners. */
  function FanVolume(p: seq<Vec>, origin: Vec, n: nat): real
    requires n <= |p|
  {
    if n <= 2 then 0.0
    else FanVolume(p, origin, n - 1) + Dot(Sub(p[0], origin), Triangle(p, n - 2)) / 6.0
  }

  function FaceArea(points: seq<Vec>, face: Face): Vec
    requires FaceInRange(points, face)
  {
    FanArea(Corners(points, face), |face|)
  }

  function FaceVolume(points: seq<Vec>, origin: Vec, face: Face): real
    requires FaceInRange(points, face)
  {
    FanVolume(Corners(points, face), origin, |face|)
  }

  /** Moving the origin changes a face's pyramid by its area times the shift. */
  lemma {:induction false} FanVolumeShift(p: seq<Vec>, o1: Vec, o2: Vec, n: nat)
    requires n <= |p|
    ensures FanVolume(p, o2, n) == FanVolume(p, o1, n) + Dot(Sub(o1, o2), FanArea(p, n)) / 3.0
  {
    if n > 2 {
      FanVolumeShift(p, o1, o2, n - 1);
      PyramidShift(p[0], o1, o2, FanArea(p, n - 1), Triangle(p, n - 2));
    }
  }

  lemma PyramidShift(apex: Vec, o1: Vec, o2: Vec, area: Vec, t: Vec)
    ensures Dot(Sub(o1, o2), area) / 3.0 + Dot(Sub(apex, o2), t) / 6.0 ==
            Dot(Sub(apex, o1), t) / 6.0 + Dot(Sub(o1, o2), Add(area, Scale(0.5, t))) / 3.0
  {
    var d := Sub(o1, o2);
    assert Add(Sub(apex, o1), d) == Sub(apex, o2);
  }

  lemma AddSwap(a: Vec, b: Vec, c: Vec)
    ensures Add(Add(a, b), c) == Add(Add(a, c), b)
  {}

  // ----- Directed edges -----

  datatype DirectedEdge = DirectedEdge(from: nat, to: nat)

  function Reverse(e: DirectedEdge): DirectedEdge { DirectedEdge(e.to, e.from) }

  /** The first n edges of the face's boundary loop, reversed when the face is seen from
      its neighbour. */
  function LoopEdges(face: Face, outward: bool, n: nat): (es: seq<DirectedEdge>)
    requires n <= |face|
    ensures |es| == n
  {
    if n == 0 then []
    else
      var e := DirectedEdge(face[n - 1], face[if n == |face| then 0 else n]);
      LoopEdges(face, outward, n - 1) + [if outward then e else Reverse(e)]
  }

  ghost predicate EdgesInRange(points: seq<Vec>, es: seq<DirectedEdge>) {
    forall i :: 0 <= i < |es| ==> es[i].from < |points| && es[i].to < |points|
  }

  /** What a directed edge contributes to the area of the surfaces it bounds. */
  function Weight(points: seq<Vec>, e: DirectedEdge): Vec
    requires e.from < |points| && e.to < |points|
  {
    Scale(0.5, Cross(points[e.from], points[e.to]))
  }

  lemma WeightOfReverse(points: seq<Vec>, e: DirectedEdge)
    requires e.from < |points| && e.to < |points|
    ensures Weight(points, Reverse(e)) == Negate(Weight(points, e))
  {
    var a, b := points[e.from], points[e.to];
    assert b.y * a.z - b.z * a.y == -(a.y * b.z - a.z * b.y);
    assert b.z * a.x - b.x * a.z == -(a.z * b.x - a.x * b.z);
    assert b.x * a.y - b.y * a.x == -(a.x * b.y - a.y * b.x);
  }

  function WeightSum(points: seq<Vec>, es: seq<DirectedEdge>): Vec
    requires EdgesInRange(points, es)
  {
    if es == [] then ZERO
    else Add(WeightSum(points, es[..|es| - 1]), Weight(points, es[|es| - 1]))
  }

  lemma {:induction false} WeightSumConcat(points: seq<Vec>, a: seq<DirectedEdge>, b: seq<DirectedEdge>)
    requires EdgesInRange(points, a) && EdgesInRange(points, b)
    ensures WeightSum(points, a + b) == Add(WeightSum(points, a), WeightSum(points, b))
  {
    if b == [] {
      assert a + b == a;
    } else {
      var b' := b[..|b| - 1];
      assert (a + b)[..|a + b| - 1] == a + b';
      WeightSumConcat(points, a, b');
    }
  }

  lemma {:induction false} LoopEdgesInRange(points: seq<Vec>, face: Face, outward: bool, n: nat)
    requires FaceInRange(points, face) && n <= |face|
    ensures EdgesInRange(points, LoopEdges(face, outward, n))
  {
    if n > 0 {
      LoopEdgesInRange(points, face, outward, n - 1);
    }
  }

  /** The fan over n corners, closed by the edge back to the first corner, is the loop
      integral over those corners. */
  lemma {:induction false} FanIsLoop(points: seq<Vec>, face: Face, n: nat)
    requires FaceInRange(points, face) && 1 <= n < |face|
    ensures EdgesInRange(points, LoopEdges(face, true, n - 1))
    ensures FanArea(Corners(points, face), n) ==
            Add(WeightSum(points, LoopEdges(face, true, n - 1)), Weight(points, DirectedEdge(face[n - 1], face[0])))
  {
    LoopEdgesInRange(points, face, true, n - 1);
    var back := Weight(points, DirectedEdge(face[n - 1], face[0]));
    if n == 1 {
      SelfCross(points[face[0]]);
    } else {
      var step := Weight(points, DirectedEdge(face[n - 2], face[n - 1]));
      FanIsLoop(points, face, n - 1);
      var es := LoopEdges(face, true, n - 1);
      assert es[..|es| - 1] == LoopEdges(face, true, n - 2);
      var before := WeightSum(points, es[..|es| - 1]);
      assert WeightSum(points, es) == Add(before, step);
      if n == 2 {
        assert step == Negate(back) by {
          WeightOfReverse(points, DirectedEdge(face[1], face[0]));
        }
      } else {
        var far := Weight(points, DirectedEdge(face[n - 2], face[0]));
        var area, t := FanArea(Corners(points, face), n - 1), Scale(0.5, Triangle(Corners(points, face), n - 2));
        assert t == Sub(Add(step, back), far) by {
          TriangleWeight(points, face, n);
        }
        assert area == Add(before, far);
        assert FanArea(Corners(points, face), n) == Add(area, t);
      }
    }
  }

  lemma SelfCross(a: Vec)
    ensures Cross(a, a) == ZERO
  {
    assert a.y * a.z - a.z * a.y == 0.0;
    assert a.z * a.x - a.x * a.z == 0.0;
    assert a.x * a.y - a.y * a.x == 0.0;
  }

  lemma TriangleWeight(points: seq<Vec>, face: Face, n: nat)
    requires FaceInRange(points, face) && 2 < n <= |face|
    ensures Scale(0.5, Triangle(Corners(points, face), n - 2)) ==
            Sub(Add(Weight(points, DirectedEdge(face[n - 2], face[n - 1])),
                    Weight(points, DirectedEdge(face[n - 1], face[0]))),
                Weight(points, DirectedEdge(face[n - 2], face[0])))
  {
    var p := Corners(points, face);
  }

  /** The area vector of a face is the loop integral of its boundary. */
  lemma FaceAreaIsLoop(points: seq<Vec>, face: Face)
    requires FaceInRange(points, face) && |face| >= 3
    ensures EdgesInRange(points, LoopEdges(face, true, |face|))
    ensures FaceArea(points, face) == WeightSum(points, LoopEdges(face, true, |face|))
  {
    var n := |face|;
    LoopEdgesInRange(points, face, true, n);
    FanIsLoop(points, face, n - 1);
    TriangleWeight(points, face, n);
    var es := LoopEdges(face, true, n);
    assert es[..n - 1] == LoopEdges(face, true, n - 1);
    var fs := LoopEdges(face, true, n - 1);
    assert fs[..n - 2] == LoopEdges(face, true, n - 2);
  }

  lemma {:induction false} ReversedLoop(points: seq<Vec>, face: Face, n: nat)
    requires FaceInRange(points, face) && n <= |face|
    ensures EdgesInRange(points, LoopEdges(face, true, n)) && EdgesInRange(points, LoopEdges(face, false, n))
    ensures WeightSum(points, LoopEdges(face, false, n)) == Negate(WeightSum(points, LoopEdges(face, true, n)))
  {
    LoopEdgesInRange(points, face, true, n);
    LoopEdgesInRange(points, face, false, n);
    if n > 0 {
      ReversedLoop(points, face, n - 1);
      var f, b := LoopEdges(face, true, n), LoopEdges(face, false, n);
      var f', b' := LoopEdges(face, true, n - 1), LoopEdges(face, false, n - 1);
      assert f[..n - 1] == f' && b[..n - 1] == b' && b[n - 1] == Reverse(f[n - 1]);
      WeightOfReverse(points, f[n - 1]);
      NegateSum(WeightSum(points, f'), Weight(points, f[n - 1]));
    }
  }

  lemma NegateSum(a: Vec, b: Vec)
    ensures Negate(Add(a, b)) == Add(Negate(a), Negate(b))
  {}

  // ----- The edge ledger -----

  datatype Tally = Tally(count: nat, total: int)

  type Ledger = map<DirectedEdge, Tally>

  /** An undirected edge, written with its smaller vertex first. */
  function Undirected(e: DirectedEdge): DirectedEdge {
    if e.from < e.to then e else Reverse(e)
  }

  function Direction(e: DirectedEdge): int {
    if e.from < e.to then 1 else -1
  }

  function Lookup(m: Ledger, e: DirectedEdge): Tally {
    if e in m then m[e] else Tally(0, 0)
  }

  function Post(m: Ledger, e: DirectedEdge): Ledger {
    var t := Lookup(m, Undirected(e));
    m[Undirected(e) := Tally(t.count + 1, t.total + Direction(e))]
  }

  function LedgerOf(es: seq<DirectedEdge>): Ledger {
    if es == [] then map[] else Post(LedgerOf(es[..|es| - 1]), es[|es| - 1])
  }

  predicate Balanced(m: Ledger) {
    forall e :: e in m ==> m[e].count == 2 && m[e].total == 0
  }

  /** Every edge is used as often one way as the other. */
  predicate Cancels(m: Ledger) {
    forall e :: e in m ==> m[e].total == 0
  }

  /** The edges form a closed oriented surface: each directed edge occurs at most once and
      occurs exactly when its reverse does. */
  ghost predicate ClosedSurface(es: seq<DirectedEdge>) {
    forall a: nat, b: nat :: Uses(es, a, b) == Uses(es, b, a) <= 1
  }

  /** How often the edge from a to b occurs. */
  ghost function Uses(es: seq<DirectedEdge>, a: nat, b: nat): nat {
    multiset(es)[DirectedEdge(a, b)]
  }

  ghost predicate NoLoops(es: seq<DirectedEdge>) {
    forall i :: 0 <= i < |es| ==> es[i].from != es[i].to
  }

  /** The ledger counts the uses of an edge in either direction and their difference. */
  lemma {:induction false} LedgerCounts(es: seq<DirectedEdge>, e: DirectedEdge)
    requires NoLoops(es) && e.from < e.to
    ensures Lookup(LedgerOf(es), e).count == multiset(es)[e] + multiset(es)[Reverse(e)]
    ensures Lookup(LedgerOf(es), e).total + multiset(es)[Reverse(e)] == multiset(es)[e]
    ensures e in LedgerOf(es) <==> e in es || Reverse(e) in es
  {
    if es != [] {
      var rest, last := es[..|es| - 1], es[|es| - 1];
      assert es == rest + [last];
      LedgerCounts(rest, e);
      assert Undirected(last) == e <==> last == e || last == Reverse(e);
    }
  }

  lemma {:induction false} LedgerKeys(es: seq<DirectedEdge>)
    requires NoLoops(es)
    ensures forall e :: e in LedgerOf(es) ==> e.from < e.to
  {
    if es != [] {
      LedgerKeys(es[..|es| - 1]);
    }
  }

  /** The ledger balances exactly for closed oriented surfaces. */
  lemma BalancedIffClosedSurface(es: seq<DirectedEdge>)
    requires NoLoops(es)
    ensures Balanced(LedgerOf(es)) <==> ClosedSurface(es)
  {
    LedgerKeys(es);
    if Balanced(LedgerOf(es)) {
      forall a: nat, b: nat ensures Uses(es, a, b) == Uses(es, b, a) <= 1 {
        if a == b {
          assert DirectedEdge(a, b) !in es;
        } else {
          LedgerCounts(es, Undirected(DirectedEdge(a, b)));
        }
      }
    }
    if ClosedSurface(es) {
      forall e | e in LedgerOf(es) ensures LedgerOf(es)[e].count == 2 && LedgerOf(es)[e].total == 0 {
        LedgerCounts(es, e);
        assert Uses(es, e.from, e.to) == Uses(es, e.to, e.from) <= 1;
      }
    }
  }

  /** The signed totals are zero exactly when each directed edge is used as often as its
      reverse. */
  lemma CancelsIffPaired(es: seq<DirectedEdge>)
    requires NoLoops(es)
    ensures Cancels(LedgerOf(es)) <==> forall a: nat, b: nat :: Uses(es, a, b) == Uses(es, b, a)
  {
    LedgerKeys(es);
    if Cancels(LedgerOf(es)) {
      forall a: nat, b: nat ensures Uses(es, a, b) == Uses(es, b, a) {
        if a != b {
          LedgerCounts(es, Undirected(DirectedEdge(a, b)));
        }
      }
    }
    if forall a: nat, b: nat :: Uses(es, a, b) == Uses(es, b, a) {
      forall e | e in LedgerOf(es) ensures LedgerOf(es)[e].total == 0 {
        LedgerCounts(es, e);
        assert Uses(es, e.from, e.to) == Uses(es, e.to, e.from);
      }
    }
  }

  // ----- From the ledger to the area -----

  ghost predicate LedgerInRange(points: seq<Vec>, m: Ledger) {
    forall e :: e in m ==> e.from < |points| && e.to < |points|
  }

  /** Sum of every ledger entry's net use times its edge's weight. */
  ghost function LedgerSum(points: seq<Vec>, m: Ledger): Vec
    requires LedgerInRange(points, m)
  {
    if m == map[] then ZERO
    else
      var e :| e in m;
      Add(LedgerSum(points, m - {e}), Scale(m[e].total as real, Weight(points, e)))
  }

  lemma {:induction false} LedgerSumAny(points: seq<Vec>, m: Ledger, e: DirectedEdge)
    requires LedgerInRange(points, m) && e in m
    ensures LedgerSum(points, m) == Add(LedgerSum(points, m - {e}), Scale(m[e].total as real, Weight(points, e)))
    decreases |m|
  {
    var f :| f in m && LedgerSum(points, m) ==
      Add(LedgerSum(points, m - {f}), Scale(m[f].total as real, Weight(points, f)));
    if f != e {
      LedgerSumAny(points, m - {f}, e);
      LedgerSumAny(points, m - {e}, f);
      assert m - {f} - {e} == m - {e} - {f};
      AddSwap(LedgerSum(points, m - {f} - {e}), Scale(m[e].total as real, Weight(points, e)),
              Scale(m[f].total as real, Weight(points, f)));
    }
  }

  lemma {:induction false} CancellingLedgerSum(points: seq<Vec>, m: Ledger)
    requires LedgerInRange(points, m) && Cancels(m)
    ensures LedgerSum(points, m) == ZERO
    decreases |m|
  {
    if m != map[] {
      var e :| e in m;
      LedgerSumAny(points, m, e);
      CancellingLedgerSum(points, m - {e});
      ZeroScale(Weight(points, e));
    }
  }

  lemma ZeroScale(a: Vec)
    ensures Scale(0.0, a) == ZERO
  {}

  lemma PostSum(points: seq<Vec>, m: Ledger, e: DirectedEdge)
    requires LedgerInRange(points, m) && e.from < |points| && e.to < |points|
    ensures LedgerInRange(points, Post(m, e))
    ensures LedgerSum(points, Post(m, e)) == Add(LedgerSum(points, m), Weight(points, e))
  {
    var u := Undirected(e);
    var t, m', w := Lookup(m, u), Post(m, e), Weight(points, u);
    var rest := LedgerSum(points, m - {u});
    LedgerSumAny(points, m', u);
    assert m' - {u} == m - {u};
    assert LedgerSum(points, m) == Add(rest, Scale(t.total as real, w)) by {
      if u in m {
        LedgerSumAny(points, m, u);
      } else {
        assert m - {u} == m;
        ZeroScale(w);
      }
    }
    DirectionWeight(points, e);
    SettleEntry(rest, t.total as real, Direction(e) as real, w);
    assert m'[u].total as real == t.total as real + Direction(e) as real;
    assert LedgerSum(points, m') == Add(rest, Scale(m'[u].total as real, w));
  }

  lemma DirectionWeight(points: seq<Vec>, e: DirectedEdge)
    requires e.from < |points| && e.to < |points|
    ensures Scale(Direction(e) as real, Weight(points, Undirected(e))) == Weight(points, e)
  {
    UnitScale(Weight(points, e));
    if e.from < e.to {
      assert Direction(e) as real == 1.0;
    } else {
      WeightOfReverse(points, e);
      assert Direction(e) as real == -1.0;
    }
  }

  lemma UnitScale(a: Vec)
    ensures Scale(1.0, a) == a && Scale(-1.0, Negate(a)) == a
  {}

  lemma SettleEntry(rest: Vec, s: real, t: real, w: Vec)
    ensures Add(rest, Scale(s + t, w)) == Add(Add(rest, Scale(s, w)), Scale(t, w))
  {
    ScaleSum(s, t, w);
  }

  lemma ScaleSum(s: real, t: real, a: Vec)
    ensures Scale(s + t, a) == Add(Scale(s, a), Scale(t, a))
  {}

  lemma {:induction false} LedgerSumIsWeightSum(points: seq<Vec>, es: seq<DirectedEdge>)
    requires EdgesInRange(points, es)
    ensures LedgerInRange(points, LedgerOf(es)) && LedgerSum(points, LedgerOf(es)) == WeightSum(points, es)
  {
    if es != [] {
      var rest, last := es[..|es| - 1], es[|es| - 1];
      LedgerSumIsWeightSum(points, rest);
      PostSum(points, LedgerOf(rest), last);
    }
  }

  // ----- Cells -----

  /** A face seen from a cell: its area points out of its owner and into its neighbour. */
  datatype Side = Side(face: nat, outward: bool)

  function Signed(outward: bool, v: real): real { if outward then v else -v }

  function SignedVec(outward: bool, v: Vec): Vec { if outward then v else Negate(v) }

  /** The addressing lists of a mesh: owner of each face, neighbour of the internal ones. */
  datatype Addressing = Addressing(faces: seq<Face>, owner: seq<nat>, neighbour: seq<nat>)

  /** Sides that face number f adds to a cell. */
  function SidesAt(a: Addressing, cell: nat, f: nat): seq<Side>
    requires |a.owner| == |a.faces| && f < |a.faces|
  {
    (if a.owner[f] == cell then [Side(f, true)] else []) +
    (if f < |a.neighbour| && a.neighbour[f] == cell then [Side(f, false)] else [])
  }

  /** Sides of a cell among the first k faces, in face order. */
  function Sides(a: Addressing, cell: nat, k: nat): (sides: seq<Side>)
    requires |a.owner| == |a.faces| && k <= |a.faces|
    ensures forall i :: 0 <= i < |sides| ==> sides[i].face < k
  {
    if k == 0 then [] else Sides(a, cell, k - 1) + SidesAt(a, cell, k - 1)
  }

  ghost predicate ValidSides(points: seq<Vec>, a: Addressing, sides: seq<Side>) {
    forall i :: 0 <= i < |sides| ==> ValidSide(points, a, sides[i])
  }

  ghost predicate ValidSide(points: seq<Vec>, a: Addressing, side: Side) {
    side.face < |a.faces| && FaceInRange(points, a.faces[side.face]) && |a.faces[side.face]| >= 3
  }

  /** Sum of the signed area vectors of a cell's sides. */
  ghost function SidesArea(points: seq<Vec>, a: Addressing, sides: seq<Side>): Vec
    requires ValidSides(points, a, sides)
  {
    if sides == [] then ZERO
    else
      var s := sides[|sides| - 1];
      Add(SidesArea(points, a, sides[..|sides| - 1]), SignedVec(s.outward, FaceArea(points, a.faces[s.face])))
  }

  /** A face quantity summed over sides, negated for sides seen from the neighbour. */
  function SidesSum(v: nat -> real, sides: seq<Side>): real {
    if sides == [] then 0.0
    else
      var s := sides[|sides| - 1];
      SidesSum(v, sides[..|sides| - 1]) + Signed(s.outward, v(s.face))
  }

  /** Pyramid volume of each face, as a face quantity. */
  ghost function PyramidVolumes(points: seq<Vec>, origin: Vec, a: Addressing): nat -> real {
    (f: nat) => if f < |a.faces| && FaceInRange(points, a.faces[f]) then FaceVolume(points, origin, a.faces[f]) else 0.0
  }

  ghost function SidesVolume(points: seq<Vec>, origin: Vec, a: Addressing, sides: seq<Side>): real {
    SidesSum(PyramidVolumes(points, origin, a), sides)
  }

  /** All boundary edges of a cell's sides, as seen from the cell. */
  ghost function SidesEdges(a: Addressing, sides: seq<Side>): seq<DirectedEdge>
    requires forall i :: 0 <= i < |sides| ==> sides[i].face < |a.faces|
  {
    if sides == [] then []
    else
      var s := sides[|sides| - 1];
      SidesEdges(a, sides[..|sides| - 1]) + LoopEdges(a.faces[s.face], s.outward, |a.faces[s.face]|)
  }

  lemma {:induction false} SidesAreaIsWeightSum(points: seq<Vec>, a: Addressing, sides: seq<Side>)
    requires ValidSides(points, a, sides)
    ensures EdgesInRange(points, SidesEdges(a, sides))
    ensures SidesArea(points, a, sides) == WeightSum(points, SidesEdges(a, sides))
  {
    if sides != [] {
      var rest, s := sides[..|sides| - 1], sides[|sides| - 1];
      var face := a.faces[s.face];
      SidesAreaIsWeightSum(points, a, rest);
      FaceAreaIsLoop(points, face);
      ReversedLoop(points, face, |face|);
      WeightSumConcat(points, SidesEdges(a, rest), LoopEdges(face, s.outward, |face|));
    }
  }

  /** Main theorem: when every edge of a cell has signed total zero, the cell is closed
      geometrically, however often its edges are used. */
  lemma CancellingCellIsClosed(points: seq<Vec>, a: Addressing, sides: seq<Side>)
    requires ValidSides(points, a, sides)
    requires Cancels(LedgerOf(SidesEdges(a, sides)))
    ensures SidesArea(points, a, sides) == ZERO
  {
    SidesAreaIsWeightSum(points, a, sides);
    LedgerSumIsWeightSum(points, SidesEdges(a, sides));
    CancellingLedgerSum(points, LedgerOf(SidesEdges(a, sides)));
  }

  /** The area test that the mesh reader runs after its edge test rejects nothing in exact
      arithmetic. */
  lemma BalancedCellIsClosed(points: seq<Vec>, a: Addressing, sides: seq<Side>)
    requires ValidSides(points, a, sides)
    requires Balanced(LedgerOf(SidesEdges(a, sides)))
    ensures SidesArea(points, a, sides) == ZERO
  {
    CancellingCellIsClosed(points, a, sides);
  }

  lemma {:induction false} SidesVolumeShift(points: seq<Vec>, o1: Vec, o2: Vec, a: Addressing, sides: seq<Side>)
    requires ValidSides(points, a, sides)
    ensures SidesVolume(points, o2, a, sides) ==
            SidesVolume(points, o1, a, sides) + Dot(Sub(o1, o2), SidesArea(points, a, sides)) / 3.0
  {
    var d := Sub(o1, o2);
    if sides == [] {
    } else {
      var rest, s := sides[..|sides| - 1], sides[|sides| - 1];
      var face := a.faces[s.face];
      var area := FaceArea(points, face);
      var v1, v2 := FaceVolume(points, o1, face), FaceVolume(points, o2, face);
      SidesVolumeShift(points, o1, o2, a, rest);
      assert v2 == v1 + Dot(d, area) / 3.0 by {
        FanVolumeShift(Corners(points, face), o1, o2, |face|);
      }
      SideShift(s.outward, d, SidesArea(points, a, rest), area, v1, v2);
    }
  }

  lemma SideShift(outward: bool, d: Vec, rest: Vec, area: Vec, v1: real, v2: real)
    requires v2 == v1 + Dot(d, area) / 3.0
    ensures Dot(d, rest) / 3.0 + Signed(outward, v2) ==
            Signed(outward, v1) + Dot(d, Add(rest, SignedVec(outward, area))) / 3.0
  {
    DotNegate(d, area);
  }

  lemma DotNegate(d: Vec, a: Vec)
    ensures Dot(d, Negate(a)) == -Dot(d, a)
  {}

  /** Main theorem: the volume of a cell whose edges all have signed total zero does not depend
      on the origin. */
  lemma VolumeIndependentOfOrigin(points: seq<Vec>, o1: Vec, o2: Vec, a: Addressing, sides: seq<Side>)
    requires ValidSides(points, a, sides)
    requires Cancels(LedgerOf(SidesEdges(a, sides)))
    ensures SidesVolume(points, o1, a, sides) == SidesVolume(points, o2, a, sides)
  {
    CancellingCellIsClosed(points, a, sides);
    SidesVolumeShift(points, o1, o2, a, sides);
  }
}
