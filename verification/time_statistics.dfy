/** Windows, time statistics and differences of series. */
module TimeStatistics {
  import opened TimeSeries
  import opened Wrappers

  // ----- Windows -----

  /** Samples strictly inside an interval. */
  function Interior(s: seq<Sample>, a: real, b: real): seq<Sample> {
    if s == [] then []
    else if a < s[0].t < b then [s[0]] + Interior(s[1..], a, b)
    else Interior(s[1..], a, b)
  }

  /** The samples of the interpolant on an interval: both ends and what lies between. */
  ghost function WindowOf(s: seq<Sample>, a: real, b: real): seq<Sample>
    requires Covers(s, a) && Covers(s, b)
  {
    [Sample(a, Value(s, a))] + Interior(s, a, b) + (if b > a then [Sample(b, Value(s, b))] else [])
  }

  lemma {:induction false} InteriorMembers(s: seq<Sample>, a: real, b: real)
    ensures forall x :: x in Interior(s, a, b) <==> x in s && a < x.t < b
  {
    if s != [] {
      InteriorMembers(s[1..], a, b);
      assert s == [s[0]] + s[1..];
    }
  }

  lemma {:induction false} InteriorIncreasing(s: seq<Sample>, a: real, b: real)
    requires Increasing(s)
    ensures Increasing(Interior(s, a, b))
  {
    if s != [] {
      InteriorIncreasing(s[1..], a, b);
      InteriorMembers(s[1..], a, b);
      var rest := Interior(s[1..], a, b);
      forall i | 0 <= i < |rest| ensures s[0].t < rest[i].t {
        assert rest[i] in s[1..];
      }
    }
  }

  lemma WindowIncreasing(s: seq<Sample>, a: real, b: real)
    requires Covers(s, a) && Covers(s, b) && a <= b
    ensures Increasing(WindowOf(s, a, b))
    ensures WindowOf(s, a, b)[0].t == a && WindowOf(s, a, b)[|WindowOf(s, a, b)| - 1].t == b
  {
    InteriorIncreasing(s, a, b);
    InteriorMembers(s, a, b);
    var inside := Interior(s, a, b);
    forall i | 0 <= i < |inside| ensures a < inside[i].t < b {
      assert inside[i] in inside;
    }
    assert inside != [] ==> a < b by {
      if inside != [] {
        assert a < inside[0].t < b;
      }
    }
  }

  /** A sample of the series carries the interpolant's value. */
  lemma ValueAtSample(s: seq<Sample>, i: nat)
    requires Increasing(s) && i < |s|
    ensures Covers(s, s[i].t) && Value(s, s[i].t) == s[i].y
  {
    assert s[0].t <= s[i].t <= s[|s| - 1].t;
    ValueLocated(s, s[i].t, i);
  }

  /** Main theorem: a window refines the series it is cut from. */
  lemma WindowRefines(s: seq<Sample>, a: real, b: real)
    requires Covers(s, a) && Covers(s, b) && a <= b
    ensures Refines(WindowOf(s, a, b), s)
  {
    var w, inside := WindowOf(s, a, b), Interior(s, a, b);
    WindowIncreasing(s, a, b);
    InteriorMembers(s, a, b);
    forall i | 0 <= i < |w| ensures Covers(s, w[i].t) && w[i].y == Value(s, w[i].t) {
      if 0 < i <= |inside| {
        assert w[i] == inside[i - 1] && inside[i - 1] in inside;
        var k :| 0 <= k < |s| && s[k] == w[i];
        ValueAtSample(s, k);
      }
    }
    forall j | 0 <= j < |s| && a < s[j].t < b ensures HasTime(w, s[j].t) {
      assert s[j] in inside;
      var k :| 0 <= k < |inside| && inside[k] == s[j];
      assert w[k + 1] == s[j];
    }
  }

  /** Cutting a window does not change the function on it. */
  lemma WindowPreservesValue(s: seq<Sample>, a: real, b: real, t: real)
    requires Covers(s, a) && Covers(s, b) && a <= t <= b
    ensures Covers(WindowOf(s, a, b), t) && Covers(s, t) && Value(WindowOf(s, a, b), t) == Value(s, t)
  {
    WindowIncreasing(s, a, b);
    WindowRefines(s, a, b);
    RefinementPreservesValue(WindowOf(s, a, b), s, t);
  }

  lemma {:induction false} InteriorConcat(p: seq<Sample>, q: seq<Sample>, a: real, b: real)
    ensures Interior(p + q, a, b) == Interior(p, a, b) + Interior(q, a, b)
  {
    if p == [] {
      assert p + q == q;
    } else {
      assert (p + q)[1..] == p[1..] + q;
      InteriorConcat(p[1..], q, a, b);
    }
  }

  lemma {:induction false} InteriorOfInterior(s: seq<Sample>, a: real, b: real, c: real, d: real)
    requires a <= c && d <= b
    ensures Interior(Interior(s, a, b), c, d) == Interior(s, c, d)
  {
    if s != [] {
      InteriorOfInterior(s[1..], a, b, c, d);
      if a < s[0].t < b {
        assert Interior(s, a, b)[1..] == Interior(s[1..], a, b);
      }
    }
  }

  /** Main theorem: nested windows compose. */
  lemma NestedWindows(s: seq<Sample>, a: real, b: real, c: real, d: real)
    requires Covers(s, a) && Covers(s, b) && a <= c <= d <= b
    ensures Covers(WindowOf(s, a, b), c) && Covers(WindowOf(s, a, b), d) && Covers(s, c) && Covers(s, d)
    ensures WindowOf(WindowOf(s, a, b), c, d) == WindowOf(s, c, d)
  {
    WindowPreservesValue(s, a, b, c);
    WindowPreservesValue(s, a, b, d);
    var first, last := [Sample(a, Value(s, a))], if b > a then [Sample(b, Value(s, b))] else [];
    InteriorConcat(first + Interior(s, a, b), last, c, d);
    InteriorConcat(first, Interior(s, a, b), c, d);
    InteriorOfInterior(s, a, b, c, d);
    assert Interior(first, c, d) == [] && Interior(last, c, d) == [];
    assert [] + Interior(s, c, d) + [] == Interior(s, c, d);
  }

  /** Exact integral of the interpolant over an interval. */
  ghost function AreaBetween(s: seq<Sample>, a: real, b: real): real
    requires Covers(s, a) && Covers(s, b)
  {
    Area(s, b) - Area(s, a)
  }

  lemma WindowIntegral(s: seq<Sample>, a: real, b: real)
    requires Covers(s, a) && Covers(s, b) && a <= b
    ensures Integral(WindowOf(s, a, b)) == AreaBetween(s, a, b)
  {
    WindowIncreasing(s, a, b);
    WindowRefines(s, a, b);
    RefinementIntegral(WindowOf(s, a, b), s);
  }

  method FilterInterior(s: seq<Sample>, a: real, b: real) returns (r: seq<Sample>)
    ensures r == Interior(s, a, b)
  {
    r := [];
    for i := 0 to |s|
      invariant r == Interior(s[..i], a, b)
    {
      assert s[..i + 1] == s[..i] + [s[i]];
      InteriorConcat(s[..i], [s[i]], a, b);
      if a < s[i].t < b {
        r := r + [s[i]];
      }
    }
    assert s[..|s|] == s;
  }

  /** Cut a window; an omitted end defaults to the observed end. */
  method Window(s: seq<Sample>, start: Option<real>, end: Option<real>) returns (r: Result<seq<Sample>, Reason>)
    requires Increasing(s)
    ensures s == [] ==> r == Err(NoSamples)
    ensures s != [] ==>
      var a := if start.Some? then start.value else s[0].t;
      var b := if end.Some? then end.value else s[|s| - 1].t;
      (r.Ok? <==> a <= b && Covers(s, a) && Covers(s, b)) &&
      (r.Ok? ==> r.value == WindowOf(s, a, b))
  {
    if s == [] {
      return Err(NoSamples);
    }
    var a := if start.Some? then start.value else s[0].t;
    var b := if end.Some? then end.value else s[|s| - 1].t;
    if a > b {
      return Err(InvalidInterval);
    }
    var first := Interpolate(s, a);
    if first.Err? {
      return Err(first.error);
    }
    var last := Interpolate(s, b);
    if last.Err? {
      return Err(last.error);
    }
    var inside := FilterInterior(s, a, b);
    return Ok([Sample(a, first.value)] + inside + (if b > a then [Sample(b, last.value)] else []));
  }

  // ----- Statistics -----

  /** Integral of the square of the interpolant over one segment. */
  function SquareTrapezoid(p: Sample, q: Sample): real {
    (q.t - p.t) * (p.y * p.y + p.y * q.y + q.y * q.y) / 3.0
  }

  function SquareIntegral(s: seq<Sample>): real {
    SegmentSum(SquareTrapezoid, s)
  }

  /** The integral of the squared line (y + k * x)^2 from 0 to x. */
  function SquaredLineIntegral(y: real, k: real, x: real): real {
    y * y * x + y * k * (x * x) + k * k * (x * x * x) / 3.0
  }

  /** A segment's term is the exact integral of the square of its line. */
  lemma SquareTrapezoidIsIntegral(p: Sample, q: Sample, u: real, v: real)
    requires p.t < q.t
    ensures SquareTrapezoid(At(p, q, u), At(p, q, v)) ==
            SquaredLineIntegral(p.y, Slope(p, q), v - p.t) - SquaredLineIntegral(p.y, Slope(p, q), u - p.t)
  {
    LineBySlope(p, q, u);
    LineBySlope(p, q, v);
    SquareOfLine(p.y, Slope(p, q), u - p.t, v - p.t, v - u, Line(p, q, u), Line(p, q, v));
  }

  lemma SquareOfLine(y: real, k: real, a: real, b: real, d: real, u: real, v: real)
    requires u == y + k * a && v == y + k * b && d == b - a
    ensures d * (u * u + u * v + v * v) / 3.0 == SquaredLineIntegral(y, k, b) - SquaredLineIntegral(y, k, a)
  {
    var squares := u * u + u * v + v * v;
    SquaresOnLine(y, k, a, b, u, v, squares, y * y, y * k, k * k);
    CubeDifference(a, b, d);
    SquareSegment(d, squares, y * y, y * k, k * k, a + b, a * a + a * b + b * b,
                  b, b * b, b * b * b, a, a * a, a * a * a);
  }

  /** The integral from its coefficients and powers. */
  lemma SquareSegment(d: real, squares: real, p: real, q: real, r: real, sum: real, quad: real,
                      b1: real, b2: real, b3: real, a1: real, a2: real, a3: real)
    requires squares == 3.0 * p + 3.0 * q * sum + r * quad
    requires d == b1 - a1 && d * sum == b2 - a2 && d * quad == b3 - a3
    ensures d * squares / 3.0 == (p * b1 + q * b2 + r * b3 / 3.0) - (p * a1 + q * a2 + r * a3 / 3.0)
  {
    SquareTotal(d, squares, p, q, r, sum, quad);
    SquareTerms(d * squares, p, q, r, d, d * sum, d * quad, b1, b2, b3, a1, a2, a3);
  }

  lemma SquareTerms(total: real, p: real, q: real, r: real, d1: real, d2: real, d3: real,
                    b1: real, b2: real, b3: real, a1: real, a2: real, a3: real)
    requires total == 3.0 * (p * d1) + 3.0 * (q * d2) + r * d3
    requires d1 == b1 - a1 && d2 == b2 - a2 && d3 == b3 - a3
    ensures total / 3.0 == (p * b1 + q * b2 + r * b3 / 3.0) - (p * a1 + q * a2 + r * a3 / 3.0)
  {
    SquareTerm(p, d1, b1, a1);
    SquareTerm(q, d2, b2, a2);
    SquareTerm(r, d3, b3, a3);
  }

  lemma SquareTotal(d: real, squares: real, p: real, q: real, r: real, sum: real, quad: real)
    requires squares == 3.0 * p + 3.0 * q * sum + r * quad
    ensures d * squares == 3.0 * (p * d) + 3.0 * (q * (d * sum)) + r * (d * quad)
  {
    SameProduct(squares, 3.0 * p + 3.0 * q * sum + r * quad, d);
    Distribute3(d, 3.0 * p, 3.0 * q * sum, r * quad);
    TimesOut(d, q, sum);
    Reorder(d, r, quad);
  }

  lemma TimesOut(d: real, m: real, x: real)
    ensures d * (3.0 * m * x) == 3.0 * (m * (d * x))
  {}

  lemma Reorder(d: real, m: real, x: real)
    ensures d * (m * x) == m * (d * x)
  {}

  lemma SquareTerm(m: real, d: real, b: real, a: real)
    requires d == b - a
    ensures m * d == m * b - m * a
  {}

  lemma Distribute3(h: real, x: real, y: real, z: real)
    ensures h * (x + y + z) == h * x + h * y + h * z
  {}

  /** The squares of two values on a line, by coefficients. */
  lemma SquaresOnLine(y: real, k: real, a: real, b: real, u: real, v: real, squares: real, yy: real, yk: real, kk: real)
    requires u == y + k * a && v == y + k * b && squares == u * u + u * v + v * v
    requires yy == y * y && yk == y * k && kk == k * k
    ensures squares == 3.0 * yy + 3.0 * yk * (a + b) + kk * (a * a + a * b + b * b)
  {
    var p, q := k * a, k * b;
    Binomial(y, p, p);
    Binomial(y, p, q);
    Binomial(y, q, q);
    ProductOfProducts(k, a, k, a);
    ProductOfProducts(k, a, k, b);
    ProductOfProducts(k, b, k, b);
    assert y * p == yk * a && y * q == yk * b;
    Distribute3(kk, a * a, a * b, b * b);
    assert 3.0 * yk * (a + b) == 3.0 * (yk * a) + 3.0 * (yk * b);
  }

  lemma Binomial(y: real, p: real, q: real)
    ensures (y + p) * (y + q) == y * y + y * p + y * q + p * q
  {}

  lemma ProductOfProducts(a: real, b: real, c: real, d: real)
    ensures (a * b) * (c * d) == (a * c) * (b * d)
  {}

  lemma CubeDifference(a: real, b: real, d: real)
    requires d == b - a
    ensures d * (a * a + a * b + b * b) == b * b * b - a * a * a
    ensures d * (a + b) == b * b - a * a
  {}

  lemma SquareSplits()
    ensures SplitsOnLines(SquareTrapezoid)
  {
    forall p: Sample, q: Sample, u: real, v: real | p.t < q.t
      ensures SquareTrapezoid(p, At(p, q, v)) ==
              SquareTrapezoid(p, At(p, q, u)) + SquareTrapezoid(At(p, q, u), At(p, q, v))
    {
      LineBySlope(p, q, p.t);
      assert At(p, q, p.t) == p;
      SquareTrapezoidIsIntegral(p, q, p.t, v);
      SquareTrapezoidIsIntegral(p, q, p.t, u);
      SquareTrapezoidIsIntegral(p, q, u, v);
    }
  }

  /** Main theorem: a refinement of a series over the same interval has the same square
      integral, so the root mean square does not depend on the grid. */
  lemma RefinementSquareIntegral(r: seq<Sample>, s: seq<Sample>)
    requires Refines(r, s) && r[0].t == s[0].t && r[|r| - 1].t == s[|s| - 1].t
    ensures SquareIntegral(r) == SquareIntegral(s) && Duration(r) == Duration(s) && Integral(r) == Integral(s)
  {
    SquareSplits();
    RefinesItself(s);
    RefinementSum(SquareTrapezoid, r, s);
    RefinementSum(SquareTrapezoid, s, s);
    RefinementIntegral(r, s);
    RefinementIntegral(s, s);
    DurationIsSpan(r);
    DurationIsSpan(s);
  }

  lemma RefinesItself(s: seq<Sample>)
    requires s != [] && Increasing(s)
    ensures Refines(s, s)
  {
    forall i | 0 <= i < |s| ensures Covers(s, s[i].t) && s[i].y == Value(s, s[i].t) {
      ValueAtSample(s, i);
    }
  }

  /** The square integral of a window is that of the interpolant it was cut from: the window
      of a refinement has the same. */
  lemma WindowSquareIntegral(r: seq<Sample>, s: seq<Sample>, a: real, b: real)
    requires Refines(r, s) && Covers(r, a) && Covers(r, b) && a <= b
    ensures Covers(s, a) && Covers(s, b)
    ensures SquareIntegral(WindowOf(r, a, b)) == SquareIntegral(WindowOf(s, a, b))
  {
    SquareSplits();
    RefinementPreservesValue(r, s, a);
    RefinementPreservesValue(r, s, b);
    WindowRefines(s, a, b);
    WindowIncreasing(s, a, b);
    RefinementSum(SquareTrapezoid, WindowOf(s, a, b), s);
    WindowOfRefinement(r, s, a, b);
    WindowIncreasing(r, a, b);
    RefinementSum(SquareTrapezoid, WindowOf(r, a, b), s);
  }

  /** A window of a refinement refines the original. */
  lemma WindowOfRefinement(r: seq<Sample>, s: seq<Sample>, a: real, b: real)
    requires Refines(r, s) && Covers(r, a) && Covers(r, b) && a <= b
    ensures Refines(WindowOf(r, a, b), s)
  {
    var w := WindowOf(r, a, b);
    WindowIncreasing(r, a, b);
    WindowRefines(r, a, b);
    forall i | 0 <= i < |w| ensures Covers(s, w[i].t) && w[i].y == Value(s, w[i].t) {
      RefinementPreservesValue(r, s, w[i].t);
    }
    forall j | 0 <= j < |s| && a < s[j].t < b ensures HasTime(w, s[j].t) {
      var k :| 0 <= k < |r| && r[k].t == s[j].t;
    }
  }

  function TimeStep(p: Sample, q: Sample): real { q.t - p.t }

  function Duration(s: seq<Sample>): real {
    SegmentSum(TimeStep, s)
  }

  lemma {:induction false} DurationIsSpan(s: seq<Sample>)
    requires s != []
    ensures Duration(s) == s[|s| - 1].t - s[0].t
  {
    if |s| > 1 {
      DurationIsSpan(s[..|s| - 1]);
    }
  }

  /** A quadratic in m that is nonnegative on every segment is nonnegative in total. */
  lemma {:induction false} QuadraticSum(f: (Sample, Sample) -> real, g: (Sample, Sample) -> real,
                                        h: (Sample, Sample) -> real, m: real, s: seq<Sample>)
    requires Increasing(s)
    requires forall p: Sample, q: Sample :: p.t < q.t ==> f(p, q) - 2.0 * m * g(p, q) + m * m * h(p, q) >= 0.0
    ensures SegmentSum(f, s) - 2.0 * m * SegmentSum(g, s) + m * m * SegmentSum(h, s) >= 0.0
  {
    if |s| > 1 {
      var s', p, q := s[..|s| - 1], s[|s| - 2], s[|s| - 1];
      QuadraticSum(f, g, h, m, s');
      JoinShifted(m, SegmentSum(f, s'), SegmentSum(g, s'), SegmentSum(h, s'), f(p, q), g(p, q), h(p, q),
                  SegmentSum(f, s), SegmentSum(g, s), SegmentSum(h, s));
    } else {
      ZeroProduct(2.0 * m, SegmentSum(g, s));
      ZeroProduct(m * m, SegmentSum(h, s));
    }
  }

  lemma JoinShifted(m: real, q1: real, i1: real, d1: real, q2: real, i2: real, d2: real, q: real, i: real, d: real)
    requires q1 - 2.0 * m * i1 + m * m * d1 >= 0.0 && q2 - 2.0 * m * i2 + m * m * d2 >= 0.0
    requires q == q1 + q2 && i == i1 + i2 && d == d1 + d2
    ensures q - 2.0 * m * i + m * m * d >= 0.0
  {
    Split(2.0 * m, i, i1, i2);
    Split(m * m, d, d1, d2);
  }

  lemma Split(k: real, x: real, a: real, b: real)
    requires x == a + b
    ensures k * x == k * a + k * b
  {}

  /** The integral of (y - m)^2, expanded, is not negative. */
  lemma ShiftedSquareNonnegative(s: seq<Sample>, m: real)
    requires Increasing(s)
    ensures SquareIntegral(s) - 2.0 * m * Integral(s) + m * m * Duration(s) >= 0.0
  {
    var f, g, h := SquareTrapezoid, Trapezoid, TimeStep;
    forall p: Sample, q: Sample | p.t < q.t
      ensures f(p, q) - 2.0 * m * g(p, q) + m * m * h(p, q) >= 0.0
    {
      ShiftedSegment(p, q, m, f(p, q), g(p, q), h(p, q));
    }
    QuadraticSum(f, g, h, m, s);
  }

  lemma ShiftedSegment(p: Sample, q: Sample, m: real, f: real, g: real, h: real)
    requires p.t < q.t
    requires f == SquareTrapezoid(p, q) && g == Trapezoid(p, q) && h == TimeStep(p, q)
    ensures f - 2.0 * m * g + m * m * h >= 0.0
  {
    var u, v := p.y - m, q.y - m;
    var quad := u * u + u * v + v * v;
    var square, sum := p.y * p.y + p.y * q.y + q.y * q.y, p.y + q.y;
    assert quad >= 0.0 by {
      Quadratic(u, v);
    }
    assert quad == square - 3.0 * m * sum + 3.0 * (m * m) by {
      ShiftExpand(p.y, q.y, m);
    }
    assert f == h * square / 3.0 by { SameProduct(q.t - p.t, h, square); }
    assert g == h * sum / 2.0 by { SameProduct(q.t - p.t, h, sum); }
    SegmentAlgebra(f, g, h, square, sum, m, quad);
  }

  lemma SameProduct(x: real, y: real, z: real)
    requires x == y
    ensures x * z == y * z
  {}

  lemma Quadratic(u: real, v: real)
    ensures u * u + u * v + v * v >= 0.0
  {
    var w := u + v / 2.0;
    assert w * w == u * u + u * v + v * v / 4.0;
    assert w * w >= 0.0 && v * v >= 0.0;
  }

  lemma ShiftExpand(y: real, z: real, m: real)
    ensures (y - m) * (y - m) + (y - m) * (z - m) + (z - m) * (z - m) ==
            (y * y + y * z + z * z) - 3.0 * m * (y + z) + 3.0 * (m * m)
  {
    assert (y - m) * (y - m) == y * y - 2.0 * (m * y) + m * m;
    assert (y - m) * (z - m) == y * z - m * y - m * z + m * m;
    assert (z - m) * (z - m) == z * z - 2.0 * (m * z) + m * m;
    assert 3.0 * m * (y + z) == 3.0 * (m * y) + 3.0 * (m * z);
  }

  lemma SegmentAlgebra(f: real, g: real, h: real, square: real, sum: real, m: real, quad: real)
    requires h > 0.0 && quad >= 0.0 && quad == square - 3.0 * m * sum + 3.0 * (m * m)
    requires f == h * square / 3.0 && g == h * sum / 2.0
    ensures f - 2.0 * m * g + m * m * h >= 0.0
  {
    NonnegativeProduct(h, quad);
    var hs := h * sum;
    assert h * (3.0 * m * sum) == 3.0 * (m * hs);
    assert h * (3.0 * (m * m)) == 3.0 * (m * m * h);
    Expand3(h, square, 3.0 * m * sum, 3.0 * (m * m));
    assert 2.0 * m * g == m * hs by { SameProduct(2.0 * g, hs, m); }
  }

  lemma Expand3(h: real, a: real, b: real, c: real)
    ensures h * (a - b + c) == h * a - h * b + h * c
  {}

  /** Main theorem: the mean of the square is at least the square of the mean, so neither
      clamp to zero ever acts in exact arithmetic. */
  lemma MeanSquareBound(s: seq<Sample>)
    requires Increasing(s) && Duration(s) > 0.0
    ensures SquareIntegral(s) / Duration(s) >= (Integral(s) / Duration(s)) * (Integral(s) / Duration(s)) >= 0.0
  {
    var d, i, q := Duration(s), Integral(s), SquareIntegral(s);
    var m := i / d;
    ShiftedSquareNonnegative(s, m);
    assert m * d == i;
    assert m * m * d == m * i by {
      assert m * (m * d) == m * i;
    }
    assert 2.0 * m * i == 2.0 * (m * i);
    assert q >= m * m * d;
    DivideBound(q, m * m, d);
  }

  lemma ZeroProduct(a: real, b: real)
    requires b == 0.0
    ensures a * b == 0.0
  {}

  lemma NonnegativeProduct(a: real, b: real)
    requires a >= 0.0 && b >= 0.0
    ensures a * b >= 0.0
  {}

  lemma PositiveProduct(a: real, b: real)
    requires a > 0.0 && b > 0.0
    ensures a * b > 0.0
  {}

  lemma DivideBound(q: real, x: real, d: real)
    requires d > 0.0 && q >= x * d
    ensures q / d >= x
  {
    var r := q / d;
    assert r * d == q;
    assert (x - r) * d == x * d - r * d;
    if r < x {
      PositiveProduct(x - r, d);
    }
  }

  lemma DivideBoundAbove(q: real, x: real, d: real)
    requires d > 0.0 && q <= x * d
    ensures q / d <= x
  {
    var r := q / d;
    assert r * d == q;
    assert (r - x) * d == r * d - x * d;
    if r > x {
      PositiveProduct(r - x, d);
    }
  }

  predicate Within(lo: real, hi: real, x: real, h: real) {
    lo * h <= x && x <= hi * h
  }

  /** A sum along a series stays between multiples of another one. */
  lemma {:induction false} SegmentSumBounds(g: (Sample, Sample) -> real, h: (Sample, Sample) -> real,
                                            s: seq<Sample>, lo: real, hi: real)
    requires Increasing(s) && forall i :: 0 <= i < |s| ==> lo <= s[i].y <= hi
    requires forall p: Sample, q: Sample :: p.t < q.t && lo <= p.y <= hi && lo <= q.y <= hi ==>
      Within(lo, hi, g(p, q), h(p, q))
    ensures Within(lo, hi, SegmentSum(g, s), SegmentSum(h, s))
  {
    if |s| > 1 {
      var s', p, q := s[..|s| - 1], s[|s| - 2], s[|s| - 1];
      SegmentSumBounds(g, h, s', lo, hi);
      JoinWithin(lo, hi, SegmentSum(g, s'), SegmentSum(h, s'), g(p, q), h(p, q));
    } else {
      ZeroWithin(lo, hi);
    }
  }

  lemma JoinWithin(lo: real, hi: real, g1: real, h1: real, g2: real, h2: real)
    requires Within(lo, hi, g1, h1) && Within(lo, hi, g2, h2)
    ensures Within(lo, hi, g1 + g2, h1 + h2)
  {
    Split(lo, h1 + h2, h1, h2);
    Split(hi, h1 + h2, h1, h2);
  }

  lemma ZeroWithin(lo: real, hi: real)
    ensures Within(lo, hi, 0.0, 0.0)
  {}

  lemma SegmentWithin(p: Sample, q: Sample, lo: real, hi: real, g: real, h: real)
    requires p.t < q.t && lo <= p.y <= hi && lo <= q.y <= hi
    requires g == Trapezoid(p, q) && h == TimeStep(p, q)
    ensures Within(lo, hi, g, h)
  {
    var sum := p.y + q.y;
    assert g == h * sum / 2.0 by { SameProduct(q.t - p.t, h, sum); }
    ProductBounds(h, sum, lo, hi);
  }

  lemma ProductBounds(h: real, sum: real, lo: real, hi: real)
    requires h > 0.0 && 2.0 * lo <= sum <= 2.0 * hi
    ensures lo * h <= h * sum / 2.0 <= hi * h
  {
    NonnegativeProduct(h, sum / 2.0 - lo);
    NonnegativeProduct(h, hi - sum / 2.0);
  }

  /** The time mean lies between the smallest and the largest sample. */
  lemma MeanBounds(s: seq<Sample>, lo: real, hi: real)
    requires Increasing(s) && Duration(s) > 0.0
    requires forall i :: 0 <= i < |s| ==> lo <= s[i].y <= hi
    ensures lo <= Integral(s) / Duration(s) <= hi
  {
    var g, h := Trapezoid, TimeStep;
    forall p: Sample, q: Sample | p.t < q.t && lo <= p.y <= hi && lo <= q.y <= hi
      ensures Within(lo, hi, g(p, q), h(p, q))
    {
      SegmentWithin(p, q, lo, hi, g(p, q), h(p, q));
    }
    SegmentSumBounds(g, h, s, lo, hi);
    DivideBound(Integral(s), lo, Duration(s));
    DivideBoundAbove(Integral(s), hi, Duration(s));
  }

  /** rms and fluctuation rms are given by their squares. */
  datatype Statistics = Statistics(duration: real, integral: real, timeMean: real,
                                   rmsSquared: real, fluctuationRmsSquared: real)

  function AtLeastZero(x: real): real { if x < 0.0 then 0.0 else x }

  lemma NextSegment(w: (Sample, Sample) -> real, s: seq<Sample>, i: nat)
    requires i + 1 < |s|
    ensures SegmentSum(w, s[..i + 2]) == SegmentSum(w, s[..i + 1]) + w(s[i], s[i + 1])
  {
    var longer := s[..i + 2];
    assert longer[..|longer| - 1] == s[..i + 1];
  }

  /** Sum two quantities over the segments of a series in one pass. */
  method Accumulate(g: (Sample, Sample) -> real, h: (Sample, Sample) -> real, s: seq<Sample>)
    returns (r: Result<(real, real), Reason>)
    requires |s| >= 2
    ensures r.Ok? <==> Increasing(s)
    ensures r.Ok? ==> r.value == (SegmentSum(g, s), SegmentSum(h, s))
  {
    var integral, square := 0.0, 0.0;
    for i := 0 to |s| - 1
      invariant Increasing(s[..i + 1])
      invariant integral == SegmentSum(g, s[..i + 1]) && square == SegmentSum(h, s[..i + 1])
    {
      var p, q := s[i], s[i + 1];
      if q.t - p.t <= 0.0 {
        return Err(NotIncreasing);
      }
      NextSegment(g, s, i);
      NextSegment(h, s, i);
      integral := integral + g(p, q);
      square := square + h(p, q);
    }
    assert s[..|s|] == s;
    return Ok((integral, square));
  }

  method ComputeStatistics(s: seq<Sample>) returns (r: Result<Statistics, Reason>)
    ensures r.Ok? <==> |s| >= 2 && Increasing(s)
    ensures r.Ok? ==>
      r.value.duration == Duration(s) > 0.0 && r.value.integral == Integral(s) &&
      r.value.timeMean == Integral(s) / Duration(s) &&
      r.value.rmsSquared == SquareIntegral(s) / Duration(s) &&
      r.value.fluctuationRmsSquared == r.value.rmsSquared - r.value.timeMean * r.value.timeMean
  {
    if |s| < 2 || s[|s| - 1].t <= s[0].t {
      return Err(NoPositiveInterval);
    }
    var duration := s[|s| - 1].t - s[0].t;
    var sums := Accumulate(Trapezoid, SquareTrapezoid, s);
    if sums.Err? {
      return Err(sums.error);
    }
    DurationIsSpan(s);
    var mean, meanSquare := sums.value.0 / duration, sums.value.1 / duration;
    MeanSquareBound(s);
    return Ok(Statistics(duration, sums.value.0, mean, AtLeastZero(meanSquare), AtLeastZero(meanSquare - mean * mean)));
  }

  // ----- In plain numbers -----

  lemma {:induction false} InteriorTimes(s: seq<Sample>, a: real, b: real, t: real)
    ensures HasTime(Interior(s, a, b), t) <==> a < t < b && HasTime(s, t)
  {
    if s != [] {
      InteriorTimes(s[1..], a, b, t);
      var rest := Interior(s[1..], a, b);
      if HasTime(s[1..], t) {
        var i :| 0 <= i < |s[1..]| && s[1..][i].t == t;
        assert s[i + 1].t == t;
      }
      if HasTime(s, t) && s[0].t != t {
        var i :| 0 <= i < |s| && s[i].t == t;
        assert s[1..][i - 1].t == t;
      }
      if a < s[0].t < b {
        InFront(s[0], rest, t);
      }
    }
  }

  lemma InFront(x: Sample, s: seq<Sample>, t: real)
    ensures HasTime([x] + s, t) <==> x.t == t || HasTime(s, t)
  {
    if HasTime(s, t) {
      var i :| 0 <= i < |s| && s[i].t == t;
      assert ([x] + s)[i + 1].t == t;
    }
    assert ([x] + s)[0] == x;
  }

  lemma AtEnd(s: seq<Sample>, x: Sample, t: real)
    ensures HasTime(s + [x], t) <==> x.t == t || HasTime(s, t)
  {
    if HasTime(s, t) {
      var i :| 0 <= i < |s| && s[i].t == t;
      assert (s + [x])[i].t == t;
    }
    assert (s + [x])[|s|] == x;
  }

  /** A window has its two ends and every sample time strictly between them. */
  lemma WindowTimesExact(s: seq<Sample>, a: real, b: real, t: real)
    requires Covers(s, a) && Covers(s, b) && a <= b
    ensures HasTime(WindowOf(s, a, b), t) <==> t == a || t == b || (a < t < b && HasTime(s, t))
  {
    var first, inside := Sample(a, Value(s, a)), Interior(s, a, b);
    InteriorTimes(s, a, b, t);
    InFront(first, inside, t);
    if b > a {
      AtEnd([first] + inside, Sample(b, Value(s, b)), t);
    } else {
      assert [first] + inside + [] == [first] + inside;
    }
  }
}
