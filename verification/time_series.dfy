/** Scalar series: restart reconciliation, interpolation, windows and exact integrals.

    A series is read as a piecewise-linear function of time.  The central notion is that of
    a refinement: a second series whose samples lie on that function and include every
    interior sample time.  Refining changes neither the function nor its integral, which is
    why windows can be nested and series on different grids can be subtracted. */
module TimeSeries {
  import opened Wrappers

  datatype Sample = Sample(t: real, y: real)

  datatype Reason =
    | MissingColumn
    | NoSamples
    | InvalidInterval
    | OutsideObservedData
    | NotIncreasing
    | NoPositiveInterval
    | InsufficientSamples

  ghost predicate Increasing(s: seq<Sample>) {
    forall i, j :: 0 <= i < j < |s| ==> s[i].t < s[j].t
  }

  // ----- Restart reconciliation -----

  predicate BelowAll(t: real, s: seq<Sample>) {
    forall i :: 0 <= i < |s| ==> t < s[i].t
  }

  /** The samples whose time lies strictly below every later sample's time. */
  function Kept(s: seq<Sample>): seq<Sample> {
    if s == [] then []
    else if BelowAll(s[0].t, s[1..]) then [s[0]] + Kept(s[1..])
    else Kept(s[1..])
  }

  /** The longest prefix whose last time is below t. */
  function TrimAt(s: seq<Sample>, t: real): seq<Sample> {
    if s == [] || s[|s| - 1].t < t then s else TrimAt(s[..|s| - 1], t)
  }

  lemma {:induction false} KeptInside(s: seq<Sample>)
    ensures forall x :: x in Kept(s) ==> x in s
  {
    if s != [] {
      KeptInside(s[1..]);
    }
  }

  /** The kept samples are strictly increasing in time. */
  lemma {:induction false} KeptIncreasing(s: seq<Sample>)
    ensures Increasing(Kept(s))
  {
    if s != [] {
      KeptIncreasing(s[1..]);
      KeptInside(s[1..]);
      var rest := Kept(s[1..]);
      forall i | 0 <= i < |rest| ensures rest[i] in s[1..] {
        assert rest[i] in rest;
      }
    }
  }

  /** Nothing is dropped exactly when the times were strictly increasing already; with
      KeptIncreasing this makes reconciliation idempotent. */
  lemma {:induction false} KeptFixpoint(s: seq<Sample>)
    ensures Increasing(s) <==> Kept(s) == s
    ensures |Kept(s)| <= |s|
  {
    if s != [] {
      KeptFixpoint(s[1..]);
      KeptIncreasing(s);
      if Increasing(s) {
        assert s == [s[0]] + s[1..];
      }
    }
  }

  lemma KeptIdempotent(s: seq<Sample>)
    ensures Kept(Kept(s)) == Kept(s)
  {
    KeptIncreasing(s);
    KeptFixpoint(Kept(s));
  }

  lemma {:induction false} TrimAll(s: seq<Sample>, t: real)
    requires forall i :: 0 <= i < |s| ==> s[i].t >= t
    ensures TrimAt(s, t) == []
  {
    if s != [] {
      TrimAll(s[..|s| - 1], t);
    }
  }

  lemma {:induction false} TrimKeepsHead(x: Sample, s: seq<Sample>, t: real)
    requires x.t < t
    ensures TrimAt([x] + s, t) == [x] + TrimAt(s, t)
  {
    if s != [] && s[|s| - 1].t >= t {
      assert ([x] + s)[..|s|] == [x] + s[..|s| - 1];
      TrimKeepsHead(x, s[..|s| - 1], t);
    }
  }

  lemma BelowAllAppend(t: real, s: seq<Sample>, x: Sample)
    ensures BelowAll(t, s + [x]) <==> BelowAll(t, s) && t < x.t
  {
    assert (s + [x])[|s|] == x;
    assert forall i :: 0 <= i < |s| ==> (s + [x])[i] == s[i];
  }

  /** A new sample replaces every kept sample at or after its time. */
  lemma {:induction false} KeptAppend(s: seq<Sample>, x: Sample)
    ensures Kept(s + [x]) == TrimAt(Kept(s), x.t) + [x]
  {
    if s == [] {
      assert s + [x] == [x];
    } else {
      var rest, all := s[1..], s + [x];
      assert all[1..] == rest + [x] && all[0] == s[0];
      KeptAppend(rest, x);
      KeptInside(rest);
      BelowAllAppend(s[0].t, rest, x);
      if BelowAll(s[0].t, rest) {
        if s[0].t < x.t {
          TrimKeepsHead(s[0], Kept(rest), x.t);
        } else {
          var kept := Kept(rest);
          forall i | 0 <= i < |kept| ensures kept[i].t >= x.t {
            assert kept[i] in rest;
          }
          TrimAll(kept, x.t);
          forall i | 0 <= i < |[s[0]] + kept| ensures ([s[0]] + kept)[i].t >= x.t {}
          TrimAll([s[0]] + kept, x.t);
        }
      }
    }
  }

  lemma {:induction false} KeptLast(s: seq<Sample>)
    requires s != []
    ensures Kept(s) != [] && Kept(s)[|Kept(s)| - 1] == s[|s| - 1]
  {
    if |s| > 1 {
      KeptLast(s[1..]);
    }
  }

  datatype Cleanup = Cleanup(duplicateTimes: nat, restartSegments: nat)

  /** Number of samples at, and before, the time of the sample just before them. */
  function Repairs(s: seq<Sample>): Cleanup {
    if |s| < 2 then Cleanup(0, 0)
    else
      var r, last, prior := Repairs(s[..|s| - 1]), s[|s| - 1].t, s[|s| - 2].t;
      if last == prior then Cleanup(r.duplicateTimes + 1, r.restartSegments)
      else if last < prior then Cleanup(r.duplicateTimes, r.restartSegments + 1)
      else r
  }

  predicate HasColumns(rows: seq<seq<real>>, timeColumn: nat, valueColumn: nat) {
    forall i :: 0 <= i < |rows| ==> timeColumn < |rows[i]| && valueColumn < |rows[i]|
  }

  function Samples(rows: seq<seq<real>>, timeColumn: nat, valueColumn: nat): seq<Sample>
    requires HasColumns(rows, timeColumn, valueColumn)
  {
    seq(|rows|, i requires 0 <= i < |rows| => Sample(rows[i][timeColumn], rows[i][valueColumn]))
  }

  /** Pop the samples at or after a time off the stack. */
  method PopFrom(stack: seq<Sample>, t: real) returns (r: seq<Sample>)
    ensures r == TrimAt(stack, t)
  {
    r := stack;
    while r != [] && r[|r| - 1].t >= t
      invariant TrimAt(r, t) == TrimAt(stack, t)
      decreases |r|
    {
      r := r[..|r| - 1];
    }
  }

  /** Reconcile restarted and repeated samples with a stack: a row pops everything at or
      after its time. */
  method CleanSeries(rows: seq<seq<real>>, timeColumn: nat, valueColumn: nat)
    returns (r: Result<(seq<Sample>, Cleanup), Reason>)
    ensures r.Ok? <==> HasColumns(rows, timeColumn, valueColumn)
    ensures r.Ok? ==> r.value.0 == Kept(Samples(rows, timeColumn, valueColumn))
    ensures r.Ok? ==> r.value.1 == Repairs(Samples(rows, timeColumn, valueColumn))
    ensures r.Ok? && rows != [] ==> var kept, row := r.value.0, rows[|rows| - 1];
      kept != [] && kept[|kept| - 1].t == row[timeColumn] && kept[|kept| - 1].y == row[valueColumn]
    ensures r.Err? ==> r.error == MissingColumn
  {
    var retained: seq<Sample> := [];
    var duplicates, restarts := 0, 0;
    for n := 0 to |rows|
      invariant HasColumns(rows[..n], timeColumn, valueColumn)
      invariant retained == Kept(Samples(rows[..n], timeColumn, valueColumn))
      invariant Cleanup(duplicates, restarts) == Repairs(Samples(rows[..n], timeColumn, valueColumn))
    {
      var row := rows[n];
      if timeColumn >= |row| || valueColumn >= |row| {
        return Err(MissingColumn);
      }
      var x := Sample(row[timeColumn], row[valueColumn]);
      ghost var before := Samples(rows[..n], timeColumn, valueColumn);
      ghost var after := Samples(rows[..n + 1], timeColumn, valueColumn);
      assert after == before + [x];
      assert after[..|after| - 1] == before;
      if before != [] {
        KeptLast(before);
      }
      KeptAppend(before, x);
      if retained != [] && x.t <= retained[|retained| - 1].t {
        if x.t == retained[|retained| - 1].t {
          duplicates := duplicates + 1;
        } else {
          restarts := restarts + 1;
        }
        retained := PopFrom(retained, x.t);
      }
      retained := retained + [x];
    }
    assert rows[..|rows|] == rows;
    if rows != [] {
      KeptLast(Samples(rows, timeColumn, valueColumn));
    }
    return Ok((retained, Cleanup(duplicates, restarts)));
  }

  // ----- The piecewise-linear function -----

  /** The line through two samples. */
  function Line(p: Sample, q: Sample, t: real): real
    requires p.t < q.t
  {
    p.y + (q.y - p.y) * (t - p.t) / (q.t - p.t)
  }

  ghost predicate Covers(s: seq<Sample>, t: real) {
    s != [] && Increasing(s) && s[0].t <= t <= s[|s| - 1].t
  }

  /** Value of the interpolant. */
  ghost function Value(s: seq<Sample>, t: real): real
    requires Covers(s, t)
  {
    if t == s[0].t then s[0].y
    else if t <= s[1].t then Line(s[0], s[1], t)
    else Value(s[1..], t)
  }

  /** A quantity of line segments, added up along the interpolant from the first sample up to
      t. */
  ghost function AreaOf(w: (Sample, Sample) -> real, s: seq<Sample>, t: real): real
    requires Covers(s, t)
  {
    if t == s[0].t then 0.0
    else if t <= s[1].t then w(s[0], Sample(t, Line(s[0], s[1], t)))
    else w(s[0], s[1]) + AreaOf(w, s[1..], t)
  }

  /** Integral of the interpolant from the first sample up to t. */
  ghost function Area(s: seq<Sample>, t: real): real
    requires Covers(s, t)
  {
    AreaOf(Trapezoid, s, t)
  }

  function At(p: Sample, q: Sample, t: real): Sample
    requires p.t < q.t
  {
    Sample(t, Line(p, q, t))
  }

  /** Cutting a line segment in two leaves the quantity as it is. */
  ghost predicate SplitsOnLines(w: (Sample, Sample) -> real) {
    forall p: Sample, q: Sample, u: real, v: real {:trigger At(p, q, u), At(p, q, v)} :: p.t < q.t ==>
      w(p, At(p, q, v)) == w(p, At(p, q, u)) + w(At(p, q, u), At(p, q, v))
  }

  function Trapezoid(p: Sample, q: Sample): real {
    (q.t - p.t) * (p.y + q.y) / 2.0
  }

  /** The slope form of a line, which the proofs use. */
  function Slope(p: Sample, q: Sample): real
    requires p.t < q.t
  {
    (q.y - p.y) / (q.t - p.t)
  }

  lemma LineBySlope(p: Sample, q: Sample, t: real)
    requires p.t < q.t
    ensures Line(p, q, t) == p.y + Slope(p, q) * (t - p.t)
    ensures Line(p, q, q.t) == q.y && Line(p, q, p.t) == p.y
  {
    var d := q.t - p.t;
    MulDiv(q.y - p.y, t - p.t, d);
    MulDiv(q.y - p.y, d, d);
  }

  lemma MulDiv(a: real, b: real, c: real)
    requires c != 0.0
    ensures a * b / c == (a / c) * b
    ensures (a / c) * c == a
  {
    var q := a / c;
    assert q * c == a;
    assert a * b == (q * b) * c;
  }

  /** The line through two points of a line is that line. */
  lemma LineThroughLine(p: Sample, q: Sample, u: real, v: real, t: real)
    requires p.t < q.t && u < v
    ensures Line(Sample(u, Line(p, q, u)), Sample(v, Line(p, q, v)), t) == Line(p, q, t)
  {
    var k := Slope(p, q);
    var a, b := Sample(u, Line(p, q, u)), Sample(v, Line(p, q, v));
    LineBySlope(p, q, u);
    LineBySlope(p, q, v);
    LineBySlope(p, q, t);
    LineBySlope(a, b, t);
    assert b.y - a.y == k * (v - u) by {
      Distribute(k, v - p.t, u - p.t);
    }
    MulDiv(k, v - u, v - u);
    assert Slope(a, b) == k;
    Distribute(k, t - p.t, u - p.t);
  }

  lemma Distribute(k: real, a: real, b: real)
    ensures k * (a - b) == k * a - k * b
  {}

  // ----- Locating a time -----

  /** Index i is where t sits: at a sample, or strictly between two. */
  ghost predicate Located(s: seq<Sample>, t: real, i: nat) {
    i < |s| && t <= s[i].t && (i > 0 ==> s[i - 1].t < t)
  }

  lemma {:induction false} ValueLocated(s: seq<Sample>, t: real, i: nat)
    requires Covers(s, t) && Located(s, t, i)
    ensures t == s[i].t ==> Value(s, t) == s[i].y
    ensures t < s[i].t ==> i > 0 && Value(s, t) == Line(s[i - 1], s[i], t)
  {
    if i == 1 {
      LineBySlope(s[0], s[1], t);
    } else if i > 1 {
      assert s[1].t <= s[i - 1].t;
      ValueLocated(s[1..], t, i - 1);
    }
  }

  /** Between two neighbouring samples the interpolant is their line, ends included. */
  lemma ValueOnSegment(s: seq<Sample>, i: nat, t: real)
    requires Increasing(s) && i + 1 < |s| && s[i].t <= t <= s[i + 1].t
    ensures Covers(s, t) && Value(s, t) == Line(s[i], s[i + 1], t)
  {
    assert s[0].t <= s[i].t && s[i + 1].t <= s[|s| - 1].t;
    LineBySlope(s[i], s[i + 1], t);
    if t == s[i].t {
      ValueLocated(s, t, i);
    } else {
      ValueLocated(s, t, i + 1);
    }
  }

  /** First index whose time is not below t, by binary search. */
  method BisectLeft(s: seq<Sample>, t: real) returns (index: nat)
    requires Increasing(s)
    ensures index <= |s|
    ensures forall i :: 0 <= i < index ==> s[i].t < t
    ensures forall i :: index <= i < |s| ==> t <= s[i].t
  {
    var lo, hi := 0, |s|;
    while lo < hi
      invariant 0 <= lo <= hi <= |s|
      invariant forall i :: 0 <= i < lo ==> s[i].t < t
      invariant forall i :: hi <= i < |s| ==> t <= s[i].t
    {
      var mid := (lo + hi) / 2;
      if s[mid].t < t {
        lo := mid + 1;
      } else {
        hi := mid;
      }
    }
    index := lo;
  }

  /** Value at a time, refusing to extrapolate. */
  method Interpolate(s: seq<Sample>, t: real) returns (r: Result<real, Reason>)
    requires Increasing(s)
    ensures r.Ok? <==> Covers(s, t)
    ensures r.Ok? ==> r.value == Value(s, t)
  {
    var index := BisectLeft(s, t);
    if index < |s| && s[index].t == t {
      assert s[0].t <= s[index].t <= s[|s| - 1].t;
      ValueLocated(s, t, index);
      return Ok(s[index].y);
    }
    if index == 0 || index == |s| {
      return Err(OutsideObservedData);
    }
    var p, q := s[index - 1], s[index];
    assert s[0].t <= p.t && q.t <= s[|s| - 1].t;
    ValueLocated(s, t, index);
    return Ok(Line(p, q, t));
  }

  // ----- Refinements -----

  ghost predicate HasTime(s: seq<Sample>, t: real) {
    exists i :: 0 <= i < |s| && s[i].t == t
  }

  /** r samples the interpolant of s on a finer grid, perhaps of a shorter interval. */
  ghost predicate Refines(r: seq<Sample>, s: seq<Sample>) {
    r != [] && Increasing(r) && Increasing(s) &&
    (forall i :: 0 <= i < |r| ==> Covers(s, r[i].t) && r[i].y == Value(s, r[i].t)) &&
    forall j :: 0 <= j < |s| && r[0].t < s[j].t < r[|r| - 1].t ==> HasTime(r, s[j].t)
  }

  /** Two neighbouring samples of a refinement lie on one segment of the original. */
  lemma SegmentBelow(r: seq<Sample>, s: seq<Sample>, i: nat) returns (j: nat)
    requires Refines(r, s) && i + 1 < |r|
    ensures j + 1 < |s| && s[j].t <= r[i].t && r[i + 1].t <= s[j + 1].t
  {
    j := 0;
    assert Covers(s, r[i].t) && Covers(s, r[i + 1].t);
    while s[j + 1].t <= r[i].t
      invariant j + 1 < |s| && s[j].t <= r[i].t
      decreases |s| - j
    {
      assert r[i].t < r[i + 1].t <= s[|s| - 1].t;
      j := j + 1;
    }
    assert r[0].t <= r[i].t && r[i + 1].t <= r[|r| - 1].t;
    forall k | 0 <= k < |r| ensures !(r[i].t < r[k].t < r[i + 1].t) {
      assert k <= i ==> r[k].t <= r[i].t;
      assert k > i ==> r[i + 1].t <= r[k].t;
    }
  }

  /** Main theorem: a refinement is the same function on its own interval. */
  lemma RefinementPreservesValue(r: seq<Sample>, s: seq<Sample>, t: real)
    requires Refines(r, s) && Covers(r, t)
    ensures Covers(s, t) && Value(r, t) == Value(s, t)
  {
    var i := Locate(r, t);
    ValueLocated(r, t, i);
    if t < r[i].t {
      var j := SegmentBelow(r, s, i - 1);
      var u, v := r[i - 1].t, r[i].t;
      ValueOnSegment(s, j, u);
      ValueOnSegment(s, j, v);
      ValueOnSegment(s, j, t);
      LineThroughLine(s[j], s[j + 1], u, v, t);
      assert r[i - 1] == Sample(u, Line(s[j], s[j + 1], u)) && r[i] == Sample(v, Line(s[j], s[j + 1], v));
    } else {
      assert Covers(s, r[i].t);
    }
  }

  lemma Locate(s: seq<Sample>, t: real) returns (i: nat)
    requires Covers(s, t)
    ensures Located(s, t, i)
  {
    i := 0;
    while s[i].t < t
      invariant i < |s| && (i > 0 ==> s[i - 1].t < t)
      decreases |s| - i
    {
      i := i + 1;
    }
  }

  /** A quantity of neighbouring samples, summed along a series. */
  function SegmentSum(w: (Sample, Sample) -> real, s: seq<Sample>): real {
    if |s| < 2 then 0.0
    else SegmentSum(w, s[..|s| - 1]) + w(s[|s| - 2], s[|s| - 1])
  }

  /** Trapezoid sum of a series. */
  function Integral(s: seq<Sample>): real {
    SegmentSum(Trapezoid, s)
  }

  lemma TrapezoidSplit(p: Sample, q: Sample, u: real, v: real)
    requires p.t < q.t
    ensures Trapezoid(p, Sample(v, Line(p, q, v))) ==
            Trapezoid(p, Sample(u, Line(p, q, u))) +
            Trapezoid(Sample(u, Line(p, q, u)), Sample(v, Line(p, q, v)))
  {
    var k, a, b := Slope(p, q), u - p.t, v - p.t;
    LineBySlope(p, q, u);
    LineBySlope(p, q, v);
    TrapezoidAlgebra(p.y, k, a, b);
    assert b - a == v - u;
  }

  lemma TrapezoidAlgebra(y: real, k: real, a: real, b: real)
    ensures b * (y + (y + k * b)) / 2.0 ==
            a * (y + (y + k * a)) / 2.0 + (b - a) * ((y + k * a) + (y + k * b)) / 2.0
  {
    var ka, kb := k * a, k * b;
    assert a * kb == b * ka;
    assert (b - a) * ((y + ka) + (y + kb)) ==
           b * (y + y) + b * ka + b * kb - a * (y + y) - a * ka - a * kb;
  }

  lemma TrapezoidSplits()
    ensures SplitsOnLines(Trapezoid)
  {
    forall p: Sample, q: Sample, u: real, v: real | p.t < q.t
      ensures Trapezoid(p, At(p, q, v)) == Trapezoid(p, At(p, q, u)) + Trapezoid(At(p, q, u), At(p, q, v))
    {
      TrapezoidSplit(p, q, u, v);
    }
  }

  /** A quantity that splits on lines vanishes on a point. */
  lemma SegmentStart(w: (Sample, Sample) -> real, p: Sample, q: Sample)
    requires SplitsOnLines(w) && p.t < q.t
    ensures w(p, p) == 0.0
  {
    LineBySlope(p, q, p.t);
    assert At(p, q, p.t) == p;
  }

  /** Inside one segment, the sum grows by that part of the segment. */
  lemma {:induction false} AreaStep(w: (Sample, Sample) -> real, s: seq<Sample>, j: nat, u: real, v: real)
    requires SplitsOnLines(w) && Increasing(s) && j + 1 < |s| && s[j].t <= u < v <= s[j + 1].t
    ensures Covers(s, u) && Covers(s, v)
    ensures AreaOf(w, s, v) == AreaOf(w, s, u) + w(Sample(u, Value(s, u)), Sample(v, Value(s, v)))
  {
    ValueOnSegment(s, j, u);
    ValueOnSegment(s, j, v);
    if j == 0 {
      var p, q := s[0], s[1];
      LineBySlope(p, q, u);
      assert w(p, At(p, q, v)) == w(p, At(p, q, u)) + w(At(p, q, u), At(p, q, v));
      SegmentStart(w, p, q);
    } else {
      assert s[1].t <= s[j].t;
      AreaStep(w, s[1..], j - 1, u, v);
      ValueOnSegment(s[1..], j - 1, u);
      ValueOnSegment(s[1..], j - 1, v);
      LineBySlope(s[0], s[1], s[1].t);
      assert AreaOf(w, s, u) == w(s[0], s[1]) + AreaOf(w, s[1..], u);
    }
  }

  /** Main theorem: the sum along a refinement is what the original interpolant has over the
      refinement's interval, for every quantity that splits on lines. */
  lemma {:induction false} RefinementSum(w: (Sample, Sample) -> real, r: seq<Sample>, s: seq<Sample>)
    requires SplitsOnLines(w) && Refines(r, s)
    ensures SegmentSum(w, r) == AreaOf(w, s, r[|r| - 1].t) - AreaOf(w, s, r[0].t)
    decreases |r|
  {
    if |r| > 1 {
      var n := |r| - 1;
      RefinementPrefix(r, s);
      RefinementSum(w, r[..n], s);
      var j := SegmentBelow(r, s, n - 1);
      AreaStep(w, s, j, r[n - 1].t, r[n].t);
    }
  }

  /** The trapezoid sum of a refinement is the exact integral of the original interpolant. */
  lemma RefinementIntegral(r: seq<Sample>, s: seq<Sample>)
    requires Refines(r, s)
    ensures Integral(r) == Area(s, r[|r| - 1].t) - Area(s, r[0].t)
  {
    TrapezoidSplits();
    RefinementSum(Trapezoid, r, s);
  }

  lemma RefinementPrefix(r: seq<Sample>, s: seq<Sample>)
    requires Refines(r, s) && |r| > 1
    ensures Refines(r[..|r| - 1], s)
  {
    var r' := r[..|r| - 1];
    forall j | 0 <= j < |s| && r'[0].t < s[j].t < r'[|r'| - 1].t ensures HasTime(r', s[j].t) {
      var k :| 0 <= k < |r| && r[k].t == s[j].t;
      assert r'[k].t == s[j].t;
    }
  }

  // ----- In plain numbers -----

  predicate RepeatsAt(s: seq<Sample>, i: nat) {
    0 < i < |s| && s[i].t == s[i - 1].t
  }

  predicate StepsBackAt(s: seq<Sample>, i: nat) {
    0 < i < |s| && s[i].t < s[i - 1].t
  }

  /** Places whose time equals the one before. */
  function RepeatsIn(s: seq<Sample>): set<nat> {
    set i: nat | i < |s| && RepeatsAt(s, i)
  }

  /** Places whose time is before the one before. */
  function StepsBack(s: seq<Sample>): set<nat> {
    set i: nat | i < |s| && StepsBackAt(s, i)
  }

  /** The cleanup counts the repeated times and the steps back in time. */
  lemma {:induction false} RepairsCount(s: seq<Sample>)
    ensures Repairs(s) == Cleanup(|RepeatsIn(s)|, |StepsBack(s)|)
  {
    if |s| < 2 {
      assert RepeatsIn(s) == {} && StepsBack(s) == {};
    } else {
      RepairsCount(s[..|s| - 1]);
      RepeatsGrow(s);
      StepsGrow(s);
    }
  }

  lemma RepeatsGrow(s: seq<Sample>)
    requires |s| >= 2
    ensures |RepeatsIn(s)| == |RepeatsIn(s[..|s| - 1])| + if s[|s| - 1].t == s[|s| - 2].t then 1 else 0
  {
    var n := |s| - 1;
    assert RepeatsIn(s) == RepeatsIn(s[..n]) + if RepeatsAt(s, n) then {n} else {};
  }

  lemma StepsGrow(s: seq<Sample>)
    requires |s| >= 2
    ensures |StepsBack(s)| == |StepsBack(s[..|s| - 1])| + if s[|s| - 1].t < s[|s| - 2].t then 1 else 0
  {
    var n := |s| - 1;
    assert StepsBack(s) == StepsBack(s[..n]) + if StepsBackAt(s, n) then {n} else {};
  }

  /** Between two samples the interpolant is their weighted mean. */
  lemma ValueBetween(s: seq<Sample>, i: nat, t: real)
    requires Increasing(s) && i + 1 < |s| && s[i].t <= t <= s[i + 1].t
    ensures Covers(s, t)
    ensures Value(s, t) * (s[i + 1].t - s[i].t) == s[i].y * (s[i + 1].t - t) + s[i + 1].y * (t - s[i].t)
  {
    ValueOnSegment(s, i, t);
    LineBetween(s[i], s[i + 1], t);
  }

  lemma LineBetween(p: Sample, q: Sample, t: real)
    requires p.t < q.t
    ensures Line(p, q, t) * (q.t - p.t) == p.y * (q.t - t) + q.y * (t - p.t)
  {
    LineBySlope(p, q, t);
    SlopeTimes(q.y - p.y, q.t - p.t);
    WeightedMean(p.y, q.y, t - p.t, q.t - t, q.t - p.t, Slope(p, q), Line(p, q, t));
  }

  lemma SlopeTimes(d: real, h: real)
    requires h > 0.0
    ensures d / h * h == d
  {}

  lemma WeightedMean(y: real, z: real, a: real, b: real, h: real, k: real, v: real)
    requires k * h == z - y && v == y + k * a && b == h - a
    ensures v * h == y * b + z * a
  {
    assert k * a * h == (k * h) * a;
    assert (z - y) * a == z * a - y * a;
    assert v * h == y * h + k * a * h;
  }
}
