/** The difference of two series that were sampled at different times. */
module SeriesDifference {
  import opened TimeSeries
  import opened TimeStatistics
  import opened Wrappers

  ghost predicate IncreasingTimes(ts: seq<real>) {
    forall i, j :: 0 <= i < j < |ts| ==> ts[i] < ts[j]
  }

  function Times(s: seq<Sample>): seq<real> {
    seq(|s|, i requires 0 <= i < |s| => s[i].t)
  }

  /** Union of two increasing lists of times, in order. */
  function Union(a: seq<real>, b: seq<real>): seq<real> {
    if a == [] then b
    else if b == [] then a
    else if a[0] == b[0] then [a[0]] + Union(a[1..], b[1..])
    else if a[0] < b[0] then [a[0]] + Union(a[1..], b)
    else [b[0]] + Union(a, b[1..])
  }

  lemma {:induction false} UnionMembers(a: seq<real>, b: seq<real>)
    ensures forall t :: t in Union(a, b) <==> t in a || t in b
    decreases |a| + |b|
  {
    if a != [] && b != [] {
      assert a == [a[0]] + a[1..] && b == [b[0]] + b[1..];
      if a[0] == b[0] {
        UnionMembers(a[1..], b[1..]);
      } else if a[0] < b[0] {
        UnionMembers(a[1..], b);
      } else {
        UnionMembers(a, b[1..]);
      }
    }
  }

  lemma ConsIncreasing(t: real, ts: seq<real>)
    requires IncreasingTimes(ts) && forall u :: u in ts ==> t < u
    ensures IncreasingTimes([t] + ts)
  {
    forall i | 0 <= i < |ts| ensures t < ts[i] {
      assert ts[i] in ts;
    }
  }

  /** The union is the increasing list of all times of both. */
  lemma {:induction false} UnionIncreasing(a: seq<real>, b: seq<real>)
    requires IncreasingTimes(a) && IncreasingTimes(b)
    ensures IncreasingTimes(Union(a, b))
    decreases |a| + |b|
  {
    if a != [] && b != [] {
      if a[0] == b[0] {
        UnionIncreasing(a[1..], b[1..]);
        UnionMembers(a[1..], b[1..]);
        ConsIncreasing(a[0], Union(a[1..], b[1..]));
      } else if a[0] < b[0] {
        UnionIncreasing(a[1..], b);
        UnionMembers(a[1..], b);
        ConsIncreasing(a[0], Union(a[1..], b));
      } else {
        UnionIncreasing(a, b[1..]);
        UnionMembers(a, b[1..]);
        ConsIncreasing(b[0], Union(a, b[1..]));
      }
    }
  }

  /** The first step of merging what is left of two grids. */
  lemma UnionStep(a: seq<real>, b: seq<real>, i: nat, j: nat)
    requires i < |a| && j < |b|
    ensures Union(a[i..], b[j..]) ==
      if a[i] == b[j] then [a[i]] + Union(a[i + 1..], b[j + 1..])
      else if a[i] < b[j] then [a[i]] + Union(a[i + 1..], b[j..])
      else [b[j]] + Union(a[i..], b[j + 1..])
  {
    assert a[i..][1..] == a[i + 1..] && b[j..][1..] == b[j + 1..];
  }

  lemma Regroup(ts: seq<real>, t: real, rest: seq<real>)
    ensures ts + ([t] + rest) == ts + [t] + rest
  {}

  method MergeTimes(a: seq<real>, b: seq<real>) returns (ts: seq<real>)
    ensures ts == Union(a, b)
  {
    ts := [];
    var i, j := 0, 0;
    while i < |a| && j < |b|
      invariant i <= |a| && j <= |b| && ts + Union(a[i..], b[j..]) == Union(a, b)
      decreases |a| + |b| - i - j
    {
      UnionStep(a, b, i, j);
      var t := if a[i] <= b[j] then a[i] else b[j];
      var i', j' := if a[i] <= b[j] then i + 1 else i, if b[j] <= a[i] then j + 1 else j;
      Regroup(ts, t, Union(a[i'..], b[j'..]));
      ts, i, j := ts + [t], i', j';
    }
    ts := ts + a[i..] + b[j..];
  }

  // ----- Series on a common grid -----

  ghost predicate CoversAll(s: seq<Sample>, ts: seq<real>) {
    forall i :: 0 <= i < |ts| ==> Covers(s, ts[i])
  }

  ghost function Resample(s: seq<Sample>, ts: seq<real>): seq<Sample>
    requires CoversAll(s, ts)
  {
    seq(|ts|, i requires 0 <= i < |ts| => Sample(ts[i], Value(s, ts[i])))
  }

  /** Pointwise difference of two interpolants on a grid. */
  ghost function Difference(a: seq<Sample>, b: seq<Sample>, ts: seq<real>): seq<Sample>
    requires CoversAll(a, ts) && CoversAll(b, ts)
  {
    seq(|ts|, i requires 0 <= i < |ts| => Sample(ts[i], Value(a, ts[i]) - Value(b, ts[i])))
  }

  lemma ResampleRefines(s: seq<Sample>, ts: seq<real>)
    requires Increasing(s) && ts != [] && IncreasingTimes(ts) && CoversAll(s, ts)
    requires forall j :: 0 <= j < |s| ==> s[j].t in ts
    ensures Refines(Resample(s, ts), s)
  {
    var r := Resample(s, ts);
    forall j | 0 <= j < |s| ensures HasTime(r, s[j].t) {
      var i :| 0 <= i < |ts| && ts[i] == s[j].t;
      assert r[i].t == s[j].t;
    }
  }

  lemma GridPrefix(a: seq<Sample>, b: seq<Sample>, ts: seq<real>, n: nat)
    requires CoversAll(a, ts) && CoversAll(b, ts) && n <= |ts|
    ensures CoversAll(a, ts[..n]) && CoversAll(b, ts[..n])
    ensures Difference(a, b, ts)[..n] == Difference(a, b, ts[..n])
    ensures Resample(a, ts)[..n] == Resample(a, ts[..n]) && Resample(b, ts)[..n] == Resample(b, ts[..n])
  {}

  lemma {:induction false} DifferenceIntegral(a: seq<Sample>, b: seq<Sample>, ts: seq<real>)
    requires CoversAll(a, ts) && CoversAll(b, ts)
    ensures Integral(Difference(a, b, ts)) == Integral(Resample(a, ts)) - Integral(Resample(b, ts))
  {
    if |ts| > 1 {
      var n := |ts| - 1;
      var ts' := ts[..n];
      DifferenceIntegral(a, b, ts');
      var d, p, q := Difference(a, b, ts), Resample(a, ts), Resample(b, ts);
      GridPrefix(a, b, ts, n);
      TrapezoidDifference(ts[n - 1], ts[n], p[n - 1].y, p[n].y, q[n - 1].y, q[n].y);
    }
  }

  lemma TrapezoidDifference(t: real, u: real, y: real, z: real, y': real, z': real)
    ensures Trapezoid(Sample(t, y - y'), Sample(u, z - z')) ==
            Trapezoid(Sample(t, y), Sample(u, z)) - Trapezoid(Sample(t, y'), Sample(u, z'))
  {
    var h := u - t;
    assert h * ((y - y') + (z - z')) == h * (y + z) - h * (y' + z');
  }

  ghost predicate CommonInterval(a: seq<Sample>, b: seq<Sample>, start: real, end: real) {
    Covers(a, start) && Covers(a, end) && Covers(b, start) && Covers(b, end) && start <= end
  }

  /** The common grid of two windows over one interval. */
  ghost function CommonGrid(a: seq<Sample>, b: seq<Sample>, start: real, end: real): seq<real>
    requires CommonInterval(a, b, start, end)
  {
    Union(Times(WindowOf(a, start, end)), Times(WindowOf(b, start, end)))
  }

  lemma WindowTimes(s: seq<Sample>, start: real, end: real)
    requires Covers(s, start) && Covers(s, end) && start <= end
    ensures IncreasingTimes(Times(WindowOf(s, start, end)))
    ensures start in Times(WindowOf(s, start, end)) && end in Times(WindowOf(s, start, end))
    ensures forall t :: t in Times(WindowOf(s, start, end)) ==> start <= t <= end
  {
    WindowIncreasing(s, start, end);
    var w := WindowOf(s, start, end);
    assert Times(w)[0] == start && Times(w)[|w| - 1] == end;
    forall t | t in Times(w) ensures start <= t <= end {
      var i :| 0 <= i < |w| && Times(w)[i] == t;
      assert w[0].t <= w[i].t <= w[|w| - 1].t;
    }
  }

  /** The common grid runs from start to end, and both windows cover it. */
  lemma CommonGridFacts(a: seq<Sample>, b: seq<Sample>, start: real, end: real)
    requires CommonInterval(a, b, start, end)
    ensures var ts := CommonGrid(a, b, start, end);
      ts != [] && IncreasingTimes(ts) && ts[0] == start && ts[|ts| - 1] == end &&
      CoversAll(WindowOf(a, start, end), ts) && CoversAll(WindowOf(b, start, end), ts)
    ensures start < end ==> |CommonGrid(a, b, start, end)| >= 2
  {
    var wa, wb := WindowOf(a, start, end), WindowOf(b, start, end);
    var ts := CommonGrid(a, b, start, end);
    WindowTimes(a, start, end);
    WindowTimes(b, start, end);
    WindowIncreasing(a, start, end);
    WindowIncreasing(b, start, end);
    UnionMembers(Times(wa), Times(wb));
    UnionIncreasing(Times(wa), Times(wb));
    forall i | 0 <= i < |ts| ensures start <= ts[i] <= end {
      assert ts[i] in ts;
    }
    assert start in ts && end in ts;
    var i :| 0 <= i < |ts| && ts[i] == start;
    var j :| 0 <= j < |ts| && ts[j] == end;
    assert ts[0] <= ts[i] && ts[j] <= ts[|ts| - 1];
  }

  /** Main theorem: on the common grid the difference has the difference of the exact
      integrals of the two original interpolants. */
  lemma DifferenceOfIntegrals(a: seq<Sample>, b: seq<Sample>, start: real, end: real)
    requires CommonInterval(a, b, start, end)
    ensures var ts := CommonGrid(a, b, start, end);
      var wa, wb := WindowOf(a, start, end), WindowOf(b, start, end);
      CoversAll(wa, ts) && CoversAll(wb, ts) &&
      Integral(Difference(wa, wb, ts)) == AreaBetween(a, start, end) - AreaBetween(b, start, end)
  {
    var ts := CommonGrid(a, b, start, end);
    var wa, wb := WindowOf(a, start, end), WindowOf(b, start, end);
    CommonGridFacts(a, b, start, end);
    UnionMembers(Times(wa), Times(wb));
    WindowOnGrid(a, start, end, ts);
    WindowOnGrid(b, start, end, ts);
    DifferenceIntegral(wa, wb, ts);
  }

  lemma WindowOnGrid(s: seq<Sample>, start: real, end: real, ts: seq<real>)
    requires Covers(s, start) && Covers(s, end) && start <= end
    requires ts != [] && IncreasingTimes(ts) && ts[0] == start && ts[|ts| - 1] == end
    requires forall t :: t in Times(WindowOf(s, start, end)) ==> t in ts
    requires CoversAll(WindowOf(s, start, end), ts)
    ensures Integral(Resample(WindowOf(s, start, end), ts)) == AreaBetween(s, start, end)
  {
    var w := WindowOf(s, start, end);
    WindowIncreasing(s, start, end);
    assert Refines(Resample(w, ts), w) by {
      forall j | 0 <= j < |w| ensures w[j].t in ts {
        assert Times(w)[j] in Times(w);
      }
      ResampleRefines(w, ts);
    }
    RefinementIntegral(Resample(w, ts), w);
    AreaOfWhole(w);
    WindowIntegral(s, start, end);
  }

  /** A series' trapezoid sum is the area of its interpolant. */
  lemma AreaOfWhole(w: seq<Sample>)
    requires w != [] && Increasing(w)
    ensures Covers(w, w[0].t) && Covers(w, w[|w| - 1].t)
    ensures Integral(w) == Area(w, w[|w| - 1].t) - Area(w, w[0].t)
  {
    forall i | 0 <= i < |w| ensures Covers(w, w[i].t) && w[i].y == Value(w, w[i].t) {
      ValueAtSample(w, i);
    }
    assert Refines(w, w) by {
      forall j | 0 <= j < |w| ensures HasTime(w, w[j].t) {}
    }
    RefinementIntegral(w, w);
  }

  // ----- The analysis -----

  /** Mean of the exact interpolant over an interval. */
  ghost function MeanOver(s: seq<Sample>, start: real, end: real): real
    requires Covers(s, start) && Covers(s, end) && start < end
  {
    AreaBetween(s, start, end) / (end - start)
  }

  method SampleDifference(a: seq<Sample>, b: seq<Sample>, ts: seq<real>) returns (d: seq<Sample>)
    requires CoversAll(a, ts) && CoversAll(b, ts) && Increasing(a) && Increasing(b)
    ensures d == Difference(a, b, ts)
  {
    d := [];
    for i := 0 to |ts|
      invariant d == Difference(a, b, ts)[..i]
    {
      var x := Interpolate(a, ts[i]);
      var y := Interpolate(b, ts[i]);
      d := d + [Sample(ts[i], x.value - y.value)];
    }
  }

  function StartOf(a: seq<Sample>, b: seq<Sample>, start: Option<real>): real
    requires a != [] && b != []
  {
    if start.Some? then start.value else if a[0].t < b[0].t then b[0].t else a[0].t
  }

  function EndOf(a: seq<Sample>, b: seq<Sample>, end: Option<real>): real
    requires a != [] && b != []
  {
    if end.Some? then end.value else if a[|a| - 1].t < b[|b| - 1].t then a[|a| - 1].t else b[|b| - 1].t
  }

  ghost predicate Analyzable(a: seq<Sample>, b: seq<Sample>, start: Option<real>, end: Option<real>, minimum: nat)
    requires a != [] && b != []
  {
    |a| >= minimum && |b| >= minimum &&
    CommonInterval(a, b, StartOf(a, b, start), EndOf(a, b, end)) &&
    StartOf(a, b, start) < EndOf(a, b, end) &&
    |CommonGrid(a, b, StartOf(a, b, start), EndOf(a, b, end))| >= minimum
  }

  /** The mean of the difference is the difference of the means. */
  lemma MeanOfDifference(a: seq<Sample>, b: seq<Sample>, from: real, to: real, d: seq<Sample>)
    requires CommonInterval(a, b, from, to) && from < to
    requires var ts := CommonGrid(a, b, from, to);
      CoversAll(WindowOf(a, from, to), ts) && CoversAll(WindowOf(b, from, to), ts) &&
      d == Difference(WindowOf(a, from, to), WindowOf(b, from, to), ts)
    ensures Duration(d) == to - from
    ensures Integral(d) / Duration(d) == MeanOver(a, from, to) - MeanOver(b, from, to)
  {
    CommonGridFacts(a, b, from, to);
    DifferenceOfIntegrals(a, b, from, to);
    DurationIsSpan(d);
    SplitQuotient(AreaBetween(a, from, to), AreaBetween(b, from, to), to - from);
  }

  /** Both windows, put on their common grid and subtracted. */
  method CommonDifference(a: seq<Sample>, b: seq<Sample>, from: real, to: real) returns (r: Result<seq<Sample>, Reason>)
    requires Increasing(a) && Increasing(b) && a != [] && b != []
    ensures r.Ok? <==> CommonInterval(a, b, from, to)
    ensures r.Ok? ==> var ts := CommonGrid(a, b, from, to);
      CoversAll(WindowOf(a, from, to), ts) && CoversAll(WindowOf(b, from, to), ts) &&
      r.value == Difference(WindowOf(a, from, to), WindowOf(b, from, to), ts)
  {
    var wa := Window(a, Some(from), Some(to));
    if wa.Err? {
      return Err(wa.error);
    }
    var wb := Window(b, Some(from), Some(to));
    if wb.Err? {
      return Err(wb.error);
    }
    var times := MergeTimes(Times(wa.value), Times(wb.value));
    CommonGridFacts(a, b, from, to);
    WindowIncreasing(a, from, to);
    WindowIncreasing(b, from, to);
    var d := SampleDifference(wa.value, wb.value, times);
    return Ok(d);
  }

  /** The difference analysis of two reconciled series, whenever both are long enough and
      observed over the whole interval: the reported value is the difference of the two
      time means. */
  method AnalyzeDifference(a: seq<Sample>, b: seq<Sample>, start: Option<real>, end: Option<real>, minimum: nat)
    returns (r: Result<real, Reason>)
    requires Increasing(a) && Increasing(b) && minimum >= 1
    ensures r.Ok? <==> (a != [] && b != [] && Analyzable(a, b, start, end, minimum))
    ensures r.Ok? ==> r.value == MeanOver(a, StartOf(a, b, start), EndOf(a, b, end)) -
                                 MeanOver(b, StartOf(a, b, start), EndOf(a, b, end))
  {
    if |a| < minimum || |b| < minimum {
      return Err(InsufficientSamples);
    }
    var from, to := StartOf(a, b, start), EndOf(a, b, end);
    var series := CommonDifference(a, b, from, to);
    if series.Err? {
      return Err(series.error);
    }
    CommonGridFacts(a, b, from, to);
    if |series.value| < minimum {
      return Err(InsufficientSamples);
    }
    var stats := ComputeStatistics(series.value);
    if stats.Err? {
      return Err(stats.error);
    }
    MeanOfDifference(a, b, from, to, series.value);
    return Ok(stats.value.timeMean);
  }

  lemma SplitQuotient(x: real, y: real, d: real)
    requires d != 0.0
    ensures (x - y) / d == x / d - y / d
  {
    var p, q := x / d, y / d;
    assert p * d == x && q * d == y;
    assert (p - q) * d == x - y;
  }

  // ----- In plain numbers -----

  lemma TimesExact(s: seq<Sample>, t: real)
    ensures t in Times(s) <==> HasTime(s, t)
  {
    if t in Times(s) {
      var i :| 0 <= i < |s| && Times(s)[i] == t;
      assert s[i].t == t;
    }
    if i :| 0 <= i < |s| && s[i].t == t {
      assert Times(s)[i] == t;
    }
  }

  /** The difference is taken at both ends and at every sample time of either series between. */
  lemma GridTimesExact(a: seq<Sample>, b: seq<Sample>, from: real, to: real, t: real)
    requires CommonInterval(a, b, from, to)
    ensures t in CommonGrid(a, b, from, to) <==>
      t == from || t == to || (from < t < to && (HasTime(a, t) || HasTime(b, t)))
  {
    UnionMembers(Times(WindowOf(a, from, to)), Times(WindowOf(b, from, to)));
    TimesExact(WindowOf(a, from, to), t);
    TimesExact(WindowOf(b, from, to), t);
    WindowTimesExact(a, from, to, t);
    WindowTimesExact(b, from, to, t);
  }

  /** Without a declared interval the difference is taken over all times both series cover. */
  lemma DefaultIntervalExact(a: seq<Sample>, b: seq<Sample>, t: real)
    requires Increasing(a) && Increasing(b) && a != [] && b != []
    ensures Covers(a, t) && Covers(b, t) <==> StartOf(a, b, None) <= t <= EndOf(a, b, None)
    ensures CommonInterval(a, b, StartOf(a, b, None), EndOf(a, b, None)) <==>
      StartOf(a, b, None) <= EndOf(a, b, None)
  {}

  /** A declared end of the interval is used as it is. */
  lemma DeclaredInterval(a: seq<Sample>, b: seq<Sample>, t: real)
    requires a != [] && b != []
    ensures StartOf(a, b, Some(t)) == t == EndOf(a, b, Some(t))
  {}
}
