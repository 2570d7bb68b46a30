/** Upward zero crossings of a signal and the frequency read from them. */
module Oscillation {
  import opened TimeSeries
  import opened TimeStatistics
  import opened Wrappers

  /** A signal passes from nonpositive to positive between two samples. */
  predicate Rises(p: Sample, q: Sample) {
    p.y <= 0.0 < q.y
  }

  function CrossingTime(p: Sample, q: Sample): real
    requires Rises(p, q)
  {
    p.t + (-p.y / (q.y - p.y)) * (q.t - p.t)
  }

  /** Crossing times of every rising segment, in order. */
  function Crossings(s: seq<Sample>): seq<real> {
    if |s| < 2 then []
    else
      var rest, p, q := Crossings(s[..|s| - 1]), s[|s| - 2], s[|s| - 1];
      if p.t < q.t && Rises(p, q) then rest + [CrossingTime(p, q)] else rest
  }

  method UpwardZeroCrossings(s: seq<Sample>) returns (crossings: seq<real>)
    ensures crossings == Crossings(s)
  {
    crossings := [];
    var i := 1;
    while i < |s|
      invariant 1 <= i && (i <= |s| ==> crossings == Crossings(s[..i])) && (i > |s| ==> s == [] && crossings == [])
    {
      var p, q := s[i - 1], s[i];
      assert s[..i + 1] == s[..i] + [q];
      if q.t > p.t {
        if p.y <= 0.0 < q.y {
          crossings := crossings + [CrossingTime(p, q)];
        }
      }
      i := i + 1;
    }
    assert i == |s| ==> s[..i] == s;
  }

  /** A crossing lies in its segment, before the segment's end, and it is where the
      interpolated signal is zero. */
  lemma CrossingInSegment(p: Sample, q: Sample)
    requires p.t < q.t && Rises(p, q)
    ensures p.t <= CrossingTime(p, q) < q.t
    ensures Line(p, q, CrossingTime(p, q)) == 0.0
  {
    var f := -p.y / (q.y - p.y);
    var offset := f * (q.t - p.t);
    FractionBelowOne(-p.y, q.y - p.y, f, q.t - p.t, offset);
    assert CrossingTime(p, q) == p.t + offset;
    CrossingZero(p, q, f);
  }

  lemma FractionBelowOne(a: real, d: real, f: real, h: real, offset: real)
    requires 0.0 <= a < d && f == a / d && h > 0.0 && offset == f * h
    ensures f * d == a && 0.0 <= offset < h
  {
    assert (f - 1.0) * d == f * d - d;
    DivideBound(a, 0.0, d);
    if f >= 1.0 {
      NonnegativeProduct(f - 1.0, d);
    }
    NonnegativeProduct(f, h);
    PositiveProduct(1.0 - f, h);
    assert (1.0 - f) * h == h - f * h;
  }

  lemma CrossingZero(p: Sample, q: Sample, f: real)
    requires p.t < q.t && f * (q.y - p.y) == -p.y
    ensures Line(p, q, p.t + f * (q.t - p.t)) == 0.0
  {
    var t, d, h := p.t + f * (q.t - p.t), q.y - p.y, q.t - p.t;
    assert t - p.t == f * h;
    assert d * (f * h) == -p.y * h;
    MulDiv(-p.y, h, h);
  }

  /** Main theorem: on a reconciled series the crossings are strictly increasing and inside
      the observed interval. */
  lemma {:induction false} CrossingsIncrease(s: seq<Sample>)
    requires Increasing(s)
    ensures forall i, j :: 0 <= i < j < |Crossings(s)| ==> Crossings(s)[i] < Crossings(s)[j]
    ensures forall i :: 0 <= i < |Crossings(s)| ==> s[0].t <= Crossings(s)[i] < s[|s| - 1].t
  {
    if |s| > 1 {
      var s', p, q := s[..|s| - 1], s[|s| - 2], s[|s| - 1];
      CrossingsIncrease(s');
      if Rises(p, q) {
        CrossingInSegment(p, q);
      }
    }
  }

  // ----- Frequency -----

  /** Gaps between neighbouring crossings, keeping the positive ones. */
  function Periods(c: seq<real>): seq<real> {
    if |c| < 2 then []
    else
      var rest, gap := Periods(c[..|c| - 1]), c[|c| - 1] - c[|c| - 2];
      if gap > 0.0 then rest + [gap] else rest
  }

  function Sum(xs: seq<real>): real {
    if xs == [] then 0.0 else Sum(xs[..|xs| - 1]) + xs[|xs| - 1]
  }

  ghost predicate IncreasingReals(c: seq<real>) {
    forall i, j :: 0 <= i < j < |c| ==> c[i] < c[j]
  }

  /** On increasing crossings the positivity filter removes nothing. */
  lemma {:induction false} PeriodsAreGaps(c: seq<real>)
    requires IncreasingReals(c) && c != []
    ensures |Periods(c)| == |c| - 1
    ensures forall i :: 0 <= i < |Periods(c)| ==> Periods(c)[i] == c[i + 1] - c[i]
  {
    if |c| > 1 {
      var c' := c[..|c| - 1];
      PeriodsAreGaps(c');
      assert Periods(c) == Periods(c') + [c[|c| - 1] - c[|c| - 2]];
    }
  }

  lemma {:induction false} GapsTelescope(xs: seq<real>, c: seq<real>)
    requires |c| == |xs| + 1 && forall i :: 0 <= i < |xs| ==> xs[i] == c[i + 1] - c[i]
    ensures Sum(xs) == c[|xs|] - c[0]
  {
    if xs != [] {
      GapsTelescope(xs[..|xs| - 1], c[..|xs|]);
    }
  }

  datatype Frequency = Frequency(value: real, periods: nat)

  method GapList(c: seq<real>) returns (periods: seq<real>)
    ensures periods == Periods(c)
  {
    periods := [];
    var i := 1;
    while i < |c|
      invariant 1 <= i && (i <= |c| ==> periods == Periods(c[..i])) && (i > |c| ==> c == [] && periods == [])
    {
      assert c[..i + 1] == c[..i] + [c[i]];
      if c[i] > c[i - 1] {
        periods := periods + [c[i] - c[i - 1]];
      }
      i := i + 1;
    }
    assert i == |c| ==> c[..i] == c;
  }

  function Shift(s: seq<Sample>, mean: real): seq<Sample> {
    seq(|s|, i requires 0 <= i < |s| => Sample(s[i].t, s[i].y - mean))
  }

  /** The number of periods over the time from the first crossing to the last. */
  ghost predicate IsFrequency(f: Frequency, c: seq<real>) {
    |c| >= 3 && c[|c| - 1] > c[0] && f.periods == |c| - 1 &&
    f.value * (c[|c| - 1] - c[0]) == (|c| - 1) as real
  }

  method SumOf(xs: seq<real>) returns (total: real)
    ensures total == Sum(xs)
  {
    total := 0.0;
    for i := 0 to |xs|
      invariant total == Sum(xs[..i])
    {
      assert xs[..i + 1][..i] == xs[..i];
      total := total + xs[i];
    }
    assert xs[..|xs|] == xs;
  }

  /** From at least three crossings, the reciprocal of the mean period: the number of
      periods over the time from the first crossing to the last. */
  method FrequencyOf(c: seq<real>) returns (r: Option<Frequency>)
    requires IncreasingReals(c)
    ensures r.Some? <==> |c| >= 3
    ensures r.Some? ==> IsFrequency(r.value, c)
  {
    if |c| < 3 {
      return None;
    }
    var periods := GapList(c);
    PeriodsAreGaps(c);
    if |periods| == 0 {
      return None;
    }
    var total := SumOf(periods);
    GapsTelescope(periods, c);
    var meanPeriod := total / |periods| as real;
    ReciprocalMean(total, |periods| as real, c[|c| - 1] - c[0]);
    if meanPeriod <= 0.0 {
      return None;
    }
    return Some(Frequency(1.0 / meanPeriod, |periods|));
  }

  /** Frequency of a reconciled signal about its mean, given at least five samples. */
  method EstimateFrequency(s: seq<Sample>, mean: real) returns (r: Option<Frequency>)
    requires Increasing(s)
    ensures r.Some? <==> (|s| >= 5 && |Crossings(Shift(s, mean))| >= 3)
    ensures r.Some? ==> IsFrequency(r.value, Crossings(Shift(s, mean)))
  {
    if |s| < 5 {
      return None;
    }
    var crossings := UpwardZeroCrossings(Shift(s, mean));
    CrossingsIncrease(Shift(s, mean));
    r := FrequencyOf(crossings);
  }

  lemma ReciprocalMean(total: real, n: real, span: real)
    requires total > 0.0 && n > 0.0 && span == total
    ensures total / n > 0.0 && (1.0 / (total / n)) * span == n
  {
    var m := total / n;
    assert m * n == total;
    if m <= 0.0 {
      NonnegativeProduct(-m, n);
    }
    var f := 1.0 / m;
    assert f * m == 1.0;
    assert f * total == (f * m) * n;
  }

  // ----- In plain numbers -----

  /** The signal rises through the level between this sample and the one before. */
  predicate RisesAt(s: seq<Sample>, level: real, i: nat) {
    0 < i < |s| && s[i - 1].y <= level < s[i].y
  }

  /** The time at which the line between the samples meets the level. */
  predicate MeetsAt(s: seq<Sample>, level: real, i: nat, c: real)
    requires 0 < i < |s|
  {
    s[i - 1].t <= c < s[i].t &&
    (c - s[i - 1].t) * (s[i].y - s[i - 1].y) == (level - s[i - 1].y) * (s[i].t - s[i - 1].t)
  }

  function RisesIn(s: seq<Sample>, level: real): set<nat> {
    set i: nat | i < |s| && RisesAt(s, level, i)
  }

  ghost predicate Crosses(s: seq<Sample>, level: real, c: real) {
    exists i: nat :: RisesAt(s, level, i) && MeetsAt(s, level, i, c)
  }

  lemma CrossingMeets(p: Sample, q: Sample)
    requires p.t < q.t && Rises(p, q)
    ensures (CrossingTime(p, q) - p.t) * (q.y - p.y) == -p.y * (q.t - p.t)
  {
    var d, h := q.y - p.y, q.t - p.t;
    var f := -p.y / d;
    assert f * d == -p.y;
    assert CrossingTime(p, q) - p.t == f * h;
    Exchange(f, h, d);
  }

  lemma Exchange(f: real, h: real, d: real)
    ensures (f * h) * d == (f * d) * h
  {}

  /** Main theorem: about the mean there is exactly one crossing for each rise through it, where
      the line between the two samples meets it. */
  lemma {:induction false} CrossingsExact(s: seq<Sample>, mean: real)
    requires Increasing(s)
    ensures |Crossings(Shift(s, mean))| == |RisesIn(s, mean)|
    ensures forall c :: c in Crossings(Shift(s, mean)) ==> Crosses(s, mean, c)
  {
    if |s| < 2 {
      assert RisesIn(s, mean) == {};
    } else {
      CrossingsExact(s[..|s| - 1], mean);
      RisesGrow(s, mean);
      CrossingsGrow(s, mean);
      CrossesKept(s, mean);
    }
  }

  lemma RisesGrow(s: seq<Sample>, mean: real)
    requires |s| >= 2
    ensures |RisesIn(s, mean)| == |RisesIn(s[..|s| - 1], mean)| + if RisesAt(s, mean, |s| - 1) then 1 else 0
  {
    var n := |s| - 1;
    assert RisesIn(s, mean) == RisesIn(s[..n], mean) + if RisesAt(s, mean, n) then {n} else {};
  }

  lemma CrossesKept(s: seq<Sample>, mean: real)
    requires |s| >= 2
    ensures forall c :: Crosses(s[..|s| - 1], mean, c) ==> Crosses(s, mean, c)
  {
    var n := |s| - 1;
    forall c | Crosses(s[..n], mean, c) ensures Crosses(s, mean, c) {
      var i: nat :| RisesAt(s[..n], mean, i) && MeetsAt(s[..n], mean, i, c);
      assert RisesAt(s, mean, i) && MeetsAt(s, mean, i, c);
    }
  }

  lemma CrossingsGrow(s: seq<Sample>, mean: real)
    requires |s| >= 2 && Increasing(s)
    ensures var n := |s| - 1;
      var before, after := Crossings(Shift(s[..n], mean)), Crossings(Shift(s, mean));
      if RisesAt(s, mean, n) then exists c :: after == before + [c] && Crosses(s, mean, c) else after == before
  {
    var n := |s| - 1;
    var p, q := Shift(s, mean)[n - 1], Shift(s, mean)[n];
    assert Shift(s, mean)[..n] == Shift(s[..n], mean);
    if RisesAt(s, mean, n) {
      CrossingMeets(p, q);
      CrossingInSegment(p, q);
      var c := CrossingTime(p, q);
      assert MeetsAt(s, mean, n, c);
      assert Crossings(Shift(s, mean)) == Crossings(Shift(s[..n], mean)) + [c] && Crosses(s, mean, c);
    }
  }
}
