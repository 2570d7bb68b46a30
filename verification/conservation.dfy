/** Conservation checks on saved samples, and what passing them says about the whole
    observed window and about neighbouring regions taken together. */
module Conservation {
  import opened TimeSeries
  import Assembly = MeshAssembly

  /** One saved time of one region. */
  datatype Observation = Observation(time: real, storage: real, source: real, outwardFlux: real,
                                     absoluteFlux: real, patches: map<string, real>)

  datatype Interval = Interval(start: real, end: real, residual: real, tolerance: real, passed: bool)

  function Abs(x: real): real { if x < 0.0 then -x else x }

  ghost predicate IncreasingObservations(obs: seq<Observation>) {
    forall i, j :: 0 <= i < j < |obs| ==> obs[i].time < obs[j].time
  }

  // ----- Flux over the boundary -----

  function AbsValue(f: nat -> real): nat -> real {
    (i: nat) => Abs(f(i))
  }

  ghost predicate PatchSums(f: nat -> real, patches: seq<Assembly.Patch>, sums: map<string, real>) {
    forall j :: 0 <= j < |patches| ==> PatchSum(f, patches[j], sums)
  }

  ghost predicate PatchSum(f: nat -> real, p: Assembly.Patch, sums: map<string, real>) {
    p.name in sums && sums[p.name] == Assembly.SumOver(f, Assembly.FaceRange(p.start, p.count))
  }

  function PatchNames(patches: seq<Assembly.Patch>): set<string> {
    set p | p in patches :: p.name
  }

  /** The sums over the first patches, by name and in total. */
  ghost predicate SummedSoFar(f: nat -> real, patches: seq<Assembly.Patch>, sums: map<string, real>, total: real) {
    && PatchSums(f, patches, sums) && sums.Keys == PatchNames(patches)
    && total == Assembly.PatchTotal(f, patches)
  }

  lemma OneMorePatch(f: nat -> real, patches: seq<Assembly.Patch>, p: Assembly.Patch, sums: map<string, real>,
                     total: real, sum: real)
    requires SummedSoFar(f, patches, sums, total) && p.name !in sums
    requires sum == Assembly.SumOver(f, Assembly.FaceRange(p.start, p.count))
    ensures SummedSoFar(f, patches + [p], sums[p.name := sum], total + sum)
  {
    var more, after := patches + [p], sums[p.name := sum];
    assert more[..|patches|] == patches;
    forall j | 0 <= j < |more| ensures PatchSum(f, more[j], after) {
      if j < |patches| {
        assert PatchSum(f, patches[j], sums);
      }
    }
  }

  /** Sum a face flux over each patch and over all patches. */
  method SumPatches(f: nat -> real, patches: seq<Assembly.Patch>) returns (sums: map<string, real>, total: real)
    requires Assembly.DistinctNames(patches)
    ensures PatchSums(f, patches, sums) && sums.Keys == PatchNames(patches)
    ensures total == Assembly.PatchTotal(f, patches)
  {
    sums, total := map[], 0.0;
    for i := 0 to |patches|
      invariant SummedSoFar(f, patches[..i], sums, total)
    {
      var p := patches[i];
      var sum := SumFaces(f, p.start, p.count);
      assert patches[..i + 1] == patches[..i] + [p];
      OneMorePatch(f, patches[..i], p, sums, total, sum);
      sums := sums[p.name := sum];
      total := total + sum;
    }
    assert patches[..|patches|] == patches;
  }

  /** Per-patch sums of a face flux, their total and the total magnitude.  On patches that
      cover the boundary the totals count every external face once. */
  method ObserveFlux(f: nat -> real, patches: seq<Assembly.Patch>, ghost internalFaces: nat, ghost faces: nat,
                     ghost allowProcessor: bool)
    returns (sums: map<string, real>, outward: real, magnitude: real)
    requires Assembly.CoversBoundary(patches, internalFaces, faces, allowProcessor)
    ensures PatchSums(f, patches, sums) && sums.Keys == PatchNames(patches)
    ensures outward == Assembly.SumOver(f, Assembly.FaceRange(internalFaces, faces - internalFaces))
    ensures magnitude == Assembly.SumOver(AbsValue(f), Assembly.FaceRange(internalFaces, faces - internalFaces))
  {
    sums, outward := SumPatches(f, patches);
    var _, size := SumPatches(AbsValue(f), patches);
    magnitude := size;
    Assembly.PatchesCountEachExternalFaceOnce(f, patches, internalFaces, faces, allowProcessor);
    Assembly.PatchesCountEachExternalFaceOnce(AbsValue(f), patches, internalFaces, faces, allowProcessor);
  }

  method SumFaces(f: nat -> real, start: nat, count: nat) returns (total: real)
    ensures total == Assembly.SumOver(f, Assembly.FaceRange(start, count))
  {
    total := 0.0;
    for i := 0 to count
      invariant total == Assembly.SumOver(f, Assembly.FaceRange(start, i))
    {
      var r := Assembly.FaceRange(start, i + 1);
      assert r[..i] == Assembly.FaceRange(start, i);
      total := total + f(start + i);
    }
  }

  // ----- Intervals -----

  function Residual(a: Observation, b: Observation): real
    requires a.time < b.time
  {
    (b.storage - a.storage) / (b.time - a.time) + (a.outwardFlux + b.outwardFlux) / 2.0 - (a.source + b.source) / 2.0
  }

  function Scale(a: Observation, b: Observation): real
    requires a.time < b.time
  {
    Abs((b.storage - a.storage) / (b.time - a.time)) + (a.absoluteFlux + b.absoluteFlux) / 2.0 +
    (Abs(a.source) + Abs(b.source)) / 2.0
  }

  datatype Limits = Limits(absolute: real, relative: real)

  function IntervalOf(a: Observation, b: Observation, limits: Limits): Interval
    requires a.time < b.time
  {
    var residual := Residual(a, b);
    var tolerance := limits.absolute + limits.relative * Scale(a, b);
    Interval(a.time, b.time, residual, tolerance, Abs(residual) <= tolerance)
  }

  method BalanceIntervals(obs: seq<Observation>, limits: Limits) returns (intervals: seq<Interval>)
    requires IncreasingObservations(obs)
    ensures |intervals| == if obs == [] then 0 else |obs| - 1
    ensures forall i :: 0 <= i < |intervals| ==> intervals[i] == IntervalOf(obs[i], obs[i + 1], limits)
  {
    intervals := [];
    var i := 1;
    while i < |obs|
      invariant 1 <= i && |intervals| == i - 1 && (obs != [] ==> i <= |obs|) && (obs == [] ==> i == 1)
      invariant forall j :: 0 <= j < |intervals| ==> intervals[j] == IntervalOf(obs[j], obs[j + 1], limits)
    {
      var a, b := obs[i - 1], obs[i];
      var dt := b.time - a.time;
      var change := (b.storage - a.storage) / dt;
      var flux, source := (a.outwardFlux + b.outwardFlux) / 2.0, (a.source + b.source) / 2.0;
      var residual := change + flux - source;
      var scale := Abs(change) + (a.absoluteFlux + b.absoluteFlux) / 2.0 + (Abs(a.source) + Abs(b.source)) / 2.0;
      var allowed := limits.absolute + limits.relative * scale;
      intervals := intervals + [Interval(a.time, b.time, residual, allowed, Abs(residual) <= allowed)];
      i := i + 1;
    }
  }

  // ----- The whole window -----

  function FluxSeries(obs: seq<Observation>): seq<Sample> {
    seq(|obs|, i requires 0 <= i < |obs| => Sample(obs[i].time, obs[i].outwardFlux))
  }

  function SourceSeries(obs: seq<Observation>): seq<Sample> {
    seq(|obs|, i requires 0 <= i < |obs| => Sample(obs[i].time, obs[i].source))
  }

  /** Change of storage, plus what flowed out, minus what was generated, over the window. */
  function WindowImbalance(obs: seq<Observation>): real
    requires obs != []
  {
    obs[|obs| - 1].storage - obs[0].storage + Integral(FluxSeries(obs)) - Integral(SourceSeries(obs))
  }

  /** A quantity of neighbouring observations, summed over the window. */
  function PairSum(w: (Observation, Observation) -> real, obs: seq<Observation>): real {
    if |obs| < 2 then 0.0 else PairSum(w, obs[..|obs| - 1]) + w(obs[|obs| - 2], obs[|obs| - 1])
  }

  /** An interval's residual, weighted by its length. */
  function Gain(a: Observation, b: Observation): real {
    if a.time < b.time then (b.time - a.time) * Residual(a, b) else 0.0
  }

  /** An interval's tolerance, weighted by its length. */
  function Allowance(limits: Limits): (Observation, Observation) -> real {
    (a: Observation, b: Observation) =>
      if a.time < b.time then (b.time - a.time) * IntervalOf(a, b, limits).tolerance else 0.0
  }

  function ToleranceSum(obs: seq<Observation>, limits: Limits): real {
    PairSum(Allowance(limits), obs)
  }

  ghost predicate AllPass(obs: seq<Observation>, limits: Limits)
    requires IncreasingObservations(obs)
  {
    forall i :: 0 < i < |obs| ==> IntervalOf(obs[i - 1], obs[i], limits).passed
  }

  /** An interval's residual, times its length, is its part of the window's imbalance. */
  lemma IntervalImbalance(a: Observation, b: Observation)
    requires a.time < b.time
    ensures (b.time - a.time) * Residual(a, b) ==
      b.storage - a.storage +
      Trapezoid(Sample(a.time, a.outwardFlux), Sample(b.time, b.outwardFlux)) -
      Trapezoid(Sample(a.time, a.source), Sample(b.time, b.source))
  {
    var h, change := b.time - a.time, (b.storage - a.storage) / (b.time - a.time);
    assert change * h == b.storage - a.storage;
  }

  /** An interval passes exactly when what it stores and loses, minus what is generated, is
      within the absolute tolerance over its length plus the relative tolerance of the amounts
      stored, exchanged and generated. */
  lemma IntervalPassesExact(a: Observation, b: Observation, limits: Limits)
    requires a.time < b.time
    ensures var h, i := b.time - a.time, IntervalOf(a, b, limits);
      i.start == a.time && i.end == b.time &&
      h * i.tolerance == h * limits.absolute +
        limits.relative * (Abs(b.storage - a.storage) + h * (a.absoluteFlux + b.absoluteFlux) / 2.0 +
                           h * (Abs(a.source) + Abs(b.source)) / 2.0) &&
      (i.passed <==> Abs(h * i.residual) <= h * i.tolerance)
  {
    var h, i := b.time - a.time, IntervalOf(a, b, limits);
    var change := (b.storage - a.storage) / h;
    var flux, source := (a.absoluteFlux + b.absoluteFlux) / 2.0, (Abs(a.source) + Abs(b.source)) / 2.0;
    assert change * h == b.storage - a.storage;
    ScaledAbs(h, change, b.storage - a.storage);
    assert Scale(a, b) == Abs(change) + flux + source;
    ScaledSum(h, limits.relative, Abs(change), flux, source);
    ScaledAbs(h, i.residual, h * i.residual);
    Compare(h, Abs(i.residual), i.tolerance);
  }

  lemma ScaledAbs(h: real, x: real, scaled: real)
    requires h > 0.0 && scaled == h * x
    ensures Abs(scaled) == h * Abs(x)
  {}

  lemma ScaledSum(h: real, r: real, a: real, b: real, c: real)
    ensures h * (r * (a + b + c)) == r * (h * a + h * b + h * c)
  {}

  lemma Compare(h: real, x: real, y: real)
    requires h > 0.0
    ensures x <= y <==> h * x <= h * y
  {}

  lemma ScaledBound(h: real, x: real, limit: real, scaled: real)
    requires h > 0.0 && Abs(x) <= limit && scaled == h * x
    ensures -(h * limit) <= scaled <= h * limit
  {}

  lemma {:induction false} AbsPairSum(g: (Observation, Observation) -> real, l: (Observation, Observation) -> real,
                                      obs: seq<Observation>)
    requires forall i :: 0 < i < |obs| ==> Abs(g(obs[i - 1], obs[i])) <= l(obs[i - 1], obs[i])
    ensures Abs(PairSum(g, obs)) <= PairSum(l, obs)
  {
    if |obs| > 1 {
      AbsPairSum(g, l, obs[..|obs| - 1]);
    }
  }

  /** The window's imbalance is the sum of its intervals' weighted residuals. */
  lemma {:induction false} ImbalanceIsSum(obs: seq<Observation>)
    requires obs != [] && IncreasingObservations(obs)
    ensures WindowImbalance(obs) == PairSum(Gain, obs)
  {
    if |obs| > 1 {
      ImbalanceIsSum(obs[..|obs| - 1]);
      ImbalanceStep(obs);
    }
  }

  lemma PassedInterval(a: Observation, b: Observation, limits: Limits)
    requires a.time < b.time && IntervalOf(a, b, limits).passed
    ensures Abs(Gain(a, b)) <= Allowance(limits)(a, b)
  {
    ScaledBound(b.time - a.time, Residual(a, b), IntervalOf(a, b, limits).tolerance, Gain(a, b));
  }

  /** Main theorem: when every interval passes, the exact imbalance of the whole window is
      bounded by the accumulated tolerance. */
  lemma WindowBalance(obs: seq<Observation>, limits: Limits)
    requires obs != [] && IncreasingObservations(obs) && AllPass(obs, limits)
    ensures Abs(WindowImbalance(obs)) <= ToleranceSum(obs, limits)
  {
    var g, l := Gain, Allowance(limits);
    forall i | 0 < i < |obs| ensures Abs(g(obs[i - 1], obs[i])) <= l(obs[i - 1], obs[i]) {
      PassedInterval(obs[i - 1], obs[i], limits);
    }
    ImbalanceIsSum(obs);
    AbsPairSum(g, l, obs);
  }

  lemma ImbalanceStep(obs: seq<Observation>)
    requires |obs| > 1 && IncreasingObservations(obs)
    ensures var n := |obs| - 1;
      WindowImbalance(obs) - WindowImbalance(obs[..n]) == Gain(obs[n - 1], obs[n])
  {
    var n := |obs| - 1;
    IntervalImbalance(obs[n - 1], obs[n]);
    assert FluxSeries(obs)[..n] == FluxSeries(obs[..n]);
    assert SourceSeries(obs)[..n] == SourceSeries(obs[..n]);
  }

  // ----- Interfaces -----

  datatype Interface = Interface(region: string, patch: string, neighbourRegion: string, neighbourPatch: string)

  /** Both sides of an interface, in no particular order. */
  type Key = multiset<(string, string)>

  function KeyOf(i: Interface): Key {
    multiset{(i.region, i.patch), (i.neighbourRegion, i.neighbourPatch)}
  }

  datatype InterfaceCheck = InterfaceCheck(key: Key, time: real, residual: real, tolerance: real, passed: bool)

  datatype InterfaceResult = Checks(checks: seq<InterfaceCheck>) | MissingRegion | MissingPatch

  function Judge(key: Key, time: real, q1: real, q2: real, limits: Limits): InterfaceCheck {
    var residual, tolerance := q1 + q2, limits.absolute + limits.relative * (Abs(q1) + Abs(q2));
    InterfaceCheck(key, time, residual, tolerance, Abs(residual) <= tolerance)
  }

  ghost predicate SameTimes(observations: map<string, seq<Observation>>) {
    forall r, s :: r in observations && s in observations ==>
      |observations[r]| == |observations[s]| &&
      forall k :: 0 <= k < |observations[r]| ==> observations[r][k].time == observations[s][k].time
  }

  /** Some side of the interface belongs to an observed region. */
  predicate Relevant(observations: map<string, seq<Observation>>, i: Interface) {
    i.region in observations || i.neighbourRegion in observations
  }

  predicate BothRegions(observations: map<string, seq<Observation>>, i: Interface) {
    i.region in observations && i.neighbourRegion in observations
  }

  /** Both patches are present at the k-th saved time. */
  predicate PatchesAt(observations: map<string, seq<Observation>>, i: Interface, k: nat)
    requires BothRegions(observations, i)
  {
    k < |observations[i.region]| && k < |observations[i.neighbourRegion]| &&
    i.patch in observations[i.region][k].patches && i.neighbourPatch in observations[i.neighbourRegion][k].patches
  }

  /** Both regions are observed, with both patches at every saved time. */
  predicate Judgeable(observations: map<string, seq<Observation>>, i: Interface) {
    BothRegions(observations, i) && forall k :: 0 <= k < |observations[i.region]| ==> PatchesAt(observations, i, k)
  }

  /** The flux balance of an interface at the k-th saved time. */
  function JudgementAt(observations: map<string, seq<Observation>>, i: Interface, k: nat,
                       limits: Limits): InterfaceCheck
    requires BothRegions(observations, i) && PatchesAt(observations, i, k)
  {
    var x, y := observations[i.region][k], observations[i.neighbourRegion][k];
    Judge(KeyOf(i), x.time, x.patches[i.patch], y.patches[i.neighbourPatch], limits)
  }

  /** An interface passes at a time exactly when the two fluxes cancel up to the absolute
      tolerance plus the relative one of their magnitudes. */
  lemma JudgementExact(observations: map<string, seq<Observation>>, i: Interface, k: nat, limits: Limits)
    requires BothRegions(observations, i) && PatchesAt(observations, i, k)
    ensures var x, y := observations[i.region][k], observations[i.neighbourRegion][k];
      var q, r := x.patches[i.patch], y.patches[i.neighbourPatch];
      var c := JudgementAt(observations, i, k, limits);
      c.time == x.time && c.residual == q + r &&
      c.tolerance == limits.absolute + limits.relative * (Abs(q) + Abs(r)) &&
      (c.passed <==> Abs(q + r) <= limits.absolute + limits.relative * (Abs(q) + Abs(r)))
  {}

  /** One judgement for each saved time. */
  function Judgements(observations: map<string, seq<Observation>>, i: Interface, limits: Limits): seq<InterfaceCheck>
    requires Judgeable(observations, i)
  {
    seq(|observations[i.region]|, k requires 0 <= k < |observations[i.region]| =>
      JudgementAt(observations, i, k, limits))
  }

  /** An interface declared from either side is judged alike, at the same times. */
  lemma SameKeySameJudgement(observations: map<string, seq<Observation>>, i: Interface, j: Interface, limits: Limits)
    requires KeyOf(i) == KeyOf(j) && SameTimes(observations)
    ensures Judgeable(observations, i) <==> Judgeable(observations, j)
    ensures Judgeable(observations, i) ==> Judgements(observations, i, limits) == Judgements(observations, j, limits)
  {
    PairMultisets((i.region, i.patch), (i.neighbourRegion, i.neighbourPatch),
                  (j.region, j.patch), (j.neighbourRegion, j.neighbourPatch));
    if BothRegions(observations, i) {
      forall k: nat | k < |observations[i.region]|
        ensures PatchesAt(observations, i, k) <==> PatchesAt(observations, j, k)
        ensures PatchesAt(observations, i, k) ==>
          JudgementAt(observations, i, k, limits) == JudgementAt(observations, j, k, limits)
      {
        var x, y := observations[i.region][k], observations[i.neighbourRegion][k];
        if PatchesAt(observations, i, k) {
          JudgeSwaps(KeyOf(i), x.time, x.patches[i.patch], y.patches[i.neighbourPatch], limits);
        }
      }
    }
  }

  /** The interfaces that are judged: the first relevant one of each key. */
  function FirstOfEach(observations: map<string, seq<Observation>>, interfaces: seq<Interface>): seq<Interface> {
    if interfaces == [] then []
    else
      var n := |interfaces| - 1;
      var before, last := FirstOfEach(observations, interfaces[..n]), interfaces[n];
      if Relevant(observations, last) && KeyOf(last) !in Keys(before) then before + [last] else before
  }

  function Keys(interfaces: seq<Interface>): set<Key> {
    set i | i in interfaces :: KeyOf(i)
  }

  function AllJudgements(observations: map<string, seq<Observation>>, judged: seq<Interface>,
                         limits: Limits): seq<InterfaceCheck>
    requires forall i :: i in judged ==> Judgeable(observations, i)
  {
    if judged == [] then []
    else
      var n := |judged| - 1;
      AllJudgements(observations, judged[..n], limits) + Judgements(observations, judged[n], limits)
  }

  lemma JudgeSwaps(key: Key, time: real, q1: real, q2: real, limits: Limits)
    ensures Judge(key, time, q1, q2, limits) == Judge(key, time, q2, q1, limits)
  {
    assert q1 + q2 == q2 + q1 && Abs(q1) + Abs(q2) == Abs(q2) + Abs(q1);
  }

  lemma PairMultisets<T>(a: T, b: T, c: T, d: T)
    requires multiset{a, b} == multiset{c, d}
    ensures (a == c && b == d) || (a == d && b == c)
  {
    var m := multiset{a, b};
    assert m - multiset{a} == multiset{b};
    assert c in m && d in m;
    if a == c {
      assert m - multiset{c} == multiset{d};
      assert b in multiset{d};
    } else {
      assert a == d;
      assert m - multiset{d} == multiset{c};
      assert b in multiset{c};
    }
  }

  // ----- The interface check -----

  lemma {:induction false} FirstOfEachMembers(observations: map<string, seq<Observation>>, interfaces: seq<Interface>)
    ensures forall i :: i in FirstOfEach(observations, interfaces) ==> i in interfaces && Relevant(observations, i)
    ensures forall i :: i in interfaces && Relevant(observations, i) ==>
      KeyOf(i) in Keys(FirstOfEach(observations, interfaces))
  {
    if interfaces != [] {
      var n := |interfaces| - 1;
      FirstOfEachMembers(observations, interfaces[..n]);
      assert interfaces == interfaces[..n] + [interfaces[n]];
    }
  }

  /** Every key is judged once. */
  lemma {:induction false} FirstOfEachDistinct(observations: map<string, seq<Observation>>, interfaces: seq<Interface>)
    ensures DistinctKeys(FirstOfEach(observations, interfaces))
  {
    if interfaces != [] {
      var n := |interfaces| - 1;
      FirstOfEachDistinct(observations, interfaces[..n]);
      if KeyOf(interfaces[n]) !in Keys(FirstOfEach(observations, interfaces[..n])) {
        MoreDistinctKeys(FirstOfEach(observations, interfaces[..n]), interfaces[n]);
      }
    }
  }

  ghost predicate DistinctKeys(judged: seq<Interface>) {
    forall a, b :: 0 <= a < b < |judged| ==> KeyOf(judged[a]) != KeyOf(judged[b])
  }

  lemma MoreDistinctKeys(judged: seq<Interface>, i: Interface)
    requires DistinctKeys(judged) && KeyOf(i) !in Keys(judged)
    ensures DistinctKeys(judged + [i])
  {
    forall a | 0 <= a < |judged| ensures KeyOf(judged[a]) != KeyOf(i) {
      assert judged[a] in judged;
    }
  }

  /** Every relevant interface can be judged. */
  predicate AllJudgeable(observations: map<string, seq<Observation>>, interfaces: seq<Interface>) {
    forall i :: i in interfaces && Relevant(observations, i) ==> Judgeable(observations, i)
  }

  /** The checks of all declared interfaces, when they can be judged. */
  function InterfaceChecks(observations: map<string, seq<Observation>>, interfaces: seq<Interface>,
                           limits: Limits): seq<InterfaceCheck>
    requires AllJudgeable(observations, interfaces)
  {
    FirstOfEachMembers(observations, interfaces);
    AllJudgements(observations, FirstOfEach(observations, interfaces), limits)
  }

  /** One interface at all saved times. */
  method CheckInterface(observations: map<string, seq<Observation>>, i: Interface, limits: Limits)
    returns (r: InterfaceResult)
    requires SameTimes(observations) && BothRegions(observations, i)
    ensures Judgeable(observations, i) ==> r == Checks(Judgements(observations, i, limits))
    ensures !Judgeable(observations, i) ==> r == MissingPatch
  {
    var xs, ys := observations[i.region], observations[i.neighbourRegion];
    var checks: seq<InterfaceCheck> := [];
    for k := 0 to |xs|
      invariant |checks| == k
      invariant forall j :: 0 <= j < k ==>
        PatchesAt(observations, i, j) && checks[j] == JudgementAt(observations, i, j, limits)
    {
      var x, y := xs[k], ys[k];
      if i.patch !in x.patches || i.neighbourPatch !in y.patches {
        assert !PatchesAt(observations, i, k);
        return MissingPatch;
      }
      checks := checks + [Judge(KeyOf(i), x.time, x.patches[i.patch], y.patches[i.neighbourPatch], limits)];
    }
    assert Judgeable(observations, i);
    assert checks == Judgements(observations, i, limits);
    return Checks(checks);
  }

  /** The checks so far are those of the first n interfaces. */
  ghost predicate CheckedSoFar(observations: map<string, seq<Observation>>, interfaces: seq<Interface>, n: nat,
                               seen: set<Key>, limits: Limits, checks: seq<InterfaceCheck>)
    requires n <= |interfaces|
  {
    && AllJudgeable(observations, interfaces[..n])
    && seen == Keys(FirstOfEach(observations, interfaces[..n]))
    && checks == InterfaceChecks(observations, interfaces[..n], limits)
  }

  /** Interface n adds no judgement: it is not relevant, or its key was judged before. */
  lemma SkipInterface(observations: map<string, seq<Observation>>, interfaces: seq<Interface>, n: nat,
                      seen: set<Key>, limits: Limits, checks: seq<InterfaceCheck>)
    requires SameTimes(observations) && n < |interfaces|
    requires CheckedSoFar(observations, interfaces, n, seen, limits, checks)
    requires Relevant(observations, interfaces[n]) ==> KeyOf(interfaces[n]) in seen
    ensures CheckedSoFar(observations, interfaces, n + 1, seen, limits, checks)
  {
    var i, before := interfaces[n], interfaces[..n];
    assert interfaces[..n + 1] == before + [i] && (before + [i])[..n] == before;
    if Relevant(observations, i) {
      SeenIsJudgeable(observations, before, i);
    }
    MoreJudgeable(observations, before, i);
  }

  lemma MoreJudgeable(observations: map<string, seq<Observation>>, interfaces: seq<Interface>, i: Interface)
    requires AllJudgeable(observations, interfaces)
    requires Relevant(observations, i) ==> Judgeable(observations, i)
    ensures AllJudgeable(observations, interfaces + [i])
  {}

  lemma SeenIsJudgeable(observations: map<string, seq<Observation>>, interfaces: seq<Interface>, i: Interface)
    requires SameTimes(observations) && AllJudgeable(observations, interfaces)
    requires KeyOf(i) in Keys(FirstOfEach(observations, interfaces))
    ensures Judgeable(observations, i)
  {
    FirstOfEachMembers(observations, interfaces);
    var j :| j in FirstOfEach(observations, interfaces) && KeyOf(j) == KeyOf(i);
    SameKeySameJudgement(observations, j, i, Limits(0.0, 0.0));
  }

  /** Interface n is the first of its key. */
  lemma AddInterface(observations: map<string, seq<Observation>>, interfaces: seq<Interface>, n: nat,
                     seen: set<Key>, limits: Limits, checks: seq<InterfaceCheck>)
    requires n < |interfaces| && CheckedSoFar(observations, interfaces, n, seen, limits, checks)
    requires Judgeable(observations, interfaces[n]) && KeyOf(interfaces[n]) !in seen
    ensures CheckedSoFar(observations, interfaces, n + 1, seen + {KeyOf(interfaces[n])}, limits,
                         checks + Judgements(observations, interfaces[n], limits))
  {
    var i, before := interfaces[n], FirstOfEach(observations, interfaces[..n]);
    assert interfaces[..n + 1][..n] == interfaces[..n];
    assert interfaces[..n + 1] == interfaces[..n] + [i];
    FirstOfEachMembers(observations, interfaces[..n + 1]);
    assert FirstOfEach(observations, interfaces[..n + 1]) == before + [i];
    assert (before + [i])[..|before|] == before;
  }

  /** What stops the check: the first relevant interface that cannot be judged. */
  ghost predicate StopsAt(observations: map<string, seq<Observation>>, interfaces: seq<Interface>, n: nat,
                          r: InterfaceResult)
  {
    && n < |interfaces| && AllJudgeable(observations, interfaces[..n])
    && Relevant(observations, interfaces[n]) && !Judgeable(observations, interfaces[n])
    && r == if BothRegions(observations, interfaces[n]) then MissingPatch else MissingRegion
  }

  /** Check declared interfaces, each pair of patches once. */
  method CheckInterfaces(observations: map<string, seq<Observation>>, interfaces: seq<Interface>, limits: Limits)
    returns (r: InterfaceResult)
    requires SameTimes(observations)
    ensures r.Checks? <==> AllJudgeable(observations, interfaces)
    ensures r.Checks? ==> r.checks == InterfaceChecks(observations, interfaces, limits)
    ensures !r.Checks? ==> exists n: nat :: StopsAt(observations, interfaces, n, r)
  {
    var seen: set<Key> := {};
    var checks: seq<InterfaceCheck> := [];
    for n := 0 to |interfaces|
      invariant CheckedSoFar(observations, interfaces, n, seen, limits, checks)
    {
      var i := interfaces[n];
      if !Relevant(observations, i) {
        SkipInterface(observations, interfaces, n, seen, limits, checks);
      } else if !BothRegions(observations, i) {
        assert StopsAt(observations, interfaces, n, MissingRegion);
        return MissingRegion;
      } else if KeyOf(i) in seen {
        SkipInterface(observations, interfaces, n, seen, limits, checks);
      } else {
        var checked := CheckInterface(observations, i, limits);
        if !checked.Checks? {
          assert StopsAt(observations, interfaces, n, MissingPatch);
          return MissingPatch;
        }
        AddInterface(observations, interfaces, n, seen, limits, checks);
        seen := seen + {KeyOf(i)};
        checks := checks + checked.checks;
      }
    }
    assert interfaces[..|interfaces|] == interfaces;
    return Checks(checks);
  }

  /** Each judgement comes from a judged interface, at one saved time. */
  lemma {:induction false} JudgementFrom(observations: map<string, seq<Observation>>, judged: seq<Interface>,
                                         limits: Limits, c: InterfaceCheck)
    requires forall i :: i in judged ==> Judgeable(observations, i)
    ensures c in AllJudgements(observations, judged, limits) <==>
      exists i :: i in judged && c in Judgements(observations, i, limits)
  {
    if judged != [] {
      var n := |judged| - 1;
      JudgementFrom(observations, judged[..n], limits, c);
      assert judged == judged[..n] + [judged[n]];
    }
  }

  /** Main theorem: nothing is lost by judging each key once.  The checks are exactly the
      judgements of all relevant interfaces at all saved times. */
  lemma NothingLost(observations: map<string, seq<Observation>>, interfaces: seq<Interface>, limits: Limits,
                    c: InterfaceCheck)
    requires SameTimes(observations) && AllJudgeable(observations, interfaces)
    ensures c in InterfaceChecks(observations, interfaces, limits) <==>
      exists i :: i in interfaces && Relevant(observations, i) && c in Judgements(observations, i, limits)
  {
    var judged := FirstOfEach(observations, interfaces);
    FirstOfEachMembers(observations, interfaces);
    JudgementFrom(observations, judged, limits, c);
    if i :| i in interfaces && Relevant(observations, i) && c in Judgements(observations, i, limits) {
      var j :| j in judged && KeyOf(j) == KeyOf(i);
      SameKeySameJudgement(observations, i, j, limits);
    }
  }

  /** No two checks agree in key and time. */
  ghost predicate OncePerTime(checks: seq<InterfaceCheck>) {
    forall a, b :: 0 <= a < b < |checks| ==> checks[a].key != checks[b].key || checks[a].time != checks[b].time
  }

  lemma {:induction false} JudgementsOnce(observations: map<string, seq<Observation>>, judged: seq<Interface>,
                                          limits: Limits)
    requires forall r :: r in observations ==> IncreasingObservations(observations[r])
    requires DistinctKeys(judged) && forall i :: i in judged ==> Judgeable(observations, i)
    ensures OncePerTime(AllJudgements(observations, judged, limits))
  {
    if judged != [] {
      var n := |judged| - 1;
      var rest, i := judged[..n], judged[n];
      JudgementsOnce(observations, rest, limits);
      OtherKeys(observations, rest, i, limits);
      OneInterfaceOnce(observations, i, limits);
      OnceAppended(AllJudgements(observations, rest, limits), Judgements(observations, i, limits), KeyOf(i));
    }
  }

  lemma OtherKeys(observations: map<string, seq<Observation>>, judged: seq<Interface>, i: Interface, limits: Limits)
    requires forall j :: j in judged ==> Judgeable(observations, j) && KeyOf(j) != KeyOf(i)
    ensures forall c :: c in AllJudgements(observations, judged, limits) ==> c.key != KeyOf(i)
  {
    forall c | c in AllJudgements(observations, judged, limits) ensures c.key != KeyOf(i) {
      JudgementFrom(observations, judged, limits, c);
      var j :| j in judged && c in Judgements(observations, j, limits);
    }
  }

  lemma OneInterfaceOnce(observations: map<string, seq<Observation>>, i: Interface, limits: Limits)
    requires Judgeable(observations, i) && IncreasingObservations(observations[i.region])
    ensures OncePerTime(Judgements(observations, i, limits))
    ensures forall c :: c in Judgements(observations, i, limits) ==> c.key == KeyOf(i)
  {}

  lemma OnceAppended(before: seq<InterfaceCheck>, last: seq<InterfaceCheck>, key: Key)
    requires OncePerTime(before) && OncePerTime(last)
    requires (forall c :: c in before ==> c.key != key) && forall c :: c in last ==> c.key == key
    ensures OncePerTime(before + last)
  {
    forall a, b | 0 <= a < b < |before + last|
      ensures (before + last)[a].key != (before + last)[b].key || (before + last)[a].time != (before + last)[b].time
    {
      assert a < |before| ==> before[a] in before;
      assert b >= |before| ==> last[b - |before|] in last;
    }
  }

  /** Each key has at most one judgement at each time. */
  lemma ChecksOncePerTime(observations: map<string, seq<Observation>>, interfaces: seq<Interface>, limits: Limits)
    requires forall r :: r in observations ==> IncreasingObservations(observations[r])
    requires AllJudgeable(observations, interfaces)
    ensures OncePerTime(InterfaceChecks(observations, interfaces, limits))
  {
    FirstOfEachMembers(observations, interfaces);
    FirstOfEachDistinct(observations, interfaces);
    JudgementsOnce(observations, FirstOfEach(observations, interfaces), limits);
  }
}
