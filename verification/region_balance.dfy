/** What passing conservation checks say about all observed regions taken together: their union
    balances over the patches that are left open when checked interfaces are cut out. */
module RegionBalance {
  import opened TimeSeries
  import opened Conservation
  import opened FiniteSums
  import Assembly = MeshAssembly

  type Observations = map<string, seq<Observation>>

  /** A patch of a region. */
  type Side = (string, string)

  // ----- Series over common times -----

  ghost function SeriesOf(ts: seq<real>, v: nat -> real): seq<Sample> {
    seq(|ts|, k requires 0 <= k < |ts| => Sample(ts[k], v(k)))
  }

  ghost function IntegralOf(ts: seq<real>, v: nat -> real): real {
    Integral(SeriesOf(ts, v))
  }

  lemma IntegralStep(ts: seq<real>, v: nat -> real)
    requires |ts| > 1
    ensures var n := |ts| - 1;
      IntegralOf(ts, v) == IntegralOf(ts[..n], v) + Trapezoid(Sample(ts[n - 1], v(n - 1)), Sample(ts[n], v(n)))
  {
    var n := |ts| - 1;
    assert SeriesOf(ts, v)[..n] == SeriesOf(ts[..n], v);
  }

  lemma TrapezoidPlus(t: real, u: real, a: real, b: real, c: real, d: real)
    ensures Trapezoid(Sample(t, a + c), Sample(u, b + d)) ==
      Trapezoid(Sample(t, a), Sample(u, b)) + Trapezoid(Sample(t, c), Sample(u, d))
  {
    assert (u - t) * ((a + c) + (b + d)) == (u - t) * (a + b) + (u - t) * (c + d);
  }

  lemma {:induction false} IntegralPlus(ts: seq<real>, v: nat -> real, w: nat -> real, total: nat -> real)
    requires forall k: nat :: k < |ts| ==> total(k) == v(k) + w(k)
    ensures IntegralOf(ts, total) == IntegralOf(ts, v) + IntegralOf(ts, w)
  {
    if |ts| > 1 {
      var n := |ts| - 1;
      IntegralPlus(ts[..n], v, w, total);
      IntegralStep(ts, v);
      IntegralStep(ts, w);
      IntegralStep(ts, total);
      TrapezoidPlus(ts[n - 1], ts[n], v(n - 1), v(n), w(n - 1), w(n));
    }
  }

  lemma {:induction false} IntegralZero(ts: seq<real>, v: nat -> real)
    requires forall k: nat :: k < |ts| ==> v(k) == 0.0
    ensures IntegralOf(ts, v) == 0.0
  {
    if |ts| > 1 {
      IntegralZero(ts[..|ts| - 1], v);
      IntegralStep(ts, v);
    }
  }

  /** A quantity of each element over time, and its value for all elements at one time. */
  type Family<!T> = T -> (nat -> real)

  ghost function AtTime<T(!new)>(g: Family<T>, k: nat): T -> real {
    (x: T) => g(x)(k)
  }

  ghost function TotalOf<T(!new)>(g: Family<T>, s: set<T>): nat -> real {
    (k: nat) => Sum(AtTime(g, k), s)
  }

  ghost function EachIntegral<T(!new)>(ts: seq<real>, g: Family<T>): T -> real {
    (x: T) => IntegralOf(ts, g(x))
  }

  /** The integral of a sum is the sum of the integrals. */
  lemma {:induction false} IntegralOfSum<T(!new)>(ts: seq<real>, g: Family<T>, s: set<T>)
    ensures IntegralOf(ts, TotalOf(g, s)) == Sum(EachIntegral(ts, g), s)
  {
    if s == {} {
      IntegralZero(ts, TotalOf(g, s));
    } else {
      var x :| x in s;
      IntegralOfSum(ts, g, s - {x});
      forall k: nat | k < |ts| ensures TotalOf(g, s)(k) == TotalOf(g, s - {x})(k) + g(x)(k) {
        TakeOut(AtTime(g, k), s, x);
      }
      IntegralPlus(ts, TotalOf(g, s - {x}), g(x), TotalOf(g, s));
      TakeOut(EachIntegral(ts, g), s, x);
    }
  }

  lemma TrapezoidBound(p: Sample, q: Sample, p': Sample, q': Sample)
    requires p.t < q.t && p.t == p'.t && q.t == q'.t && Abs(p.y) <= p'.y && Abs(q.y) <= q'.y
    ensures Abs(Trapezoid(p, q)) <= Trapezoid(p', q')
  {
    ScaledBound(q.t - p.t, p.y + q.y, p'.y + q'.y, (q.t - p.t) * (p.y + q.y));
  }

  /** A series bounded pointwise has a bounded integral. */
  lemma {:induction false} IntegralBound(ts: seq<real>, v: nat -> real, bound: nat -> real)
    requires forall i, j :: 0 <= i < j < |ts| ==> ts[i] < ts[j]
    requires forall k: nat :: k < |ts| ==> Abs(v(k)) <= bound(k)
    ensures Abs(IntegralOf(ts, v)) <= IntegralOf(ts, bound)
  {
    if |ts| > 1 {
      var n := |ts| - 1;
      IntegralBound(ts[..n], v, bound);
      IntegralStep(ts, v);
      IntegralStep(ts, bound);
      TrapezoidBound(Sample(ts[n - 1], v(n - 1)), Sample(ts[n], v(n)),
                     Sample(ts[n - 1], bound(n - 1)), Sample(ts[n], bound(n)));
    }
  }

  lemma {:induction false} SumBound<T(!new)>(f: T -> real, bound: T -> real, s: set<T>)
    requires forall x :: x in s ==> Abs(f(x)) <= bound(x)
    ensures Abs(Sum(f, s)) <= Sum(bound, s)
  {
    if s != {} {
      var x :| x in s;
      SumBound(f, bound, s - {x});
      TakeOut(f, s, x);
      TakeOut(bound, s, x);
    }
  }

  // ----- Observed regions -----

  ghost function PatchFlux(o: Observation): string -> real {
    ValueIn(o.patches)
  }

  ghost function ValueIn(sums: map<string, real>): string -> real {
    (p: string) => if p in sums then sums[p] else 0.0
  }

  /** The outward flux of an observation is the sum over its patches. */
  lemma {:induction false} PatchTotalIsSum(f: nat -> real, patches: seq<Assembly.Patch>, sums: map<string, real>)
    requires Assembly.DistinctNames(patches) && PatchSums(f, patches, sums)
    ensures Assembly.PatchTotal(f, patches) == Sum(ValueIn(sums), PatchNames(patches))
  {
    if patches != [] {
      var rest, last := patches[..|patches| - 1], patches[|patches| - 1];
      forall j | 0 <= j < |rest| ensures PatchSum(f, rest[j], sums) && rest[j].name != last.name {
        assert PatchSum(f, patches[j], sums);
      }
      PatchTotalIsSum(f, rest, sums);
      assert PatchSum(f, last, sums);
      PutIn(ValueIn(sums), PatchNames(rest), last.name);
      assert patches == rest + [last];
      assert PatchNames(patches) == PatchNames(rest) + {last.name};
    }
  }

  /** A region observed at the given times, always with the same patches, whose outward flux is
      the sum over its patches. */
  ghost predicate Observed(obs: seq<Observation>, ts: seq<real>) {
    |obs| == |ts| && forall k :: 0 <= k < |ts| ==> ObservedAt(obs, ts, k)
  }

  ghost predicate ObservedAt(obs: seq<Observation>, ts: seq<real>, k: nat)
    requires k < |obs| == |ts|
  {
    obs[k].time == ts[k] && obs[k].patches.Keys == obs[0].patches.Keys &&
    obs[k].outwardFlux == Sum(PatchFlux(obs[k]), obs[k].patches.Keys)
  }

  ghost predicate AllObserved(observations: Observations, ts: seq<real>) {
    && ts != []
    && (forall i, j :: 0 <= i < j < |ts| ==> ts[i] < ts[j])
    && forall r :: r in observations ==> Observed(observations[r], ts)
  }

  ghost function StorageOf(observations: Observations): Family<string> {
    (r: string) => (k: nat) => if r in observations && k < |observations[r]| then observations[r][k].storage else 0.0
  }

  ghost function SourceOf(observations: Observations): Family<string> {
    (r: string) => (k: nat) => if r in observations && k < |observations[r]| then observations[r][k].source else 0.0
  }

  ghost function OutwardOf(observations: Observations): Family<string> {
    (r: string) => (k: nat) =>
      if r in observations && k < |observations[r]| then observations[r][k].outwardFlux else 0.0
  }

  function FluxAt(observations: Observations, r: string, p: string, k: nat): real {
    if r in observations && k < |observations[r]| && p in observations[r][k].patches then
      observations[r][k].patches[p]
    else 0.0
  }

  ghost function SideFlux(observations: Observations): Family<Side> {
    (side: Side) => (k: nat) => FluxAt(observations, side.0, side.1, k)
  }

  /** All patches of some regions. */
  ghost function Sides(observations: Observations, regions: set<string>): set<Side> {
    set r, p | r in regions && r in observations && observations[r] != [] && p in observations[r][0].patches :: (r, p)
  }

  /** The two patches of each interface. */
  ghost function Closed(cut: set<Interface>): set<Side> {
    (set i | i in cut :: (i.region, i.patch)) + (set i | i in cut :: (i.neighbourRegion, i.neighbourPatch))
  }

  /** No patch belongs to two of the interfaces, or to both sides of one. */
  ghost predicate SidesApart(cut: set<Interface>) {
    && (forall i :: i in cut ==> (i.region, i.patch) != (i.neighbourRegion, i.neighbourPatch))
    && forall i, j :: i in cut && j in cut && i != j ==>
         Closed({i}) !! Closed({j})
  }

  /** The union of the regions: its storage changes, minus what its open patches let in and what
      is generated inside. */
  ghost function UnionImbalance(observations: Observations, ts: seq<real>, open: set<Side>): real
    requires ts != []
  {
    var regions := observations.Keys;
    TotalOf(StorageOf(observations), regions)(|ts| - 1) - TotalOf(StorageOf(observations), regions)(0) +
    IntegralOf(ts, TotalOf(SideFlux(observations), open)) - IntegralOf(ts, TotalOf(SourceOf(observations), regions))
  }

  ghost function RegionImbalance(observations: Observations): string -> real {
    (r: string) => if r in observations && observations[r] != [] then WindowImbalance(observations[r]) else 0.0
  }

  ghost function RegionTolerance(observations: Observations, limits: Limits): string -> real {
    (r: string) => if r in observations then ToleranceSum(observations[r], limits) else 0.0
  }

  /** Net flux through an interface, counted from both sides. */
  ghost function Gap(observations: Observations): Family<Interface> {
    (i: Interface) => (k: nat) =>
      FluxAt(observations, i.region, i.patch, k) + FluxAt(observations, i.neighbourRegion, i.neighbourPatch, k)
  }

  /** What the interface tolerances allow. */
  ghost function GapLimit(observations: Observations, limits: Limits): Family<Interface> {
    (i: Interface) => (k: nat) =>
      if BothRegions(observations, i) && PatchesAt(observations, i, k) then
        JudgementAt(observations, i, k, limits).tolerance
      else 0.0
  }

  // ----- The union of the regions -----

  lemma ObservedFacts(observations: Observations, ts: seq<real>, r: string, k: nat)
    requires AllObserved(observations, ts) && r in observations && k < |ts|
    ensures |observations[r]| == |ts| && observations[r][k].time == ts[k]
    ensures observations[r][k].patches.Keys == observations[r][0].patches.Keys
    ensures observations[r][k].outwardFlux == Sum(PatchFlux(observations[r][k]), observations[r][k].patches.Keys)
  {
    assert Observed(observations[r], ts) && ObservedAt(observations[r], ts, k);
  }

  lemma RegionSeries(observations: Observations, ts: seq<real>, r: string)
    requires AllObserved(observations, ts) && r in observations
    ensures FluxSeries(observations[r]) == SeriesOf(ts, OutwardOf(observations)(r))
    ensures SourceSeries(observations[r]) == SeriesOf(ts, SourceOf(observations)(r))
  {
    var obs := observations[r];
    ObservedFacts(observations, ts, r, 0);
    forall k: nat | k < |ts|
      ensures obs[k].time == ts[k]
      ensures obs[k].outwardFlux == OutwardOf(observations)(r)(k) && obs[k].source == SourceOf(observations)(r)(k)
    {
      ObservedFacts(observations, ts, r, k);
    }
    assert FluxSeries(obs) == SeriesOf(ts, OutwardOf(observations)(r));
    assert SourceSeries(obs) == SeriesOf(ts, SourceOf(observations)(r));
  }

  lemma RegionWindow(observations: Observations, ts: seq<real>, r: string)
    requires AllObserved(observations, ts) && r in observations
    ensures RegionImbalance(observations)(r) ==
      StorageOf(observations)(r)(|ts| - 1) - StorageOf(observations)(r)(0) +
      IntegralOf(ts, OutwardOf(observations)(r)) - IntegralOf(ts, SourceOf(observations)(r))
  {
    ObservedFacts(observations, ts, r, 0);
    RegionSeries(observations, ts, r);
  }

  /** The regions' imbalances add up to that of the union with every patch's flux counted. */
  lemma {:induction false} SumOfWindows(observations: Observations, ts: seq<real>, regions: set<string>)
    requires AllObserved(observations, ts) && regions <= observations.Keys
    ensures Sum(RegionImbalance(observations), regions) ==
      TotalOf(StorageOf(observations), regions)(|ts| - 1) - TotalOf(StorageOf(observations), regions)(0) +
      Sum(EachIntegral(ts, OutwardOf(observations)), regions) - Sum(EachIntegral(ts, SourceOf(observations)), regions)
  {
    if regions != {} {
      var r :| r in regions;
      SumOfWindows(observations, ts, regions - {r});
      RegionWindow(observations, ts, r);
      TakeOut(RegionImbalance(observations), regions, r);
      TakeOut(AtTime(StorageOf(observations), |ts| - 1), regions, r);
      TakeOut(AtTime(StorageOf(observations), 0), regions, r);
      TakeOut(EachIntegral(ts, OutwardOf(observations)), regions, r);
      TakeOut(EachIntegral(ts, SourceOf(observations)), regions, r);
    }
  }

  lemma {:induction false} SumOverSides(observations: Observations, k: nat, r: string, patches: set<string>)
    requires r in observations && k < |observations[r]|
    ensures Sum(AtTime(SideFlux(observations), k), set p | p in patches :: (r, p)) ==
      Sum(PatchFlux(observations[r][k]), patches)
  {
    var f, g := AtTime(SideFlux(observations), k), PatchFlux(observations[r][k]);
    if patches != {} {
      var x :| x in patches;
      var rest := patches - {x};
      SumOverSides(observations, k, r, rest);
      TakeOut(g, patches, x);
      PutIn(f, set p | p in rest :: (r, p), (r, x));
      assert (set p | p in patches :: (r, p)) == (set p | p in rest :: (r, p)) + {(r, x)};
    }
  }

  /** The outward flux of a region is the flux over its own patches. */
  lemma OwnSides(observations: Observations, ts: seq<real>, r: string, k: nat)
    requires AllObserved(observations, ts) && r in observations && k < |ts|
    ensures AtTime(OutwardOf(observations), k)(r) ==
      Sum(AtTime(SideFlux(observations), k), Sides(observations, {r}))
  {
    ObservedFacts(observations, ts, r, k);
    var patches := observations[r][k].patches.Keys;
    SumOverSides(observations, k, r, patches);
    assert Sides(observations, {r}) == set p | p in patches :: (r, p);
  }

  lemma SidesSplit(observations: Observations, regions: set<string>, r: string)
    requires r in regions
    ensures Sides(observations, regions - {r}) !! Sides(observations, {r})
    ensures Sides(observations, regions) == Sides(observations, regions - {r}) + Sides(observations, {r})
  {}

  /** The outward fluxes of the regions are the flux over all their patches. */
  lemma {:induction false} OutwardIsSides(observations: Observations, ts: seq<real>, regions: set<string>, k: nat)
    requires AllObserved(observations, ts) && regions <= observations.Keys && k < |ts|
    ensures Sum(AtTime(OutwardOf(observations), k), regions) ==
      Sum(AtTime(SideFlux(observations), k), Sides(observations, regions))
  {
    if regions == {} {
      assert Sides(observations, regions) == {};
    } else {
      var r :| r in regions;
      var rest := regions - {r};
      OutwardIsSides(observations, ts, rest, k);
      TakeOut(AtTime(OutwardOf(observations), k), regions, r);
      OwnSides(observations, ts, r, k);
      SidesSplit(observations, regions, r);
      SumDisjoint(AtTime(SideFlux(observations), k), Sides(observations, rest), Sides(observations, {r}));
    }
  }

  /** The flux through the cut patches is the sum of the gaps. */
  lemma {:induction false} ClosedIsGaps(observations: Observations, cut: set<Interface>, k: nat)
    requires SidesApart(cut)
    ensures Sum(AtTime(SideFlux(observations), k), Closed(cut)) == Sum(AtTime(Gap(observations), k), cut)
  {
    if cut == {} {
      assert Closed(cut) == {};
    } else {
      var i :| i in cut;
      var rest := cut - {i};
      assert rest + {i} == cut;
      ClosedApart(rest, i);
      ClosedIsGaps(observations, rest, k);
      TakeOut(AtTime(Gap(observations), k), cut, i);
      CloseOneMore(AtTime(SideFlux(observations), k), rest, i);
    }
  }

  lemma CloseOneMore(f: Side -> real, rest: set<Interface>, i: Interface)
    requires (i.region, i.patch) !in Closed(rest)
    requires (i.neighbourRegion, i.neighbourPatch) !in Closed(rest) + {(i.region, i.patch)}
    ensures Sum(f, Closed(rest + {i})) ==
      Sum(f, Closed(rest)) + (f((i.region, i.patch)) + f((i.neighbourRegion, i.neighbourPatch)))
  {
    var a, b := (i.region, i.patch), (i.neighbourRegion, i.neighbourPatch);
    PutIn(f, Closed(rest), a);
    PutIn(f, Closed(rest) + {a}, b);
    assert Closed(rest + {i}) == Closed(rest) + {a} + {b};
  }

  lemma ClosedApart(rest: set<Interface>, i: Interface)
    requires i !in rest && SidesApart(rest + {i})
    ensures SidesApart(rest) && (i.region, i.patch) !in Closed(rest)
    ensures (i.neighbourRegion, i.neighbourPatch) !in Closed(rest) + {(i.region, i.patch)}
  {
    forall side | side in Closed(rest) ensures side !in Closed({i}) {
      var j :| j in rest && side in Closed({j});
      assert Closed({i}) !! Closed({j});
    }
    assert (i.region, i.patch) in Closed({i}) && (i.neighbourRegion, i.neighbourPatch) in Closed({i});
  }

  /** What flows out of the regions flows through open patches or into gaps. */
  lemma OutwardIsOpenAndGaps(observations: Observations, ts: seq<real>, open: set<Side>, cut: set<Interface>, k: nat)
    requires AllObserved(observations, ts) && SidesApart(cut) && k < |ts|
    requires open !! Closed(cut) && open + Closed(cut) == Sides(observations, observations.Keys)
    ensures TotalOf(OutwardOf(observations), observations.Keys)(k) ==
      TotalOf(SideFlux(observations), open)(k) + TotalOf(Gap(observations), cut)(k)
  {
    OutwardIsSides(observations, ts, observations.Keys, k);
    SumDisjoint(AtTime(SideFlux(observations), k), open, Closed(cut));
    ClosedIsGaps(observations, cut, k);
  }

  lemma IntegralOpenAndGaps(observations: Observations, ts: seq<real>, open: set<Side>, cut: set<Interface>)
    requires AllObserved(observations, ts) && SidesApart(cut)
    requires open !! Closed(cut) && open + Closed(cut) == Sides(observations, observations.Keys)
    ensures Sum(EachIntegral(ts, OutwardOf(observations)), observations.Keys) ==
      IntegralOf(ts, TotalOf(SideFlux(observations), open)) + Sum(EachIntegral(ts, Gap(observations)), cut)
  {
    var outward := TotalOf(OutwardOf(observations), observations.Keys);
    var through, gaps := TotalOf(SideFlux(observations), open), TotalOf(Gap(observations), cut);
    forall k: nat | k < |ts| ensures outward(k) == through(k) + gaps(k) {
      OutwardIsOpenAndGaps(observations, ts, open, cut, k);
    }
    IntegralPlus(ts, through, gaps, outward);
    IntegralOfSum(ts, OutwardOf(observations), observations.Keys);
    IntegralOfSum(ts, Gap(observations), cut);
  }

  /** Cutting patches out of the union leaves the regions' imbalances without the gaps. */
  lemma UnionIsSum(observations: Observations, ts: seq<real>, open: set<Side>, cut: set<Interface>)
    requires AllObserved(observations, ts) && SidesApart(cut)
    requires open !! Closed(cut) && open + Closed(cut) == Sides(observations, observations.Keys)
    ensures UnionImbalance(observations, ts, open) ==
      Sum(RegionImbalance(observations), observations.Keys) - Sum(EachIntegral(ts, Gap(observations)), cut)
  {
    SumOfWindows(observations, ts, observations.Keys);
    IntegralOfSum(ts, SourceOf(observations), observations.Keys);
    IntegralOpenAndGaps(observations, ts, open, cut);
  }

  // ----- Passing checks -----

  lemma RegionTimes(observations: Observations, ts: seq<real>, r: string)
    requires AllObserved(observations, ts) && r in observations
    ensures |observations[r]| == |ts| && forall k :: 0 <= k < |ts| ==> observations[r][k].time == ts[k]
  {
    ObservedFacts(observations, ts, r, 0);
    forall k | 0 <= k < |ts| ensures observations[r][k].time == ts[k] {
      ObservedFacts(observations, ts, r, k);
    }
  }

  lemma ObservedTimes(observations: Observations, ts: seq<real>)
    requires AllObserved(observations, ts)
    ensures SameTimes(observations)
    ensures forall r :: r in observations ==> |observations[r]| == |ts| && IncreasingObservations(observations[r])
  {
    forall r, s | r in observations && s in observations
      ensures |observations[r]| == |observations[s]| == |ts| && IncreasingObservations(observations[r])
      ensures forall k :: 0 <= k < |ts| ==> observations[r][k].time == observations[s][k].time
    {
      RegionTimes(observations, ts, r);
      RegionTimes(observations, ts, s);
    }
  }

  /** The interfaces can be judged and all their judgements pass. */
  ghost predicate InterfacesPass(observations: Observations, interfaces: seq<Interface>, limits: Limits) {
    AllJudgeable(observations, interfaces) &&
    forall c :: c in InterfaceChecks(observations, interfaces, limits) ==> c.passed
  }

  lemma GapPasses(observations: Observations, interfaces: seq<Interface>, limits: Limits, i: Interface, k: nat)
    requires SameTimes(observations) && InterfacesPass(observations, interfaces, limits)
    requires i in interfaces && Relevant(observations, i) && k < |observations[i.region]|
    ensures BothRegions(observations, i) && PatchesAt(observations, i, k)
    ensures JudgementAt(observations, i, k, limits).passed
    ensures JudgementAt(observations, i, k, limits).residual == Gap(observations)(i)(k)
  {
    assert Judgeable(observations, i);
    var c := JudgementAt(observations, i, k, limits);
    assert Judgements(observations, i, limits)[k] == c;
    NothingLost(observations, interfaces, limits, c);
  }

  lemma GapWithin(observations: Observations, ts: seq<real>, interfaces: seq<Interface>, limits: Limits, i: Interface)
    requires AllObserved(observations, ts) && InterfacesPass(observations, interfaces, limits)
    requires i in interfaces && Relevant(observations, i)
    ensures Abs(IntegralOf(ts, Gap(observations)(i))) <= IntegralOf(ts, GapLimit(observations, limits)(i))
  {
    ObservedTimes(observations, ts);
    forall k: nat | k < |ts| ensures Abs(Gap(observations)(i)(k)) <= GapLimit(observations, limits)(i)(k) {
      assert Judgeable(observations, i);
      GapPasses(observations, interfaces, limits, i, k);
    }
    IntegralBound(ts, Gap(observations)(i), GapLimit(observations, limits)(i));
  }

  lemma CutPatchesObserved(observations: Observations, ts: seq<real>, cut: set<Interface>)
    requires AllObserved(observations, ts) && forall i :: i in cut ==> Judgeable(observations, i)
    ensures Closed(cut) <= Sides(observations, observations.Keys)
  {
    forall i | i in cut ensures Closed({i}) <= Sides(observations, observations.Keys) {
      assert Observed(observations[i.region], ts) && PatchesAt(observations, i, 0);
    }
    forall side | side in Closed(cut) ensures side in Sides(observations, observations.Keys) {
      var i :| i in cut && side in Closed({i});
    }
  }

  lemma RegionsWithin(observations: Observations, limits: Limits)
    requires forall r :: r in observations ==>
      observations[r] != [] && IncreasingObservations(observations[r]) && AllPass(observations[r], limits)
    ensures Abs(Sum(RegionImbalance(observations), observations.Keys)) <=
      Sum(RegionTolerance(observations, limits), observations.Keys)
  {
    forall r | r in observations.Keys
      ensures Abs(RegionImbalance(observations)(r)) <= RegionTolerance(observations, limits)(r)
    {
      WindowBalance(observations[r], limits);
    }
    SumBound(RegionImbalance(observations), RegionTolerance(observations, limits), observations.Keys);
  }

  lemma GapsWithin(observations: Observations, ts: seq<real>, interfaces: seq<Interface>, cut: set<Interface>,
                   limits: Limits)
    requires AllObserved(observations, ts) && InterfacesPass(observations, interfaces, limits)
    requires forall i :: i in cut ==> i in interfaces && Relevant(observations, i)
    ensures Abs(Sum(EachIntegral(ts, Gap(observations)), cut)) <=
      Sum(EachIntegral(ts, GapLimit(observations, limits)), cut)
  {
    forall i | i in cut
      ensures Abs(EachIntegral(ts, Gap(observations))(i)) <= EachIntegral(ts, GapLimit(observations, limits))(i)
    {
      GapWithin(observations, ts, interfaces, limits, i);
    }
    SumBound(EachIntegral(ts, Gap(observations)), EachIntegral(ts, GapLimit(observations, limits)), cut);
  }

  /** Every interval of every region passes. */
  ghost predicate RegionsPass(observations: Observations, limits: Limits) {
    forall r :: r in observations ==>
      IncreasingObservations(observations[r]) && AllPass(observations[r], limits)
  }

  /** Main theorem: when every interval of every region and every interface passes, the union of
      all regions balances over the window and over the patches left open by any checked
      interfaces that share no patch, up to the summed tolerances. */
  lemma UnionBalance(observations: Observations, ts: seq<real>, interfaces: seq<Interface>, cut: set<Interface>,
                     limits: Limits)
    requires AllObserved(observations, ts) && RegionsPass(observations, limits)
    requires InterfacesPass(observations, interfaces, limits)
    requires SidesApart(cut) && forall i :: i in cut ==> i in interfaces && Relevant(observations, i)
    ensures Abs(UnionImbalance(observations, ts, Sides(observations, observations.Keys) - Closed(cut))) <=
      Sum(RegionTolerance(observations, limits), observations.Keys) +
      Sum(EachIntegral(ts, GapLimit(observations, limits)), cut)
  {
    ObservedTimes(observations, ts);
    CutPatchesObserved(observations, ts, cut);
    var open := Sides(observations, observations.Keys) - Closed(cut);
    assert open !! Closed(cut) && open + Closed(cut) == Sides(observations, observations.Keys);
    UnionIsSum(observations, ts, open, cut);
    RegionsWithin(observations, limits);
    GapsWithin(observations, ts, interfaces, cut, limits);
  }
}
