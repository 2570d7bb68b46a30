/** Mesh evidence kept per execution scope: recorded checks, the digest each passing check was
    bound to, invalidation, and the test that every scope still has current evidence.

    The theorems range over every run of file edits, native mesh commands, recorded checks
    and invalidations under one plan. */
module MeshEvidence {
  import opened Wrappers
  import opened ExecutionScopes
  import opened MeshDependencies

  datatype MeshCheck = MeshCheck(passed: bool, cells: Option<nat>)

  datatype Failure =
    | Missing(scope: Scope)
    | NotPassed(scope: Scope)
    | TooManyCells(scope: Scope, cells: nat)
    | Stale(scope: Scope)

  /** Path templates a tool declares that it reads and writes. */
  datatype Tool = Tool(inputs: set<string>, outputs: set<string>)

  /** What a run does not change: the plan's scopes, the tool contracts and the policy. */
  datatype Context = Context(scopes: seq<Scope>, tools: string -> Tool, render: (string, Scope) -> string,
                             includes: IncludeReader, nameOk: string -> bool, pathOk: string -> bool, maxCells: nat)

  datatype World = World(ops: seq<Operation>, ws: Workspace, evidence: map<string, MeshCheck>,
                         manifest: map<string, MeshDigest>)

  datatype Event =
    | Edit(files: Workspace)
    | Native(command: Command, files: Workspace)
    | Check(arguments: seq<string>, check: MeshCheck)
    | Invalidate

  /** The digest of a scope's mesh, unless an include leaves the case. */
  ghost function DigestNow(ctx: Context, ops: seq<Operation>, ws: Workspace, s: Scope): Option<MeshDigest> {
    if IncludesStayInside(ws, ctx.includes, Roots(Ancestry(ops, Name(s), |ops|), Name(s))) then
      Some(Digest(ops, ws, ctx.includes, Name(s)))
    else None
  }

  // ----- Recording a native operation -----

  /** The scopes a mesh command may change: the one it selects, or all of them. */
  function TargetScopes(ctx: Context, arguments: seq<string>): Result<set<Scope>, ScopeError> {
    match CommandRegion(arguments, ctx.nameOk)
    case Err(e) => Err(e)
    case Ok(Some(name)) =>
      if multiset(ctx.scopes)[Region(name)] == 1 then Ok({Region(name)}) else Err(Undeclared(Region(name)))
    case Ok(None) => Ok(if ctx.scopes == [] then {Root} else set s | s in ctx.scopes)
  }

  function Rendered(ctx: Context, templates: set<string>, targets: set<Scope>): set<string> {
    set t, s | t in templates && s in targets :: ctx.render(t, s)
  }

  /** Without declared inputs a tool is taken to read every case file. */
  function NativeInputs(ctx: Context, command: Command, targets: set<Scope>): set<string> {
    if ctx.tools(command.name).inputs == {} then {"0", "system", "constant"}
    else Rendered(ctx, ctx.tools(command.name).inputs, targets)
  }

  /** Without declared outputs a tool is taken to write the meshes it targets. */
  function NativeOutputs(ctx: Context, command: Command, targets: set<Scope>): set<string> {
    var outputs := Rendered(ctx, ctx.tools(command.name).outputs, targets);
    if outputs == {} then set s | s in targets :: Sink(Name(s)) else outputs
  }

  ghost function Recorded(ctx: Context, ops: seq<Operation>, command: Command, targets: set<Scope>): Operation {
    Registered(ops, NativeInputs(ctx, command, targets), NativeOutputs(ctx, command, targets),
               set s | s in targets :: Name(s), command, ctx.tools(command.name).inputs == {})
  }

  ghost predicate CanRecord(ctx: Context, ops: seq<Operation>, command: Command) {
    && TargetScopes(ctx, command.arguments).Ok?
    && |ops| < HISTORY_LIMIT
    && (var targets := TargetScopes(ctx, command.arguments).value;
        forall p :: p in NativeInputs(ctx, command, targets) + NativeOutputs(ctx, command, targets) ==> ctx.pathOk(p))
  }

  ghost function OpsAfter(ctx: Context, ops: seq<Operation>, command: Command): seq<Operation> {
    if CanRecord(ctx, ops, command) then
      ops + [Recorded(ctx, ops, command, TargetScopes(ctx, command.arguments).value)]
    else ops
  }

  // ----- Recording a check -----

  ghost function Checked(ctx: Context, w: World, arguments: seq<string>, check: MeshCheck): World {
    match BoundScope(ctx.scopes, arguments, ctx.nameOk)
    case Err(_) => w
    case Ok(s) =>
      var digest := DigestNow(ctx, w.ops, w.ws, s);
      w.(evidence := w.evidence[Key(s) := check],
         manifest := if !check.passed then w.manifest - {Key(s)}
                     else if digest.Some? then w.manifest[Key(s) := digest.value]
                     else w.manifest)
  }

  // ----- Invalidation -----

  ghost predicate CurrentKey(ctx: Context, w: World, key: string)
    requires key in w.manifest
  {
    exists s :: s in ctx.scopes && Key(s) == key && DigestNow(ctx, w.ops, w.ws, s) == Some(w.manifest[key])
  }

  /** No digest that invalidation has to compute fails. */
  ghost predicate CanInvalidate(ctx: Context, w: World) {
    forall s :: s in ctx.scopes && Key(s) in w.manifest ==> DigestNow(ctx, w.ops, w.ws, s).Some?
  }

  ghost function StaleKeys(ctx: Context, w: World): set<string> {
    set key | key in w.manifest && !CurrentKey(ctx, w, key)
  }

  ghost function Invalidated(ctx: Context, w: World): World {
    if CanInvalidate(ctx, w) then
      w.(evidence := w.evidence - StaleKeys(ctx, w), manifest := w.manifest - StaleKeys(ctx, w))
    else w
  }

  // ----- Runs -----

  ghost function Step(ctx: Context, w: World, e: Event): World {
    match e
    case Edit(files) => w.(ws := files)
    case Native(command, files) => w.(ops := OpsAfter(ctx, w.ops, command), ws := files)
    case Check(arguments, check) => Checked(ctx, w, arguments, check)
    case Invalidate => Invalidated(ctx, w)
  }

  /** The world after the first n events. */
  ghost function Run(ctx: Context, start: World, h: seq<Event>, n: nat): World
    requires n <= |h|
  {
    if n == 0 then start else Step(ctx, Run(ctx, start, h, n - 1), h[n - 1])
  }

  ghost predicate Fresh(start: World) {
    Chronological(start.ops) && start.evidence == map[] && start.manifest == map[]
  }

  /** The failures over the scopes from position i on; a digest that fails is an error. */
  ghost function FailuresFrom(ctx: Context, w: World, i: nat): Option<seq<Failure>>
    requires i <= |ctx.scopes|
    decreases |ctx.scopes| - i
  {
    if i == |ctx.scopes| then Some([])
    else
      match ScopeFailures(ctx, w, ctx.scopes[i])
      case None => None
      case Some(here) =>
        match FailuresFrom(ctx, w, i + 1)
        case None => None
        case Some(later) => Some(here + later)
  }

  ghost function ScopeFailures(ctx: Context, w: World, s: Scope): Option<seq<Failure>> {
    var key := Key(s);
    if key !in w.evidence then Some([Missing(s)])
    else if !w.evidence[key].passed then Some([NotPassed(s)])
    else if DigestNow(ctx, w.ops, w.ws, s).None? then None
    else Some((if FitsPolicy(ctx, w.evidence[key]) then [] else [TooManyCells(s, w.evidence[key].cells.value)]) +
              (if Bound(ctx, w, s) then [] else [Stale(s)]))
  }

  predicate FitsPolicy(ctx: Context, check: MeshCheck) {
    check.cells.Some? ==> check.cells.value <= ctx.maxCells
  }

  /** The scope's manifest is its digest now. */
  ghost predicate Bound(ctx: Context, w: World, s: Scope) {
    Key(s) in w.manifest && DigestNow(ctx, w.ops, w.ws, s) == Some(w.manifest[Key(s)])
  }

  lemma NoScopeFailures(ctx: Context, w: World, s: Scope)
    ensures ScopeFailures(ctx, w, s) == Some([]) <==> Good(ctx, w, s)
  {
    var found := ScopeFailures(ctx, w, s);
    if found.Some? {
      assert Good(ctx, w, s) ==> found.value == [];
      assert !Good(ctx, w, s) ==> |found.value| >= 1;
    }
  }

  lemma {:induction false} NoFailures(ctx: Context, w: World, i: nat)
    requires i <= |ctx.scopes|
    ensures FailuresFrom(ctx, w, i) == Some([]) <==> GoodFrom(ctx, w, i)
    decreases |ctx.scopes| - i
  {
    if i < |ctx.scopes| {
      NoFailures(ctx, w, i + 1);
      NoFailuresStep(ctx, w, i);
    }
  }

  lemma NoFailuresStep(ctx: Context, w: World, i: nat)
    requires i < |ctx.scopes| && (FailuresFrom(ctx, w, i + 1) == Some([]) <==> GoodFrom(ctx, w, i + 1))
    ensures FailuresFrom(ctx, w, i) == Some([]) <==> GoodFrom(ctx, w, i)
  {
    NextScope(ctx, w, i);
    NoScopeFailures(ctx, w, ctx.scopes[i]);
    NextGood(ctx, w, i);
  }

  /** The scopes from position i on are good. */
  ghost predicate GoodFrom(ctx: Context, w: World, i: nat)
    requires i <= |ctx.scopes|
  {
    forall k :: i <= k < |ctx.scopes| ==> Good(ctx, w, ctx.scopes[k])
  }

  lemma NextGood(ctx: Context, w: World, i: nat)
    requires i < |ctx.scopes|
    ensures GoodFrom(ctx, w, i) <==> Good(ctx, w, ctx.scopes[i]) && GoodFrom(ctx, w, i + 1)
  {}

  lemma NextScope(ctx: Context, w: World, i: nat)
    requires i < |ctx.scopes|
    ensures FailuresFrom(ctx, w, i) == Some([]) <==>
      ScopeFailures(ctx, w, ctx.scopes[i]) == Some([]) && FailuresFrom(ctx, w, i + 1) == Some([])
  {
    var here, later := ScopeFailures(ctx, w, ctx.scopes[i]), FailuresFrom(ctx, w, i + 1);
    if here.Some? && later.Some? {
      assert |here.value + later.value| == |here.value| + |later.value|;
    }
  }

  /** The scope's stored check passed with no more cells than allowed, and the stored digest is
      the one of its mesh now. */
  ghost predicate Good(ctx: Context, w: World, s: Scope) {
    && Key(s) in w.evidence && w.evidence[Key(s)].passed
    && (w.evidence[Key(s)].cells.Some? ==> w.evidence[Key(s)].cells.value <= ctx.maxCells)
    && Key(s) in w.manifest && DigestNow(ctx, w.ops, w.ws, s) == Some(w.manifest[Key(s)])
  }

  /** Each reported failure says what is wrong with a declared scope, and everything wrong is
      reported. */
  lemma {:induction false} FailuresExact(ctx: Context, w: World, i: nat, f: Failure)
    requires i <= |ctx.scopes| && FailuresFrom(ctx, w, i).Some?
    ensures f in FailuresFrom(ctx, w, i).value <==> f.scope in ctx.scopes[i..] && Deserved(ctx, w, f)
    decreases |ctx.scopes| - i
  {
    if i < |ctx.scopes| {
      FailuresExact(ctx, w, i + 1, f);
      ScopeFailuresExact(ctx, w, ctx.scopes[i], f);
      assert ctx.scopes[i..] == [ctx.scopes[i]] + ctx.scopes[i + 1..];
    }
  }

  ghost predicate Deserved(ctx: Context, w: World, f: Failure) {
    var key := Key(f.scope);
    match f
    case Missing(_) => key !in w.evidence
    case NotPassed(_) => key in w.evidence && !w.evidence[key].passed
    case TooManyCells(_, cells) =>
      key in w.evidence && w.evidence[key].passed && w.evidence[key].cells == Some(cells) && cells > ctx.maxCells
    case Stale(s) =>
      key in w.evidence && w.evidence[key].passed &&
      !(key in w.manifest && DigestNow(ctx, w.ops, w.ws, s) == Some(w.manifest[key]))
  }

  lemma ScopeFailuresExact(ctx: Context, w: World, s: Scope, f: Failure)
    requires ScopeFailures(ctx, w, s).Some?
    ensures f in ScopeFailures(ctx, w, s).value <==> f.scope == s && Deserved(ctx, w, f)
  {}

  // ----- What the state says about the run -----

  predicate Checks(ctx: Context, e: Event, s: Scope) {
    e.Check? && BoundScope(ctx.scopes, e.arguments, ctx.nameOk) == Ok(s)
  }

  /** Event i is the last check of the scope among the first n. */
  predicate LastCheck(ctx: Context, h: seq<Event>, n: nat, s: Scope, i: nat)
    requires n <= |h|
  {
    i < n && Checks(ctx, h[i], s) && forall j :: i < j < n ==> !Checks(ctx, h[j], s)
  }

  ghost function DigestAt(ctx: Context, start: World, h: seq<Event>, i: nat, s: Scope): Option<MeshDigest>
    requires i <= |h|
  {
    DigestNow(ctx, Run(ctx, start, h, i).ops, Run(ctx, start, h, i).ws, s)
  }

  /** Event b is a passing check of the scope whose digest was kept; later checks passed too but
      their digests could not be computed. */
  ghost predicate BindingCheck(ctx: Context, start: World, h: seq<Event>, n: nat, s: Scope, b: nat)
    requires n <= |h|
  {
    && b < n && Checks(ctx, h[b], s) && h[b].check.passed && DigestAt(ctx, start, h, b, s).Some?
    && forall j :: b < j < n && Checks(ctx, h[j], s) ==> h[j].check.passed && DigestAt(ctx, start, h, j, s).None?
  }

  /** Where a scope's check comes from after one event. */
  lemma StepEvidence(ctx: Context, w: World, e: Event, s: Scope)
    ensures var after := Step(ctx, w, e);
      Key(s) in after.evidence ==>
        if Checks(ctx, e, s) then after.evidence[Key(s)] == e.check
        else Key(s) in w.evidence && after.evidence[Key(s)] == w.evidence[Key(s)]
  {
    if e.Check? && BoundScope(ctx.scopes, e.arguments, ctx.nameOk).Ok? {
      KeysDistinct(s, BoundScope(ctx.scopes, e.arguments, ctx.nameOk).value);
    }
  }

  /** The event is a check of the scope whose digest can be computed. */
  ghost predicate Binds(ctx: Context, w: World, e: Event, s: Scope) {
    Checks(ctx, e, s) && DigestNow(ctx, w.ops, w.ws, s).Some?
  }

  /** Where a scope's digest comes from after one event. */
  lemma StepManifest(ctx: Context, w: World, e: Event, s: Scope)
    requires Key(s) in Step(ctx, w, e).manifest
    ensures Checks(ctx, e, s) ==> e.check.passed
    ensures Binds(ctx, w, e, s) ==> Some(Step(ctx, w, e).manifest[Key(s)]) == DigestNow(ctx, w.ops, w.ws, s)
    ensures !Binds(ctx, w, e, s) ==>
      Key(s) in w.manifest && Step(ctx, w, e).manifest[Key(s)] == w.manifest[Key(s)]
  {
    if e.Check? && BoundScope(ctx.scopes, e.arguments, ctx.nameOk).Ok? {
      KeysDistinct(s, BoundScope(ctx.scopes, e.arguments, ctx.nameOk).value);
    }
  }

  lemma {:induction false} EvidenceTraced(ctx: Context, start: World, h: seq<Event>, n: nat, s: Scope) returns (i: nat)
    requires n <= |h| && Fresh(start)
    requires Key(s) in Run(ctx, start, h, n).evidence
    ensures LastCheck(ctx, h, n, s, i) && Run(ctx, start, h, n).evidence[Key(s)] == h[i].check
  {
    StepEvidence(ctx, Run(ctx, start, h, n - 1), h[n - 1], s);
    if Checks(ctx, h[n - 1], s) {
      i := n - 1;
    } else {
      i := EvidenceTraced(ctx, start, h, n - 1, s);
    }
  }

  lemma {:induction false} ManifestTraced(ctx: Context, start: World, h: seq<Event>, n: nat, s: Scope) returns (b: nat)
    requires n <= |h| && Fresh(start)
    requires Key(s) in Run(ctx, start, h, n).manifest
    ensures BindingCheck(ctx, start, h, n, s, b)
    ensures Some(Run(ctx, start, h, n).manifest[Key(s)]) == DigestAt(ctx, start, h, b, s)
  {
    var before := Run(ctx, start, h, n - 1);
    assert Run(ctx, start, h, n) == Step(ctx, before, h[n - 1]);
    StepManifest(ctx, before, h[n - 1], s);
    if Binds(ctx, before, h[n - 1], s) {
      b := n - 1;
    } else {
      b := ManifestTraced(ctx, start, h, n - 1, s);
    }
  }

  /** Between two points of a run, what a scope's mesh depends on is unchanged: it has the same
      operation ancestry and the files covered at the first point are the same. */
  ghost predicate UnchangedSince(ctx: Context, start: World, h: seq<Event>, i: nat, n: nat, s: Scope)
    requires i <= n <= |h|
  {
    var earlier, now := Run(ctx, start, h, i), Run(ctx, start, h, n);
    && Ancestry(earlier.ops, Name(s), |earlier.ops|) == Ancestry(now.ops, Name(s), |now.ops|)
    && AgreeUnder(Dependencies(earlier.ops, earlier.ws, ctx.includes, Name(s)), earlier.ws, now.ws)
  }

  /** Main theorem: when no failure is reported, the last check of every declared scope passed
      within the cell limit, and nothing its mesh depends on has changed since the last passing
      check whose digest could be computed. */
  lemma EvidenceHolds(ctx: Context, start: World, h: seq<Event>, s: Scope) returns (last: nat, binding: nat)
    requires Fresh(start) && s in ctx.scopes
    requires FailuresFrom(ctx, Run(ctx, start, h, |h|), 0) == Some([])
    ensures LastCheck(ctx, h, |h|, s, last) && h[last].check.passed
    ensures h[last].check.cells.Some? ==> h[last].check.cells.value <= ctx.maxCells
    ensures binding <= last && BindingCheck(ctx, start, h, |h|, s, binding)
    ensures UnchangedSince(ctx, start, h, binding, |h|, s) && DigestAt(ctx, start, h, |h|, s).Some?
  {
    var w := Run(ctx, start, h, |h|);
    NoFailures(ctx, w, 0);
    assert Good(ctx, w, s);
    last := EvidenceTraced(ctx, start, h, |h|, s);
    binding := ManifestTraced(ctx, start, h, |h|, s);
    var at := Run(ctx, start, h, binding);
    DigestIsExact(at.ops, at.ws, w.ops, w.ws, ctx.includes, Name(s));
  }

  /** The same dependencies make the digest computable or not alike. */
  lemma ComputableTogether(ctx: Context, start: World, h: seq<Event>, i: nat, n: nat, s: Scope)
    requires i <= n <= |h| && UnchangedSince(ctx, start, h, i, n, s)
    requires DigestAt(ctx, start, h, n, s).Some?
    ensures DigestAt(ctx, start, h, i, s).Some?
  {
    var a, b := Run(ctx, start, h, i), Run(ctx, start, h, n);
    var roots := Roots(Ancestry(a.ops, Name(s), |a.ops|), Name(s));
    SameClosure(a.ws, b.ws, ctx.includes, roots);
    ClosureCovered(a.ws, ctx.includes, roots);
    forall x | x in Closure(a.ws, ctx.includes, roots) && x in a.ws ensures ctx.includes(x, a.ws[x]).Some? {
      assert Get(a.ws, x) == Get(b.ws, x);
    }
  }

  lemma BindingIsLast(ctx: Context, start: World, h: seq<Event>, n: nat, s: Scope, b: nat, last: nat)
    requires n <= |h| && BindingCheck(ctx, start, h, n, s, b) && LastCheck(ctx, h, n, s, last)
    requires DigestAt(ctx, start, h, last, s).Some?
    ensures b == last
  {}

  /** Main theorem: with no failure reported, nothing changed since the last check itself
      exactly when that check's digest could be computed.  A check whose digest fails is
      recorded while the previous digest stays, so evidence can outlive it. */
  lemma UnchangedSinceLastCheck(ctx: Context, start: World, h: seq<Event>, s: Scope, last: nat)
    requires Fresh(start) && s in ctx.scopes
    requires FailuresFrom(ctx, Run(ctx, start, h, |h|), 0) == Some([])
    requires LastCheck(ctx, h, |h|, s, last)
    ensures UnchangedSince(ctx, start, h, last, |h|, s) <==> DigestAt(ctx, start, h, last, s).Some?
  {
    var l, b := EvidenceHolds(ctx, start, h, s);
    if DigestAt(ctx, start, h, last, s).Some? {
      BindingIsLast(ctx, start, h, |h|, s, b, last);
    }
    if UnchangedSince(ctx, start, h, last, |h|, s) {
      ComputableTogether(ctx, start, h, last, |h|, s);
    }
  }

  // ----- Native operations make evidence stale -----

  lemma {:induction false} RecordedIsChronological(ctx: Context, ops: seq<Operation>, command: Command)
    requires Chronological(ops)
    ensures Chronological(OpsAfter(ctx, ops, command)) && ops <= OpsAfter(ctx, ops, command)
  {
    var all := OpsAfter(ctx, ops, command);
    forall i: nat | i < |all| ensures all[i].id == i && all[i].parents == Producers(all[..i], all[i].inputs) {
      assert all[..i] == ops[..i];
    }
  }

  lemma {:induction false} OpsGrow(ctx: Context, start: World, h: seq<Event>, m: nat, n: nat)
    requires m <= n <= |h| && Chronological(start.ops)
    ensures Run(ctx, start, h, m).ops <= Run(ctx, start, h, n).ops && Chronological(Run(ctx, start, h, n).ops)
    decreases n
  {
    if n > 0 {
      OpsGrow(ctx, start, h, if m < n then m else n - 1, n - 1);
      StepOps(ctx, Run(ctx, start, h, n - 1), h[n - 1]);
    }
  }

  lemma StepOps(ctx: Context, w: World, e: Event)
    requires Chronological(w.ops)
    ensures w.ops <= Step(ctx, w, e).ops && Chronological(Step(ctx, w, e).ops)
  {
    if e.Native? {
      RecordedIsChronological(ctx, w.ops, e.command);
    }
  }

  lemma {:induction false} AncestorListed(ops: seq<Operation>, region: string, n: nat, i: nat)
    requires i < n <= |ops| && Ancestor(ops, region, i)
    ensures ops[i] in Ancestry(ops, region, n)
  {
    if i < n - 1 {
      AncestorListed(ops, region, n - 1, i);
    }
  }

  /** A later operation that targets a region is new to its ancestry. */
  lemma TargetedIsNew(earlier: seq<Operation>, ops: seq<Operation>, region: string, i: nat)
    requires Chronological(earlier) && Chronological(ops)
    requires |earlier| <= i < |ops| && Targets(ops[i], region)
    ensures Ancestry(earlier, region, |earlier|) != Ancestry(ops, region, |ops|)
  {
    AncestorListed(ops, region, |ops|, i);
    AncestryIds(earlier, region, |earlier|);
  }

  /** What a scope depends on at the end differs from what it was before a command on it. */
  lemma TargetedChangesAncestry(ctx: Context, start: World, h: seq<Event>, b: nat, k: nat, s: Scope)
    requires b <= k < |h| && Chronological(start.ops)
    requires h[k].Native? && CanRecord(ctx, Run(ctx, start, h, k).ops, h[k].command)
    requires s in TargetScopes(ctx, h[k].command.arguments).value
    ensures !UnchangedSince(ctx, start, h, b, |h|, s)
  {
    var ops := Run(ctx, start, h, k).ops;
    OpsGrow(ctx, start, h, k + 1, |h|);
    OpsGrow(ctx, start, h, b, k);
    OpsGrow(ctx, start, h, 0, b);
    TargetedIsNew(Run(ctx, start, h, b).ops, Run(ctx, start, h, |h|).ops, Name(s), |ops|);
  }

  /** Main theorem: once a recorded native command targets a scope, failures are reported until
      the scope is checked again, whatever the files are. */
  lemma NativeMakesStale(ctx: Context, start: World, h: seq<Event>, k: nat, s: Scope)
    requires Fresh(start) && s in ctx.scopes
    requires k < |h| && h[k].Native? && CanRecord(ctx, Run(ctx, start, h, k).ops, h[k].command)
    requires s in TargetScopes(ctx, h[k].command.arguments).value
    requires forall j :: k < j < |h| ==> !Checks(ctx, h[j], s)
    ensures FailuresFrom(ctx, Run(ctx, start, h, |h|), 0) != Some([])
  {
    forall b: nat | b <= k ensures !UnchangedSince(ctx, start, h, b, |h|, s) {
      TargetedChangesAncestry(ctx, start, h, b, k, s);
    }
    if FailuresFrom(ctx, Run(ctx, start, h, |h|), 0) == Some([]) {
      var last, b := EvidenceHolds(ctx, start, h, s);
    }
  }

  /** Evidence that is left is as it was, and goes exactly when its digest does. */
  ghost predicate EvidenceGoesWithDigest(before: World, after: World) {
    && (forall key :: key in after.evidence <==>
          key in before.evidence && (key in before.manifest ==> key in after.manifest))
    && (forall key :: key in after.evidence ==> after.evidence[key] == before.evidence[key])
    && forall key :: key in after.manifest ==> key in before.manifest && after.manifest[key] == before.manifest[key]
  }

  lemma InvalidatedEvidence(ctx: Context, w: World)
    ensures EvidenceGoesWithDigest(w, Invalidated(ctx, w))
  {
    var stale := StaleKeys(ctx, w);
    assert stale <= w.manifest.Keys;
  }

  /** Main theorem: after an invalidation that succeeds, every kept digest is the scope's digest
      now, and exactly the scopes whose digest was current keep their evidence. */
  lemma InvalidateIsExact(ctx: Context, w: World)
    requires CanInvalidate(ctx, w)
    ensures StaleKeys(ctx, Invalidated(ctx, w)) == {}
    ensures forall s :: s in ctx.scopes ==> (Key(s) in Invalidated(ctx, w).manifest <==> Bound(ctx, w, s))
    ensures Invalidated(ctx, Invalidated(ctx, w)) == Invalidated(ctx, w)
    ensures EvidenceGoesWithDigest(w, Invalidated(ctx, w))
  {
    var after := Invalidated(ctx, w);
    InvalidatedEvidence(ctx, w);
    forall key | key in after.manifest ensures CurrentKey(ctx, after, key) {
      assert CurrentKey(ctx, w, key);
    }
    forall s | s in ctx.scopes ensures Key(s) in after.manifest <==> Bound(ctx, w, s) {
      if Key(s) in after.manifest {
        var t :| t in ctx.scopes && Key(t) == Key(s) && DigestNow(ctx, w.ops, w.ws, t) == Some(w.manifest[Key(s)]);
        KeysDistinct(s, t);
      }
    }
  }

  /** Check good files, break them, check again, put them back. */
  function BrokenAndRestored(good: Workspace, bad: Workspace): seq<Event> {
    var check := Check([], MeshCheck(true, None));
    [check, Edit(bad), check, Edit(good)]
  }

  lemma OutlivingSteps(ctx: Context, start: World, bad: Workspace)
    requires Fresh(start) && BoundScope(ctx.scopes, [], ctx.nameOk) == Ok(Root)
    requires DigestNow(ctx, start.ops, bad, Root).None?
    ensures var h := BrokenAndRestored(start.ws, bad);
      Run(ctx, start, h, 2) == Step(ctx, start, h[0]).(ws := bad) && Run(ctx, start, h, 4) == Step(ctx, start, h[0])
  {
    var h := BrokenAndRestored(start.ws, bad);
    var w1 := Step(ctx, start, h[0]);
    assert Run(ctx, start, h, 1) == w1;
    assert Run(ctx, start, h, 2) == w1.(ws := bad);
    assert Run(ctx, start, h, 3) == w1.(ws := bad);
  }

  lemma OutlivingRun(ctx: Context, start: World, bad: Workspace)
    requires Fresh(start) && ctx.scopes == [Root] && BoundScope(ctx.scopes, [], ctx.nameOk) == Ok(Root)
    requires DigestNow(ctx, start.ops, start.ws, Root).Some? && DigestNow(ctx, start.ops, bad, Root).None?
    ensures FailuresFrom(ctx, Run(ctx, start, BrokenAndRestored(start.ws, bad), 4), 0) == Some([])
    ensures DigestAt(ctx, start, BrokenAndRestored(start.ws, bad), 2, Root).None?
  {
    OutlivingSteps(ctx, start, bad);
    var w1 := Run(ctx, start, BrokenAndRestored(start.ws, bad), 4);
    assert Good(ctx, w1, Root);
    NoFailures(ctx, w1, 0);
  }

  /** A run in which evidence outlives the last check: the second check meets an include that
      leaves the case, in a file of the mesh that a native tool wrote, and the file is then put
      back.  The agent itself may not write includes. */
  lemma EvidenceCanOutliveLastCheck() returns (ctx: Context, start: World, h: seq<Event>)
    ensures Fresh(start) && ctx.scopes == [Root] && FailuresFrom(ctx, Run(ctx, start, h, |h|), 0) == Some([])
    ensures |h| == 4 && LastCheck(ctx, h, 4, Root, 2) && !UnchangedSince(ctx, start, h, 2, 4, Root)
  {
    var file := Sink("") + "/points";
    var good, bad := map[file := ""], map[file := "x"];
    ctx := Context([Root], (name: string) => Tool({}, {}), (t: string, s: Scope) => t,
                   (path: string, text: string) => if text == "" then Some({}) else None,
                   (name: string) => true, (path: string) => true, 0);
    start := World([], good, map[], map[]);
    h := BrokenAndRestored(good, bad);
    assert BoundScope(ctx.scopes, [], ctx.nameOk) == Ok(Root);
    assert DigestNow(ctx, [], good, Root).Some?;
    BadIncludeFails(ctx, bad, file);
    OutlivingRun(ctx, start, bad);
    UnchangedSinceLastCheck(ctx, start, h, Root, 2);
  }

  /** A mesh file whose includes leave the case makes the digest fail. */
  lemma BadIncludeFails(ctx: Context, ws: Workspace, file: string)
    requires file in ws && Below(file, Sink("")) && ctx.includes(file, ws[file]).None?
    ensures DigestNow(ctx, [], ws, Root).None?
  {
    var roots := Roots([], "");
    ClosureIsClosed(ws, ctx.includes, roots);
    assert Sink("") in roots && file in Start(ws, roots);
  }

  // ----- The state object -----

  datatype EvidenceError = Scoping(scoping: ScopeError) | Graph(graph: GraphError)

  lemma OutputsNonempty(ctx: Context, command: Command)
    requires TargetScopes(ctx, command.arguments).Ok?
    ensures NativeOutputs(ctx, command, TargetScopes(ctx, command.arguments).value) != {}
  {
    var targets := TargetScopes(ctx, command.arguments).value;
    assert CommandRegion(command.arguments, ctx.nameOk) == Ok(None) && ctx.scopes != [] ==> ctx.scopes[0] in targets;
    var s :| s in targets;
    var meshes := set t | t in targets :: Sink(Name(t));
    assert Sink(Name(s)) in meshes;
  }

  /** The failures found in the first i scopes, with those of the others, are all failures. */
  ghost predicate Accumulated(ctx: Context, w: World, i: nat, failures: seq<Failure>)
    requires i <= |ctx.scopes|
  {
    var all, rest := FailuresFrom(ctx, w, 0), FailuresFrom(ctx, w, i);
    (all.Some? <==> rest.Some?) && (rest.Some? ==> all == Some(failures + rest.value))
  }

  lemma AccumulateStart(ctx: Context, w: World)
    ensures Accumulated(ctx, w, 0, [])
  {
    var all := FailuresFrom(ctx, w, 0);
    assert all.Some? ==> [] + all.value == all.value;
  }

  lemma AccumulateStep(ctx: Context, w: World, i: nat, failures: seq<Failure>)
    requires i < |ctx.scopes| && Accumulated(ctx, w, i, failures)
    ensures var here := ScopeFailures(ctx, w, ctx.scopes[i]);
      if here.Some? then Accumulated(ctx, w, i + 1, failures + here.value) else FailuresFrom(ctx, w, 0).None?
  {
    var here, later := ScopeFailures(ctx, w, ctx.scopes[i]), FailuresFrom(ctx, w, i + 1);
    if here.Some? && later.Some? {
      assert failures + here.value + later.value == failures + (here.value + later.value);
    }
  }

  /** The command is on the region it selects; without a selector on every declared scope, or on
      the root when none is declared. */
  ghost predicate On(ctx: Context, command: Command, s: Scope) {
    match CommandRegion(command.arguments, ctx.nameOk)
    case Err(_) => false
    case Ok(Some(region)) => s == Region(region)
    case Ok(None) => if ctx.scopes == [] then s == Root else s in ctx.scopes
  }

  /** The operation names the scopes the command is on. */
  ghost predicate RecordsScopes(ctx: Context, command: Command, op: Operation) {
    && (forall s :: On(ctx, command, s) ==> Name(s) in op.regions)
    && forall name :: name in op.regions ==> exists s :: On(ctx, command, s) && Name(s) == name
  }

  /** It reads and writes the paths its tool declares for those scopes; without declared inputs it
      may read all of the case, and without declared outputs it writes the meshes. */
  ghost predicate RecordsPaths(ctx: Context, command: Command, op: Operation) {
    var tool := ctx.tools(command.name);
    && op.conservative == (tool.inputs == {})
    && (if tool.inputs == {} then op.inputs == {"0", "system", "constant"}
        else DeclaredPaths(ctx, command, tool.inputs, op.inputs))
    && (if tool.outputs == {} then
          (forall s :: On(ctx, command, s) ==> MeshOf(s) in op.outputs) &&
          forall p :: p in op.outputs ==> exists s :: On(ctx, command, s) && p == MeshOf(s)
        else DeclaredPaths(ctx, command, tool.outputs, op.outputs))
  }

  function MeshOf(s: Scope): string {
    match s
    case Root => "constant/polyMesh"
    case Region(name) => if name == "" then "constant/polyMesh" else "constant/" + name + "/polyMesh"
  }

  ghost predicate DeclaredPaths(ctx: Context, command: Command, templates: set<string>, paths: set<string>) {
    && (forall t, s :: t in templates && On(ctx, command, s) ==> ctx.render(t, s) in paths)
    && forall p :: p in paths ==> exists t, s :: t in templates && On(ctx, command, s) && p == ctx.render(t, s)
  }

  lemma TargetsAreOn(ctx: Context, command: Command, s: Scope)
    requires TargetScopes(ctx, command.arguments).Ok?
    ensures s in TargetScopes(ctx, command.arguments).value <==> On(ctx, command, s)
    ensures Sink(Name(s)) == MeshOf(s)
  {}

  lemma RenderedDeclared(ctx: Context, command: Command, templates: set<string>)
    requires TargetScopes(ctx, command.arguments).Ok?
    ensures DeclaredPaths(ctx, command, templates, Rendered(ctx, templates, TargetScopes(ctx, command.arguments).value))
  {
    forall s ensures s in TargetScopes(ctx, command.arguments).value <==> On(ctx, command, s) {
      TargetsAreOn(ctx, command, s);
    }
  }

  /** What recording a command appends. */
  lemma RecordedExact(ctx: Context, ops: seq<Operation>, command: Command)
    requires CanRecord(ctx, ops, command)
    ensures var op := Recorded(ctx, ops, command, TargetScopes(ctx, command.arguments).value);
      op.command == command && RecordsScopes(ctx, command, op) && RecordsPaths(ctx, command, op)
  {
    var tool, targets := ctx.tools(command.name), TargetScopes(ctx, command.arguments).value;
    forall s
      ensures s in targets <==> On(ctx, command, s)
      ensures Sink(Name(s)) == MeshOf(s)
    {
      TargetsAreOn(ctx, command, s);
    }
    RenderedDeclared(ctx, command, tool.inputs);
    RenderedDeclared(ctx, command, tool.outputs);
    if tool.outputs != {} {
      OutputsRendered(ctx, command);
    }
  }

  lemma OutputsRendered(ctx: Context, command: Command)
    requires TargetScopes(ctx, command.arguments).Ok? && ctx.tools(command.name).outputs != {}
    ensures var targets := TargetScopes(ctx, command.arguments).value;
      NativeOutputs(ctx, command, targets) == Rendered(ctx, ctx.tools(command.name).outputs, targets)
  {
    var targets, outputs := TargetScopes(ctx, command.arguments).value, ctx.tools(command.name).outputs;
    assert CommandRegion(command.arguments, ctx.nameOk) == Ok(None) && ctx.scopes != [] ==> ctx.scopes[0] in targets;
    var s :| s in targets;
    var t :| t in outputs;
    assert ctx.render(t, s) in Rendered(ctx, outputs, targets);
  }

  class EvidenceState {
    const ctx: Context
    const graph: MeshDependencyGraph
    var evidence: map<string, MeshCheck>
    var manifest: map<string, MeshDigest>
    var caseSeal: Option<string>
    var solveApproved: bool
    var executionApproval: Option<string>
    var presolveManifest: Option<string>

    ghost predicate Valid()
      reads this, graph
    {
      graph.Valid()
    }

    ghost function View(ws: Workspace): World
      reads this, graph
    {
      World(graph.operations, ws, evidence, manifest)
    }

    constructor (ctx: Context, graph: MeshDependencyGraph)
      requires graph.Valid()
      ensures Valid() && this.ctx == ctx && this.graph == graph
      ensures forall ws :: Fresh(View(ws))
    {
      this.ctx, this.graph := ctx, graph;
      evidence, manifest := map[], map[];
      caseSeal, solveApproved, executionApproval, presolveManifest := None, false, None, None;
    }

    /** Append the operation a native command performed on the scopes it targets. */
    method RecordNative(command: Command) returns (r: Result<(), EvidenceError>)
      requires Valid()
      modifies graph
      ensures Valid()
      ensures r.Ok? <==> CanRecord(ctx, old(graph.operations), command)
      ensures graph.operations == OpsAfter(ctx, old(graph.operations), command)
    {
      match TargetScopes(ctx, command.arguments)
      case Err(e) =>
        return Err(Scoping(e));
      case Ok(targets) =>
        OutputsNonempty(ctx, command);
        var inputs, outputs := NativeInputs(ctx, command, targets), NativeOutputs(ctx, command, targets);
        var registered := graph.Register(inputs, outputs, set s | s in targets :: Name(s), command,
                                         ctx.tools(command.name).inputs == {}, ctx.pathOk);
        match registered
        case Err(e) =>
          return Err(Graph(e));
        case Ok(_) =>
          return Ok(());
    }

    /** Store a check of the scope an invocation is bound to.  When its digest fails the check
        is already stored and the previous digest stays. */
    method RecordScopeMesh(ws: Workspace, arguments: seq<string>, check: MeshCheck)
      returns (r: Result<(), EvidenceError>)
      requires Valid()
      modifies this`evidence, this`manifest
      ensures Valid() && View(ws) == Checked(ctx, old(View(ws)), arguments, check)
      ensures r.Ok? <==> (BoundScope(ctx.scopes, arguments, ctx.nameOk).Ok? &&
        (check.passed ==>
           DigestNow(ctx, graph.operations, ws, BoundScope(ctx.scopes, arguments, ctx.nameOk).value).Some?))
    {
      match BoundScope(ctx.scopes, arguments, ctx.nameOk)
      case Err(e) =>
        return Err(Scoping(e));
      case Ok(s) =>
        evidence := evidence[Key(s) := check];
        if !check.passed {
          manifest := manifest - {Key(s)};
          return Ok(());
        }
        var digest := graph.ComputeDigest(ws, ctx.includes, Name(s));
        match digest
        case Err(e) =>
          return Err(Graph(e));
        case Ok(d) =>
          manifest := manifest[Key(s) := d];
          return Ok(());
    }

    method FindScope(key: string) returns (r: Option<Scope>)
      ensures r.Some? ==> r.value in ctx.scopes && Key(r.value) == key
      ensures r.None? ==> forall s :: s in ctx.scopes ==> Key(s) != key
    {
      for i := 0 to |ctx.scopes|
        invariant forall k :: 0 <= k < i ==> Key(ctx.scopes[k]) != key
      {
        if Key(ctx.scopes[i]) == key {
          return Some(ctx.scopes[i]);
        }
      }
      return None;
    }

    /** The keys whose digest is no longer the scope's digest. */
    method FindStale(ws: Workspace) returns (r: Result<set<string>, GraphError>)
      requires Valid()
      ensures r.Ok? <==> CanInvalidate(ctx, View(ws))
      ensures r.Ok? ==> r.value == StaleKeys(ctx, View(ws))
    {
      ghost var w := View(ws);
      var stale: set<string>, todo := {}, manifest.Keys;
      while todo != {}
        invariant todo <= manifest.Keys
        invariant stale == set key | key in w.manifest && key !in todo && !CurrentKey(ctx, w, key)
        invariant forall s :: s in ctx.scopes && Key(s) in w.manifest && Key(s) !in todo ==>
          DigestNow(ctx, w.ops, w.ws, s).Some?
        decreases |todo|
      {
        var key :| key in todo;
        todo := todo - {key};
        var found := FindScope(key);
        match found
        case None =>
          assert !CurrentKey(ctx, w, key);
          stale := stale + {key};
        case Some(s) =>
          forall t | t in ctx.scopes && Key(t) == key ensures t == s { KeysDistinct(s, t); }
          var digest := graph.ComputeDigest(ws, ctx.includes, Name(s));
          match digest
          case Err(e) =>
            assert DigestNow(ctx, w.ops, w.ws, s).None?;
            return Err(e);
          case Ok(d) =>
            assert DigestNow(ctx, w.ops, w.ws, s) == Some(d);
            assert CurrentKey(ctx, w, key) <==> d == manifest[key];
            if d != manifest[key] {
              stale := stale + {key};
            }
      }
      return Ok(stale);
    }

    /** Drop stale evidence, and with it every approval that rested on the mesh.  When a digest
        fails nothing changes. */
    method Invalidate(ws: Workspace) returns (r: Result<(), GraphError>)
      requires Valid()
      modifies this
      ensures Valid() && View(ws) == Invalidated(ctx, old(View(ws)))
      ensures r.Ok? <==> CanInvalidate(ctx, old(View(ws)))
      ensures r.Ok? && StaleKeys(ctx, old(View(ws))) != {} ==>
        caseSeal == None && !solveApproved && executionApproval == None && presolveManifest == None
      ensures r.Err? || StaleKeys(ctx, old(View(ws))) == {} ==> unchanged(this)
    {
      var found := FindStale(ws);
      match found
      case Err(e) =>
        return Err(e);
      case Ok(stale) =>
        if stale != {} {
          evidence := evidence - stale;
          manifest := manifest - stale;
          caseSeal, solveApproved, executionApproval, presolveManifest := None, false, None, None;
        }
        return Ok(());
    }

    /** The failures of every declared scope, in order. */
    method CurrentFailures(ws: Workspace) returns (r: Result<seq<Failure>, GraphError>)
      requires Valid()
      ensures r.Ok? <==> FailuresFrom(ctx, View(ws), 0).Some?
      ensures r.Ok? ==> Some(r.value) == FailuresFrom(ctx, View(ws), 0)
    {
      var failures := [];
      AccumulateStart(ctx, View(ws));
      for i := 0 to |ctx.scopes|
        invariant Accumulated(ctx, View(ws), i, failures)
      {
        var here := FailuresOf(ws, ctx.scopes[i]);
        AccumulateStep(ctx, View(ws), i, failures);
        match here
        case Err(e) =>
          return Err(e);
        case Ok(found) =>
          failures := failures + found;
      }
      assert failures + [] == failures;
      return Ok(failures);
    }

    method FailuresOf(ws: Workspace, s: Scope) returns (r: Result<seq<Failure>, GraphError>)
      requires Valid()
      ensures r.Ok? <==> ScopeFailures(ctx, View(ws), s).Some?
      ensures r.Ok? ==> Some(r.value) == ScopeFailures(ctx, View(ws), s)
    {
      var key := Key(s);
      if key !in evidence {
        return Ok([Missing(s)]);
      }
      if !evidence[key].passed {
        return Ok([NotPassed(s)]);
      }
      var failures := [];
      if evidence[key].cells.Some? && evidence[key].cells.value > ctx.maxCells {
        failures := [TooManyCells(s, evidence[key].cells.value)];
      }
      var digest := graph.ComputeDigest(ws, ctx.includes, Name(s));
      match digest
      case Err(e) =>
        return Err(e);
      case Ok(d) =>
        if key !in manifest || manifest[key] != d {
          return Ok(failures + [Stale(s)]);
        }
        assert failures + [] == failures;
        return Ok(failures);
    }
  }
}
