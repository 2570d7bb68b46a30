/** The build of a new case: which required files are authored, which a native command will
    produce, and the pipeline that runs.

    A build without failures has every required file accounted for, and runs its commands in
    an order that respects their labels before validating every scope. */
module CaseBuild {
  import opened Wrappers
  import opened ExecutionScopes
  import opened MeshDependencies
  import opened CaseDelta
  import Order = DependencyOrder

  /** The mesh files a bound tool declares as outputs, by tool and scope. */
  type Producers = (string, Scope) -> set<string>

  /** `order` runs first, then `checks`. */
  datatype Build = Build(authored: seq<string>, deferred: seq<string>, missing: seq<string>,
                         order: seq<Invocation>, checks: seq<Invocation>, failures: seq<BuildFailure>)

  datatype BuildFailure =
    | EmptyManifest
    | UnboundConsumers(reason: string)
    | Unordered(order: Order.Failure)
    | Uncovered(paths: seq<string>)
    | UnboundValidation(reason: string)

  /** The first of each item, in order. */
  function Unique<T(==, !new)>(items: seq<T>): (r: seq<T>)
    ensures forall x :: x in r <==> x in items
  {
    if items == [] then []
    else
      var n := |items| - 1;
      assert items == items[..n] + [items[n]];
      var before := Unique(items[..n]);
      if items[n] in before then before else before + [items[n]]
  }

  /** The paths a command will produce, if it is bound to one declared scope. */
  function Outputs(plan: Plan, producers: Producers, c: Invocation): set<string> {
    match BoundScope(plan.scopes, c.arguments, plan.setting.nameOk)
    case Err(_) => {}
    case Ok(s) => producers(c.command, s)
  }

  predicate Produces(plan: Plan, producers: Producers, pipeline: seq<Invocation>, path: string) {
    exists c, root :: c in pipeline && root in Outputs(plan, producers, c) && Under(path, root)
  }

  /** Every output root of the commands, each once. */
  method OutputRoots(plan: Plan, producers: Producers, pipeline: seq<Invocation>) returns (roots: set<string>)
    ensures forall path :: (exists root :: root in roots && Under(path, root)) <==>
      Produces(plan, producers, pipeline, path)
  {
    roots := {};
    for i := 0 to |pipeline|
      invariant forall root :: root in roots <==> exists c :: c in pipeline[..i] && root in Outputs(plan, producers, c)
    {
      assert pipeline[..i + 1] == pipeline[..i] + [pipeline[i]];
      roots := roots + Outputs(plan, producers, pipeline[i]);
    }
    assert pipeline[..|pipeline|] == pipeline;
    forall path
      ensures (exists root :: root in roots && Under(path, root)) <==> Produces(plan, producers, pipeline, path)
    {
      if root :| root in roots && Under(path, root) {
        var c :| c in pipeline && root in Outputs(plan, producers, c);
        assert c in pipeline && root in Outputs(plan, producers, c) && Under(path, root);
      }
    }
  }

  /** Split the manifest: authored, produced by a command of the pipeline, or missing. */
  method CoverManifest(plan: Plan, producers: Producers, required: seq<string>, written: set<string>,
                       pipeline: seq<Invocation>)
    returns (authored: seq<string>, deferred: seq<string>, missing: seq<string>)
    ensures forall p :: p in authored <==> p in required && p in written
    ensures forall p :: p in deferred <==> p in required && p !in written && Produces(plan, producers, pipeline, p)
    ensures forall p :: p in missing <==> p in required && p !in written && !Produces(plan, producers, pipeline, p)
  {
    authored, deferred, missing := [], [], [];
    var roots := OutputRoots(plan, producers, pipeline);
    for i := 0 to |required|
      invariant forall p :: p in authored <==> p in required[..i] && p in written
      invariant forall p :: p in deferred <==>
        p in required[..i] && p !in written && Produces(plan, producers, pipeline, p)
      invariant forall p :: p in missing <==>
        p in required[..i] && p !in written && !Produces(plan, producers, pipeline, p)
    {
      var path := required[i];
      assert required[..i + 1] == required[..i] + [path];
      if path in written {
        authored := authored + [path];
      } else {
        var produced := exists root :: root in roots && Under(path, root);
        assert produced <==> Produces(plan, producers, pipeline, path);
        if produced {
          deferred := deferred + [path];
        } else {
          missing := missing + [path];
        }
      }
    }
    assert required[..|required|] == required;
  }

  // ----- The whole build -----

  predicate Proposed(plan: Plan, c: Invocation) {
    c.command !in {"foamDictionary", "surfaceCheck"} && !plan.finalizer(c.command)
  }

  predicate SameTarget(plan: Plan, a: Invocation, b: Invocation) {
    a.command == b.command &&
    CommandRegion(a.arguments, plan.setting.nameOk) == CommandRegion(b.arguments, plan.setting.nameOk)
  }

  function Proposals(plan: Plan, hints: seq<Invocation>): seq<Invocation> {
    Unique(Keep(hints, (c: Invocation) => Proposed(plan, c)))
  }

  predicate Executable(plan: Plan, written: set<string>, c: Invocation) {
    plan.permitted(c.command) && (plan.requiredInput(Token(c)).Some? ==> plan.requiredInput(Token(c)).value in written)
  }

  /** Proposed commands, then the consumers inferred from authored dictionaries that no proposal
      replaces; those that are permitted and have their dictionary. */
  function ExecutableStrategy(plan: Plan, written: set<string>, hints: seq<Invocation>,
                              inferred: seq<Invocation>): seq<Invocation>
  {
    var proposed := Proposals(plan, hints);
    var added := Keep(inferred, (c: Invocation) => forall p :: p in proposed ==> !SameTarget(plan, p, c));
    Keep(Unique(proposed + added), (c: Invocation) => Executable(plan, written, c))
  }

  /** Every required file is written or produced by the commands that run. */
  predicate Complete(plan: Plan, producers: Producers, required: seq<string>, written: set<string>,
                     order: seq<Invocation>)
  {
    forall p :: p in required ==> p in written || Produces(plan, producers, order, p)
  }

  /** The path is in exactly one part of the manifest. */
  predicate InOne(b: Build, p: string) {
    (p in b.authored && p !in b.deferred && p !in b.missing) ||
    (p !in b.authored && p in b.deferred && p !in b.missing) ||
    (p !in b.authored && p !in b.deferred && p in b.missing)
  }

  /** The consumers found, if inferring them did not fail. */
  function Found(inferred: Result<seq<Invocation>, string>): seq<Invocation> {
    if inferred.Ok? then inferred.value else []
  }

  /** A proposed or inferred command names its region badly. */
  predicate BadRegion(plan: Plan, hints: seq<Invocation>, inferred: seq<Invocation>) {
    exists c :: c in Proposals(plan, hints) + inferred && CommandRegion(c.arguments, plan.setting.nameOk).Err?
  }

  /** The build of a case from its written files; None when a command names its region badly.
      Inferring consumers and compiling the validation of the scopes may fail for a scope
      without an invocation contract: both are reported and leave their part empty. */
  method CompileBuild(plan: Plan, producers: Producers, required: seq<string>, written: set<string>,
                      hints: seq<Invocation>, inferred: Result<seq<Invocation>, string>, unscoped: Option<string>)
    returns (r: Option<Build>)
    ensures r.None? <==> BadRegion(plan, hints, Found(inferred))
    ensures r.Some? ==>
      (r.value.failures == [] <==>
       required != [] && inferred.Ok? && unscoped.None? &&
       Orderable(plan, ExecutableStrategy(plan, written, hints, Found(inferred))) &&
       Complete(plan, producers, required, written, r.value.order))
    ensures r.Some? ==> forall p :: p in required ==> InOne(r.value, p)
    ensures r.Some? ==> forall p :: p in required ==> (p in r.value.authored <==> p in written)
    ensures r.Some? ==> forall p :: p in required ==>
      (p in r.value.deferred <==> p !in written && Written(plan, producers, r.value.order, p))
    ensures r.Some? && Orderable(plan, ExecutableStrategy(plan, written, hints, Found(inferred))) ==>
      Order.BestOrder(ExecutableStrategy(plan, written, hints, Found(inferred)), plan.labels, r.value.order)
    ensures r.Some? ==>
      r.value.checks == if unscoped.None? then Validation(plan, plan.scopes, AllKeys(plan)) else []
    ensures r.Some? && unscoped.None? ==>
      forall s, c :: s in plan.scopes && c in plan.validation(s) ==> c in r.value.checks
  {
    if BadRegion(plan, hints, Found(inferred)) {
      return None;
    }
    var failures: seq<BuildFailure> := if required == [] then [EmptyManifest] else [];
    var manifest := Unique(required);
    if inferred.Err? {
      failures := failures + [UnboundConsumers(inferred.error)];
    }
    var executable := ExecutableStrategy(plan, written, hints, Found(inferred));
    var order, reports := OrderConsumers(plan, executable);
    failures := failures + Reported(reports);
    var authored, deferred, missing := CoverManifest(plan, producers, manifest, written, order);
    if missing != [] {
      failures := failures + [Uncovered(missing)];
    }
    MissingIffIncomplete(plan, producers, required, written, order, missing);
    var checks := [];
    match unscoped {
      case Some(reason) => failures := failures + [UnboundValidation(reason)];
      case None => checks := Validation(plan, plan.scopes, AllKeys(plan));
    }
    forall s, c | unscoped.None? && s in plan.scopes && c in plan.validation(s) ensures c in checks {
      ValidationCovers(plan, plan.scopes, AllKeys(plan), c);
    }
    forall p ensures Produces(plan, producers, order, p) <==> Written(plan, producers, order, p) {
      ProducesExact(plan, producers, order, p);
    }
    return Some(Build(authored, deferred, missing, order, checks, failures));
  }

  lemma MissingIffIncomplete(plan: Plan, producers: Producers, required: seq<string>, written: set<string>,
                             order: seq<Invocation>, missing: seq<string>)
    requires forall p :: p in missing <==>
      p in Unique(required) && p !in written && !Produces(plan, producers, order, p)
    ensures missing == [] <==> Complete(plan, producers, required, written, order)
  {
    forall p | p in required ensures p in missing <==> !(p in written || Produces(plan, producers, order, p)) {
      assert p in Unique(required);
    }
    if missing != [] {
      assert missing[0] in missing;
    }
  }

  function Reported(reports: seq<Order.Failure>): (r: seq<BuildFailure>)
    ensures |r| == |reports|
  {
    seq(|reports|, i requires 0 <= i < |reports| => Unordered(reports[i]))
  }

  // ----- In plain words -----

  /** A command that is bound to one scope declares an output that is the path or a folder above
      it. */
  ghost predicate Written(plan: Plan, producers: Producers, commands: seq<Invocation>, path: string) {
    exists c, s, root :: c in commands && Writes(plan, producers, c, s, root, path)
  }

  ghost predicate Writes(plan: Plan, producers: Producers, c: Invocation, s: Scope, root: string, path: string) {
    BoundScope(plan.scopes, c.arguments, plan.setting.nameOk) == Ok(s) && root in producers(c.command, s) &&
    (path == root || root + "/" <= path)
  }

  lemma ProducesExact(plan: Plan, producers: Producers, commands: seq<Invocation>, path: string)
    ensures Produces(plan, producers, commands, path) <==> Written(plan, producers, commands, path)
  {
    forall root ensures Below(path, root) <==> root + "/" <= path { BelowWritten(path, root); }
    if Produces(plan, producers, commands, path) {
      var c, root :| c in commands && root in Outputs(plan, producers, c) && Under(path, root);
      var s := BoundScope(plan.scopes, c.arguments, plan.setting.nameOk).value;
      assert Writes(plan, producers, c, s, root, path);
    }
    if Written(plan, producers, commands, path) {
      var c, s, root :| c in commands && Writes(plan, producers, c, s, root, path);
      assert c in commands && root in Outputs(plan, producers, c) && Under(path, root);
    }
  }

  /** A hint that is no probe and no validation. */
  predicate Hinted(plan: Plan, hints: seq<Invocation>, c: Invocation) {
    c in hints && c.command != "foamDictionary" && c.command != "surfaceCheck" && !plan.finalizer(c.command)
  }

  /** An inferred consumer for which no hint has the same command and region. */
  predicate Filled(plan: Plan, hints: seq<Invocation>, inferred: seq<Invocation>, c: Invocation) {
    c in inferred && forall h :: h in hints && Hinted(plan, hints, h) && h.command == c.command ==>
      CommandRegion(h.arguments, plan.setting.nameOk) != CommandRegion(c.arguments, plan.setting.nameOk)
  }

  /** The command is permitted and its dictionary was written. */
  predicate MayRun(plan: Plan, written: set<string>, c: Invocation) {
    plan.permitted(c.command) &&
    match plan.requiredInput(Command(c.command, c.arguments))
    case None => true
    case Some(dictionary) => dictionary in written
  }

  lemma ProposalsExact(plan: Plan, hints: seq<Invocation>, c: Invocation)
    ensures c in Proposals(plan, hints) <==> Hinted(plan, hints, c)
  {
    KeepExact(hints, (h: Invocation) => Proposed(plan, h), c);
  }

  /** Main theorem: a build proposes exactly the hints and the consumers that fill gaps, as far as
      they may run; each once. */
  lemma StrategyExact(plan: Plan, written: set<string>, hints: seq<Invocation>, inferred: seq<Invocation>,
                      c: Invocation)
    ensures c in ExecutableStrategy(plan, written, hints, inferred) <==>
      MayRun(plan, written, c) && (Hinted(plan, hints, c) || Filled(plan, hints, inferred, c))
  {
    var proposed := Proposals(plan, hints);
    var gap := (d: Invocation) => forall p :: p in proposed ==> !SameTarget(plan, p, d);
    var added := Keep(inferred, gap);
    KeepExact(inferred, gap, c);
    KeepExact(Unique(proposed + added), (d: Invocation) => Executable(plan, written, d), c);
    forall h ensures h in proposed <==> Hinted(plan, hints, h) { ProposalsExact(plan, hints, h); }
  }

  ghost predicate NoTwoAlike(items: seq<Invocation>) {
    forall i, j :: 0 <= i < j < |items| ==> items[i] != items[j]
  }

  /** No earlier item is equal. */
  predicate FirstEqual(items: seq<Invocation>, i: nat)
    requires i < |items|
  {
    items[i] !in items[..i]
  }

  /** Of equal items the first is kept, and the order stays. */
  lemma {:induction false} UniqueKeepsFirst(items: seq<Invocation>) returns (places: seq<nat>)
    ensures PickedInOrder(items, Unique(items), places)
    ensures forall i :: 0 <= i < |places| ==> FirstEqual(items, places[i])
  {
    if items == [] {
      places := [];
    } else {
      var n := |items| - 1;
      var before := UniqueKeepsFirst(items[..n]);
      PickedMore(items, Unique(items[..n]), before, n);
      forall i | 0 <= i < |before| ensures FirstEqual(items, before[i]) {
        assert items[..n][..before[i]] == items[..before[i]];
      }
      places := if items[n] in Unique(items[..n]) then before else before + [n];
    }
  }

  /** The hints that are proposed, in the order given, come before the consumers that fill gaps. */
  lemma StrategyOrder(plan: Plan, written: set<string>, hints: seq<Invocation>, inferred: seq<Invocation>)
    returns (places: seq<nat>)
    ensures PickedInOrder(hints + inferred, ExecutableStrategy(plan, written, hints, inferred), places)
    ensures NoTwoAlike(ExecutableStrategy(plan, written, hints, inferred))
  {
    var proposed := Proposals(plan, hints);
    var gap := (d: Invocation) => forall p :: p in proposed ==> !SameTarget(plan, p, d);
    var added := Keep(inferred, gap);
    var a := KeepInOrder(hints, (h: Invocation) => Proposed(plan, h));
    var b := UniqueKeepsFirst(Keep(hints, (h: Invocation) => Proposed(plan, h)));
    var c := KeepInOrder(inferred, gap);
    var d := UniqueKeepsFirst(proposed + added);
    var e := KeepInOrder(Unique(proposed + added), (x: Invocation) => Executable(plan, written, x));
    var ab := Through(hints, Keep(hints, (h: Invocation) => Proposed(plan, h)), proposed, a, b);
    var abc := SideBySide(hints, proposed, ab, inferred, added, c);
    var abcd := Through(hints + inferred, proposed + added, Unique(proposed + added), abc, d);
    places := Through(hints + inferred, Unique(proposed + added), ExecutableStrategy(plan, written, hints, inferred),
                      abcd, e);
    PicksDiffer(Unique(proposed + added), ExecutableStrategy(plan, written, hints, inferred), e, proposed + added, d);
  }

  /** Picking from what was picked. */
  lemma Through(items: seq<Invocation>, middle: seq<Invocation>, picked: seq<Invocation>, first: seq<nat>,
                second: seq<nat>)
    returns (places: seq<nat>)
    requires PickedInOrder(items, middle, first) && PickedInOrder(middle, picked, second)
    ensures PickedInOrder(items, picked, places)
  {
    places := seq(|second|, i requires 0 <= i < |second| => first[second[i]]);
  }

  lemma SideBySide(a: seq<Invocation>, x: seq<Invocation>, first: seq<nat>, b: seq<Invocation>, y: seq<Invocation>,
                   second: seq<nat>)
    returns (places: seq<nat>)
    requires PickedInOrder(a, x, first) && PickedInOrder(b, y, second)
    ensures PickedInOrder(a + b, x + y, places)
  {
    places := first + seq(|second|, i requires 0 <= i < |second| => |a| + second[i]);
  }

  lemma PicksDiffer(items: seq<Invocation>, picked: seq<Invocation>, places: seq<nat>, all: seq<Invocation>,
                    firsts: seq<nat>)
    requires PickedInOrder(items, picked, places) && PickedInOrder(all, items, firsts)
    requires forall i :: 0 <= i < |firsts| ==> FirstEqual(all, firsts[i])
    ensures NoTwoAlike(picked)
  {
    forall i, j | 0 <= i < j < |picked| ensures picked[i] != picked[j] {
      var a, b := firsts[places[i]], firsts[places[j]];
      assert a < b && FirstEqual(all, b) && all[a] in all[..b];
    }
  }
}
