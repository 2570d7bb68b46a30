/** The compiled delta of a committed case: its edits, the native commands that must follow, and
    which scopes' meshes have to be validated again.

    The theorems say that a scope left out of revalidation keeps its mesh digest when the
    delta is committed, and that every other scope is validated after all consumers. */
module CaseDelta {
  import opened Wrappers
  import opened ExecutionScopes
  import opened MeshDependencies
  import Consumers = DeltaConsumers
  import Order = DependencyOrder
  import opened CaseEdits

  type Invocation = Order.Invocation

  /** The plan and the tool contracts, as the delta needs them. */
  datatype Plan = Plan(scopes: seq<Scope>, required: seq<string>, setting: Consumers.Setting, includes: IncludeReader,
                       candidates: set<string> -> seq<Consumers.Candidate>, changesMesh: string -> bool,
                       permitted: string -> bool, requiredInput: Command -> Option<string>,
                       finalizer: string -> bool, validation: Scope -> seq<Invocation>,
                       labels: Invocation -> Order.Labels)

  /** The validation commands a scope gets are finalizers by contract, and change no mesh. */
  ghost predicate WellFormed(plan: Plan) {
    && plan.setting.scopes == plan.scopes
    && forall s, c :: s in plan.scopes && c in plan.validation(s) ==>
      plan.finalizer(c.command) && !plan.changesMesh(c.command)
  }

  function Token(c: Invocation): Command {
    Command(c.command, c.arguments)
  }

  // ----- Affected scopes -----

  datatype DeltaError = Scoping(scoping: ScopeError) | Graph(graph: GraphError)

  /** The declared scopes a command is taken to change: the one it selects or all of them for a
      mesh or decomposition command, none for any other. */
  function TargetsOf(plan: Plan, c: Invocation): (r: Result<set<Scope>, ScopeError>)
    ensures r.Ok? ==> forall s :: s in r.value ==> s in plan.scopes
  {
    if !plan.changesMesh(c.command) then Ok({})
    else
      match CommandRegion(c.arguments, plan.setting.nameOk)
      case Err(e) => Err(e)
      case Ok(None) => Ok(set s | s in plan.scopes)
      case Ok(Some(name)) =>
        if multiset(plan.scopes)[Region(name)] == 1 then
          assert Region(name) in multiset(plan.scopes);
          Ok({Region(name)})
        else Err(Undeclared(Region(name)))
  }

  ghost predicate DependsOn(plan: Plan, ops: seq<Operation>, ws: Workspace, changed: set<string>, s: Scope) {
    AnyOverlap(changed, Dependencies(ops, ws, plan.includes, Name(s)))
  }

  ghost predicate Computable(plan: Plan, ops: seq<Operation>, ws: Workspace, s: Scope) {
    IncludesStayInside(ws, plan.includes, Roots(Ancestry(ops, Name(s), |ops|), Name(s)))
  }

  ghost predicate Affected(plan: Plan, ops: seq<Operation>, ws: Workspace, changed: set<string>,
                           pipeline: seq<Invocation>, s: Scope)
  {
    DependsOn(plan, ops, ws, changed, s) ||
    exists c :: c in pipeline && TargetsOf(plan, c).Ok? && s in TargetsOf(plan, c).value
  }

  function AllKeys(plan: Plan): set<string> {
    set s | s in plan.scopes :: Key(s)
  }

  /** The scopes with a changed dependency. */
  method DependentScopes(plan: Plan, graph: MeshDependencyGraph, ws: Workspace, changed: set<string>)
    returns (r: Result<set<Scope>, GraphError>)
    requires graph.Valid()
    ensures r.Ok? <==> forall s :: s in plan.scopes ==> Computable(plan, graph.operations, ws, s)
    ensures r.Ok? ==>
      forall s :: s in r.value <==> s in plan.scopes && DependsOn(plan, graph.operations, ws, changed, s)
  {
    var affected: set<Scope> := {};
    for i := 0 to |plan.scopes|
      invariant forall s :: s in affected <==>
        s in plan.scopes[..i] && DependsOn(plan, graph.operations, ws, changed, s)
      invariant forall s :: s in plan.scopes[..i] ==> Computable(plan, graph.operations, ws, s)
    {
      var s := plan.scopes[i];
      assert plan.scopes[..i + 1] == plan.scopes[..i] + [s];
      var found := graph.FindDependencies(ws, plan.includes, Name(s));
      match found
      case Err(e) =>
        assert s in plan.scopes && !Computable(plan, graph.operations, ws, s);
        return Err(e);
      case Ok((paths, _)) =>
        var touched := AnyOverlap(changed, paths);
        assert touched <==> DependsOn(plan, graph.operations, ws, changed, s);
        if touched {
          affected := affected + {s};
        }
    }
    assert plan.scopes[..|plan.scopes|] == plan.scopes;
    return Ok(affected);
  }

  /** The scopes some command of the pipeline will change. */
  method TargetedScopes(plan: Plan, pipeline: seq<Invocation>) returns (r: Result<set<Scope>, ScopeError>)
    ensures r.Ok? <==> forall c :: c in pipeline ==> TargetsOf(plan, c).Ok?
    ensures r.Ok? ==> forall s :: s in r.value <==> exists c :: c in pipeline && s in TargetsOf(plan, c).value
  {
    var affected: set<Scope> := {};
    for i := 0 to |pipeline|
      invariant forall c :: c in pipeline[..i] ==> TargetsOf(plan, c).Ok?
      invariant forall s :: s in affected <==> exists c :: c in pipeline[..i] && s in TargetsOf(plan, c).value
    {
      var c := pipeline[i];
      assert pipeline[..i + 1] == pipeline[..i] + [c];
      match TargetsOf(plan, c)
      case Err(e) =>
        assert c in pipeline;
        return Err(e);
      case Ok(targets) =>
        affected := affected + targets;
    }
    assert pipeline[..|pipeline|] == pipeline;
    return Ok(affected);
  }

  /** The keys of the scopes whose mesh the delta touches. */
  method AffectedScopes(plan: Plan, graph: MeshDependencyGraph, ws: Workspace, changed: set<string>,
                        pipeline: seq<Invocation>)
    returns (r: Result<set<string>, DeltaError>)
    requires graph.Valid()
    ensures r.Ok? <==> (forall s :: s in plan.scopes ==> Computable(plan, graph.operations, ws, s)) &&
                       forall c :: c in pipeline ==> TargetsOf(plan, c).Ok?
    ensures r.Ok? ==> r.value == AffectedKeys(plan, graph.operations, ws, changed, pipeline)
  {
    var dependent := DependentScopes(plan, graph, ws, changed);
    if dependent.Err? {
      return Err(Graph(dependent.error));
    }
    var targeted := TargetedScopes(plan, pipeline);
    if targeted.Err? {
      return Err(Scoping(targeted.error));
    }
    var affected := dependent.value + targeted.value;
    assert affected == set s | s in plan.scopes && Affected(plan, graph.operations, ws, changed, pipeline, s);
    return Ok(set s | s in affected :: Key(s));
  }

  ghost function AffectedKeys(plan: Plan, ops: seq<Operation>, ws: Workspace, changed: set<string>,
                              pipeline: seq<Invocation>): set<string>
  {
    set s | s in plan.scopes && Affected(plan, ops, ws, changed, pipeline, s) :: Key(s)
  }

  /** Main theorem: committing the changed and dropped files leaves the mesh digest of every
      scope that is not affected as it was. */
  lemma ReusedScopeKeepsDigest(plan: Plan, ops: seq<Operation>, ws: Workspace, changed: Files, drops: set<string>,
                               pipeline: seq<Invocation>, s: Scope)
    requires !Affected(plan, ops, ws, changed.Keys + drops, pipeline, s)
    ensures Digest(ops, Committed(ws, changed, drops), plan.includes, Name(s)) ==
            Digest(ops, ws, plan.includes, Name(s))
    ensures Computable(plan, ops, ws, s) ==> Computable(plan, ops, Committed(ws, changed, drops), s)
  {
    var paths, after := Dependencies(ops, ws, plan.includes, Name(s)), Committed(ws, changed, drops);
    forall f | Covered(paths, f) ensures Get(ws, f) == Get(after, f) {
      var p :| p in paths && Under(f, p);
      assert f in changed.Keys + drops ==> Overlap(f, p);
    }
    DigestIsExact(ops, ws, ops, after, plan.includes, Name(s));
    var roots := Roots(Ancestry(ops, Name(s), |ops|), Name(s));
    SameClosure(ws, after, plan.includes, roots);
    ClosureCovered(ws, plan.includes, roots);
    forall x | x in Closure(ws, plan.includes, roots) && x in after ensures x in ws && ws[x] == after[x] {
      assert Get(ws, x) == Get(after, x);
    }
  }

  // ----- The native pipeline -----

  predicate HasToken(items: seq<Invocation>, token: Command) {
    exists c :: c in items && Token(c) == token
  }

  /** Commands without repeats, the first of each kept. */
  function Dedupe(items: seq<Invocation>): seq<Invocation> {
    if items == [] then []
    else
      var n := |items| - 1;
      var before := Dedupe(items[..n]);
      if HasToken(before, Token(items[n])) then before else before + [items[n]]
  }

  lemma {:induction false} DedupeKeepsTokens(items: seq<Invocation>, token: Command)
    ensures HasToken(Dedupe(items), token) <==> HasToken(items, token)
  {
    if items != [] {
      var n := |items| - 1;
      var before := Dedupe(items[..n]);
      DedupeKeepsTokens(items[..n], token);
      assert items == items[..n] + [items[n]];
    }
  }

  lemma {:induction false} DedupeDistinct(items: seq<Invocation>, i: nat, j: nat)
    requires i < j < |Dedupe(items)|
    ensures Token(Dedupe(items)[i]) != Token(Dedupe(items)[j]) && Dedupe(items)[j] in items
  {
    var n := |items| - 1;
    var before := Dedupe(items[..n]);
    if j < |before| {
      DedupeDistinct(items[..n], i, j);
    } else {
      assert before[i] in before;
    }
  }

  function Keep(items: seq<Invocation>, keep: Invocation -> bool): seq<Invocation> {
    if items == [] then []
    else
      var n := |items| - 1;
      Keep(items[..n], keep) + (if keep(items[n]) then [items[n]] else [])
  }

  lemma {:induction false} KeepExact(items: seq<Invocation>, keep: Invocation -> bool, c: Invocation)
    ensures c in Keep(items, keep) <==> c in items && keep(c)
  {
    if items != [] {
      var n := |items| - 1;
      KeepExact(items[..n], keep, c);
      assert items == items[..n] + [items[n]];
    }
  }

  lemma {:induction false} KeepAll(items: seq<Invocation>, keep: Invocation -> bool)
    requires forall c :: c in items ==> keep(c)
    ensures Keep(items, keep) == items
  {
    if items != [] {
      var n := |items| - 1;
      KeepAll(items[..n], keep);
      assert items == items[..n] + [items[n]];
    }
  }

  lemma {:induction false} KeepAppend(a: seq<Invocation>, b: seq<Invocation>, keep: Invocation -> bool)
    ensures Keep(a + b, keep) == Keep(a, keep) + Keep(b, keep)
  {
    if b == [] {
      assert a + b == a;
    } else {
      var n := |b| - 1;
      KeepAppend(a, b[..n], keep);
      assert (a + b)[..|a + b| - 1] == a + b[..n];
    }
  }

  /** The validation of the scopes with the given keys, in plan order. */
  function Validation(plan: Plan, scopes: seq<Scope>, keys: set<string>): seq<Invocation> {
    if scopes == [] then []
    else
      var n := |scopes| - 1;
      Validation(plan, scopes[..n], keys) + (if Key(scopes[n]) in keys then plan.validation(scopes[n]) else [])
  }

  lemma {:induction false} ValidationCovers(plan: Plan, scopes: seq<Scope>, keys: set<string>, c: Invocation)
    ensures c in Validation(plan, scopes, keys) <==>
      exists s :: s in scopes && Key(s) in keys && c in plan.validation(s)
  {
    if scopes != [] {
      var n := |scopes| - 1;
      ValidationCovers(plan, scopes[..n], keys, c);
      assert scopes == scopes[..n] + [scopes[n]];
    }
  }

  /** Hints that may run: permitted, with their dictionary present, and not a validator the
      controller adds itself. */
  predicate Runnable(plan: Plan, effective: set<string>, c: Invocation) {
    && c.command !in {"foamDictionary", "surfaceCheck", "checkMesh"}
    && plan.permitted(c.command)
    && (plan.requiredInput(Token(c)).Some? ==> plan.requiredInput(Token(c)).value in effective)
  }

  function Tokens(items: seq<Invocation>): seq<Command> {
    seq(|items|, i requires 0 <= i < |items| => Token(items[i]))
  }

  function AsMesh(commands: seq<Command>): seq<Invocation> {
    seq(|commands|, i requires 0 <= i < |commands| =>
      Order.Invocation(commands[i].name, commands[i].arguments, "mesh"))
  }

  ghost predicate Distinct(items: seq<Invocation>) {
    forall i, j :: 0 <= i < j < |items| ==> Token(items[i]) != Token(items[j])
  }

  lemma {:induction false} KeepDistinct(items: seq<Invocation>, keep: Invocation -> bool)
    requires Distinct(items)
    ensures Distinct(Keep(items, keep))
  {
    if items != [] {
      var n := |items| - 1;
      KeepDistinct(items[..n], keep);
      var before := Keep(items[..n], keep);
      forall i | 0 <= i < |before| ensures Token(before[i]) != Token(items[n]) {
        KeepExact(items[..n], keep, before[i]);
        var k :| 0 <= k < n && items[k] == before[i];
      }
    }
  }

  lemma {:induction false} DedupeDistinctItems(items: seq<Invocation>)
    requires Distinct(items)
    ensures Dedupe(items) == items
  {
    if items != [] {
      var n := |items| - 1;
      var before, last := items[..n], items[n];
      DedupeDistinctItems(before);
      forall c | c in before ensures Token(c) != Token(last) {
        var k :| 0 <= k < n && before[k] == c;
        assert items[k] == c;
      }
      assert !HasToken(before, Token(last));
      assert items == before + [last];
    }
  }

  predicate Consumes(plan: Plan, c: Invocation) {
    !plan.finalizer(c.command)
  }

  function ConsumersOf(plan: Plan, commands: seq<Invocation>): seq<Invocation> {
    Keep(commands, (c: Invocation) => Consumes(plan, c))
  }

  function Finalizers(plan: Plan, commands: seq<Invocation>): seq<Invocation> {
    Keep(commands, (c: Invocation) => !Consumes(plan, c))
  }

  /** With affected scopes, their validation replaces every other finalizer. */
  function WithValidation(plan: Plan, commands: seq<Invocation>, affected: set<string>): seq<Invocation> {
    if affected == {} then commands else ConsumersOf(plan, commands) + Validation(plan, plan.scopes, affected)
  }

  lemma ValidationSplits(plan: Plan, commands: seq<Invocation>, affected: set<string>)
    requires WellFormed(plan)
    ensures ConsumersOf(plan, WithValidation(plan, commands, affected)) == ConsumersOf(plan, commands)
    ensures affected != {} ==>
      Finalizers(plan, WithValidation(plan, commands, affected)) == Validation(plan, plan.scopes, affected)
  {
    if affected != {} {
      var kept, added := ConsumersOf(plan, commands), Validation(plan, plan.scopes, affected);
      var consumes, finalizes := (c: Invocation) => Consumes(plan, c), (c: Invocation) => !Consumes(plan, c);
      forall c | c in kept ensures Consumes(plan, c) { KeepExact(commands, consumes, c); }
      forall c | c in added ensures !Consumes(plan, c) { ValidationCovers(plan, plan.scopes, affected, c); }
      KeepAppend(kept, added, consumes);
      KeepAppend(kept, added, finalizes);
      KeepAll(kept, consumes);
      KeepNone(added, consumes);
      KeepNone(kept, finalizes);
      KeepAll(added, finalizes);
    }
  }

  lemma {:induction false} KeepNone(items: seq<Invocation>, keep: Invocation -> bool)
    requires forall c :: c in items ==> !keep(c)
    ensures Keep(items, keep) == []
  {
    if items != [] {
      KeepNone(items[..|items| - 1], keep);
    }
  }

  datatype Failure =
    | Edit(problem: Problem)
    | UnboundConsumer(error: ScopeError)
    | UnboundScope(scope: DeltaError)
    | Ordering(order: Order.Failure)

  datatype Strategy = Strategy(order: seq<Invocation>, finalizers: seq<Invocation>, affected: set<string>,
                               failures: seq<Failure>)

  function RunnableHints(plan: Plan, effective: set<string>, hints: seq<Invocation>): seq<Invocation> {
    Keep(Dedupe(hints), (c: Invocation) => Runnable(plan, effective, c))
  }

  /** The kept hints and the consumers swept up by the changed paths and the hints' outputs. */
  ghost predicate Collected(plan: Plan, effective: set<string>, changed: set<string>, kept: seq<Invocation>,
                            selected: seq<Consumers.Candidate>, commands: seq<Invocation>) {
    && commands == Dedupe(kept + AsMesh(Consumers.Commands(selected)))
    && Consumers.Swept(plan.setting, Consumers.Inferred(plan.setting, plan.candidates(effective), Tokens(kept)),
                       (set c | c in Tokens(kept)), changed + Consumers.ExplicitOutputs(plan.setting, Tokens(kept)),
                       selected)
  }

  /** Every hint that may run is bound to a scope, and every candidate names at most one. */
  ghost predicate ConsumersBind(plan: Plan, effective: set<string>, hints: seq<Invocation>) {
    Consumers.Explicable(plan.setting, Tokens(RunnableHints(plan, effective, hints))) &&
    forall c :: c in plan.candidates(effective) ==> CommandRegion(c.command.arguments, plan.setting.nameOk).Ok?
  }

  /** Each scope's dependencies can be computed, and each mesh command targets declared scopes. */
  ghost predicate ScopesBind(plan: Plan, ops: seq<Operation>, ws: Workspace, commands: seq<Invocation>) {
    (forall s :: s in plan.scopes ==> Computable(plan, ops, ws, s)) && forall c :: c in commands ==>
      TargetsOf(plan, c).Ok?
  }

  /** The consumers can be put in order. */
  ghost predicate Orderable(plan: Plan, consumers: seq<Invocation>) {
    |consumers| >= 2 ==> Order.Bindable(consumers, plan.labels) && Order.SomeOrder(consumers, plan.labels)
  }

  /** Hints that can run, then the consumers they and the edits trigger; each command once. */
  method CollectCommands(plan: Plan, effective: set<string>, changed: set<string>, hints: seq<Invocation>)
    returns (commands: seq<Invocation>, failures: seq<Failure>, ghost selected: seq<Consumers.Candidate>)
    ensures Distinct(commands) && forall h :: h in hints && Runnable(plan, effective, h) ==>
      HasToken(commands, Token(h))
    ensures failures == [] <==> ConsumersBind(plan, effective, hints)
    ensures ConsumersBind(plan, effective, hints) ==>
      Collected(plan, effective, changed, RunnableHints(plan, effective, hints), selected, commands)
  {
    var strategy := RunnableHints(plan, effective, hints);
    var inferred;
    inferred, selected := Consumers.AutoConsumers(plan.setting, plan.candidates(effective), changed, Tokens(strategy));
    var added: seq<Invocation> := [];
    failures := [];
    match inferred {
      case Err(e) => failures := [UnboundConsumer(e)];
      case Ok(found) => added := AsMesh(found);
    }
    HintsKept(plan, effective, hints, added);
    commands := Dedupe(strategy + added);
    forall i: nat, j: nat | i < j < |commands| ensures Token(commands[i]) != Token(commands[j]) {
      DedupeDistinct(strategy + added, i, j);
    }
  }

  /** The commands to run after the edits and the validation of every affected scope.
      `commands` are those found before finalizers are replaced and consumers ordered. */
  method CompileStrategy(plan: Plan, graph: MeshDependencyGraph, ws: Workspace, effective: set<string>,
                         changed: set<string>, hints: seq<Invocation>)
    returns (s: Strategy, ghost commands: seq<Invocation>, ghost selected: seq<Consumers.Candidate>)
    requires WellFormed(plan) && graph.Valid()
    ensures s.affected <= AllKeys(plan)
    ensures s.failures == [] <==>
      ConsumersBind(plan, effective, hints) && ScopesBind(plan, graph.operations, ws, commands) &&
      Orderable(plan, ConsumersOf(plan, commands))
    ensures s.failures == [] ==> s.affected == AffectedKeys(plan, graph.operations, ws, changed, commands)
    ensures s.failures == [] ==> forall c :: c in commands ==> TargetsOf(plan, c).Ok?
    ensures ConsumersBind(plan, effective, hints) ==>
      Collected(plan, effective, changed, RunnableHints(plan, effective, hints), selected, commands)
    ensures Distinct(commands) && forall h :: h in hints && Runnable(plan, effective, h) ==>
      HasToken(commands, Token(h))
    ensures s.affected != {} ==> s.finalizers == Validation(plan, plan.scopes, s.affected)
    ensures s.affected == {} ==> s.finalizers == Finalizers(plan, commands)
    ensures s.failures == [] ==> Ordered(plan, ConsumersOf(plan, commands), s.order)
    ensures s.failures == [] ==> Order.BestOrder(ConsumersOf(plan, commands), plan.labels, s.order)
  {
    var collected, failures;
    collected, failures, selected := CollectCommands(plan, effective, changed, hints);
    commands := collected;
    var found := AffectedScopes(plan, graph, ws, changed, collected);
    var affected: set<string> := {};
    match found {
      case Err(e) => failures := failures + [UnboundScope(e)];
      case Ok(keys) => affected := keys;
    }
    ValidationSplits(plan, collected, affected);
    var strategy := WithValidation(plan, collected, affected);
    KeepDistinct(collected, (c: Invocation) => Consumes(plan, c));
    DedupeDistinctItems(ConsumersOf(plan, collected));
    var order, reports := OrderConsumers(plan, Dedupe(ConsumersOf(plan, strategy)));
    s := Strategy(order, Finalizers(plan, strategy), affected, failures + AsFailures(reports));
  }

  method OrderConsumers(plan: Plan, consumers: seq<Invocation>)
    returns (order: seq<Invocation>, reports: seq<Order.Failure>)
    ensures reports == [] <==> Orderable(plan, consumers)
    ensures reports == [] ==> Ordered(plan, consumers, order)
    ensures reports == [] ==> Order.BestOrder(consumers, plan.labels, order)
  {
    var ordered := Order.StableDependencyOrder(consumers, plan.labels);
    Order.UnboundReported(consumers, plan.labels);
    Order.BoundAlike(consumers, plan.labels);
    if |consumers| < 2 {
      Order.ShortIsBest(consumers, plan.labels);
    }
    return ordered.order, ordered.failures;
  }

  function AsFailures(failures: seq<Order.Failure>): (r: seq<Failure>)
    ensures |r| == |failures|
  {
    seq(|failures|, i requires 0 <= i < |failures| => Ordering(failures[i]))
  }

  /** The consumers in the stable order of their labels. */
  ghost predicate Ordered(plan: Plan, consumers: seq<Invocation>, order: seq<Invocation>) {
    if |consumers| < 2 then order == consumers
    else exists o :: Order.StableOrder(Order.Rendered(consumers, plan.labels), o) && order == Order.Pick(consumers, o)
  }

  lemma HintsKept(plan: Plan, effective: set<string>, hints: seq<Invocation>, added: seq<Invocation>)
    ensures var kept := RunnableHints(plan, effective, hints);
      forall h :: h in hints && Runnable(plan, effective, h) ==> HasToken(Dedupe(kept + added), Token(h))
  {
    var run := (c: Invocation) => Runnable(plan, effective, c);
    var kept := Keep(Dedupe(hints), run);
    forall h | h in hints && Runnable(plan, effective, h) ensures HasToken(Dedupe(kept + added), Token(h)) {
      DedupeKeepsTokens(hints, Token(h));
      var d :| d in Dedupe(hints) && Token(d) == Token(h);
      KeepExact(Dedupe(hints), run, d);
      assert d in kept + added;
      DedupeKeepsTokens(kept + added, Token(h));
    }
  }

  // ----- The whole delta -----

  datatype Delta = Delta(edits: Edits, order: seq<Invocation>, finalizers: seq<Invocation>,
                         affected: set<string>, reused: set<string>, failures: seq<Failure>)

  function Dropped(d: Delta): set<string> {
    set p | p in d.edits.drops
  }

  /** What an accepted delta consists of: the affected scopes are those the edits and the commands
      touch, the consumers are in stable order, and the validation of the affected scopes
      replaces every other finalizer. */
  ghost predicate Compiled(plan: Plan, ops: seq<Operation>, ws: Workspace, d: Delta, commands: seq<Invocation>) {
    && ScopesBind(plan, ops, ws, commands)
    && d.affected == AffectedKeys(plan, ops, ws, d.edits.changed.Keys + Dropped(d), commands)
    && Ordered(plan, ConsumersOf(plan, commands), d.order)
    && d.finalizers ==
       if d.affected == {} then Finalizers(plan, commands) else Validation(plan, plan.scopes, d.affected)
  }

  function EditFailures(problems: seq<Problem>): (r: seq<Failure>)
    ensures |r| == |problems|
  {
    seq(|problems|, i requires 0 <= i < |problems| => Edit(problems[i]))
  }

  /** The delta as compiled from the committed files; the native commands run in `order` and
      then the finalizers. */
  method CompileDelta(plan: Plan, graph: MeshDependencyGraph, ws: Workspace, files: Files,
                      replacements: seq<Replacement>, patches: seq<TextPatch>, requested: seq<string>,
                      inspect: (Files, seq<string>) -> seq<string>, hints: seq<Invocation>, meshCommands: seq<string>)
    returns (d: Delta, ghost commands: seq<Invocation>, ghost selected: seq<Consumers.Candidate>)
    requires WellFormed(plan) && graph.Valid()
    ensures d.affected !! d.reused && d.affected + d.reused == AllKeys(plan)
    ensures d.edits.drops == ActiveDrops(files, requested)
    ensures d.edits.effective == Committed(files, d.edits.changed, set p | p in d.edits.drops)
    ensures d.failures == [] <==>
      Consistent(files, replacements, patches, (set p | p in d.edits.drops), plan.required) &&
      inspect(d.edits.changed, d.edits.drops) == [] &&
      ConsumersBind(plan, d.edits.effective.Keys, Given(hints, meshCommands)) &&
      ScopesBind(plan, graph.operations, ws, commands) && Orderable(plan, ConsumersOf(plan, commands))
    ensures Consistent(files, replacements, patches, (set p | p in d.edits.drops), plan.required) ==>
      ChangesExplained(files, replacements, patches, d.edits.changed) &&
      forall p :: p in plan.required ==> p in d.edits.effective
    ensures ConsumersBind(plan, d.edits.effective.Keys, Given(hints, meshCommands)) ==>
      Collected(plan, d.edits.effective.Keys, d.edits.changed.Keys + (set p | p in d.edits.drops),
                RunnableHints(plan, d.edits.effective.Keys, Given(hints, meshCommands)), selected, commands)
    ensures d.failures == [] ==> Compiled(plan, graph.operations, ws, d, commands)
    ensures d.failures == [] ==> Order.BestOrder(ConsumersOf(plan, commands), plan.labels, d.order)
    ensures d.failures == [] ==> forall s :: s in plan.scopes && Key(s) in d.reused ==>
      KeepsMesh(plan, graph.operations, ws, d.edits.changed, d.edits.drops, s)
    ensures forall s, c :: s in plan.scopes && Key(s) in d.affected && c in plan.validation(s) ==> c in d.finalizers
    ensures d.failures == [] ==> forall c :: c in d.order + d.finalizers ==> StaysInside(plan, c, d.affected)
  {
    var edits := CompileEdits(files, replacements, patches, requested, plan.required, inspect);
    var given := Given(hints, meshCommands);
    var dropped := set p | p in edits.drops;
    var changed := edits.changed.Keys + dropped;
    var strategy: Strategy;
    strategy, commands, selected := CompileStrategy(plan, graph, ws, edits.effective.Keys, changed, given);
    d := Delta(edits, strategy.order, strategy.finalizers, strategy.affected, AllKeys(plan) - strategy.affected,
               EditFailures(edits.problems) + strategy.failures);
    forall s | d.failures == [] && s in plan.scopes && Key(s) in d.reused
      ensures KeepsMesh(plan, graph.operations, ws, edits.changed, edits.drops, s)
    {
      assert !Affected(plan, graph.operations, ws, changed, commands, s);
      ReusedScopeKeepsDigest(plan, graph.operations, ws, edits.changed, dropped, commands, s);
    }
    forall s, c | s in plan.scopes && Key(s) in d.affected && c in plan.validation(s) ensures c in d.finalizers {
      ValidationCovers(plan, plan.scopes, d.affected, c);
    }
    if d.failures == [] {
      PipelineStaysInside(plan, graph.operations, ws, changed, commands, strategy);
    }
  }

  /** Mesh commands are only a substitute for missing hints. */
  function Given(hints: seq<Invocation>, meshCommands: seq<string>): seq<Invocation> {
    if hints == [] then AsMesh(Bare(meshCommands)) else hints
  }

  function Bare(names: seq<string>): seq<Command> {
    seq(|names|, i requires 0 <= i < |names| => Command(names[i], []))
  }

  /** Committing the changes keeps the scope's mesh digest. */
  ghost predicate KeepsMesh(plan: Plan, ops: seq<Operation>, ws: Workspace, changed: Files, drops: seq<string>,
                            s: Scope)
  {
    Digest(ops, Committed(ws, changed, set p | p in drops), plan.includes, Name(s)) ==
    Digest(ops, ws, plan.includes, Name(s))
  }

  /** A mesh command targets none but the given scopes. */
  predicate StaysInside(plan: Plan, c: Invocation, affected: set<string>) {
    TargetsOf(plan, c).Ok? && forall s :: s in TargetsOf(plan, c).value ==> Key(s) in affected
  }

  lemma PipelineStaysInside(plan: Plan, ops: seq<Operation>, ws: Workspace, changed: set<string>,
                            commands: seq<Invocation>, s: Strategy)
    requires WellFormed(plan) && s.affected == AffectedKeys(plan, ops, ws, changed, commands)
    requires forall c :: c in commands ==> TargetsOf(plan, c).Ok?
    requires Ordered(plan, ConsumersOf(plan, commands), s.order)
    requires s.finalizers ==
      if s.affected == {} then Finalizers(plan, commands) else Validation(plan, plan.scopes, s.affected)
    ensures forall c :: c in s.order + s.finalizers ==> StaysInside(plan, c, s.affected)
  {
    forall c | c in commands ensures StaysInside(plan, c, s.affected) {
      forall t | t in TargetsOf(plan, c).value ensures Key(t) in s.affected {
        assert Affected(plan, ops, ws, changed, commands, t);
      }
    }
    forall c | c in s.order + s.finalizers ensures StaysInside(plan, c, s.affected) {
      if c in s.order {
        OrderedMembers(plan, ConsumersOf(plan, commands), s.order, c);
        KeepExact(commands, (d: Invocation) => Consumes(plan, d), c);
      } else if s.affected == {} {
        KeepExact(commands, (d: Invocation) => !Consumes(plan, d), c);
      } else {
        ValidationCovers(plan, plan.scopes, s.affected, c);
      }
    }
  }

  /** Ordering keeps exactly the consumers. */
  lemma OrderedMembers(plan: Plan, consumers: seq<Invocation>, order: seq<Invocation>, c: Invocation)
    requires Ordered(plan, consumers, order)
    ensures c in order <==> c in consumers
  {
    if |consumers| >= 2 {
      var o :| Order.StableOrder(Order.Rendered(consumers, plan.labels), o) && order == Order.Pick(consumers, o);
      if c in consumers {
        var v :| 0 <= v < |consumers| && consumers[v] == c;
        Order.PermutationCovers(|consumers|, o, v);
        var k :| 0 <= k < |o| && o[k] == v;
        assert order[k] == c;
      }
      if c in order {
        var k :| 0 <= k < |order| && order[k] == c;
        assert consumers[o[k]] == c;
      }
    }
  }

  // ----- In plain words -----

  /** A changed path is something the scope's mesh depends on, or a folder above or below it. */
  ghost predicate EditTouches(plan: Plan, ops: seq<Operation>, ws: Workspace, changed: set<string>, s: Scope) {
    exists p, q :: p in changed && q in Dependencies(ops, ws, plan.includes, Name(s)) &&
      (p == q || p + "/" <= q || q + "/" <= p)
  }

  /** A command that changes meshes selects the scope, or selects none. */
  predicate CommandTouches(plan: Plan, commands: seq<Invocation>, s: Scope) {
    exists c :: c in commands && plan.changesMesh(c.command) &&
      (CommandRegion(c.arguments, plan.setting.nameOk) == Ok(None) ||
       (s.Region? && CommandRegion(c.arguments, plan.setting.nameOk) == Ok(Some(s.name))))
  }

  lemma TouchedExact(plan: Plan, commands: seq<Invocation>, s: Scope)
    requires s in plan.scopes && forall c :: c in commands ==> TargetsOf(plan, c).Ok?
    ensures CommandTouches(plan, commands, s) <==> exists c :: c in commands && s in TargetsOf(plan, c).value
  {
    forall c | c in commands
      ensures s in TargetsOf(plan, c).value <==>
        plan.changesMesh(c.command) &&
        (CommandRegion(c.arguments, plan.setting.nameOk) == Ok(None) ||
         (s.Region? && CommandRegion(c.arguments, plan.setting.nameOk) == Ok(Some(s.name))))
    {}
  }

  /** Main theorem: a scope is affected exactly when an edit or a mesh command touches it. */
  lemma AffectedExact(plan: Plan, ops: seq<Operation>, ws: Workspace, changed: set<string>,
                      commands: seq<Invocation>, s: Scope)
    requires s in plan.scopes && forall c :: c in commands ==> TargetsOf(plan, c).Ok?
    ensures Key(s) in AffectedKeys(plan, ops, ws, changed, commands) <==>
      EditTouches(plan, ops, ws, changed, s) || CommandTouches(plan, commands, s)
  {
    assert DependsOn(plan, ops, ws, changed, s) <==> EditTouches(plan, ops, ws, changed, s) by {
      OverlapsMeet(changed, Dependencies(ops, ws, plan.includes, Name(s)));
    }
    TouchedExact(plan, commands, s);
    if Key(s) in AffectedKeys(plan, ops, ws, changed, commands) {
      var t :| t in plan.scopes && Affected(plan, ops, ws, changed, commands, t) && Key(t) == Key(s);
      KeysDistinct(s, t);
    }
  }

  /** Items at ascending places of a list. */
  ghost predicate PickedInOrder(items: seq<Invocation>, picked: seq<Invocation>, places: seq<nat>) {
    && |places| == |picked|
    && (forall i, j :: 0 <= i < j < |places| ==> places[i] < places[j])
    && forall i :: 0 <= i < |places| ==> places[i] < |items| && picked[i] == items[places[i]]
  }

  /** No earlier item has the same name and arguments. */
  predicate FirstUse(items: seq<Invocation>, i: nat)
    requires i < |items|
  {
    forall k :: 0 <= k < i ==> Token(items[k]) != Token(items[i])
  }

  lemma FirstUseInPrefix(items: seq<Invocation>, n: nat, i: nat)
    requires i < n <= |items|
    ensures FirstUse(items[..n], i) <==> FirstUse(items, i)
  {
    assert forall k :: 0 <= k <= i ==> items[..n][k] == items[k];
  }

  /** Of commands with the same name and arguments the first is kept, and the order stays. */
  lemma {:induction false} DedupeKeepsFirst(items: seq<Invocation>) returns (places: seq<nat>)
    ensures PickedInOrder(items, Dedupe(items), places)
    ensures forall i :: 0 <= i < |places| ==> FirstUse(items, places[i])
  {
    if items == [] {
      places := [];
    } else {
      var n := |items| - 1;
      var before := DedupeKeepsFirst(items[..n]);
      UsesInPrefix(items, n, before);
      PickedMore(items, Dedupe(items[..n]), before, n);
      if HasToken(Dedupe(items[..n]), Token(items[n])) {
        places := before;
      } else {
        DedupeKeepsTokens(items[..n], Token(items[n]));
        NewUse(items);
        places := before + [n];
      }
    }
  }

  lemma PickedMore(items: seq<Invocation>, picked: seq<Invocation>, places: seq<nat>, n: nat)
    requires n < |items| && PickedInOrder(items[..n], picked, places)
    ensures PickedInOrder(items, picked, places) && PickedInOrder(items, picked + [items[n]], places + [n])
  {}

  lemma UsesInPrefix(items: seq<Invocation>, n: nat, places: seq<nat>)
    requires n <= |items|
    requires forall i :: 0 <= i < |places| ==> places[i] < n && FirstUse(items[..n], places[i])
    ensures forall i :: 0 <= i < |places| ==> FirstUse(items, places[i])
  {
    forall i | 0 <= i < |places| ensures FirstUse(items, places[i]) {
      FirstUseInPrefix(items, n, places[i]);
    }
  }

  lemma NewUse(items: seq<Invocation>)
    requires items != [] && !HasToken(items[..|items| - 1], Token(items[|items| - 1]))
    ensures FirstUse(items, |items| - 1)
  {
    forall k | 0 <= k < |items| - 1 ensures Token(items[k]) != Token(items[|items| - 1]) {
      assert items[k] in items[..|items| - 1];
    }
  }

  lemma {:induction false} KeepInOrder(items: seq<Invocation>, keep: Invocation -> bool) returns (places: seq<nat>)
    ensures PickedInOrder(items, Keep(items, keep), places)
  {
    if items == [] {
      places := [];
    } else {
      var n := |items| - 1;
      var before := KeepInOrder(items[..n], keep);
      PickedMore(items, Keep(items[..n], keep), before, n);
      places := if keep(items[n]) then before + [n] else before;
    }
  }

  /** A hint that is no probe and no mesh check, is permitted, and has its dictionary. */
  predicate HintRuns(plan: Plan, effective: set<string>, hints: seq<Invocation>, c: Invocation) {
    && c in hints && c.command != "foamDictionary" && c.command != "surfaceCheck" && c.command != "checkMesh"
    && plan.permitted(c.command)
    && match plan.requiredInput(Command(c.command, c.arguments))
       case None => true
       case Some(dictionary) => dictionary in effective
  }

  lemma KeptHint(plan: Plan, effective: set<string>, hints: seq<Invocation>, c: Invocation)
    requires c in RunnableHints(plan, effective, hints)
    ensures HintRuns(plan, effective, hints, c)
  {
    KeepExact(Dedupe(hints), (h: Invocation) => Runnable(plan, effective, h), c);
    DedupeSubset(hints, c);
  }

  lemma {:induction false} DedupeSubset(items: seq<Invocation>, c: Invocation)
    requires c in Dedupe(items)
    ensures c in items
  {
    var n := |items| - 1;
    if c in Dedupe(items[..n]) {
      DedupeSubset(items[..n], c);
    }
  }

  /** The command is one of those selected. */
  predicate IsSelected(selected: seq<Consumers.Candidate>, c: Invocation) {
    c.role == "mesh" &&
    exists k :: 0 <= k < |selected| && selected[k].command == Command(c.command, c.arguments)
  }

  /** The commands of a delta are the hints that run and the consumers selected for it, with no
      two alike. */
  lemma CommandsExact(plan: Plan, effective: set<string>, changed: set<string>, hints: seq<Invocation>,
                      selected: seq<Consumers.Candidate>, commands: seq<Invocation>)
    requires Collected(plan, effective, changed, RunnableHints(plan, effective, hints), selected, commands)
    ensures forall c :: c in commands ==> HintRuns(plan, effective, hints, c) || IsSelected(selected, c)
    ensures forall c :: HintRuns(plan, effective, hints, c) ==> HasToken(commands, Command(c.command, c.arguments))
    ensures forall k :: 0 <= k < |selected| ==> HasToken(commands, selected[k].command)
    ensures Distinct(commands)
  {
    var kept, found := RunnableHints(plan, effective, hints), AsMesh(Consumers.Commands(selected));
    forall c | c in commands ensures HintRuns(plan, effective, hints, c) || IsSelected(selected, c) {
      DedupeSubset(kept + found, c);
      if c in kept {
        KeptHint(plan, effective, hints, c);
      } else {
        var k :| 0 <= k < |found| && found[k] == c;
      }
    }
    HintsKept(plan, effective, hints, found);
    forall k | 0 <= k < |selected| ensures HasToken(commands, selected[k].command) {
      SelectedKept(kept, selected, k);
    }
    forall i: nat, j: nat | i < j < |commands| ensures Token(commands[i]) != Token(commands[j]) {
      DedupeDistinct(kept + found, i, j);
    }
  }

  lemma SelectedKept(kept: seq<Invocation>, selected: seq<Consumers.Candidate>, k: nat)
    requires k < |selected|
    ensures HasToken(Dedupe(kept + AsMesh(Consumers.Commands(selected))), selected[k].command)
  {
    var found := AsMesh(Consumers.Commands(selected));
    assert found[k] in kept + found && Token(found[k]) == selected[k].command;
    DedupeKeepsTokens(kept + found, selected[k].command);
  }

  /** Scopes are validated in plan order, each with its own commands. */
  lemma {:induction false} ValidationInOrder(plan: Plan, first: seq<Scope>, second: seq<Scope>, keys: set<string>)
    ensures Validation(plan, first + second, keys) == Validation(plan, first, keys) + Validation(plan, second, keys)
  {
    if second == [] {
      assert first + second == first;
    } else {
      var n := |second| - 1;
      ValidationInOrder(plan, first, second[..n], keys);
      assert (first + second)[..|first + second| - 1] == first + second[..n];
    }
  }

  lemma OneValidation(plan: Plan, s: Scope, keys: set<string>)
    ensures Validation(plan, [s], keys) == if Key(s) in keys then plan.validation(s) else []
  {
    assert [s][..0] == [] && Validation(plan, [], keys) == [];
  }

  /** Bare mesh commands stand in for missing hints only. */
  lemma GivenExact(hints: seq<Invocation>, meshCommands: seq<string>)
    ensures hints != [] ==> Given(hints, meshCommands) == hints
    ensures hints == [] ==> |Given(hints, meshCommands)| == |meshCommands|
    ensures hints == [] ==> forall i :: 0 <= i < |meshCommands| ==>
      Given(hints, meshCommands)[i] == Order.Invocation(meshCommands[i], [], "mesh")
  {}
}
