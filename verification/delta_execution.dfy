/** What running a compiled delta does to the scopes it does not validate again.

    The delta counts mesh and decomposition commands only, while running it records every
    command that meshes, decomposes, writes or initializes.  The theorems say exactly when the
    digest and the evidence of a reused scope survive. */
module DeltaExecution {
  import opened Wrappers
  import opened ExecutionScopes
  import opened MeshDependencies
  import opened CaseDelta
  import CaseEdits
  import Consumers = DeltaConsumers
  import Evidence = MeshEvidence
  import Order = DependencyOrder

  /** Whether running a command appends an operation: it meshes, decomposes, writes or
      initializes. */
  type Effects = Command -> bool

  /** One plan as the delta compiler and as the recorder of operations see it; regions have
      names. */
  ghost predicate SamePlan(plan: Plan, ctx: Evidence.Context) {
    && ctx.scopes == plan.scopes && ctx.includes == plan.includes && ctx.nameOk == plan.setting.nameOk
    && forall s :: s in plan.scopes && s.Region? ==> s.name != ""
  }

  /** The operations after running commands in order. */
  ghost function OpsAfterRun(ctx: Evidence.Context, recorded: Effects, ops: seq<Operation>,
                             run: seq<Invocation>): seq<Operation>
  {
    if run == [] then ops
    else
      var n := |run| - 1;
      var before := OpsAfterRun(ctx, recorded, ops, run[..n]);
      if recorded(Token(run[n])) then Evidence.OpsAfter(ctx, before, Token(run[n])) else before
  }

  /** The k-th command of a run is recorded and names the region or writes over its mesh. */
  ghost predicate Hits(ctx: Evidence.Context, recorded: Effects, ops: seq<Operation>, run: seq<Invocation>, k: nat,
                       region: string)
    requires k < |run|
  {
    var command, before := Token(run[k]), OpsAfterRun(ctx, recorded, ops, run[..k]);
    recorded(command) && Evidence.CanRecord(ctx, before, command) &&
    Targets(RecordedNow(ctx, before, command), region)
  }

  ghost function RecordedNow(ctx: Evidence.Context, ops: seq<Operation>, command: Command): Operation
    requires Evidence.CanRecord(ctx, ops, command)
  {
    Evidence.Recorded(ctx, ops, command, Evidence.TargetScopes(ctx, command.arguments).value)
  }

  ghost predicate Untouched(ctx: Evidence.Context, recorded: Effects, ops: seq<Operation>, run: seq<Invocation>,
                            region: string)
  {
    forall k: nat :: k < |run| ==> !Hits(ctx, recorded, ops, run, k, region)
  }

  // ----- Ancestry -----

  lemma {:induction false} RunGrows(ctx: Evidence.Context, recorded: Effects, ops: seq<Operation>,
                                    run: seq<Invocation>, k: nat)
    requires Chronological(ops) && k <= |run|
    ensures Chronological(OpsAfterRun(ctx, recorded, ops, run))
    ensures ops <= OpsAfterRun(ctx, recorded, ops, run[..k]) <= OpsAfterRun(ctx, recorded, ops, run)
    decreases |run|
  {
    if run == [] {
      assert run[..k] == [];
    } else {
      var n := |run| - 1;
      RunGrows(ctx, recorded, ops, run[..n], if k < n then k else n);
      assert run[..n][..n] == run[..n] && (k < n ==> run[..n][..k] == run[..k]);
      if recorded(Token(run[n])) {
        Evidence.RecordedIsChronological(ctx, OpsAfterRun(ctx, recorded, ops, run[..n]), Token(run[n]));
      }
      if k == |run| {
        assert run[..k] == run;
      }
    }
  }

  lemma {:induction false} UntouchedAncestry(ctx: Evidence.Context, recorded: Effects, ops: seq<Operation>,
                                             run: seq<Invocation>, region: string)
    requires Untouched(ctx, recorded, ops, run, region)
    ensures var after := OpsAfterRun(ctx, recorded, ops, run);
      Ancestry(after, region, |after|) == Ancestry(ops, region, |ops|)
  {
    if run != [] {
      var n := |run| - 1;
      var rest, command := run[..n], Token(run[n]);
      var before := OpsAfterRun(ctx, recorded, ops, rest);
      forall k: nat | k < n ensures !Hits(ctx, recorded, ops, rest, k, region) {
        assert rest[..k] == run[..k];
        assert !Hits(ctx, recorded, ops, run, k, region);
      }
      UntouchedAncestry(ctx, recorded, ops, rest, region);
      if recorded(command) && Evidence.CanRecord(ctx, before, command) {
        assert !Hits(ctx, recorded, ops, run, n, region);
        NewOperationIgnored(before, RecordedNow(ctx, before, command), region);
      }
    }
  }

  lemma NewOperationIgnored(ops: seq<Operation>, op: Operation, region: string)
    requires !Targets(op, region)
    ensures Ancestry(ops + [op], region, |ops + [op]|) == Ancestry(ops, region, |ops|)
  {
    AncestryKept(ops, op, region, |ops|);
    assert !Ancestor(ops + [op], region, |ops|);
  }

  lemma HitChangesAncestry(ctx: Evidence.Context, recorded: Effects, ops: seq<Operation>, run: seq<Invocation>,
                           k: nat, region: string)
    requires Chronological(ops) && k < |run| && Hits(ctx, recorded, ops, run, k, region)
    ensures var after := OpsAfterRun(ctx, recorded, ops, run);
      Ancestry(after, region, |after|) != Ancestry(ops, region, |ops|)
  {
    var before, after := OpsAfterRun(ctx, recorded, ops, run[..k]), OpsAfterRun(ctx, recorded, ops, run);
    RunGrows(ctx, recorded, ops, run, k);
    RunGrows(ctx, recorded, ops, run, k + 1);
    assert run[..k + 1][..k] == run[..k];
    assert OpsAfterRun(ctx, recorded, ops, run[..k + 1]) == before + [RecordedNow(ctx, before, Token(run[k]))];
    assert after[|before|] == RecordedNow(ctx, before, Token(run[k]));
    Evidence.TargetedIsNew(ops, after, region, |before|);
  }

  /** Running commands keeps a region's digest exactly when none of those recorded names the
      region or writes over its mesh, and the files its mesh depends on are as they were. */
  lemma RunKeepsDigest(ctx: Evidence.Context, recorded: Effects, ops: seq<Operation>, run: seq<Invocation>,
                       ws: Workspace, after: Workspace, region: string)
    requires Chronological(ops)
    ensures Digest(OpsAfterRun(ctx, recorded, ops, run), after, ctx.includes, region) ==
            Digest(ops, ws, ctx.includes, region) <==>
            Untouched(ctx, recorded, ops, run, region) &&
            AgreeUnder(Dependencies(ops, ws, ctx.includes, region), ws, after)
  {
    DigestIsExact(ops, ws, OpsAfterRun(ctx, recorded, ops, run), after, ctx.includes, region);
    if Untouched(ctx, recorded, ops, run, region) {
      UntouchedAncestry(ctx, recorded, ops, run, region);
    } else {
      var k: nat :| k < |run| && Hits(ctx, recorded, ops, run, k, region);
      HitChangesAncestry(ctx, recorded, ops, run, k, region);
    }
  }

  // ----- Reused scopes -----

  /** The k-th command changes no mesh by its contract, and is recorded on the scope. */
  ghost predicate HitByOther(plan: Plan, ctx: Evidence.Context, recorded: Effects, ops: seq<Operation>,
                             run: seq<Invocation>, k: nat, s: Scope)
    requires k < |run|
  {
    !plan.changesMesh(run[k].command) && Hits(ctx, recorded, ops, run, k, Name(s))
  }

  /** The k-th command changes meshes by its contract, and one of its outputs lies over the mesh
      of a scope it does not target. */
  ghost predicate WrittenOver(plan: Plan, ctx: Evidence.Context, recorded: Effects, ops: seq<Operation>,
                              run: seq<Invocation>, k: nat, s: Scope)
    requires k < |run|
  {
    var command, before := Token(run[k]), OpsAfterRun(ctx, recorded, ops, run[..k]);
    plan.changesMesh(command.name) && recorded(command) && Evidence.CanRecord(ctx, before, command) &&
    s !in Evidence.TargetScopes(ctx, command.arguments).value &&
    exists p :: p in RecordedNow(ctx, before, command).outputs && Overlap(Sink(Name(s)), p)
  }

  lemma NamesDistinct(plan: Plan, ctx: Evidence.Context, s: Scope, t: Scope)
    requires SamePlan(plan, ctx) && s in plan.scopes && t in plan.scopes && Name(s) == Name(t)
    ensures s == t
  {}

  /** A mesh command that stays inside the affected scopes hits another only by what it
      writes. */
  lemma MeshCommandHits(plan: Plan, ctx: Evidence.Context, recorded: Effects, ops: seq<Operation>,
                        run: seq<Invocation>, k: nat, affected: set<string>, s: Scope)
    requires SamePlan(plan, ctx) && k < |run| && s in plan.scopes && Key(s) !in affected
    requires StaysInside(plan, run[k], affected) && plan.changesMesh(run[k].command)
    ensures Hits(ctx, recorded, ops, run, k, Name(s)) <==> WrittenOver(plan, ctx, recorded, ops, run, k, s)
  {
    forall t | t in plan.scopes && Name(t) == Name(s) ensures t == s {
      NamesDistinct(plan, ctx, s, t);
    }
  }

  /** A scope that no mesh command targets is hit by commands of other effects, or by what a
      mesh command writes. */
  lemma HitsOfReused(plan: Plan, ctx: Evidence.Context, recorded: Effects, ops: seq<Operation>,
                     run: seq<Invocation>, affected: set<string>, s: Scope)
    requires SamePlan(plan, ctx) && s in plan.scopes && Key(s) !in affected
    requires forall c :: c in run ==> StaysInside(plan, c, affected)
    ensures Untouched(ctx, recorded, ops, run, Name(s)) <==>
            forall k: nat :: k < |run| ==>
              !HitByOther(plan, ctx, recorded, ops, run, k, s) && !WrittenOver(plan, ctx, recorded, ops, run, k, s)
  {
    forall k: nat | k < |run|
      ensures Hits(ctx, recorded, ops, run, k, Name(s)) <==>
              HitByOther(plan, ctx, recorded, ops, run, k, s) || WrittenOver(plan, ctx, recorded, ops, run, k, s)
    {
      assert run[k] in run;
      if plan.changesMesh(run[k].command) {
        MeshCommandHits(plan, ctx, recorded, ops, run, k, affected, s);
      }
    }
  }

  /** The run left what the mesh depended on after the commit as committed. */
  ghost predicate KeptAsCommitted(plan: Plan, ops: seq<Operation>, committed: Workspace, after: Workspace, s: Scope) {
    AgreeUnder(Dependencies(ops, committed, plan.includes, Name(s)), committed, after)
  }

  /** Main theorem: after the commit and the run of a compiled delta, a reused scope has the
      digest it had before exactly when no recorded command hits it and the run left the files
      its mesh depends on as committed. */
  lemma ReusedScopeSurvivesRun(plan: Plan, ctx: Evidence.Context, recorded: Effects, ops: seq<Operation>,
                               ws: Workspace, changed: CaseEdits.Files, drops: set<string>, commands: seq<Invocation>,
                               run: seq<Invocation>, after: Workspace, s: Scope)
    requires SamePlan(plan, ctx) && Chronological(ops)
    requires !Affected(plan, ops, ws, changed.Keys + drops, commands, s)
    ensures Digest(OpsAfterRun(ctx, recorded, ops, run), after, plan.includes, Name(s)) ==
            Digest(ops, ws, plan.includes, Name(s)) <==>
            Untouched(ctx, recorded, ops, run, Name(s)) &&
            KeptAsCommitted(plan, ops, CaseEdits.Committed(ws, changed, drops), after, s)
  {
    ReusedScopeKeepsDigest(plan, ops, ws, changed, drops, commands, s);
    RunKeepsDigest(ctx, recorded, ops, run, CaseEdits.Committed(ws, changed, drops), after, Name(s));
  }

  /** Main theorem: for the pipeline of a compiled delta, whose mesh commands target affected
      scopes only, the digest of a reused scope survives exactly when no recorded command that
      is not a mesh command hits it, no mesh command writes over its mesh, and the files its
      mesh depends on are left as committed. */
  lemma PipelineSparesReused(plan: Plan, ctx: Evidence.Context, recorded: Effects, ops: seq<Operation>,
                             ws: Workspace, changed: CaseEdits.Files, drops: set<string>, commands: seq<Invocation>,
                             run: seq<Invocation>, after: Workspace, s: Scope)
    requires SamePlan(plan, ctx) && Chronological(ops) && s in plan.scopes
    requires !Affected(plan, ops, ws, changed.Keys + drops, commands, s)
    requires forall c :: c in run ==>
      StaysInside(plan, c, AffectedKeys(plan, ops, ws, changed.Keys + drops, commands))
    ensures Digest(OpsAfterRun(ctx, recorded, ops, run), after, plan.includes, Name(s)) ==
            Digest(ops, ws, plan.includes, Name(s)) <==>
            (forall k: nat :: k < |run| ==>
               !HitByOther(plan, ctx, recorded, ops, run, k, s) &&
               !WrittenOver(plan, ctx, recorded, ops, run, k, s)) &&
            KeptAsCommitted(plan, ops, CaseEdits.Committed(ws, changed, drops), after, s)
  {
    ReusedScopeSurvivesRun(plan, ctx, recorded, ops, ws, changed, drops, commands, run, after, s);
    ReusedKey(plan, ops, ws, changed.Keys + drops, commands, s);
    HitsOfReused(plan, ctx, recorded, ops, run, AffectedKeys(plan, ops, ws, changed.Keys + drops, commands), s);
  }

  lemma ReusedKey(plan: Plan, ops: seq<Operation>, ws: Workspace, changed: set<string>, commands: seq<Invocation>,
                  s: Scope)
    requires s in plan.scopes && !Affected(plan, ops, ws, changed, commands, s)
    ensures Key(s) !in AffectedKeys(plan, ops, ws, changed, commands)
  {
    forall t | t in plan.scopes && Key(t) == Key(s) ensures !Affected(plan, ops, ws, changed, commands, t) {
      KeysDistinct(s, t);
    }
  }

  /** A recorded command without a region selector hits every scope. */
  lemma UnscopedCommandHitsAll(ctx: Evidence.Context, recorded: Effects, ops: seq<Operation>, run: seq<Invocation>,
                               k: nat, s: Scope)
    requires k < |run| && s in ctx.scopes && recorded(Token(run[k]))
    requires CommandRegion(run[k].arguments, ctx.nameOk) == Ok(None)
    requires Evidence.CanRecord(ctx, OpsAfterRun(ctx, recorded, ops, run[..k]), Token(run[k]))
    ensures Hits(ctx, recorded, ops, run, k, Name(s))
  {
    var before := OpsAfterRun(ctx, recorded, ops, run[..k]);
    assert s in Evidence.TargetScopes(ctx, run[k].arguments).value;
    assert Name(s) in RecordedNow(ctx, before, Token(run[k])).regions;
  }

  // ----- Evidence -----

  /** Main theorem: the evidence of a reused scope, good before the delta, is good after its
      run exactly when no recorded command hits the scope and the run left the files its mesh
      depends on as committed. */
  lemma ReusedEvidenceSurvivesRun(plan: Plan, ctx: Evidence.Context, recorded: Effects, w: Evidence.World,
                                  changed: CaseEdits.Files, drops: set<string>, commands: seq<Invocation>,
                                  run: seq<Invocation>, after: Workspace, s: Scope)
    requires SamePlan(plan, ctx) && Chronological(w.ops) && s in plan.scopes && Evidence.Good(ctx, w, s)
    requires !Affected(plan, w.ops, w.ws, changed.Keys + drops, commands, s)
    ensures var ran := w.(ops := OpsAfterRun(ctx, recorded, w.ops, run), ws := after);
      Evidence.Good(ctx, ran, s) <==>
      Untouched(ctx, recorded, w.ops, run, Name(s)) &&
      KeptAsCommitted(plan, w.ops, CaseEdits.Committed(w.ws, changed, drops), after, s)
  {
    var committed := CaseEdits.Committed(w.ws, changed, drops);
    ReusedScopeKeepsDigest(plan, w.ops, w.ws, changed, drops, commands, s);
    RunKeepsDigest(ctx, recorded, w.ops, run, committed, after, Name(s));
    if Untouched(ctx, recorded, w.ops, run, Name(s)) && KeptAsCommitted(plan, w.ops, committed, after, s) {
      UntouchedAncestry(ctx, recorded, w.ops, run, Name(s));
      StaysComputable(committed, after, plan.includes, Roots(Ancestry(w.ops, Name(s), |w.ops|), Name(s)));
    }
  }

  /** Files that agree on what is covered can all be followed when one of them can. */
  lemma StaysComputable(a: Workspace, b: Workspace, includes: IncludeReader, roots: set<string>)
    requires AgreeUnder(DependencyPaths(a, includes, roots), a, b) && IncludesStayInside(a, includes, roots)
    ensures IncludesStayInside(b, includes, roots)
  {
    SameClosure(a, b, includes, roots);
    ClosureCovered(a, includes, roots);
    forall x | x in Closure(a, includes, roots) && x in b ensures x in a && a[x] == b[x] {
      assert Get(a, x) == Get(b, x);
    }
  }

  // ----- A delta that reuses every scope and makes them stale -----

  lemma KeepOne(c: Invocation, keep: Invocation -> bool)
    ensures Keep([c], keep) == if keep(c) then [c] else []
  {
    assert [c][..0] == [];
    assert Keep([], keep) == [];
  }

  lemma DedupeOne(c: Invocation)
    ensures Dedupe([c]) == [c]
  {
    assert [c][..0] == [];
    assert Dedupe([]) == [];
  }

  /** A hint that may run on a case and is no mesh command, no validator and the trigger of
      nothing. */
  ghost predicate LoneHint(plan: Plan, ops: seq<Operation>, files: CaseEdits.Files, hint: Invocation) {
    && (forall p :: p in plan.required ==> p in files) && plan.candidates(files.Keys) == []
    && Runnable(plan, files.Keys, hint) && !plan.changesMesh(hint.command) && !plan.finalizer(hint.command)
    && Consumers.Bind(plan.setting, Token(hint)).Ok? && CommandRegion(hint.arguments, plan.setting.nameOk).Ok?
    && forall s :: s in plan.scopes ==> Computable(plan, ops, files, s)
  }

  lemma LoneHintRuns(plan: Plan, ops: seq<Operation>, files: CaseEdits.Files, hint: Invocation)
    requires LoneHint(plan, ops, files, hint)
    ensures RunnableHints(plan, files.Keys, [hint]) == [hint] && ConsumersBind(plan, files.Keys, [hint])
    ensures ConsumersOf(plan, [hint]) == [hint] && Finalizers(plan, [hint]) == []
  {
    DedupeOne(hint);
    KeepOne(hint, (c: Invocation) => Runnable(plan, files.Keys, c));
    KeepOne(hint, (c: Invocation) => Consumes(plan, c));
    KeepOne(hint, (c: Invocation) => !Consumes(plan, c));
    assert Tokens([hint]) == [Token(hint)];
  }

  lemma LoneHintCollected(plan: Plan, effective: set<string>, changed: set<string>, hint: Invocation,
                          selected: seq<Consumers.Candidate>, commands: seq<Invocation>)
    requires plan.candidates(effective) == []
    requires Collected(plan, effective, changed, [hint], selected, commands)
    ensures commands == [hint]
  {
    assert Consumers.Inferred(plan.setting, [], Tokens([hint])) == [];
    assert selected == [];
    assert AsMesh(Consumers.Commands(selected)) == [] && [hint] + [] == [hint];
    DedupeOne(hint);
  }

  lemma LoneHintAffectsNothing(plan: Plan, ops: seq<Operation>, files: CaseEdits.Files, hint: Invocation)
    requires LoneHint(plan, ops, files, hint)
    ensures ScopesBind(plan, ops, files, [hint]) && AffectedKeys(plan, ops, files, {}, [hint]) == {}
  {}

  /** Without edits nothing is changed or dropped. */
  lemma NoEdits(required: seq<string>, files: CaseEdits.Files, e: CaseEdits.Edits)
    requires forall p :: p in required ==> p in files
    requires e.drops == [] && e.effective == CaseEdits.Committed(files, e.changed, set p | p in e.drops)
    requires CaseEdits.Consistent(files, [], [], (set p | p in e.drops), required) ==>
      CaseEdits.ChangesExplained(files, [], [], e.changed)
    ensures (set p | p in e.drops) == {} && CaseEdits.Consistent(files, [], [], (set p | p in e.drops), required)
    ensures e.changed == map[] && e.changed.Keys + (set p | p in e.drops) == {} && e.effective == files
  {
    assert (set p | p in e.drops) == {};
  }

  /** Without edits such a hint is accepted: every scope is reused and nothing is validated. */
  method CompileLoneHint(plan: Plan, graph: MeshDependencyGraph, files: CaseEdits.Files, hint: Invocation,
                         inspect: (CaseEdits.Files, seq<string>) -> seq<string>) returns (d: Delta)
    requires WellFormed(plan) && graph.Valid() && LoneHint(plan, graph.operations, files, hint)
    requires inspect(map[], []) == []
    ensures d.failures == [] && d.order == [hint] && d.finalizers == []
    ensures d.affected == {} && d.reused == AllKeys(plan)
  {
    ghost var commands, selected;
    d, commands, selected := CompileDelta(plan, graph, files, files, [], [], [], inspect, [hint], []);
    NoEdits(plan.required, files, d.edits);
    LoneHintRuns(plan, graph.operations, files, hint);
    LoneHintCollected(plan, files.Keys, {}, hint, selected, commands);
    LoneHintAffectsNothing(plan, graph.operations, files, hint);
  }

  /** When the hint is recorded and selects no region, running it changes the digest of every
      scope, all of which were reused. */
  lemma LoneHintChangesDigests(plan: Plan, ctx: Evidence.Context, recorded: Effects, ops: seq<Operation>,
                               ws: Workspace, hint: Invocation, s: Scope)
    requires SamePlan(plan, ctx) && Chronological(ops) && s in plan.scopes
    requires recorded(Token(hint)) && Evidence.CanRecord(ctx, ops, Token(hint))
    requires CommandRegion(hint.arguments, ctx.nameOk) == Ok(None)
    ensures Digest(OpsAfterRun(ctx, recorded, ops, [hint]), ws, plan.includes, Name(s)) !=
            Digest(ops, ws, plan.includes, Name(s))
  {
    assert [hint][..0] == [] && OpsAfterRun(ctx, recorded, ops, []) == ops;
    UnscopedCommandHitsAll(ctx, recorded, ops, [hint], 0, s);
    RunKeepsDigest(ctx, recorded, ops, [hint], ws, ws, Name(s));
  }

  const FIELDS_DICTIONARY := "system/setFieldsDict"

  const SET_FIELDS := Order.Invocation("setFields", [], "initialization")

  /** One root scope, one initializing tool and the mesh check. */
  function InitializingPlan(): Plan {
    Plan([Root], [],
         Consumers.Setting([Root], (name: string) => false, (c: Consumers.Candidate) => {},
                           (c: Consumers.Candidate) => {}, (name: string) => name != ""),
         (path: string, text: string) => Some({}), (effective: set<string>) => [],
         (name: string) => name == "blockMesh", (name: string) => true,
         (c: Command) => if c.name == "setFields" then Some(FIELDS_DICTIONARY) else None,
         (name: string) => name == "checkMesh",
         (s: Scope) => [Order.Invocation("checkMesh", [], "mesh_validation")],
         (c: Invocation) => Order.Labels.Bound({}, {}))
  }

  function InitializingContext(): Evidence.Context {
    Evidence.Context([Root], (name: string) => Evidence.Tool({}, {}), (t: string, s: Scope) => t,
                     InitializingPlan().includes, InitializingPlan().setting.nameOk, (path: string) => true, 0)
  }

  /** The setFields tool is such a hint and is recorded: the delta that runs it is accepted
      and reuses the root scope, whose digest changes when it is run. */
  lemma SetFieldsMakesReusedScopeStale(files: CaseEdits.Files)
    requires FIELDS_DICTIONARY in files
    ensures WellFormed(InitializingPlan()) && LoneHint(InitializingPlan(), [], files, SET_FIELDS)
    ensures var ctx, recorded := InitializingContext(), (c: Command) => c.name in {"setFields", "blockMesh"};
      Digest(OpsAfterRun(ctx, recorded, [], [SET_FIELDS]), files, ctx.includes, Name(Root)) !=
      Digest([], files, ctx.includes, Name(Root))
  {
    LoneHintChangesDigests(InitializingPlan(), InitializingContext(),
                           (c: Command) => c.name in {"setFields", "blockMesh"}, [], files, SET_FIELDS, Root);
  }
}
