/** A delta from its compilation to the test that decides whether the case may be solved: the
    commit, the pipeline with the invalidations it causes, the validation of the affected scopes
    and the failures that are left.

    The main theorem says exactly when none is left. */
module DeltaValidation {
  import opened Wrappers
  import opened ExecutionScopes
  import opened MeshDependencies
  import opened CaseDelta
  import opened DeltaExecution
  import CaseEdits
  import Consumers = DeltaConsumers
  import Evidence = MeshEvidence

  /** A command of the pipeline and the files it leaves. */
  datatype Ran = Ran(command: Invocation, files: Workspace)

  /** A validation command and the check it recorded, if it was conclusive. */
  datatype Validated = Validated(command: Invocation, check: Option<Evidence.MeshCheck>)

  function Commands(run: seq<Ran>): seq<Invocation> {
    seq(|run|, i requires 0 <= i < |run| => run[i].command)
  }

  function Validations(checks: seq<Validated>): seq<Invocation> {
    seq(|checks|, i requires 0 <= i < |checks| => checks[i].command)
  }

  function FilesAfter(committed: Workspace, run: seq<Ran>): Workspace {
    if run == [] then committed else run[|run| - 1].files
  }

  // ----- Steps -----

  /** Running a command: one that is recorded is followed by an invalidation. */
  ghost function AfterCommand(ctx: Evidence.Context, recorded: Effects, w: Evidence.World, r: Ran): Evidence.World {
    if recorded(Token(r.command)) then
      Evidence.Step(ctx, Evidence.Step(ctx, w, Evidence.Native(Token(r.command), r.files)), Evidence.Invalidate)
    else Evidence.Step(ctx, w, Evidence.Edit(r.files))
  }

  /** Committing the edits, invalidating, and running the commands. */
  ghost function AfterRun(ctx: Evidence.Context, recorded: Effects, w: Evidence.World, committed: Workspace,
                          run: seq<Ran>): Evidence.World
  {
    if run == [] then Evidence.Step(ctx, Evidence.Step(ctx, w, Evidence.Edit(committed)), Evidence.Invalidate)
    else AfterCommand(ctx, recorded, AfterRun(ctx, recorded, w, committed, run[..|run| - 1]), run[|run| - 1])
  }

  /** Recording the checks of the validation commands. */
  ghost function AfterChecks(ctx: Evidence.Context, w: Evidence.World, checks: seq<Validated>): Evidence.World {
    if checks == [] then w
    else
      var last, before := checks[|checks| - 1], AfterChecks(ctx, w, checks[..|checks| - 1]);
      if last.check.Some? then Evidence.Step(ctx, before, Evidence.Check(last.command.arguments, last.check.value))
      else before
  }

  /** No digest that an invalidation computes fails, so the pipeline is carried to its end. */
  ghost predicate Completes(ctx: Evidence.Context, recorded: Effects, w: Evidence.World, committed: Workspace,
                            run: seq<Ran>)
  {
    if run == [] then Evidence.CanInvalidate(ctx, w.(ws := committed))
    else
      var last, rest := run[|run| - 1], run[..|run| - 1];
      && Completes(ctx, recorded, w, committed, rest)
      && (recorded(Token(last.command)) ==>
            Evidence.CanInvalidate(ctx, Evidence.Step(ctx, AfterRun(ctx, recorded, w, committed, rest),
                                                      Evidence.Native(Token(last.command), last.files))))
  }

  lemma {:induction false} RunState(ctx: Evidence.Context, recorded: Effects, w: Evidence.World, committed: Workspace,
                                    run: seq<Ran>)
    ensures AfterRun(ctx, recorded, w, committed, run).ops == OpsAfterRun(ctx, recorded, w.ops, Commands(run))
    ensures AfterRun(ctx, recorded, w, committed, run).ws == FilesAfter(committed, run)
  {
    if run != [] {
      var n := |run| - 1;
      RunState(ctx, recorded, w, committed, run[..n]);
      LastCommand(run);
      CommandState(ctx, recorded, AfterRun(ctx, recorded, w, committed, run[..n]), run[n]);
    }
  }

  lemma LastCommand(run: seq<Ran>)
    requires run != []
    ensures var n := |run| - 1;
      |Commands(run)| == |run| && Commands(run)[n] == run[n].command && Commands(run)[..n] == Commands(run[..n])
  {}

  lemma CommandState(ctx: Evidence.Context, recorded: Effects, w: Evidence.World, r: Ran)
    ensures AfterCommand(ctx, recorded, w, r).ws == r.files
    ensures AfterCommand(ctx, recorded, w, r).ops ==
      if recorded(Token(r.command)) then Evidence.OpsAfter(ctx, w.ops, Token(r.command)) else w.ops
  {}

  // ----- Stored evidence -----

  /** Acceptable evidence of the scope is stored with this digest. */
  ghost predicate Stored(ctx: Evidence.Context, w: Evidence.World, s: Scope, d: MeshDigest) {
    && Key(s) in w.evidence && w.evidence[Key(s)].passed && Evidence.FitsPolicy(ctx, w.evidence[Key(s)])
    && Key(s) in w.manifest && w.manifest[Key(s)] == d
  }

  ghost function DigestIn(ctx: Evidence.Context, w: Evidence.World, s: Scope): Option<MeshDigest> {
    Evidence.DigestNow(ctx, w.ops, w.ws, s)
  }

  lemma GoodIsStored(ctx: Evidence.Context, w: Evidence.World, s: Scope)
    ensures Evidence.Good(ctx, w, s) <==>
      DigestIn(ctx, w, s).Some? && Stored(ctx, w, s, DigestIn(ctx, w, s).value)
  {}

  /** An invalidation keeps evidence exactly when its digest is the current one. */
  lemma StoredAfterInvalidation(ctx: Evidence.Context, w: Evidence.World, s: Scope, d: MeshDigest)
    requires s in ctx.scopes && Evidence.CanInvalidate(ctx, w)
    ensures Stored(ctx, Evidence.Invalidated(ctx, w), s, d) <==>
      Stored(ctx, w, s, d) && DigestIn(ctx, w, s) == Some(d)
  {
    if Key(s) in w.manifest {
      forall t | t in ctx.scopes && Key(t) == Key(s) ensures t == s { KeysDistinct(s, t); }
      assert Evidence.CurrentKey(ctx, w, Key(s)) <==> DigestIn(ctx, w, s) == Some(w.manifest[Key(s)]);
    }
  }

  /** The digest of the scope after the first k commands. */
  ghost function DigestAfter(ctx: Evidence.Context, recorded: Effects, w: Evidence.World, committed: Workspace,
                             run: seq<Ran>, k: nat, s: Scope): Option<MeshDigest>
    requires k <= |run|
  {
    Evidence.DigestNow(ctx, OpsAfterRun(ctx, recorded, w.ops, Commands(run[..k])), FilesAfter(committed, run[..k]), s)
  }

  /** Evidence is invalidated after the commit and after each recorded command. */
  predicate Invalidates(recorded: Effects, run: seq<Ran>, k: nat)
    requires k <= |run|
  {
    k == 0 || recorded(Token(run[k - 1].command))
  }

  ghost predicate SteadyAt(ctx: Evidence.Context, recorded: Effects, w: Evidence.World, committed: Workspace,
                           run: seq<Ran>, k: nat, s: Scope, d: MeshDigest)
    requires k <= |run|
  {
    Invalidates(recorded, run, k) ==> DigestAfter(ctx, recorded, w, committed, run, k, s) == Some(d)
  }

  ghost predicate Steady(ctx: Evidence.Context, recorded: Effects, w: Evidence.World, committed: Workspace,
                         run: seq<Ran>, s: Scope, d: MeshDigest)
  {
    forall k: nat :: k <= |run| ==> SteadyAt(ctx, recorded, w, committed, run, k, s, d)
  }

  lemma SteadyStep(ctx: Evidence.Context, recorded: Effects, w: Evidence.World, committed: Workspace, run: seq<Ran>,
                   s: Scope, d: MeshDigest)
    requires run != []
    ensures Steady(ctx, recorded, w, committed, run, s, d) <==>
      Steady(ctx, recorded, w, committed, run[..|run| - 1], s, d) &&
      SteadyAt(ctx, recorded, w, committed, run, |run|, s, d)
  {
    var n := |run| - 1;
    var rest := run[..n];
    if Steady(ctx, recorded, w, committed, run, s, d) {
      forall k: nat | k <= n ensures SteadyAt(ctx, recorded, w, committed, rest, k, s, d) {
        assert SteadyAt(ctx, recorded, w, committed, run, k, s, d);
        SteadyAtPrefix(ctx, recorded, w, committed, run, n, k, s, d);
      }
      assert SteadyAt(ctx, recorded, w, committed, run, n + 1, s, d);
    }
    if Steady(ctx, recorded, w, committed, rest, s, d) && SteadyAt(ctx, recorded, w, committed, run, n + 1, s, d) {
      forall k: nat | k <= n + 1 ensures SteadyAt(ctx, recorded, w, committed, run, k, s, d) {
        if k <= n {
          assert SteadyAt(ctx, recorded, w, committed, rest, k, s, d);
          SteadyAtPrefix(ctx, recorded, w, committed, run, n, k, s, d);
        }
      }
    }
  }

  lemma SteadyAtPrefix(ctx: Evidence.Context, recorded: Effects, w: Evidence.World, committed: Workspace,
                       run: seq<Ran>, n: nat, k: nat, s: Scope, d: MeshDigest)
    requires k <= n <= |run|
    ensures SteadyAt(ctx, recorded, w, committed, run, k, s, d) <==>
      SteadyAt(ctx, recorded, w, committed, run[..n], k, s, d)
  {
    assert run[..n][..k] == run[..k];
  }

  /** Through the commit and the run, evidence is kept exactly when its digest was current at
      every invalidation. */
  lemma {:induction false} StoredAfterRun(ctx: Evidence.Context, recorded: Effects, w: Evidence.World,
                                          committed: Workspace, run: seq<Ran>, s: Scope, d: MeshDigest)
    requires s in ctx.scopes && Completes(ctx, recorded, w, committed, run)
    ensures Stored(ctx, AfterRun(ctx, recorded, w, committed, run), s, d) <==>
      Stored(ctx, w, s, d) && Steady(ctx, recorded, w, committed, run, s, d)
  {
    if run == [] {
      StoredAfterInvalidation(ctx, w.(ws := committed), s, d);
      assert run[..0] == [] && Commands([]) == [];
      assert Steady(ctx, recorded, w, committed, run, s, d) <==> SteadyAt(ctx, recorded, w, committed, run, 0, s, d);
    } else {
      var n := |run| - 1;
      StoredAfterRun(ctx, recorded, w, committed, run[..n], s, d);
      SteadyStep(ctx, recorded, w, committed, run, s, d);
      StoredAfterCommand(ctx, recorded, w, committed, run, s, d);
    }
  }

  lemma StoredAfterCommand(ctx: Evidence.Context, recorded: Effects, w: Evidence.World, committed: Workspace,
                           run: seq<Ran>, s: Scope, d: MeshDigest)
    requires s in ctx.scopes && run != [] && Completes(ctx, recorded, w, committed, run)
    ensures Stored(ctx, AfterRun(ctx, recorded, w, committed, run), s, d) <==>
      Stored(ctx, AfterRun(ctx, recorded, w, committed, run[..|run| - 1]), s, d) &&
      SteadyAt(ctx, recorded, w, committed, run, |run|, s, d)
  {
    var n := |run| - 1;
    assert run[..|run|] == run;
    RunState(ctx, recorded, w, committed, run);
    var before := AfterRun(ctx, recorded, w, committed, run[..n]);
    if recorded(Token(run[n].command)) {
      var native := Evidence.Native(Token(run[n].command), run[n].files);
      StoredAfterInvalidation(ctx, Evidence.Step(ctx, before, native), s, d);
    }
  }

  // ----- Reused scopes -----

  /** The run records nothing on the scope, and the files its mesh depends on are as committed at
      every invalidation and at the end. */
  ghost predicate Spared(plan: Plan, ctx: Evidence.Context, recorded: Effects, w: Evidence.World, committed: Workspace,
                         run: seq<Ran>, s: Scope)
  {
    && Untouched(ctx, recorded, w.ops, Commands(run), Name(s))
    && forall k: nat :: k <= |run| && (Invalidates(recorded, run, k) || k == |run|) ==>
      KeptAsCommitted(plan, w.ops, committed, FilesAfter(committed, run[..k]), s)
  }

  lemma UntouchedPrefix(ctx: Evidence.Context, recorded: Effects, ops: seq<Operation>, run: seq<Invocation>, k: nat,
                        region: string)
    requires k <= |run| && Untouched(ctx, recorded, ops, run, region)
    ensures Untouched(ctx, recorded, ops, run[..k], region)
  {
    forall j: nat | j < k ensures !Hits(ctx, recorded, ops, run[..k], j, region) {
      assert run[..k][..j] == run[..j];
      assert !Hits(ctx, recorded, ops, run, j, region);
    }
  }

  /** After k commands the digest is the committed one exactly when those spared the scope. */
  lemma SameDigest(plan: Plan, ctx: Evidence.Context, recorded: Effects, w: Evidence.World, committed: Workspace,
                   run: seq<Ran>, k: nat, s: Scope)
    requires SamePlan(plan, ctx) && Chronological(w.ops) && k <= |run|
    requires Evidence.DigestNow(ctx, w.ops, committed, s).Some?
    ensures DigestAfter(ctx, recorded, w, committed, run, k, s) == Evidence.DigestNow(ctx, w.ops, committed, s) <==>
      Untouched(ctx, recorded, w.ops, Commands(run[..k]), Name(s)) &&
      KeptAsCommitted(plan, w.ops, committed, FilesAfter(committed, run[..k]), s)
  {
    var cs, files := Commands(run[..k]), FilesAfter(committed, run[..k]);
    RunKeepsDigest(ctx, recorded, w.ops, cs, committed, files, Name(s));
    if Untouched(ctx, recorded, w.ops, cs, Name(s)) && KeptAsCommitted(plan, w.ops, committed, files, s) {
      UntouchedAncestry(ctx, recorded, w.ops, cs, Name(s));
      StaysComputable(committed, files, plan.includes, Roots(Ancestry(w.ops, Name(s), |w.ops|), Name(s)));
    }
  }

  lemma SparedIsSteady(plan: Plan, ctx: Evidence.Context, recorded: Effects, w: Evidence.World, committed: Workspace,
                       run: seq<Ran>, s: Scope, d: MeshDigest)
    requires SamePlan(plan, ctx) && Chronological(w.ops)
    requires Evidence.DigestNow(ctx, w.ops, committed, s) == Some(d)
    ensures Spared(plan, ctx, recorded, w, committed, run, s) <==>
      Steady(ctx, recorded, w, committed, run, s, d) &&
      DigestAfter(ctx, recorded, w, committed, run, |run|, s) == Some(d)
  {
    assert run[..|run|] == run;
    SameDigest(plan, ctx, recorded, w, committed, run, |run|, s);
    forall k: nat | k <= |run| && Untouched(ctx, recorded, w.ops, Commands(run), Name(s))
      ensures DigestAfter(ctx, recorded, w, committed, run, k, s) == Some(d) <==>
              KeptAsCommitted(plan, w.ops, committed, FilesAfter(committed, run[..k]), s)
    {
      UntouchedPrefix(ctx, recorded, w.ops, Commands(run), k, Name(s));
      assert Commands(run)[..k] == Commands(run[..k]);
      SameDigest(plan, ctx, recorded, w, committed, run, k, s);
    }
    if Steady(ctx, recorded, w, committed, run, s, d) {
      forall k: nat | k <= |run| && Invalidates(recorded, run, k)
        ensures DigestAfter(ctx, recorded, w, committed, run, k, s) == Some(d)
      {
        assert SteadyAt(ctx, recorded, w, committed, run, k, s, d);
      }
    }
  }

  /** The stored evidence is current at the end and was so at every invalidation. */
  ghost predicate Lasting(ctx: Evidence.Context, recorded: Effects, w: Evidence.World, committed: Workspace,
                          run: seq<Ran>, s: Scope)
  {
    var last := DigestAfter(ctx, recorded, w, committed, run, |run|, s);
    last.Some? && Stored(ctx, w, s, last.value) && Steady(ctx, recorded, w, committed, run, s, last.value)
  }

  lemma GoodAfterRun(ctx: Evidence.Context, recorded: Effects, w: Evidence.World, committed: Workspace,
                     run: seq<Ran>, s: Scope)
    requires s in ctx.scopes && Completes(ctx, recorded, w, committed, run)
    ensures Evidence.Good(ctx, AfterRun(ctx, recorded, w, committed, run), s) <==>
      Lasting(ctx, recorded, w, committed, run, s)
    ensures DigestIn(ctx, AfterRun(ctx, recorded, w, committed, run), s) ==
      DigestAfter(ctx, recorded, w, committed, run, |run|, s)
  {
    var after := AfterRun(ctx, recorded, w, committed, run);
    RunState(ctx, recorded, w, committed, run);
    assert run[..|run|] == run;
    GoodIsStored(ctx, after, s);
    if DigestIn(ctx, after, s).Some? {
      StoredAfterRun(ctx, recorded, w, committed, run, s, DigestIn(ctx, after, s).value);
    }
  }

  /** The evidence of a reused scope lasts exactly when it was good before and the run spared
      the scope. */
  lemma ReusedLasts(plan: Plan, ctx: Evidence.Context, recorded: Effects, w: Evidence.World,
                    changed: CaseEdits.Files, drops: set<string>, commands: seq<Invocation>, run: seq<Ran>, s: Scope)
    requires SamePlan(plan, ctx) && Chronological(w.ops) && Computable(plan, w.ops, w.ws, s)
    requires !Affected(plan, w.ops, w.ws, changed.Keys + drops, commands, s)
    ensures var committed := CaseEdits.Committed(w.ws, changed, drops);
      Lasting(ctx, recorded, w, committed, run, s) <==>
      Evidence.Good(ctx, w, s) && Spared(plan, ctx, recorded, w, committed, run, s)
  {
    var committed := CaseEdits.Committed(w.ws, changed, drops);
    ReusedScopeKeepsDigest(plan, w.ops, w.ws, changed, drops, commands, s);
    var d := Evidence.DigestNow(ctx, w.ops, committed, s).value;
    GoodIsStored(ctx, w, s);
    SparedIsSteady(plan, ctx, recorded, w, committed, run, s, d);
    assert run[..0] == [] && Commands([]) == [];
    assert DigestAfter(ctx, recorded, w, committed, run, 0, s) == Some(d);
    if Lasting(ctx, recorded, w, committed, run, s) {
      var last := DigestAfter(ctx, recorded, w, committed, run, |run|, s).value;
      assert SteadyAt(ctx, recorded, w, committed, run, 0, s, last);
    }
  }

  // ----- Validated scopes -----

  predicate ChecksScope(ctx: Evidence.Context, v: Validated, s: Scope) {
    v.check.Some? && BoundScope(ctx.scopes, v.command.arguments, ctx.nameOk) == Ok(s)
  }

  /** The last check recorded for the scope. */
  function LastCheck(ctx: Evidence.Context, checks: seq<Validated>, s: Scope): Option<Evidence.MeshCheck> {
    if checks == [] then None
    else if ChecksScope(ctx, checks[|checks| - 1], s) then checks[|checks| - 1].check
    else LastCheck(ctx, checks[..|checks| - 1], s)
  }

  /** The scope's last check passed within the cell limit. */
  predicate Passes(ctx: Evidence.Context, checks: seq<Validated>, s: Scope) {
    var last := LastCheck(ctx, checks, s);
    last.Some? && last.value.passed && Evidence.FitsPolicy(ctx, last.value)
  }

  lemma {:induction false} ChecksKeepFiles(ctx: Evidence.Context, w: Evidence.World, checks: seq<Validated>)
    ensures AfterChecks(ctx, w, checks).ops == w.ops && AfterChecks(ctx, w, checks).ws == w.ws
  {
    if checks != [] {
      ChecksKeepFiles(ctx, w, checks[..|checks| - 1]);
    }
  }

  /** What recording one check does to a scope. */
  lemma OneCheck(ctx: Evidence.Context, w: Evidence.World, v: Validated, s: Scope)
    requires v.check.Some?
    ensures var after := Evidence.Step(ctx, w, Evidence.Check(v.command.arguments, v.check.value));
      Evidence.Good(ctx, after, s) <==>
      if ChecksScope(ctx, v, s) then
        v.check.value.passed && Evidence.FitsPolicy(ctx, v.check.value) && DigestIn(ctx, w, s).Some?
      else Evidence.Good(ctx, w, s)
  {
    var bound := BoundScope(ctx.scopes, v.command.arguments, ctx.nameOk);
    if bound.Ok? {
      KeysDistinct(s, bound.value);
    }
  }

  /** After the checks a scope is good exactly when its last check passed and its digest can be
      computed; one without a check is as it was. */
  lemma {:induction false} GoodAfterChecks(ctx: Evidence.Context, w: Evidence.World, checks: seq<Validated>, s: Scope)
    ensures Evidence.Good(ctx, AfterChecks(ctx, w, checks), s) <==>
      if LastCheck(ctx, checks, s).Some? then Passes(ctx, checks, s) && DigestIn(ctx, w, s).Some?
      else Evidence.Good(ctx, w, s)
  {
    if checks != [] {
      var rest, last := checks[..|checks| - 1], checks[|checks| - 1];
      GoodAfterChecks(ctx, w, rest, s);
      ChecksKeepFiles(ctx, w, rest);
      if last.check.Some? {
        OneCheck(ctx, AfterChecks(ctx, w, rest), last, s);
      }
    }
  }

  /** The validation commands of a scope are bound to it. */
  ghost predicate ValidatesOwn(plan: Plan, ctx: Evidence.Context) {
    forall s, c :: s in plan.scopes && c in plan.validation(s) ==>
      BoundScope(ctx.scopes, c.arguments, ctx.nameOk) == Ok(s)
  }

  /** Validating some scopes records no check of another. */
  lemma {:induction false} OthersUnchecked(plan: Plan, ctx: Evidence.Context, checks: seq<Validated>,
                                           keys: set<string>, s: Scope)
    requires ValidatesOwn(plan, ctx) && Key(s) !in keys
    requires forall c :: c in Validations(checks) ==> c in Validation(plan, plan.scopes, keys)
    ensures LastCheck(ctx, checks, s) == None
  {
    if checks != [] {
      var n := |checks| - 1;
      var last := checks[n].command;
      assert Validations(checks)[n] == last;
      assert Validations(checks)[..n] == Validations(checks[..n]);
      OthersUnchecked(plan, ctx, checks[..n], keys, s);
      ValidationCovers(plan, plan.scopes, keys, last);
      var t :| t in plan.scopes && Key(t) in keys && last in plan.validation(t);
    }
  }

  // ----- The whole delta -----

  /** The case after committing a delta. */
  function CommittedBy(ws: Workspace, d: Delta): Workspace {
    CaseEdits.Committed(ws, d.edits.changed, Dropped(d))
  }

  /** Validators come only from the controller: hints for them do not run and no inferred
      command is one. */
  ghost predicate OnlyControllerValidates(plan: Plan) {
    && (forall name :: plan.finalizer(name) ==> name in {"foamDictionary", "surfaceCheck", "checkMesh"})
    && forall effective, c :: c in plan.candidates(effective) ==> !plan.finalizer(c.command.name)
  }

  /** Then the collected commands hold no finalizer. */
  lemma NoFinalizerCollected(plan: Plan, effective: set<string>, changed: set<string>, hints: seq<Invocation>,
                             commands: seq<Invocation>, selected: seq<Consumers.Candidate>)
    requires OnlyControllerValidates(plan)
    requires Collected(plan, effective, changed, RunnableHints(plan, effective, hints), selected, commands)
    ensures Finalizers(plan, commands) == []
  {
    var kept := RunnableHints(plan, effective, hints);
    var found := AsMesh(Consumers.Commands(selected));
    forall c | c in commands ensures Consumes(plan, c) {
      DedupeSubset(kept + found, c);
      if c in kept {
        KeepExact(Dedupe(hints), (h: Invocation) => Runnable(plan, effective, h), c);
      } else {
        var k :| 0 <= k < |found| && found[k] == c;
        SelectedIsCandidate(plan, effective, changed, kept, selected, k);
      }
    }
    KeepNone(commands, (c: Invocation) => !Consumes(plan, c));
  }

  lemma SelectedIsCandidate(plan: Plan, effective: set<string>, changed: set<string>, kept: seq<Invocation>,
                            selected: seq<Consumers.Candidate>, k: nat)
    requires k < |selected|
    requires Collected(plan, effective, changed, kept, selected,
                       Dedupe(kept + AsMesh(Consumers.Commands(selected))))
    ensures selected[k] in plan.candidates(effective)
  {
    Consumers.ChainMembers(plan.setting, Consumers.Inferred(plan.setting, plan.candidates(effective), Tokens(kept)),
                           (set c | c in Tokens(kept)),
                           changed + Consumers.ExplicitOutputs(plan.setting, Tokens(kept)), selected);
    assert selected[k] in selected;
  }

  lemma {:induction false} NothingValidated(plan: Plan, scopes: seq<Scope>)
    ensures Validation(plan, scopes, {}) == []
  {
    if scopes != [] {
      NothingValidated(plan, scopes[..|scopes| - 1]);
    }
  }

  /** What a scope needs to have no failure after the run and the checks: a passing last check
      and a digest that can be computed, or without a check evidence that lasts. */
  ghost predicate Settled(ctx: Evidence.Context, recorded: Effects, w: Evidence.World, committed: Workspace,
                          run: seq<Ran>, checks: seq<Validated>, s: Scope)
  {
    if LastCheck(ctx, checks, s).Some? then
      Passes(ctx, checks, s) && DigestAfter(ctx, recorded, w, committed, run, |run|, s).Some?
    else Lasting(ctx, recorded, w, committed, run, s)
  }

  /** The failures left after a commit, a run and checks. */
  ghost function FailuresLeft(ctx: Evidence.Context, recorded: Effects, w: Evidence.World, committed: Workspace,
                              run: seq<Ran>, checks: seq<Validated>): Option<seq<Evidence.Failure>>
  {
    Evidence.FailuresFrom(ctx, AfterChecks(ctx, AfterRun(ctx, recorded, w, committed, run), checks), 0)
  }

  /** For any commit, run and checks, none is left exactly when every scope is settled. */
  lemma NoFailuresLeft(ctx: Evidence.Context, recorded: Effects, w: Evidence.World, committed: Workspace,
                       run: seq<Ran>, checks: seq<Validated>)
    requires Completes(ctx, recorded, w, committed, run)
    ensures FailuresLeft(ctx, recorded, w, committed, run, checks) == Some([]) <==>
      forall s :: s in ctx.scopes ==> Settled(ctx, recorded, w, committed, run, checks, s)
  {
    var ran := AfterRun(ctx, recorded, w, committed, run);
    var end := AfterChecks(ctx, ran, checks);
    Evidence.NoFailures(ctx, end, 0);
    forall s | s in ctx.scopes
      ensures Evidence.Good(ctx, end, s) <==> Settled(ctx, recorded, w, committed, run, checks, s)
    {
      GoodAfterChecks(ctx, ran, checks, s);
      GoodAfterRun(ctx, recorded, w, committed, run, s);
    }
  }

  /** The finalizers of a compiled delta are the validation of its affected scopes. */
  lemma FinalizersValidateAffected(plan: Plan, ops: seq<Operation>, ws: Workspace, d: Delta, hints: seq<Invocation>,
                                   commands: seq<Invocation>, selected: seq<Consumers.Candidate>)
    requires Compiled(plan, ops, ws, d, commands) && OnlyControllerValidates(plan)
    requires Collected(plan, d.edits.effective.Keys, d.edits.changed.Keys + Dropped(d),
                       RunnableHints(plan, d.edits.effective.Keys, hints), selected, commands)
    ensures d.finalizers == Validation(plan, plan.scopes, d.affected)
  {
    if d.affected == {} {
      NoFinalizerCollected(plan, d.edits.effective.Keys, d.edits.changed.Keys + Dropped(d), hints,
                           commands, selected);
      NothingValidated(plan, plan.scopes);
    }
  }

  lemma SettledExact(plan: Plan, ctx: Evidence.Context, recorded: Effects, w: Evidence.World, d: Delta,
                     commands: seq<Invocation>, run: seq<Ran>, checks: seq<Validated>, s: Scope)
    requires SamePlan(plan, ctx) && Chronological(w.ops) && ValidatesOwn(plan, ctx) && s in plan.scopes
    requires Compiled(plan, w.ops, w.ws, d, commands) && Key(s) !in d.affected
    requires Validations(checks) == Validation(plan, plan.scopes, d.affected)
    ensures var committed := CommittedBy(w.ws, d);
      Settled(ctx, recorded, w, committed, run, checks, s) <==>
      Evidence.Good(ctx, w, s) && Spared(plan, ctx, recorded, w, committed, run, s)
  {
    OthersUnchecked(plan, ctx, checks, d.affected, s);
    ReusedLasts(plan, ctx, recorded, w, d.edits.changed, Dropped(d), commands, run, s);
  }

  /** Every affected scope is settled, and every other one was good before and was spared. */
  ghost predicate SettledOrSpared(plan: Plan, ctx: Evidence.Context, recorded: Effects, w: Evidence.World,
                                  committed: Workspace, affected: set<string>, run: seq<Ran>, checks: seq<Validated>)
  {
    forall s :: s in plan.scopes ==>
      if Key(s) in affected then Settled(ctx, recorded, w, committed, run, checks, s)
      else Evidence.Good(ctx, w, s) && Spared(plan, ctx, recorded, w, committed, run, s)
  }

  /** Main theorem: after an accepted delta was committed, its pipeline run and its finalizers
      carried out, no failure is left exactly when every affected scope is settled and every
      reused scope was good before and was spared by the run. */
  lemma DeltaLeavesNoFailures(plan: Plan, ctx: Evidence.Context, recorded: Effects, w: Evidence.World, d: Delta,
                              hints: seq<Invocation>, commands: seq<Invocation>,
                              selected: seq<Consumers.Candidate>, run: seq<Ran>, checks: seq<Validated>)
    requires SamePlan(plan, ctx) && Chronological(w.ops) && ValidatesOwn(plan, ctx)
    requires Compiled(plan, w.ops, w.ws, d, commands) && OnlyControllerValidates(plan)
    requires Collected(plan, d.edits.effective.Keys, d.edits.changed.Keys + Dropped(d),
                       RunnableHints(plan, d.edits.effective.Keys, hints), selected, commands)
    requires Validations(checks) == d.finalizers
    requires Completes(ctx, recorded, w, CommittedBy(w.ws, d), run)
    ensures var committed := CommittedBy(w.ws, d);
      FailuresLeft(ctx, recorded, w, committed, run, checks) == Some([]) <==>
      SettledOrSpared(plan, ctx, recorded, w, committed, d.affected, run, checks)
  {
    var committed := CommittedBy(w.ws, d);
    NoFailuresLeft(ctx, recorded, w, committed, run, checks);
    FinalizersValidateAffected(plan, w.ops, w.ws, d, hints, commands, selected);
    forall s | s in plan.scopes && Key(s) !in d.affected
      ensures Settled(ctx, recorded, w, committed, run, checks, s) <==>
              Evidence.Good(ctx, w, s) && Spared(plan, ctx, recorded, w, committed, run, s)
    {
      SettledExact(plan, ctx, recorded, w, d, commands, run, checks, s);
    }
  }

  /** Compile a delta.  An accepted one leaves no failure, whatever its run and its checks are,
      exactly when every affected scope is settled and every other one was good and spared. */
  method CompileForeseen(plan: Plan, graph: MeshDependencyGraph, files: CaseEdits.Files,
                         replacements: seq<CaseEdits.Replacement>, patches: seq<CaseEdits.TextPatch>,
                         requested: seq<string>, inspect: (CaseEdits.Files, seq<string>) -> seq<string>,
                         hints: seq<Invocation>, meshCommands: seq<string>, ghost ctx: Evidence.Context,
                         ghost recorded: Effects, ghost w: Evidence.World)
    returns (d: Delta)
    requires WellFormed(plan) && graph.Valid() && graph.operations == w.ops && files == w.ws
    requires SamePlan(plan, ctx) && ValidatesOwn(plan, ctx) && OnlyControllerValidates(plan)
    ensures d.affected !! d.reused && d.affected + d.reused == AllKeys(plan)
    ensures d.failures == [] ==> forall run: seq<Ran>, checks: seq<Validated> ::
      Validations(checks) == d.finalizers && Completes(ctx, recorded, w, CommittedBy(w.ws, d), run) ==>
      (FailuresLeft(ctx, recorded, w, CommittedBy(w.ws, d), run, checks) == Some([]) <==>
       SettledOrSpared(plan, ctx, recorded, w, CommittedBy(w.ws, d), d.affected, run, checks))
  {
    ghost var commands, selected;
    d, commands, selected := CompileDelta(plan, graph, files, files, replacements, patches, requested, inspect, hints,
                                          meshCommands);
    if d.failures == [] {
      forall run: seq<Ran>, checks: seq<Validated> |
        Validations(checks) == d.finalizers && Completes(ctx, recorded, w, CommittedBy(w.ws, d), run)
        ensures FailuresLeft(ctx, recorded, w, CommittedBy(w.ws, d), run, checks) == Some([]) <==>
                SettledOrSpared(plan, ctx, recorded, w, CommittedBy(w.ws, d), d.affected, run, checks)
      {
        DeltaLeavesNoFailures(plan, ctx, recorded, w, d, Given(hints, meshCommands), commands, selected, run, checks);
      }
    }
  }
}
