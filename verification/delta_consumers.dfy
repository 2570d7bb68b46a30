/** The native commands that must follow an edit: starting from the changed paths, candidates
    are swept until none is left whose input was touched.

    The selected commands are the least set closed under being triggered, whatever the order
    of the candidates. */
module DeltaConsumers {
  import opened Wrappers
  import opened ExecutionScopes
  import opened MeshDependencies

  /** A command the controller may add, for a scope or for the whole case. */
  datatype Candidate = Candidate(scope: Option<Scope>, command: Command)

  /** The plan's scopes and what the tool contracts say a command reads and writes. */
  datatype Setting = Setting(scopes: seq<Scope>, scoped: string -> bool, inputs: Candidate -> set<string>,
                             outputs: Candidate -> set<string>, nameOk: string -> bool)

  // ----- Explicit commands -----

  /** An explicit command is bound to a scope only when its contract mentions one. */
  function Bind(setting: Setting, command: Command): Result<Candidate, ScopeError> {
    if !setting.scoped(command.name) then Ok(Candidate(None, command))
    else
      match BoundScope(setting.scopes, command.arguments, setting.nameOk)
      case Err(e) => Err(e)
      case Ok(s) => Ok(Candidate(Some(s), command))
  }

  predicate Replaces(setting: Setting, explicit: Command, candidate: Command) {
    explicit.name == candidate.name &&
    CommandRegion(explicit.arguments, setting.nameOk) == CommandRegion(candidate.arguments, setting.nameOk)
  }

  predicate Explicable(setting: Setting, explicit: seq<Command>) {
    forall c :: c in explicit ==> Bind(setting, c).Ok? && CommandRegion(c.arguments, setting.nameOk).Ok?
  }

  function ExplicitOutputs(setting: Setting, explicit: seq<Command>): set<string> {
    set c, p | c in explicit && Bind(setting, c).Ok? && p in setting.outputs(Bind(setting, c).value) :: p
  }

  /** The candidates that no explicit command replaces. */
  function Inferred(setting: Setting, candidates: seq<Candidate>, explicit: seq<Command>): (r: seq<Candidate>)
    ensures forall c :: c in r <==> c in candidates && forall e :: e in explicit ==> !Replaces(setting, e, c.command)
  {
    if candidates == [] then []
    else
      (if forall e :: e in explicit ==> !Replaces(setting, e, candidates[0].command) then [candidates[0]] else []) +
      Inferred(setting, candidates[1..], explicit)
  }

  // ----- Sweeps -----

  function Commands(selected: seq<Candidate>): seq<Command> {
    seq(|selected|, i requires 0 <= i < |selected| => selected[i].command)
  }

  function Selected(selected: seq<Candidate>): set<Command> {
    set c | c in selected :: c.command
  }

  function Outputs(setting: Setting, selected: seq<Candidate>): set<string> {
    set c, p | c in selected && p in setting.outputs(c) :: p
  }

  predicate Touched(setting: Setting, dirty: set<string>, c: Candidate) {
    AnyOverlap(dirty, setting.inputs(c))
  }

  /** Each selected candidate is new and was triggered by a start path or by an output of one
      selected before it. */
  ghost predicate Chain(setting: Setting, candidates: seq<Candidate>, done: set<Command>, start: set<string>,
                        selected: seq<Candidate>) {
    selected != [] ==>
      var n := |selected| - 1;
      var before, last := selected[..n], selected[n];
      && Chain(setting, candidates, done, start, before)
      && last in candidates && last.command !in done + Selected(before)
      && Touched(setting, start + Outputs(setting, before), last)
  }

  ghost predicate Waiting(setting: Setting, done: set<Command>, dirty: set<string>, selected: seq<Candidate>,
                          c: Candidate)
  {
    c.command !in done && c.command !in Selected(selected) && Touched(setting, dirty, c)
  }

  /** What sweeping to a fixed point delivers. */
  ghost predicate Swept(setting: Setting, candidates: seq<Candidate>, done: set<Command>, start: set<string>,
                        selected: seq<Candidate>) {
    && Chain(setting, candidates, done, start, selected)
    && forall c :: c in candidates ==> !Waiting(setting, done, start + Outputs(setting, selected), selected, c)
  }

  /** A pass over these candidates adds nothing. */
  ghost predicate Quiet(setting: Setting, candidates: seq<Candidate>, seen: set<Command>, dirty: set<string>) {
    forall c :: c in candidates ==> c.command in seen || !Touched(setting, dirty, c)
  }

  /** The state of a sweep. */
  ghost predicate Sweeping(setting: Setting, candidates: seq<Candidate>, done: set<Command>, start: set<string>,
                           selected: seq<Candidate>, seen: set<Command>, dirty: set<string>) {
    && Chain(setting, candidates, done, start, selected)
    && seen == done + Selected(selected)
    && dirty == start + Outputs(setting, selected)
  }

  lemma SweepStep(setting: Setting, candidates: seq<Candidate>, done: set<Command>, start: set<string>,
                  selected: seq<Candidate>, seen: set<Command>, dirty: set<string>, c: Candidate)
    requires Sweeping(setting, candidates, done, start, selected, seen, dirty) && c in candidates
    requires c.command !in seen && Touched(setting, dirty, c)
    ensures Sweeping(setting, candidates, done, start, selected + [c], seen + {c.command}, dirty + setting.outputs(c))
    ensures Pending(candidates, seen + {c.command}) < Pending(candidates, seen)
  {
    PendingStep(candidates, seen, c.command);
  }

  /** One pass over the candidates. */
  method Sweep(setting: Setting, candidates: seq<Candidate>, ghost done: set<Command>, ghost start: set<string>,
               selected0: seq<Candidate>, seen0: set<Command>, dirty0: set<string>)
    returns (selected: seq<Candidate>, seen: set<Command>, dirty: set<string>, added: bool)
    requires Sweeping(setting, candidates, done, start, selected0, seen0, dirty0)
    ensures Sweeping(setting, candidates, done, start, selected, seen, dirty)
    ensures added ==> Pending(candidates, seen) < Pending(candidates, seen0)
    ensures !added ==> seen == seen0
    ensures !added ==> Quiet(setting, candidates, seen, dirty)
  {
    selected, seen, dirty, added := selected0, seen0, dirty0, false;
    for i := 0 to |candidates|
      invariant Sweeping(setting, candidates, done, start, selected, seen, dirty)
      invariant added ==> Pending(candidates, seen) < Pending(candidates, seen0)
      invariant !added ==> seen == seen0
      invariant !added ==> Quiet(setting, candidates[..i], seen, dirty)
    {
      var c := candidates[i];
      assert candidates[..i + 1] == candidates[..i] + [c];
      if c.command !in seen && Touched(setting, dirty, c) {
        SweepStep(setting, candidates, done, start, selected, seen, dirty, c);
        selected, seen, dirty, added := selected + [c], seen + {c.command}, dirty + setting.outputs(c), true;
      }
    }
    assert candidates[..|candidates|] == candidates;
  }

  /** Pass over the candidates until a pass adds nothing. */
  method SweepCandidates(setting: Setting, candidates: seq<Candidate>, done: set<Command>, start: set<string>)
    returns (selected: seq<Candidate>)
    ensures Swept(setting, candidates, done, start, selected)
  {
    selected := [];
    var seen, dirty, added := done, start, true;
    assert Selected(selected) == {} && Outputs(setting, selected) == {};
    while added
      invariant Sweeping(setting, candidates, done, start, selected, seen, dirty)
      invariant !added ==> Quiet(setting, candidates, seen, dirty)
      decreases Pending(candidates, seen), added
    {
      selected, seen, dirty, added := Sweep(setting, candidates, done, start, selected, seen, dirty);
    }
  }

  ghost function Pending(candidates: seq<Candidate>, seen: set<Command>): nat {
    |set c | c in candidates && c.command !in seen :: c.command|
  }

  lemma PendingStep(candidates: seq<Candidate>, seen: set<Command>, command: Command)
    requires exists c :: c in candidates && c.command == command
    requires command !in seen
    ensures Pending(candidates, seen + {command}) < Pending(candidates, seen)
  {
    var before := set c | c in candidates && c.command !in seen :: c.command;
    var after := set c | c in candidates && c.command !in seen + {command} :: c.command;
    assert after == before - {command} && command in before;
  }

  /** The commands to add after an edit, or the error of a command that cannot be bound. */
  method AutoConsumers(setting: Setting, candidates: seq<Candidate>, changed: set<string>, explicit: seq<Command>)
    returns (r: Result<seq<Command>, ScopeError>, ghost selected: seq<Candidate>)
    ensures r.Ok? <==> Explicable(setting, explicit) && forall c :: c in candidates ==>
      CommandRegion(c.command.arguments, setting.nameOk).Ok?
    ensures r.Ok? ==> r.value == Commands(selected)
    ensures r.Ok? ==> Swept(setting, Inferred(setting, candidates, explicit), (set c | c in explicit),
                            changed + ExplicitOutputs(setting, explicit), selected)
  {
    selected := [];
    var dirty, seen: set<Command> := changed, {};
    for i := 0 to |explicit|
      invariant dirty == changed + ExplicitOutputs(setting, explicit[..i])
      invariant seen == set c | c in explicit[..i]
      invariant Explicable(setting, explicit[..i])
    {
      var command := explicit[i];
      assert explicit[..i + 1] == explicit[..i] + [command];
      match Bind(setting, command)
      case Err(e) =>
        return Err(e), [];
      case Ok(bound) =>
        match CommandRegion(command.arguments, setting.nameOk) {
          case Err(e) => return Err(e), [];
          case Ok(_) =>
        }
        seen := seen + {command};
        dirty := dirty + setting.outputs(bound);
    }
    assert explicit[..|explicit|] == explicit;
    if c :| c in candidates && CommandRegion(c.command.arguments, setting.nameOk).Err? {
      return Err(CommandRegion(c.command.arguments, setting.nameOk).error), [];
    }
    var swept := SweepCandidates(setting, Inferred(setting, candidates, explicit), seen, dirty);
    return Ok(Commands(swept)), swept;
  }

  // ----- The least closed set -----

  /** Every candidate with a touched input is in the set: touched by a start path or by an
      output of a candidate in the set. */
  ghost predicate Closed(setting: Setting, candidates: seq<Candidate>, done: set<Command>, start: set<string>,
                         s: set<Command>)
  {
    forall c :: c in candidates && c.command !in done ==>
      Touched(setting, start + OutputsWithin(setting, candidates, s), c) ==>
      c.command in s
  }

  ghost function OutputsWithin(setting: Setting, candidates: seq<Candidate>, s: set<Command>): set<string> {
    set c, p | c in candidates && c.command in s && p in setting.outputs(c) :: p
  }

  /** Candidates for the same command write the same paths. */
  ghost predicate OneMeaning(setting: Setting, candidates: seq<Candidate>) {
    forall c, d :: c in candidates && d in candidates && c.command == d.command ==>
      setting.outputs(c) == setting.outputs(d)
  }

  /** Main theorem, first half: nothing is selected that some closed set does without. */
  lemma {:induction false} ChainWithinClosed(setting: Setting, candidates: seq<Candidate>, done: set<Command>,
                                             start: set<string>, selected: seq<Candidate>, s: set<Command>)
    requires Chain(setting, candidates, done, start, selected) && Closed(setting, candidates, done, start, s)
    ensures Selected(selected) <= s
  {
    if selected != [] {
      var n := |selected| - 1;
      var most, last := selected[..n], selected[n];
      ChainWithinClosed(setting, candidates, done, start, most, s);
      ChainMembers(setting, candidates, done, start, most);
      forall c, p | c in most && p in setting.outputs(c) ensures p in OutputsWithin(setting, candidates, s) {
        assert c.command in Selected(most);
      }
      assert Outputs(setting, most) <= OutputsWithin(setting, candidates, s);
      assert selected == most + [last];
    }
  }

  lemma {:induction false} ChainMembers(setting: Setting, candidates: seq<Candidate>, done: set<Command>,
                                        start: set<string>,
                                        selected: seq<Candidate>)
    requires Chain(setting, candidates, done, start, selected)
    ensures forall c :: c in selected ==> c in candidates && c.command !in done
    ensures forall i, j :: 0 <= i < j < |selected| ==> selected[i].command != selected[j].command
  {
    if selected != [] {
      var n := |selected| - 1;
      ChainMembers(setting, candidates, done, start, selected[..n]);
      assert selected == selected[..n] + [selected[n]];
      forall i | 0 <= i < n ensures selected[i].command != selected[n].command {
        assert selected[..n][i].command in Selected(selected[..n]);
      }
    }
  }

  /** Main theorem, second half: when a command has one meaning the selection is closed. */
  lemma SweptIsClosed(setting: Setting, candidates: seq<Candidate>, done: set<Command>, start: set<string>,
                      selected: seq<Candidate>)
    requires Swept(setting, candidates, done, start, selected) && OneMeaning(setting, candidates)
    ensures Closed(setting, candidates, done, start, Selected(selected))
  {
    var s := Selected(selected);
    ChainMembers(setting, candidates, done, start, selected);
    forall c, p | c in candidates && c.command in s && p in setting.outputs(c) ensures p in Outputs(setting, selected) {
      var d :| d in selected && d.command == c.command;
      assert setting.outputs(c) == setting.outputs(d);
    }
    forall c | c in candidates && c.command !in done &&
               Touched(setting, start + OutputsWithin(setting, candidates, s), c)
      ensures c.command in s
    {
    }
  }

  /** Main theorem: more changed paths select more, and the order of the candidates does not
      matter. */
  lemma SelectionMonotone(setting: Setting, candidates1: seq<Candidate>, candidates2: seq<Candidate>,
                          done: set<Command>,
                          start1: set<string>, start2: set<string>, selected1: seq<Candidate>,
                          selected2: seq<Candidate>)
    requires OneMeaning(setting, candidates2) && start1 <= start2
    requires forall c :: c in candidates1 ==> c in candidates2
    requires Swept(setting, candidates1, done, start1, selected1)
    requires Swept(setting, candidates2, done, start2, selected2)
    ensures Selected(selected1) <= Selected(selected2)
  {
    var s := Selected(selected2);
    SweptIsClosed(setting, candidates2, done, start2, selected2);
    forall c | c in candidates1 && c.command !in done &&
               Touched(setting, start1 + OutputsWithin(setting, candidates1, s), c)
      ensures c.command in s
    {
    }
    ChainWithinClosed(setting, candidates1, done, start1, selected1, s);
  }

  lemma OutputsOfOne(setting: Setting, c: Candidate)
    ensures Outputs(setting, [c]) == setting.outputs(c)
  {
    assert c in [c];
  }

  /** Without one meaning per command the order does matter: two candidates for one command
      that write different paths trigger different followers. */
  lemma SharedCommandDependsOnOrder()
    returns (setting: Setting, a: Candidate, b: Candidate, follower: Candidate, start: set<string>)
    ensures a.command == b.command && a.command != follower.command
    ensures Swept(setting, [a, b, follower], {}, start, [a])
    ensures Swept(setting, [b, a, follower], {}, start, [b, follower])
  {
    a := Candidate(None, Command("x", []));
    b := Candidate(Some(Root), Command("x", []));
    follower := Candidate(None, Command("y", []));
    start := {"s"};
    setting := Setting([Root], (name: string) => true,
                       (c: Candidate) => if c.command.name == "y" then {"b"} else {"s"},
                       (c: Candidate) => if c.command.name == "y" then {} else if c.scope.None? then {"a"} else {"b"},
                       (name: string) => true);
    assert Overlap("s", "s") && Overlap("b", "b");
    assert !Overlap("s", "b") && !Overlap("a", "b");
    OutputsOfOne(setting, a);
    OutputsOfOne(setting, b);
    assert [a][..0] == [] && [b, follower][..0] == [] && [b, follower][..1] == [b] && Outputs(setting, []) == {};
    assert Touched(setting, {"s"}, a) && Touched(setting, {"s"}, b);
    assert !Touched(setting, {"s"} + {"a"}, follower);
    assert Touched(setting, {"s"} + {"b"}, follower);
    assert a in [a] && b in [b, follower] && follower in [b, follower];
    assert Selected([a]) == {a.command} && Selected([b, follower]) == {b.command, follower.command};
  }

  // ----- In plain words -----

  /** An explicit command writes the path, for the scope it is bound to when its tool has one. */
  ghost predicate ExplicitlyWrites(setting: Setting, e: Command, path: string) {
    if setting.scoped(e.name) then
      exists s :: BoundScope(setting.scopes, e.arguments, setting.nameOk) == Ok(s) &&
        path in setting.outputs(Candidate(Some(s), e))
    else path in setting.outputs(Candidate(None, e))
  }

  /** The path was changed, or an explicit command or one of the first k selected ones writes it. */
  ghost predicate Dirty(setting: Setting, explicit: seq<Command>, changed: set<string>, selected: seq<Candidate>,
                        k: nat, path: string)
    requires k <= |selected|
  {
    || path in changed
    || (exists e :: e in explicit && ExplicitlyWrites(setting, e, path))
    || exists j :: 0 <= j < k && path in setting.outputs(selected[j])
  }

  /** Some dirty path is a path the candidate reads, or a folder above or below one. */
  ghost predicate Triggered(setting: Setting, explicit: seq<Command>, changed: set<string>, selected: seq<Candidate>,
                            k: nat, c: Candidate)
    requires k <= |selected|
  {
    exists p, q :: Dirty(setting, explicit, changed, selected, k, p) && q in setting.inputs(c) &&
      (p == q || p + "/" <= q || q + "/" <= p)
  }

  /** No explicit command is this one, or has its name and its region. */
  ghost predicate NotExplicit(setting: Setting, explicit: seq<Command>, c: Candidate) {
    forall e :: e in explicit && e.name == c.command.name ==>
      e != c.command &&
      CommandRegion(e.arguments, setting.nameOk) != CommandRegion(c.command.arguments, setting.nameOk)
  }

  lemma TriggeredExact(setting: Setting, explicit: seq<Command>, changed: set<string>, selected: seq<Candidate>,
                       k: nat, c: Candidate)
    requires k <= |selected|
    ensures Touched(setting, changed + ExplicitOutputs(setting, explicit) + Outputs(setting, selected[..k]), c) <==>
      Triggered(setting, explicit, changed, selected, k, c)
  {
    var dirty := changed + ExplicitOutputs(setting, explicit) + Outputs(setting, selected[..k]);
    OverlapsMeet(dirty, setting.inputs(c));
    forall p ensures p in dirty <==> Dirty(setting, explicit, changed, selected, k, p) {
      DirtyExact(setting, explicit, changed, selected, k, p);
    }
  }

  lemma DirtyExact(setting: Setting, explicit: seq<Command>, changed: set<string>, selected: seq<Candidate>,
                   k: nat, path: string)
    requires k <= |selected|
    ensures path in changed + ExplicitOutputs(setting, explicit) + Outputs(setting, selected[..k]) <==>
      Dirty(setting, explicit, changed, selected, k, path)
  {
    forall e | e in explicit
      ensures ExplicitlyWrites(setting, e, path) <==>
              Bind(setting, e).Ok? && path in setting.outputs(Bind(setting, e).value)
    {}
    if j :| 0 <= j < k && path in setting.outputs(selected[j]) {
      assert selected[j] in selected[..k];
    }
    if c :| c in selected[..k] && path in setting.outputs(c) {
      var j :| 0 <= j < k && selected[j] == c;
    }
  }

  /** Main theorem: each selected command is a candidate that no explicit command replaces and
      that was triggered when it was selected, and no such candidate is left out. */
  lemma SelectionExact(setting: Setting, candidates: seq<Candidate>, explicit: seq<Command>, changed: set<string>,
                       selected: seq<Candidate>)
    requires Swept(setting, Inferred(setting, candidates, explicit), (set c | c in explicit),
                   changed + ExplicitOutputs(setting, explicit), selected)
    ensures forall k :: 0 <= k < |selected| ==>
      selected[k] in candidates && NotExplicit(setting, explicit, selected[k]) &&
      Triggered(setting, explicit, changed, selected, k, selected[k])
    ensures forall c :: c in candidates && NotExplicit(setting, explicit, c) ==>
      Triggered(setting, explicit, changed, selected, |selected|, c) ==> c.command in Commands(selected)
  {
    var inferred, done := Inferred(setting, candidates, explicit), set c | c in explicit;
    var start := changed + ExplicitOutputs(setting, explicit);
    forall k | 0 <= k < |selected|
      ensures selected[k] in candidates && NotExplicit(setting, explicit, selected[k])
      ensures Triggered(setting, explicit, changed, selected, k, selected[k])
    {
      ChainAt(setting, inferred, done, start, selected, k);
      TriggeredExact(setting, explicit, changed, selected, k, selected[k]);
    }
    forall c | c in candidates && NotExplicit(setting, explicit, c) &&
      Triggered(setting, explicit, changed, selected, |selected|, c)
      ensures c.command in Commands(selected)
    {
      TriggeredExact(setting, explicit, changed, selected, |selected|, c);
      assert selected[..|selected|] == selected;
      assert c in inferred && !Waiting(setting, done, start + Outputs(setting, selected), selected, c);
      var d :| d in selected && d.command == c.command;
      var j :| 0 <= j < |selected| && selected[j] == d;
      assert Commands(selected)[j] == c.command;
    }
  }

  lemma {:induction false} ChainAt(setting: Setting, candidates: seq<Candidate>, done: set<Command>,
                                   start: set<string>, selected: seq<Candidate>, k: nat)
    requires Chain(setting, candidates, done, start, selected) && k < |selected|
    ensures selected[k] in candidates && selected[k].command !in done + Selected(selected[..k])
    ensures Touched(setting, start + Outputs(setting, selected[..k]), selected[k])
    decreases |selected|
  {
    var n := |selected| - 1;
    if k < n {
      ChainAt(setting, candidates, done, start, selected[..n], k);
      assert selected[..n][..k] == selected[..k];
    }
  }
}
