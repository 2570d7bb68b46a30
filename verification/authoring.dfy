/** Splitting the authoring of a case into tasks and putting the responses together again.

    Required files are cut into consecutive batches, every confirmed fact travels with the
    tasks it bears on together with the facts it depends on, and the assembled case contains
    every required file once. */
module Authoring {
  import opened Wrappers

  // ----- Facts -----

  datatype Fact = Fact(id: string, dependsOn: seq<string>)

  /** The fact an id stands for: the last one listed. */
  function ById(facts: seq<Fact>, id: string): Option<Fact> {
    if facts == [] then None
    else
      var n := |facts| - 1;
      if facts[n].id == id then Some(facts[n]) else ById(facts[..n], id)
  }

  function Dependencies(facts: seq<Fact>, id: string): set<string> {
    match ById(facts, id)
    case None => {}
    case Some(f) => set d | d in f.dependsOn
  }

  ghost predicate ClosedFrom(facts: seq<Fact>, ids: set<string>, s: set<string>) {
    ids <= s && forall x :: x in s ==> Dependencies(facts, x) <= s
  }

  ghost function Mentioned(facts: seq<Fact>, ids: set<string>): set<string> {
    ids + set i, d | 0 <= i < |facts| && d in facts[i].dependsOn :: d
  }

  /** The ids and everything they depend on: the least closed set. */
  ghost function Closure(facts: seq<Fact>, ids: set<string>): set<string> {
    set x | x in Mentioned(facts, ids) && forall s: set<string> :: ClosedFrom(facts, ids, s) ==> x in s
  }

  lemma {:induction false} ByIdListed(facts: seq<Fact>, id: string)
    ensures ById(facts, id).Some? <==> exists f :: f in facts && f.id == id
    ensures ById(facts, id).Some? ==> ById(facts, id).value in facts && ById(facts, id).value.id == id
  {
    if facts != [] {
      var n := |facts| - 1;
      ByIdListed(facts[..n], id);
      assert facts == facts[..n] + [facts[n]];
    }
  }

  lemma ClosureIsClosed(facts: seq<Fact>, ids: set<string>)
    ensures ClosedFrom(facts, ids, Closure(facts, ids))
  {
    var c := Closure(facts, ids);
    forall x, d | x in c && d in Dependencies(facts, x) ensures d in c {
      ByIdListed(facts, x);
      var f := ById(facts, x).value;
      var i :| 0 <= i < |facts| && facts[i] == f;
      assert d in facts[i].dependsOn;
      forall s: set<string> | ClosedFrom(facts, ids, s) ensures d in s {
        assert x in s && Dependencies(facts, x) <= s;
      }
    }
    forall x | x in ids ensures x in c {}
  }

  ghost predicate Resolves(facts: seq<Fact>, ids: set<string>) {
    forall x :: x in Closure(facts, ids) ==> ById(facts, x).Some?
  }

  datatype AuthoringError =
    | MissingFact(id: string)
    | BadManifest
    | TooLarge(paths: seq<string>)
    | LostCoverage
    | PlanChanged
    | NothingPending
    | CoverageMismatch
    | PipelineMisplaced
    | InvalidCase

  /** The state of the worklist: what was taken off it is a fact and its dependencies were
      selected, and nothing outside a closed set was selected. */
  ghost predicate Gathering(facts: seq<Fact>, ids: set<string>, closure: set<string>, todo: set<string>,
                            selected: set<string>)
  {
    && todo <= selected <= closure && ids <= selected
    && forall x :: x in selected && x !in todo ==> ById(facts, x).Some? && Dependencies(facts, x) <= selected
  }

  /** The worklist, inside any closed set. */
  method Gather(facts: seq<Fact>, ids: set<string>, ghost closure: set<string>)
    returns (r: Result<set<string>, AuthoringError>)
    requires ClosedFrom(facts, ids, closure)
    ensures r.Ok? ==> Gathering(facts, ids, closure, {}, r.value)
    ensures r.Err? ==> r.error.MissingFact? && exists x :: x in closure && ById(facts, x).None?
  {
    var selected, todo := ids, ids;
    while todo != {}
      invariant Gathering(facts, ids, closure, todo, selected)
      decreases closure - selected, |todo|
    {
      var x :| x in todo;
      var found := ById(facts, x);
      if found.None? {
        return Err(MissingFact(x));
      }
      var added := (set d | d in found.value.dependsOn) - selected;
      todo, selected := todo - {x} + added, selected + added;
    }
    return Ok(selected);
  }

  /** The ids of the dependency closure; fails exactly when one is not a fact. */
  method FactClosure(facts: seq<Fact>, ids: set<string>) returns (r: Result<set<string>, AuthoringError>)
    ensures r.Ok? <==> Resolves(facts, ids)
    ensures r.Ok? ==> r.value == Closure(facts, ids)
    ensures r.Err? ==> r.error.MissingFact?
  {
    ClosureIsClosed(facts, ids);
    r := Gather(facts, ids, Closure(facts, ids));
  }

  // ----- The plan -----

  /** A confirmed fact bound to the files that implement it. */
  datatype Binding = Binding(factId: string, paths: set<string>)

  datatype Plan = Plan(required: seq<string>, bindings: seq<Binding>, digest: string)

  /** The confirmed facts, and supporting facts they may depend on. */
  datatype Intake = Intake(facts: seq<Fact>, provenance: seq<Fact>)

  function Ids(facts: seq<Fact>): set<string> {
    set i | 0 <= i < |facts| :: facts[i].id
  }

  predicate Mapped(plan: Plan, id: string) {
    exists b :: b in plan.bindings && b.factId == id && b.paths != {}
  }

  /** The facts that bear on the given files, before their dependencies: those bound to one of
      the files or to no file, and those not bound to files at all. */
  function RelevantIds(plan: Plan, intake: Intake, paths: set<string>): set<string> {
    (set b | b in plan.bindings && (b.paths == {} || b.paths * paths != {}) :: b.factId) +
    (set id | id in Ids(intake.facts) && !Mapped(plan, id))
  }

  function AllFacts(intake: Intake): seq<Fact> {
    intake.facts + intake.provenance
  }

  /** The confirmed facts that travel with a task. */
  ghost function Projected(plan: Plan, intake: Intake, paths: set<string>): set<string> {
    Closure(AllFacts(intake), RelevantIds(plan, intake, paths)) * Ids(intake.facts)
  }

  /** What design validation checks: bindings are for known facts and declared files. */
  predicate ValidDesign(plan: Plan, intake: Intake) {
    forall b :: b in plan.bindings ==> b.factId in Ids(intake.facts) && b.paths <= (set p | p in plan.required)
  }

  ghost predicate FactsResolve(intake: Intake) {
    forall f, d :: f in AllFacts(intake) && d in f.dependsOn ==> ById(AllFacts(intake), d).Some?
  }

  /** A valid design over facts whose dependencies resolve never misses a fact. */
  lemma ValidDesignResolves(plan: Plan, intake: Intake, paths: set<string>)
    requires ValidDesign(plan, intake) && FactsResolve(intake)
    ensures Resolves(AllFacts(intake), RelevantIds(plan, intake, paths))
  {
    var facts, ids := AllFacts(intake), RelevantIds(plan, intake, paths);
    var known := set x | x in Closure(facts, ids) && ById(facts, x).Some?;
    ClosureIsClosed(facts, ids);
    forall x | x in ids ensures ById(facts, x).Some? {
      assert x in Ids(intake.facts);
      var i :| 0 <= i < |intake.facts| && intake.facts[i].id == x;
      assert intake.facts[i] in facts;
      ByIdListed(facts, x);
    }
    forall x, d | x in known && d in Dependencies(facts, x) ensures d in known {
      ByIdListed(facts, x);
      assert ById(facts, x).value in facts;
    }
  }

  /** Main theorem: a confirmed fact of a valid design travels, with everything it depends on,
      with some file it bears on, and with every file when it is bound to none. */
  lemma FactReachesATask(plan: Plan, intake: Intake, id: string) returns (path: string)
    requires ValidDesign(plan, intake) && id in Ids(intake.facts) && plan.required != []
    ensures path in plan.required
    ensures forall paths: set<string> :: path in paths ==>
      Closure(AllFacts(intake), {id}) <= Closure(AllFacts(intake), RelevantIds(plan, intake, paths))
    ensures !Mapped(plan, id) ==> forall paths: set<string> ::
      Closure(AllFacts(intake), {id}) <= Closure(AllFacts(intake), RelevantIds(plan, intake, paths))
  {
    if Mapped(plan, id) {
      var b :| b in plan.bindings && b.factId == id && b.paths != {};
      path :| path in b.paths;
      forall paths: set<string> | path in paths
        ensures Closure(AllFacts(intake), {id}) <= Closure(AllFacts(intake), RelevantIds(plan, intake, paths))
      {
        assert path in b.paths * paths;
        ClosureMonotone(AllFacts(intake), id, RelevantIds(plan, intake, paths));
      }
    } else {
      path := plan.required[0];
      forall paths: set<string>
        ensures Closure(AllFacts(intake), {id}) <= Closure(AllFacts(intake), RelevantIds(plan, intake, paths))
      {
        ClosureMonotone(AllFacts(intake), id, RelevantIds(plan, intake, paths));
      }
    }
  }

  lemma ClosureMonotone(facts: seq<Fact>, id: string, ids: set<string>)
    requires id in ids
    ensures Closure(facts, {id}) <= Closure(facts, ids)
  {
    ClosureIsClosed(facts, ids);
  }

  // ----- Batches -----

  /** Whether the prompt for some files fits, in full or compact form: within the reserve used
      while grouping, and within the exact limit. */
  datatype Budget = Budget(grouping: (seq<string>, bool) -> bool, exact: (seq<string>, bool) -> bool)

  datatype Batch = Batch(paths: seq<string>, compact: bool)

  predicate Groups(budget: Budget, paths: seq<string>) {
    budget.grouping(paths, false) || budget.grouping(paths, true)
  }

  function AllPaths(batches: seq<Batch>): seq<string> {
    if batches == [] then [] else AllPaths(batches[..|batches| - 1]) + batches[|batches| - 1].paths
  }

  /** Batches are not empty, fit in the form they record, and none could take the next file. */
  ghost predicate WellGrouped(budget: Budget, batches: seq<Batch>) {
    && (forall k :: 0 <= k < |batches| ==>
          batches[k].paths != [] && budget.grouping(batches[k].paths, batches[k].compact) &&
          batches[k].compact == !budget.grouping(batches[k].paths, false))
    && forall k :: 0 < k < |batches| ==> var more := batches[k - 1].paths + [batches[k].paths[0]];
         !budget.grouping(more, false) && !budget.grouping(more, true)
  }

  /** Whether the compact form is used; none when neither form fits. */
  function Form(budget: Budget, paths: seq<string>): Option<bool> {
    if budget.grouping(paths, false) then Some(false)
    else if budget.grouping(paths, true) then Some(true)
    else None
  }

  /** Projecting the plan onto the files fails when a fact is missing; otherwise the smaller
      form is tried when the full one does not fit. */
  method ProjectionThatFits(plan: Plan, intake: Intake, budget: Budget, paths: seq<string>)
    returns (r: Result<Option<bool>, AuthoringError>)
    ensures r.Ok? <==> Resolves(AllFacts(intake), RelevantIds(plan, intake, set p | p in paths))
    ensures r.Err? ==> r.error.MissingFact?
    ensures r.Ok? ==> r.value == Form(budget, paths)
  {
    var closure := FactClosure(AllFacts(intake), RelevantIds(plan, intake, set p | p in paths));
    if closure.Err? {
      return Err(closure.error);
    }
    return Ok(Form(budget, paths));
  }

  /** The batches closed so far and the one being filled. */
  ghost predicate Filling(budget: Budget, batches: seq<Batch>, current: seq<string>) {
    && WellGrouped(budget, batches)
    && (current == [] ==> batches == [])
    && (current != [] ==> Groups(budget, current))
    && (batches != [] ==> !Groups(budget, batches[|batches| - 1].paths + [current[0]]))
  }

  function AsBatch(budget: Budget, paths: seq<string>): Batch {
    Batch(paths, !budget.grouping(paths, false))
  }

  lemma CloseBatch(budget: Budget, batches: seq<Batch>, current: seq<string>)
    requires Filling(budget, batches, current) && current != []
    ensures WellGrouped(budget, batches + [AsBatch(budget, current)])
    ensures AllPaths(batches + [AsBatch(budget, current)]) == AllPaths(batches) + current
  {
    var more := batches + [AsBatch(budget, current)];
    assert more[..|more| - 1] == batches;
  }

  /** Whether every projection a batch needs is free of missing facts. */
  lemma NoMissingFact(plan: Plan, intake: Intake, paths: seq<string>)
    ensures ValidDesign(plan, intake) && FactsResolve(intake) ==>
      Resolves(AllFacts(intake), RelevantIds(plan, intake, set p | p in paths))
  {
    if ValidDesign(plan, intake) && FactsResolve(intake) {
      ValidDesignResolves(plan, intake, set p | p in paths);
    }
  }

  /** Put the next file into the current batch, or close that one and start another. */
  method Place(plan: Plan, intake: Intake, budget: Budget, batches: seq<Batch>, current: seq<string>, path: string)
    returns (r: Result<(seq<Batch>, seq<string>), AuthoringError>)
    requires Filling(budget, batches, current)
    ensures r.Ok? ==> Filling(budget, r.value.0, r.value.1) && r.value.1 != []
    ensures r.Ok? ==> AllPaths(r.value.0) + r.value.1 == AllPaths(batches) + current + [path]
    ensures r.Err? ==>
      (r.error.MissingFact? && (Misses(plan, intake, current + [path]) || Misses(plan, intake, [path]))) ||
      (r.error == TooLarge([path]) && !Groups(budget, [path]))
    ensures ValidDesign(plan, intake) && FactsResolve(intake) ==> r.Ok? || r.error.TooLarge?
  {
    NoMissingFact(plan, intake, current + [path]);
    var grown := ProjectionThatFits(plan, intake, budget, current + [path]);
    if grown.Err? {
      return Err(grown.error);
    }
    if grown.value.Some? {
      assert AllPaths(batches) + (current + [path]) == AllPaths(batches) + current + [path];
      return Ok((batches, current + [path]));
    }
    var closed := batches;
    if current != [] {
      CloseBatch(budget, batches, current);
      closed := batches + [AsBatch(budget, current)];
    }
    NoMissingFact(plan, intake, [path]);
    var single := ProjectionThatFits(plan, intake, budget, [path]);
    if single.Err? {
      return Err(single.error);
    }
    if single.value.None? {
      return Err(TooLarge([path]));
    }
    return Ok((closed, [path]));
  }

  /** Some fact that bears on these files depends on an unknown one. */
  ghost predicate Misses(plan: Plan, intake: Intake, paths: seq<string>) {
    !Resolves(AllFacts(intake), RelevantIds(plan, intake, set p | p in paths))
  }

  /** A fact is missing, and some required files need it. */
  ghost predicate FactMissed(plan: Plan, intake: Intake, e: AuthoringError) {
    e.MissingFact? &&
    exists paths: seq<string> :: (forall p :: p in paths ==> p in plan.required) && Misses(plan, intake, paths)
  }

  /** A single required file does not fit. */
  ghost predicate FileTooLarge(plan: Plan, budget: Budget, e: AuthoringError) {
    exists p :: p in plan.required && e == TooLarge([p]) && !budget.grouping([p], false) && !budget.grouping([p], true)
  }

  /** A batch of a well-grouped cover of the manifest exceeds the exact limit in both forms. */
  ghost predicate BatchTooLarge(plan: Plan, budget: Budget, batches: seq<Batch>, e: AuthoringError) {
    && WellGrouped(budget, batches) && AllPaths(batches) == plan.required
    && exists k :: 0 <= k < |batches| && ExceedsExact(budget, batches[k], e)
  }

  predicate ExceedsExact(budget: Budget, batch: Batch, e: AuthoringError) {
    e == TooLarge(batch.paths) && !budget.exact(batch.paths, batch.compact) && !budget.exact(batch.paths, true)
  }

  /** A fact that placing the next file misses is needed by required files. */
  lemma PlacementMissed(plan: Plan, intake: Intake, batches: seq<Batch>, current: seq<string>, i: nat,
                        e: AuthoringError)
    requires i < |plan.required| && AllPaths(batches) + current == plan.required[..i]
    requires Misses(plan, intake, current + [plan.required[i]]) || Misses(plan, intake, [plan.required[i]])
    requires e.MissingFact?
    ensures FactMissed(plan, intake, e)
  {
    forall p | p in current + [plan.required[i]] ensures p in plan.required {
      if p in current {
        assert p in AllPaths(batches) + current;
      }
    }
    assert forall p :: p in [plan.required[i]] ==> p in plan.required;
  }

  /** Cut the required files into batches, each as long as the next file still fits. */
  method Group(plan: Plan, intake: Intake, budget: Budget) returns (r: Result<seq<Batch>, AuthoringError>)
    requires plan.required != []
    ensures r.Ok? ==> WellGrouped(budget, r.value) && AllPaths(r.value) == plan.required
    ensures r.Err? ==> FactMissed(plan, intake, r.error) || FileTooLarge(plan, budget, r.error)
    ensures ValidDesign(plan, intake) && FactsResolve(intake) ==> r.Ok? || r.error.TooLarge?
  {
    var batches: seq<Batch>, current: seq<string> := [], [];
    for i := 0 to |plan.required|
      invariant Filling(budget, batches, current)
      invariant AllPaths(batches) + current == plan.required[..i]
      invariant i > 0 ==> current != []
    {
      assert plan.required[..i + 1] == plan.required[..i] + [plan.required[i]];
      var placed := Place(plan, intake, budget, batches, current, plan.required[i]);
      if placed.Err? {
        if placed.error.MissingFact? {
          PlacementMissed(plan, intake, batches, current, i, placed.error);
        }
        return Err(placed.error);
      }
      batches, current := placed.value.0, placed.value.1;
    }
    assert plan.required[..|plan.required|] == plan.required;
    CloseBatch(budget, batches, current);
    return Ok(batches + [AsBatch(budget, current)]);
  }

  // ----- Tasks -----

  datatype TaskId = TaskId(plan: string, index: nat)

  datatype Task = Task(id: TaskId, paths: seq<string>, isFinal: bool, compact: bool, facts: set<string>)

  function TaskPaths(tasks: seq<Task>): seq<string> {
    if tasks == [] then [] else TaskPaths(tasks[..|tasks| - 1]) + tasks[|tasks| - 1].paths
  }

  /** One task for each batch, in order, with the facts that bear on its files and a prompt
      within the exact limit. */
  ghost predicate TasksFor(plan: Plan, intake: Intake, budget: Budget, batches: seq<Batch>, tasks: seq<Task>) {
    |tasks| == |batches| &&
    forall k :: 0 <= k < |tasks| ==> TaskFor(plan, intake, budget, batches, k, tasks[k])
  }

  ghost predicate TaskFor(plan: Plan, intake: Intake, budget: Budget, batches: seq<Batch>, k: int, task: Task)
    requires 0 <= k < |batches|
  {
    && task.id == TaskId(plan.digest, k) && task.paths == batches[k].paths && (task.isFinal <==> k == |batches| - 1)
    && budget.exact(task.paths, task.compact)
    && task.compact == (batches[k].compact || !budget.exact(task.paths, false))
    && task.facts == Projected(plan, intake, set p | p in task.paths)
  }

  lemma {:induction false} TaskPathsAgree(plan: Plan, intake: Intake, budget: Budget, all: seq<Batch>,
                                          batches: seq<Batch>, tasks: seq<Task>)
    requires batches <= all && |tasks| == |batches| && forall k :: 0 <= k < |tasks| ==>
      TaskFor(plan, intake, budget, all, k, tasks[k])
    ensures TaskPaths(tasks) == AllPaths(batches)
  {
    if tasks != [] {
      var n := |tasks| - 1;
      TaskPathsAgree(plan, intake, budget, all, batches[..n], tasks[..n]);
    }
  }

  lemma {:induction false} PathHasTask(tasks: seq<Task>, path: string) returns (k: nat)
    requires path in TaskPaths(tasks)
    ensures k < |tasks| && path in tasks[k].paths
  {
    var n := |tasks| - 1;
    if path in tasks[n].paths {
      k := n;
    } else {
      k := PathHasTask(tasks[..n], path);
    }
  }

  ghost function CarriedFacts(tasks: seq<Task>): set<string> {
    set k, f | 0 <= k < |tasks| && f in tasks[k].facts :: f
  }

  /** The task carries the fact and the confirmed facts it depends on. */
  ghost predicate CarriedBy(intake: Intake, task: Task, id: string) {
    id in task.facts && Closure(AllFacts(intake), {id}) * Ids(intake.facts) <= task.facts
  }

  /** Main theorem: every confirmed fact of a valid design is carried by some task, with the
      confirmed facts it depends on. */
  lemma NoFactLost(plan: Plan, intake: Intake, budget: Budget, batches: seq<Batch>, tasks: seq<Task>, id: string)
    requires ValidDesign(plan, intake) && plan.required != [] && id in Ids(intake.facts)
    requires TasksFor(plan, intake, budget, batches, tasks) && AllPaths(batches) == plan.required
    ensures exists k :: 0 <= k < |tasks| && CarriedBy(intake, tasks[k], id)
  {
    var path := FactReachesATask(plan, intake, id);
    TaskPathsAgree(plan, intake, budget, batches, batches, tasks);
    var k := PathHasTask(tasks, path);
    var paths := set p | p in tasks[k].paths;
    assert path in paths;
    ClosureIsClosed(AllFacts(intake), {id});
    assert TaskFor(plan, intake, budget, batches, k, tasks[k]);
  }

  /** All tasks could be made, and carry other facts than the confirmed ones. */
  ghost predicate FactsLost(plan: Plan, intake: Intake, budget: Budget, batches: seq<Batch>, e: AuthoringError) {
    && e == LostCoverage && WellGrouped(budget, batches) && AllPaths(batches) == plan.required
    && exists tasks :: TasksFor(plan, intake, budget, batches, tasks) && CarriedFacts(tasks) != Ids(intake.facts)
  }

  lemma {:induction false} BatchIsRequired(batches: seq<Batch>, k: nat, required: seq<string>)
    requires k < |batches| && AllPaths(batches) == required
    ensures forall p :: p in batches[k].paths ==> p in required
  {
    var n := |batches| - 1;
    if k < n {
      BatchIsRequired(batches[..n], k, AllPaths(batches[..n]));
    }
  }

  /** The tasks of a plan.  The two checks that nothing was lost never fail for a valid
      design. */
  method CompileTasks(plan: Plan, intake: Intake, budget: Budget)
    returns (r: Result<seq<Task>, AuthoringError>, ghost batches: seq<Batch>)
    ensures r == Err(BadManifest) <==> !Manifest(plan.required)
    ensures r.Ok? ==> WellGrouped(budget, batches) && TasksFor(plan, intake, budget, batches, r.value)
    ensures r.Ok? ==> TaskPaths(r.value) == plan.required && CarriedFacts(r.value) == Ids(intake.facts)
    ensures r.Err? ==>
      r.error == BadManifest || FactMissed(plan, intake, r.error) || FileTooLarge(plan, budget, r.error) ||
      BatchTooLarge(plan, budget, batches, r.error) || FactsLost(plan, intake, budget, batches, r.error)
    ensures Manifest(plan.required) && ValidDesign(plan, intake) && FactsResolve(intake) ==>
      r.Ok? || FileTooLarge(plan, budget, r.error) || BatchTooLarge(plan, budget, batches, r.error)
  {
    batches := [];
    if !Manifest(plan.required) {
      return Err(BadManifest), [];
    }
    var grouped := Group(plan, intake, budget);
    if grouped.Err? {
      return Err(grouped.error), [];
    }
    batches := grouped.value;
    var tasks: seq<Task> := [];
    for k := 0 to |grouped.value|
      invariant |tasks| == k && forall j :: 0 <= j < k ==> TaskFor(plan, intake, budget, batches, j, tasks[j])
    {
      var task := BuildTask(plan, intake, budget, grouped.value, k);
      if task.Err? {
        BatchIsRequired(batches, k, plan.required);
        return Err(task.error), batches;
      }
      tasks := tasks + [task.value];
    }
    TaskPathsAgree(plan, intake, budget, batches, batches, tasks);
    if ValidDesign(plan, intake) {
      forall id | id in Ids(intake.facts) ensures id in CarriedFacts(tasks) {
        NoFactLost(plan, intake, budget, batches, tasks, id);
      }
    }
    assert TasksFor(plan, intake, budget, batches, tasks);
    var carried := set k, f | 0 <= k < |tasks| && f in tasks[k].facts :: f;
    if TaskPaths(tasks) != plan.required || carried != Ids(intake.facts) {
      return Err(LostCoverage), batches;
    }
    return Ok(tasks), batches;
  }

  predicate Manifest(paths: seq<string>) {
    paths != [] && NoRepeats(paths)
  }

  method BuildTask(plan: Plan, intake: Intake, budget: Budget, batches: seq<Batch>, k: nat)
    returns (r: Result<Task, AuthoringError>)
    requires k < |batches|
    ensures r.Ok? ==> TaskFor(plan, intake, budget, batches, k, r.value)
    ensures r.Err? ==>
      (r.error.MissingFact? && Misses(plan, intake, batches[k].paths)) || ExceedsExact(budget, batches[k], r.error)
    ensures ValidDesign(plan, intake) && FactsResolve(intake) ==> r.Ok? || r.error.TooLarge?
  {
    var paths, compact := batches[k].paths, batches[k].compact;
    NoMissingFact(plan, intake, paths);
    var closure := FactClosure(AllFacts(intake), RelevantIds(plan, intake, set p | p in paths));
    if closure.Err? {
      return Err(closure.error);
    }
    if !budget.exact(paths, compact) {
      if compact || !budget.exact(paths, true) {
        return Err(TooLarge(paths));
      }
      compact := true;
    }
    return Ok(Task(TaskId(plan.digest, k), paths, k == |batches| - 1, compact, closure.value * Ids(intake.facts)));
  }

  // ----- The queue of tasks -----

  /** The one path a structured mesh is written to. */
  const MESH_PATH := "system/blockMeshDict"

  datatype BlockMesh = BlockMesh(description: string)

  datatype Response = Response(taskId: TaskId, files: seq<string>, typed: seq<string>, mesh: Option<BlockMesh>,
                               checks: seq<string>, deferNative: bool)

  function MeshList(mesh: Option<BlockMesh>): seq<BlockMesh> {
    match mesh
    case None => []
    case Some(m) => [m]
  }

  function MeshPaths(meshes: seq<BlockMesh>): seq<string> {
    seq(|meshes|, i => MESH_PATH)
  }

  function Authored(r: Response): seq<string> {
    r.files + r.typed + MeshPaths(MeshList(r.mesh))
  }

  function Elements(s: seq<string>): set<string> {
    set x | x in s
  }

  predicate NoRepeats(s: seq<string>) {
    forall i, j :: 0 <= i < j < |s| ==> s[i] != s[j]
  }

  /** The response authors exactly the files of its task. */
  predicate Covers(task: Task, r: Response) {
    r.taskId == task.id && Elements(Authored(r)) == Elements(task.paths) && NoRepeats(Authored(r))
  }

  /** The case assembled from all responses. */
  datatype Assembled = Assembled(files: seq<string>, typed: seq<string>, mesh: Option<BlockMesh>, checks: seq<string>)

  function Collected<T>(responses: seq<Response>, part: Response -> seq<T>): seq<T> {
    if responses == [] then [] else Collected(responses[..|responses| - 1], part) + part(responses[|responses| - 1])
  }

  function Files(responses: seq<Response>): seq<string> { Collected(responses, (r: Response) => r.files) }

  function Typed(responses: seq<Response>): seq<string> { Collected(responses, (r: Response) => r.typed) }

  function Checks(responses: seq<Response>): seq<string> { Collected(responses, (r: Response) => r.checks) }

  function Meshes(responses: seq<Response>): seq<BlockMesh> {
    Collected(responses, (r: Response) => MeshList(r.mesh))
  }

  /** The paths of an assembled case. */
  function CasePaths(c: Assembled): seq<string> {
    c.files + c.typed + MeshPaths(MeshList(c.mesh))
  }

  ghost predicate AllCover(tasks: seq<Task>, responses: seq<Response>) {
    |tasks| == |responses| && forall k :: 0 <= k < |tasks| ==> Covers(tasks[k], responses[k])
  }

  /** What the responses hold together is what the tasks asked for together. */
  lemma {:induction false} ResponsesCover(tasks: seq<Task>, responses: seq<Response>)
    requires AllCover(tasks, responses) && NoRepeats(TaskPaths(tasks))
    ensures multiset(Files(responses)) + multiset(Typed(responses)) + multiset(MeshPaths(Meshes(responses))) ==
            multiset(TaskPaths(tasks))
  {
    if tasks != [] {
      var n := |tasks| - 1;
      var meshes, last := Meshes(responses[..n]), MeshList(responses[n].mesh);
      TaskPathsDistinct(tasks, n);
      ResponsesCover(tasks[..n], responses[..n]);
      SameElements(Authored(responses[n]), tasks[n].paths);
      assert MeshPaths(meshes + last) == MeshPaths(meshes) + MeshPaths(last);
      CoverStep(Files(responses[..n]), Typed(responses[..n]), MeshPaths(meshes), TaskPaths(tasks[..n]),
                responses[n].files, responses[n].typed, MeshPaths(last), tasks[n].paths);
    }
  }

  lemma CoverStep(files: seq<string>, typed: seq<string>, meshes: seq<string>, paths: seq<string>,
                  moreFiles: seq<string>, moreTyped: seq<string>, moreMeshes: seq<string>, morePaths: seq<string>)
    requires multiset(files) + multiset(typed) + multiset(meshes) == multiset(paths)
    requires multiset(moreFiles + moreTyped + moreMeshes) == multiset(morePaths)
    ensures multiset(files + moreFiles) + multiset(typed + moreTyped) + multiset(meshes + moreMeshes) ==
      multiset(paths + morePaths)
  {}

  /** Main theorem: responses to the tasks of a manifest hold at most one structured mesh, so
      the test for a second one never fails. */
  lemma AtMostOneMesh(tasks: seq<Task>, responses: seq<Response>)
    requires AllCover(tasks, responses) && NoRepeats(TaskPaths(tasks))
    ensures |Meshes(responses)| <= 1
    ensures Meshes(responses) != [] <==>
      MESH_PATH in TaskPaths(tasks) && MESH_PATH !in Files(responses) && MESH_PATH !in Typed(responses)
  {
    var paths := MeshPaths(Meshes(responses));
    ResponsesCover(tasks, responses);
    CountOnce(TaskPaths(tasks), MESH_PATH);
    CountSame(paths, MESH_PATH);
  }

  lemma {:induction false} CountSame(s: seq<string>, x: string)
    requires forall i :: 0 <= i < |s| ==> s[i] == x
    ensures multiset(s)[x] == |s|
  {
    if s != [] {
      CountSame(s[..|s| - 1], x);
      assert s == s[..|s| - 1] + [x];
    }
  }

  lemma SameElements(a: seq<string>, b: seq<string>)
    requires NoRepeats(a) && NoRepeats(b) && Elements(a) == Elements(b)
    ensures multiset(a) == multiset(b)
  {
    forall x ensures multiset(a)[x] == multiset(b)[x] {
      CountOnce(a, x);
      CountOnce(b, x);
      assert x in Elements(a) <==> x in Elements(b);
    }
  }

  lemma {:induction false} CountOnce(s: seq<string>, x: string)
    requires NoRepeats(s)
    ensures multiset(s)[x] == if x in s then 1 else 0
  {
    if s != [] {
      var n := |s| - 1;
      CountOnce(s[..n], x);
      assert s == s[..n] + [s[n]];
    }
  }

  lemma {:induction false} TaskPathsDistinct(tasks: seq<Task>, k: nat)
    requires NoRepeats(TaskPaths(tasks)) && k < |tasks|
    ensures NoRepeats(tasks[k].paths) && NoRepeats(TaskPaths(tasks[..|tasks| - 1]))
  {
    var n := |tasks| - 1;
    PartsDistinct(TaskPaths(tasks[..n]), tasks[n].paths);
    if k < n {
      TaskPathsDistinct(tasks[..n], k);
    }
  }

  lemma PartsDistinct(a: seq<string>, b: seq<string>)
    requires NoRepeats(a + b)
    ensures NoRepeats(a) && NoRepeats(b)
  {
    forall i, j | 0 <= i < j < |a| ensures a[i] != a[j] {
      assert (a + b)[i] == a[i] && (a + b)[j] == a[j];
    }
    forall i, j | 0 <= i < j < |b| ensures b[i] != b[j] {
      assert (a + b)[|a| + i] == b[i] && (a + b)[|a| + j] == b[j];
    }
  }

  /** The first of each repeated string, in order. */
  function Unrepeated(s: seq<string>): (r: seq<string>)
    ensures NoRepeats(r) && forall x :: x in r <==> x in s
  {
    if s == [] then []
    else
      var n := |s| - 1;
      assert s == s[..n] + [s[n]];
      Unrepeated(s[..n]) + (if s[n] in s[..n] then [] else [s[n]])
  }

  /** The response covers the task, and only the final one supplies native commands. */
  predicate Answers(task: Task, r: Response) {
    Covers(task, r) && r.deferNative != task.isFinal
  }

  /** The first tasks have been answered. */
  ghost predicate Answered(tasks: seq<Task>, responses: seq<Response>) {
    |responses| <= |tasks| && forall k :: 0 <= k < |responses| ==> Answers(tasks[k], responses[k])
  }

  lemma OneMoreAnswered(tasks: seq<Task>, responses: seq<Response>, r: Response)
    requires Answered(tasks, responses) && |responses| < |tasks| && Answers(tasks[|responses|], r)
    ensures Answered(tasks, responses + [r])
  {}

  /** The case a finished queue stands for. */
  function Assemble(responses: seq<Response>): Assembled {
    var meshes := Meshes(responses);
    Assembled(Files(responses), Typed(responses), if meshes == [] then None else Some(meshes[0]),
              Unrepeated(Checks(responses)))
  }

  /** An assembled case holds exactly what the tasks asked for. */
  lemma AssembledPaths(tasks: seq<Task>, responses: seq<Response>)
    requires AllCover(tasks, responses) && NoRepeats(TaskPaths(tasks))
    ensures multiset(CasePaths(Assemble(responses))) == multiset(TaskPaths(tasks))
  {
    AtMostOneMesh(tasks, responses);
    ResponsesCover(tasks, responses);
    assert MeshList(Assemble(responses).mesh) == Meshes(responses);
  }

  /** Assemble the case of a finished queue and validate it. */
  method Finish(tasks: seq<Task>, responses: seq<Response>, validates: Assembled -> bool)
    returns (out: Result<Option<Assembled>, AuthoringError>)
    requires Answered(tasks, responses) && |responses| == |tasks| && NoRepeats(TaskPaths(tasks))
    ensures out == if validates(Assemble(responses)) then Ok(Some(Assemble(responses))) else Err(InvalidCase)
    ensures multiset(CasePaths(Assemble(responses))) == multiset(TaskPaths(tasks))
  {
    AtMostOneMesh(tasks, responses);
    if |Meshes(responses)| > 1 {
      // The program would report a second structured mesh here.
      assert false;
    }
    AssembledPaths(tasks, responses);
    var assembled := Assemble(responses);
    if !validates(assembled) {
      return Err(InvalidCase);
    }
    return Ok(Some(assembled));
  }

  class AuthoringQueue {
    const plan: string
    const tasks: seq<Task>
    var cursor: nat
    var responses: seq<Response>

    ghost predicate Valid()
      reads this
    {
      NoRepeats(TaskPaths(tasks)) && cursor == |responses| && Answered(tasks, responses)
    }

    constructor (plan: string, tasks: seq<Task>)
      requires NoRepeats(TaskPaths(tasks))
      ensures Valid() && this.plan == plan && this.tasks == tasks && cursor == 0
    {
      this.plan, this.tasks := plan, tasks;
      cursor, responses := 0, [];
    }

    /** A deep copy. */
    constructor Copy(queue: AuthoringQueue)
      requires queue.Valid()
      ensures Valid() && plan == queue.plan && tasks == queue.tasks && responses == queue.responses
    {
      plan, tasks, cursor, responses := queue.plan, queue.tasks, queue.cursor, queue.responses;
    }

    /** Whether the pending task takes the response, made for a plan with this digest. */
    predicate Takes(digest: string, r: Response)
      reads this
    {
      digest == plan && cursor < |tasks| && Answers(tasks[cursor], r)
    }

    /** Take the response of the pending task; with the last one, assemble the case and
        validate it.  Only that validation can fail after the response was stored. */
    method Accept(digest: string, r: Response, validates: Assembled -> bool)
      returns (out: Result<Option<Assembled>, AuthoringError>)
      requires Valid()
      modifies this`cursor, this`responses
      ensures Valid()
      ensures !old(Takes(digest, r)) ==> out.Err? && out.error != InvalidCase && responses == old(responses)
      ensures old(Takes(digest, r)) ==> responses == old(responses) + [r]
      ensures old(Takes(digest, r)) && cursor < |tasks| ==> out == Ok(None)
      ensures old(Takes(digest, r)) && cursor == |tasks| ==>
        out == if validates(Assemble(responses)) then Ok(Some(Assemble(responses))) else Err(InvalidCase)
      ensures out.Ok? && out.value.Some? ==> multiset(CasePaths(out.value.value)) == multiset(TaskPaths(tasks))
    {
      if digest != plan {
        return Err(PlanChanged);
      }
      if cursor >= |tasks| {
        return Err(NothingPending);
      }
      if !Covers(tasks[cursor], r) {
        return Err(CoverageMismatch);
      }
      if r.deferNative == tasks[cursor].isFinal {
        return Err(PipelineMisplaced);
      }
      OneMoreAnswered(tasks, responses, r);
      responses := responses + [r];
      cursor := cursor + 1;
      if cursor < |tasks| {
        return Ok(None);
      }
      out := Finish(tasks, responses, validates);
    }
  }

  /** The controller works on a copy of its queue and keeps the copy only on success. */
  class AuthoringController {
    var queue: AuthoringQueue

    constructor (queue: AuthoringQueue)
      requires queue.Valid()
      ensures this.queue == queue
    {
      this.queue := queue;
    }

    /** Submit a response.  Every refused one, also one refused after the last response was
        stored in the copy, leaves the queue as it was. */
    method Submit(digest: string, r: Response, validates: Assembled -> bool)
      returns (out: Result<Option<Assembled>, AuthoringError>)
      requires queue.Valid()
      modifies this
      ensures queue.Valid() && queue.plan == old(queue.plan) && queue.tasks == old(queue.tasks)
      ensures out.Err? ==> queue == old(queue) && queue.responses == old(queue.responses)
      ensures out.Ok? ==> old(queue.Takes(digest, r)) && queue.responses == old(queue.responses) + [r]
      ensures out.Ok? ==> (out.value.Some? <==> queue.cursor == |queue.tasks|)
      ensures out.Ok? && out.value.Some? ==>
        out.value.value == Assemble(queue.responses) && validates(out.value.value) &&
        multiset(CasePaths(out.value.value)) == multiset(TaskPaths(queue.tasks))
      ensures out.Err? <==>
        !old(queue.Takes(digest, r)) ||
        (old(queue.cursor) + 1 == |queue.tasks| && !validates(Assemble(old(queue.responses) + [r])))
    {
      var candidate := new AuthoringQueue.Copy(queue);
      out := candidate.Accept(digest, r, validates);
      if out.Ok? {
        queue := candidate;
      }
    }
  }

  /** Main theorem: a case assembled for the tasks of a manifest holds each required file
      exactly once. */
  lemma EachFileOnce(required: seq<string>, tasks: seq<Task>, c: Assembled, path: string)
    requires Manifest(required) && TaskPaths(tasks) == required
    requires multiset(CasePaths(c)) == multiset(TaskPaths(tasks))
    ensures multiset(CasePaths(c))[path] == if path in required then 1 else 0
  {
    CountOnce(required, path);
  }

  // ----- In plain words -----

  /** The last fact listed under an id depends on another. */
  ghost predicate Needs(facts: seq<Fact>, from: string, to: string) {
    exists i :: NeedsAt(facts, i, from, to)
  }

  predicate NeedsAt(facts: seq<Fact>, i: int, from: string, to: string) {
    0 <= i < |facts| && facts[i].id == from && to in facts[i].dependsOn &&
    forall j :: i < j < |facts| ==> facts[j].id != from
  }

  /** Each fact of the chain needs the next. */
  ghost predicate NeedChain(facts: seq<Fact>, v: seq<string>) {
    v != [] && forall k :: 0 < k < |v| ==> Needs(facts, v[k - 1], v[k])
  }

  /** A fact bears on files when a binding ties it to one of them or to no file in particular, or
      when it is confirmed and no binding ties it to a file. */
  ghost predicate BearsOn(plan: Plan, intake: Intake, paths: set<string>, id: string) {
    || (exists b :: b in plan.bindings && b.factId == id && (b.paths == {} || exists p :: p in b.paths && p in paths))
    || ((exists f :: f in intake.facts && f.id == id) &&
        forall b :: b in plan.bindings && b.factId == id ==> b.paths == {})
  }

  lemma {:induction false} ByIdExact(facts: seq<Fact>, from: string, to: string)
    ensures to in Dependencies(facts, from) <==> Needs(facts, from, to)
  {
    if facts != [] {
      var n := |facts| - 1;
      if facts[n].id == from {
        assert NeedsAt(facts, n, from, to) <==> to in facts[n].dependsOn;
        assert forall i :: NeedsAt(facts, i, from, to) ==> i == n;
      } else {
        ByIdExact(facts[..n], from, to);
        assert forall i :: NeedsAt(facts[..n], i, from, to) <==> NeedsAt(facts, i, from, to);
      }
    }
  }

  lemma BearsExact(plan: Plan, intake: Intake, paths: set<string>, id: string)
    ensures id in RelevantIds(plan, intake, paths) <==> BearsOn(plan, intake, paths, id)
  {
    forall b | b in plan.bindings
      ensures b.paths * paths != {} <==> exists p :: p in b.paths && p in paths
    {
      if p :| p in b.paths && p in paths {
        assert p in b.paths * paths;
      }
    }
    if f :| f in intake.facts && f.id == id {
      var i :| 0 <= i < |intake.facts| && intake.facts[i] == f;
      assert intake.facts[i].id in Ids(intake.facts);
    }
  }

  /** A chain of needs leads from one of the ids to this one. */
  ghost predicate Needed(facts: seq<Fact>, ids: set<string>, x: string) {
    exists v :: NeedChain(facts, v) && v[0] in ids && v[|v| - 1] == x
  }

  lemma NeededStep(facts: seq<Fact>, ids: set<string>, y: string, d: string)
    ensures y in ids ==> Needed(facts, ids, y)
    ensures Needed(facts, ids, y) && d in Dependencies(facts, y) ==> Needed(facts, ids, d)
  {
    if y in ids {
      assert NeedChain(facts, [y]) && [y][0] in ids && [y][|[y]| - 1] == y;
    }
    ByIdExact(facts, y, d);
    if v :| NeedChain(facts, v) && v[0] in ids && v[|v| - 1] == y && d in Dependencies(facts, y) {
      var longer := v + [d];
      assert NeedChain(facts, longer) && longer[0] in ids && longer[|longer| - 1] == d;
    }
  }

  /** What a closure holds is reached by a chain of needs from one of the ids. */
  lemma ClosureReached(facts: seq<Fact>, ids: set<string>, x: string)
    requires x in Closure(facts, ids)
    ensures Needed(facts, ids, x)
  {
    var s := set y | y in Closure(facts, ids) && Needed(facts, ids, y);
    ClosureIsClosed(facts, ids);
    forall y | y in ids ensures y in s {
      NeededStep(facts, ids, y, y);
    }
    forall y | y in s ensures Dependencies(facts, y) <= s {
      forall d | d in Dependencies(facts, y) ensures d in s {
        NeededStep(facts, ids, y, d);
      }
    }
    assert ClosedFrom(facts, ids, s);
  }

  lemma {:induction false} ChainInClosure(facts: seq<Fact>, ids: set<string>, v: seq<string>)
    requires NeedChain(facts, v) && v[0] in ids
    ensures v[|v| - 1] in Closure(facts, ids)
  {
    ClosureIsClosed(facts, ids);
    if |v| > 1 {
      var n := |v| - 1;
      ChainInClosure(facts, ids, v[..n]);
      assert Needs(facts, v[n - 1], v[n]) && v[..n][n - 1] == v[n - 1];
      ByIdExact(facts, v[n - 1], v[n]);
    }
  }

  /** Main theorem: a task carries exactly the confirmed facts that bear on its files or are
      needed, directly or not, by a fact that does. */
  lemma TaskFactsExact(plan: Plan, intake: Intake, paths: set<string>, id: string)
    ensures id in Projected(plan, intake, paths) <==>
      (exists f :: f in intake.facts && f.id == id) &&
      exists v :: NeedChain(AllFacts(intake), v) && BearsOn(plan, intake, paths, v[0]) && v[|v| - 1] == id
  {
    var facts, ids := AllFacts(intake), RelevantIds(plan, intake, paths);
    forall x ensures x in ids <==> BearsOn(plan, intake, paths, x) { BearsExact(plan, intake, paths, x); }
    if id in Closure(facts, ids) {
      ClosureReached(facts, ids, id);
    }
    if v :| NeedChain(facts, v) && BearsOn(plan, intake, paths, v[0]) && v[|v| - 1] == id {
      ChainInClosure(facts, ids, v);
    }
    if f :| f in intake.facts && f.id == id {
      var i :| 0 <= i < |intake.facts| && intake.facts[i] == f;
      assert intake.facts[i].id in Ids(intake.facts);
    }
  }

  /** The parts of an assembled case are those of the responses, one after the other; checks asked
      for more than once are made once. */
  lemma {:induction false} AssembledInTurn(first: seq<Response>, second: seq<Response>)
    ensures Assemble(first + second).files == Assemble(first).files + Assemble(second).files
    ensures Assemble(first + second).typed == Assemble(first).typed + Assemble(second).typed
    ensures Meshes(first + second) == Meshes(first) + Meshes(second)
    ensures Checks(first + second) == Checks(first) + Checks(second)
  {
    CollectedInTurn(first, second, (r: Response) => r.files);
    CollectedInTurn(first, second, (r: Response) => r.typed);
    CollectedInTurn(first, second, (r: Response) => r.checks);
    CollectedInTurn(first, second, (r: Response) => MeshList(r.mesh));
  }

  lemma {:induction false} CollectedInTurn<T>(first: seq<Response>, second: seq<Response>, part: Response -> seq<T>)
    ensures Collected(first + second, part) == Collected(first, part) + Collected(second, part)
  {
    if second == [] {
      assert first + second == first;
    } else {
      var n := |second| - 1;
      CollectedInTurn(first, second[..n], part);
      assert (first + second)[..|first + second| - 1] == first + second[..n];
    }
  }

  lemma OneResponse(r: Response)
    ensures Assemble([r]).files == r.files && Assemble([r]).typed == r.typed && Assemble([r]).mesh == r.mesh
    ensures Checks([r]) == r.checks
  {
    CollectedOne(r, (q: Response) => q.files);
    CollectedOne(r, (q: Response) => q.typed);
    CollectedOne(r, (q: Response) => q.checks);
    CollectedOne(r, (q: Response) => MeshList(q.mesh));
  }

  lemma CollectedOne<T>(r: Response, part: Response -> seq<T>)
    ensures Collected([r], part) == part(r)
  {
    assert [r][..0] == [];
    assert Collected([], part) == [];
  }

  /** No earlier check is equal. */
  predicate FirstCheck(s: seq<string>, i: nat)
    requires i < |s|
  {
    s[i] !in s[..i]
  }

  /** Ascending places of checks that are no repeats. */
  ghost predicate FirstPlaces(s: seq<string>, kept: seq<string>, places: seq<nat>) {
    && |places| == |kept|
    && (forall i, j :: 0 <= i < j < |places| ==> places[i] < places[j])
    && forall i :: 0 <= i < |places| ==> places[i] < |s| && kept[i] == s[places[i]] && FirstCheck(s, places[i])
  }

  lemma OneMoreCheck(s: seq<string>, x: string, kept: seq<string>, places: seq<nat>)
    requires FirstPlaces(s, kept, places)
    ensures FirstPlaces(s + [x], kept, places)
    ensures x !in s ==> FirstPlaces(s + [x], kept + [x], places + [|s|])
  {
    var more := s + [x];
    assert more[..|s|] == s;
    forall i | 0 <= i < |places| ensures FirstCheck(more, places[i]) && more[places[i]] == s[places[i]] {
      assert more[..places[i]] == s[..places[i]];
      assert FirstCheck(s, places[i]);
    }
  }

  /** Of equal checks the first is kept, and the order stays. */
  lemma {:induction false} ChecksKeptInOrder(s: seq<string>) returns (places: seq<nat>)
    ensures FirstPlaces(s, Unrepeated(s), places)
  {
    if s == [] {
      places := [];
    } else {
      var n := |s| - 1;
      var before := ChecksKeptInOrder(s[..n]);
      OneMoreCheck(s[..n], s[n], Unrepeated(s[..n]), before);
      assert s == s[..n] + [s[n]];
      places := if s[n] in s[..n] then before else before + [n];
    }
  }

  /** A response answers a task exactly when it names it, authors its files and no others, each once,
      and supplies native commands for the final task only. */
  lemma AnswersExact(task: Task, r: Response)
    ensures Answers(task, r) <==>
      r.taskId == task.id && (forall p :: p in task.paths <==> Authors(r, p)) && AuthorsOnce(r) &&
      (r.deferNative <==> !task.isFinal)
  {
    forall p ensures p in Elements(Authored(r)) <==> Authors(r, p) { AuthoredExact(r, p); }
    OnceExact(r);
    if r.taskId == task.id && (forall p :: p in task.paths <==> Authors(r, p)) {
      assert Elements(Authored(r)) == Elements(task.paths);
    }
    if Answers(task, r) {
      forall p ensures p in task.paths <==> Authors(r, p) {
        assert p in Elements(task.paths) <==> p in task.paths;
      }
    }
  }

  lemma AuthoredExact(r: Response, p: string)
    ensures p in Elements(Authored(r)) <==> Authors(r, p)
  {
    MeshPathsExact(r);
  }

  lemma MeshPathsExact(r: Response)
    ensures MeshPaths(MeshList(r.mesh)) == if r.mesh.Some? then ["system/blockMeshDict"] else []
  {}

  lemma SharedRepeats(a: seq<string>, b: seq<string>, p: string)
    requires p in a && p in b
    ensures !NoRepeats(a + b)
  {
    var i :| 0 <= i < |a| && a[i] == p;
    var j :| 0 <= j < |b| && b[j] == p;
    assert (a + b)[i] == (a + b)[|a| + j];
  }

  lemma ApartExact(a: seq<string>, b: seq<string>)
    ensures NoRepeats(a + b) <==> NoRepeats(a) && NoRepeats(b) && forall p :: p in a ==> p !in b
  {
    var all := a + b;
    if NoRepeats(all) {
      PartsDistinct(a, b);
    }
    forall p | p in a && p in b ensures !NoRepeats(all) {
      SharedRepeats(a, b, p);
    }
    if NoRepeats(a) && NoRepeats(b) && forall p :: p in a ==> p !in b {
      forall i, j | 0 <= i < j < |all| ensures all[i] != all[j] {
        if i < |a| && |a| <= j {
          assert a[i] in a && b[j - |a|] in b;
        }
      }
    }
  }

  lemma OnceExact(r: Response)
    ensures NoRepeats(Authored(r)) <==> AuthorsOnce(r)
  {
    MeshPathsExact(r);
    ApartExact(r.files, r.typed);
    ApartExact(r.files + r.typed, MeshPaths(MeshList(r.mesh)));
  }

  predicate Authors(r: Response, path: string) {
    path in r.files || path in r.typed || (r.mesh.Some? && path == "system/blockMeshDict")
  }

  /** No file is listed twice, in two ways, or besides being the structured mesh. */
  predicate AuthorsOnce(r: Response) {
    && (forall i, j :: 0 <= i < j < |r.files| ==> r.files[i] != r.files[j])
    && (forall i, j :: 0 <= i < j < |r.typed| ==> r.typed[i] != r.typed[j])
    && (forall p :: p in r.files ==> p !in r.typed)
    && (r.mesh.Some? ==> "system/blockMeshDict" !in r.files + r.typed)
  }
}
