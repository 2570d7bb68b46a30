/** The dependency graph behind mesh evidence: a chronological list of native operations,
    the ancestry of a region's mesh, the files it depends on, and a digest of all that.

    File contents steer the dependencies, because include directives are followed.  The main
    theorem says the digest is nevertheless exact: it changes when, and only when, the
    ancestry or a covered file changes. */
module MeshDependencies {
  import opened Wrappers
  import opened FiniteSets
  import opened ExecutionScopes

  // ----- Paths and files -----

  /** Case files by normalized path.  A path covers itself and everything below it. */
  type Workspace = map<string, string>

  /** The path starts with the root and a slash. */
  predicate Below(path: string, root: string) {
    |root| < |path| && path[|root|] == '/' && forall i :: 0 <= i < |root| ==> path[i] == root[i]
  }

  predicate Under(path: string, root: string) {
    path == root || Below(path, root)
  }

  predicate Overlap(a: string, b: string) {
    Under(a, b) || Under(b, a)
  }

  /** The files a file includes, resolved inside the case; None when one of them leaves it.
      Files that cannot be scanned include nothing. */
  type IncludeReader = (string, string) -> Option<set<string>>

  function Get(ws: Workspace, path: string): Option<string> {
    if path in ws then Some(ws[path]) else None
  }

  // ----- Operations -----

  datatype Operation = Operation(id: nat, inputs: set<string>, outputs: set<string>, parents: set<nat>,
                                 regions: set<string>, command: Command, conservative: bool)

  function Sink(region: string): string {
    if region == "" then "constant/polyMesh" else "constant/" + region + "/polyMesh"
  }

  predicate AnyOverlap(a: set<string>, b: set<string>) {
    exists p, q :: p in a && q in b && Overlap(p, q)
  }

  /** Some path of one set is one of the other's, or is a folder above it or below it. */
  ghost predicate Meet(a: set<string>, b: set<string>) {
    exists p, q :: p in a && q in b && (p == q || p + "/" <= q || q + "/" <= p)
  }

  lemma BelowWritten(path: string, folder: string)
    ensures Below(path, folder) <==> folder + "/" <= path
  {
    if folder + "/" <= path || Below(path, folder) {
      assert path[..|folder| + 1] == folder + "/";
    }
  }

  lemma OverlapsMeet(a: set<string>, b: set<string>)
    ensures AnyOverlap(a, b) <==> Meet(a, b)
  {
    forall p, q ensures Overlap(p, q) <==> p == q || p + "/" <= q || q + "/" <= p {
      BelowWritten(p, q);
      BelowWritten(q, p);
    }
  }

  /** Ids are positions, and parents are exactly the earlier producers of an input. */
  ghost predicate Chronological(ops: seq<Operation>) {
    forall i: nat :: i < |ops| ==> ops[i].id == i && ops[i].parents == Producers(ops[..i], ops[i].inputs)
  }

  ghost function Producers(ops: seq<Operation>, inputs: set<string>): set<nat> {
    set j: nat | j < |ops| && AnyOverlap(inputs, ops[j].outputs)
  }

  /** The operation that registering these paths appends. */
  ghost function Registered(ops: seq<Operation>, inputs: set<string>, outputs: set<string>, regions: set<string>,
                            command: Command, conservative: bool): Operation {
    Operation(|ops|, inputs, outputs, Producers(ops, inputs), regions, command, conservative)
  }

  /** The operation names the region or writes over its mesh. */
  predicate Targets(op: Operation, region: string) {
    region in op.regions || exists p :: p in op.outputs && Overlap(Sink(region), p)
  }

  /** The operation made the region's mesh, or made something that went into it. */
  ghost predicate Ancestor(ops: seq<Operation>, region: string, i: nat)
    decreases |ops| - i
  {
    i < |ops| &&
    (Targets(ops[i], region) || exists j: nat :: i < j < |ops| && i in ops[j].parents && Ancestor(ops, region, j))
  }

  /** The region's ancestry among the first n operations, in order. */
  ghost function Ancestry(ops: seq<Operation>, region: string, n: nat): seq<Operation>
    requires n <= |ops|
  {
    if n == 0 then []
    else Ancestry(ops, region, n - 1) + (if Ancestor(ops, region, n - 1) then [ops[n - 1]] else [])
  }

  /** The mesh itself and everything its ancestry reads or writes. */
  ghost function Roots(nodes: seq<Operation>, region: string): set<string> {
    {Sink(region)} + set i, p | 0 <= i < |nodes| && p in nodes[i].inputs + nodes[i].outputs :: p
  }

  // ----- Include closure -----

  ghost function Children(ws: Workspace, includes: IncludeReader, path: string): set<string> {
    if path in ws && includes(path, ws[path]).Some? then includes(path, ws[path]).value else {}
  }

  /** Where scanning starts: the roots and every file below one. */
  ghost function Start(ws: Workspace, roots: set<string>): set<string> {
    roots + set f | f in ws && exists r :: r in roots && Below(f, r)
  }

  ghost predicate ClosedUnderIncludes(ws: Workspace, includes: IncludeReader, roots: set<string>, s: set<string>) {
    Start(ws, roots) <= s && forall x :: x in s ==> Children(ws, includes, x) <= s
  }

  ghost function Universe(ws: Workspace, includes: IncludeReader, roots: set<string>): set<string> {
    Start(ws, roots) + set f, c | f in ws && c in Children(ws, includes, f) :: c
  }

  /** The least set closed under following includes. */
  ghost function Closure(ws: Workspace, includes: IncludeReader, roots: set<string>): set<string> {
    set x | x in Universe(ws, includes, roots) &&
      forall s: set<string> :: ClosedUnderIncludes(ws, includes, roots, s) ==> x in s
  }

  lemma ClosureIsClosed(ws: Workspace, includes: IncludeReader, roots: set<string>)
    ensures ClosedUnderIncludes(ws, includes, roots, Closure(ws, includes, roots))
  {
    var c := Closure(ws, includes, roots);
    forall x | x in Start(ws, roots) ensures x in c {
      forall s: set<string> | ClosedUnderIncludes(ws, includes, roots, s) ensures x in s {}
    }
    forall x, y | x in c && y in Children(ws, includes, x) ensures y in c {
      assert x in ws;
      forall s: set<string> | ClosedUnderIncludes(ws, includes, roots, s) ensures y in s {
        assert x in s && Children(ws, includes, x) <= s;
      }
    }
  }

  lemma ClosureIsLeast(ws: Workspace, includes: IncludeReader, roots: set<string>, s: set<string>)
    requires ClosedUnderIncludes(ws, includes, roots, s)
    ensures Closure(ws, includes, roots) <= s
  {}

  /** Paths the digest covers: the roots and every included path. */
  ghost function DependencyPaths(ws: Workspace, includes: IncludeReader, roots: set<string>): set<string> {
    roots + set x, c | x in Closure(ws, includes, roots) && c in Children(ws, includes, x) :: c
  }

  ghost predicate Covered(paths: set<string>, file: string) {
    exists p :: p in paths && Under(file, p)
  }

  /** Two workspaces hold the same covered files with the same contents. */
  ghost predicate AgreeUnder(paths: set<string>, a: Workspace, b: Workspace) {
    forall f :: Covered(paths, f) ==> Get(a, f) == Get(b, f)
  }

  /** No include followed from the roots leaves the case. */
  ghost predicate IncludesStayInside(ws: Workspace, includes: IncludeReader, roots: set<string>) {
    forall x :: x in Closure(ws, includes, roots) && x in ws ==> includes(x, ws[x]).Some?
  }

  /** Everything that is scanned is covered. */
  lemma ClosureCovered(ws: Workspace, includes: IncludeReader, roots: set<string>)
    ensures forall x :: x in Closure(ws, includes, roots) ==> Covered(DependencyPaths(ws, includes, roots), x)
  {
    var paths, c := DependencyPaths(ws, includes, roots), Closure(ws, includes, roots);
    var covered := set x | x in c && Covered(paths, x);
    ClosureIsClosed(ws, includes, roots);
    forall x | x in Start(ws, roots) ensures x in covered {
      if x in roots {
        assert Under(x, x);
      } else {
        var r :| r in roots && Below(x, r);
        assert r in paths && Under(x, r);
      }
    }
    forall x, y | x in covered && y in Children(ws, includes, x) ensures y in covered {
      assert y in paths && Under(y, y);
    }
    ClosureIsLeast(ws, includes, roots, covered);
  }

  lemma SameStart(a: Workspace, b: Workspace, roots: set<string>, paths: set<string>)
    requires roots <= paths && AgreeUnder(paths, a, b)
    ensures Start(a, roots) == Start(b, roots)
  {
    forall f, r | r in roots && Below(f, r) ensures f in a <==> f in b {
      assert r in paths && Under(f, r);
      assert Covered(paths, f);
    }
  }

  /** Workspaces that agree on the covered files have the same include closure. */
  lemma SameClosure(a: Workspace, b: Workspace, includes: IncludeReader, roots: set<string>)
    requires AgreeUnder(DependencyPaths(a, includes, roots), a, b)
    ensures Closure(a, includes, roots) == Closure(b, includes, roots)
    ensures forall x :: x in Closure(a, includes, roots) ==> Children(a, includes, x) == Children(b, includes, x)
  {
    var paths, ca, cb := DependencyPaths(a, includes, roots), Closure(a, includes, roots), Closure(b, includes, roots);
    ClosureCovered(a, includes, roots);
    SameStart(a, b, roots, paths);
    ClosureIsClosed(a, includes, roots);
    ClosureIsClosed(b, includes, roots);
    forall x | x in ca ensures Children(a, includes, x) == Children(b, includes, x) {
      assert Covered(paths, x) && Get(a, x) == Get(b, x);
    }
    assert ClosedUnderIncludes(b, includes, roots, ca);
    ClosureIsLeast(b, includes, roots, ca);
    assert ClosedUnderIncludes(a, includes, roots, cb);
    ClosureIsLeast(a, includes, roots, cb);
  }

  // ----- The digest -----

  /** A digest is taken to determine what it was computed from. */
  datatype MeshDigest = MeshDigest(region: string, nodes: seq<Operation>, artifacts: map<string, Workspace>)

  ghost function Matching(ws: Workspace, path: string): Workspace {
    map f | f in ws && Under(f, path) :: ws[f]
  }

  ghost function Artifacts(ws: Workspace, paths: set<string>): map<string, Workspace> {
    map p | p in paths :: Matching(ws, p)
  }

  lemma SameRecords(ws: Workspace, paths: set<string>, artifacts: map<string, Workspace>)
    requires artifacts == map p | p in paths :: map f | f in ws && Under(f, p) :: ws[f]
    ensures artifacts == Artifacts(ws, paths)
  {
    forall p | p in paths ensures artifacts[p] == Matching(ws, p) {}
  }

  ghost function Digest(ops: seq<Operation>, ws: Workspace, includes: IncludeReader, region: string): MeshDigest {
    var nodes := Ancestry(ops, region, |ops|);
    var paths := DependencyPaths(ws, includes, Roots(nodes, region));
    MeshDigest(region, nodes, Artifacts(ws, paths))
  }

  /** The files the digest of a region depends on. */
  ghost function Dependencies(ops: seq<Operation>, ws: Workspace, includes: IncludeReader, region: string): set<string>
  {
    DependencyPaths(ws, includes, Roots(Ancestry(ops, region, |ops|), region))
  }

  lemma MatchingAgrees(a: Workspace, b: Workspace, path: string)
    ensures Matching(a, path) == Matching(b, path) <==> forall f :: Under(f, path) ==> Get(a, f) == Get(b, f)
  {
    if Matching(a, path) == Matching(b, path) {
      forall f | Under(f, path) ensures Get(a, f) == Get(b, f) {
        assert f in a <==> f in Matching(a, path);
        assert f in b <==> f in Matching(b, path);
        assert f in a && f in b ==> Matching(a, path)[f] == Matching(b, path)[f];
      }
    }
    if forall f :: Under(f, path) ==> Get(a, f) == Get(b, f) {
      forall f | Under(f, path) ensures f in a <==> f in b {
        assert Get(a, f) == Get(b, f);
      }
      forall f | f in Matching(a, path) ensures Matching(a, path)[f] == Matching(b, path)[f] {
        assert Get(a, f) == Get(b, f);
      }
      assert Matching(a, path).Keys == Matching(b, path).Keys;
    }
  }

  lemma SameArtifactsAgree(a: Workspace, b: Workspace, paths: set<string>)
    requires Artifacts(a, paths) == Artifacts(b, paths)
    ensures AgreeUnder(paths, a, b)
  {
    forall f | Covered(paths, f) ensures Get(a, f) == Get(b, f) {
      var p :| p in paths && Under(f, p);
      assert Artifacts(a, paths)[p] == Artifacts(b, paths)[p];
      MatchingAgrees(a, b, p);
    }
  }

  lemma AgreementSameArtifacts(a: Workspace, b: Workspace, paths: set<string>)
    requires AgreeUnder(paths, a, b)
    ensures Artifacts(a, paths) == Artifacts(b, paths)
  {
    forall p | p in paths ensures Matching(a, p) == Matching(b, p) {
      forall f | Under(f, p) ensures Get(a, f) == Get(b, f) {
        assert Covered(paths, f);
      }
      MatchingAgrees(a, b, p);
    }
  }

  lemma SameDependencies(a: Workspace, b: Workspace, includes: IncludeReader, roots: set<string>)
    requires AgreeUnder(DependencyPaths(a, includes, roots), a, b)
    ensures DependencyPaths(a, includes, roots) == DependencyPaths(b, includes, roots)
  {
    SameClosure(a, b, includes, roots);
  }

  /** Main theorem: two digests of a region are equal exactly when the mesh has the same
      ancestry and the covered files are the same. */
  lemma DigestIsExact(ops1: seq<Operation>, ws1: Workspace, ops2: seq<Operation>, ws2: Workspace,
                      includes: IncludeReader, region: string)
    ensures (Digest(ops1, ws1, includes, region) == Digest(ops2, ws2, includes, region)) ==
      (Ancestry(ops1, region, |ops1|) == Ancestry(ops2, region, |ops2|) &&
       AgreeUnder(Dependencies(ops1, ws1, includes, region), ws1, ws2))
  {
    var d1, d2 := Digest(ops1, ws1, includes, region), Digest(ops2, ws2, includes, region);
    var paths := Dependencies(ops1, ws1, includes, region);
    if d1 == d2 {
      assert d1.artifacts.Keys == d2.artifacts.Keys;
      SameArtifactsAgree(ws1, ws2, paths);
    }
    if d1.nodes == d2.nodes && AgreeUnder(paths, ws1, ws2) {
      SameDependencies(ws1, ws2, includes, Roots(d1.nodes, region));
      AgreementSameArtifacts(ws1, ws2, paths);
    }
  }

  /** Creating, editing or deleting one file changes the digest exactly when the file is
      covered. */
  lemma EditChangesDigestIffCovered(ops: seq<Operation>, before: Workspace, after: Workspace, includes: IncludeReader,
                                    region: string, file: string)
    requires Get(before, file) != Get(after, file)
    requires forall f :: f != file ==> Get(before, f) == Get(after, f)
    ensures Digest(ops, before, includes, region) != Digest(ops, after, includes, region) <==>
            Covered(Dependencies(ops, before, includes, region), file)
  {
    DigestIsExact(ops, before, ops, after, includes, region);
  }

  // ----- New operations -----

  /** An operation that does not touch the region's mesh adds no ancestor. */
  lemma {:induction false} AncestorsKept(ops: seq<Operation>, op: Operation, region: string, i: nat)
    requires i < |ops| && !Targets(op, region)
    ensures Ancestor(ops + [op], region, i) <==> Ancestor(ops, region, i)
    decreases |ops| - i
  {
    var all := ops + [op];
    assert !Ancestor(all, region, |ops|);
    forall j: nat | i < j < |ops| ensures Ancestor(all, region, j) <==> Ancestor(ops, region, j) {
      AncestorsKept(ops, op, region, j);
    }
    assert Targets(all[i], region) <==> Targets(ops[i], region);
    if Ancestor(ops, region, i) && !Targets(ops[i], region) {
      var j: nat :| i < j < |ops| && i in ops[j].parents && Ancestor(ops, region, j);
      assert all[j] == ops[j];
    }
    if Ancestor(all, region, i) && !Targets(all[i], region) {
      var j: nat :| i < j < |all| && i in all[j].parents && Ancestor(all, region, j);
      assert all[j] == ops[j];
    }
  }

  lemma {:induction false} AncestryKept(ops: seq<Operation>, op: Operation, region: string, n: nat)
    requires n <= |ops| && !Targets(op, region)
    ensures Ancestry(ops + [op], region, n) == Ancestry(ops, region, n)
  {
    if n > 0 {
      AncestryKept(ops, op, region, n - 1);
      AncestorsKept(ops, op, region, n - 1);
    }
  }

  lemma {:induction false} AncestryIds(ops: seq<Operation>, region: string, n: nat)
    requires n <= |ops| && Chronological(ops)
    ensures forall k :: 0 <= k < |Ancestry(ops, region, n)| ==> Ancestry(ops, region, n)[k].id < n
  {
    if n > 0 {
      AncestryIds(ops, region, n - 1);
    }
  }

  /** Main theorem: recording an operation changes a region's digest exactly when it targets
      the region or writes over its mesh, even if no file changed. */
  lemma OperationChangesDigest(ops: seq<Operation>, op: Operation, ws: Workspace, includes: IncludeReader,
                               region: string)
    requires Chronological(ops) && Chronological(ops + [op])
    ensures Digest(ops + [op], ws, includes, region) != Digest(ops, ws, includes, region) <==> Targets(op, region)
  {
    var all := ops + [op];
    if Targets(op, region) {
      assert Targets(all[|ops|], region) && Ancestor(all, region, |ops|);
      var nodes := Ancestry(all, region, |all|);
      assert nodes[|nodes| - 1] == op && op.id == |ops|;
      AncestryIds(ops, region, |ops|);
    } else {
      AncestryKept(ops, op, region, |ops|);
      assert !Ancestor(all, region, |ops|);
      DigestIsExact(ops, ws, all, ws, includes, region);
    }
  }

  // ----- The graph object -----

  datatype GraphError = NoOutputs | InvalidPath(path: string) | HistoryLimit | IncludeEscapes(path: string)

  const HISTORY_LIMIT: nat := 10000

  class MeshDependencyGraph {
    var operations: seq<Operation>

    ghost predicate Valid()
      reads this
    {
      Chronological(operations) && |operations| <= HISTORY_LIMIT
    }

    constructor ()
      ensures Valid() && operations == []
    {
      operations := [];
    }

    /** Append one operation; its parents are the earlier producers of its inputs. */
    method Register(inputs: set<string>, outputs: set<string>, regions: set<string>, command: Command,
                    conservative: bool, pathOk: string -> bool)
      returns (r: Result<(), GraphError>)
      requires Valid()
      modifies this
      ensures Valid()
      ensures r.Ok? <==>
        (outputs != {} && |old(operations)| < 10000 && forall p :: p in inputs + outputs ==> pathOk(p))
      ensures r.Err? ==> operations == old(operations)
      ensures r.Ok? ==>
        operations == old(operations) + [Registered(old(operations), inputs, outputs, regions, command, conservative)]
      ensures r.Ok? ==> var op := operations[|old(operations)|];
        op.inputs == inputs && op.outputs == outputs && op.regions == regions && op.command == command &&
        op.conservative == conservative &&
        forall j: nat :: j in op.parents <==> j < |old(operations)| && Meet(inputs, old(operations)[j].outputs)
    {
      forall j: nat | j < |operations| ensures AnyOverlap(inputs, operations[j].outputs) <==>
                                               Meet(inputs, operations[j].outputs)
      {
        OverlapsMeet(inputs, operations[j].outputs);
      }
      if p :| p in inputs + outputs && !pathOk(p) {
        return Err(InvalidPath(p));
      }
      if outputs == {} {
        return Err(NoOutputs);
      }
      if |operations| >= HISTORY_LIMIT {
        return Err(HistoryLimit);
      }
      var parents: set<nat> := {};
      for i := 0 to |operations|
        invariant operations == old(operations)
        invariant parents == Producers(operations[..i], inputs)
      {
        if AnyOverlap(inputs, operations[i].outputs) {
          parents := parents + {operations[i].id};
        }
        ProducersStep(operations, inputs, i);
      }
      assert operations[..|operations|] == operations;
      ghost var before := operations;
      var op := Operation(|operations|, inputs, outputs, parents, regions, command, conservative);
      operations := operations + [op];
      forall i: nat | i < |operations|
        ensures operations[i].id == i && operations[i].parents == Producers(operations[..i], operations[i].inputs)
      {
        assert operations[..i] == before[..i];
      }
      return Ok(());
    }

    /** The ids in the ancestry of a region, by a worklist over parents. */
    method SelectAncestors(region: string) returns (selected: set<nat>)
      requires Valid()
      ensures selected == set i: nat | i < |operations| && Ancestor(operations, region, i)
    {
      selected := set i: nat | i < |operations| && Targets(operations[i], region);
      var todo := selected;
      while todo != {}
        invariant todo <= selected
        invariant forall i :: i in selected ==> i < |operations| && Ancestor(operations, region, i)
        invariant forall i: nat :: i < |operations| && Targets(operations[i], region) ==> i in selected
        invariant forall i, p :: i in selected && i !in todo && p in operations[i].parents ==> p in selected
        decreases |operations| - |selected|, |todo|
      {
        var i :| i in todo;
        todo := todo - {i};
        ParentsAreAncestors(operations, region, i);
        var added := operations[i].parents - selected;
        SizeBelow(selected + added, |operations|);
        selected := selected + added;
        todo := todo + added;
      }
      forall i: nat | i < |operations| && Ancestor(operations, region, i) ensures i in selected {
        AncestorsInClosedSet(operations, region, selected, i);
      }
    }

    /** Follow include directives from the roots.  Fails exactly when one leaves the case. */
    method FollowIncludes(ws: Workspace, includes: IncludeReader, roots: set<string>)
      returns (r: Result<set<string>, GraphError>)
      ensures r.Ok? <==> IncludesStayInside(ws, includes, roots)
      ensures r.Ok? ==> r.value == DependencyPaths(ws, includes, roots)
    {
      ghost var closure := Closure(ws, includes, roots);
      ClosureIsClosed(ws, includes, roots);
      ghost var seen: set<string>;
      r, seen := Scan(ws, includes, roots, closure);
      if r.Ok? {
        ScanDone(ws, includes, roots, seen, r.value);
      }
    }

    /** The scan itself, inside any set closed under includes. */
    method Scan(ws: Workspace, includes: IncludeReader, roots: set<string>, ghost closure: set<string>)
      returns (r: Result<set<string>, GraphError>, ghost seen: set<string>)
      requires ClosedUnderIncludes(ws, includes, roots, closure)
      ensures r.Ok? ==> Scanning(ws, includes, roots, closure, {}, seen, r.value)
      ensures r.Err? ==> exists x :: x in closure && x in ws && includes(x, ws[x]).None?
    {
      var todo := roots + set f | f in ws && exists r :: r in roots && Below(f, r);
      var paths, visited := roots, {};
      ScanStart(ws, includes, roots, closure);
      while todo != {}
        invariant Scanning(ws, includes, roots, closure, todo, visited, paths)
        decreases closure - visited, |todo|
      {
        var x :| x in todo;
        InClosure(ws, includes, roots, closure, todo, visited, paths, x);
        if x in ws && includes(x, ws[x]).None? {
          return Err(IncludeEscapes(x)), visited;
        }
        var children := if x in ws then includes(x, ws[x]).value else {};
        ScanStep(ws, includes, roots, closure, todo, visited, paths, x, children);
        if x in visited {
          todo := todo - {x};
        } else {
          todo, visited, paths := todo - {x} + children, visited + {x}, paths + children;
        }
      }
      return Ok(paths), visited;
    }

    /** The dependency paths of a region and its ancestry; fails exactly when an include
        leaves the case. */
    method FindDependencies(ws: Workspace, includes: IncludeReader, region: string)
      returns (r: Result<(set<string>, seq<Operation>), GraphError>)
      requires Valid()
      ensures r.Ok? <==> IncludesStayInside(ws, includes, Roots(Ancestry(operations, region, |operations|), region))
      ensures r.Ok? ==>
        r.value == (Dependencies(operations, ws, includes, region), Ancestry(operations, region, |operations|))
    {
      var selected := SelectAncestors(region);
      var nodes: seq<Operation> := [];
      var roots := {Sink(region)};
      for i := 0 to |operations|
        invariant nodes == Ancestry(operations, region, i)
        invariant roots == Roots(nodes, region)
      {
        if i in selected {
          RootsStep(nodes, region, operations[i]);
          nodes := nodes + [operations[i]];
          roots := roots + operations[i].inputs + operations[i].outputs;
        }
      }
      var followed := FollowIncludes(ws, includes, roots);
      match followed
      case Err(e) =>
        return Err(e);
      case Ok(paths) =>
        return Ok((paths, nodes));
    }

    /** The digest of a region; fails exactly when an include leaves the case. */
    method ComputeDigest(ws: Workspace, includes: IncludeReader, region: string)
      returns (r: Result<MeshDigest, GraphError>)
      requires Valid()
      ensures r.Ok? <==> IncludesStayInside(ws, includes, Roots(Ancestry(operations, region, |operations|), region))
      ensures r.Ok? ==> r.value == Digest(operations, ws, includes, region)
    {
      var found := FindDependencies(ws, includes, region);
      match found
      case Err(e) =>
        return Err(e);
      case Ok((paths, nodes)) =>
        var artifacts := map p | p in paths :: map f | f in ws && Under(f, p) :: ws[f];
        SameRecords(ws, paths, artifacts);
        return Ok(MeshDigest(region, nodes, artifacts));
    }
  }

  lemma RootsStep(nodes: seq<Operation>, region: string, op: Operation)
    ensures Roots(nodes + [op], region) == Roots(nodes, region) + op.inputs + op.outputs
  {
    var more := nodes + [op];
    forall p | p in op.inputs + op.outputs ensures p in Roots(more, region) {
      assert more[|nodes|] == op;
    }
    forall p | p in Roots(nodes, region) ensures p in Roots(more, region) {
      if p != Sink(region) {
        var i :| 0 <= i < |nodes| && p in nodes[i].inputs + nodes[i].outputs;
        assert more[i] == nodes[i];
      }
    }
  }

  /** The state of the include scan: what was seen has been followed, and nothing outside a
      closed set was reached. */
  ghost predicate Scanning(ws: Workspace, includes: IncludeReader, roots: set<string>, closure: set<string>,
                           todo: set<string>, seen: set<string>, paths: set<string>) {
    && Start(ws, roots) <= todo + seen <= closure
    && (forall x :: x in seen ==> Children(ws, includes, x) <= todo + seen)
    && (forall x :: x in seen && x in ws ==> includes(x, ws[x]).Some?)
    && paths == roots + set x, c | x in seen && c in Children(ws, includes, x) :: c
  }

  lemma ScanStart(ws: Workspace, includes: IncludeReader, roots: set<string>, closure: set<string>)
    requires ClosedUnderIncludes(ws, includes, roots, closure)
    ensures Scanning(ws, includes, roots, closure, Start(ws, roots), {}, roots)
  {}

  lemma InClosure(ws: Workspace, includes: IncludeReader, roots: set<string>, closure: set<string>,
                  todo: set<string>, seen: set<string>, paths: set<string>, x: string)
    requires Scanning(ws, includes, roots, closure, todo, seen, paths) && x in todo
    ensures x in closure
  {}

  lemma ScanStep(ws: Workspace, includes: IncludeReader, roots: set<string>, closure: set<string>,
                 todo: set<string>, seen: set<string>, paths: set<string>, x: string, children: set<string>)
    requires ClosedUnderIncludes(ws, includes, roots, closure)
    requires Scanning(ws, includes, roots, closure, todo, seen, paths) && x in todo
    requires x in ws ==> includes(x, ws[x]).Some?
    requires children == Children(ws, includes, x)
    ensures x in seen ==> Scanning(ws, includes, roots, closure, todo - {x}, seen, paths)
    ensures x !in seen ==> Scanning(ws, includes, roots, closure, todo - {x} + children, seen + {x}, paths + children)
  {}

  lemma ScanDone(ws: Workspace, includes: IncludeReader, roots: set<string>, seen: set<string>, paths: set<string>)
    requires Scanning(ws, includes, roots, Closure(ws, includes, roots), {}, seen, paths)
    ensures paths == DependencyPaths(ws, includes, roots) && IncludesStayInside(ws, includes, roots)
  {
    ClosureIsLeast(ws, includes, roots, seen);
    assert seen == Closure(ws, includes, roots);
  }

  lemma ProducersStep(ops: seq<Operation>, inputs: set<string>, i: nat)
    requires i < |ops|
    ensures Producers(ops[..i + 1], inputs) ==
      Producers(ops[..i], inputs) + (if AnyOverlap(inputs, ops[i].outputs) then {i} else {})
  {
    forall j: nat | j < i ensures ops[..i + 1][j] == ops[..i][j] {}
  }

  lemma ParentsAreAncestors(ops: seq<Operation>, region: string, i: nat)
    requires Chronological(ops) && Ancestor(ops, region, i)
    ensures forall p :: p in ops[i].parents ==> p < i && Ancestor(ops, region, p)
  {
    assert ops[i].parents == Producers(ops[..i], ops[i].inputs);
  }

  lemma {:induction false} AncestorsInClosedSet(ops: seq<Operation>, region: string, s: set<nat>, i: nat)
    requires i < |ops| && Ancestor(ops, region, i)
    requires forall k: nat :: k < |ops| && Targets(ops[k], region) ==> k in s
    requires forall k: nat, p :: k in s && k < |ops| && p in ops[k].parents ==> p in s
    ensures i in s
    decreases |ops| - i
  {
    if !Targets(ops[i], region) {
      var j: nat :| i < j < |ops| && i in ops[j].parents && Ancestor(ops, region, j);
      AncestorsInClosedSet(ops, region, s, j);
    }
  }
}
