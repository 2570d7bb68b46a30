/** Which files a mesh digest covers, in terms of paths, of chains of operations that feed each
    other and of includes that follow each other.

    Nothing here is defined by the program's graph search or include scan; the theorems say that
    these find exactly what the chains and walks reach. */
module MeshCoverage {
  import opened Wrappers
  import opened ExecutionScopes
  import opened MeshDependencies
  import Evidence = MeshEvidence

  // ----- Paths, chains and walks -----

  /** The folder itself or something in it. */
  predicate In(path: string, folder: string) {
    path == folder || folder + "/" <= path
  }

  /** One of the two contains the other. */
  predicate Touch(a: string, b: string) {
    In(a, b) || In(b, a)
  }

  /** Where a region's mesh lies. */
  function MeshFolder(region: string): string {
    if region == "" then "constant/polyMesh" else "constant/" + region + "/polyMesh"
  }

  /** The earlier operation writes what the later one reads. */
  ghost predicate Feeds(ops: seq<Operation>, i: nat, j: nat) {
    i < j < |ops| && exists p, q :: p in ops[j].inputs && q in ops[i].outputs && Touch(p, q)
  }

  /** The operation names the region or writes where its mesh lies. */
  ghost predicate MakesMesh(op: Operation, region: string) {
    region in op.regions || exists p :: p in op.outputs && Touch(MeshFolder(region), p)
  }

  /** Operations that feed each other, the last of which makes the mesh. */
  ghost predicate Chain(ops: seq<Operation>, region: string, w: seq<nat>) {
    && w != [] && w[|w| - 1] < |ops| && MakesMesh(ops[w[|w| - 1]], region)
    && forall k :: 0 < k < |w| ==> Feeds(ops, w[k - 1], w[k])
  }

  /** The mesh folder, and what operations of such chains read or write. */
  ghost predicate Base(ops: seq<Operation>, region: string, path: string) {
    path == MeshFolder(region) ||
    exists w :: Chain(ops, region, w) && w[0] < |ops| && path in ops[w[0]].inputs + ops[w[0]].outputs
  }

  ghost predicate Includes(ws: Workspace, includes: IncludeReader, from: string, to: string) {
    from in ws && includes(from, ws[from]).Some? && to in includes(from, ws[from]).value
  }

  /** Paths that include each other, from a base or a file below one. */
  ghost predicate Walk(ops: seq<Operation>, ws: Workspace, includes: IncludeReader, region: string, v: seq<string>) {
    && v != []
    && (exists b :: Base(ops, region, b) && (v[0] == b || (v[0] in ws && In(v[0], b))))
    && forall k :: 0 < k < |v| ==> Includes(ws, includes, v[k - 1], v[k])
  }

  /** A base, or a path that a walk of includes ends in. */
  ghost predicate Depends(ops: seq<Operation>, ws: Workspace, includes: IncludeReader, region: string, path: string) {
    Base(ops, region, path) ||
    exists v :: Walk(ops, ws, includes, region, v) && |v| > 1 && v[|v| - 1] == path
  }

  /** The file is or lies in something the region's mesh depends on. */
  ghost predicate Matters(ops: seq<Operation>, ws: Workspace, includes: IncludeReader, region: string, file: string) {
    exists path :: Depends(ops, ws, includes, region, path) && In(file, path)
  }

  // ----- They are what the program finds -----

  lemma UnderIsIn(path: string, folder: string)
    ensures Under(path, folder) <==> In(path, folder)
  {
    BelowWritten(path, folder);
  }

  lemma OverlapIsTouch(a: string, b: string)
    ensures Overlap(a, b) <==> Touch(a, b)
  {
    UnderIsIn(a, b);
    UnderIsIn(b, a);
  }

  lemma ParentFeeds(ops: seq<Operation>, i: nat, j: nat)
    requires Chronological(ops) && j < |ops|
    ensures i < j && i in ops[j].parents <==> Feeds(ops, i, j)
  {
    forall p, q ensures Overlap(p, q) <==> Touch(p, q) { OverlapIsTouch(p, q); }
    assert ops[j].parents == Producers(ops[..j], ops[j].inputs);
  }

  lemma TargetsMakesMesh(op: Operation, region: string)
    ensures Targets(op, region) <==> MakesMesh(op, region)
  {
    forall p ensures Overlap(Sink(region), p) <==> Touch(MeshFolder(region), p) { OverlapIsTouch(Sink(region), p); }
  }

  /** An operation is in the ancestry exactly when a chain starts with it. */
  lemma {:induction false} AncestorChain(ops: seq<Operation>, region: string, i: nat)
    requires Chronological(ops) && Ancestor(ops, region, i)
    ensures exists w :: Chain(ops, region, w) && w[0] == i
    decreases |ops| - i
  {
    TargetsMakesMesh(ops[i], region);
    if Targets(ops[i], region) {
      assert Chain(ops, region, [i]);
    } else {
      var j: nat :| i < j < |ops| && i in ops[j].parents && Ancestor(ops, region, j);
      ParentFeeds(ops, i, j);
      AncestorChain(ops, region, j);
      var w :| Chain(ops, region, w) && w[0] == j;
      assert Chain(ops, region, [i] + w);
    }
  }

  lemma {:induction false} ChainAncestor(ops: seq<Operation>, region: string, w: seq<nat>)
    requires Chronological(ops) && Chain(ops, region, w)
    ensures Ancestor(ops, region, w[0])
    decreases |w|
  {
    if |w| == 1 {
      TargetsMakesMesh(ops[w[0]], region);
    } else {
      assert Chain(ops, region, w[1..]);
      ChainAncestor(ops, region, w[1..]);
      assert Feeds(ops, w[0], w[1]);
      ParentFeeds(ops, w[0], w[1]);
    }
  }

  lemma {:induction false} AncestryMembers(ops: seq<Operation>, region: string, n: nat, op: Operation)
    requires n <= |ops|
    ensures op in Ancestry(ops, region, n) <==> exists i: nat :: i < n && Ancestor(ops, region, i) && ops[i] == op
  {
    if n > 0 {
      AncestryMembers(ops, region, n - 1, op);
    }
  }

  lemma RootIsBase(ops: seq<Operation>, region: string, path: string)
    requires Chronological(ops)
    ensures path in Roots(Ancestry(ops, region, |ops|), region) <==> Base(ops, region, path)
  {
    var nodes := Ancestry(ops, region, |ops|);
    if k :| 0 <= k < |nodes| && path in nodes[k].inputs + nodes[k].outputs {
      AncestryMembers(ops, region, |ops|, nodes[k]);
      var i: nat :| i < |ops| && Ancestor(ops, region, i) && ops[i] == nodes[k];
      AncestorChain(ops, region, i);
    }
    if w :| Chain(ops, region, w) && w[0] < |ops| && path in ops[w[0]].inputs + ops[w[0]].outputs {
      ChainAncestor(ops, region, w);
      AncestryMembers(ops, region, |ops|, ops[w[0]]);
      var k :| 0 <= k < |nodes| && nodes[k] == ops[w[0]];
      assert path in nodes[k].inputs + nodes[k].outputs;
    }
  }

  /** A path a walk ends in. */
  ghost predicate Reached(ops: seq<Operation>, ws: Workspace, includes: IncludeReader, region: string, x: string) {
    exists v :: Walk(ops, ws, includes, region, v) && v[|v| - 1] == x
  }

  lemma StartReached(ops: seq<Operation>, ws: Workspace, includes: IncludeReader, region: string, x: string)
    requires Chronological(ops)
    ensures x in Start(ws, Roots(Ancestry(ops, region, |ops|), region)) <==>
      Walk(ops, ws, includes, region, [x])
  {
    var roots := Roots(Ancestry(ops, region, |ops|), region);
    forall r ensures r in roots <==> Base(ops, region, r) { RootIsBase(ops, region, r); }
    forall r ensures Under(x, r) <==> In(x, r) { UnderIsIn(x, r); }
    if b :| Base(ops, region, b) && (x == b || (x in ws && In(x, b))) {
      assert b in roots;
    }
    if x in Start(ws, roots) {
      var b :| b in roots && (x == b || (x in ws && Below(x, b)));
      assert Base(ops, region, b) && (x == b || (x in ws && In(x, b)));
    }
  }

  lemma WalkOn(ops: seq<Operation>, ws: Workspace, includes: IncludeReader, region: string, v: seq<string>, to: string)
    requires Walk(ops, ws, includes, region, v) && Includes(ws, includes, v[|v| - 1], to)
    ensures Walk(ops, ws, includes, region, v + [to])
  {}

  /** The include closure is what the walks reach. */
  lemma ClosureReached(ops: seq<Operation>, ws: Workspace, includes: IncludeReader, region: string, x: string)
    requires Chronological(ops)
    requires x in Closure(ws, includes, Roots(Ancestry(ops, region, |ops|), region))
    ensures Reached(ops, ws, includes, region, x)
  {
    var roots := Roots(Ancestry(ops, region, |ops|), region);
    var s := set y | y in Universe(ws, includes, roots) && Reached(ops, ws, includes, region, y);
    forall y | y in Start(ws, roots) ensures y in s {
      StartReached(ops, ws, includes, region, y);
      assert [y][|[y]| - 1] == y;
    }
    forall y, c | y in s && c in Children(ws, includes, y) ensures c in s {
      var v :| Walk(ops, ws, includes, region, v) && v[|v| - 1] == y;
      WalkOn(ops, ws, includes, region, v, c);
      assert (v + [c])[|v + [c]| - 1] == c;
    }
    ClosureIsLeast(ws, includes, roots, s);
  }

  lemma {:induction false} WalkInClosure(ops: seq<Operation>, ws: Workspace, includes: IncludeReader, region: string,
                                         v: seq<string>)
    requires Chronological(ops) && Walk(ops, ws, includes, region, v)
    ensures v[|v| - 1] in Closure(ws, includes, Roots(Ancestry(ops, region, |ops|), region))
  {
    var roots := Roots(Ancestry(ops, region, |ops|), region);
    ClosureIsClosed(ws, includes, roots);
    if |v| == 1 {
      assert v == [v[0]];
      StartReached(ops, ws, includes, region, v[0]);
    } else {
      var n := |v| - 1;
      WalkInClosure(ops, ws, includes, region, v[..n]);
      assert Includes(ws, includes, v[n - 1], v[n]) && v[..n][n - 1] == v[n - 1];
      assert v[n] in Children(ws, includes, v[n - 1]);
    }
  }

  lemma DependencyExact(ops: seq<Operation>, ws: Workspace, includes: IncludeReader, region: string, path: string)
    requires Chronological(ops)
    ensures path in Dependencies(ops, ws, includes, region) <==> Depends(ops, ws, includes, region, path)
  {
    var roots := Roots(Ancestry(ops, region, |ops|), region);
    RootIsBase(ops, region, path);
    if x :| x in Closure(ws, includes, roots) && path in Children(ws, includes, x) {
      ClosureReached(ops, ws, includes, region, x);
      var v :| Walk(ops, ws, includes, region, v) && v[|v| - 1] == x;
      WalkOn(ops, ws, includes, region, v, path);
      assert (v + [path])[|v + [path]| - 1] == path;
    }
    if v :| Walk(ops, ws, includes, region, v) && |v| > 1 && v[|v| - 1] == path {
      var n := |v| - 1;
      assert Walk(ops, ws, includes, region, v[..n]);
      WalkInClosure(ops, ws, includes, region, v[..n]);
      assert Includes(ws, includes, v[n - 1], v[n]) && v[..n][n - 1] == v[n - 1];
      assert path in Children(ws, includes, v[n - 1]);
    }
  }

  /** Main theorem: a digest covers exactly the files that matter. */
  lemma CoverageExact(ops: seq<Operation>, ws: Workspace, includes: IncludeReader, region: string, file: string)
    requires Chronological(ops)
    ensures Covered(Dependencies(ops, ws, includes, region), file) <==> Matters(ops, ws, includes, region, file)
  {
    forall path
      ensures path in Dependencies(ops, ws, includes, region) <==> Depends(ops, ws, includes, region, path)
      ensures Under(file, path) <==> In(file, path)
    {
      DependencyExact(ops, ws, includes, region, path);
      UnderIsIn(file, path);
    }
  }

  // ----- Edits -----

  ghost predicate OnlyDiffersAt(a: Workspace, b: Workspace, file: string) {
    && !SameFile(a, b, file)
    && forall f :: f != file ==> SameFile(a, b, f)
  }

  /** The file is absent from both or has the same content in both. */
  predicate SameFile(a: Workspace, b: Workspace, file: string) {
    (file in a <==> file in b) && (file in a ==> a[file] == b[file])
  }

  /** Main theorem: creating, editing or deleting one file changes a digest exactly when the
      file matters. */
  lemma EditShows(ops: seq<Operation>, a: Workspace, b: Workspace, includes: IncludeReader, region: string,
                  file: string)
    requires Chronological(ops) && OnlyDiffersAt(a, b, file)
    ensures Digest(ops, a, includes, region) != Digest(ops, b, includes, region) <==>
      Matters(ops, a, includes, region, file)
  {
    forall f ensures SameFile(a, b, f) <==> Get(a, f) == Get(b, f) {}
    EditChangesDigestIffCovered(ops, a, b, includes, region, file);
    CoverageExact(ops, a, includes, region, file);
  }

  lemma MeshFileMatters(ops: seq<Operation>, ws: Workspace, includes: IncludeReader, region: string, file: string)
    requires In(file, if region == "" then "constant/polyMesh" else "constant/" + region + "/polyMesh")
    ensures Matters(ops, ws, includes, region, file)
  {
    assert Base(ops, region, MeshFolder(region));
    assert Depends(ops, ws, includes, region, MeshFolder(region));
  }

  /** Whatever was recorded, digests of a region differ when a file of its mesh does. */
  lemma MeshFileShows(ops: seq<Operation>, a: Workspace, later: seq<Operation>, b: Workspace, includes: IncludeReader,
                      region: string, file: string)
    requires Chronological(ops) && !SameFile(a, b, file)
    requires In(file, if region == "" then "constant/polyMesh" else "constant/" + region + "/polyMesh")
    ensures Digest(ops, a, includes, region) != Digest(later, b, includes, region)
  {
    MeshFileMatters(ops, a, includes, region, file);
    CoverageExact(ops, a, includes, region, file);
    assert Get(a, file) != Get(b, file);
    DigestIsExact(ops, a, later, b, includes, region);
  }

  /** Main theorem: after a passing check whose digest could be computed, failures are reported
      until the next check whenever a file that mattered at that check differs. */
  lemma StaleUntilChecked(ctx: Evidence.Context, start: Evidence.World, h: seq<Evidence.Event>, c: nat, s: Scope,
                          file: string)
    requires Evidence.Fresh(start) && s in ctx.scopes && c < |h| && Evidence.Checks(ctx, h[c], s)
    requires Evidence.DigestAt(ctx, start, h, c, s).Some?
    requires forall j :: c < j < |h| ==> !Evidence.Checks(ctx, h[j], s)
    requires Matters(Evidence.Run(ctx, start, h, c).ops, Evidence.Run(ctx, start, h, c).ws, ctx.includes, Name(s), file)
    requires !SameFile(Evidence.Run(ctx, start, h, c).ws, Evidence.Run(ctx, start, h, |h|).ws, file)
    ensures Evidence.FailuresFrom(ctx, Evidence.Run(ctx, start, h, |h|), 0) != Some([])
  {
    ChangedSince(ctx, start, h, c, s, file);
    if Evidence.FailuresFrom(ctx, Evidence.Run(ctx, start, h, |h|), 0) == Some([]) {
      Evidence.UnchangedSinceLastCheck(ctx, start, h, s, c);
    }
  }

  lemma ChangedSince(ctx: Evidence.Context, start: Evidence.World, h: seq<Evidence.Event>, c: nat, s: Scope,
                     file: string)
    requires Evidence.Fresh(start) && c <= |h|
    requires Matters(Evidence.Run(ctx, start, h, c).ops, Evidence.Run(ctx, start, h, c).ws, ctx.includes, Name(s), file)
    requires !SameFile(Evidence.Run(ctx, start, h, c).ws, Evidence.Run(ctx, start, h, |h|).ws, file)
    ensures !Evidence.UnchangedSince(ctx, start, h, c, |h|, s)
  {
    var at, now := Evidence.Run(ctx, start, h, c), Evidence.Run(ctx, start, h, |h|);
    Evidence.OpsGrow(ctx, start, h, 0, c);
    CoverageExact(at.ops, at.ws, ctx.includes, Name(s), file);
    assert Get(at.ws, file) != Get(now.ws, file);
  }
}
