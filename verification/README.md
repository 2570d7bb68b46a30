# Verification of the OpenFOAM agent's deterministic cores

The agent lets a language model propose OpenFOAM cases, repairs and analyses, and lets
deterministic code decide what is current, allowed, ordered and true. This project models that
code in Dafny and proves what it is for. `dafny verify dfyconfig.toml` checks everything.

What the agent updates in place is a class or a loop proved against a specification function:
the mesh dependency graph, mesh evidence, repair authorization, the authoring queue, the evidence
ledger. What it computes is a function. The theorems are about those functions, over all inputs
and over all runs. Under "In plain words", and in the files named rules, coverage and volumes, what a
function computes is stated once more without it: in paths, words, corners or numbers.

- **Mesh freshness** (`mesh_dependencies.dfy`, `mesh_coverage.dfy`, `mesh_evidence.dfy`,
  `execution_scopes.dfy`): the
  digest of a region's mesh is exact, and evidence that is reported current is current after
  every run of edits, native commands, checks and invalidations, with the one exception
  described below.
- **Edits of a committed case** (`exact_patch.dfy`, `case_edits.dfy`, `delta_consumers.dfy`,
  `case_delta.dfy`, `delta_execution.dfy`, `delta_validation.dfy`): when edits are accepted, which
  commands must follow, exactly when a scope that is not revalidated keeps its digest and its
  evidence, and exactly when no failure is left after commit, run and validation.
- **Builds** (`dependency_order.dfy`, `case_build.dfy`): the stable order of commands and the
  coverage of the file manifest.
- **Runtime repairs** (`foam_text.dfy`, `foam_comments.dfy`, `foam_printing.dfy`, `foam_payloads.dfy`,
  `foam_words.dfy`, `repair_approval.dfy`, `repair_rules.dfy`, `repair_bounds.dfy`): comments are removed
  and nothing else, the dictionary reader inverts printing, repairs are accepted exactly within the
  approver's rule, no history of accepted repairs
  leaves what was approved, and exactly when a repair can exceed the one before it.
- **Meshes and conservation** (`mesh_geometry.dfy`, `mesh_assembly.dfy`, `mesh_rules.dfy`,
  `mesh_volumes.dfy`, `conservation.dfy`, `region_balance.dfy`): which meshes are accepted and with
  which volume, edge bookkeeping implies geometric closure, volumes do not depend on the
  origin, and passing intervals and interfaces bound the balance of a region, and of all regions
  together, over a whole window.
- **Time series** (`time_series.dfy`, `time_statistics.dfy`, `series_difference.dfy`,
  `oscillation.dfy`): restarts, windows, exact integrals, differences and frequencies.
- **Protocols** (`transport_schema.dfy`, `tuple_losses.dfy`, `strict_schema.dfy`, `flat_schemas.dfy`, `authoring.dfy`,
  `evidence_gaps.dfy`, `evidence_selection.dfy`): schema rewrites, partition and reassembly of
  authoring, and the ledger of evidence gaps.

`wrappers.dfy`, `finite_sets.dfy` and `finite_sums.dfy` hold what several modules share.

## Conventions

Numbers are exact reals. A hash is an injective constructor. A workspace is a map from normalized
paths to contents. Exceptions are results, and what a raised exception leaves behind is part of
the contract. Tool contracts, number parsing, name patterns, content policies and prompt sizes are
given functions.

## What the proofs showed

- A passing check is stored before its digest is computed. When that digest fails, the previous
  digest stays, so evidence can be reported current although files changed since the last check
  (`MeshEvidence.EvidenceCanOutliveLastCheck`). It cannot exactly when the last check's digest
  was computable (`MeshEvidence.UnchangedSinceLastCheck`). In the model a digest fails only on an
  include that leaves the case; the agent may not write includes itself, so such a file comes from
  a native tool or the user.
- An exact patch is unambiguous in every text exactly when the text it looks for does not overlap
  itself (`ExactPatch.CountOneUniqueIffBorderless`): matches are counted without overlap.
- The choice of follow-up commands depends on the order of candidates only if two candidates
  share a command but write different paths (`DeltaConsumers.SharedCommandDependsOnOrder`). In the
  shipped tool contracts no tool is both an inferred consumer and a delta consumer.
- The cycle report of the ordering lists everything behind a cycle, not only the commands on it
  (`DependencyOrder.OrderedOrBehindCycle`).
- A repair is measured against the text on disk. With the approved timestep 4 and a repair to 1
  authorized, a repair to 2 is authorized once the approved text is back
  (`RepairBounds.RaisedAfterRestore`). Some repair above the last authorized number is accepted
  exactly when the text on disk is the approved or the authorized one and is above it already
  (`RepairBounds.RaisesIffDiskDoes`). While repairs meet no such text, no number ever rises again
  (`RepairBounds.HistoryNotRaised`), and none ever exceeds the approved one
  (`RepairBounds.HistoryWithinApproval`).
- A command that writes or initializes is recorded on the scopes it targets when it runs, but does
  not count as affecting their meshes when a delta is compiled. A delta that runs `setFields` is
  accepted with every scope reused, and running it changes the digest of each
  (`DeltaExecution.CompileLoneHint`, `DeltaExecution.SetFieldsMakesReusedScopeStale`). A reused scope
  survives exactly the runs that have no such command on it, write no mesh over its mesh, and leave
  the files its mesh depends on as committed (`DeltaExecution.PipelineSparesReused`). The last
  condition is one of its own: a mesh command on one scope may write a file that the mesh of another
  was made from.
- Removing a plain tuple from a schema can lose a document exactly when some reachable position
  implies no entry that is kept, or elements after the tuple can be reached and no kept entry
  accepts everything (`TupleLosses.LosslessExact`). An unbounded tuple of text loses one, and so does
  the tuple of the constants 1 and true
  (`TupleLosses.UnboundedTupleNarrows`, `TupleLosses.BlurredConstantsNarrow`).
- A dictionary key that contains a dot cannot be named by a dotted path
  (`FoamPrinting.JoinedPathSplits`).
- The strict pass needs no assumption on property names to be safe, but a property called
  default makes it accept no object (`StrictSchema.StrictMembersExact`).
- Authoring responses that cover their tasks never hold a second structured mesh, since a mesh has
  one path and the tasks name each path once, so the program's test for one never fires
  (`Authoring.AtMostOneMesh`).

## Model

| member | source | states |
|---|---|---|
| `MeshDependencies.DigestIsExact` | src/openfoam_agent/contracts/mesh_dependencies.py:120-161 | Two digests of a region are equal exactly when the region has the same operation ancestry and every covered file has the same presence and content, although file contents steer which files are covered. |
| `MeshDependencies.EditChangesDigestIffCovered` | src/openfoam_agent/contracts/mesh_dependencies.py:154-161 | Creating, editing or deleting one file changes a digest exactly when the file lies under a dependency path. |
| `MeshDependencies.OperationChangesDigest` | src/openfoam_agent/contracts/mesh_dependencies.py:55-63 | Recording an operation changes the digest of a region exactly when it names the region or writes over its mesh, with every file unchanged. |
| `MeshDependencies.SameClosure` | src/openfoam_agent/contracts/mesh_dependencies.py:131-152 | Workspaces that agree on the covered files follow the same includes. |
| `MeshDependencies.ClosureCovered` | src/openfoam_agent/contracts/mesh_dependencies.py:131-159 | Every file the include scan reads is itself covered by the digest. |
| `MeshDependencies.MeshDependencyGraph.Register` | src/openfoam_agent/contracts/mesh_dependencies.py:55-64 | Accepted exactly for valid paths, some output and room in the history; then one operation is appended whose parents are exactly the earlier producers of an input, and otherwise nothing changes. |
| `MeshDependencies.MeshDependencyGraph.SelectAncestors` | src/openfoam_agent/contracts/mesh_dependencies.py:120-126 | The worklist selects exactly the operations that made the mesh or fed one that did. |
| `MeshDependencies.MeshDependencyGraph.FollowIncludes` | src/openfoam_agent/contracts/mesh_dependencies.py:131-152 | The include worklist fails exactly when a reachable include leaves the case, and otherwise returns the roots and every path included from the least include-closed set. |
| `MeshDependencies.MeshDependencyGraph.FindDependencies` | src/openfoam_agent/contracts/mesh_dependencies.py:120-152 | The dependency paths and the chronological ancestry of a region, or the failure of an escaping include. |
| `MeshDependencies.MeshDependencyGraph.ComputeDigest` | src/openfoam_agent/contracts/mesh_dependencies.py:154-161 | The digest the theorems are about, or the failure of an escaping include. |
| `MeshCoverage.CoverageExact` | src/openfoam_agent/contracts/mesh_dependencies.py:120-159 | A digest covers exactly the files in the mesh folder, in what an operation reads or writes from which a chain of feeding operations leads to the mesh, or in what a walk of includes reaches from these. |
| `MeshCoverage.EditShows` | src/openfoam_agent/contracts/mesh_dependencies.py:154-161 | Creating, editing or deleting one file changes a digest exactly when the file matters in that sense. |
| `MeshCoverage.MeshFileShows` | src/openfoam_agent/contracts/mesh_dependencies.py:120-128 | Whatever was recorded, digests of a region differ when a file in constant/REGION/polyMesh, or in constant/polyMesh for the root, does. |
| `MeshCoverage.StaleUntilChecked` | src/openfoam_agent/contracts/execution_scopes.py:326-348 | After a passing check with a digest, failures are reported until the next check when a file that mattered then differs. |
| `ExecutionScopes.KeysDistinct` | src/openfoam_agent/contracts/execution_scopes.py:29-30 | Different scopes have different keys. |
| `ExecutionScopes.KeyRoundTrip` | src/openfoam_agent/contracts/execution_scopes.py:29-41 | Text reads as a scope exactly when it is the scope's key and the region's name is allowed. |
| `ExecutionScopes.RegionSelected` | src/openfoam_agent/tools/native_contracts.py:74-93 | An invocation selects a region exactly when it has one selector, not combined with all regions, followed by an allowed name. |
| `ExecutionScopes.BoundScopeExact` | src/openfoam_agent/contracts/execution_scopes.py:115-124 | An invocation is bound to the region it selects, or to the root without a selector, when that is declared exactly once. |
| `MeshEvidence.EvidenceHolds` | src/openfoam_agent/contracts/execution_scopes.py:326-348 | After any run, no reported failure means that the last check of each declared scope passed within the cell limit, and that nothing its mesh depends on changed since the last check whose digest could be computed. |
| `MeshEvidence.UnchangedSinceLastCheck` | src/openfoam_agent/engineering/agent.py:609-620 | With no failure reported, nothing changed since the last check itself exactly when that check's digest could be computed. |
| `MeshEvidence.EvidenceCanOutliveLastCheck` | src/openfoam_agent/engineering/agent.py:609-620 | A concrete run in which evidence outlives the last check: the new check is stored, its digest fails on an escaping include, and the old digest stays. |
| `MeshEvidence.NativeMakesStale` | src/openfoam_agent/contracts/mesh_dependencies.py:72-112 | Once a recorded native command targets a scope, failures are reported until that scope is checked again, whatever the files are. |
| `MeshEvidence.InvalidateIsExact` | src/openfoam_agent/engineering/agent.py:587-607 | After a successful invalidation every kept digest is the current one, exactly the scopes with a current digest keep theirs, evidence goes exactly with its digest, and a second invalidation changes nothing. |
| `MeshEvidence.EvidenceTraced` | src/openfoam_agent/engineering/agent.py:609-615 | Stored evidence of a scope is the result of its last check in the run. |
| `MeshEvidence.ManifestTraced` | src/openfoam_agent/engineering/agent.py:609-619 | A stored digest was computed at a passing check, and every later check passed without a computable digest. |
| `MeshEvidence.NoFailures` | src/openfoam_agent/contracts/execution_scopes.py:326-348 | The failure list is empty exactly when every scope has passing evidence within the limit and its digest is the stored one. |
| `MeshEvidence.FailuresExact` | src/openfoam_agent/contracts/execution_scopes.py:326-348 | Each reported failure says what is wrong with a declared scope: no check, a failed one, more cells than allowed, or another digest; and everything wrong is reported. |
| `MeshEvidence.RecordedExact` | src/openfoam_agent/contracts/mesh_dependencies.py:72-112 | A native operation names the scopes it is on, reads the declared paths or all of 0, system and constant, and writes the declared paths or the meshes of those scopes. |
| `MeshEvidence.EvidenceState.RecordNative` | src/openfoam_agent/contracts/mesh_dependencies.py:72-112 | Appends the operation of a native command on the one scope it selects or on all scopes, with rendered or conservative paths; fails without a change for an undeclared region, bad paths or a full history. |
| `MeshEvidence.EvidenceState.RecordScopeMesh` | src/openfoam_agent/engineering/agent.py:609-620 | Stores the check and binds, drops or keeps the digest; its error cases are exact. |
| `MeshEvidence.EvidenceState.FindStale` | src/openfoam_agent/engineering/agent.py:594-598 | The keys whose scope is gone or whose digest changed; fails exactly when a needed digest does. |
| `MeshEvidence.EvidenceState.Invalidate` | src/openfoam_agent/engineering/agent.py:587-607 | Drops exactly the stale evidence and, if there is any, the seal and every approval; changes nothing when a digest fails. |
| `MeshEvidence.EvidenceState.CurrentFailures` | src/openfoam_agent/contracts/execution_scopes.py:326-348 | The failures of every declared scope in order. |
| `DeltaConsumers.ChainWithinClosed` | src/openfoam_agent/contracts/execution_scopes.py:305-318 | Nothing is selected that some closed set of consumers does without. |
| `DeltaConsumers.SweptIsClosed` | src/openfoam_agent/contracts/execution_scopes.py:305-318 | When a command has one meaning, the selection is closed under being triggered by a changed path, an explicit output or a selected output. |
| `DeltaConsumers.SelectionMonotone` | src/openfoam_agent/contracts/execution_scopes.py:251-318 | More changed paths select more, and the order of the candidates does not matter. |
| `DeltaConsumers.SharedCommandDependsOnOrder` | src/openfoam_agent/contracts/execution_scopes.py:260-276 | Two candidates for one command that write different paths can make the selection depend on their order: a setting and candidates for which it does. |
| `DeltaConsumers.ChainMembers` | src/openfoam_agent/contracts/execution_scopes.py:305-316 | Every selected command is a candidate, repeats nothing that was done before, and is selected once. |
| `DeltaConsumers.Sweep` | src/openfoam_agent/contracts/execution_scopes.py:306-316 | One pass: what it adds was triggered and is new, and a pass that adds nothing leaves nothing triggered. |
| `DeltaConsumers.SweepCandidates` | src/openfoam_agent/contracts/execution_scopes.py:305-318 | Sweeping terminates; each command is selected once, after something that triggers it, and no triggered command is left. |
| `DeltaConsumers.AutoConsumers` | src/openfoam_agent/contracts/execution_scopes.py:251-318 | Fails exactly when a command cannot be bound, and otherwise returns such a selection over the candidates no explicit command replaces. |
| `DeltaConsumers.SelectionExact` | src/openfoam_agent/contracts/execution_scopes.py:251-318 | Each selected command is a candidate that no explicit command replaces by name and region, and reads something that was changed or written before it; and no such candidate is left out. |
| `ExactPatch.PatchReplacesOneMatch` | src/openfoam_agent/engineering/case_delta_graph.py:141-150 | An accepted patch replaces one match and keeps the rest; any other match overlaps it. |
| `ExactPatch.PatchExact` | src/openfoam_agent/engineering/case_delta_graph.py:136-150 | A patch applies exactly when the text is not cut off and has an occurrence that every other one overlaps, the first of them; and then that one is replaced. |
| `ExactPatch.CountOne` | src/openfoam_agent/engineering/case_delta_graph.py:145-148 | The count is one exactly when there is a first match and none after its end. |
| `ExactPatch.CountOneUniqueIffBorderless` | src/openfoam_agent/engineering/case_delta_graph.py:145-148 | A count of one means a unique match in every text exactly when the text looked for does not overlap itself. |
| `CaseEdits.MergeReplacements` | src/openfoam_agent/engineering/case_delta_graph.py:116-123 | Replacements are merged without a problem exactly when those for one path agree, and then each path holds its replacement. |
| `CaseEdits.PatchStep` | src/openfoam_agent/engineering/case_delta_graph.py:127-151 | After patches that apply, one more is accepted exactly when the longer list applies, and the files then hold the longer list's result. |
| `CaseEdits.ApplyPatches` | src/openfoam_agent/engineering/case_delta_graph.py:127-151 | Patching is without a problem exactly when every patched file exists, is neither replaced nor dropped, and takes its own patches in turn; other files are untouched. |
| `CaseEdits.CompileEdits` | src/openfoam_agent/engineering/case_delta_graph.py:81-170 | Edits are accepted exactly when they do not contradict each other, keep every required file and pass inspection; then each changed file is its replacement or its patched text, and the effective case is what a commit leaves. |
| `CaseEdits.PatchesInTurn` | src/openfoam_agent/engineering/case_delta_graph.py:127-151 | Patches of a file are applied one after the other, each to what the ones before it left. |
| `CaseEdits.CommittedExact` | src/openfoam_agent/engineering/case_delta_graph.py:153-159 | After a commit a file has its new content, or is as before unless it was dropped. |
| `CaseDelta.ReusedScopeKeepsDigest` | src/openfoam_agent/contracts/execution_scopes.py:214-231 | Committing the changed and dropped files leaves the mesh digest of every scope that is not affected as it was. |
| `CaseDelta.AffectedScopes` | src/openfoam_agent/contracts/execution_scopes.py:214-248 | The affected keys are exactly the scopes with a changed dependency or a mesh command on them; its error cases are exact. |
| `CaseDelta.AffectedExact` | src/openfoam_agent/contracts/execution_scopes.py:214-248 | A scope is affected exactly when a changed path is, contains or lies in something its mesh depends on, or a mesh command selects it or selects none. |
| `CaseDelta.CollectCommands` | src/openfoam_agent/engineering/case_delta_graph.py:191-214 | Runnable hints, then the consumers swept up by the changes and the hints' outputs, each command once and no runnable hint lost. |
| `CaseDelta.CommandsExact` | src/openfoam_agent/engineering/case_delta_graph.py:191-214 | The commands of a delta are exactly the hints that are no probe or mesh check, are permitted and have their dictionary, and the consumers selected, with no two alike. |
| `CaseDelta.DedupeKeepsFirst` | src/openfoam_agent/engineering/case_delta_graph.py:51-62 | Of commands with the same name and arguments the first is kept, and the order stays. |
| `CaseDelta.CompileStrategy` | src/openfoam_agent/engineering/case_delta_graph.py:191-239 | Succeeds exactly when the consumers and scopes can be bound and the consumers have an order; the affected scopes are those of the collected commands, their validation replaces every other finalizer, and the consumers are in stable order. |
| `CaseDelta.ValidationSplits` | src/openfoam_agent/engineering/case_delta_graph.py:224-236 | Replacing finalizers leaves the consumers alone and makes the finalizers exactly the validation of the affected scopes. |
| `CaseDelta.ValidationInOrder` | src/openfoam_agent/contracts/execution_scopes.py:195-211 | Scopes are validated in plan order, each with its own commands. |
| `CaseDelta.CompileDelta` | src/openfoam_agent/engineering/case_delta_graph.py:65-271 | Accepted exactly for consistent, inspected edits whose commands and scopes can be bound and whose consumers have an order with producers first; then they run in the best such order, affected and reused scopes partition all scopes, reused scopes keep their digest through the commit, required files stay, and every affected scope is validated after all consumers. |
| `DeltaExecution.RunKeepsDigest` | src/openfoam_agent/engineering/agent.py:2274-2281 | Running commands keeps a region's digest exactly when none of those recorded targets the region and the files its mesh depends on are as they were. |
| `DeltaExecution.PipelineSparesReused` | src/openfoam_agent/contracts/execution_scopes.py:214-248 | After the commit and the run of a compiled pipeline, a reused scope has its old digest exactly when no recorded command hits it that is not a mesh command, no mesh command writes over its mesh, and the files its mesh depends on are as committed. |
| `DeltaExecution.ReusedEvidenceSurvivesRun` | src/openfoam_agent/engineering/agent.py:2274-2281 | Evidence of a reused scope that was good before a delta is good after its run exactly when no recorded command targets the scope and the files its mesh depends on are as committed. |
| `DeltaExecution.CompileLoneHint` | src/openfoam_agent/engineering/case_delta_graph.py:185-242 | A delta whose only command is a runnable hint that is no mesh command and triggers nothing is accepted, reuses every scope and validates none. |
| `DeltaExecution.LoneHintChangesDigests` | src/openfoam_agent/engineering/agent.py:2467-2474 | When that command is recorded and selects no region, running it changes the digest of every scope. |
| `DeltaExecution.SetFieldsMakesReusedScopeStale` | src/openfoam_agent/data/native_tool_contracts.json:226-228 | With the initializing tool setFields both happen: the delta is accepted, and the digest of the reused scope changes. |
| `DeltaValidation.StoredAfterRun` | src/openfoam_agent/engineering/agent.py:587-607 | Through a commit and a run, evidence is kept exactly when its digest was the current one at every invalidation. |
| `DeltaValidation.ReusedLasts` | src/openfoam_agent/engineering/agent.py:2274-2282 | Evidence of a reused scope lasts through every invalidation of a run exactly when it was good before, nothing is recorded on the scope, and its files are as committed whenever evidence is invalidated and at the end. |
| `DeltaValidation.GoodAfterChecks` | src/openfoam_agent/engineering/agent.py:2306-2312 | After the recorded checks a scope is good exactly when its last check passed within the cell limit and its digest can be computed; a scope without a check is as it was. |
| `DeltaValidation.NoFailuresLeft` | src/openfoam_agent/contracts/execution_scopes.py:326-348 | For any commit, run and checks no failure is left exactly when every scope has a passing last check and a computable digest, or has no check and evidence that lasts. |
| `DeltaValidation.DeltaLeavesNoFailures` | src/openfoam_agent/engineering/case_delta_graph.py:216-242 | After an accepted delta, its run and its finalizers, when no invalidation fails on the way, no failure is left exactly when every affected scope is settled that way and every reused scope was good and was spared. |
| `DeltaValidation.CompileForeseen` | src/openfoam_agent/engineering/case_delta_graph.py:65-271 | What compiling a delta promises about every later run and validation of it: the condition above, for the affected and reused scopes it reports. |
| `DependencyOrder.GreedyIsLeast` | src/openfoam_agent/engineering/case_build_graph.py:139-148 | The order found comes before every other order that respects the labels. |
| `DependencyOrder.CompleteIffAcyclic` | src/openfoam_agent/engineering/case_build_graph.py:103-154 | Every command is ordered exactly when the producer graph has no cycle, and then in the lexicographically least valid order. |
| `DependencyOrder.OrderedOrBehindCycle` | src/openfoam_agent/engineering/case_build_graph.py:149-153 | A command is left over exactly when it is on a cycle or consumes what a cycle produces. |
| `DependencyOrder.ValidOrderUnchanged` | src/openfoam_agent/engineering/case_build_graph.py:103-154 | A proposal that already respects the labels comes back unchanged. |
| `DependencyOrder.StableOrderUnique` | src/openfoam_agent/engineering/case_build_graph.py:139-154 | The stable order is unique. |
| `DependencyOrder.BuildGraph` | src/openfoam_agent/engineering/case_build_graph.py:127-137 | The edges and the number of producers of each command. |
| `DependencyOrder.Release` | src/openfoam_agent/engineering/case_build_graph.py:145-148 | Releasing a command's consumers keeps exactly the ready commands and the remaining producer counts. |
| `DependencyOrder.TopologicalIndices` | src/openfoam_agent/engineering/case_build_graph.py:127-148 | The loop takes the least ready command each time and stops when none is ready. |
| `DependencyOrder.StableDependencyOrder` | src/openfoam_agent/engineering/case_build_graph.py:103-154 | Unbound scopes and cycles are reported and leave the proposal alone. Bound commands fail exactly when no order puts every command before those that read what it writes; otherwise the result is such an order, and no other stays closer to the proposal. |
| `DependencyOrder.StableOrderIsBest` | src/openfoam_agent/engineering/case_build_graph.py:127-154 | The stable order puts producers first, and every other order that does takes a later command at the first difference. |
| `DependencyOrder.AcyclicIffOrderable` | src/openfoam_agent/engineering/case_build_graph.py:149-153 | The labels have no cycle exactly when some order puts producers first. |
| `DependencyOrder.UnboundFailuresExact` | src/openfoam_agent/engineering/case_build_graph.py:114-125 | Exactly the commands that cannot be bound are reported, with their reasons. |
| `CaseBuild.OutputRoots` | src/openfoam_agent/engineering/case_build_graph.py:162-195 | A path is below one of the roots exactly when a bound command declares an output above it. |
| `CaseBuild.CoverManifest` | src/openfoam_agent/engineering/case_build_graph.py:281-291 | The manifest is split exactly into authored files, files a command produces, and missing files. |
| `CaseBuild.CompileBuild` | src/openfoam_agent/engineering/case_build_graph.py:198-327 | Accepted exactly when consumers and validation can be bound, some order puts producers first and every required file is authored or written by a command that runs; the order is then the best one, files are authored, deferred or missing as they were written, and the validation of every scope is checked after them. |
| `CaseBuild.StrategyExact` | src/openfoam_agent/engineering/case_build_graph.py:243-276 | A build runs exactly the hints that are no probe and no validation, and the inferred consumers that share name and region with none of them, as far as they are permitted and have their dictionary. |
| `CaseBuild.StrategyOrder` | src/openfoam_agent/engineering/case_build_graph.py:243-276 | They are proposed in the order of the hints, then of the inferred consumers, with no two alike. |
| `FoamText.StripIdempotent` | src/openfoam_agent/contracts/execution.py:26-51 | Comment removal is idempotent, from any quoting state. |
| `FoamText.QuotedTextIntact` | src/openfoam_agent/contracts/execution.py:33-41 | Quoted text, with its escapes, passes through comment removal unchanged. |
| `FoamText.StripComments` | src/openfoam_agent/contracts/execution.py:26-51 | The loop computes the removal the theorems are about. |
| `FoamComments.CommentsRemoved` | src/openfoam_agent/contracts/execution.py:26-51 | Of text made of code, quoted literals, line comments and block comments exactly the comments are removed, each up to its first end. |
| `FoamComments.OpenBlockRemovesRest` | src/openfoam_agent/contracts/execution.py:45-49 | A block comment without an end removes everything after it. |
| `FoamComments.CommentedEntriesRecovered` | src/openfoam_agent/contracts/execution.py:72-121 | Comments and layout between printed entries do not change what is read. |
| `FoamText.FindMatchingBrace` | src/openfoam_agent/contracts/execution.py:54-69 | The position after the matching brace, outside quotes, or none. |
| `FoamText.FindScalarEnd` | src/openfoam_agent/contracts/execution.py:96-116 | The end of a scalar entry outside quotes and brackets, and whether a brace made it unreadable. |
| `FoamText.ReadEntry` | src/openfoam_agent/contracts/execution.py:79-120 | One entry at a position: end, broken text, or key, payload and rest. |
| `FoamText.ReadTopLevelEntries` | src/openfoam_agent/contracts/execution.py:72-121 | The entries of a text and whether it was read completely. |
| `FoamText.ResolveEntry` | src/openfoam_agent/contracts/execution.py:131-145 | The payload at a dotted path through nested blocks, refusing directives and macros. |
| `FoamPrinting.PrintedEntriesRecovered` | src/openfoam_agent/contracts/execution.py:72-121 | Any list of distinct-key entries with well-formed payloads, printed, is read back exactly and completely. |
| `FoamPayloads.EntryRead` | src/openfoam_agent/contracts/execution.py:72-121 | An entry whose payload is made of text, quoted literals and nested round or square brackets is read up to the semicolon after it. |
| `FoamPayloads.BlockRead` | src/openfoam_agent/contracts/execution.py:54-95 | A block of entries is read as one payload. |
| `FoamPayloads.DirectiveStops` | src/openfoam_agent/contracts/execution.py:83-84 | A directive ends the reading; the entries before it stay and the text is not complete. |
| `FoamPayloads.RepeatedKeyStops` | src/openfoam_agent/contracts/execution.py:90 | A second entry under a key ends the reading; the first one stays. |
| `FoamWords.CanonicalIsTokens` | src/openfoam_agent/contracts/execution.py:124-128 | The canonical form of a payload is its list of words and quoted strings, whatever the layout. |
| `FoamWords.CanonicalConcat` | src/openfoam_agent/contracts/execution.py:124-128 | Around a space outside quoted strings the tokens are those of both sides. |
| `FoamWords.AlikeIffSameWords` | src/openfoam_agent/contracts/execution.py:124-128 | Texts without quotes are alike exactly when they spread the same words. |
| `FoamPrinting.PrintedLookup` | src/openfoam_agent/contracts/execution.py:72-121 | A key of printed text resolves to the node that was printed under it, and no other key resolves. |
| `FoamPrinting.JoinedPathSplits` | src/openfoam_agent/contracts/execution.py:132 | Splitting a dotted path gives back the keys it was joined from exactly when no key contains a dot. |
| `FoamPrinting.PrintedEntryResolves` | src/openfoam_agent/contracts/execution.py:130-144 | An entry path of keys without dots, read from printed text, finds what those keys find in the tree. |
| `RepairApproval.ExecutionApproval.CheckRepairDelta` | src/openfoam_agent/contracts/execution.py:243-327 | The loop decides as the specification and changes authorization only when every file is accepted. |
| `RepairApproval.ExecutionApproval.CheckRepairFiles` | src/openfoam_agent/contracts/execution.py:329-339 | A seal is accepted exactly when each differing file is a mutable kind with an authorized hash. |
| `RepairApproval.CheckFileSound` | src/openfoam_agent/contracts/execution.py:253-323 | An accepted file keeps every authorized text reachable from the approved one by accepted steps. |
| `RepairApproval.HistorySound` | src/openfoam_agent/contracts/execution.py:243-327 | After any history over any workspaces, every authorized text was reached from the approved bytes by accepted steps. |
| `RepairApproval.RejectionStands` | src/openfoam_agent/contracts/execution.py:253-324 | A rejected file rejects the whole delta with that reason. |
| `RepairRules.PathKindExact` | src/openfoam_agent/contracts/execution.py:162-170 | Repairs may change fvSchemes and fvSolution below system, and the one controlDict. |
| `RepairRules.ControlRule` | src/openfoam_agent/contracts/execution.py:281-320 | A controlDict is accepted exactly when its texts are complete and every entry has its old words, or is one of four numbers that is reduced against the disk and the original, or switches adaptive stepping with one of eight booleans and a cap within the original limit; frozen entries never. |
| `RepairRules.FileRule` | src/openfoam_agent/contracts/execution.py:253-323 | A file is accepted exactly when its kind, its base text and its content are allowed, and then exactly its own authorization changes. |
| `RepairRules.DeltaRule` | src/openfoam_agent/contracts/execution.py:243-327 | A delta is accepted exactly when every file of it is allowed by itself. |
| `RepairRules.DeltaAuthorizes` | src/openfoam_agent/contracts/execution.py:321-327 | After an accepted delta the proposed text is authorized for each changed file, and every other authorization is as before. |
| `RepairRules.SealAfterRepair` | src/openfoam_agent/contracts/execution.py:329-339 | Writing an accepted delta keeps an acceptable seal acceptable. |
| `RepairRules.FrozenTokensKept` | src/openfoam_agent/contracts/execution.py:272-280 | An accepted delta leaves every word and quoted string of a frozen entry as it was. |
| `RepairRules.FixedControlTokensKept` | src/openfoam_agent/contracts/execution.py:289-298 | The same for every controlDict entry that is frozen or may not change. |
| `RepairRules.ApprovedTokensKept` | src/openfoam_agent/contracts/execution.py:243-327 | After any history an authorized dictionary has every word and quoted string of its frozen entries as approved. |
| `RepairBounds.BoundStep` | src/openfoam_agent/contracts/execution.py:282-320 | One accepted change keeps the numeric bounds relative to the approved text. |
| `RepairBounds.ReachedWithinApproval` | src/openfoam_agent/contracts/execution.py:268-320 | Every text reached by accepted steps keeps frozen entries, changes only mutable ones, and has each changed limit positive and no larger than approved. |
| `RepairBounds.HistoryWithinApproval` | src/openfoam_agent/contracts/execution.py:243-327 | The same for every file authorized after any history, with the maxDeltaT fallback and the cap required when adaptive stepping is switched on. |
| `RepairBounds.RewriteNeverRaises` | src/openfoam_agent/contracts/execution.py:282-320 | An accepted rewrite never raises a number above the one in the text it replaces, with the maxDeltaT fallback. |
| `RepairBounds.RaisesIffDiskDoes` | src/openfoam_agent/contracts/execution.py:253-323 | After any history, some proposal above the last authorized number is accepted exactly when the text on disk is the approved or the last authorized one and already is above it. |
| `RepairBounds.HistoryNotRaised` | src/openfoam_agent/contracts/execution.py:243-327 | While candidates meet no number above the last authorized one, no number is ever raised again. |
| `RepairBounds.RaisedAfterRestore` | src/openfoam_agent/contracts/execution.py:264-320 | A history that raises: approved 4, repaired to 1, and with the approved text back, repaired to 2. |
| `RepairBounds.AcceptedSeal` | src/openfoam_agent/contracts/execution.py:329-339 | An accepted seal has exactly the approved files, each the approved bytes or a text reached from them within approval. |
| `RepairBounds.RecheckIdempotent` | src/openfoam_agent/contracts/execution.py:264-267 | Checking an accepted delta again is accepted and changes nothing. |
| `RepairBounds.TimestepLimitAgrees` | src/openfoam_agent/contracts/execution.py:306-316 | The two ways of falling back from maxDeltaT to deltaT agree on complete text. |
| `MeshGeometry.FaceAreaIsLoop` | src/openfoam_agent/postprocessing/native_fields.py:180-183 | The fan area of a face is the sum of its boundary edges' weights. |
| `MeshGeometry.LedgerCounts` | src/openfoam_agent/postprocessing/native_fields.py:198-199 | The edge map counts each undirected edge's uses and their signed total. |
| `MeshGeometry.BalancedIffClosedSurface` | src/openfoam_agent/postprocessing/native_fields.py:198-200 | The edge test passes exactly when every edge of the cell is used once in each direction. |
| `MeshGeometry.CancelsIffPaired` | src/openfoam_agent/postprocessing/native_fields.py:198-199 | Every edge has signed total zero exactly when each direction is used as often as its reverse. |
| `MeshGeometry.CancellingCellIsClosed` | src/openfoam_agent/postprocessing/native_fields.py:176-201 | When every edge of a cell has signed total zero, its signed face areas sum to the zero vector. |
| `MeshGeometry.FanVolumeShift` | src/openfoam_agent/postprocessing/native_fields.py:180-183 | Moving the origin changes a face's volume by a third of the shift times its area. |
| `MeshGeometry.VolumeIndependentOfOrigin` | src/openfoam_agent/postprocessing/native_fields.py:176-201 | When every edge of a cell has signed total zero, its volume does not depend on the origin. |
| `MeshAssembly.ReadBoundary` | src/openfoam_agent/postprocessing/native_fields.py:162-175 | The boundary is accepted exactly when distinct patches within the boundary range cover each external face once. |
| `MeshAssembly.PatchesCountEachExternalFaceOnce` | src/openfoam_agent/postprocessing/native_fields.py:162-175 | The sum over patches of any face quantity is its sum over the external faces. |
| `MeshAssembly.InternalFacesCancel` | src/openfoam_agent/postprocessing/native_fields.py:192-197 | Summing any face quantity with sign over all cells leaves the external faces. |
| `MeshAssembly.TotalVolumeIsBoundaryVolume` | src/openfoam_agent/postprocessing/native_fields.py:176-201 | The cell volumes of an accepted mesh add up to the boundary contributions, for any origin. |
| `MeshAssembly.CellVolumeShift` | src/openfoam_agent/postprocessing/native_fields.py:176-201 | A closed cell has one volume for all origins. |
| `MeshAssembly.MeasureFace` | src/openfoam_agent/postprocessing/native_fields.py:180-183 | The fan loop computes area and volume of a face. |
| `MeshAssembly.PostFace` | src/openfoam_agent/postprocessing/native_fields.py:198-199 | Posting a face's edges extends the edge map by its directed loop. |
| `MeshAssembly.CheckFace` | src/openfoam_agent/postprocessing/native_fields.py:178-194 | A face is accepted exactly when its corners, shape and orientation are acceptable. |
| `MeshAssembly.AccumulateFaces` | src/openfoam_agent/postprocessing/native_fields.py:177-199 | After all faces each cell holds its signed volume, area and edge map. |
| `MeshAssembly.CellTest` | src/openfoam_agent/postprocessing/native_fields.py:200-201 | Volume sign and edge balance alone decide a cell, since balance implies closure. |
| `MeshAssembly.ReadMesh` | src/openfoam_agent/postprocessing/native_fields.py:158-202 | A mesh is accepted exactly when it is acceptable, and then its volumes are those of its cells. |
| `MeshRules.MeshExact` | src/openfoam_agent/postprocessing/native_fields.py:158-202 | A mesh is accepted exactly when its cells are numbered from 0, at most 250000, its patches are allowed, its faces have three or more different corners, an area, an acceptable shape and lead to higher cells, and its cells are closed with a positive volume. |
| `MeshRules.BoundaryExact` | src/openfoam_agent/postprocessing/native_fields.py:162-175 | The boundary is accepted exactly when names differ, processor patches are permitted, and each external face is in one patch and each internal face in none. |
| `MeshRules.EdgesShared` | src/openfoam_agent/postprocessing/native_fields.py:198-200 | In a closed cell, wherever one face runs from one corner to another, some face runs back. |
| `MeshVolumes.ReadTetrahedron` | src/openfoam_agent/postprocessing/native_fields.py:176-201 | A mesh of one tetrahedron is accepted exactly when the sixth of its determinant, with the sign of its faces, is positive, and has that volume; with its faces reversed it is rejected. |
| `Conservation.ObserveFlux` | src/openfoam_agent/postprocessing/conservation.py:21-24 | The outward flux counts each external face once, and so does its magnitude. |
| `Conservation.BalanceIntervals` | src/openfoam_agent/postprocessing/conservation.py:33-40 | Residual, tolerance and verdict of every interval. |
| `Conservation.IntervalPassesExact` | src/openfoam_agent/postprocessing/conservation.py:33-40 | An interval passes exactly when its imbalance is within the absolute tolerance over its length plus the relative one of the amounts stored, exchanged and generated. |
| `Conservation.IntervalImbalance` | src/openfoam_agent/postprocessing/conservation.py:33-36 | Time step times residual is the change of storage plus the trapezoid flux minus the trapezoid source. |
| `Conservation.WindowBalance` | src/openfoam_agent/postprocessing/conservation.py:33-40 | When every interval passes, the balance over the whole window is bounded by the sum of time step times tolerance. |
| `Conservation.CheckInterfaces` | src/openfoam_agent/postprocessing/conservation.py:41-54 | Succeeds exactly when every interface with an observed side has both regions observed with both patches at every time, and otherwise stops at the first that has not; the checks are, in order, the judgements of the first interface of each pair at every time. |
| `Conservation.JudgementExact` | src/openfoam_agent/postprocessing/conservation.py:50-54 | An interface passes at a time exactly when its two fluxes cancel up to the absolute tolerance plus the relative one of their magnitudes. |
| `Conservation.NothingLost` | src/openfoam_agent/postprocessing/conservation.py:47-54 | The checks are exactly the judgements of all relevant interfaces, although each pair is judged once. |
| `Conservation.ChecksOncePerTime` | src/openfoam_agent/postprocessing/conservation.py:47-49 | No pair has two checks for one time. |
| `Conservation.SameKeySameJudgement` | src/openfoam_agent/postprocessing/conservation.py:47-54 | An interface declared from its other side can be judged exactly when this one can, and has the same judgements. |
| `RegionBalance.PatchTotalIsSum` | src/openfoam_agent/postprocessing/conservation.py:21-24 | The outward flux of a region is the sum over its patches. |
| `RegionBalance.UnionIsSum` | src/openfoam_agent/postprocessing/conservation.py:33-54 | The imbalance of the union of all regions, over the patches left open by some interfaces, is the sum of the regions' imbalances without the flux between the two sides of each of those interfaces. |
| `RegionBalance.UnionBalance` | src/openfoam_agent/postprocessing/conservation.py:17-54 | When every interval and every interface passes, the union of all regions balances over the patches left open by any checked interfaces that share no patch, up to the summed tolerances. |
| `TimeSeries.CleanSeries` | src/openfoam_agent/postprocessing/quantities.py:15-33 | Fails exactly for a missing column; otherwise keeps exactly the rows whose time is below every later row's, and counts repairs. |
| `TimeSeries.RepairsCount` | src/openfoam_agent/postprocessing/quantities.py:24-28 | The cleanup counts the repeated times and the steps back in time. |
| `TimeSeries.KeptIncreasing` | src/openfoam_agent/postprocessing/quantities.py:24-33 | The kept times strictly increase. |
| `TimeSeries.KeptFixpoint` | src/openfoam_agent/postprocessing/quantities.py:24-33 | A series is left as it is exactly when its times strictly increase. |
| `TimeSeries.KeptIdempotent` | src/openfoam_agent/postprocessing/quantities.py:24-33 | Cleaning twice is cleaning once. |
| `TimeSeries.KeptAppend` | src/openfoam_agent/postprocessing/quantities.py:29-32 | A new row replaces every kept row at or after its time. |
| `TimeSeries.BisectLeft` | src/openfoam_agent/postprocessing/quantities.py:65 | The first sample not before a time. |
| `TimeSeries.Interpolate` | src/openfoam_agent/postprocessing/quantities.py:64-72 | Fails exactly outside the observed range, and otherwise is the value of the piecewise-linear interpolant. |
| `TimeSeries.ValueBetween` | src/openfoam_agent/postprocessing/quantities.py:70-72 | Between two samples the interpolant is their mean, weighted by the distances in time. |
| `TimeSeries.RefinementPreservesValue` | src/openfoam_agent/postprocessing/quantities.py:64-83 | A refined grid has the same interpolant. |
| `TimeSeries.RefinementIntegral` | src/openfoam_agent/postprocessing/quantities.py:92-97 | A refined grid has the same trapezoid integral. |
| `TimeSeries.RefinementSum` | src/openfoam_agent/postprocessing/quantities.py:92-97 | A quantity that splits on lines adds up to the same over every refined grid. |
| `TimeStatistics.Window` | src/openfoam_agent/postprocessing/quantities.py:75-83 | Fails exactly for an empty series, a reversed interval or one outside the data, and otherwise is the window. |
| `TimeStatistics.WindowTimesExact` | src/openfoam_agent/postprocessing/quantities.py:82-83 | A window has its two ends and every sample time strictly between them. |
| `TimeStatistics.WindowPreservesValue` | src/openfoam_agent/postprocessing/quantities.py:75-83 | A window keeps the interpolant at every time in it. |
| `TimeStatistics.NestedWindows` | src/openfoam_agent/postprocessing/quantities.py:75-83 | A window of a window is the window. |
| `TimeStatistics.WindowIntegral` | src/openfoam_agent/postprocessing/quantities.py:75-97 | The integral over a window is the area under the interpolant. |
| `TimeStatistics.SquareTrapezoidIsIntegral` | src/openfoam_agent/postprocessing/quantities.py:96 | A segment's term is the exact integral of the square of its line. |
| `TimeStatistics.RefinementSquareIntegral` | src/openfoam_agent/postprocessing/quantities.py:92-103 | A refined grid over the same interval has the same square integral, integral and duration. |
| `TimeStatistics.WindowSquareIntegral` | src/openfoam_agent/postprocessing/quantities.py:75-103 | The square integral of a window does not depend on the grid it was cut from. |
| `TimeStatistics.Accumulate` | src/openfoam_agent/postprocessing/quantities.py:92-99 | Both sums in one loop; fails exactly when times do not increase. |
| `TimeStatistics.ComputeStatistics` | src/openfoam_agent/postprocessing/quantities.py:86-104 | Duration, integral, mean and the squares of both root mean squares, without any clamp. |
| `TimeStatistics.MeanSquareBound` | src/openfoam_agent/postprocessing/quantities.py:100-103 | The mean square is never below the squared mean, nor negative, so both clamps at zero do nothing. |
| `TimeStatistics.MeanBounds` | src/openfoam_agent/postprocessing/quantities.py:100-101 | The time mean lies between any bounds of the samples. |
| `SeriesDifference.MergeTimes` | src/openfoam_agent/postprocessing/quantities.py:130 | The sorted union of two grids. |
| `SeriesDifference.GridTimesExact` | src/openfoam_agent/postprocessing/quantities.py:129-131 | The difference is taken at both ends and at every sample time of either series between them. |
| `SeriesDifference.DefaultIntervalExact` | src/openfoam_agent/postprocessing/quantities.py:127-128 | Without a declared interval the difference is taken over all times that both series cover. |
| `SeriesDifference.DifferenceOfIntegrals` | src/openfoam_agent/postprocessing/quantities.py:127-131 | The integral of the difference is the difference of the integrals over the common window. |
| `SeriesDifference.MeanOfDifference` | src/openfoam_agent/postprocessing/quantities.py:127-143 | The time mean of the difference is the difference of the means. |
| `SeriesDifference.CommonDifference` | src/openfoam_agent/postprocessing/quantities.py:127-131 | The difference on the common grid; fails exactly when the interval is not common to both. |
| `SeriesDifference.AnalyzeDifference` | src/openfoam_agent/postprocessing/quantities.py:119-143 | Succeeds exactly when enough common samples exist, and returns mean minus mean. |
| `Oscillation.UpwardZeroCrossings` | src/openfoam_agent/postprocessing/analysis.py:149-158 | The crossings found by the loop. |
| `Oscillation.CrossingInSegment` | src/openfoam_agent/postprocessing/analysis.py:154-157 | Each crossing lies in its segment and is a zero of the interpolant. |
| `Oscillation.CrossingsExact` | src/openfoam_agent/postprocessing/analysis.py:149-158 | About the mean there is one crossing for each rise through it, where the line between the two samples meets it. |
| `Oscillation.CrossingsIncrease` | src/openfoam_agent/postprocessing/analysis.py:149-158 | On increasing times the crossings strictly increase inside the range. |
| `Oscillation.PeriodsAreGaps` | src/openfoam_agent/postprocessing/analysis.py:88 | On increasing crossings the positive-period filter removes nothing. |
| `Oscillation.GapsTelescope` | src/openfoam_agent/postprocessing/analysis.py:88-90 | The periods add up to last minus first crossing. |
| `Oscillation.EstimateFrequency` | src/openfoam_agent/postprocessing/analysis.py:82-95 | An estimate exists exactly for five samples and three crossings, and is the period count over last minus first crossing. |
| `TransportSchema.NormalizeWidens` | src/openfoam_agent/llm/structured_schema.py:113-141 | The tuple-free schema accepts every document the canonical schema accepts, for schemas of the generated shape with recursive references. |
| `TransportSchema.HomogeneousExact` | src/openfoam_agent/llm/structured_schema.py:95-141 | When all tuples are homogeneous and bounded both schemas accept the same documents. |
| `TransportSchema.NormalizeTupleFree` | src/openfoam_agent/llm/structured_schema.py:113-141 | The rewrite leaves no tuple, however deep it was. |
| `TupleLosses.LosslessExact` | src/openfoam_agent/llm/structured_schema.py:87-141 | For a plain tuple under a property of an object schema, no document is lost under any judge of keywords exactly when every reachable position implies a kept entry and reachable further elements find a kept entry that accepts everything. |
| `TupleLosses.UnboundedTupleNarrows` | src/openfoam_agent/llm/structured_schema.py:125-128 | An object schema with a tuple without an item limit loses a document. |
| `TupleLosses.BlurredConstantsNarrow` | src/openfoam_agent/llm/structured_schema.py:87-110 | An object schema with a tuple of the constants 1 and true loses a document, because the two entries compare equal. |
| `TransportSchema.SupersetAccepts` | src/openfoam_agent/llm/structured_schema.py:95-110 | The one schema for a tuple accepts what any position accepts. |
| `TransportSchema.WidenArray` | src/openfoam_agent/llm/structured_schema.py:121-138 | Array documents stay accepted element by element. |
| `FlatSchemas.FlatExact` | src/openfoam_agent/llm/structured_schema.py:113-141 | What an object schema with plain properties accepts: the required members, each declared member as its schema demands, and others only if allowed. |
| `FlatSchemas.StrictFlatExact` | src/openfoam_agent/llm/structured_schema.py:144-167 | Its strict form accepts exactly the objects with all declared members, each as its schema demands, and no other. |
| `FlatSchemas.ReferenceExact` | src/openfoam_agent/llm/structured_schema.py:113-167 | A reference accepts what the definition it names accepts, also after both rewrites. |
| `FlatSchemas.RestElementsExact` | src/openfoam_agent/llm/structured_schema.py:121-138 | For a plain tuple with a schema for further elements, each element must be as some kept entry or that schema demands; the latter counts unless it compares equal to the former. |
| `StrictSchema.StrictNarrows` | src/openfoam_agent/llm/structured_schema.py:144-167 | The strict schema accepts only documents the schema accepts, whatever properties are called. |
| `StrictSchema.StrictMembersExact` | src/openfoam_agent/llm/structured_schema.py:157-162 | An object the strict schema accepts has exactly the declared properties; a property called default makes it accept none. |
| `StrictSchema.StrictEverywhere` | src/openfoam_agent/llm/structured_schema.py:144-167 | However deep, every object with declared properties allows no others, every one of type object says what others are, and none has a default. |
| `StrictSchema.NormalizeReady` | src/openfoam_agent/llm/structured_schema.py:192-196 | Removing tuples keeps a schema ready for the strict pass. |
| `StrictSchema.CompiledStrictNarrows` | src/openfoam_agent/llm/structured_schema.py:192-197 | The schema for strict transports accepts only documents the tuple-free schema accepts. |
| `Authoring.FactClosure` | src/openfoam_agent/engineering/authoring_tasks.py:19-30 | The worklist returns the least dependency-closed set and fails exactly when it holds an unknown fact. |
| `Authoring.ValidDesignResolves` | src/openfoam_agent/contracts/regions.py:38-56 | A valid design over facts whose dependencies resolve never misses a fact. |
| `Authoring.FactReachesATask` | src/openfoam_agent/engineering/authoring_tasks.py:181-186 | Every confirmed fact travels, with its closure, with some required file, and with all of them when it is bound to none. |
| `Authoring.TaskFactsExact` | src/openfoam_agent/engineering/authoring_tasks.py:176-186 | A task carries exactly the confirmed facts that bear on its files or are needed, directly or not, by one that does; of facts with one id the last counts. |
| `Authoring.Group` | src/openfoam_agent/engineering/authoring_tasks.py:248-269 | Batches are consecutive, fit, cover the manifest and none could take the next file; it fails only on a fact that some required files miss or a file that does not fit alone. |
| `Authoring.NoFactLost` | src/openfoam_agent/engineering/authoring_tasks.py:289-292 | Every confirmed fact of a valid design is carried by some task with the confirmed facts it depends on. |
| `Authoring.CompileTasks` | src/openfoam_agent/engineering/authoring_tasks.py:228-294 | Task paths concatenate to the manifest and carry exactly the confirmed facts. It fails only for a bad manifest, a fact some required files miss, a single file that does not fit while grouping, a batch of a well-grouped cover that exceeds the exact limit in both forms, or lost facts; for a valid design only one of the two size failures is possible. |
| `Authoring.AuthoringQueue.Accept` | src/openfoam_agent/engineering/authoring_tasks.py:297-322 | A response is stored exactly when it answers the pending task, and a refused one changes nothing; the last one yields the case with the files of all tasks unless the case is invalid. |
| `Authoring.AnswersExact` | src/openfoam_agent/engineering/authoring_tasks.py:300-311 | A response answers a task exactly when it names it, authors its files and no others, each once, and supplies native commands for the final task only. |
| `Authoring.AssembledInTurn` | src/openfoam_agent/engineering/authoring_tasks.py:313-319 | The parts of an assembled case are those of the responses, one after the other. |
| `Authoring.AtMostOneMesh` | src/openfoam_agent/engineering/authoring_tasks.py:301-318 | Responses that cover their tasks hold at most one structured mesh, and one exactly when its path was asked for and not authored as a file. |
| `Authoring.AuthoringController.Submit` | src/openfoam_agent/engineering/phases/decision_controller.py:200-204 | Every refused response leaves the controller's queue as it was; an accepted one is stored, and a case is returned exactly with the last. |
| `Authoring.ResponsesCover` | src/openfoam_agent/engineering/authoring_tasks.py:313-319 | All responses together hold what all tasks asked for. |
| `Authoring.EachFileOnce` | src/openfoam_agent/engineering/authoring_tasks.py:301-322 | An assembled case holds each required file exactly once. |
| `EvidenceGaps.FreshId` | src/openfoam_agent/engineering/agent.py:1111-1130 | The id issued is free, and there is none exactly when all are taken. |
| `EvidenceGaps.GapIdNumber` | src/openfoam_agent/engineering/agent.py:1119-1127 | An issued id reads back as its number. |
| `EvidenceGaps.GapIdWritten` | src/openfoam_agent/engineering/agent.py:1126 | An id is the letter G and the number in two to four digits. |
| `EvidenceGaps.NextAfterLargest` | src/openfoam_agent/engineering/agent.py:1119-1130 | The id issued is the one after the largest in use. |
| `EvidenceGaps.FirstFreeAfterLast` | src/openfoam_agent/engineering/agent.py:1124-1130 | Once the last number is in use, the first free one is issued. |
| `EvidenceGaps.NextGapId` | src/openfoam_agent/engineering/agent.py:1111-1130 | The cyclic search from the largest number in use. |
| `EvidenceGaps.BatchWellFormed` | src/openfoam_agent/engineering/agent.py:1142-1223 | Normalized ids are pairwise distinct, a parent is an old gap and its child a new one, and the requests are the proposed ones without exact repeats. |
| `EvidenceGaps.NormalizedIsNew` | src/openfoam_agent/engineering/agent.py:1171-1221 | A normalized id is unused in the batch and replaced only when it was taken. |
| `EvidenceGaps.NormalizedExact` | src/openfoam_agent/engineering/agent.py:1174-1213 | An id is issued anew exactly when the batch has it, or the ledger has it and the gap refines some gap; a parent is kept exactly when the ledger knows it. |
| `EvidenceGaps.UnrepeatedKeepsFirst` | src/openfoam_agent/engineering/agent.py:1161-1169 | Of equal gaps in a batch the first is kept, and the order stays. |
| `EvidenceGaps.StepSound` | src/openfoam_agent/engineering/agent.py:1418-1503 | Every event keeps the ledger sound and keeps what was settled. |
| `EvidenceGaps.RunSound` | src/openfoam_agent/engineering/agent.py:1247-1328 | At every point of every run each gap was retrieved at most once, refines only older gaps, satisfied gaps are never superseded, the fuse holds, and nothing is retrieved once disabled. |
| `EvidenceGaps.EvidenceLedger.NormalizeBatch` | src/openfoam_agent/engineering/agent.py:1142-1223 | The loop over proposed gaps computes the normalized batch. |
| `EvidenceGaps.RetrieveExact` | src/openfoam_agent/engineering/agent.py:1450-1580 | A request is refused exactly when its gap was retrieved or refines a satisfied one; otherwise its gap is available, stagnant or open as the search found something, nothing or failed, and its parent is superseded. |
| `EvidenceGaps.GatherCycles` | src/openfoam_agent/engineering/agent.py:1418-1600 | A batch is ignored when retrieval is disabled or spent; otherwise it costs one cycle when something was retrieved, and all when a search failed. |
| `EvidenceGaps.EvidenceLedger.GatherEvidence` | src/openfoam_agent/engineering/agent.py:1408-1600 | A batch changes the ledger as specified, and a failing search disables the rest of the phase. |
| `EvidenceGaps.EvidenceLedger.MarkSatisfied` | src/openfoam_agent/engineering/agent.py:1247-1253 | Closing satisfies exactly the gaps with evidence. |
| `EvidenceGaps.EvidenceLedger.DisableEntries` | src/openfoam_agent/engineering/agent.py:1316-1328 | Disabling spends the fuse and marks what can no longer be retrieved. |
| `EvidenceGaps.DisableExact` | src/openfoam_agent/engineering/agent.py:1316-1328 | Open, available and stagnant gaps become unavailable, and no other changes. |
| `EvidenceSelection.SelectNewEvidence` | src/openfoam_agent/engineering/agent.py:1376-1406 | The ids chosen are a front of the ranking by round and gap, up to the limit or everything. |
| `EvidenceSelection.FrontIsFair` | src/openfoam_agent/engineering/agent.py:1391-1406 | No gap has two more ids chosen than another that still has some left. |
| `EvidenceSelection.FrontUnique` | src/openfoam_agent/engineering/agent.py:1391-1406 | Two fronts of the same length choose the same ids. |

## Left out

- Language-model clients, prompts, command line, progress events, subprocesses and file-system detail (links, flushing, size caps, path resolution).
- Rounding and overflow of floating-point numbers; square roots are given by their squares.
- Reading mesh and field files: tokens, headers, dimensions, nonuniform lists and patch values; the mesh model starts from the parsed lists.
- The planarity and convexity tests of faces, which are a given predicate, and the pattern for patch names.
- The tolerance of the closure test, which is read as exact; the edge test implies closure.
- Reading scalar tables, finite-number checks, expected ranges, uniform spacing and the period variation.
- Parsing of force-coefficient text and the Strouhal number.
- The registry file of the dependency graph: its checksum, version and atomic replacement; the operations are a field.
- Digests that fail on symbolic links or on file and byte limits; a digest fails on an escaping include only.
- Runs of a delta that an exception ends early: what is left after commit, run and validation is stated for runs whose invalidations succeed.
- Restoring evidence and approvals from a checkpoint, the legacy projection of mesh state, and plans without execution scopes.
- Rendering of path templates and of dictionary overrides in tool arguments, which are given functions.
- The generation of candidate consumers from dictionaries, and warnings about ignored hints.
- Reading the committed files of a case: unreadable files and their failures; edits start from the readable contents.
- Header and safety inspection of changed files, which is a given function.
- The order in which a dictionary or set is iterated, where the program does not define it; loops over sets pick any element.
- Issuing an approval from a plan and checking a changed plan against it.
- The layout of number text: parsing is a given function that ignores layout.
- Keywords of a schema other than those the rewrites touch, which are a given judge; `not`, `oneOf` and pattern properties do not occur in the schemas that are compiled.
- Aliasing in the schema rewrite: the program copies before it rewrites, and the model rewrites values.
- The compact and full projections of an authoring prompt beyond the facts they carry; whether a prompt fits is a given predicate, and the refusal of a limit below 5200 characters is not modelled.
- The schema of an assembled case, which is a given predicate.
- The contents, ranking and storage of retrieved evidence; a search yields something, nothing or a failure, and fingerprints of gaps do not collide.
