/** Authorization of automatic runtime repairs against an approved case.

    A repair may rewrite numerical dictionaries and lower a few controlDict numbers.  Each
    candidate is checked before it is written, against the text on disk, the text approved
    first and the text authorized last.  The theorems are about whole histories: whatever
    candidates were proposed, whatever the workspace held in between, and whichever of them
    were rejected, every authorized text stays within the first approval. */
module RepairApproval {
  import opened FoamText
  import opened Wrappers

  /** A SHA-256 digest, taken to be injective. */
  datatype Digest = Sha(content: string)

  datatype Kind = NumericalDictionary | ControlDict

  /** Last component of a slash-separated path. */
  function BaseName(path: string): string {
    if path == "" then ""
    else if path[|path| - 1] == '/' then ""
    else BaseName(path[..|path| - 1]) + [path[|path| - 1]]
  }

  function PathKind(path: string): Option<Kind> {
    if !("system/" <= path) then None
    else if BaseName(path) in {"fvSchemes", "fvSolution"} then Some(NumericalDictionary)
    else if path == "system/controlDict" then Some(ControlDict)
    else None
  }

  /** What was approved: file digests and the places that carry user requirements. */
  datatype Approval = Approval(files: map<string, Digest>, protectedEntries: map<string, seq<string>>,
                               protectedFiles: set<string>)

  /** What repairs have been authorized: the last authorized digest, the first text and the
      digest each authorized text was checked against. */
  datatype Authorization = Authorization(hashes: map<string, Digest>, baselines: map<string, string>,
                                         baseHashes: map<string, Digest>)

  const NOTHING := Authorization(map[], map[], map[])

  datatype Rejection =
    | OutsideAuthorization
    | Unreadable
    | UnapprovedBaseline
    | FrozenFile
    | FrozenEntry
    | IncompleteControlDict
    | UnauthorizedEntry
    | LimitExceeded

  datatype Outcome = Accepted(auth: Authorization) | Rejected(path: string, reason: Rejection)

  function Get<V>(m: map<string, V>, key: string): Option<V> {
    if key in m then Some(m[key]) else None
  }

  /** Literal scalars are read by a given function: None for text that is not a finite
      number.  It ignores layout, as reading a float does. */
  type NumberReader = string -> Option<real>

  ghost predicate IgnoresLayout(number: NumberReader) {
    forall s, t :: Canonical(s) == Canonical(t) ==> number(s) == number(t)
  }

  function PositiveScalar(number: NumberReader, value: Option<string>): Option<real> {
    match value
    case None => None
    case Some(s) =>
      match number(s)
      case None => None
      case Some(r) => if r > 0.0 then Some(r) else None
  }

  const MUTABLE := {"deltaT", "maxDeltaT", "adjustTimeStep", "maxCo", "maxAlphaCo"}
  const BOOLEANS := {"true", "false", "yes", "no", "on", "off", "0", "1"}
  const ENABLED := {"true", "yes", "on", "1"}

  /** Top-level keys whose payloads differ in more than layout. */
  function Changed(before: Entries, after: Entries): set<string> {
    set key | key in before.payloads.Keys + after.payloads.Keys &&
      CanonicalOption(Lookup(before, key)) != CanonicalOption(Lookup(after, key))
  }

  function Frozen(entries: seq<string>): set<string> {
    set e | e in entries :: SplitDots(e)[0]
  }

  function OrElse(a: Option<string>, b: Option<string>): Option<string> {
    if a.None? || a.value == "" then b else a
  }

  /** The approved value that bounds an entry; maxDeltaT falls back to deltaT. */
  function Initial(original: Entries, entry: string): Option<string> {
    if entry == "maxDeltaT" then OrElse(Lookup(original, "maxDeltaT"), Lookup(original, "deltaT"))
    else Lookup(original, entry)
  }

  /** The timestep limit that enabling adaptive steps must respect. */
  function InitialTimestep(original: Entries): Option<string> {
    if Lookup(original, "maxDeltaT").Some? then Lookup(original, "maxDeltaT") else Lookup(original, "deltaT")
  }

  predicate AtMost(a: Option<real>, b: Option<real>) {
    a.Some? && b.Some? && a.value <= b.value
  }

  predicate EntryOk(number: NumberReader, original: Entries, before: Entries, after: Entries, entry: string) {
    if entry == "adjustTimeStep" then
      Lookup(after, entry).Some? && Lookup(after, entry).value in BOOLEANS &&
      (Lookup(after, entry).value in ENABLED ==>
         AtMost(PositiveScalar(number, Lookup(after, "maxDeltaT")), PositiveScalar(number, InitialTimestep(original))))
    else
      AtMost(PositiveScalar(number, Lookup(after, entry)), PositiveScalar(number, Initial(before, entry))) &&
      AtMost(PositiveScalar(number, Lookup(after, entry)), PositiveScalar(number, Initial(original, entry)))
  }

  /** The tests on a changed controlDict. */
  function EntriesVerdict(number: NumberReader, frozen: set<string>, original: Entries, before: Entries,
                          after: Entries): Option<Rejection>
  {
    var changed := Changed(before, after);
    if !before.complete || !after.complete then Some(IncompleteControlDict)
    else if changed * frozen != {} then Some(FrozenEntry)
    else if !(changed <= MUTABLE) then Some(UnauthorizedEntry)
    else if !original.complete then Some(IncompleteControlDict)
    else if exists entry :: entry in changed && !EntryOk(number, original, before, after, entry) then
      Some(LimitExceeded)
    else None
  }

  function ControlVerdict(number: NumberReader, frozen: set<string>, baseline: string, current: string,
                          proposed: string): Option<Rejection>
  {
    EntriesVerdict(number, frozen, TopLevelEntries(baseline), TopLevelEntries(current), TopLevelEntries(proposed))
  }

  predicate EntryKept(current: string, proposed: string, entry: string) {
    var before, after := LiteralEntryPayload(current, entry), LiteralEntryPayload(proposed, entry);
    before.Some? && after.Some? && Canonical(before.value) == Canonical(after.value)
  }

  /** The tests on a changed numerical dictionary. */
  function NumericalVerdict(frozen: seq<string>, current: string, proposed: string): Option<Rejection> {
    if exists i :: 0 <= i < |frozen| && !EntryKept(current, proposed, frozen[i]) then Some(FrozenEntry) else None
  }

  function ProtectedEntries(ap: Approval, path: string): seq<string> {
    if path in ap.protectedEntries then ap.protectedEntries[path] else []
  }

  /** The tests on the new content of a file, given the text it replaces. */
  function ContentVerdict(number: NumberReader, ap: Approval, path: string, kind: Kind, baseline: string,
                          current: string, proposed: string): Option<Rejection>
  {
    if path in ap.protectedFiles then Some(FrozenFile)
    else match kind
      case NumericalDictionary => NumericalVerdict(ProtectedEntries(ap, path), current, proposed)
      case ControlDict => ControlVerdict(number, Frozen(ProtectedEntries(ap, path)), baseline, current, proposed)
  }

  /** The text on disk is the approved one, the authorized one, or the one this very
      candidate was checked against before. */
  predicate BaselineOk(ap: Approval, auth: Authorization, path: string, current: string, proposed: string) {
    Get(ap.files, path) == Some(Sha(current)) || Get(auth.hashes, path) == Some(Sha(current)) ||
    (Get(auth.hashes, path) == Some(Sha(proposed)) && Get(auth.baseHashes, path) == Some(Sha(current)))
  }

  function BaselineOf(auth: Authorization, path: string, current: string): string {
    if path in auth.baselines then auth.baselines[path] else current
  }

  /** The outcome for one file, given the verdict on its content. */
  function Conclude(ap: Approval, auth: Authorization, path: string, kind: Kind, current: string, proposed: string,
                    verdict: Option<Rejection>): Outcome
  {
    if !BaselineOk(ap, auth, path, current, proposed) then Rejected(path, UnapprovedBaseline)
    else if proposed == current then Accepted(auth)
    else
      match verdict
      case Some(reason) => Rejected(path, reason)
      case None =>
        Accepted(Authorization(auth.hashes[path := Sha(proposed)],
                               if kind == ControlDict then auth.baselines[path := BaselineOf(auth, path, current)]
                               else auth.baselines,
                               auth.baseHashes[path := Sha(current)]))
  }

  /** One file of a candidate. */
  function CheckFile(number: NumberReader, ap: Approval, auth: Authorization, path: string,
                     current: Option<string>, proposed: string): Outcome
  {
    match PathKind(path)
    case None => Rejected(path, OutsideAuthorization)
    case Some(kind) =>
      match current
      case None => Rejected(path, Unreadable)
      case Some(text) =>
        Conclude(ap, auth, path, kind, text, proposed,
                 ContentVerdict(number, ap, path, kind, BaselineOf(auth, path, text), text, proposed))
  }

  datatype Change = Change(path: string, proposed: string)

  function CheckDelta(number: NumberReader, ap: Approval, auth: Authorization, workspace: map<string, string>,
                      delta: seq<Change>): Outcome
  {
    if delta == [] then Accepted(auth)
    else
      match CheckDelta(number, ap, auth, workspace, delta[..|delta| - 1])
      case Rejected(path, reason) => Rejected(path, reason)
      case Accepted(auth') =>
        var c := delta[|delta| - 1];
        CheckFile(number, ap, auth', c.path, Get(workspace, c.path), c.proposed)
  }

  ghost predicate DistinctPaths(delta: seq<Change>) {
    forall i, j :: 0 <= i < j < |delta| ==> delta[i].path != delta[j].path
  }

  /** The approval object: the approval is fixed, the authorization changes. */
  class ExecutionApproval {
    const number: NumberReader
    const approval: Approval
    var hashes: map<string, Digest>
    var baselines: map<string, string>
    var baseHashes: map<string, Digest>

    constructor (number: NumberReader, approval: Approval)
      ensures this.number == number && this.approval == approval && State() == NOTHING
    {
      this.number, this.approval := number, approval;
      hashes, baselines, baseHashes := map[], map[], map[];
    }

    ghost function State(): Authorization
      reads this
    {
      Authorization(hashes, baselines, baseHashes)
    }

    /** Check a whole candidate.  Its state changes only if every file passes. */
    method CheckRepairDelta(workspace: map<string, string>, delta: seq<Change>) returns (r: Outcome)
      modifies this
      ensures r == CheckDelta(number, approval, old(State()), workspace, delta)
      ensures State() == if r.Accepted? then r.auth else old(State())
    {
      var newHashes, newBaselines, newBaseHashes := hashes, baselines, baseHashes;
      for i := 0 to |delta|
        invariant State() == old(State())
        invariant CheckDelta(number, approval, old(State()), workspace, delta[..i]) ==
          Accepted(Authorization(newHashes, newBaselines, newBaseHashes))
      {
        var c := delta[i];
        assert delta[..i + 1][..i] == delta[..i];
        var verdict := CheckFile(number, approval, Authorization(newHashes, newBaselines, newBaseHashes),
                                 c.path, Get(workspace, c.path), c.proposed);
        if verdict.Rejected? {
          RejectionStands(number, approval, State(), workspace, delta, i + 1);
          return verdict;
        }
        newHashes, newBaselines, newBaseHashes :=
          verdict.auth.hashes, verdict.auth.baselines, verdict.auth.baseHashes;
      }
      assert delta[..|delta|] == delta;
      hashes, baselines, baseHashes := newHashes, newBaselines, newBaseHashes;
      return Accepted(Authorization(newHashes, newBaselines, newBaseHashes));
    }

    /** The seal check after files were written. */
    method CheckRepairFiles(seal: map<string, Digest>) returns (ok: bool)
      ensures ok <==> SealOk(approval, State(), seal)
    {
      ok := forall path :: path in seal.Keys + approval.files.Keys ==> SealedFileOk(approval, hashes, seal, path);
    }
  }

  lemma {:induction false} RejectionStands(number: NumberReader, ap: Approval, auth: Authorization,
                                           workspace: map<string, string>, delta: seq<Change>, n: nat)
    requires n <= |delta| && CheckDelta(number, ap, auth, workspace, delta[..n]).Rejected?
    ensures CheckDelta(number, ap, auth, workspace, delta) == CheckDelta(number, ap, auth, workspace, delta[..n])
    decreases |delta|
  {
    if n == |delta| {
      assert delta[..n] == delta;
    } else {
      assert delta[..|delta| - 1][..n] == delta[..n];
      RejectionStands(number, ap, auth, workspace, delta[..|delta| - 1], n);
    }
  }

  /** A sealed file is unchanged since approval, or a kind of file repairs may rewrite that
      carries exactly the authorized digest. */
  predicate SealedFileOk(ap: Approval, hashes: map<string, Digest>, seal: map<string, Digest>, path: string) {
    Get(seal, path) == Get(ap.files, path) ||
    (PathKind(path).Some? && path in seal && Get(hashes, path) == Get(seal, path))
  }

  ghost predicate SealOk(ap: Approval, auth: Authorization, seal: map<string, Digest>) {
    forall path :: path in seal.Keys + ap.files.Keys ==> SealedFileOk(ap, auth.hashes, seal, path)
  }

  // ----- Histories -----

  /** A candidate together with the workspace it met. */
  datatype Attempt = Attempt(workspace: map<string, string>, delta: seq<Change>)

  /** The authorization after a history of attempts; rejected ones leave it alone. */
  ghost function Run(number: NumberReader, ap: Approval, history: seq<Attempt>): Authorization {
    if history == [] then NOTHING
    else
      var before, a := Run(number, ap, history[..|history| - 1]), history[|history| - 1];
      match CheckDelta(number, ap, before, a.workspace, a.delta)
      case Accepted(after) => after
      case Rejected(_, _) => before
  }

  /** The text can be reached from the approved one by that many accepted rewrites, each
      measured against the approved text. */
  ghost predicate ReachedIn(number: NumberReader, ap: Approval, path: string, text: string, steps: nat)
    decreases steps
  {
    path in ap.files && PathKind(path).Some? &&
    if steps == 0 then ap.files[path] == Sha(text)
    else exists previous ::
      ReachedIn(number, ap, path, previous, steps - 1) &&
      ContentVerdict(number, ap, path, PathKind(path).value, ap.files[path].content, previous, text) == None
  }

  ghost predicate Reached(number: NumberReader, ap: Approval, path: string, text: string) {
    exists steps: nat :: steps > 0 && ReachedIn(number, ap, path, text, steps)
  }

  /** What every history keeps: authorized texts were reached by accepted rewrites, and the
      recorded first text of a controlDict is the approved one. */
  ghost predicate Sound(number: NumberReader, ap: Approval, auth: Authorization) {
    (forall path :: path in auth.hashes ==> Reached(number, ap, path, auth.hashes[path].content)) &&
    (forall path :: path in auth.hashes && PathKind(path) == Some(ControlDict) ==> path in auth.baselines) &&
    forall path :: path in auth.baselines ==> Get(ap.files, path) == Some(Sha(auth.baselines[path]))
  }

  lemma CheckFileSound(number: NumberReader, ap: Approval, auth: Authorization, path: string,
                       current: Option<string>, proposed: string)
    requires Sound(number, ap, auth)
    requires CheckFile(number, ap, auth, path, current, proposed).Accepted?
    ensures Sound(number, ap, CheckFile(number, ap, auth, path, current, proposed).auth)
  {
    var auth' := CheckFile(number, ap, auth, path, current, proposed).auth;
    if proposed != current.value {
      var kind, text := PathKind(path).value, current.value;
      assert path in ap.files by {
        if path in auth.hashes {
          assert Reached(number, ap, path, auth.hashes[path].content);
        }
      }
      var approved := ap.files[path].content;
      assert Reached(number, ap, path, proposed) by {
        if Get(ap.files, path) == Some(Sha(text)) {
          assert ReachedIn(number, ap, path, text, 0);
          StepReached(number, ap, auth, path, kind, text, proposed, 0);
        } else if Get(auth.hashes, path) == Some(Sha(text)) {
          var steps: nat :| steps > 0 && ReachedIn(number, ap, path, text, steps);
          StepReached(number, ap, auth, path, kind, text, proposed, steps);
        }
      }
      assert auth'.hashes == auth.hashes[path := Sha(proposed)];
    }
  }

  lemma StepReached(number: NumberReader, ap: Approval, auth: Authorization, path: string, kind: Kind,
                    text: string, proposed: string, steps: nat)
    requires Sound(number, ap, auth) && ReachedIn(number, ap, path, text, steps)
    requires steps == 0 || path in auth.hashes
    requires PathKind(path) == Some(kind)
    requires ContentVerdict(number, ap, path, kind, BaselineOf(auth, path, text), text, proposed) == None
    ensures ReachedIn(number, ap, path, proposed, steps + 1)
  {
    if kind == ControlDict {
      assert BaselineOf(auth, path, text) == ap.files[path].content;
    }
    assert ContentVerdict(number, ap, path, kind, ap.files[path].content, text, proposed) == None;
  }

  lemma {:induction false} CheckDeltaSound(number: NumberReader, ap: Approval, auth: Authorization,
                                           workspace: map<string, string>, delta: seq<Change>)
    requires Sound(number, ap, auth) && CheckDelta(number, ap, auth, workspace, delta).Accepted?
    ensures Sound(number, ap, CheckDelta(number, ap, auth, workspace, delta).auth)
    decreases |delta|
  {
    if delta != [] {
      var c := delta[|delta| - 1];
      CheckDeltaSound(number, ap, auth, workspace, delta[..|delta| - 1]);
      CheckFileSound(number, ap, CheckDelta(number, ap, auth, workspace, delta[..|delta| - 1]).auth,
                     c.path, Get(workspace, c.path), c.proposed);
    }
  }

  /** Every history keeps the invariant. */
  lemma {:induction false} HistorySound(number: NumberReader, ap: Approval, history: seq<Attempt>)
    ensures Sound(number, ap, Run(number, ap, history))
  {
    if history != [] {
      var a := history[|history| - 1];
      var before := Run(number, ap, history[..|history| - 1]);
      HistorySound(number, ap, history[..|history| - 1]);
      if CheckDelta(number, ap, before, a.workspace, a.delta).Accepted? {
        CheckDeltaSound(number, ap, before, a.workspace, a.delta);
      }
    }
  }
}
