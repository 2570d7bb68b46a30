/** What the authorization of repairs guarantees over every history. */
module RepairBounds {
  import Printing = FoamPrinting
  import opened FoamText
  import opened FoamWords
  import opened RepairApproval
  import opened Wrappers

  // ----- Facts about payloads -----

  lemma BooleanWord(s: string)
    requires s in BOOLEANS
    ensures Word(s)
  {
    var c := s[0];
    assert c in {'t', 'f', 'y', 'n', 'o', '0', '1'};
  }

  lemma BooleanCanonical(s: string)
    requires s in BOOLEANS
    ensures Canonical(s) == [s]
  {
    BooleanWord(s);
    WordCanonical(s);
  }

  lemma TrimNonempty(s: string)
    requires s != "" && !IsSpace(s[0])
    ensures Trim(s) != ""
  {
    TrimEndNonempty(s);
  }

  lemma {:induction false} TrimEndNonempty(s: string)
    requires s != "" && !IsSpace(s[0])
    ensures TrimEnd(s) != ""
  {
    if IsSpace(s[|s| - 1]) {
      TrimEndNonempty(s[..|s| - 1]);
    }
  }

  lemma NextEntryNonempty(s: string)
    ensures NextEntry(s).Parsed? && NextEntry(s).literal ==> NextEntry(s).payload != ""
  {
    var s1 := SkipSpace(s);
    if s1 != "" && s1[0] != '#' && KeyLength(s1) != 0 {
      var s2 := SkipSpace(s1[KeyLength(s1)..]);
      if s2 != "" && s2[0] == '{' && AfterBraces(s2, 0, None).Some? {
        TrimNonempty(s2[..|s2| - |AfterBraces(s2, 0, None).value|]);
      }
    }
  }

  /** Text that reads completely has no empty payload. */
  lemma {:induction false} CompletePayloadsNonempty(s: string, acc: Entries)
    requires acc.complete ==> forall key :: key in acc.payloads ==> acc.payloads[key] != ""
    ensures ReadEntries(s, acc).complete ==>
      forall key :: key in ReadEntries(s, acc).payloads ==> ReadEntries(s, acc).payloads[key] != ""
    decreases |s|
  {
    var e := NextEntry(s);
    if e.Parsed? && e.key !in acc.payloads {
      NextEntryNonempty(s);
      var acc' := Entries(acc.payloads[e.key := e.payload], acc.complete && e.literal);
      CompletePayloadsNonempty(e.rest, acc');
    }
  }

  /** On complete text, falling back for a missing maxDeltaT is falling back for an empty one. */
  lemma TimestepLimitAgrees(text: string)
    requires TopLevelEntries(text).complete
    ensures Initial(TopLevelEntries(text), "maxDeltaT") == InitialTimestep(TopLevelEntries(text))
  {
    CompletePayloadsNonempty(Strip(None, text), Entries(map[], true));
  }

  lemma SameScalar(number: NumberReader, a: Option<string>, b: Option<string>)
    requires IgnoresLayout(number) && CanonicalOption(a) == CanonicalOption(b)
    ensures PositiveScalar(number, a) == PositiveScalar(number, b)
  {
    if a.Some? {
      assert Canonical(a.value) == Canonical(b.value);
    }
  }

  // ----- controlDict -----

  /** Adaptive time stepping is switched on. */
  ghost predicate AdaptiveOn(e: Entries) {
    exists word :: word in ENABLED && CanonicalOption(Lookup(e, "adjustTimeStep")) == Some([word])
  }

  ghost predicate Within(number: NumberReader, value: Option<string>, limit: Option<string>) {
    AtMost(PositiveScalar(number, value), PositiveScalar(number, limit))
  }

  /** Relative to the approved entries: only the adjustable entries differ, no frozen one
      does, each number that differs is positive and no larger, and if adaptive stepping was
      switched on there is a maxDeltaT within the approved limit. */
  ghost predicate ControlBound(number: NumberReader, frozen: set<string>, approved: Entries, e: Entries) {
    Changed(approved, e) <= MUTABLE && Changed(approved, e) !! frozen &&
    (forall entry :: entry in Changed(approved, e) && entry != "adjustTimeStep" ==>
      Within(number, Lookup(e, entry), Initial(approved, entry))) &&
    ("adjustTimeStep" in Changed(approved, e) && AdaptiveOn(e) ==>
      Within(number, Lookup(e, "maxDeltaT"), InitialTimestep(approved)))
  }

  lemma ChangedThrough(a: Entries, b: Entries, c: Entries)
    ensures Changed(a, c) <= Changed(a, b) + Changed(b, c)
    ensures forall entry :: entry !in Changed(b, c) ==>
      CanonicalOption(Lookup(b, entry)) == CanonicalOption(Lookup(c, entry))
    ensures forall entry :: entry in Changed(a, c) && entry !in Changed(b, c) ==> entry in Changed(a, b)
  {
    forall entry | entry !in Changed(b, c)
      ensures CanonicalOption(Lookup(b, entry)) == CanonicalOption(Lookup(c, entry)) {}
    forall entry | entry in Changed(a, c) && entry !in Changed(b, c) ensures entry in Changed(a, b) {
      assert entry in a.payloads || entry in b.payloads;
    }
  }

  lemma NumberStep(number: NumberReader, a: Entries, b: Entries, c: Entries, entry: string)
    requires IgnoresLayout(number) && entry in Changed(a, c) && entry != "adjustTimeStep"
    requires entry in Changed(b, c) ==> EntryOk(number, a, b, c, entry)
    requires entry in Changed(a, b) ==> Within(number, Lookup(b, entry), Initial(a, entry))
    ensures Within(number, Lookup(c, entry), Initial(a, entry))
  {
    if entry !in Changed(b, c) {
      ChangedThrough(a, b, c);
      SameScalar(number, Lookup(b, entry), Lookup(c, entry));
    }
  }

  lemma AdaptiveStep(number: NumberReader, a: Entries, b: Entries, c: Entries)
    requires IgnoresLayout(number) && "adjustTimeStep" in Changed(a, c) && AdaptiveOn(c)
    requires Initial(a, "maxDeltaT") == InitialTimestep(a)
    requires forall entry :: entry in Changed(b, c) ==> EntryOk(number, a, b, c, entry)
    requires "adjustTimeStep" in Changed(a, b) && AdaptiveOn(b) ==>
      Within(number, Lookup(b, "maxDeltaT"), InitialTimestep(a))
    ensures Within(number, Lookup(c, "maxDeltaT"), InitialTimestep(a))
  {
    ChangedThrough(a, b, c);
    if "adjustTimeStep" in Changed(b, c) {
      BooleanCanonical(Lookup(c, "adjustTimeStep").value);
    } else {
      assert AdaptiveOn(b);
      if "maxDeltaT" !in Changed(b, c) {
        SameScalar(number, Lookup(b, "maxDeltaT"), Lookup(c, "maxDeltaT"));
      }
    }
  }

  lemma StaysInside<T>(x: set<T>, y: set<T>, z: set<T>, allowed: set<T>, frozen: set<T>)
    requires x <= y + z && y <= allowed && z <= allowed && y !! frozen && z !! frozen
    ensures x <= allowed && x !! frozen
  {}

  lemma VerdictNone(number: NumberReader, frozen: set<string>, a: Entries, b: Entries, c: Entries)
    requires EntriesVerdict(number, frozen, a, b, c) == None
    ensures Changed(b, c) <= MUTABLE && Changed(b, c) !! frozen
    ensures forall entry :: entry in Changed(b, c) ==> EntryOk(number, a, b, c, entry)
  {
    forall entry | entry in Changed(b, c) ensures EntryOk(number, a, b, c, entry) && entry !in frozen {
      assert Changed(b, c) * frozen == {};
      assert entry in Changed(b, c) * frozen <==> entry in frozen;
    }
  }

  /** One accepted rewrite keeps the bound. */
  lemma BoundStep(number: NumberReader, frozen: set<string>, a: Entries, b: Entries, c: Entries)
    requires IgnoresLayout(number) && Initial(a, "maxDeltaT") == InitialTimestep(a)
    requires EntriesVerdict(number, frozen, a, b, c) == None
    requires ControlBound(number, frozen, a, b)
    ensures ControlBound(number, frozen, a, c)
  {
    ChangedThrough(a, b, c);
    VerdictNone(number, frozen, a, b, c);
    StaysInside(Changed(a, c), Changed(a, b), Changed(b, c), MUTABLE, frozen);
    forall entry | entry in Changed(a, c) && entry != "adjustTimeStep"
      ensures Within(number, Lookup(c, entry), Initial(a, entry))
    {
      NumberStep(number, a, b, c, entry);
    }
    if "adjustTimeStep" in Changed(a, c) && AdaptiveOn(c) {
      AdaptiveStep(number, a, b, c);
    }
  }

  /** A text stays within the approval: per kind of file. */
  ghost predicate WithinApproval(number: NumberReader, ap: Approval, path: string, text: string) {
    path in ap.files && path !in ap.protectedFiles &&
    match PathKind(path)
    case None => false
    case Some(NumericalDictionary) =>
      forall i :: 0 <= i < |ProtectedEntries(ap, path)| ==>
        EntryKept(ap.files[path].content, text, ProtectedEntries(ap, path)[i])
    case Some(ControlDict) =>
      TopLevelEntries(text).complete && TopLevelEntries(ap.files[path].content).complete &&
      ControlBound(number, Frozen(ProtectedEntries(ap, path)), TopLevelEntries(ap.files[path].content),
                   TopLevelEntries(text))
  }

  lemma Unchanged(e: Entries)
    ensures Changed(e, e) == {}
  {}

  /** Whatever was reached by accepted rewrites is within the approval. */
  lemma {:induction false} ReachedWithinApproval(number: NumberReader, ap: Approval, path: string, text: string,
                                                 steps: nat)
    requires IgnoresLayout(number) && steps > 0 && ReachedIn(number, ap, path, text, steps)
    ensures WithinApproval(number, ap, path, text)
    decreases steps
  {
    var kind, approved := PathKind(path).value, ap.files[path].content;
    var previous :| ReachedIn(number, ap, path, previous, steps - 1) &&
      ContentVerdict(number, ap, path, kind, approved, previous, text) == None;
    if steps > 1 {
      ReachedWithinApproval(number, ap, path, previous, steps - 1);
    } else {
      assert previous == approved;
    }
    match kind {
      case NumericalDictionary =>
        var frozen := ProtectedEntries(ap, path);
        forall i | 0 <= i < |frozen| ensures EntryKept(approved, text, frozen[i]) {
          assert EntryKept(previous, text, frozen[i]);
        }
      case ControlDict =>
        Unchanged(TopLevelEntries(approved));
        TimestepLimitAgrees(approved);
        BoundStep(number, Frozen(ProtectedEntries(ap, path)), TopLevelEntries(approved), TopLevelEntries(previous),
                  TopLevelEntries(text));
    }
  }

  /** Main theorem: after any history of attempts over any workspaces, every authorized text
      is within the first approval. */
  lemma HistoryWithinApproval(number: NumberReader, ap: Approval, history: seq<Attempt>, path: string)
    requires IgnoresLayout(number) && path in Run(number, ap, history).hashes
    ensures WithinApproval(number, ap, path, Run(number, ap, history).hashes[path].content)
  {
    HistorySound(number, ap, history);
    var text := Run(number, ap, history).hashes[path].content;
    assert Reached(number, ap, path, text);
    var steps: nat :| steps > 0 && ReachedIn(number, ap, path, text, steps);
    ReachedWithinApproval(number, ap, path, text, steps);
  }

  /** Main theorem: a seal accepted after any history has exactly the approved files, and
      each of them is unchanged or was reached by accepted rewrites and is within the
      approval. */
  lemma AcceptedSeal(number: NumberReader, ap: Approval, history: seq<Attempt>, seal: map<string, Digest>)
    requires IgnoresLayout(number) && SealOk(ap, Run(number, ap, history), seal)
    ensures seal.Keys == ap.files.Keys
    ensures forall path :: path in seal.Keys ==>
      (seal[path] == ap.files[path] ||
       (Reached(number, ap, path, seal[path].content) && WithinApproval(number, ap, path, seal[path].content)))
  {
    var auth := Run(number, ap, history);
    HistorySound(number, ap, history);
    forall path | path in seal.Keys + ap.files.Keys
      ensures path in seal && path in ap.files
      ensures seal[path] == ap.files[path] ||
        (Reached(number, ap, path, seal[path].content) && WithinApproval(number, ap, path, seal[path].content))
    {
      assert SealedFileOk(ap, auth.hashes, seal, path);
      if Get(seal, path) != Get(ap.files, path) {
        assert path in auth.hashes;
        assert Reached(number, ap, path, auth.hashes[path].content);
        HistoryWithinApproval(number, ap, history, path);
      }
    }
  }

  // ----- Against the last authorized text -----

  const CONTROL := "system/controlDict"

  /** The number that bounds an adjustable entry of a text. */
  function Limit(number: NumberReader, text: string, entry: string): Option<real> {
    PositiveScalar(number, Initial(TopLevelEntries(text), entry))
  }

  /** A number above another, where a number is above none. */
  predicate Exceeds(a: Option<real>, b: Option<real>) {
    a.Some? && (b.Some? ==> a.value > b.value)
  }

  /** The text allows a larger number for the entry than the text authorized last. */
  predicate Raises(number: NumberReader, last: string, text: string, entry: string) {
    Exceeds(Limit(number, text, entry), Limit(number, last, entry))
  }

  lemma ExceedsChain(a: Option<real>, b: Option<real>, c: Option<real>)
    requires !Exceeds(a, b) && Exceeds(a, c)
    ensures Exceeds(b, c)
  {}

  /** An accepted rewrite never raises a number above the text it replaces. */
  lemma RewriteNeverRaises(number: NumberReader, frozen: set<string>, baseline: string, current: string,
                           proposed: string, entry: string)
    requires IgnoresLayout(number) && entry != "adjustTimeStep"
    requires ControlVerdict(number, frozen, baseline, current, proposed) == None
    ensures !Raises(number, current, proposed, entry)
  {
    var a, b, c := TopLevelEntries(baseline), TopLevelEntries(current), TopLevelEntries(proposed);
    VerdictNone(number, frozen, a, b, c);
    UnchangedOrLower(number, a, b, c, entry);
    if entry == "maxDeltaT" {
      UnchangedOrLower(number, a, b, c, "deltaT");
      CompletePayloadsNonempty(Strip(None, current), Entries(map[], true));
      CompletePayloadsNonempty(Strip(None, proposed), Entries(map[], true));
    }
  }

  lemma UnchangedOrLower(number: NumberReader, a: Entries, b: Entries, c: Entries, entry: string)
    requires IgnoresLayout(number) && entry != "adjustTimeStep"
    requires entry in Changed(b, c) ==> EntryOk(number, a, b, c, entry)
    ensures entry !in Changed(b, c) ==> (Lookup(b, entry).Some? <==> Lookup(c, entry).Some?)
    ensures entry !in Changed(b, c) ==>
      PositiveScalar(number, Lookup(b, entry)) == PositiveScalar(number, Lookup(c, entry))
    ensures entry in Changed(b, c) ==> Within(number, Lookup(c, entry), Initial(b, entry))
  {
    if entry !in Changed(b, c) {
      ChangedThrough(a, b, c);
      SameScalar(number, Lookup(b, entry), Lookup(c, entry));
    }
  }

  /** The check accepts the proposal and authorizes it anew. */
  predicate Authorizes(number: NumberReader, ap: Approval, auth: Authorization, current: string, proposed: string) {
    proposed != current && CheckFile(number, ap, auth, CONTROL, Some(current), proposed).Accepted?
  }

  /** The controlDict authorized last, or the approved one before any repair. */
  function LastText(ap: Approval, auth: Authorization): Option<string> {
    if CONTROL in auth.hashes then Some(auth.hashes[CONTROL].content)
    else if CONTROL in ap.files then Some(ap.files[CONTROL].content)
    else None
  }

  /** Disk text that a new repair may start from. */
  predicate Base(ap: Approval, auth: Authorization, current: string) {
    Get(ap.files, CONTROL) == Some(Sha(current)) || Get(auth.hashes, CONTROL) == Some(Sha(current))
  }

  lemma ControlKind()
    ensures PathKind(CONTROL) == Some(ControlDict)
  {
    BaseNameEnds("system", "controlDict");
    assert "system" + "/" + "controlDict" == CONTROL;
    assert CONTROL[..7] == "system/";
  }

  lemma {:induction false} BaseNameEnds(folder: string, name: string)
    requires '/' !in name
    ensures BaseName(folder + "/" + name) == name
  {
    var path := folder + "/" + name;
    if name != "" {
      var n := |name| - 1;
      BaseNameEnds(folder, name[..n]);
      assert path[..|path| - 1] == folder + "/" + name[..n];
      assert name == name[..n] + [name[n]];
    }
  }

  /** After an authorization all texts read completely and the first text is the approved one. */
  lemma AuthorizedTexts(number: NumberReader, ap: Approval, auth: Authorization)
    requires Sound(number, ap, auth) && IgnoresLayout(number) && CONTROL in auth.hashes
    ensures CONTROL in ap.files && CONTROL !in ap.protectedFiles
    ensures CONTROL in auth.baselines && auth.baselines[CONTROL] == ap.files[CONTROL].content
    ensures TopLevelEntries(ap.files[CONTROL].content).complete
    ensures TopLevelEntries(auth.hashes[CONTROL].content).complete
  {
    ControlKind();
    var last := auth.hashes[CONTROL].content;
    assert Reached(number, ap, CONTROL, last);
    var steps: nat :| steps > 0 && ReachedIn(number, ap, CONTROL, last, steps);
    ReachedWithinApproval(number, ap, CONTROL, last, steps);
  }

  /** Disk text with a line break in front authorizes the numbers on disk. */
  lemma BrokenLineAuthorized(number: NumberReader, ap: Approval, auth: Authorization, current: string)
    requires Sound(number, ap, auth) && IgnoresLayout(number)
    requires CONTROL in auth.hashes && Base(ap, auth, current)
    ensures Authorizes(number, ap, auth, current, "\n" + current)
    ensures TopLevelEntries("\n" + current) == TopLevelEntries(current)
  {
    ControlKind();
    AuthorizedTexts(number, ap, auth);
    Printing.EntriesAfterBreak(current);
    SameEntriesPass(number, Frozen(ProtectedEntries(ap, CONTROL)), ap.files[CONTROL].content, current, "\n" + current);
    assert |"\n" + current| != |current|;
  }

  lemma SameEntriesPass(number: NumberReader, frozen: set<string>, baseline: string, current: string, proposed: string)
    requires TopLevelEntries(current) == TopLevelEntries(proposed)
    requires TopLevelEntries(current).complete && TopLevelEntries(baseline).complete
    ensures ControlVerdict(number, frozen, baseline, current, proposed) == None
  {
    Unchanged(TopLevelEntries(current));
  }

  /** An accepted proposal is no higher than the text on disk. */
  lemma AcceptedNotAboveDisk(number: NumberReader, ap: Approval, auth: Authorization, current: string,
                             proposed: string, entry: string)
    requires IgnoresLayout(number) && entry != "adjustTimeStep" && Authorizes(number, ap, auth, current, proposed)
    ensures !Raises(number, current, proposed, entry)
  {
    ControlKind();
    RewriteNeverRaises(number, Frozen(ProtectedEntries(ap, CONTROL)), BaselineOf(auth, CONTROL, current), current,
                       proposed, entry);
  }

  /** A proposal that is not the authorized text is accepted on a base only. */
  lemma AcceptedOnBase(number: NumberReader, ap: Approval, auth: Authorization, current: string, proposed: string)
    requires Authorizes(number, ap, auth, current, proposed)
    ensures Base(ap, auth, current) || LastText(ap, auth) == Some(proposed)
  {
    ControlKind();
  }

  /** Main theorem: some proposal that raises a number above the text authorized last is
      accepted exactly when the text on disk is the approved or the authorized one and already
      has the larger number. */
  lemma RaisesIffDiskDoes(number: NumberReader, ap: Approval, history: seq<Attempt>, last: string, current: string,
                          entry: string)
    requires IgnoresLayout(number) && entry != "adjustTimeStep"
    requires LastText(ap, Run(number, ap, history)) == Some(last)
    ensures var auth := Run(number, ap, history);
      (exists proposed :: Authorizes(number, ap, auth, current, proposed) && Raises(number, last, proposed, entry)) <==>
      Base(ap, auth, current) && Raises(number, last, current, entry)
  {
    var auth := Run(number, ap, history);
    HistorySound(number, ap, history);
    if Base(ap, auth, current) && Raises(number, last, current, entry) {
      BrokenLineAuthorized(number, ap, auth, current);
      assert Raises(number, last, "\n" + current, entry);
    }
    forall proposed | Authorizes(number, ap, auth, current, proposed) && Raises(number, last, proposed, entry)
      ensures Base(ap, auth, current) && Raises(number, last, current, entry)
    {
      RaiseNeedsDisk(number, ap, auth, last, current, proposed, entry);
    }
  }

  lemma RaiseNeedsDisk(number: NumberReader, ap: Approval, auth: Authorization, last: string, current: string,
                       proposed: string, entry: string)
    requires IgnoresLayout(number) && entry != "adjustTimeStep" && LastText(ap, auth) == Some(last)
    requires Authorizes(number, ap, auth, current, proposed) && Raises(number, last, proposed, entry)
    ensures Base(ap, auth, current) && Raises(number, last, current, entry)
  {
    AcceptedOnBase(number, ap, auth, current, proposed);
    AcceptedNotAboveDisk(number, ap, auth, current, proposed, entry);
    ExceedsChain(Limit(number, proposed, entry), Limit(number, current, entry), Limit(number, last, entry));
  }

  /** A candidate that touches the controlDict meets one whose number is not above the one
      authorized last. */
  predicate MeetsNoLarger(number: NumberReader, ap: Approval, auth: Authorization, a: Attempt, entry: string) {
    (exists i :: 0 <= i < |a.delta| && a.delta[i].path == CONTROL) && CONTROL in a.workspace ==>
      (LastText(ap, auth).Some? ==> !Raises(number, LastText(ap, auth).value, a.workspace[CONTROL], entry))
  }

  predicate NotRaised(number: NumberReader, before: Option<string>, after: Option<string>, entry: string) {
    before.Some? ==> after.Some? && !Raises(number, before.value, after.value, entry)
  }

  /** One accepted controlDict over disk text with no larger number. */
  lemma FileNotRaised(number: NumberReader, ap: Approval, auth: Authorization, last: string, current: string,
                      proposed: string, entry: string)
    requires IgnoresLayout(number) && entry != "adjustTimeStep" && LastText(ap, auth) == Some(last)
    requires CheckFile(number, ap, auth, CONTROL, Some(current), proposed).Accepted?
    requires !Raises(number, last, current, entry)
    ensures NotRaised(number, Some(last),
                      LastText(ap, CheckFile(number, ap, auth, CONTROL, Some(current), proposed).auth), entry)
  {
    ControlKind();
    if proposed != current {
      AcceptedNotAboveDisk(number, ap, auth, current, proposed, entry);
      if Raises(number, last, proposed, entry) {
        ExceedsChain(Limit(number, proposed, entry), Limit(number, current, entry), Limit(number, last, entry));
      }
    }
  }

  /** The authorization after the first n files of a candidate. */
  function After(number: NumberReader, ap: Approval, auth: Authorization, a: Attempt, n: nat): Outcome
    requires n <= |a.delta|
  {
    CheckDelta(number, ap, auth, a.workspace, a.delta[..n])
  }

  lemma AfterOneMore(number: NumberReader, ap: Approval, auth: Authorization, a: Attempt, n: nat)
    requires n < |a.delta| && After(number, ap, auth, a, n + 1).Accepted?
    ensures After(number, ap, auth, a, n).Accepted?
    ensures After(number, ap, auth, a, n + 1) ==
      CheckFile(number, ap, After(number, ap, auth, a, n).auth, a.delta[n].path, Get(a.workspace, a.delta[n].path),
                a.delta[n].proposed)
  {
    assert a.delta[..n + 1][..n] == a.delta[..n];
  }

  /** An accepted candidate that meets no larger number authorizes none. */
  lemma {:induction false} DeltaNotRaised(number: NumberReader, ap: Approval, auth: Authorization, a: Attempt,
                                          n: nat, entry: string)
    requires IgnoresLayout(number) && entry != "adjustTimeStep" && DistinctPaths(a.delta) && n <= |a.delta|
    requires After(number, ap, auth, a, n).Accepted? && MeetsNoLarger(number, ap, auth, a, entry)
    ensures NotRaised(number, LastText(ap, auth), LastText(ap, After(number, ap, auth, a, n).auth), entry)
    ensures (forall i :: 0 <= i < n ==> a.delta[i].path != CONTROL) ==>
      LastText(ap, After(number, ap, auth, a, n).auth) == LastText(ap, auth)
    decreases n
  {
    if n > 0 {
      var c := a.delta[n - 1];
      AfterOneMore(number, ap, auth, a, n - 1);
      DeltaNotRaised(number, ap, auth, a, n - 1, entry);
      var before := After(number, ap, auth, a, n - 1).auth;
      if c.path != CONTROL {
        CheckFileLocal(number, ap, before, c.path, Get(a.workspace, c.path), c.proposed, CONTROL);
      } else if LastText(ap, auth).Some? {
        assert LastText(ap, before) == LastText(ap, auth);
        FileNotRaised(number, ap, before, LastText(ap, auth).value, a.workspace[CONTROL], c.proposed, entry);
      }
    }
  }

  lemma NotRaisedChain(number: NumberReader, a: Option<string>, b: Option<string>, c: Option<string>, entry: string)
    requires NotRaised(number, a, b, entry) && NotRaised(number, b, c, entry)
    ensures NotRaised(number, a, c, entry)
  {}

  /** One more attempt, accepted or not. */
  lemma AttemptNotRaised(number: NumberReader, ap: Approval, history: seq<Attempt>, a: Attempt, entry: string)
    requires IgnoresLayout(number) && entry != "adjustTimeStep" && DistinctPaths(a.delta)
    requires MeetsNoLarger(number, ap, Run(number, ap, history), a, entry)
    ensures NotRaised(number, LastText(ap, Run(number, ap, history)),
                      LastText(ap, Run(number, ap, history + [a])), entry)
  {
    assert (history + [a])[..|history|] == history;
    assert a.delta[..|a.delta|] == a.delta;
    if CheckDelta(number, ap, Run(number, ap, history), a.workspace, a.delta).Accepted? {
      DeltaNotRaised(number, ap, Run(number, ap, history), a, |a.delta|, entry);
    }
  }

  /** From some point on, every candidate meets no number above the one authorized last. */
  ghost predicate MeetsNoLargerFrom(number: NumberReader, ap: Approval, history: seq<Attempt>, i: nat, entry: string) {
    forall k :: i <= k < |history| ==>
      DistinctPaths(history[k].delta) && MeetsNoLarger(number, ap, Run(number, ap, history[..k]), history[k], entry)
  }

  /** Main theorem: while candidates meet no number above the one authorized last, as they do
      when they meet the last authorized text, no number is ever raised again. */
  lemma {:induction false} HistoryNotRaised(number: NumberReader, ap: Approval, history: seq<Attempt>, i: nat,
                                            entry: string)
    requires IgnoresLayout(number) && entry != "adjustTimeStep" && i <= |history|
    requires MeetsNoLargerFrom(number, ap, history, i, entry)
    ensures NotRaised(number, LastText(ap, Run(number, ap, history[..i])),
                      LastText(ap, Run(number, ap, history)), entry)
    decreases |history|
  {
    if i == |history| {
      assert history[..i] == history;
    } else {
      var n := |history| - 1;
      var earlier := history[..n];
      assert earlier[..i] == history[..i] && earlier + [history[n]] == history;
      assert forall k :: i <= k < n ==> earlier[..k] == history[..k];
      HistoryNotRaised(number, ap, earlier, i, entry);
      AttemptNotRaised(number, ap, earlier, history[n], entry);
      NotRaisedChain(number, LastText(ap, Run(number, ap, history[..i])), LastText(ap, Run(number, ap, earlier)),
                     LastText(ap, Run(number, ap, history)), entry);
    }
  }

  /** A controlDict with one timestep. */
  function Timestep(value: string): string {
    Printing.Print([Printing.Leaf("deltaT", value)])
  }

  /** A digit is a payload of its own. */
  lemma DigitPayload(digit: char)
    requires '0' <= digit <= '9'
    ensures Printing.WellFormedPayload([digit])
  {
    var payload, ended := [digit], [digit, ';'];
    assert payload + ";" == ended && payload[1..] == "" && ended[1..] == ";" && ended[2..] == "";
    assert Printing.Plain(None, ";");
    assert Printing.ScalarText("", Brackets(0, 0), None);
    assert Printing.ScalarText(payload, Brackets(0, 0), None);
  }

  /** One printed entry is read back. */
  lemma OneEntryRead(key: string, payload: string)
    requires Printing.WellFormedKey(key) && Printing.WellFormedPayload(payload)
    ensures TopLevelEntries(Printing.Print([Printing.Leaf(key, payload)])) == OneEntry(key, payload)
  {
    var nodes := [Printing.Leaf(key, payload)];
    Printing.PrintedEntriesRecovered(nodes);
    assert nodes[1..] == [];
  }

  lemma TimestepRead(digit: char)
    requires '0' <= digit <= '9'
    ensures TopLevelEntries(Timestep([digit])) == OneEntry("deltaT", [digit])
  {
    DigitPayload(digit);
    OneEntryRead("deltaT", [digit]);
  }

  function OneEntry(key: string, value: string): Entries {
    Entries(map[key := value], true)
  }

  lemma OneEntryChanged(key: string, value: string, other: string)
    requires Canonical(value) != Canonical(other)
    ensures Changed(OneEntry(key, value), OneEntry(key, other)) == {key}
  {
    assert Lookup(OneEntry(key, value), key) == Some(value) && Lookup(OneEntry(key, other), key) == Some(other);
  }

  /** Lowering the one entry of a text is authorized. */
  lemma LoweredAccepted(number: NumberReader, key: string, value: string, other: string)
    requires key in MUTABLE && key != "adjustTimeStep" && key != "maxDeltaT" && Canonical(value) != Canonical(other)
    requires AtMost(PositiveScalar(number, Some(other)), PositiveScalar(number, Some(value)))
    ensures EntriesVerdict(number, {}, OneEntry(key, value), OneEntry(key, value), OneEntry(key, other)) == None
  {
    var a, c := OneEntry(key, value), OneEntry(key, other);
    OneEntryChanged(key, value, other);
    assert Lookup(a, key) == Some(value) && Lookup(c, key) == Some(other);
    assert EntryOk(number, a, a, c, key);
  }

  /** An approval of one controlDict without protected entries. */
  function OnlyControl(approved: string): Approval {
    Approval(map[CONTROL := Sha(approved)], map[], {})
  }

  /** A repair while the approved text is on disk. */
  function Restored(approved: string, proposed: string): Attempt {
    Attempt(map[CONTROL := approved], [Change(CONTROL, proposed)])
  }

  /** A repair that lowers the one entry of the approved controlDict is authorized. */
  lemma LoweredFile(number: NumberReader, auth: Authorization, approved: string, proposed: string, key: string,
                    value: string, other: string)
    requires TopLevelEntries(approved) == OneEntry(key, value) && TopLevelEntries(proposed) == OneEntry(key, other)
    requires key in MUTABLE && key != "adjustTimeStep" && key != "maxDeltaT" && Canonical(value) != Canonical(other)
    requires AtMost(PositiveScalar(number, Some(other)), PositiveScalar(number, Some(value)))
    requires BaselineOf(auth, CONTROL, approved) == approved
    ensures CheckDelta(number, OnlyControl(approved), auth, Restored(approved, proposed).workspace,
                       Restored(approved, proposed).delta) ==
      Accepted(Authorization(auth.hashes[CONTROL := Sha(proposed)], auth.baselines[CONTROL := approved],
                             auth.baseHashes[CONTROL := Sha(approved)]))
  {
    LoweredAccepted(number, key, value, other);
    OneEntryChanged(key, value, other);
    Unchanged(OneEntry(key, value));
    assert proposed != approved;
    OneFile(number, auth, approved, proposed);
  }

  lemma OneFile(number: NumberReader, auth: Authorization, approved: string, proposed: string)
    requires proposed != approved && BaselineOf(auth, CONTROL, approved) == approved
    requires ControlVerdict(number, {}, approved, approved, proposed) == None
    ensures CheckDelta(number, Approval(map[CONTROL := Sha(approved)], map[], {}), auth, map[CONTROL := approved],
                       [Change(CONTROL, proposed)]) ==
      Accepted(Authorization(auth.hashes[CONTROL := Sha(proposed)], auth.baselines[CONTROL := approved],
                             auth.baseHashes[CONTROL := Sha(approved)]))
  {
    var ap, workspace := Approval(map[CONTROL := Sha(approved)], map[], {}), map[CONTROL := approved];
    var delta := [Change(CONTROL, proposed)];
    ControlKind();
    assert delta[..|delta| - 1] == [];
    assert CheckDelta(number, ap, auth, workspace, []) == Accepted(auth);
    assert Frozen([]) == {};
    assert ContentVerdict(number, ap, CONTROL, ControlDict, approved, approved, proposed) == None;
  }

  lemma OneMore(number: NumberReader, ap: Approval, history: seq<Attempt>, a: Attempt)
    ensures CheckDelta(number, ap, Run(number, ap, history), a.workspace, a.delta).Accepted? ==>
      Run(number, ap, history + [a]) == CheckDelta(number, ap, Run(number, ap, history), a.workspace, a.delta).auth
  {
    assert (history + [a])[..|history|] == history;
  }

  /** After a history, a repair that lowers the approved entry is authorized. */
  lemma LoweredAttempt(number: NumberReader, history: seq<Attempt>, approved: string, proposed: string, key: string,
                       value: string, other: string)
    requires TopLevelEntries(approved) == OneEntry(key, value) && TopLevelEntries(proposed) == OneEntry(key, other)
    requires key in MUTABLE && key != "adjustTimeStep" && key != "maxDeltaT" && Canonical(value) != Canonical(other)
    requires AtMost(PositiveScalar(number, Some(other)), PositiveScalar(number, Some(value)))
    requires BaselineOf(Run(number, OnlyControl(approved), history), CONTROL, approved) == approved
    ensures var after := Run(number, OnlyControl(approved), history + [Restored(approved, proposed)]);
      LastText(OnlyControl(approved), after) == Some(proposed) && BaselineOf(after, CONTROL, approved) == approved
  {
    LoweredFile(number, Run(number, OnlyControl(approved), history), approved, proposed, key, value, other);
    OneMore(number, OnlyControl(approved), history, Restored(approved, proposed));
  }

  /** Two repairs of the same approved text, the second one higher than the first. */
  lemma RestoreRaises(number: NumberReader, approved: string, first: string, second: string, key: string,
                      value: string, low: string, middle: string)
    requires TopLevelEntries(approved) == OneEntry(key, value)
    requires TopLevelEntries(first) == OneEntry(key, low) && TopLevelEntries(second) == OneEntry(key, middle)
    requires key in MUTABLE && key != "adjustTimeStep" && key != "maxDeltaT"
    requires Canonical(value) != Canonical(low) && Canonical(value) != Canonical(middle)
    requires AtMost(PositiveScalar(number, Some(low)), PositiveScalar(number, Some(value)))
    requires AtMost(PositiveScalar(number, Some(middle)), PositiveScalar(number, Some(value)))
    ensures var ap, once := OnlyControl(approved), [Restored(approved, first)];
      LastText(ap, Run(number, ap, once)) == Some(first) &&
      LastText(ap, Run(number, ap, once + [Restored(approved, second)])) == Some(second)
  {
    var none: seq<Attempt> := [];
    LoweredAttempt(number, none, approved, first, key, value, low);
    assert none + [Restored(approved, first)] == [Restored(approved, first)];
    LoweredAttempt(number, [Restored(approved, first)], approved, second, key, value, middle);
  }

  /** The approved timestep was 4 and a repair to 1 was authorized; with the approved text
      back on disk, a repair to 2 is authorized. */
  lemma RaisedAfterRestore(number: NumberReader, four: string, one: string, two: string)
    requires number("1") == Some(1.0) && number("2") == Some(2.0) && number("4") == Some(4.0)
    requires four == Timestep("4") && one == Timestep("1") && two == Timestep("2")
    ensures var ap, once := OnlyControl(four), [Restored(four, one)];
      LastText(ap, Run(number, ap, once)) == Some(one) &&
      LastText(ap, Run(number, ap, once + [Restored(four, two)])) == Some(two)
    ensures Raises(number, one, two, "deltaT")
  {
    TimestepRead('1');
    TimestepRead('2');
    TimestepRead('4');
    WordCanonical("1");
    WordCanonical("2");
    WordCanonical("4");
    RestoreRaises(number, four, one, two, "deltaT", "4", "1", "2");
  }

  // ----- Rechecking -----

  ghost predicate AgreeAt(a: Authorization, b: Authorization, path: string) {
    Get(a.hashes, path) == Get(b.hashes, path) && Get(a.baselines, path) == Get(b.baselines, path) &&
    Get(a.baseHashes, path) == Get(b.baseHashes, path)
  }

  lemma RecheckConclusion(ap: Approval, auth: Authorization, later: Authorization, path: string, kind: Kind,
                          current: string, proposed: string, verdict: Option<Rejection>)
    requires Conclude(ap, auth, path, kind, current, proposed, verdict).Accepted?
    requires AgreeAt(Conclude(ap, auth, path, kind, current, proposed, verdict).auth, later, path)
    ensures BaselineOf(later, path, current) == BaselineOf(auth, path, current)
    ensures Conclude(ap, later, path, kind, current, proposed, verdict) == Accepted(later)
  {
    if proposed != current {
      assert later.hashes[path := Sha(proposed)] == later.hashes;
      assert later.baseHashes[path := Sha(current)] == later.baseHashes;
      if kind == ControlDict {
        assert later.baselines[path := BaselineOf(auth, path, current)] == later.baselines;
      }
    }
  }

  lemma RecheckFile(number: NumberReader, ap: Approval, auth: Authorization, later: Authorization, path: string,
                    current: Option<string>, proposed: string)
    requires CheckFile(number, ap, auth, path, current, proposed).Accepted?
    requires AgreeAt(CheckFile(number, ap, auth, path, current, proposed).auth, later, path)
    ensures CheckFile(number, ap, later, path, current, proposed) == Accepted(later)
  {
    var kind, text := PathKind(path).value, current.value;
    RecheckConclusion(ap, auth, later, path, kind, text, proposed,
                      ContentVerdict(number, ap, path, kind, BaselineOf(auth, path, text), text, proposed));
  }

  lemma CheckFileLocal(number: NumberReader, ap: Approval, auth: Authorization, path: string,
                       current: Option<string>, proposed: string, other: string)
    requires CheckFile(number, ap, auth, path, current, proposed).Accepted? && other != path
    ensures AgreeAt(auth, CheckFile(number, ap, auth, path, current, proposed).auth, other)
  {}

  lemma {:induction false} DeltaLocal(number: NumberReader, ap: Approval, auth: Authorization,
                                      workspace: map<string, string>, delta: seq<Change>, n: nat, other: string)
    requires n <= |delta| && CheckDelta(number, ap, auth, workspace, delta).Accepted?
    requires forall i :: n <= i < |delta| ==> delta[i].path != other
    ensures CheckDelta(number, ap, auth, workspace, delta[..n]).Accepted?
    ensures AgreeAt(CheckDelta(number, ap, auth, workspace, delta[..n]).auth,
                    CheckDelta(number, ap, auth, workspace, delta).auth, other)
    decreases |delta|
  {
    if n == |delta| {
      assert delta[..n] == delta;
    } else {
      var c, rest := delta[|delta| - 1], delta[..|delta| - 1];
      assert rest[..n] == delta[..n];
      DeltaLocal(number, ap, auth, workspace, rest, n, other);
      CheckFileLocal(number, ap, CheckDelta(number, ap, auth, workspace, rest).auth, c.path,
                     Get(workspace, c.path), c.proposed, other);
    }
  }

  lemma {:induction false} RecheckPrefix(number: NumberReader, ap: Approval, auth: Authorization,
                                         workspace: map<string, string>, delta: seq<Change>, n: nat)
    requires DistinctPaths(delta) && n <= |delta|
    requires CheckDelta(number, ap, auth, workspace, delta).Accepted?
    ensures var after := CheckDelta(number, ap, auth, workspace, delta).auth;
      CheckDelta(number, ap, after, workspace, delta[..n]) == Accepted(after)
    decreases n
  {
    if n > 0 {
      var after := CheckDelta(number, ap, auth, workspace, delta).auth;
      var c := delta[n - 1];
      RecheckPrefix(number, ap, auth, workspace, delta, n - 1);
      DeltaLocal(number, ap, auth, workspace, delta, n, c.path);
      assert delta[..n][..n - 1] == delta[..n - 1];
      RecheckFile(number, ap, CheckDelta(number, ap, auth, workspace, delta[..n - 1]).auth, after, c.path,
                  Get(workspace, c.path), c.proposed);
    }
  }

  /** Checking an accepted candidate again, before it is written, accepts it again and
      changes nothing. */
  lemma RecheckIdempotent(number: NumberReader, ap: Approval, auth: Authorization,
                          workspace: map<string, string>, delta: seq<Change>)
    requires DistinctPaths(delta) && CheckDelta(number, ap, auth, workspace, delta).Accepted?
    ensures var after := CheckDelta(number, ap, auth, workspace, delta).auth;
      CheckDelta(number, ap, after, workspace, delta) == Accepted(after)
  {
    RecheckPrefix(number, ap, auth, workspace, delta, |delta|);
    assert delta[..|delta|] == delta;
  }
}
