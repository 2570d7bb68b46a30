/** The rule for runtime repairs, in the words of the person who approves them: which files may
    change, which entries, how far, and what an accepted delta authorizes.

    The rules below name every entry, boolean and file outright; the theorems say that the check
    accepts exactly what they allow. */
module RepairRules {
  import opened Wrappers
  import opened FoamText
  import opened FoamWords
  import opened RepairApproval
  import Bounds = RepairBounds

  // ----- Files -----

  /** One of the two numerical dictionaries, in a folder of system or in system itself. */
  ghost predicate SchemesOrSolution(path: string) {
    "system/" <= path && (InFolder(path, "fvSchemes") || InFolder(path, "fvSolution"))
  }

  lemma {:induction false} BaseNameSplits(path: string) returns (prefix: string)
    ensures path == prefix + BaseName(path) && (prefix != "" ==> prefix[|prefix| - 1] == '/') && '/' !in BaseName(path)
  {
    if path == "" {
      prefix := "";
    } else if path[|path| - 1] == '/' {
      prefix := path;
    } else {
      prefix := BaseNameSplits(path[..|path| - 1]);
    }
  }

  /** The path ends in a folder's separator and the name. */
  ghost predicate InFolder(path: string, name: string) {
    exists folder :: path == folder + "/" + name
  }

  lemma BaseNameExact(path: string, name: string)
    requires '/' in path && '/' !in name
    ensures BaseName(path) == name <==> InFolder(path, name)
  {
    var prefix := BaseNameSplits(path);
    if BaseName(path) == name {
      assert path == prefix[..|prefix| - 1] + "/" + name;
    }
    if folder :| path == folder + "/" + name {
      Bounds.BaseNameEnds(folder, name);
    }
  }

  /** Repairs may change fvSchemes, fvSolution and the one controlDict, below system. */
  lemma PathKindExact(path: string)
    ensures PathKind(path) == Some(NumericalDictionary) <==> SchemesOrSolution(path)
    ensures PathKind(path) == Some(ControlDict) <==> path == "system/controlDict"
  {
    Bounds.ControlKind();
    if "system/" <= path {
      assert path[6] == '/' && path[6] in path;
      BaseNameExact(path, "fvSchemes");
      BaseNameExact(path, "fvSolution");
    }
  }

  // ----- Entries of a controlDict -----

  /** The entry is there as before, with the same tokens. */
  predicate KeptEntry(before: Entries, after: Entries, key: string) {
    (key in before.payloads <==> key in after.payloads) &&
    (key in before.payloads ==> Canonical(before.payloads[key]) == Canonical(after.payloads[key]))
  }

  /** The entry is the positive number v. */
  predicate IsNumber(number: NumberReader, entries: Entries, key: string, v: real) {
    key in entries.payloads && number(entries.payloads[key]) == Some(v) && v > 0.0
  }

  /** The entry that limits another: deltaT stands in for a missing maxDeltaT. */
  function LimitedBy(entries: Entries, key: string): string {
    if key == "maxDeltaT" && (key !in entries.payloads || entries.payloads[key] == "") then "deltaT" else key
  }

  /** The entry is a positive number, no higher than the positive number of another entry. */
  ghost predicate NoHigher(number: NumberReader, entries: Entries, key: string, limits: Entries, limit: string) {
    exists v, q :: IsNumber(number, entries, key, v) && IsNumber(number, limits, limit, q) && v <= q
  }

  /** A number that is no higher than it was, nor than it was originally. */
  ghost predicate Reduced(number: NumberReader, original: Entries, before: Entries, after: Entries, key: string) {
    NoHigher(number, after, key, before, LimitedBy(before, key)) &&
    NoHigher(number, after, key, original, LimitedBy(original, key))
  }

  /** The entry that limits the timestep when adaptive stepping is switched on. */
  function TimestepLimit(entries: Entries): string {
    if "maxDeltaT" in entries.payloads then "maxDeltaT" else "deltaT"
  }

  /** Adaptive stepping is given as a boolean; switched on, it has a cap within the original
      timestep limit. */
  ghost predicate Switched(number: NumberReader, original: Entries, after: Entries) {
    && "adjustTimeStep" in after.payloads
    && after.payloads["adjustTimeStep"] in {"true", "false", "yes", "no", "on", "off", "0", "1"}
    && (after.payloads["adjustTimeStep"] in {"true", "yes", "on", "1"} ==>
          NoHigher(number, after, "maxDeltaT", original, TimestepLimit(original)))
  }

  ghost predicate AllowedChange(number: NumberReader, frozen: set<string>, original: Entries, before: Entries,
                                after: Entries, key: string) {
    && key !in frozen
    && if key == "adjustTimeStep" then Switched(number, original, after)
       else key in {"deltaT", "maxDeltaT", "maxCo", "maxAlphaCo"} && Reduced(number, original, before, after, key)
  }

  /** What the approver allows a controlDict to become. */
  ghost predicate ControlAllowed(number: NumberReader, frozen: set<string>, original: Entries, before: Entries,
                                 after: Entries) {
    && before.complete && after.complete && original.complete
    && forall key :: KeptEntry(before, after, key) || AllowedChange(number, frozen, original, before, after, key)
  }

  lemma ChangedExact(before: Entries, after: Entries, key: string)
    ensures key in Changed(before, after) <==> !KeptEntry(before, after, key)
  {}

  lemma NumberExact(number: NumberReader, entries: Entries, key: string, v: real)
    ensures PositiveScalar(number, Lookup(entries, key)) == Some(v) <==> IsNumber(number, entries, key, v)
  {}

  lemma LimitExact(entries: Entries, key: string)
    ensures Initial(entries, key) == Lookup(entries, LimitedBy(entries, key))
    ensures InitialTimestep(entries) == Lookup(entries, TimestepLimit(entries))
  {}

  lemma NoHigherExact(number: NumberReader, entries: Entries, key: string, limits: Entries, limit: string)
    ensures NoHigher(number, entries, key, limits, limit) <==>
      AtMost(PositiveScalar(number, Lookup(entries, key)), PositiveScalar(number, Lookup(limits, limit)))
  {
    var a, b := PositiveScalar(number, Lookup(entries, key)), PositiveScalar(number, Lookup(limits, limit));
    if AtMost(a, b) {
      NumberExact(number, entries, key, a.value);
      NumberExact(number, limits, limit, b.value);
    }
    if v, q :| IsNumber(number, entries, key, v) && IsNumber(number, limits, limit, q) && v <= q {
      NumberExact(number, entries, key, v);
      NumberExact(number, limits, limit, q);
    }
  }

  lemma AllowedExact(number: NumberReader, frozen: set<string>, original: Entries, before: Entries, after: Entries,
                     key: string)
    ensures AllowedChange(number, frozen, original, before, after, key) <==>
      key !in frozen && key in MUTABLE && EntryOk(number, original, before, after, key)
  {
    LimitExact(before, key);
    LimitExact(original, key);
    NoHigherExact(number, after, key, before, LimitedBy(before, key));
    NoHigherExact(number, after, key, original, LimitedBy(original, key));
    NoHigherExact(number, after, "maxDeltaT", original, TimestepLimit(original));
  }

  /** Main theorem: the check of a controlDict accepts exactly what the approver allows. */
  lemma ControlRule(number: NumberReader, frozen: set<string>, baseline: string, current: string, proposed: string)
    ensures ControlVerdict(number, frozen, baseline, current, proposed) == None <==>
      ControlAllowed(number, frozen, TopLevelEntries(baseline), TopLevelEntries(current), TopLevelEntries(proposed))
  {
    EntriesRule(number, frozen, TopLevelEntries(baseline), TopLevelEntries(current), TopLevelEntries(proposed));
  }

  lemma EntriesRule(number: NumberReader, frozen: set<string>, a: Entries, b: Entries, c: Entries)
    ensures EntriesVerdict(number, frozen, a, b, c) == None <==> ControlAllowed(number, frozen, a, b, c)
  {
    VerdictExact(number, frozen, a, b, c);
    forall key
      ensures KeptEntry(b, c, key) || AllowedChange(number, frozen, a, b, c, key) <==>
        (key in Changed(b, c) ==> key !in frozen && key in MUTABLE && EntryOk(number, a, b, c, key))
    {
      ChangedExact(b, c, key);
      AllowedExact(number, frozen, a, b, c, key);
    }
  }

  lemma VerdictExact(number: NumberReader, frozen: set<string>, a: Entries, b: Entries, c: Entries)
    ensures EntriesVerdict(number, frozen, a, b, c) == None <==>
      b.complete && c.complete && a.complete &&
      forall key :: key in Changed(b, c) ==> key !in frozen && key in MUTABLE && EntryOk(number, a, b, c, key)
  {
    if EntriesVerdict(number, frozen, a, b, c) == None {
      forall key | key in Changed(b, c) ensures key !in frozen && key in MUTABLE && EntryOk(number, a, b, c, key) {
        assert key in frozen ==> key in Changed(b, c) * frozen;
      }
    }
  }

  // ----- Whole files -----

  /** A frozen entry of a numerical dictionary has the tokens it had. */
  ghost predicate SameTokens(current: string, proposed: string, entry: string) {
    exists a, b :: LiteralEntryPayload(current, entry) == Some(a) && LiteralEntryPayload(proposed, entry) == Some(b) &&
      Canonical(a) == Canonical(b)
  }

  /** The text on disk is the approved or the authorized one, or the file was authorized from it
      already. */
  predicate KnownBase(ap: Approval, auth: Authorization, path: string, current: string, proposed: string) {
    || (path in ap.files && ap.files[path] == Sha(current))
    || (path in auth.hashes && auth.hashes[path] == Sha(current))
    || (path in auth.hashes && auth.hashes[path] == Sha(proposed) &&
        path in auth.baseHashes && auth.baseHashes[path] == Sha(current))
  }

  ghost predicate ContentAllowed(number: NumberReader, ap: Approval, auth: Authorization, path: string,
                                 current: string, proposed: string) {
    var frozen := if path in ap.protectedEntries then ap.protectedEntries[path] else [];
    && path !in ap.protectedFiles
    && if path == "system/controlDict" then
         ControlAllowed(number, set e | e in frozen :: SplitDots(e)[0],
                        TopLevelEntries(if path in auth.baselines then auth.baselines[path] else current),
                        TopLevelEntries(current), TopLevelEntries(proposed))
       else forall e :: e in frozen ==> SameTokens(current, proposed, e)
  }

  /** What the approver allows one file to become. */
  ghost predicate FileAllowed(number: NumberReader, ap: Approval, auth: Authorization, path: string,
                              current: Option<string>, proposed: string) {
    && (SchemesOrSolution(path) || path == "system/controlDict")
    && current.Some? && KnownBase(ap, auth, path, current.value, proposed)
    && (proposed != current.value ==> ContentAllowed(number, ap, auth, path, current.value, proposed))
  }

  lemma NumericalRule(frozen: seq<string>, current: string, proposed: string)
    ensures NumericalVerdict(frozen, current, proposed) == None <==>
      forall e :: e in frozen ==> SameTokens(current, proposed, e)
  {
    forall e ensures EntryKept(current, proposed, e) <==> SameTokens(current, proposed, e) {
      if EntryKept(current, proposed, e) {
        assert LiteralEntryPayload(current, e) == Some(LiteralEntryPayload(current, e).value);
      }
    }
    if NumericalVerdict(frozen, current, proposed) == None {
      forall e | e in frozen ensures SameTokens(current, proposed, e) {
        var i :| 0 <= i < |frozen| && frozen[i] == e;
      }
    }
  }

  lemma ContentRule(number: NumberReader, ap: Approval, auth: Authorization, path: string, current: string,
                    proposed: string)
    requires PathKind(path).Some?
    ensures ContentAllowed(number, ap, auth, path, current, proposed) <==>
      ContentVerdict(number, ap, path, PathKind(path).value, BaselineOf(auth, path, current), current,
                     proposed) == None
  {
    PathKindExact(path);
    NumericalRule(ProtectedEntries(ap, path), current, proposed);
    ControlRule(number, Frozen(ProtectedEntries(ap, path)), BaselineOf(auth, path, current), current, proposed);
  }

  /** The authorization after a change of a file: the proposed text over the text on disk, and
      for a controlDict the first text it was changed from. */
  function Authorized(auth: Authorization, path: string, current: string, proposed: string): Authorization {
    if proposed == current then auth
    else
      Authorization(auth.hashes[path := Sha(proposed)],
                    if path == "system/controlDict" && path !in auth.baselines then auth.baselines[path := current]
                    else auth.baselines,
                    auth.baseHashes[path := Sha(current)])
  }

  /** Main theorem: a file is accepted exactly when the approver allows it, and then exactly its
      own authorization changes. */
  lemma FileRule(number: NumberReader, ap: Approval, auth: Authorization, path: string, current: Option<string>,
                 proposed: string)
    ensures CheckFile(number, ap, auth, path, current, proposed).Accepted? <==>
      FileAllowed(number, ap, auth, path, current, proposed)
    ensures FileAllowed(number, ap, auth, path, current, proposed) ==>
      CheckFile(number, ap, auth, path, current, proposed).auth == Authorized(auth, path, current.value, proposed)
  {
    PathKindExact(path);
    if current.Some? && PathKind(path).Some? {
      ContentRule(number, ap, auth, path, current.value, proposed);
      assert path in auth.baselines ==> auth.baselines[path := auth.baselines[path]] == auth.baselines;
    }
  }

  // ----- Whole deltas -----

  lemma AllowedLocally(number: NumberReader, ap: Approval, a: Authorization, b: Authorization, path: string,
                       current: Option<string>, proposed: string)
    requires Bounds.AgreeAt(a, b, path)
    ensures FileAllowed(number, ap, a, path, current, proposed) <==> FileAllowed(number, ap, b, path, current, proposed)
  {
    assert path in a.hashes <==> path in b.hashes;
    assert path in a.baseHashes <==> path in b.baseHashes;
    assert path in a.baselines <==> path in b.baselines;
  }

  ghost predicate AllAllowed(number: NumberReader, ap: Approval, auth: Authorization, workspace: map<string, string>,
                             delta: seq<Change>) {
    forall i :: 0 <= i < |delta| ==>
      FileAllowed(number, ap, auth, delta[i].path, Get(workspace, delta[i].path), delta[i].proposed)
  }

  /** Main theorem: a delta is accepted exactly when every file of it is allowed by itself. */
  lemma {:induction false} DeltaRule(number: NumberReader, ap: Approval, auth: Authorization,
                                     workspace: map<string, string>, delta: seq<Change>)
    requires DistinctPaths(delta)
    ensures CheckDelta(number, ap, auth, workspace, delta).Accepted? <==> AllAllowed(number, ap, auth, workspace, delta)
  {
    if delta != [] {
      var n := |delta| - 1;
      var rest, c := delta[..n], delta[n];
      DeltaRule(number, ap, auth, workspace, rest);
      if CheckDelta(number, ap, auth, workspace, rest).Accepted? {
        LastFileRule(number, ap, auth, workspace, rest, c);
      }
      OneMoreAllowed(number, ap, auth, workspace, rest, c);
      assert delta == rest + [c];
    }
  }

  lemma LastFileRule(number: NumberReader, ap: Approval, auth: Authorization, workspace: map<string, string>,
                     rest: seq<Change>, c: Change)
    requires CheckDelta(number, ap, auth, workspace, rest).Accepted?
    requires forall i :: 0 <= i < |rest| ==> rest[i].path != c.path
    ensures var before := CheckDelta(number, ap, auth, workspace, rest).auth;
      CheckFile(number, ap, before, c.path, Get(workspace, c.path), c.proposed).Accepted? <==>
      FileAllowed(number, ap, auth, c.path, Get(workspace, c.path), c.proposed)
  {
    var before := CheckDelta(number, ap, auth, workspace, rest).auth;
    Bounds.DeltaLocal(number, ap, auth, workspace, rest, 0, c.path);
    assert rest[..0] == [];
    AllowedLocally(number, ap, auth, before, c.path, Get(workspace, c.path), c.proposed);
    FileRule(number, ap, before, c.path, Get(workspace, c.path), c.proposed);
  }

  lemma OneMoreAllowed(number: NumberReader, ap: Approval, auth: Authorization, workspace: map<string, string>,
                       rest: seq<Change>, c: Change)
    ensures AllAllowed(number, ap, auth, workspace, rest + [c]) <==>
      AllAllowed(number, ap, auth, workspace, rest) &&
      FileAllowed(number, ap, auth, c.path, Get(workspace, c.path), c.proposed)
  {
    var delta := rest + [c];
    assert delta[|rest|] == c && forall i :: 0 <= i < |rest| ==> delta[i] == rest[i];
  }

  /** The digest authorized for a path after an accepted delta: the proposed text where the delta
      changes the file, and what it was elsewhere. */
  lemma {:induction false} DeltaAuthorizes(number: NumberReader, ap: Approval, auth: Authorization,
                                           workspace: map<string, string>, delta: seq<Change>, path: string)
    requires DistinctPaths(delta) && CheckDelta(number, ap, auth, workspace, delta).Accepted?
    ensures var after := CheckDelta(number, ap, auth, workspace, delta).auth;
      (forall i :: 0 <= i < |delta| && delta[i].path == path && Get(workspace, path) != Some(delta[i].proposed) ==>
         Get(after.hashes, path) == Some(Sha(delta[i].proposed))) &&
      ((forall i :: 0 <= i < |delta| && delta[i].path == path ==> Get(workspace, path) == Some(delta[i].proposed)) ==>
         Get(after.hashes, path) == Get(auth.hashes, path))
  {
    if delta != [] {
      var n := |delta| - 1;
      var rest, c := delta[..n], delta[n];
      var before := CheckDelta(number, ap, auth, workspace, rest).auth;
      DeltaAuthorizes(number, ap, auth, workspace, rest, path);
      FileRule(number, ap, before, c.path, Get(workspace, c.path), c.proposed);
      assert forall i :: 0 <= i < n ==> rest[i] == delta[i];
    }
  }

  /** The seal after the delta was written: changed files have the digest of the proposed text. */
  ghost predicate Resealed(workspace: map<string, string>, delta: seq<Change>, seal: map<string, Digest>,
                           after: map<string, Digest>) {
    && (forall i :: 0 <= i < |delta| && Get(workspace, delta[i].path) != Some(delta[i].proposed) ==>
          Get(after, delta[i].path) == Some(Sha(delta[i].proposed)))
    && forall path :: (forall i :: 0 <= i < |delta| && delta[i].path == path ==>
                         Get(workspace, path) == Some(delta[i].proposed)) ==>
         Get(after, path) == Get(seal, path)
  }

  /** Main theorem: writing an accepted delta keeps a seal acceptable. */
  lemma SealAfterRepair(number: NumberReader, ap: Approval, auth: Authorization, workspace: map<string, string>,
                        delta: seq<Change>, seal: map<string, Digest>, after: map<string, Digest>)
    requires DistinctPaths(delta) && CheckDelta(number, ap, auth, workspace, delta).Accepted?
    requires SealOk(ap, auth, seal) && Resealed(workspace, delta, seal, after)
    ensures SealOk(ap, CheckDelta(number, ap, auth, workspace, delta).auth, after)
  {
    var later := CheckDelta(number, ap, auth, workspace, delta).auth;
    forall path | path in after.Keys + ap.files.Keys ensures SealedFileOk(ap, later.hashes, after, path) {
      DeltaAuthorizes(number, ap, auth, workspace, delta, path);
      if i :| 0 <= i < |delta| && delta[i].path == path && Get(workspace, path) != Some(delta[i].proposed) {
        DeltaRule(number, ap, auth, workspace, delta);
        PathKindExact(path);
      } else {
        assert Get(after, path) == Get(seal, path);
        assert path in seal.Keys + ap.files.Keys;
        assert SealedFileOk(ap, auth.hashes, seal, path);
      }
    }
  }

  /** Main theorem: an accepted delta leaves every word and quoted string of a frozen entry of a
      numerical dictionary as it was on disk. */
  lemma FrozenTokensKept(number: NumberReader, ap: Approval, auth: Authorization, workspace: map<string, string>,
                         delta: seq<Change>, c: Change, entry: string, before: seq<string>, gaps: seq<string>,
                         after: seq<string>, others: seq<string>)
    requires DistinctPaths(delta) && CheckDelta(number, ap, auth, workspace, delta).Accepted?
    requires c in delta && SchemesOrSolution(c.path) && c.path in workspace
    requires c.path in ap.protectedEntries && entry in ap.protectedEntries[c.path]
    requires Tokens(before) && Gaps(before, gaps) && Tokens(after) && Gaps(after, others)
    requires LiteralEntryPayload(workspace[c.path], entry) == Some(Spread(before, gaps))
    requires LiteralEntryPayload(c.proposed, entry) == Some(Spread(after, others))
    ensures before == after
  {
    DeltaRule(number, ap, auth, workspace, delta);
    PathKindExact(c.path);
    CanonicalIsTokens(before, gaps);
    CanonicalIsTokens(after, others);
    if c.proposed != workspace[c.path] {
      assert SameTokens(workspace[c.path], c.proposed, entry);
    }
  }

  /** The same for every entry of a controlDict that may not change or is frozen. */
  lemma FixedControlTokensKept(number: NumberReader, ap: Approval, auth: Authorization, workspace: map<string, string>,
                               delta: seq<Change>, c: Change, key: string, before: seq<string>, gaps: seq<string>,
                               after: seq<string>, others: seq<string>)
    requires DistinctPaths(delta) && CheckDelta(number, ap, auth, workspace, delta).Accepted?
    requires c in delta && c.path == "system/controlDict" && c.path in workspace
    requires key !in {"deltaT", "maxDeltaT", "adjustTimeStep", "maxCo", "maxAlphaCo"} ||
      (c.path in ap.protectedEntries && key in set e | e in ap.protectedEntries[c.path] :: SplitDots(e)[0])
    requires Tokens(before) && Gaps(before, gaps) && Tokens(after) && Gaps(after, others)
    requires Lookup(TopLevelEntries(workspace[c.path]), key) == Some(Spread(before, gaps))
    requires Lookup(TopLevelEntries(c.proposed), key) == Some(Spread(after, others))
    ensures before == after
  {
    DeltaRule(number, ap, auth, workspace, delta);
    CanonicalIsTokens(before, gaps);
    CanonicalIsTokens(after, others);
    if c.proposed != workspace[c.path] {
      assert KeptEntry(TopLevelEntries(workspace[c.path]), TopLevelEntries(c.proposed), key);
    }
  }

  /** Main theorem: whatever repairs were tried, a numerical dictionary authorized after them has
      every word and quoted string of its frozen entries as approved. */
  lemma ApprovedTokensKept(number: NumberReader, ap: Approval, history: seq<Attempt>, path: string, entry: string,
                           before: seq<string>, gaps: seq<string>, after: seq<string>, others: seq<string>)
    requires IgnoresLayout(number) && SchemesOrSolution(path) && path in Run(number, ap, history).hashes
    requires path in ap.protectedEntries && entry in ap.protectedEntries[path]
    requires Tokens(before) && Gaps(before, gaps) && Tokens(after) && Gaps(after, others)
    requires path in ap.files && LiteralEntryPayload(ap.files[path].content, entry) == Some(Spread(before, gaps))
    requires LiteralEntryPayload(Run(number, ap, history).hashes[path].content, entry) == Some(Spread(after, others))
    ensures before == after
  {
    Bounds.HistoryWithinApproval(number, ap, history, path);
    PathKindExact(path);
    CanonicalIsTokens(before, gaps);
    CanonicalIsTokens(after, others);
    var i :| 0 <= i < |ap.protectedEntries[path]| && ap.protectedEntries[path][i] == entry;
    assert EntryKept(ap.files[path].content, Run(number, ap, history).hashes[path].content,
                     ProtectedEntries(ap, path)[i]);
  }
}
