/** Edits of a committed case, compiled in memory: replacements, exact patches and drops are
    merged into one set of changed files, or refused.

    The theorems say when an edit set is accepted and what the case then holds. */
module CaseEdits {
  import opened Wrappers
  import opened ExactPatch

  type Files = map<string, string>

  datatype Replacement = Replacement(path: string, content: string)

  datatype TextPatch = TextPatch(path: string, sought: string, replacement: string)

  datatype Problem =
    | ConflictingReplacement(path: string)
    | PatchAndReplace(path: string)
    | PatchAndDrop(path: string)
    | PatchTooLarge(path: string)
    | PatchAbsent(path: string)
    | PatchEmpty(path: string)
    | PatchMatches(path: string, count: nat)
    | ReplaceAndDrop(path: string)
    | Incomplete(missing: seq<string>)
    | UnsafeContent(message: string)

  // ----- Drops and replacements -----

  /** The requested drops of existing files, each once, in order. */
  function ActiveDrops(files: Files, requested: seq<string>): (r: seq<string>)
    ensures forall p :: p in r <==> p in requested && p in files
  {
    if requested == [] then []
    else
      var n := |requested| - 1;
      var before := ActiveDrops(files, requested[..n]);
      if requested[n] in files && requested[n] !in requested[..n] then before + [requested[n]] else before
  }

  predicate Agree(replacements: seq<Replacement>) {
    forall i, j :: 0 <= i < j < |replacements| && replacements[i].path == replacements[j].path ==>
      replacements[i].content == replacements[j].content
  }

  predicate Replaces(replacements: seq<Replacement>, path: string) {
    exists i :: 0 <= i < |replacements| && replacements[i].path == path
  }

  ghost predicate Replaced(replacements: seq<Replacement>, changed: Files) {
    forall i :: 0 <= i < |replacements| ==>
      replacements[i].path in changed && changed[replacements[i].path] == replacements[i].content
  }

  /** Merge replacements: equal repeats are harmless, different contents conflict. */
  method MergeReplacements(replacements: seq<Replacement>) returns (changed: Files, problems: seq<Problem>)
    ensures forall p :: p in changed <==> Replaces(replacements, p)
    ensures problems == [] <==> Agree(replacements)
    ensures problems == [] ==> Replaced(replacements, changed)
    ensures forall p :: p in problems ==> p.ConflictingReplacement?
  {
    changed, problems := map[], [];
    for k := 0 to |replacements|
      invariant forall p :: p in changed <==> Replaces(replacements[..k], p)
      invariant problems == [] <==> Agree(replacements[..k])
      invariant forall p :: p in changed ==> exists i :: 0 <= i < k && replacements[i] == Replacement(p, changed[p])
      invariant problems == [] ==> Replaced(replacements[..k], changed)
      invariant forall p :: p in problems ==> p.ConflictingReplacement?
    {
      var r := replacements[k];
      assert replacements[..k + 1] == replacements[..k] + [r];
      if r.path in changed && changed[r.path] != r.content {
        problems := problems + [ConflictingReplacement(r.path)];
        var i :| 0 <= i < k && replacements[i] == Replacement(r.path, changed[r.path]);
        assert replacements[..k + 1][i].path == replacements[..k + 1][k].path;
      } else {
        changed := changed[r.path := r.content];
      }
    }
    assert replacements[..|replacements|] == replacements;
  }

  // ----- Patches -----

  function PatchProblem(files: Files, replaced: set<string>, drops: set<string>, p: TextPatch): Option<Problem> {
    if p.path in replaced then Some(PatchAndReplace(p.path))
    else if p.path in drops then Some(PatchAndDrop(p.path))
    else if p.path in files && Truncated(files[p.path]) then Some(PatchTooLarge(p.path))
    else if p.path !in files then Some(PatchAbsent(p.path))
    else if p.sought == "" then Some(PatchEmpty(p.path))
    else if CountFrom(files[p.path], p.sought, 0) != 1 then
      Some(PatchMatches(p.path, CountFrom(files[p.path], p.sought, 0)))
    else None
  }

  lemma PatchProblemExact(files: Files, replaced: set<string>, drops: set<string>, p: TextPatch)
    ensures PatchProblem(files, replaced, drops, p).None? <==>
      (p.path !in replaced + drops && p.path in files && Patch(files[p.path], p.sought, p.replacement).Some?)
  {
    if p.path in files && p.sought != "" && CountFrom(files[p.path], p.sought, 0) == 1 {
      CountOne(files[p.path], p.sought, 0);
      var i: nat :| OnlyMatch(files[p.path], p.sought, 0, i);
      FindFirst(files[p.path], p.sought, 0, i);
    }
  }

  /** The patches of one file applied to its text in order; None as soon as one is refused. */
  function PatchedText(text: string, patches: seq<TextPatch>, path: string): Option<string> {
    if patches == [] then Some(text)
    else
      var n := |patches| - 1;
      match PatchedText(text, patches[..n], path)
      case None => None
      case Some(t) => if patches[n].path == path then Patch(t, patches[n].sought, patches[n].replacement) else Some(t)
  }

  predicate Patches(patches: seq<TextPatch>, path: string) {
    exists i :: 0 <= i < |patches| && patches[i].path == path
  }

  /** A file can take its patches: it exists, is neither replaced nor dropped, and every patch
      in turn matches once. */
  predicate PatchesApply(files: Files, replaced: set<string>, drops: set<string>, patches: seq<TextPatch>, path: string)
  {
    path !in replaced + drops && path in files && PatchedText(files[path], patches, path).Some?
  }

  /** What patching leaves: patched files hold their patched text, the others are untouched. */
  ghost predicate PatchedFiles(files: Files, patches: seq<TextPatch>, result: Files) {
    && result.Keys == files.Keys
    && (forall p :: p in files && !Patches(patches, p) ==> result[p] == files[p])
    && forall p :: p in files && Patches(patches, p) ==> PatchedText(files[p], patches, p) == Some(result[p])
  }

  ghost predicate AllApply(files: Files, replaced: set<string>, drops: set<string>, patches: seq<TextPatch>) {
    forall p :: Patches(patches, p) ==> PatchesApply(files, replaced, drops, patches, p)
  }

  lemma {:induction false} UnpatchedText(text: string, patches: seq<TextPatch>, path: string)
    requires !Patches(patches, path)
    ensures PatchedText(text, patches, path) == Some(text)
  {
    if patches != [] {
      var n := |patches| - 1;
      assert Patches(patches[..n], path) ==> Patches(patches, path);
      UnpatchedText(text, patches[..n], path);
    }
  }

  /** Adding one patch that applies after patches that apply. */
  lemma PatchStep(files: Files, replaced: set<string>, drops: set<string>, patches: seq<TextPatch>, result: Files,
                  p: TextPatch)
    requires PatchedFiles(files, patches, result) && AllApply(files, replaced, drops, patches)
    ensures PatchProblem(result, replaced, drops, p).None? <==> AllApply(files, replaced, drops, patches + [p])
    ensures PatchProblem(result, replaced, drops, p).None? ==>
      p.path in result && Patch(result[p.path], p.sought, p.replacement).Some? &&
      PatchedFiles(files, patches + [p], result[p.path := Patch(result[p.path], p.sought, p.replacement).value])
  {
    var more := patches + [p];
    assert more[..|patches|] == patches;
    PatchProblemExact(result, replaced, drops, p);
    forall q ensures Patches(more, q) <==> Patches(patches, q) || q == p.path {
      if Patches(patches, q) {
        var i :| 0 <= i < |patches| && patches[i].path == q;
        assert more[i].path == q;
      }
      if q == p.path { assert more[|patches|].path == q; }
    }
    forall q | q in files ensures PatchedText(files[q], patches, q) == Some(result[q]) {
      if !Patches(patches, q) {
        UnpatchedText(files[q], patches, q);
      }
    }
    forall q | q in files
      ensures PatchedText(files[q], more, q) ==
              (if q == p.path then Patch(result[q], p.sought, p.replacement) else Some(result[q]))
    {
      assert PatchedText(files[q], patches, q) == Some(result[q]);
    }
    if AllApply(files, replaced, drops, more) {
      assert PatchesApply(files, replaced, drops, more, p.path);
    }
    if PatchProblem(result, replaced, drops, p).None? {
      forall q | Patches(more, q) ensures PatchesApply(files, replaced, drops, more, q) {
        assert q != p.path ==> PatchesApply(files, replaced, drops, patches, q);
      }
    }
  }

  lemma RefusedForGood(files: Files, replaced: set<string>, drops: set<string>, patches: seq<TextPatch>,
                       more: seq<TextPatch>)
    requires patches <= more && !AllApply(files, replaced, drops, patches)
    ensures !AllApply(files, replaced, drops, more)
  {
    var p :| Patches(patches, p) && !PatchesApply(files, replaced, drops, patches, p);
    var i :| 0 <= i < |patches| && patches[i].path == p;
    assert more[i].path == p;
    if p in files {
      RefusedTextStays(files[p], patches, more, p);
    }
    assert Patches(more, p) && !PatchesApply(files, replaced, drops, more, p);
  }

  lemma {:induction false} RefusedTextStays(text: string, patches: seq<TextPatch>, more: seq<TextPatch>, path: string)
    requires patches <= more
    ensures PatchedText(text, patches, path).None? ==> PatchedText(text, more, path).None?
  {
    if |patches| < |more| {
      RefusedTextStays(text, patches, more[..|more| - 1], path);
    } else {
      assert patches == more;
    }
  }

  /** Apply patches in order; a refused patch is reported and skipped. */
  method ApplyPatches(files: Files, replaced: set<string>, drops: set<string>, patches: seq<TextPatch>)
    returns (result: Files, patched: set<string>, problems: seq<Problem>)
    ensures problems == [] <==> AllApply(files, replaced, drops, patches)
    ensures problems == [] ==> PatchedFiles(files, patches, result)
    ensures problems == [] ==> forall p :: p in patched <==> Patches(patches, p)
    ensures result.Keys == files.Keys && patched <= files.Keys && patched !! replaced + drops
    ensures forall p :: p in files && p !in patched ==> result[p] == files[p]
  {
    result, patched, problems := files, {}, [];
    for k := 0 to |patches|
      invariant problems == [] <==> AllApply(files, replaced, drops, patches[..k])
      invariant problems == [] ==> PatchedFiles(files, patches[..k], result)
      invariant problems == [] ==> forall p :: p in patched <==> Patches(patches[..k], p)
      invariant result.Keys == files.Keys && patched <= files.Keys && patched !! replaced + drops
      invariant forall p :: p in files && p !in patched ==> result[p] == files[p]
    {
      var p := patches[k];
      assert patches[..k + 1] == patches[..k] + [p];
      if problems == [] {
        PatchStep(files, replaced, drops, patches[..k], result, p);
      } else {
        RefusedForGood(files, replaced, drops, patches[..k], patches[..k + 1]);
      }
      PatchProblemExact(result, replaced, drops, p);
      match PatchProblem(result, replaced, drops, p)
      case Some(problem) =>
        problems := problems + [problem];
      case None =>
        result := result[p.path := Patch(result[p.path], p.sought, p.replacement).value];
        patched := patched + {p.path};
    }
    assert patches[..|patches|] == patches;
  }

  // ----- The whole edit set -----

  datatype Edits = Edits(changed: Files, drops: seq<string>, effective: Files, problems: seq<Problem>)

  /** What a case holds after its changed files are written and its dropped ones deleted. */
  function Committed(files: Files, changed: Files, drops: set<string>): Files {
    (files - drops) + changed
  }

  function ReplacedPaths(replacements: seq<Replacement>): set<string> {
    set i | 0 <= i < |replacements| :: replacements[i].path
  }

  /** The edits do not contradict each other and keep every required file. */
  ghost predicate Consistent(files: Files, replacements: seq<Replacement>, patches: seq<TextPatch>, drops: set<string>,
                             required: seq<string>) {
    && Agree(replacements)
    && AllApply(files, ReplacedPaths(replacements), drops, patches)
    && ReplacedPaths(replacements) !! drops
    && forall p :: p in required ==> Replaces(replacements, p) || (p in files && p !in drops)
  }

  /** Each changed file holds its replacement or the result of its patches. */
  ghost predicate ChangesExplained(files: Files, replacements: seq<Replacement>, patches: seq<TextPatch>,
                                   changed: Files)
  {
    && Replaced(replacements, changed)
    && forall p :: p in changed ==>
      Replaces(replacements, p) ||
      (p in files && Patches(patches, p) && PatchedText(files[p], patches, p) == Some(changed[p]))
  }

  function Missing(required: seq<string>, effective: Files): (r: seq<string>)
    ensures forall p :: p in r <==> p in required && p !in effective
    ensures r == [] <==> forall p :: p in required ==> p in effective
  {
    if required == [] then []
    else
      var n := |required| - 1;
      Missing(required[..n], effective) + (if required[n] in effective then [] else [required[n]])
  }

  /** Drops that collide with a change, in order. */
  function Collisions(drops: seq<string>, changed: Files): (r: seq<Problem>)
    ensures r == [] <==> forall p :: p in drops ==> p !in changed
  {
    if drops == [] then []
    else
      var n := |drops| - 1;
      Collisions(drops[..n], changed) + (if drops[n] in changed then [ReplaceAndDrop(drops[n])] else [])
  }

  /** Compile an edit set against the committed files; nothing is written.  `inspect` is the
      content policy over the changed files and the drops. */
  method CompileEdits(files: Files, replacements: seq<Replacement>, patches: seq<TextPatch>, requested: seq<string>,
                      required: seq<string>, inspect: (Files, seq<string>) -> seq<string>)
    returns (e: Edits)
    ensures e.drops == ActiveDrops(files, requested)
    ensures e.effective == Committed(files, e.changed, set p | p in e.drops)
    ensures e.problems == [] <==>
      (Consistent(files, replacements, patches, (set p | p in e.drops), required) && inspect(e.changed, e.drops) == [])
    ensures Consistent(files, replacements, patches, (set p | p in e.drops), required) ==>
      ChangesExplained(files, replacements, patches, e.changed) && forall p :: p in required ==> p in e.effective
  {
    var drops := ActiveDrops(files, requested);
    var dropped := set p | p in drops;
    var replaced, conflicts := MergeReplacements(replacements);
    assert replaced.Keys == ReplacedPaths(replacements);
    var result, patched, refused := ApplyPatches(files, replaced.Keys, dropped, patches);
    var changed := replaced + map p | p in patched :: result[p];
    var collisions := Collisions(drops, changed);
    var effective := (result - dropped) + changed;
    CommittedSkipsPatches(files, result, patched, changed, dropped);
    var missing := Missing(required, effective);
    var problems := conflicts + refused + collisions + (if missing == [] then [] else [Incomplete(missing)]);
    var messages := inspect(changed, drops);
    e := Edits(changed, drops, effective, problems + Unsafe(messages));
    forall p | p in required && refused == []
      ensures p in effective <==> Replaces(replacements, p) || (p in files && p !in dropped)
    {
      assert p in patched ==> p in files && p !in dropped;
    }
    assert collisions == [] <==> ReplacedPaths(replacements) !! dropped;
  }

  function Unsafe(messages: seq<string>): (r: seq<Problem>)
    ensures |r| == |messages|
  {
    seq(|messages|, i requires 0 <= i < |messages| => UnsafeContent(messages[i]))
  }

  lemma CommittedSkipsPatches(files: Files, result: Files, patched: set<string>, changed: Files, dropped: set<string>)
    requires result.Keys == files.Keys && patched <= changed.Keys
    requires forall p :: p in files && p !in patched ==> result[p] == files[p]
    ensures (result - dropped) + changed == Committed(files, changed, dropped)
  {}

  // ----- In plain words -----

  /** Patches of a file are applied one after the other, each to what the ones before it left. */
  lemma {:induction false} PatchesInTurn(text: string, first: seq<TextPatch>, second: seq<TextPatch>, path: string)
    ensures PatchedText(text, first + second, path) ==
      match PatchedText(text, first, path)
      case None => None
      case Some(t) => PatchedText(t, second, path)
  {
    if second == [] {
      assert first + second == first;
    } else {
      var n := |second| - 1;
      PatchesInTurn(text, first, second[..n], path);
      assert (first + second)[..|first + second| - 1] == first + second[..n];
    }
  }

  lemma OnePatch(text: string, p: TextPatch, path: string)
    ensures PatchedText(text, [p], path) ==
      if p.path == path then Patch(text, p.sought, p.replacement) else Some(text)
  {
    assert [p][..0] == [];
  }

  /** After a commit a file has its new content, or is as before unless it was dropped. */
  lemma CommittedExact(files: Files, changed: Files, drops: set<string>, path: string)
    ensures path in Committed(files, changed, drops) <==> path in changed || (path in files && path !in drops)
    ensures path in changed ==> Committed(files, changed, drops)[path] == changed[path]
    ensures path !in changed && path in files && path !in drops ==>
      Committed(files, changed, drops)[path] == files[path]
  {}
}
