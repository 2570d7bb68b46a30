/** Exact text patches: the one match of a text is replaced.

    Matches are counted from the left without overlap, so a text that overlaps itself can
    match twice and still be counted once. */
module ExactPatch {
  import opened Wrappers

  predicate OccursAt(text: string, sought: string, i: nat) {
    i + |sought| <= |text| && text[i..i + |sought|] == sought
  }

  /** The first match at or after a position. */
  function Find(text: string, sought: string, from: nat): Option<nat>
    decreases |text| - from
  {
    if from + |sought| > |text| then None
    else if OccursAt(text, sought, from) then Some(from)
    else Find(text, sought, from + 1)
  }

  function CountFrom(text: string, sought: string, from: nat): nat
    requires sought != ""
    decreases |text| - from
  {
    if from + |sought| > |text| then 0
    else if OccursAt(text, sought, from) then 1 + CountFrom(text, sought, from + |sought|)
    else CountFrom(text, sought, from + 1)
  }

  const TRUNCATED := "\n... [truncated]"

  predicate Truncated(text: string) {
    |text| >= |TRUNCATED| && text[|text| - |TRUNCATED|..] == TRUNCATED
  }

  /** The patched text, or None when the patch is refused. */
  function Patch(text: string, sought: string, replacement: string): Option<string> {
    if Truncated(text) || sought == "" || CountFrom(text, sought, 0) != 1 then None
    else
      match Find(text, sought, 0)
      case None => None
      case Some(i) => if i + |sought| <= |text| then Some(text[..i] + replacement + text[i + |sought|..]) else None
  }

  lemma {:induction false} FindFirst(text: string, sought: string, from: nat, i: nat)
    ensures Find(text, sought, from) == Some(i) <==>
      (from <= i && OccursAt(text, sought, i) && forall j: nat :: from <= j < i ==> !OccursAt(text, sought, j))
    decreases |text| - from
  {
    if from + |sought| <= |text| && !OccursAt(text, sought, from) {
      FindFirst(text, sought, from + 1, i);
    }
  }

  lemma {:induction false} CountZero(text: string, sought: string, from: nat)
    requires sought != ""
    ensures CountFrom(text, sought, from) == 0 <==> forall j: nat :: j >= from ==> !OccursAt(text, sought, j)
    decreases |text| - from
  {
    if from + |sought| <= |text| && !OccursAt(text, sought, from) {
      CountZero(text, sought, from + 1);
    }
  }

  /** The first match, and none after its end. */
  ghost predicate OnlyMatch(text: string, sought: string, from: nat, i: nat) {
    && from <= i && OccursAt(text, sought, i)
    && (forall j: nat :: from <= j < i ==> !OccursAt(text, sought, j))
    && forall j: nat :: j >= i + |sought| ==> !OccursAt(text, sought, j)
  }

  lemma {:induction false} CountOne(text: string, sought: string, from: nat)
    requires sought != ""
    ensures CountFrom(text, sought, from) == 1 <==> exists i: nat :: OnlyMatch(text, sought, from, i)
    decreases |text| - from
  {
    if from + |sought| <= |text| {
      if OccursAt(text, sought, from) {
        CountZero(text, sought, from + |sought|);
        if CountFrom(text, sought, from) == 1 {
          assert OnlyMatch(text, sought, from, from);
        }
      } else {
        var next := from + 1;
        CountOne(text, sought, next);
        if i: nat :| OnlyMatch(text, sought, from, i) {
          assert OnlyMatch(text, sought, next, i);
        }
        if i: nat :| OnlyMatch(text, sought, next, i) {
          assert OnlyMatch(text, sought, from, i);
        }
      }
    }
  }

  /** A patch replaces one match and keeps the rest; any other match overlaps that one. */
  lemma PatchReplacesOneMatch(text: string, sought: string, replacement: string) returns (before: string, after: string)
    requires Patch(text, sought, replacement).Some?
    ensures text == before + sought + after && Patch(text, sought, replacement) == Some(before + replacement + after)
    ensures forall j: nat :: OccursAt(text, sought, j) ==> |before| <= j < |before| + |sought|
  {
    CountOne(text, sought, 0);
    var i: nat :| OnlyMatch(text, sought, 0, i);
    FindFirst(text, sought, 0, i);
    before, after := text[..i], text[i + |sought|..];
    assert text == before + text[i..i + |sought|] + after;
  }

  ghost predicate MatchesOnce(text: string, sought: string) {
    exists i: nat :: OccursAt(text, sought, i) && forall j: nat :: OccursAt(text, sought, j) ==> j == i
  }

  /** The text overlaps itself when shifted by k. */
  ghost predicate Border(sought: string, k: nat) {
    0 < k < |sought| && sought[k..] == sought[..|sought| - k]
  }

  /** Main theorem: a count of one means a unique match, in every text, exactly when the text
      looked for does not overlap itself. */
  lemma CountOneUniqueIffBorderless(sought: string)
    requires sought != ""
    ensures (forall text :: CountFrom(text, sought, 0) == 1 ==> MatchesOnce(text, sought)) <==>
      forall k: nat :: !Border(sought, k)
  {
    if forall k: nat :: !Border(sought, k) {
      forall text | CountFrom(text, sought, 0) == 1 ensures MatchesOnce(text, sought) {
        BorderlessUnique(text, sought);
      }
    }
    if k: nat :| Border(sought, k) {
      BorderAmbiguous(sought, k);
    }
  }

  lemma OverlapGivesBorder(text: string, sought: string, i: nat, j: nat)
    requires OccursAt(text, sought, i) && OccursAt(text, sought, j) && i < j < i + |sought|
    ensures Border(sought, j - i)
  {
    var k := j - i;
    assert sought[k..] == text[i + k..i + |sought|];
    assert sought[..|sought| - k] == text[j..j + |sought| - k];
  }

  lemma BorderlessUnique(text: string, sought: string)
    requires sought != "" && CountFrom(text, sought, 0) == 1 && forall k: nat :: !Border(sought, k)
    ensures MatchesOnce(text, sought)
  {
    CountOne(text, sought, 0);
    var i: nat :| OnlyMatch(text, sought, 0, i);
    forall j: nat | OccursAt(text, sought, j) ensures j == i {
      if j > i {
        OverlapGivesBorder(text, sought, i, j);
      }
    }
  }

  /** The overlapping copies of a self-overlapping text are counted once but match twice. */
  lemma BorderAmbiguous(sought: string, k: nat)
    requires Border(sought, k)
    ensures CountFrom(sought[..k] + sought, sought, 0) == 1 && !MatchesOnce(sought[..k] + sought, sought)
  {
    var text := sought[..k] + sought;
    assert text[..|sought|] == sought[..k] + sought[..|sought| - k] == sought[..k] + sought[k..] == sought;
    assert OccursAt(text, sought, 0);
    assert text[k..k + |sought|] == sought;
    assert OccursAt(text, sought, k);
  }

  // ----- In plain words -----

  /** The text ends in the mark of a text cut off when it was read. */
  ghost predicate CutOff(text: string) {
    exists head :: text == head + "\n... [truncated]"
  }

  /** This occurrence is the first, and every other one overlaps it. */
  ghost predicate MainMatch(text: string, sought: string, before: string, after: string) {
    && text == before + sought + after
    && forall a, b :: text == a + sought + b ==> |before| <= |a| < |before| + |sought|
  }

  lemma OccursSplit(text: string, sought: string, i: nat)
    ensures OccursAt(text, sought, i) <==> exists a, b :: |a| == i && text == a + sought + b
  {
    if OccursAt(text, sought, i) {
      var a, b := text[..i], text[i + |sought|..];
      assert text == a + text[i..i + |sought|] + b;
    }
    if a, b :| |a| == i && text == a + sought + b {
      assert text[i..i + |sought|] == sought;
    }
  }

  lemma TruncatedExact(text: string)
    ensures Truncated(text) <==> CutOff(text)
  {
    if Truncated(text) {
      assert text == text[..|text| - |TRUNCATED|] + "\n... [truncated]";
    }
    if head :| text == head + "\n... [truncated]" {
      assert text[|text| - |TRUNCATED|..] == TRUNCATED;
    }
  }

  lemma MainIsOnly(text: string, sought: string, before: string, after: string)
    requires sought != "" && text == before + sought + after
    ensures MainMatch(text, sought, before, after) <==> OnlyMatch(text, sought, 0, |before|)
  {
    OccursSplit(text, sought, |before|);
    if MainMatch(text, sought, before, after) {
      forall j: nat | OccursAt(text, sought, j) ensures |before| <= j < |before| + |sought| {
        OccursSplit(text, sought, j);
      }
    }
    if OnlyMatch(text, sought, 0, |before|) {
      forall a, b | text == a + sought + b ensures |before| <= |a| < |before| + |sought| {
        OccursSplit(text, sought, |a|);
      }
    }
  }

  /** Main theorem: a patch applies exactly to a whole text with such a match, and replaces it. */
  lemma PatchExact(text: string, sought: string, replacement: string, result: string)
    ensures Patch(text, sought, replacement) == Some(result) <==>
      sought != "" && !CutOff(text) && exists before, after ::
        MainMatch(text, sought, before, after) && result == before + replacement + after
  {
    TruncatedExact(text);
    if Patch(text, sought, replacement) == Some(result) {
      CountOne(text, sought, 0);
      var i: nat :| OnlyMatch(text, sought, 0, i);
      FindFirst(text, sought, 0, i);
      var before, after := text[..i], text[i + |sought|..];
      assert text == before + text[i..i + |sought|] + after;
      MainIsOnly(text, sought, before, after);
      assert result == before + replacement + after;
    }
    if sought != "" && !CutOff(text) {
      forall before, after | MainMatch(text, sought, before, after) && result == before + replacement + after
        ensures Patch(text, sought, replacement) == Some(result)
      {
        MainIsOnly(text, sought, before, after);
        CountOne(text, sought, 0);
        FindFirst(text, sought, 0, |before|);
        assert text[..|before|] == before && text[|before| + |sought|..] == after;
      }
    }
  }
}
