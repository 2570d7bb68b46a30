/** Payloads as the words and quoted strings they consist of: what the canonical form keeps and
    what it ignores. */
module FoamWords {
  import opened Wrappers
  import opened FoamText

  predicate Blank(s: string) {
    forall i :: 0 <= i < |s| ==> IsSpace(s[i])
  }

  /** A word has no spaces and does not start with a quote. */
  predicate Word(s: string) {
    s != "" && s[0] != '"' && forall i :: 0 <= i < |s| ==> !IsSpace(s[i])
  }

  /** A quoted string; a backslash in it is not followed by a line break. */
  predicate QuotedString(s: string) {
    |s| >= 2 && s[0] == '"' && s[|s| - 1] == '"' && Inside(s[1..|s| - 1])
  }

  /** What stands between the quotes: every backslash escapes a character, and the quote occurs
      only escaped. */
  predicate Inside(body: string)
    decreases |body|
  {
    body == "" ||
    (if body[0] == '\\' then |body| > 1 && body[1] != '\n' && Inside(body[2..])
     else body[0] != '"' && Inside(body[1..]))
  }

  predicate Token(s: string) {
    Word(s) || QuotedString(s)
  }

  /** Tokens with a gap before each and one at the end. */
  function Spread(tokens: seq<string>, gaps: seq<string>): string
    requires |gaps| == |tokens| + 1
  {
    gaps[0] + if tokens == [] then "" else tokens[0] + Spread(tokens[1..], gaps[1..])
  }

  /** Gaps are blank, and those between two tokens are not empty. */
  predicate Gaps(tokens: seq<string>, gaps: seq<string>) {
    && |gaps| == |tokens| + 1
    && (forall i :: 0 <= i < |gaps| ==> Blank(gaps[i]))
    && forall i :: 0 < i < |tokens| ==> gaps[i] != ""
  }

  predicate Tokens(tokens: seq<string>) {
    forall i :: 0 <= i < |tokens| ==> Token(tokens[i])
  }

  // ----- Tokens are kept -----

  lemma {:induction false} BlanksIgnored(blanks: string, rest: string)
    requires Blank(blanks)
    ensures Canonical(blanks + rest) == Canonical(rest)
  {
    if blanks == "" {
      assert blanks + rest == rest;
    } else {
      BlanksIgnored(blanks[1..], rest);
      assert (blanks + rest)[1..] == blanks[1..] + rest;
    }
  }

  lemma {:induction false} SolidRun(s: string, rest: string)
    requires (forall i :: 0 <= i < |s| ==> !IsSpace(s[i])) && (rest != "" ==> IsSpace(rest[0]))
    ensures SolidLength(s + rest) == |s|
  {
    if s == "" {
      assert s + rest == rest;
    } else {
      SolidRun(s[1..], rest);
      assert (s + rest)[1..] == s[1..] + rest;
    }
  }

  lemma {:induction false} QuoteCloses(body: string, rest: string)
    requires Inside(body)
    ensures QuotedTokenRest(body + "\"" + rest) == Some(|body| + 1)
    decreases |body|
  {
    var s := body + "\"" + rest;
    if body != "" && body[0] == '\\' {
      QuoteCloses(body[2..], rest);
      assert s[2..] == body[2..] + "\"" + rest;
    } else if body != "" {
      QuoteCloses(body[1..], rest);
      assert s[1..] == body[1..] + "\"" + rest;
    }
  }

  /** A word that a space or the end follows is kept whole. */
  lemma WordKept(word: string, rest: string)
    requires Word(word) && (rest != "" ==> IsSpace(rest[0]))
    ensures Canonical(word + rest) == [word] + Canonical(rest)
  {
    SolidRun(word, rest);
    var s := word + rest;
    assert s[..|word|] == word && s[|word|..] == rest;
  }

  /** A quoted string is kept whole, whatever follows. */
  lemma QuotedKept(s: string, rest: string)
    requires QuotedString(s)
    ensures Canonical(s + rest) == [s] + Canonical(rest)
  {
    var body := s[1..|s| - 1];
    QuoteCloses(body, rest);
    var all := s + rest;
    assert s == "\"" + body + "\"";
    assert all[1..] == body + "\"" + rest;
    assert all[..|s|] == s && all[|s|..] == rest;
  }

  lemma TokenKept(token: string, rest: string)
    requires Token(token) && (rest != "" ==> IsSpace(rest[0]))
    ensures Canonical(token + rest) == [token] + Canonical(rest)
  {
    if Word(token) {
      WordKept(token, rest);
    } else {
      QuotedKept(token, rest);
    }
  }

  lemma SpreadStart(tokens: seq<string>, gaps: seq<string>)
    requires Gaps(tokens, gaps) && (tokens != [] ==> gaps[0] != "")
    ensures Spread(tokens, gaps) != "" ==> IsSpace(Spread(tokens, gaps)[0])
  {}

  /** Main theorem: the canonical form is the list of tokens, whatever the layout. */
  lemma {:induction false} CanonicalIsTokens(tokens: seq<string>, gaps: seq<string>)
    requires Tokens(tokens) && Gaps(tokens, gaps)
    ensures Canonical(Spread(tokens, gaps)) == tokens
  {
    if tokens == [] {
      BlanksIgnored(gaps[0], "");
    } else {
      var rest := Spread(tokens[1..], gaps[1..]);
      assert Gaps(tokens[1..], gaps[1..]);
      SpreadStart(tokens[1..], gaps[1..]);
      BlanksIgnored(gaps[0], tokens[0] + rest);
      TokenKept(tokens[0], rest);
      CanonicalIsTokens(tokens[1..], gaps[1..]);
    }
  }

  lemma WordCanonical(s: string)
    requires Word(s)
    ensures Canonical(s) == [s]
  {
    WordKept(s, "");
    assert s + "" == s;
  }

  // ----- Every text without quotes is spread words -----

  /** The text spreads these words; it starts with the first one unless it starts with a space. */
  ghost predicate SpreadsWords(s: string, words: seq<string>, gaps: seq<string>) {
    && Gaps(words, gaps) && s == Spread(words, gaps)
    && (forall i :: 0 <= i < |words| ==> Word(words[i]))
    && (s != "" && !IsSpace(s[0]) ==> words != [] && gaps[0] == "")
  }

  lemma SpaceInFront(c: char, s: string, words: seq<string>, gaps: seq<string>)
    requires IsSpace(c) && SpreadsWords(s, words, gaps)
    ensures SpreadsWords([c] + s, words, [[c] + gaps[0]] + gaps[1..])
  {
    assert ([[c] + gaps[0]] + gaps[1..])[1..] == gaps[1..];
    assert [c] + (gaps[0] + s[|gaps[0]|..]) == ([c] + gaps[0]) + s[|gaps[0]|..];
  }

  lemma LetterInFront(c: char, s: string, words: seq<string>, gaps: seq<string>)
    requires !IsSpace(c) && c != '"' && s != "" && !IsSpace(s[0]) && SpreadsWords(s, words, gaps)
    ensures SpreadsWords([c] + s, [[c] + words[0]] + words[1..], gaps)
  {
    var longer := [[c] + words[0]] + words[1..];
    assert longer[1..] == words[1..];
  }

  lemma LetterAlone(c: char, s: string, words: seq<string>, gaps: seq<string>)
    requires !IsSpace(c) && c != '"' && (s != "" ==> IsSpace(s[0])) && SpreadsWords(s, words, gaps)
    ensures SpreadsWords([c] + s, [[c]] + words, [""] + gaps)
  {
    assert ([[c]] + words)[1..] == words && ([""] + gaps)[1..] == gaps;
  }

  lemma {:induction false} TextIsSpread(s: string) returns (words: seq<string>, gaps: seq<string>)
    requires '"' !in s
    ensures SpreadsWords(s, words, gaps)
  {
    if s == "" {
      words, gaps := [], [""];
    } else {
      var c, rest := s[0], s[1..];
      words, gaps := TextIsSpread(rest);
      assert s == [c] + rest;
      if IsSpace(c) {
        SpaceInFront(c, rest, words, gaps);
        gaps := [[c] + gaps[0]] + gaps[1..];
      } else if rest != "" && !IsSpace(rest[0]) {
        LetterInFront(c, rest, words, gaps);
        words := [[c] + words[0]] + words[1..];
      } else {
        LetterAlone(c, rest, words, gaps);
        words, gaps := [[c]] + words, [""] + gaps;
      }
    }
  }

  /** Two texts without quotes are alike exactly when they spread the same words. */
  lemma AlikeIffSameWords(s: string, t: string)
    requires '"' !in s && '"' !in t
    ensures Canonical(s) == Canonical(t) <==>
      exists words, gaps, others :: Tokens(words) && Gaps(words, gaps) && Gaps(words, others) &&
        s == Spread(words, gaps) && t == Spread(words, others)
  {
    var ws, gs := TextIsSpread(s);
    var ws', gs' := TextIsSpread(t);
    CanonicalIsTokens(ws, gs);
    CanonicalIsTokens(ws', gs');
    forall words, gaps, others | Tokens(words) && Gaps(words, gaps) && Gaps(words, others) &&
      s == Spread(words, gaps) && t == Spread(words, others)
      ensures Canonical(s) == Canonical(t)
    {
      CanonicalIsTokens(words, gaps);
      CanonicalIsTokens(words, others);
    }
  }

  // ----- Concatenation -----

  /** Every quoted string that starts a token is closed. */
  predicate QuotesClosed(s: string)
    decreases |s|
  {
    s == "" ||
    (if IsSpace(s[0]) then QuotesClosed(s[1..])
     else (s[0] == '"' ==> QuotedTokenRest(s[1..]).Some?) && QuotesClosed(s[TokenLength(s)..]))
  }

  lemma {:induction false} QuotedRestExtends(s: string, more: string)
    requires QuotedTokenRest(s).Some?
    ensures QuotedTokenRest(s + more) == QuotedTokenRest(s)
    decreases |s|
  {
    if s[0] == '\\' {
      QuotedRestExtends(s[2..], more);
      assert (s + more)[2..] == s[2..] + more;
    } else if s[0] != '"' {
      QuotedRestExtends(s[1..], more);
      assert (s + more)[1..] == s[1..] + more;
    }
  }

  lemma {:induction false} SolidExtends(s: string, c: char, more: string)
    requires IsSpace(c)
    ensures SolidLength(s + [c] + more) == SolidLength(s)
  {
    if s != "" && !IsSpace(s[0]) {
      SolidExtends(s[1..], c, more);
      assert (s + [c] + more)[1..] == s[1..] + [c] + more;
    }
  }

  lemma TokenExtends(s: string, c: char, more: string)
    requires s != "" && !IsSpace(s[0]) && IsSpace(c) && (s[0] == '"' ==> QuotedTokenRest(s[1..]).Some?)
    ensures TokenLength(s + [c] + more) == TokenLength(s)
  {
    if s[0] == '"' {
      QuotedRestExtends(s[1..], [c] + more);
      assert (s + [c] + more)[1..] == s[1..] + ([c] + more);
    } else {
      SolidExtends(s, c, more);
    }
  }

  /** Around a space outside quoted strings the tokens are those of both sides. */
  lemma {:induction false} CanonicalConcat(a: string, c: char, b: string)
    requires QuotesClosed(a) && IsSpace(c)
    ensures Canonical(a + [c] + b) == Canonical(a) + Canonical(b)
    decreases |a|
  {
    var s := a + [c] + b;
    if a == "" {
      assert s[1..] == b;
    } else if IsSpace(a[0]) {
      CanonicalConcat(a[1..], c, b);
      assert s[1..] == a[1..] + [c] + b;
    } else {
      var n := TokenLength(a);
      TokenExtends(a, c, b);
      CanonicalConcat(a[n..], c, b);
      Apart(a, c, b, n);
      FirstToken(a);
      FirstToken(s);
      Regrouped([a[..n]], Canonical(a[n..]), Canonical(b));
    }
  }

  lemma Apart(a: string, c: char, b: string, n: nat)
    requires n <= |a|
    ensures (a + [c] + b)[n..] == a[n..] + [c] + b && (a + [c] + b)[..n] == a[..n]
  {}

  lemma Regrouped(a: seq<string>, b: seq<string>, c: seq<string>)
    ensures a + (b + c) == (a + b) + c
  {}

  lemma FirstToken(s: string)
    requires s != "" && !IsSpace(s[0])
    ensures Canonical(s) == [s[..TokenLength(s)]] + Canonical(s[TokenLength(s)..])
  {}
}
