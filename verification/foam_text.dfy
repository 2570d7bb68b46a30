/** The bounded reader for OpenFOAM dictionary text that repair authorization relies on:
    comment removal, top-level entries, canonical payloads and dotted entry paths.

    Each scanner is specified by a function on the text that is left, and implemented by the
    loop over an index that the program uses. */
module FoamText {
  import opened Wrappers

  /** The quote character a scanner is inside of, if any. */
  type Quote = Option<char>

  predicate IsQuote(c: char) { c == '"' || c == '\'' }

  predicate IsSpace(c: char) {
    var n := c as int;
    9 <= n <= 13 || 28 <= n <= 32 || n == 0x85 || n == 0xA0 || n == 0x1680 || 0x2000 <= n <= 0x200A ||
    n == 0x2028 || n == 0x2029 || n == 0x202F || n == 0x205F || n == 0x3000
  }

  // ----- Comments -----

  /** The text from the next line break on. */
  function AfterLine(s: string): (r: string)
    ensures |r| <= |s|
  {
    if s == "" || s[0] == '\n' then s else AfterLine(s[1..])
  }

  /** The text after the end of a block comment, or nothing if it does not end. */
  function AfterBlock(s: string): (r: string)
    ensures |r| <= |s|
  {
    if |s| < 2 then "" else if s[0] == '*' && s[1] == '/' then s[2..] else AfterBlock(s[1..])
  }

  predicate StartsLineComment(s: string) { |s| > 1 && s[0] == '/' && s[1] == '/' }

  predicate StartsBlockComment(s: string) { |s| > 1 && s[0] == '/' && s[1] == '*' }

  /** What is left of a text without its comments; quoted text is copied. */
  function Strip(q: Quote, s: string): string
    decreases |s|
  {
    if s == "" then ""
    else if q.Some? then
      if s[0] == '\\' && |s| > 1 then s[..2] + Strip(q, s[2..])
      else [s[0]] + Strip(if s[0] == q.value then None else q, s[1..])
    else if IsQuote(s[0]) then [s[0]] + Strip(Some(s[0]), s[1..])
    else if StartsLineComment(s) then Strip(None, AfterLine(s[2..]))
    else if StartsBlockComment(s) then Strip(None, AfterBlock(s[2..]))
    else [s[0]] + Strip(None, s[1..])
  }

  function QuoteAfter(ch: char, q: Quote): Quote {
    if q.Some? then (if ch == q.value then None else q) else if IsQuote(ch) then Some(ch) else None
  }

  method StripComments(text: string) returns (out: string)
    ensures out == Strip(None, text)
  {
    out := "";
    var i := 0;
    var quote: Quote := None;
    ghost var goal := Strip(None, text);
    while i < |text|
      invariant 0 <= i <= |text| && out + Strip(quote, text[i..]) == goal
      decreases |text| - i
    {
      ghost var rest := text[i..];
      var ch := text[i];
      if quote.Some? && ch == '\\' && i + 1 < |text| {
        Copied(out, [ch, text[i + 1]], Strip(quote, text[i + 2..]));
        assert rest[..2] == [ch, text[i + 1]] && rest[2..] == text[i + 2..];
        out := out + [ch, text[i + 1]];
        i := i + 2;
      } else if quote.None? && ch == '/' && i + 1 < |text| && text[i + 1] == '/' {
        assert rest[2..] == text[i + 2..];
        i := SkipLine(text, i + 2);
      } else if quote.None? && ch == '/' && i + 1 < |text| && text[i + 1] == '*' {
        assert rest[2..] == text[i + 2..];
        i := SkipBlock(text, i + 2);
      } else {
        assert rest[1..] == text[i + 1..];
        Copied(out, [ch], Strip(QuoteAfter(ch, quote), text[i + 1..]));
        quote := QuoteAfter(ch, quote);
        out := out + [ch];
        i := i + 1;
      }
    }
  }

  lemma Copied(a: string, b: string, c: string)
    ensures (a + b) + c == a + (b + c)
  {}

  method SkipLine(text: string, start: nat) returns (i: nat)
    requires start <= |text|
    ensures start <= i <= |text| && text[i..] == AfterLine(text[start..])
  {
    i := start;
    while i < |text| && text[i] != '\n'
      invariant start <= i <= |text| && AfterLine(text[i..]) == AfterLine(text[start..])
    {
      i := i + 1;
    }
  }

  method SkipBlock(text: string, start: nat) returns (i: nat)
    requires start <= |text|
    ensures start <= i <= |text| && text[i..] == AfterBlock(text[start..])
  {
    i := start;
    while i + 1 < |text| && !(text[i] == '*' && text[i + 1] == '/')
      invariant start <= i <= |text| && AfterBlock(text[i..]) == AfterBlock(text[start..])
    {
      i := i + 1;
    }
    i := if i + 2 < |text| then i + 2 else |text|;
  }

  /** Main theorem: removing comments twice is removing them once; the removal never forms a
      new comment out of what it leaves. */
  lemma {:induction false} StripIdempotent(q: Quote, s: string)
    ensures Strip(q, Strip(q, s)) == Strip(q, s)
    decreases |s|
  {
    if s == "" {
    } else if q.Some? {
      if s[0] == '\\' && |s| > 1 {
        StripIdempotent(q, s[2..]);
        assert Strip(q, s)[..2] == s[..2] && Strip(q, s)[2..] == Strip(q, s[2..]);
      } else {
        var q' := if s[0] == q.value then None else q;
        StripIdempotent(q', s[1..]);
        assert Strip(q, s)[1..] == Strip(q', s[1..]);
      }
    } else if IsQuote(s[0]) {
      StripIdempotent(Some(s[0]), s[1..]);
      assert Strip(q, s)[1..] == Strip(Some(s[0]), s[1..]);
    } else if StartsLineComment(s) {
      StripIdempotent(None, AfterLine(s[2..]));
    } else if StartsBlockComment(s) {
      StripIdempotent(None, AfterBlock(s[2..]));
    } else {
      var r := Strip(None, s[1..]);
      StripIdempotent(None, s[1..]);
      assert Strip(q, s) == [s[0]] + r && ([s[0]] + r)[1..] == r;
    }
  }

  /** The inside of a quoted literal: every backslash escapes a character and the quote
      character only occurs escaped. */
  predicate QuotedBody(q: char, s: string)
    decreases |s|
  {
    s == "" || (if s[0] == '\\' then |s| > 1 && QuotedBody(q, s[2..]) else s[0] != q && QuotedBody(q, s[1..]))
  }

  lemma {:induction false} StripQuotedBody(q: char, body: string, rest: string)
    requires q != '\\' && QuotedBody(q, body)
    ensures Strip(Some(q), body + [q] + rest) == body + [q] + Strip(None, rest)
    decreases |body|
  {
    var s := body + [q] + rest;
    if body == "" {
      assert s[1..] == rest;
    } else if body[0] == '\\' {
      StripQuotedBody(q, body[2..], rest);
      assert s[..2] == body[..2] && s[2..] == body[2..] + [q] + rest;
    } else {
      StripQuotedBody(q, body[1..], rest);
      assert s[1..] == body[1..] + [q] + rest;
    }
  }

  /** Quoted text is left intact, whatever it contains. */
  lemma QuotedTextIntact(q: char, body: string, rest: string)
    requires IsQuote(q) && QuotedBody(q, body)
    ensures Strip(None, [q] + body + [q] + rest) == [q] + body + [q] + Strip(None, rest)
  {
    StripQuotedBody(q, body, rest);
    assert ([q] + body + [q] + rest)[1..] == body + [q] + rest;
  }

  // ----- Braces -----

  function DepthAfter(ch: char, depth: int, q: Quote): int {
    if q.None? && ch == '{' then depth + 1 else if q.None? && ch == '}' then depth - 1 else depth
  }

  /** The text after the brace that closes the first open one. */
  function AfterBraces(s: string, depth: int, q: Quote): (r: Option<string>)
    decreases |s|
    ensures r.Some? ==> |r.value| < |s|
  {
    if s == "" then None
    else if q.Some? && s[0] == '\\' then (if |s| < 2 then None else AfterBraces(s[2..], depth, q))
    else if q.None? && s[0] == '}' && depth == 1 then Some(s[1..])
    else AfterBraces(s[1..], DepthAfter(s[0], depth, q), QuoteAfter(s[0], q))
  }

  /** Index just after the matching brace. */
  method FindMatchingBrace(text: string, start: nat) returns (r: Option<nat>)
    requires start <= |text|
    ensures r.None? <==> AfterBraces(text[start..], 0, None).None?
    ensures r.Some? ==> start < r.value <= |text| && AfterBraces(text[start..], 0, None) == Some(text[r.value..])
  {
    var depth := 0;
    var quote: Quote := None;
    var i := start;
    ghost var goal := AfterBraces(text[start..], 0, None);
    while i < |text|
      invariant start <= i
      invariant i <= |text| ==> AfterBraces(text[i..], depth, quote) == goal
      invariant i > |text| ==> goal == None
      decreases |text| - i
    {
      ghost var rest := text[i..];
      var ch := text[i];
      if quote.Some? && ch == '\\' {
        assert i + 2 <= |text| ==> rest[2..] == text[i + 2..];
        i := i + 2;
      } else {
        assert rest[1..] == text[i + 1..];
        if quote.None? && ch == '}' && depth == 1 {
          return Some(i + 1);
        }
        depth, quote := DepthAfter(ch, depth, quote), QuoteAfter(ch, quote);
        i := i + 1;
      }
    }
    return None;
  }

  // ----- Top-level entries -----

  function SkipSpace(s: string): (r: string)
    ensures |r| <= |s| && (r != "" ==> !IsSpace(r[0]))
  {
    if s == "" || !IsSpace(s[0]) then s else SkipSpace(s[1..])
  }

  function TrimEnd(s: string): string {
    if s == "" || !IsSpace(s[|s| - 1]) then s else TrimEnd(s[..|s| - 1])
  }

  function Trim(s: string): string { TrimEnd(SkipSpace(s)) }

  predicate IsKeyStart(c: char) { 'A' <= c <= 'Z' || 'a' <= c <= 'z' || c == '_' }

  predicate IsKeyChar(c: char) { IsKeyStart(c) || '0' <= c <= '9' || c == '.' || c == '-' }

  function KeyCharsLength(s: string): (n: nat)
    ensures n <= |s|
  {
    if s == "" || !IsKeyChar(s[0]) then 0 else 1 + KeyCharsLength(s[1..])
  }

  /** Length of the key a text starts with, 0 if it does not start with one. */
  function KeyLength(s: string): (n: nat)
    ensures n <= |s|
  {
    if s == "" || !IsKeyStart(s[0]) then 0 else 1 + KeyCharsLength(s[1..])
  }

  function Lower(n: nat): nat { if n == 0 then 0 else n - 1 }

  /** What follows a scalar payload, and whether the payload was free of opening braces. */
  datatype ScalarEnd = ScalarEnd(literal: bool, rest: string)

  datatype Brackets = Brackets(round: nat, square: nat)

  function BracketsAfter(ch: char, b: Brackets, q: Quote): Brackets {
    if q.Some? then b
    else if ch == '(' then b.(round := b.round + 1)
    else if ch == ')' then b.(round := Lower(b.round))
    else if ch == '[' then b.(square := b.square + 1)
    else if ch == ']' then b.(square := Lower(b.square))
    else b
  }

  /** The text after the first semicolon outside quotes, round and square brackets. */
  function ScanScalar(s: string, b: Brackets, q: Quote, literal: bool): (r: Option<ScalarEnd>)
    decreases |s|
    ensures r.Some? ==> |r.value.rest| < |s|
  {
    if s == "" then None
    else if q.Some? && s[0] == '\\' then (if |s| < 2 then None else ScanScalar(s[2..], b, q, literal))
    else if q.None? && s[0] == ';' && b == Brackets(0, 0) then Some(ScalarEnd(literal, s[1..]))
    else ScanScalar(s[1..], BracketsAfter(s[0], b, q), QuoteAfter(s[0], q), literal && (q.Some? || s[0] != '{'))
  }

  /** One entry at the front of comment-free text and the text after it. */
  datatype Parsed = End | Broken | Parsed(key: string, payload: string, literal: bool, rest: string)

  function NextEntry(s: string): (r: Parsed)
    ensures r.Parsed? ==> |r.rest| < |s|
  {
    var s1 := SkipSpace(s);
    if s1 == "" then End
    else if s1[0] == '#' || KeyLength(s1) == 0 then Broken
    else ValueOf(s1[..KeyLength(s1)], SkipSpace(s1[KeyLength(s1)..]))
  }

  /** The value that follows a key: a braced block or a scalar up to its semicolon. */
  function ValueOf(key: string, s: string): (r: Parsed)
    ensures r.Parsed? ==> |r.rest| < |s|
  {
    if s != "" && s[0] == '{' then
      match AfterBraces(s, 0, None)
      case None => Broken
      case Some(rest) => Parsed(key, Trim(s[..|s| - |rest|]), true, rest)
    else
      match ScanScalar(s, Brackets(0, 0), None, true)
      case None => Broken
      case Some(e) =>
        var payload := Trim(s[..|s| - |e.rest| - 1]);
        Parsed(key, payload, e.literal && payload != "", e.rest)
  }

  /** Entries read so far, and whether the text was completely literal. */
  datatype Entries = Entries(payloads: map<string, string>, complete: bool)

  function ReadEntries(s: string, acc: Entries): Entries
    decreases |s|
  {
    match NextEntry(s)
    case End => acc
    case Broken => Entries(acc.payloads, false)
    case Parsed(key, payload, literal, rest) =>
      if key in acc.payloads then Entries(acc.payloads, false)
      else ReadEntries(rest, Entries(acc.payloads[key := payload], acc.complete && literal))
  }

  function TopLevelEntries(text: string): Entries {
    ReadEntries(Strip(None, text), Entries(map[], true))
  }

  /** Index just after the semicolon that ends a scalar. */
  method FindScalarEnd(text: string, start: nat) returns (r: Option<nat>, literal: bool)
    requires start <= |text|
    ensures r.None? <==> ScanScalar(text[start..], Brackets(0, 0), None, true).None?
    ensures r.Some? ==> start < r.value <= |text|
    ensures r.Some? ==>
      ScanScalar(text[start..], Brackets(0, 0), None, true) == Some(ScalarEnd(literal, text[r.value..]))
  {
    var brackets := Brackets(0, 0);
    var quote: Quote := None;
    literal := true;
    var i := start;
    ghost var goal := ScanScalar(text[start..], Brackets(0, 0), None, true);
    while i < |text|
      invariant start <= i
      invariant i <= |text| ==> ScanScalar(text[i..], brackets, quote, literal) == goal
      invariant i > |text| ==> goal == None
      decreases |text| - i
    {
      ghost var rest := text[i..];
      var ch := text[i];
      if quote.Some? && ch == '\\' {
        assert i + 2 <= |text| ==> rest[2..] == text[i + 2..];
        i := i + 2;
      } else {
        assert rest[1..] == text[i + 1..];
        if quote.None? && ch == ';' && brackets == Brackets(0, 0) {
          return Some(i + 1), literal;
        }
        literal := literal && (quote.Some? || ch != '{');
        brackets, quote := BracketsAfter(ch, brackets, quote), QuoteAfter(ch, quote);
        i := i + 1;
      }
    }
    return None, literal;
  }

  method SkipSpaces(text: string, start: nat) returns (i: nat)
    requires start <= |text|
    ensures start <= i <= |text| && text[i..] == SkipSpace(text[start..])
  {
    i := start;
    while i < |text| && IsSpace(text[i])
      invariant start <= i <= |text| && SkipSpace(text[i..]) == SkipSpace(text[start..])
    {
      i := i + 1;
    }
  }

  /** The value that follows a key, at an index of comment-free text. */
  method ReadValue(clean: string, key: string, i: nat) returns (r: Parsed, next: nat)
    requires i <= |clean|
    ensures r == ValueOf(key, clean[i..])
    ensures r.Parsed? ==> i < next <= |clean| && clean[next..] == r.rest
  {
    ghost var rest := clean[i..];
    if i < |clean| && clean[i] == '{' {
      var end := FindMatchingBrace(clean, i);
      if end.None? {
        return Broken, i;
      }
      next := end.value;
      assert rest[..next - i] == clean[i..next];
      return Parsed(key, Trim(clean[i..next]), true, clean[next..]), next;
    }
    var end, literal := FindScalarEnd(clean, i);
    if end.None? {
      return Broken, i;
    }
    next := end.value;
    assert rest[..next - 1 - i] == clean[i..next - 1];
    var payload := Trim(clean[i..next - 1]);
    return Parsed(key, payload, literal && payload != "", clean[next..]), next;
  }

  lemma SliceOfRest(s: string, i: nat, n: nat)
    requires i + n <= |s|
    ensures s[i..][..n] == s[i..i + n] && s[i..][n..] == s[i + n..]
  {}

  method ReadEntry(clean: string, start: nat) returns (r: Parsed, next: nat)
    requires start <= |clean|
    ensures r == NextEntry(clean[start..])
    ensures r.Parsed? ==> start < next <= |clean| && clean[next..] == r.rest
  {
    var i := SkipSpaces(clean, start);
    if i >= |clean| {
      return End, i;
    }
    if clean[i] == '#' || KeyLength(clean[i..]) == 0 {
      return Broken, i;
    }
    ghost var rest := clean[i..];
    var length := KeyLength(clean[i..]);
    var key := clean[i..i + length];
    SliceOfRest(clean, i, length);
    ghost var value := SkipSpace(clean[i + length..]);
    assert NextEntry(clean[start..]) == ValueOf(key, value);
    i := SkipSpaces(clean, i + length);
    r, next := ReadValue(clean, key, i);
  }

  /** The scanner loop over comment-free text.  A repeated key stops it before or after its
      value is read; either way nothing more is recorded. */
  method ReadTopLevelEntries(text: string) returns (r: Entries)
    ensures r == TopLevelEntries(text)
  {
    var clean := StripComments(text);
    var result: map<string, string> := map[];
    var complete := true;
    var i := 0;
    while i < |clean|
      invariant 0 <= i <= |clean|
      invariant ReadEntries(clean[i..], Entries(result, complete)) == TopLevelEntries(text)
      decreases |clean| - i
    {
      var entry, next := ReadEntry(clean, i);
      if entry.End? {
        return Entries(result, complete);
      }
      if entry.Broken? || entry.key in result {
        return Entries(result, false);
      }
      result := result[entry.key := entry.payload];
      complete := complete && entry.literal;
      i := next;
    }
    return Entries(result, complete);
  }

  // ----- Canonical payloads -----

  function Further(n: nat, r: Option<nat>): Option<nat> {
    match r
    case None => None
    case Some(k) => Some(n + k)
  }

  /** Length of the rest of a quoted token, closing quote included. */
  function QuotedTokenRest(s: string): (r: Option<nat>)
    decreases |s|
    ensures r.Some? ==> 0 < r.value <= |s|
  {
    if s == "" then None
    else if s[0] == '"' then Some(1)
    else if s[0] == '\\' then (if |s| < 2 || s[1] == '\n' then None else Further(2, QuotedTokenRest(s[2..])))
    else Further(1, QuotedTokenRest(s[1..]))
  }

  function SolidLength(s: string): (n: nat)
    ensures n <= |s| && (s != "" && !IsSpace(s[0]) ==> n > 0)
  {
    if s == "" || IsSpace(s[0]) then 0 else 1 + SolidLength(s[1..])
  }

  /** Length of the token at the front: a quoted string if one is complete there, otherwise a
      run of characters that are not spaces. */
  function TokenLength(s: string): (n: nat)
    requires s != "" && !IsSpace(s[0])
    ensures 0 < n <= |s|
  {
    match if s[0] == '"' then QuotedTokenRest(s[1..]) else None
    case Some(n) => n + 1
    case None => SolidLength(s)
  }

  /** Payload tokens: layout outside strings is ignored, quoted text is kept exactly. */
  function Canonical(s: string): seq<string>
    decreases |s|
  {
    if s == "" then []
    else if IsSpace(s[0]) then Canonical(s[1..])
    else [s[..TokenLength(s)]] + Canonical(s[TokenLength(s)..])
  }

  function CanonicalOption(s: Option<string>): Option<seq<string>> {
    match s
    case None => None
    case Some(v) => Some(Canonical(v))
  }

  function Lookup(entries: Entries, key: string): Option<string> {
    if key in entries.payloads then Some(entries.payloads[key]) else None
  }

  // ----- Dotted paths -----

  /** The payload at a path of keys, through nested blocks. */
  function EntryAt(text: string, parts: seq<string>): Option<string>
    requires parts != []
    decreases |parts|
  {
    var entries := TopLevelEntries(text);
    if !entries.complete || parts[0] !in entries.payloads then None
    else
      var payload := entries.payloads[parts[0]];
      if |parts| == 1 then (if '#' in payload || '$' in payload then None else Some(payload))
      else if |payload| > 0 && payload[0] == '{' && payload[|payload| - 1] == '}' then
        EntryAt(if |payload| < 2 then "" else payload[1..|payload| - 1], parts[1..])
      else None
  }

  /** A dotted path split at its dots. */
  function SplitDots(s: string): (parts: seq<string>)
    ensures parts != []
  {
    if s == "" then [""]
    else
      var rest := SplitDots(s[1..]);
      if s[0] == '.' then [""] + rest else [[s[0]] + rest[0]] + rest[1..]
  }

  function LiteralEntryPayload(text: string, path: string): Option<string> {
    EntryAt(text, SplitDots(path))
  }

  method ResolveEntry(text: string, path: string) returns (r: Option<string>)
    ensures r == LiteralEntryPayload(text, path)
  {
    var payload := text;
    var parts := SplitDots(path);
    for index := 0 to |parts|
      invariant index < |parts| ==> EntryAt(payload, parts[index..]) == LiteralEntryPayload(text, path)
      invariant index == |parts| ==>
        LiteralEntryPayload(text, path) == if '#' in payload || '$' in payload then None else Some(payload)
    {
      var entries := ReadTopLevelEntries(payload);
      if !entries.complete || parts[index] !in entries.payloads {
        return None;
      }
      payload := entries.payloads[parts[index]];
      if index != |parts| - 1 {
        if !(|payload| > 0 && payload[0] == '{' && payload[|payload| - 1] == '}') {
          return None;
        }
        assert parts[index..][1..] == parts[index + 1..];
        payload := if |payload| < 2 then "" else payload[1..|payload| - 1];
      }
    }
    return if '#' in payload || '$' in payload then None else Some(payload);
  }
}
