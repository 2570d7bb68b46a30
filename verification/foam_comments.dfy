/** What comment removal does to text made of code, quoted literals and comments, and what
    comments between entries do to the reader: nothing. */
module FoamComments {
  import opened Wrappers
  import opened FoamText
  import Printing = FoamPrinting

  /** A stretch of dictionary text. */
  datatype Segment =
    | Code(text: string)
    | Quoted(mark: char, body: string)
    | LineComment(text: string)
    | BlockComment(text: string)

  function Written(s: Segment): string {
    match s
    case Code(text) => text
    case Quoted(mark, body) => [mark] + body + [mark]
    case LineComment(text) => "//" + text + "\n"
    case BlockComment(text) => "/*" + text + "*/"
  }

  /** What is left of a stretch: comments go, but for the line break that ends one. */
  function Left(s: Segment): string {
    match s
    case Code(text) => text
    case Quoted(mark, body) => [mark] + body + [mark]
    case LineComment(_) => "\n"
    case BlockComment(_) => ""
  }

  /** Code without quotes and comments. */
  predicate ProperCode(text: string) {
    && (forall i :: 0 <= i < |text| ==> text[i] != '"' && text[i] != '\'')
    && (forall i :: 0 < i < |text| && text[i - 1] == '/' ==> text[i] != '/' && text[i] != '*')
    && (text != "" ==> text[|text| - 1] != '/')
  }

  /** The text ends no block comment before its own end. */
  predicate NoEnd(text: string) {
    forall i :: 0 < i < |text| && text[i - 1] == '*' ==> text[i] != '/'
  }

  predicate Proper(s: Segment) {
    match s
    case Code(text) => ProperCode(text)
    case Quoted(mark, body) => mark in {'"', '\''} && QuotedBody(mark, body)
    case LineComment(text) => '\n' !in text
    case BlockComment(text) => NoEnd(text + "*")
  }

  function Text(segments: seq<Segment>): string {
    if segments == [] then "" else Written(segments[0]) + Text(segments[1..])
  }

  function LeftOf(segments: seq<Segment>): string {
    if segments == [] then "" else Left(segments[0]) + LeftOf(segments[1..])
  }

  // ----- One stretch -----

  lemma {:induction false} SkipsToEnd(body: string, rest: string)
    requires NoEnd(body + "*")
    ensures AfterBlock(body + "*/" + rest) == rest
  {
    var s := body + "*/" + rest;
    if body != "" {
      var first := (body + "*")[..2];
      assert (body + "*")[1] == s[1] && (body + "*")[0] == s[0];
      forall i | 0 < i < |body[1..] + "*"| && (body[1..] + "*")[i - 1] == '*'
        ensures (body[1..] + "*")[i] != '/'
      {
        assert (body[1..] + "*")[i] == (body + "*")[i + 1] && (body[1..] + "*")[i - 1] == (body + "*")[i];
      }
      SkipsToEnd(body[1..], rest);
      assert s[1..] == body[1..] + "*/" + rest;
    } else {
      assert s[2..] == rest;
    }
  }

  /** A block comment is removed up to its first end. */
  lemma BlockCommentRemoved(body: string, rest: string)
    requires NoEnd(body + "*")
    ensures Strip(None, "/*" + body + "*/" + rest) == Strip(None, rest)
  {
    SkipsToEnd(body, rest);
    assert ("/*" + body + "*/" + rest)[2..] == body + "*/" + rest;
  }

  lemma {:induction false} NoBlockEnd(body: string)
    requires NoEnd(body)
    ensures AfterBlock(body) == ""
  {
    if |body| >= 2 {
      assert forall i :: 0 < i < |body[1..]| ==> body[1..][i] == body[i + 1] && body[1..][i - 1] == body[i];
      NoBlockEnd(body[1..]);
      assert body[0] == '*' ==> body[1] != '/';
    }
  }

  /** A block comment without an end removes everything after it. */
  lemma OpenBlockRemovesRest(body: string)
    requires NoEnd(body)
    ensures Strip(None, "/*" + body) == ""
  {
    NoBlockEnd(body);
    assert ("/*" + body)[2..] == body;
  }

  lemma {:induction false} SkipsLine(line: string, rest: string)
    requires '\n' !in line && (rest != "" ==> rest[0] == '\n')
    ensures AfterLine(line + rest) == rest
  {
    if line == "" {
      assert line + rest == rest;
    } else {
      SkipsLine(line[1..], rest);
      assert (line + rest)[1..] == line[1..] + rest;
    }
  }

  /** A line comment is removed, but not the line break that ends it. */
  lemma LineCommentRemoved(line: string, rest: string)
    requires '\n' !in line
    ensures Strip(None, "//" + line + "\n" + rest) == "\n" + Strip(None, rest)
    ensures Strip(None, "//" + line) == ""
  {
    var s := "//" + line + "\n" + rest;
    SkipsLine(line, "\n" + rest);
    assert s[2..] == line + ("\n" + rest);
    assert ("\n" + rest)[1..] == rest;
    SkipsLine(line, "");
    assert ("//" + line)[2..] == line + "";
  }

  /** Code is kept. */
  lemma {:induction false} CodeKept(text: string, rest: string)
    requires ProperCode(text)
    ensures Strip(None, text + rest) == text + Strip(None, rest)
  {
    var s := text + rest;
    if text == "" {
      assert s == rest;
    } else {
      assert ProperCode(text[1..]);
      CodeKept(text[1..], rest);
      assert s[1..] == text[1..] + rest && s[0] == text[0];
      if text[0] == '/' {
        assert s[1] == text[1];
      }
      Copied([text[0]], text[1..], Strip(None, rest));
      assert [text[0]] + text[1..] == text;
    }
  }

  lemma SegmentRemoved(s: Segment, rest: string)
    requires Proper(s)
    ensures Strip(None, Written(s) + rest) == Left(s) + Strip(None, rest)
  {
    match s
    case Code(text) => CodeKept(text, rest);
    case Quoted(mark, body) => QuotedTextIntact(mark, body, rest);
    case LineComment(text) => LineCommentRemoved(text, rest);
    case BlockComment(text) =>
      BlockCommentRemoved(text, rest);
      assert "" + Strip(None, rest) == Strip(None, rest);
  }

  /** Main theorem: of text made of code, quoted literals and comments, exactly the comments are
      removed. */
  lemma {:induction false} CommentsRemoved(segments: seq<Segment>, rest: string)
    requires forall s :: s in segments ==> Proper(s)
    ensures Strip(None, Text(segments) + rest) == LeftOf(segments) + Strip(None, rest)
  {
    if segments == [] {
      assert Text(segments) + rest == rest && LeftOf(segments) + Strip(None, rest) == Strip(None, rest);
    } else {
      var first, others := segments[0], segments[1..];
      CommentsRemoved(others, rest);
      SegmentRemoved(first, Text(others) + rest);
      Copied(Written(first), Text(others), rest);
      Copied(Left(first), LeftOf(others), Strip(None, rest));
    }
  }

  // ----- Comments between entries -----

  predicate BlankText(s: string) {
    forall i :: 0 <= i < |s| ==> IsSpace(s[i])
  }

  /** Comments and layout. */
  predicate Gap(segments: seq<Segment>) {
    forall s :: s in segments ==> Proper(s) && !s.Quoted? && (s.Code? ==> BlankText(s.text))
  }

  /** Printed entries with a gap before each and one at the end. */
  function Commented(nodes: seq<Printing.Node>, gaps: seq<seq<Segment>>): string
    requires |gaps| == |nodes| + 1
  {
    Text(gaps[0]) + if nodes == [] then "" else Printing.PrintNode(nodes[0]) + Commented(nodes[1..], gaps[1..])
  }

  /** The same without the comments. */
  function Uncommented(nodes: seq<Printing.Node>, gaps: seq<seq<Segment>>): string
    requires |gaps| == |nodes| + 1
  {
    LeftOf(gaps[0]) + if nodes == [] then "" else Printing.PrintNode(nodes[0]) + Uncommented(nodes[1..], gaps[1..])
  }

  lemma {:induction false} GapLeavesLayout(segments: seq<Segment>)
    requires Gap(segments)
    ensures BlankText(LeftOf(segments))
  {
    if segments != [] {
      GapLeavesLayout(segments[1..]);
    }
  }

  lemma {:induction false} StripCommented(nodes: seq<Printing.Node>, gaps: seq<seq<Segment>>)
    requires |gaps| == |nodes| + 1 && Printing.WellFormed(nodes) && forall g :: g in gaps ==> Gap(g)
    ensures Strip(None, Commented(nodes, gaps)) == Uncommented(nodes, gaps)
  {
    var rest := Commented(nodes, gaps)[|Text(gaps[0])|..];
    assert Commented(nodes, gaps) == Text(gaps[0]) + rest;
    assert gaps[0] in gaps && Gap(gaps[0]);
    CommentsRemoved(gaps[0], rest);
    if nodes != [] {
      var n, more := nodes[0], Commented(nodes[1..], gaps[1..]);
      assert rest == Printing.PrintNode(n) + more;
      Printing.PlainNode(n);
      Printing.StripPlain(None, Printing.PrintNode(n), more);
      StripCommented(nodes[1..], gaps[1..]);
    }
  }

  lemma {:induction false} BlanksSkipped(blanks: string, rest: string)
    requires BlankText(blanks)
    ensures SkipSpace(blanks + rest) == SkipSpace(rest)
  {
    if blanks == "" {
      assert blanks + rest == rest;
    } else {
      BlanksSkipped(blanks[1..], rest);
      assert (blanks + rest)[1..] == blanks[1..] + rest;
    }
  }

  lemma ReadAfterBlanks(blanks: string, rest: string, acc: Entries)
    requires BlankText(blanks)
    ensures ReadEntries(blanks + rest, acc) == ReadEntries(rest, acc)
  {
    BlanksSkipped(blanks, rest);
    assert NextEntry(blanks + rest) == NextEntry(rest);
  }

  lemma {:induction false} ReadUncommented(nodes: seq<Printing.Node>, gaps: seq<seq<Segment>>, acc: Entries)
    requires |gaps| == |nodes| + 1 && Printing.WellFormed(nodes) && forall g :: g in gaps ==> Gap(g)
    requires forall i :: 0 <= i < |nodes| ==> nodes[i].key !in acc.payloads
    ensures ReadEntries(Uncommented(nodes, gaps), acc) ==
      Entries(acc.payloads + Printing.Payloads(nodes), acc.complete)
  {
    GapLeavesLayout(gaps[0]);
    if nodes == [] {
      ReadAfterBlanks(LeftOf(gaps[0]), "", acc);
      assert acc.payloads + map[] == acc.payloads;
    } else {
      var n, rest := nodes[0], Uncommented(nodes[1..], gaps[1..]);
      ReadAfterBlanks(LeftOf(gaps[0]), Printing.PrintNode(n) + rest, acc);
      Printing.ReadOne(n, rest, acc);
      ReadUncommented(nodes[1..], gaps[1..], Entries(acc.payloads[n.key := Printing.PayloadOf(n)], acc.complete));
      Printing.MergeOne(acc.payloads, n.key, Printing.PayloadOf(n), Printing.Payloads(nodes[1..]));
    }
  }

  /** Main theorem: comments between printed entries do not change what is read. */
  lemma CommentedEntriesRecovered(nodes: seq<Printing.Node>, gaps: seq<seq<Segment>>)
    requires |gaps| == |nodes| + 1 && Printing.WellFormed(nodes) && forall g :: g in gaps ==> Gap(g)
    ensures TopLevelEntries(Commented(nodes, gaps)) == Entries(Printing.Payloads(nodes), true)
  {
    StripCommented(nodes, gaps);
    ReadUncommented(nodes, gaps, Entries(map[], true));
    assert map[] + Printing.Payloads(nodes) == Printing.Payloads(nodes);
  }
}
