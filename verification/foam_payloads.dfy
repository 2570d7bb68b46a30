/** Scalar payloads by their shape: text, quoted literals, lists in round brackets and dimensions
    in square ones.  A semicolon inside brackets or quotes does not end the entry. */
module FoamPayloads {
  import opened Wrappers
  import opened FoamText
  import Printing = FoamPrinting

  datatype Piece =
    | Text(text: string)
    | Quoted(mark: char, body: string)
    | Round(inside: seq<Piece>)
    | Square(inside: seq<Piece>)

  function Write(p: Piece): string
    decreases p, 1
  {
    match p
    case Text(text) => text
    case Quoted(mark, body) => [mark] + body + [mark]
    case Round(inside) => "(" + WriteAll(inside) + ")"
    case Square(inside) => "[" + WriteAll(inside) + "]"
  }

  function WriteAll(pieces: seq<Piece>): string
    decreases pieces, 0
  {
    if pieces == [] then "" else Write(pieces[0]) + WriteAll(pieces[1..])
  }

  /** Text without quotes, brackets, braces and slashes; semicolons only where they are allowed. */
  predicate ProperText(text: string, nested: bool) {
    forall i :: 0 <= i < |text| ==>
      text[i] !in {'"', '\'', '(', ')', '[', ']', '{', '}', '/'} && (nested || text[i] != ';')
  }

  predicate Proper(p: Piece, nested: bool)
    decreases p, 1
  {
    match p
    case Text(text) => ProperText(text, nested)
    case Quoted(mark, body) => mark in {'"', '\''} && QuotedBody(mark, body)
    case Round(inside) => AllProper(inside, true)
    case Square(inside) => AllProper(inside, true)
  }

  predicate AllProper(pieces: seq<Piece>, nested: bool)
    decreases pieces, 0
  {
    pieces == [] || (Proper(pieces[0], nested) && AllProper(pieces[1..], nested))
  }

  predicate Nested(b: Brackets) {
    b.round > 0 || b.square > 0
  }

  // ----- Scanning a piece changes nothing -----

  lemma {:induction false} ScanText(text: string, b: Brackets, rest: string)
    requires ProperText(text, Nested(b))
    ensures Printing.ScalarText(text + rest, b, None) <==> Printing.ScalarText(rest, b, None)
    ensures Printing.Plain(None, text + rest) <==> Printing.Plain(None, rest)
  {
    if text == "" {
      assert text + rest == rest;
    } else {
      ScanText(text[1..], b, rest);
      assert (text + rest)[1..] == text[1..] + rest && (text + rest)[0] == text[0];
    }
  }

  lemma {:induction false} ScanQuotedBody(mark: char, body: string, b: Brackets, rest: string)
    requires mark in {'"', '\''} && QuotedBody(mark, body)
    ensures Printing.ScalarText(body + [mark] + rest, b, Some(mark)) <==> Printing.ScalarText(rest, b, None)
    ensures Printing.Plain(Some(mark), body + [mark] + rest) <==> Printing.Plain(None, rest)
    decreases |body|
  {
    var s := body + [mark] + rest;
    if body == "" {
      assert s[1..] == rest;
    } else if body[0] == '\\' {
      ScanQuotedBody(mark, body[2..], b, rest);
      assert s[2..] == body[2..] + [mark] + rest;
    } else {
      ScanQuotedBody(mark, body[1..], b, rest);
      assert s[1..] == body[1..] + [mark] + rest && s[0] == body[0];
    }
  }

  lemma {:induction false} ScanPiece(p: Piece, b: Brackets, rest: string)
    requires Proper(p, Nested(b))
    ensures Printing.ScalarText(Write(p) + rest, b, None) <==> Printing.ScalarText(rest, b, None)
    ensures Printing.Plain(None, Write(p) + rest) <==> Printing.Plain(None, rest)
    decreases p, 1
  {
    match p {
      case Text(text) => ScanText(text, b, rest);
      case Quoted(mark, body) =>
        ScanQuotedBody(mark, body, b, rest);
        assert (Write(p) + rest)[1..] == body + [mark] + rest;
      case Round(inside) =>
        ScanPieces(inside, b.(round := b.round + 1), ")" + rest);
        RoundStep(WriteAll(inside), b, rest);
      case Square(inside) =>
        ScanPieces(inside, b.(square := b.square + 1), "]" + rest);
        SquareStep(WriteAll(inside), b, rest);
    }
  }

  lemma RoundStep(inner: string, b: Brackets, rest: string)
    ensures Printing.ScalarText("(" + inner + ")" + rest, b, None) <==>
      Printing.ScalarText(inner + (")" + rest), b.(round := b.round + 1), None)
    ensures Printing.ScalarText(")" + rest, b.(round := b.round + 1), None) <==> Printing.ScalarText(rest, b, None)
    ensures Printing.Plain(None, "(" + inner + ")" + rest) <==> Printing.Plain(None, inner + (")" + rest))
    ensures Printing.Plain(None, ")" + rest) <==> Printing.Plain(None, rest)
  {
    assert ("(" + inner + ")" + rest)[1..] == inner + (")" + rest) && (")" + rest)[1..] == rest;
  }

  lemma SquareStep(inner: string, b: Brackets, rest: string)
    ensures Printing.ScalarText("[" + inner + "]" + rest, b, None) <==>
      Printing.ScalarText(inner + ("]" + rest), b.(square := b.square + 1), None)
    ensures Printing.ScalarText("]" + rest, b.(square := b.square + 1), None) <==> Printing.ScalarText(rest, b, None)
    ensures Printing.Plain(None, "[" + inner + "]" + rest) <==> Printing.Plain(None, inner + ("]" + rest))
    ensures Printing.Plain(None, "]" + rest) <==> Printing.Plain(None, rest)
  {
    assert ("[" + inner + "]" + rest)[1..] == inner + ("]" + rest) && ("]" + rest)[1..] == rest;
  }

  lemma {:induction false} ScanPieces(pieces: seq<Piece>, b: Brackets, rest: string)
    requires AllProper(pieces, Nested(b))
    ensures Printing.ScalarText(WriteAll(pieces) + rest, b, None) <==> Printing.ScalarText(rest, b, None)
    ensures Printing.Plain(None, WriteAll(pieces) + rest) <==> Printing.Plain(None, rest)
    decreases pieces, 0
  {
    if pieces == [] {
      assert WriteAll(pieces) + rest == rest;
    } else {
      ScanPiece(pieces[0], b, WriteAll(pieces[1..]) + rest);
      ScanPieces(pieces[1..], b, rest);
      Copied(Write(pieces[0]), WriteAll(pieces[1..]), rest);
    }
  }

  predicate Letter(c: char) {
    'A' <= c <= 'Z' || 'a' <= c <= 'z' || c == '_'
  }

  /** Letters, digits, dots and hyphens, the first of them a letter or an underscore. */
  predicate Key(key: string) {
    key != "" && Letter(key[0]) &&
    forall i :: 0 <= i < |key| ==> Letter(key[i]) || '0' <= key[i] <= '9' || key[i] == '.' || key[i] == '-'
  }

  lemma KeyExact(key: string)
    ensures Key(key) <==> Printing.WellFormedKey(key)
  {}

  /** A payload of pieces that starts and ends with a visible character. */
  predicate Payload(pieces: seq<Piece>) {
    var s := WriteAll(pieces);
    AllProper(pieces, false) && s != "" && '!' <= s[0] <= '~' && '!' <= s[|s| - 1] <= '~'
  }

  lemma PayloadExact(pieces: seq<Piece>)
    requires Payload(pieces)
    ensures Printing.WellFormedPayload(WriteAll(pieces))
  {
    var s := WriteAll(pieces);
    ScanPieces(pieces, Brackets(0, 0), "");
    ScanPieces(pieces, Brackets(0, 0), ";");
    assert s + "" == s && ";"[1..] == "";
  }

  // ----- Reading entries -----

  /** One entry with a payload of pieces. */
  function EntryText(key: string, pieces: seq<Piece>): string {
    key + " " + WriteAll(pieces) + ";\n"
  }

  lemma OneNodeRead(n: Printing.Node)
    requires Printing.WellFormedNode(n)
    ensures Printing.Print([n]) == Printing.PrintNode(n)
    ensures TopLevelEntries(Printing.PrintNode(n)) == Entries(map[n.key := Printing.PayloadOf(n)], true)
  {
    assert [n][1..] == [];
    Printing.PrintedEntriesRecovered([n]);
  }

  /** Main theorem: an entry is read up to the semicolon after its pieces, and its payload is
      what the pieces write. */
  lemma EntryRead(key: string, pieces: seq<Piece>)
    requires Key(key) && Payload(pieces)
    ensures TopLevelEntries(EntryText(key, pieces)) == Entries(map[key := WriteAll(pieces)], true)
  {
    KeyExact(key);
    PayloadExact(pieces);
    var leaf := Printing.Leaf(key, WriteAll(pieces));
    OneNodeRead(leaf);
    assert Printing.PrintNode(leaf) == EntryText(key, pieces);
  }

  /** A block of entries is read as one payload, and the entries inside it are read back. */
  lemma BlockRead(block: string, key: string, pieces: seq<Piece>)
    requires Key(block) && Key(key) && Payload(pieces)
    ensures TopLevelEntries(block + "\n" + "{\n" + EntryText(key, pieces) + "}" + "\n") ==
      Entries(map[block := "{\n" + EntryText(key, pieces) + "}"], true)
  {
    KeyExact(block);
    KeyExact(key);
    PayloadExact(pieces);
    var leaf := Printing.Leaf(key, WriteAll(pieces));
    OneNodeRead(leaf);
    var dict := Printing.Dict(block, [leaf]);
    assert Printing.WellFormed([leaf]);
    OneNodeRead(dict);
    assert Printing.PrintNode(leaf) == EntryText(key, pieces);
    assert Printing.PrintNode(dict) == block + "\n" + ("{\n" + EntryText(key, pieces) + "}") + "\n";
    assert Printing.PrintNode(dict) == block + "\n" + "{\n" + EntryText(key, pieces) + "}" + "\n";
  }

  // ----- Text that is not complete -----

  lemma {:induction false} PrintedThen(nodes: seq<Printing.Node>, tail: string, acc: Entries)
    requires Printing.WellFormed(nodes) && forall i :: 0 <= i < |nodes| ==> nodes[i].key !in acc.payloads
    ensures ReadEntries(Printing.Print(nodes) + tail, acc) ==
      ReadEntries(tail, Entries(acc.payloads + Printing.Payloads(nodes), acc.complete))
  {
    if nodes == [] {
      assert Printing.Print(nodes) + tail == tail && acc.payloads + map[] == acc.payloads;
    } else {
      var n, rest := nodes[0], nodes[1..];
      Copied(Printing.PrintNode(n), Printing.Print(rest), tail);
      Printing.ReadOne(n, Printing.Print(rest) + tail, acc);
      PrintedThen(rest, tail, Entries(acc.payloads[n.key := Printing.PayloadOf(n)], acc.complete));
      Printing.MergeOne(acc.payloads, n.key, Printing.PayloadOf(n), Printing.Payloads(rest));
    }
  }

  /** After printed entries, what follows decides whether the text is complete. */
  lemma PrintedTail(nodes: seq<Printing.Node>, tail: string)
    requires Printing.WellFormed(nodes)
    ensures TopLevelEntries(Printing.Print(nodes) + tail) ==
      ReadEntries(Strip(None, tail), Entries(Printing.Payloads(nodes), true))
  {
    Printing.PlainPrint(nodes);
    Printing.StripPlain(None, Printing.Print(nodes), tail);
    PrintedThen(nodes, Strip(None, tail), Entries(map[], true));
    assert map[] + Printing.Payloads(nodes) == Printing.Payloads(nodes);
  }

  /** A directive ends the reading: the entries before it are found, and the text is not complete. */
  lemma DirectiveStops(nodes: seq<Printing.Node>, directive: string)
    requires Printing.WellFormed(nodes)
    ensures TopLevelEntries(Printing.Print(nodes) + "#" + directive) == Entries(Printing.Payloads(nodes), false)
  {
    var tail := "#" + directive;
    Copied(Printing.Print(nodes), "#", directive);
    PrintedTail(nodes, tail);
    assert Strip(None, tail)[0] == '#';
  }

  /** A second entry under a key ends the reading; the first one stays. */
  lemma RepeatedKeyStops(nodes: seq<Printing.Node>, again: Printing.Node, rest: string)
    requires Printing.WellFormed(nodes) && Printing.WellFormedNode(again)
    requires exists i :: 0 <= i < |nodes| && nodes[i].key == again.key
    ensures TopLevelEntries(Printing.Print(nodes) + Printing.PrintNode(again) + rest) ==
      Entries(Printing.Payloads(nodes), false)
  {
    var i :| 0 <= i < |nodes| && nodes[i].key == again.key;
    Printing.PayloadsOf(nodes, i);
    var tail := Printing.PrintNode(again) + rest;
    Copied(Printing.Print(nodes), Printing.PrintNode(again), rest);
    PrintedTail(nodes, tail);
    Printing.PlainNode(again);
    Printing.StripPlain(None, Printing.PrintNode(again), rest);
    Printing.NextPrinted(again, Strip(None, rest));
  }

  /** A key without a value that ends is not read, and the text is not complete. */
  lemma UnterminatedStops(nodes: seq<Printing.Node>, key: string)
    requires Printing.WellFormed(nodes) && Key(key)
    ensures TopLevelEntries(Printing.Print(nodes) + (key + " ")) == Entries(Printing.Payloads(nodes), false)
  {
    PrintedTail(nodes, key + " ");
    KeyExact(key);
    Printing.PlainKey(key);
    Printing.StripPlain(None, key, " ");
    assert Strip(None, " ") == " ";
    Printing.KeyOf(key, " ");
    assert (key + " ")[|key|..] == " " && (key + " ")[..|key|] == key;
    assert SkipSpace(key + " ") == key + " " && SkipSpace(" ") == "";
  }
}
