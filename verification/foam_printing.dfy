/** The dictionary reader inverts printing: whatever tree of well-formed entries is printed,
    the reader recovers each top-level payload, reports the text as complete, and resolves
    dotted paths to the same nodes. */
module FoamPrinting {
  import opened FoamText
  import opened Wrappers

  datatype Node = Leaf(key: string, payload: string) | Dict(key: string, children: seq<Node>)

  function Print(nodes: seq<Node>): string
    decreases nodes, 0
  {
    if nodes == [] then "" else PrintNode(nodes[0]) + Print(nodes[1..])
  }

  function PrintNode(n: Node): string
    decreases n, 1
  {
    match n
    case Leaf(key, payload) => key + " " + payload + ";\n"
    case Dict(key, children) => key + "\n" + Block(children) + "\n"
  }

  function Block(children: seq<Node>): string
    decreases children, 1
  {
    "{\n" + Print(children) + "}"
  }

  function PayloadOf(n: Node): string {
    match n
    case Leaf(_, payload) => payload
    case Dict(_, children) => Block(children)
  }

  /** Text in which no comment starts and every quote is closed; q is the quote it starts
      inside of. */
  predicate Plain(q: Quote, s: string)
    decreases |s|
  {
    if s == "" then q == None
    else if q.Some? then
      if s[0] == '\\' then |s| > 1 && Plain(q, s[2..])
      else Plain(if s[0] == q.value then None else q, s[1..])
    else if IsQuote(s[0]) then Plain(Some(s[0]), s[1..])
    else if s[0] == '/' then |s| > 1 && s[1] != '/' && s[1] != '*' && Plain(None, s[1..])
    else Plain(None, s[1..])
  }

  /** A scalar payload read from given bracket depths: it closes every bracket and quote and
      has no brace, and no semicolon outside brackets. */
  predicate ScalarText(s: string, b: Brackets, q: Quote)
    decreases |s|
  {
    if s == "" then b == Brackets(0, 0) && q == None
    else if q.Some? && s[0] == '\\' then |s| > 1 && ScalarText(s[2..], b, q)
    else
      (q.None? ==> s[0] != '{' && s[0] != '}' && !(s[0] == ';' && b == Brackets(0, 0))) &&
      ScalarText(s[1..], BracketsAfter(s[0], b, q), QuoteAfter(s[0], q))
  }

  predicate WellFormedKey(k: string) {
    k != "" && IsKeyStart(k[0]) && forall i :: 0 <= i < |k| ==> IsKeyChar(k[i])
  }

  predicate WellFormedPayload(p: string) {
    p != "" && !IsSpace(p[0]) && !IsSpace(p[|p| - 1]) && ScalarText(p, Brackets(0, 0), None) && Plain(None, p + ";")
  }

  predicate DistinctKeys(nodes: seq<Node>) {
    forall i, j :: 0 <= i < j < |nodes| ==> nodes[i].key != nodes[j].key
  }

  predicate WellFormed(nodes: seq<Node>)
    decreases nodes, 0
  {
    DistinctKeys(nodes) && forall i :: 0 <= i < |nodes| ==> WellFormedNode(nodes[i])
  }

  predicate WellFormedNode(n: Node)
    decreases n, 1
  {
    WellFormedKey(n.key) &&
    match n
    case Leaf(_, payload) => WellFormedPayload(payload)
    case Dict(_, children) => WellFormed(children)
  }

  // ----- Printed text has no comments -----

  lemma Slices(a: string, b: string, k: nat)
    requires k <= |a|
    ensures (a + b)[k..] == a[k..] + b && (a + b)[..k] == a[..k]
  {}

  lemma {:induction false} StripPlain(q: Quote, a: string, b: string)
    requires Plain(q, a)
    ensures Strip(q, a + b) == a + Strip(None, b)
    decreases |a|
  {
    if a == "" {
      assert a + b == b;
    } else if q.Some? && a[0] == '\\' {
      StripPlain(q, a[2..], b);
      Slices(a, b, 2);
      Copied(a[..2], a[2..], Strip(None, b));
      assert a[..2] + a[2..] == a;
    } else {
      StripPlain(QuoteAfter(a[0], q), a[1..], b);
      Slices(a, b, 1);
      if q.None? && a[0] == '/' {
        assert (a + b)[1] == a[1];
      }
      Copied([a[0]], a[1..], Strip(None, b));
      assert [a[0]] + a[1..] == a;
    }
  }

  lemma {:induction false} PlainConcat(q: Quote, a: string, b: string)
    requires Plain(q, a) && Plain(None, b)
    ensures Plain(q, a + b)
    decreases |a|
  {
    if a == "" {
      assert a + b == b;
    } else if q.Some? && a[0] == '\\' {
      PlainConcat(q, a[2..], b);
      assert (a + b)[2..] == a[2..] + b;
    } else {
      PlainConcat(QuoteAfter(a[0], q), a[1..], b);
      assert (a + b)[1..] == a[1..] + b;
    }
  }

  lemma {:induction false} PlainKey(k: string)
    requires forall i :: 0 <= i < |k| ==> IsKeyChar(k[i])
    ensures Plain(None, k)
  {
    if k != "" {
      PlainKey(k[1..]);
    }
  }

  lemma {:induction false} PlainPrint(nodes: seq<Node>)
    requires WellFormed(nodes)
    ensures Plain(None, Print(nodes))
    decreases nodes, 0
  {
    if nodes != [] {
      PlainNode(nodes[0]);
      PlainPrint(nodes[1..]);
      PlainConcat(None, PrintNode(nodes[0]), Print(nodes[1..]));
    }
  }

  lemma {:induction false} PlainNode(n: Node)
    requires WellFormedNode(n)
    ensures Plain(None, PrintNode(n))
    decreases n, 1
  {
    PlainKey(n.key);
    match n {
      case Leaf(key, payload) =>
        PlainConcat(None, key, " ");
        PlainConcat(None, key + " ", payload + ";");
        PlainConcat(None, key + " " + (payload + ";"), "\n");
        assert key + " " + (payload + ";") + "\n" == PrintNode(n);
      case Dict(key, children) =>
        PlainPrint(children);
        PlainConcat(None, "{\n", Print(children));
        PlainConcat(None, "{\n" + Print(children), "}");
        PlainConcat(None, key, "\n");
        PlainConcat(None, key + "\n", Block(children));
        PlainConcat(None, key + "\n" + Block(children), "\n");
    }
  }

  // ----- Reading one printed entry -----

  lemma {:induction false} KeyCharsOf(k: string, rest: string)
    requires forall i :: 0 <= i < |k| ==> IsKeyChar(k[i])
    requires rest != "" && !IsKeyChar(rest[0])
    ensures KeyCharsLength(k + rest) == |k|
  {
    if k == "" {
      assert k + rest == rest;
    } else {
      KeyCharsOf(k[1..], rest);
      assert (k + rest)[1..] == k[1..] + rest;
    }
  }

  lemma KeyOf(k: string, rest: string)
    requires WellFormedKey(k) && rest != "" && !IsKeyChar(rest[0])
    ensures KeyLength(k + rest) == |k| && !IsSpace((k + rest)[0]) && (k + rest)[0] != '#'
  {
    KeyCharsOf(k[1..], rest);
    assert (k + rest)[1..] == k[1..] + rest;
  }

  lemma {:induction false} ScanPrinted(p: string, b: Brackets, q: Quote, rest: string)
    requires ScalarText(p, b, q)
    ensures ScanScalar(p + ";" + rest, b, q, true) == Some(ScalarEnd(true, rest))
    decreases |p|
  {
    var s := p + ";" + rest;
    if p == "" {
      assert s[1..] == rest;
    } else if q.Some? && p[0] == '\\' {
      ScanPrinted(p[2..], b, q, rest);
      assert s[2..] == p[2..] + ";" + rest;
    } else {
      ScanPrinted(p[1..], BracketsAfter(p[0], b, q), QuoteAfter(p[0], q), rest);
      assert s[1..] == p[1..] + ";" + rest;
    }
  }

  /** Scalars, keys and whole printed blocks do not disturb brace matching. */
  lemma {:induction false} BracesSkipScalar(p: string, b: Brackets, q: Quote, depth: int, rest: string)
    requires ScalarText(p, b, q)
    ensures AfterBraces(p + rest, depth, q) == AfterBraces(rest, depth, None)
    decreases |p|
  {
    var s := p + rest;
    if p == "" {
      assert s == rest;
    } else if q.Some? && p[0] == '\\' {
      BracesSkipScalar(p[2..], b, q, depth, rest);
      assert s[2..] == p[2..] + rest;
    } else {
      BracesSkipScalar(p[1..], BracketsAfter(p[0], b, q), QuoteAfter(p[0], q), depth, rest);
      assert s[1..] == p[1..] + rest;
    }
  }

  lemma {:induction false} BracesSkipKey(k: string, depth: int, rest: string)
    requires forall i :: 0 <= i < |k| ==> IsKeyChar(k[i])
    ensures AfterBraces(k + rest, depth, None) == AfterBraces(rest, depth, None)
  {
    if k == "" {
      assert k + rest == rest;
    } else {
      BracesSkipKey(k[1..], depth, rest);
      assert (k + rest)[1..] == k[1..] + rest;
    }
  }

  lemma {:induction false} BracesSkipPrint(nodes: seq<Node>, depth: int, rest: string)
    requires WellFormed(nodes) && depth >= 1
    ensures AfterBraces(Print(nodes) + rest, depth, None) == AfterBraces(rest, depth, None)
    decreases nodes, 0
  {
    if nodes == [] {
      assert Print(nodes) + rest == rest;
    } else {
      BracesSkipNode(nodes[0], depth, Print(nodes[1..]) + rest);
      BracesSkipPrint(nodes[1..], depth, rest);
      assert Print(nodes) + rest == PrintNode(nodes[0]) + (Print(nodes[1..]) + rest);
    }
  }

  lemma {:induction false} BracesSkipNode(n: Node, depth: int, rest: string)
    requires WellFormedNode(n) && depth >= 1
    ensures AfterBraces(PrintNode(n) + rest, depth, None) == AfterBraces(rest, depth, None)
    decreases n, 1
  {
    match n {
      case Leaf(key, payload) =>
        var r3 := ['\n'] + rest;
        var r2 := [';'] + r3;
        var r1 := [' '] + (payload + r2);
        assert PrintNode(n) + rest == key + r1;
        BracesSkipKey(key, depth, r1);
        BracesSkipScalar(payload, Brackets(0, 0), None, depth, r2);
      case Dict(key, children) =>
        var r2 := ['\n'] + rest;
        var r1 := ['\n'] + (Block(children) + r2);
        assert PrintNode(n) + rest == key + r1;
        BracesSkipKey(key, depth, r1);
        BracesSkipBlock(children, depth, r2);
    }
  }

  /** A printed block opens one level and closes it at its end. */
  lemma {:induction false} BracesSkipBlock(children: seq<Node>, depth: int, rest: string)
    requires WellFormed(children) && depth >= 0
    ensures depth >= 1 ==> AfterBraces(Block(children) + rest, depth, None) == AfterBraces(rest, depth, None)
    ensures depth == 0 ==> AfterBraces(Block(children) + rest, depth, None) == Some(rest)
    decreases children, 1
  {
    var r2 := ['}'] + rest;
    var r1 := ['\n'] + (Print(children) + r2);
    assert Block(children) + rest == ['{'] + r1;
    BracesSkipPrint(children, depth + 1, r2);
  }

  lemma NextLeaf(key: string, payload: string, rest: string)
    requires WellFormedKey(key) && WellFormedPayload(payload)
    ensures NextEntry(key + " " + payload + ";" + rest) == Parsed(key, payload, true, rest)
  {
    var s, value := key + " " + payload + ";" + rest, payload + ";" + rest;
    assert s == key + (" " + value);
    KeyOf(key, " " + value);
    Slices(key, " " + value, |key|);
    assert (" " + value)[1..] == value;
    assert SkipSpace(" " + value) == value;
    assert payload[0] != '{';
    LeafValue(key, payload, rest);
  }

  lemma LeafValue(key: string, payload: string, rest: string)
    requires WellFormedPayload(payload) && payload[0] != '{'
    ensures ValueOf(key, payload + ";" + rest) == Parsed(key, payload, true, rest)
  {
    ScanPrinted(payload, Brackets(0, 0), None, rest);
    var value := payload + ";" + rest;
    assert value[..|value| - |rest| - 1] == payload;
  }

  lemma NextDict(key: string, children: seq<Node>, rest: string)
    requires WellFormedKey(key) && WellFormed(children)
    ensures NextEntry(key + "\n" + Block(children) + rest) == Parsed(key, Block(children), true, rest)
  {
    var s, value := key + "\n" + Block(children) + rest, Block(children) + rest;
    assert s == key + ("\n" + value);
    KeyOf(key, "\n" + value);
    Slices(key, "\n" + value, |key|);
    assert ("\n" + value)[1..] == value;
    assert SkipSpace("\n" + value) == value;
    DictValue(key, children, rest);
  }

  lemma DictValue(key: string, children: seq<Node>, rest: string)
    requires WellFormed(children)
    ensures ValueOf(key, Block(children) + rest) == Parsed(key, Block(children), true, rest)
  {
    var value := Block(children) + rest;
    BracesSkipBlock(children, 0, rest);
    assert value[..|value| - |rest|] == Block(children);
  }

  /** The reader takes exactly one printed entry off the front. */
  lemma NextPrinted(n: Node, rest: string)
    requires WellFormedNode(n)
    ensures NextEntry(PrintNode(n) + rest) == Parsed(n.key, PayloadOf(n), true, "\n" + rest)
  {
    match n {
      case Leaf(key, payload) =>
        assert PrintNode(n) + rest == key + " " + payload + ";" + ("\n" + rest);
        NextLeaf(key, payload, "\n" + rest);
      case Dict(key, children) =>
        assert PrintNode(n) + rest == key + "\n" + Block(children) + ("\n" + rest);
        NextDict(key, children, "\n" + rest);
    }
  }

  lemma ReadOne(n: Node, rest: string, acc: Entries)
    requires WellFormedNode(n) && n.key !in acc.payloads
    ensures ReadEntries(PrintNode(n) + rest, acc) ==
            ReadEntries(rest, Entries(acc.payloads[n.key := PayloadOf(n)], acc.complete))
  {
    NextPrinted(n, rest);
  }

  function Payloads(nodes: seq<Node>): map<string, string> {
    if nodes == [] then map[] else map[nodes[0].key := PayloadOf(nodes[0])] + Payloads(nodes[1..])
  }

  lemma {:induction false} PayloadsOf(nodes: seq<Node>, i: nat)
    requires DistinctKeys(nodes)
    ensures forall k :: k in Payloads(nodes) ==> exists j :: 0 <= j < |nodes| && nodes[j].key == k
    ensures i < |nodes| ==> nodes[i].key in Payloads(nodes) && Payloads(nodes)[nodes[i].key] == PayloadOf(nodes[i])
  {
    if nodes != [] {
      var rest := nodes[1..];
      PayloadsOf(rest, if i > 0 then i - 1 else 0);
      forall k | k in Payloads(nodes) ensures exists j :: 0 <= j < |nodes| && nodes[j].key == k {
        if k in Payloads(rest) {
          var j :| 0 <= j < |rest| && rest[j].key == k;
          assert nodes[j + 1].key == k;
        } else {
          assert nodes[0].key == k;
        }
      }
      if i > 0 && i < |nodes| {
        assert rest[i - 1] == nodes[i];
      }
    }
  }

  lemma {:induction false} ReadPrinted(nodes: seq<Node>, acc: Entries)
    requires WellFormed(nodes) && forall i :: 0 <= i < |nodes| ==> nodes[i].key !in acc.payloads
    ensures ReadEntries(Print(nodes), acc) == Entries(acc.payloads + Payloads(nodes), acc.complete)
  {
    if nodes == [] {
      assert acc.payloads + map[] == acc.payloads;
    } else {
      var n, rest := nodes[0], nodes[1..];
      ReadOne(n, Print(rest), acc);
      var acc' := Entries(acc.payloads[n.key := PayloadOf(n)], acc.complete);
      ReadPrinted(rest, acc');
      PayloadsOf(rest, 0);
      MergeOne(acc.payloads, n.key, PayloadOf(n), Payloads(rest));
    }
  }

  lemma MergeOne(m: map<string, string>, key: string, value: string, rest: map<string, string>)
    ensures m[key := value] + rest == m + (map[key := value] + rest)
  {}

  /** Main theorem: reading inverts printing, and the printed text is complete. */
  lemma PrintedEntriesRecovered(nodes: seq<Node>)
    requires WellFormed(nodes)
    ensures TopLevelEntries(Print(nodes)) == Entries(Payloads(nodes), true)
  {
    PlainPrint(nodes);
    StripPlain(None, Print(nodes), "");
    assert Print(nodes) + "" == Print(nodes);
    ReadPrinted(nodes, Entries(map[], true));
    assert map[] + Payloads(nodes) == Payloads(nodes);
  }

  // ----- Dotted paths -----

  function Find(nodes: seq<Node>, key: string): Option<Node> {
    if nodes == [] then None else if nodes[0].key == key then Some(nodes[0]) else Find(nodes[1..], key)
  }

  /** The payload at a path of keys in a tree, unless it uses a directive or a macro. */
  function Resolve(nodes: seq<Node>, parts: seq<string>): Option<string>
    requires parts != []
    decreases |parts|
  {
    match Find(nodes, parts[0])
    case None => None
    case Some(n) =>
      if |parts| == 1 then
        (if '#' in PayloadOf(n) || '$' in PayloadOf(n) then None else Some(PayloadOf(n)))
      else if n.Leaf? then None
      else Resolve(n.children, parts[1..])
  }

  lemma {:induction false} FindIndex(nodes: seq<Node>, key: string)
    ensures Find(nodes, key).None? ==> forall i :: 0 <= i < |nodes| ==> nodes[i].key != key
    ensures Find(nodes, key).Some? ==>
      exists i :: 0 <= i < |nodes| && nodes[i].key == key && nodes[i] == Find(nodes, key).value
  {
    if nodes != [] {
      FindIndex(nodes[1..], key);
      if nodes[0].key != key && Find(nodes, key).Some? {
        var i :| 0 <= i < |nodes[1..]| && nodes[1..][i].key == key && nodes[1..][i] == Find(nodes, key).value;
        assert nodes[i + 1] == nodes[1..][i];
      }
    }
  }

  lemma EntriesAfterBreak(s: string)
    ensures TopLevelEntries("\n" + s) == TopLevelEntries(s)
  {
    assert ("\n" + s)[1..] == s;
    assert Strip(None, "\n" + s) == "\n" + Strip(None, s);
  }

  lemma PathAfterBreak(s: string, parts: seq<string>)
    requires parts != []
    ensures EntryAt("\n" + s, parts) == EntryAt(s, parts)
  {
    EntriesAfterBreak(s);
  }

  /** Looking a key up in the printed text finds the node with that key. */
  lemma PrintedLookup(nodes: seq<Node>, key: string)
    requires WellFormed(nodes)
    ensures TopLevelEntries(Print(nodes)).complete
    ensures Find(nodes, key).None? ==> key !in TopLevelEntries(Print(nodes)).payloads
    ensures Find(nodes, key).Some? ==>
      var n := Find(nodes, key).value;
      n.key == key && WellFormedNode(n) &&
      key in TopLevelEntries(Print(nodes)).payloads && TopLevelEntries(Print(nodes)).payloads[key] == PayloadOf(n)
  {
    PrintedEntriesRecovered(nodes);
    FindIndex(nodes, key);
    PayloadsOf(nodes, 0);
    if Find(nodes, key).Some? {
      var i :| 0 <= i < |nodes| && nodes[i].key == key && nodes[i] == Find(nodes, key).value;
      PayloadsOf(nodes, i);
      assert WellFormedNode(nodes[i]);
    }
  }

  /** Main theorem: a dotted path read from the printed text finds what it finds in the
      tree. */
  lemma {:induction false} PrintedPathsResolve(nodes: seq<Node>, parts: seq<string>)
    requires WellFormed(nodes) && parts != []
    ensures EntryAt(Print(nodes), parts) == Resolve(nodes, parts)
    decreases |parts|
  {
    PrintedLookup(nodes, parts[0]);
    if Find(nodes, parts[0]).Some? && |parts| > 1 {
      match Find(nodes, parts[0]).value {
        case Leaf(_, payload) =>
          assert payload[0] != '{';
        case Dict(_, children) =>
          var block := Block(children);
          assert block[0] == '{' && block[|block| - 1] == '}' && block[1..|block| - 1] == "\n" + Print(children);
          PathAfterBreak(Print(children), parts[1..]);
          PrintedPathsResolve(children, parts[1..]);
      }
    }
  }

  /** Keys joined with dots. */
  function JoinDots(parts: seq<string>): string
    requires parts != []
  {
    if |parts| == 1 then parts[0] else parts[0] + "." + JoinDots(parts[1..])
  }

  predicate DotFree(parts: seq<string>) {
    forall i :: 0 <= i < |parts| ==> '.' !in parts[i]
  }

  lemma {:induction false} SplitFirst(key: string, rest: string)
    requires '.' !in key
    ensures SplitDots(key) == [key] && SplitDots(key + "." + rest) == [key] + SplitDots(rest)
  {
    if key == "" {
      assert "" + "." + rest == "." + rest && ("." + rest)[1..] == rest;
    } else {
      SplitFirst(key[1..], rest);
      assert (key + "." + rest)[1..] == key[1..] + "." + rest;
      assert [key[0]] + key[1..] == key;
    }
  }

  /** Splitting at dots undoes joining exactly when no key contains one. */
  lemma {:induction false} JoinedPathSplits(parts: seq<string>)
    requires parts != []
    ensures SplitDots(JoinDots(parts)) == parts <==> DotFree(parts)
  {
    SplitDotFree(JoinDots(parts));
    if DotFree(parts) {
      SplitJoined(parts);
    }
  }

  lemma {:induction false} SplitDotFree(s: string)
    ensures DotFree(SplitDots(s))
  {
    if s != "" {
      SplitDotFree(s[1..]);
    }
  }

  lemma {:induction false} SplitJoined(parts: seq<string>)
    requires parts != [] && DotFree(parts)
    ensures SplitDots(JoinDots(parts)) == parts
  {
    SplitFirst(parts[0], "");
    if |parts| > 1 {
      SplitFirst(parts[0], JoinDots(parts[1..]));
      SplitJoined(parts[1..]);
    }
  }

  /** Main theorem: an entry path of keys without dots, read from the printed text, finds what
      those keys find in the tree. */
  lemma PrintedEntryResolves(nodes: seq<Node>, parts: seq<string>)
    requires WellFormed(nodes) && parts != [] && DotFree(parts)
    ensures LiteralEntryPayload(Print(nodes), JoinDots(parts)) == Resolve(nodes, parts)
  {
    JoinedPathSplits(parts);
    PrintedPathsResolve(nodes, parts);
  }
}
