/** When removing positional tuples loses a document: for tuples of plain entries under a property
    of an object schema, the exact condition over every judge of keywords. */
module TupleLosses {
  import opened TransportSchema

  // ----- Plain tuples -----

  /** An entry without nested schemas: the schema true, or keywords that are judged alone. */
  predicate Plain(e: Json) {
    e == Bool(true) || (e.Obj? && e.fields.Keys !! STRUCTURAL && forall k :: k in e.fields ==> Inert(e.fields[k]))
  }

  /** A tuple of plain entries without a schema for further elements. */
  predicate PlainTuple(t: Json) {
    && t.Obj? && "prefixItems" in t.fields && t.fields["prefixItems"].Arr?
    && (forall e :: e in Items(t.fields, "prefixItems") ==> Plain(e))
    && t.fields.Keys * STRUCTURAL <= {"prefixItems", "maxItems"}
    && forall k :: k in t.fields && k != "prefixItems" ==> Inert(t.fields[k])
  }

  function Entries(t: Json): seq<Json>
    requires t.Obj?
  {
    Items(t.fields, "prefixItems")
  }

  /** The entries that stay after dropping those that compare equal to an earlier one. */
  function Kept(t: Json): seq<Json>
    requires t.Obj?
  {
    Firsts(Entries(t), Entries(t))
  }

  predicate HasKeyword(e: Json, key: string, value: Json) {
    e.Obj? && key in e.fields && e.fields[key] == value
  }

  /** Everything the first entry demands, the second demands too. */
  predicate Implied(e: Json, f: Json) {
    e == Bool(true) || (e.Obj? && forall k :: k in e.fields ==> HasKeyword(f, k, e.fields[k]))
  }

  predicate AcceptsAll(e: Json) {
    e == Bool(true) || e == Obj(map[])
  }

  /** An accepted array can have an element at this position. */
  predicate Reachable(t: Json, i: nat)
    requires t.Obj?
  {
    "maxItems" in t.fields && t.fields["maxItems"].Num? ==> (i + 1) as real <= t.fields["maxItems"].n
  }

  /** The position can be reached, and all kept entries demand something its entry does not. */
  predicate LosesAt(t: Json, i: nat)
    requires t.Obj?
  {
    i < |Entries(t)| && Reachable(t, i) && forall e :: e in Kept(t) ==> !Implied(e, Entries(t)[i])
  }

  /** Each position that can be reached is judged by an entry that implies a kept one, and if
      elements after the tuple can be reached, some kept entry accepts everything. */
  predicate Lossless(t: Json)
    requires t.Obj?
  {
    Entries(t) == [] ||
    ((forall i :: 0 <= i < |Entries(t)| ==> !LosesAt(t, i)) &&
     (Reachable(t, |Entries(t)|) ==> exists e :: e in Kept(t) && AcceptsAll(e)))
  }

  /** An object schema with one property. */
  function InObject(name: string, t: Json): Json {
    Obj(map["type" := Str("object"), "properties" := Obj(map[name := t])])
  }

  /** What the program demands of a schema's root. */
  predicate ObjectRoot(s: Json) {
    s.Obj? && "anyOf" !in s.fields && "type" in s.fields && s.fields["type"] == Str("object")
  }

  // ----- What the schemas accept -----

  predicate PlainTakes(leaf: LeafJudge, e: Json, doc: Json) {
    e == Bool(true) || (e.Obj? && forall k :: k in e.fields ==> leaf(k, e.fields[k], doc))
  }

  predicate KeywordsTake(leaf: LeafJudge, t: Json, doc: Json)
    requires t.Obj?
  {
    forall k :: k in t.fields && k !in STRUCTURAL ==> leaf(k, t.fields[k], doc)
  }

  predicate LengthTakes(t: Json, doc: Json)
    requires t.Obj?
  {
    doc.Arr? && "maxItems" in t.fields && t.fields["maxItems"].Num? ==> |doc.items| as real <= t.fields["maxItems"].n
  }

  /** What a plain tuple accepts. */
  predicate TupleTakes(leaf: LeafJudge, t: Json, doc: Json)
    requires t.Obj?
  {
    KeywordsTake(leaf, t, doc) && LengthTakes(t, doc) &&
    (doc.Arr? ==>
       forall i :: 0 <= i < |doc.items| && i < |Entries(t)| ==> PlainTakes(leaf, Entries(t)[i], doc.items[i]))
  }

  predicate KeptTakes(leaf: LeafJudge, t: Json, element: Json)
    requires t.Obj?
  {
    Entries(t) == [] || exists e :: e in Kept(t) && PlainTakes(leaf, e, element)
  }

  /** What its rewrite accepts. */
  predicate RewriteTakes(leaf: LeafJudge, t: Json, doc: Json)
    requires t.Obj?
  {
    KeywordsTake(leaf, t, doc) && LengthTakes(t, doc) &&
    (doc.Arr? ==> forall i :: 0 <= i < |doc.items| ==> KeptTakes(leaf, t, doc.items[i]))
  }

  lemma PlainWithin(leaf: LeafJudge, root: Json, e: Json, doc: Json, n: nat)
    requires Plain(e) && n > 0
    ensures Within(leaf, root, e, doc, n) <==> PlainTakes(leaf, e, doc)
  {
    if e.Obj? {
      PlainAnywhere(leaf, root, e.fields, doc, n);
    }
  }

  /** Keywords with nested schemas that are absent accept everything. */
  lemma PlainAnywhere(leaf: LeafJudge, root: Json, fields: map<string, Json>, doc: Json, n: nat)
    requires n > 0
    ensures "required" !in fields && "properties" !in fields && "additionalProperties" !in fields ==>
      ObjectWithin(leaf, root, fields, doc, n)
    ensures "prefixItems" !in fields && "items" !in fields && "maxItems" !in fields ==>
      ArrayWithin(leaf, root, fields, doc, n)
    ensures "anyOf" !in fields ==> AnyWithin(leaf, root, fields, doc, n)
    ensures "$ref" !in fields ==> ReferenceWithin(leaf, root, fields, doc, n)
  {
    if doc.Obj? && "required" !in fields && "properties" !in fields && "additionalProperties" !in fields {
      assert Items(fields, "required") == [] && Members(fields, "properties") == map[];
      forall k | k in doc.fields ensures MemberWithin(leaf, root, fields, k, doc.fields[k], n) {}
    }
    if doc.Arr? && "prefixItems" !in fields && "items" !in fields && "maxItems" !in fields {
      forall i: nat | i < |doc.items| ensures ElementWithin(leaf, root, fields, i, doc.items[i], n) {}
    }
  }

  lemma TupleWithin(leaf: LeafJudge, root: Json, t: Json, doc: Json, n: nat)
    requires PlainTuple(t) && n > 1
    ensures Within(leaf, root, t, doc, n) <==> TupleTakes(leaf, t, doc)
  {
    NoOthers(t.fields, {"prefixItems", "maxItems"});
    PlainAnywhere(leaf, root, t.fields, doc, n);
    forall i: nat | doc.Arr? && i < |doc.items|
      ensures ElementWithin(leaf, root, t.fields, i, doc.items[i], n) <==>
              (i < |Entries(t)| ==> PlainTakes(leaf, Entries(t)[i], doc.items[i]))
    {
      if i < |Entries(t)| {
        assert Entries(t)[i] in Entries(t);
        PlainWithin(leaf, root, Entries(t)[i], doc.items[i], n - 1);
      }
    }
  }

  lemma NoOthers(fields: map<string, Json>, allowed: set<string>)
    requires fields.Keys * STRUCTURAL <= allowed
    ensures forall k :: k in STRUCTURAL && k in fields ==> k in allowed
  {
    forall k | k in STRUCTURAL && k in fields ensures k in allowed {
      assert k in fields.Keys * STRUCTURAL;
    }
  }

  lemma KeptPlain(t: Json)
    requires PlainTuple(t)
    ensures forall e :: e in Kept(t) ==> e in Entries(t) && Plain(e)
    ensures Kept(t) == [] <==> Entries(t) == []
  {
    FirstsIn(Entries(t));
    if Entries(t) != [] {
      var j := FirstsCover(Entries(t), Entries(t), 0);
    }
  }

  lemma {:induction false} FirstsIn(raw: seq<Json>)
    ensures forall e :: e in Firsts(raw, raw) ==> e in raw
  {
    if raw != [] {
      var n := |raw| - 1;
      FirstsIn(raw[..n]);
    }
  }

  lemma SupersetWithin(leaf: LeafJudge, root: Json, t: Json, element: Json, n: nat)
    requires PlainTuple(t) && n > 1
    ensures Within(leaf, root, Superset(Entries(t), Entries(t)), element, n) <==> KeptTakes(leaf, t, element)
  {
    var kept := Kept(t);
    KeptPlain(t);
    if kept == [] {
      PlainWithin(leaf, root, Obj(map[]), element, n);
    } else if |kept| == 1 {
      PlainWithin(leaf, root, kept[0], element, n);
      assert forall e :: e in kept ==> e == kept[0];
    } else {
      AnyOfWithin(leaf, root, kept, element, n);
      forall e | e in kept ensures Within(leaf, root, e, element, n - 1) <==> PlainTakes(leaf, e, element) {
        PlainWithin(leaf, root, e, element, n - 1);
      }
    }
  }

  lemma AnyOfWithin(leaf: LeafJudge, root: Json, options: seq<Json>, doc: Json, n: nat)
    requires n > 0
    ensures Within(leaf, root, AnyOf(options), doc, n) <==>
            exists e :: e in options && Within(leaf, root, e, doc, n - 1)
  {
    var fields := AnyOf(options).fields;
    assert Items(fields, "anyOf") == options;
    PlainAnywhere(leaf, root, fields, doc, n);
    if e :| e in options && Within(leaf, root, e, doc, n - 1) {
      assert AnyWithin(leaf, root, fields, doc, n);
    }
  }

  lemma PlainFixed(e: Json)
    requires Plain(e)
    ensures Normalize(e) == e
  {
    if e.Obj? {
      forall k | k in e.fields ensures Normalize(e.fields[k]) == e.fields[k] {
        InertFixed(e.fields[k]);
      }
      assert "prefixItems" !in e.fields by {
        assert "prefixItems" in STRUCTURAL;
      }
      assert EachField(e) == e.fields;
    }
  }

  lemma RewrittenTuple(t: Json)
    requires PlainTuple(t)
    ensures Normalize(t) == Obj((t.fields - {"prefixItems"})["items" := Superset(Entries(t), Entries(t))])
  {
    var raw := Entries(t);
    NoOthers(t.fields, {"prefixItems", "maxItems"});
    forall i | 0 <= i < |raw| ensures Normalize(raw[i]) == raw[i] {
      assert raw[i] in raw;
      PlainFixed(raw[i]);
    }
    assert Each(raw) == raw;
    forall k | k in t.fields && k != "prefixItems" ensures Normalize(t.fields[k]) == t.fields[k] {
      InertFixed(t.fields[k]);
    }
    assert EachField(t) - {"prefixItems"} == t.fields - {"prefixItems"};
  }

  /** The keywords of a rewritten tuple: items in the place of the tuple. */
  lemma RewrittenFields(t: Json)
    requires PlainTuple(t)
    ensures Normalize(t).Obj? && Normalize(t).fields.Keys * STRUCTURAL <= {"items", "maxItems"}
    ensures "items" in Normalize(t).fields && Normalize(t).fields["items"] == Superset(Entries(t), Entries(t))
    ensures forall k :: k != "items" && k != "prefixItems" ==> Get(Normalize(t).fields, k) == Get(t.fields, k)
  {
    RewrittenTuple(t);
    NoOthers(t.fields, {"prefixItems", "maxItems"});
  }

  lemma RewrittenElements(leaf: LeafJudge, root: Json, t: Json, doc: Json, n: nat)
    requires PlainTuple(t) && n > 2 && Normalize(t).Obj?
    ensures ArrayWithin(leaf, root, Normalize(t).fields, doc, n) <==>
      LengthTakes(t, doc) && (doc.Arr? ==> forall i :: 0 <= i < |doc.items| ==> KeptTakes(leaf, t, doc.items[i]))
  {
    RewrittenFields(t);
    var fields := Normalize(t).fields;
    NoOthers(fields, {"items", "maxItems"});
    assert Items(fields, "prefixItems") == [] && Get(fields, "maxItems") == Get(t.fields, "maxItems");
    forall i: nat | doc.Arr? && i < |doc.items|
      ensures ElementWithin(leaf, root, fields, i, doc.items[i], n) <==> KeptTakes(leaf, t, doc.items[i])
    {
      SupersetWithin(leaf, root, t, doc.items[i], n - 1);
    }
  }

  lemma RewrittenKeywords(leaf: LeafJudge, t: Json, doc: Json)
    requires PlainTuple(t) && Normalize(t).Obj?
    ensures KeywordsTake(leaf, Normalize(t), doc) <==> KeywordsTake(leaf, t, doc)
  {
    RewrittenFields(t);
    var fields := Normalize(t).fields;
    forall k | k !in STRUCTURAL ensures Get(fields, k) == Get(t.fields, k) {
      assert k != "items" && k != "prefixItems";
    }
    forall k | KeywordsTake(leaf, t, doc) && k in fields && k !in STRUCTURAL ensures leaf(k, fields[k], doc) {
      assert Get(fields, k) == Get(t.fields, k);
    }
    forall k | KeywordsTake(leaf, Normalize(t), doc) && k in t.fields && k !in STRUCTURAL
      ensures leaf(k, t.fields[k], doc)
    {
      assert Get(fields, k) == Get(t.fields, k);
    }
  }

  lemma RewriteWithin(leaf: LeafJudge, root: Json, t: Json, doc: Json, n: nat)
    requires PlainTuple(t) && n > 2
    ensures Within(leaf, root, Normalize(t), doc, n) <==> RewriteTakes(leaf, t, doc)
  {
    RewrittenFields(t);
    NoOthers(Normalize(t).fields, {"items", "maxItems"});
    PlainAnywhere(leaf, root, Normalize(t).fields, doc, n);
    RewrittenElements(leaf, root, t, doc, n);
    RewrittenKeywords(leaf, t, doc);
  }

  // ----- Under an object root -----

  lemma InObjectWithin(leaf: LeafJudge, root: Json, name: string, t: Json, doc: Json, n: nat)
    requires n > 0
    ensures Within(leaf, root, InObject(name, t), doc, n) <==>
      leaf("type", Str("object"), doc) &&
      (doc.Obj? && name in doc.fields ==> Within(leaf, root, t, doc.fields[name], n - 1))
  {
    var fields := InObject(name, t).fields;
    assert Members(fields, "properties") == map[name := t] && Items(fields, "required") == [];
    PlainAnywhere(leaf, root, fields, doc, n);
    forall k | doc.Obj? && k in doc.fields
      ensures MemberWithin(leaf, root, fields, k, doc.fields[k], n) <==>
              (k == name ==> Within(leaf, root, t, doc.fields[k], n - 1))
    {
    }
    assert fields["type"] == Str("object");
  }

  lemma NormalizedInObject(name: string, t: Json)
    requires name != "prefixItems"
    ensures Normalize(InObject(name, t)) == InObject(name, Normalize(t))
  {
    var properties := Obj(map[name := t]);
    assert EachField(properties) == map[name := Normalize(t)];
    assert Normalize(properties) == Obj(map[name := Normalize(t)]);
    assert EachField(InObject(name, t)) == InObject(name, Normalize(t)).fields;
  }

  predicate ObjectTakes(leaf: LeafJudge, name: string, t: Json, doc: Json)
    requires t.Obj?
  {
    leaf("type", Str("object"), doc) && (doc.Obj? && name in doc.fields ==> TupleTakes(leaf, t, doc.fields[name]))
  }

  predicate ObjectRewriteTakes(leaf: LeafJudge, name: string, t: Json, doc: Json)
    requires t.Obj?
  {
    leaf("type", Str("object"), doc) && (doc.Obj? && name in doc.fields ==> RewriteTakes(leaf, t, doc.fields[name]))
  }

  lemma ObjectAtDepth(leaf: LeafJudge, name: string, t: Json, doc: Json, n: nat)
    requires PlainTuple(t) && n > 3
    ensures var s := InObject(name, t); Within(leaf, s, s, doc, n) <==> ObjectTakes(leaf, name, t, doc)
    ensures var s := InObject(name, Normalize(t)); Within(leaf, s, s, doc, n) <==>
      ObjectRewriteTakes(leaf, name, t, doc)
  {
    var s, s' := InObject(name, t), InObject(name, Normalize(t));
    InObjectWithin(leaf, s, name, t, doc, n);
    InObjectWithin(leaf, s', name, Normalize(t), doc, n);
    if doc.Obj? && name in doc.fields {
      TupleWithin(leaf, s, t, doc.fields[name], n - 1);
      RewriteWithin(leaf, s', t, doc.fields[name], n - 1);
    }
  }

  /** The object schema accepts exactly by its type and the tuple under its property. */
  lemma ObjectAccepts(leaf: LeafJudge, name: string, t: Json, doc: Json)
    requires PlainTuple(t) && name != "prefixItems"
    ensures Accepts(leaf, InObject(name, t), doc) <==> ObjectTakes(leaf, name, t, doc)
    ensures Accepts(leaf, Normalize(InObject(name, t)), doc) <==> ObjectRewriteTakes(leaf, name, t, doc)
  {
    var s, s' := InObject(name, t), InObject(name, Normalize(t));
    NormalizedInObject(name, t);
    ObjectAtDepth(leaf, name, t, doc, 4);
    if n: nat :| Within(leaf, s, s, doc, n) {
      MoreDepth(leaf, s, s, doc, n, n + 4);
      ObjectAtDepth(leaf, name, t, doc, n + 4);
    }
    if n: nat :| Within(leaf, s', s', doc, n) {
      MoreDepth(leaf, s', s', doc, n, n + 4);
      ObjectAtDepth(leaf, name, t, doc, n + 4);
    }
  }

  // ----- The exact condition -----

  /** No judge of keywords and no document tell the schema from its rewrite by losing it. */
  ghost predicate NeverLoses(schema: Json) {
    forall leaf: LeafJudge, doc: Json :: Accepts(leaf, schema, doc) ==> Accepts(leaf, Normalize(schema), doc)
  }

  lemma ImpliedTakes(leaf: LeafJudge, e: Json, f: Json, doc: Json)
    requires Implied(e, f) && PlainTakes(leaf, f, doc)
    ensures PlainTakes(leaf, e, doc)
  {
    if e.Obj? {
      forall k | k in e.fields ensures leaf(k, e.fields[k], doc) {
        assert HasKeyword(f, k, e.fields[k]);
      }
    }
  }

  lemma LosslessTakes(leaf: LeafJudge, t: Json, doc: Json)
    requires PlainTuple(t) && Lossless(t) && TupleTakes(leaf, t, doc)
    ensures RewriteTakes(leaf, t, doc)
  {
    forall i: nat | doc.Arr? && i < |doc.items| && Entries(t) != [] ensures KeptTakes(leaf, t, doc.items[i]) {
      if i < |Entries(t)| {
        assert Reachable(t, i) && !LosesAt(t, i);
        var e :| e in Kept(t) && Implied(e, Entries(t)[i]);
        ImpliedTakes(leaf, e, Entries(t)[i], doc.items[i]);
      } else {
        assert Reachable(t, |Entries(t)|);
      }
    }
  }

  /** An array whose last element is null and whose others are empty text. */
  function NullAt(i: nat): Json {
    Arr(seq(i, _ => Str("")) + [Null])
  }

  /** Judges null by the keywords of one entry only, and takes everything else. */
  predicate Judges(e: Json, key: string, value: Json, doc: Json) {
    doc.Null? ==> HasKeyword(e, key, value)
  }

  function JudgeBy(e: Json): LeafJudge {
    (key: string, value: Json, doc: Json) => Judges(e, key, value, doc)
  }

  lemma NullAtItems(i: nat)
    ensures NullAt(i).Arr? && |NullAt(i).items| == i + 1 && NullAt(i).items[i] == Null
    ensures forall j :: 0 <= j < i ==> NullAt(i).items[j] == Str("")
  {}

  lemma TextTaken(e: Json, f: Json)
    requires Plain(f)
    ensures PlainTakes(JudgeBy(e), f, Str("")) && PlainTakes(JudgeBy(f), f, Null)
  {}

  /** A reachable position whose entry implies no kept one loses a document. */
  lemma DroppedEntryLoses(t: Json, i: nat)
    requires PlainTuple(t) && LosesAt(t, i)
    ensures TupleTakes(JudgeBy(Entries(t)[i]), t, NullAt(i)) && !RewriteTakes(JudgeBy(Entries(t)[i]), t, NullAt(i))
  {
    var leaf, doc := JudgeBy(Entries(t)[i]), NullAt(i);
    KeptPlain(t);
    NullAtItems(i);
    forall j | 0 <= j <= i ensures PlainTakes(leaf, Entries(t)[j], doc.items[j]) {
      assert Entries(t)[j] in Entries(t);
      TextTaken(Entries(t)[i], Entries(t)[j]);
    }
    forall e | e in Kept(t) ensures !PlainTakes(leaf, e, Null) {
      var k :| k in e.fields && !HasKeyword(Entries(t)[i], k, e.fields[k]);
      assert !leaf(k, e.fields[k], Null);
    }
    assert !KeptTakes(leaf, t, doc.items[i]);
  }

  /** Elements after the tuple were free: without an entry that accepts everything, a reachable
      one is lost. */
  lemma FreeElementLoses(t: Json)
    requires PlainTuple(t) && Entries(t) != [] && Reachable(t, |Entries(t)|)
    requires forall e :: e in Kept(t) ==> !AcceptsAll(e)
    ensures var n := |Entries(t)|;
      TupleTakes(JudgeBy(Bool(true)), t, NullAt(n)) && !RewriteTakes(JudgeBy(Bool(true)), t, NullAt(n))
  {
    var leaf, doc := JudgeBy(Bool(true)), NullAt(|Entries(t)|);
    KeptPlain(t);
    NullAtItems(|Entries(t)|);
    forall j | 0 <= j < |Entries(t)| ensures PlainTakes(leaf, Entries(t)[j], doc.items[j]) {
      assert Entries(t)[j] in Entries(t);
      TextTaken(Bool(true), Entries(t)[j]);
    }
    forall e | e in Kept(t) ensures !PlainTakes(leaf, e, Null) {
      assert e.fields != map[];
      var k :| k in e.fields;
      assert !HasKeyword(Bool(true), k, e.fields[k]);
      assert !leaf(k, e.fields[k], Null);
    }
    assert !KeptTakes(leaf, t, doc.items[|Entries(t)|]);
  }

  /** Main theorem: for a plain tuple under a property of an object schema, the rewrite loses no
      document for any judge of keywords exactly when the tuple is lossless. */
  lemma LosslessExact(name: string, t: Json)
    requires PlainTuple(t) && name != "prefixItems"
    ensures NeverLoses(InObject(name, t)) <==> Lossless(t)
  {
    if Lossless(t) {
      forall leaf: LeafJudge, doc: Json | Accepts(leaf, InObject(name, t), doc)
        ensures Accepts(leaf, Normalize(InObject(name, t)), doc)
      {
        ObjectAccepts(leaf, name, t, doc);
        if doc.Obj? && name in doc.fields {
          LosslessTakes(leaf, t, doc.fields[name]);
        }
      }
    } else if exists i: nat :: LosesAt(t, i) {
      var i: nat :| LosesAt(t, i);
      DroppedEntryLoses(t, i);
      LostUnder(JudgeBy(Entries(t)[i]), name, t, NullAt(i));
    } else {
      FreeElementLoses(t);
      LostUnder(JudgeBy(Bool(true)), name, t, NullAt(|Entries(t)|));
    }
  }

  lemma LostUnder(leaf: LeafJudge, name: string, t: Json, element: Json)
    requires PlainTuple(t) && name != "prefixItems"
    requires TupleTakes(leaf, t, element) && !RewriteTakes(leaf, t, element)
    requires leaf("type", Str("object"), Obj(map[name := element]))
    ensures Accepts(leaf, InObject(name, t), Obj(map[name := element]))
    ensures !Accepts(leaf, Normalize(InObject(name, t)), Obj(map[name := element]))
    ensures !NeverLoses(InObject(name, t))
  {
    ObjectAccepts(leaf, name, t, Obj(map[name := element]));
  }

  // ----- Two schemas that lose a document -----

  /** When one entry is kept that rejects the second element, an accepted pair is lost. */
  lemma PairLost(leaf: LeafJudge, name: string, t: Json, kept: Json, a: Json, b: Json)
    requires PlainTuple(t) && name != "prefixItems" && Entries(t) != [] && Kept(t) == [kept]
    requires TupleTakes(leaf, t, Arr([a, b])) && !PlainTakes(leaf, kept, b)
    requires leaf("type", Str("object"), Obj(map[name := Arr([a, b])]))
    ensures Accepts(leaf, InObject(name, t), Obj(map[name := Arr([a, b])]))
    ensures !Accepts(leaf, Normalize(InObject(name, t)), Obj(map[name := Arr([a, b])]))
  {
    var element := Arr([a, b]);
    assert element.items[1] == b && !KeptTakes(leaf, t, element.items[1]);
    LostUnder(leaf, name, t, element);
  }

  lemma FirstsOfOne(a: Json)
    ensures Firsts([a], [a]) == [a]
  {
    assert [a][..0] == [] && Firsts([], []) == [];
  }

  lemma FirstsOfPair(a: Json, b: Json)
    requires Alike(a, b)
    ensures Firsts([a, b], [a, b]) == [a]
  {
    FirstsOfOne(a);
    assert [a, b][..1] == [a] && a in [a, b][..1];
  }

  predicate TypeJudge(key: string, value: Json, doc: Json) {
    (key == "type" && value == Str("string") ==> doc.Str?) && (key == "type" && value == Str("object") ==> doc.Obj?)
  }

  const TEXT := Obj(map["type" := Str("string")])

  /** A tuple of one text that does not bound its length. */
  const UNBOUNDED_TEXT := Obj(map["prefixItems" := Arr([TEXT])])

  lemma UnboundedTextKept()
    ensures PlainTuple(UNBOUNDED_TEXT) && Entries(UNBOUNDED_TEXT) == [TEXT] == Kept(UNBOUNDED_TEXT)
  {
    FirstsOfOne(TEXT);
  }

  lemma UnboundedTextTakes()
    ensures TupleTakes(TypeJudge, UNBOUNDED_TEXT, Arr([Str(""), Null])) && !PlainTakes(TypeJudge, TEXT, Null)
  {
    assert Entries(UNBOUNDED_TEXT) == [TEXT];
    assert !TypeJudge("type", TEXT.fields["type"], Null);
  }

  lemma UnboundedTupleNarrows()
    ensures var schema, doc := InObject("x", UNBOUNDED_TEXT), Obj(map["x" := Arr([Str(""), Null])]);
      ObjectRoot(schema) && Accepts(TypeJudge, schema, doc) && !Accepts(TypeJudge, Normalize(schema), doc)
  {
    UnboundedTextKept();
    UnboundedTextTakes();
    PairLost(TypeJudge, "x", UNBOUNDED_TEXT, TEXT, Str(""), Null);
  }

  predicate ConstantJudge(key: string, value: Json, doc: Json) {
    key == "const" ==> doc == value
  }

  const ONE := Obj(map["const" := Num(1.0)])
  const YES := Obj(map["const" := Bool(true)])

  /** A tuple of the constants 1 and true. */
  const ONE_AND_TRUE := Obj(map["prefixItems" := Arr([ONE, YES]), "maxItems" := Num(2.0)])

  lemma OneIsTrue()
    ensures Alike(ONE, YES)
  {
    assert Blurred(ONE).fields == map["const" := Num(1.0)] && Blurred(YES).fields == map["const" := Num(1.0)];
  }

  lemma OneAndTrueKept()
    ensures PlainTuple(ONE_AND_TRUE) && Entries(ONE_AND_TRUE) == [ONE, YES] && Kept(ONE_AND_TRUE) == [ONE]
  {
    OneIsTrue();
    FirstsOfPair(ONE, YES);
  }

  lemma OneAndTrueTakes()
    ensures TupleTakes(ConstantJudge, ONE_AND_TRUE, Arr([Num(1.0), Bool(true)]))
    ensures !PlainTakes(ConstantJudge, ONE, Bool(true))
  {
    assert Entries(ONE_AND_TRUE) == [ONE, YES];
    assert !ConstantJudge("const", ONE.fields["const"], Bool(true));
  }

  /** That tuple loses its only pair: the two entries compare equal and the second is dropped. */
  lemma BlurredConstantsNarrow()
    ensures var schema, doc := InObject("x", ONE_AND_TRUE), Obj(map["x" := Arr([Num(1.0), Bool(true)])]);
      ObjectRoot(schema) && Accepts(ConstantJudge, schema, doc) && !Accepts(ConstantJudge, Normalize(schema), doc)
  {
    OneAndTrueKept();
    OneAndTrueTakes();
    PairLost(ConstantJudge, "x", ONE_AND_TRUE, ONE, Num(1.0), Bool(true));
  }
}
