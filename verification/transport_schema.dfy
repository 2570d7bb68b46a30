/** Rewrites of JSON schemas for model transports, on the raw JSON they walk, with the part of
    the meaning of a schema (JSON Schema 2020-12) that they touch.

    Removing positional tuples must not reject a document the canonical schema accepts; the
    strict pass must not accept one the schema rejects. */
module TransportSchema {
  import opened Wrappers

  datatype Json =
    | Null
    | Bool(b: bool)
    | Num(n: real)
    | Str(s: string)
    | Arr(items: seq<Json>)
    | Obj(fields: map<string, Json>)

  function Get(fields: map<string, Json>, key: string): Option<Json> {
    if key in fields then Some(fields[key]) else None
  }

  /** Values compare as the program compares them: true is 1 and false is 0. */
  function Blurred(v: Json): Json {
    match v
    case Bool(b) => Num(if b then 1.0 else 0.0)
    case Arr(items) => Arr(seq(|items|, i requires 0 <= i < |items| => Blurred(items[i])))
    case Obj(fields) => Obj(map k | k in fields :: Blurred(fields[k]))
    case _ => v
  }

  predicate Alike(a: Json, b: Json) {
    Blurred(a) == Blurred(b)
  }

  // ----- What a schema accepts -----

  const STRUCTURAL := {"properties", "required", "additionalProperties", "items", "prefixItems", "maxItems", "anyOf",
                       "$ref", "$defs", "default"}

  /** Judges a document by one keyword that neither rewrite touches, such as type or enum. */
  type LeafJudge = (string, Json, Json) -> bool

  function Items(fields: map<string, Json>, key: string): seq<Json> {
    match Get(fields, key)
    case Some(Arr(items)) => items
    case _ => []
  }

  function Members(fields: map<string, Json>, key: string): map<string, Json> {
    match Get(fields, key)
    case Some(Obj(members)) => members
    case _ => map[]
  }

  /** The definition a reference of the form #/$defs/name stands for. */
  function Resolve(root: Json, reference: string): Option<Json> {
    if root.Obj? && "#/$defs/" <= reference then Get(Members(root.fields, "$defs"), reference[8..]) else None
  }

  /** Acceptance with at most n nested schemas.  References may be recursive, so a document is
      accepted when it is within some n. */
  ghost predicate Within(leaf: LeafJudge, root: Json, s: Json, doc: Json, n: nat)
    decreases n, 2
  {
    n > 0 &&
    match s
    case Bool(b) => b
    case Obj(fields) =>
      && (forall k :: k in fields && k !in STRUCTURAL ==> leaf(k, fields[k], doc))
      && ObjectWithin(leaf, root, fields, doc, n)
      && ArrayWithin(leaf, root, fields, doc, n)
      && AnyWithin(leaf, root, fields, doc, n)
      && ReferenceWithin(leaf, root, fields, doc, n)
    case _ => false
  }

  ghost predicate ObjectWithin(leaf: LeafJudge, root: Json, fields: map<string, Json>, doc: Json, n: nat)
    requires n > 0
    decreases n, 1
  {
    doc.Obj? ==>
      && (forall k :: k in doc.fields ==> MemberWithin(leaf, root, fields, k, doc.fields[k], n))
      && (forall r :: r in Items(fields, "required") ==> r.Str? && r.s in doc.fields)
  }

  /** A declared member is judged by its property, the others by additionalProperties. */
  ghost predicate MemberWithin(leaf: LeafJudge, root: Json, fields: map<string, Json>, key: string, value: Json, n: nat)
    requires n > 0
    decreases n, 0
  {
    var properties := Members(fields, "properties");
    if key in properties then Within(leaf, root, properties[key], value, n - 1)
    else "additionalProperties" in fields ==> Within(leaf, root, fields["additionalProperties"], value, n - 1)
  }

  ghost predicate ArrayWithin(leaf: LeafJudge, root: Json, fields: map<string, Json>, doc: Json, n: nat)
    requires n > 0
    decreases n, 1
  {
    doc.Arr? ==>
      && ("maxItems" in fields && fields["maxItems"].Num? ==> |doc.items| as real <= fields["maxItems"].n)
      && forall i :: 0 <= i < |doc.items| ==> ElementWithin(leaf, root, fields, i, doc.items[i], n)
  }

  /** A leading element is judged by its position, the others by the items schema. */
  ghost predicate ElementWithin(leaf: LeafJudge, root: Json, fields: map<string, Json>, i: nat, element: Json, n: nat)
    requires n > 0
    decreases n, 0
  {
    if i < |Items(fields, "prefixItems")| then Within(leaf, root, Items(fields, "prefixItems")[i], element, n - 1)
    else "items" in fields ==> Within(leaf, root, fields["items"], element, n - 1)
  }

  ghost predicate AnyWithin(leaf: LeafJudge, root: Json, fields: map<string, Json>, doc: Json, n: nat)
    requires n > 0
    decreases n, 1
  {
    "anyOf" in fields ==> exists t :: t in Items(fields, "anyOf") && Within(leaf, root, t, doc, n - 1)
  }

  ghost predicate ReferenceWithin(leaf: LeafJudge, root: Json, fields: map<string, Json>, doc: Json, n: nat)
    requires n > 0
    decreases n, 1
  {
    "$ref" in fields && fields["$ref"].Str? ==>
      var target := Resolve(root, fields["$ref"].s);
      target.Some? && Within(leaf, root, target.value, doc, n - 1)
  }

  ghost predicate Accepts(leaf: LeafJudge, schema: Json, doc: Json) {
    exists n: nat :: Within(leaf, schema, schema, doc, n)
  }

  lemma {:induction false} MoreDepth(leaf: LeafJudge, root: Json, s: Json, doc: Json, n: nat, m: nat)
    requires Within(leaf, root, s, doc, n) && n <= m
    ensures Within(leaf, root, s, doc, m)
    decreases n
  {
    var n', m' := n - 1, m - 1;
    forall t, d | Within(leaf, root, t, d, n') ensures Within(leaf, root, t, d, m') {
      MoreDepth(leaf, root, t, d, n', m');
    }
    if s.Obj? {
      forall i | doc.Arr? && 0 <= i < |doc.items| ensures ElementWithin(leaf, root, s.fields, i, doc.items[i], m) {
        assert ElementWithin(leaf, root, s.fields, i, doc.items[i], n);
      }
      forall k | doc.Obj? && k in doc.fields ensures MemberWithin(leaf, root, s.fields, k, doc.fields[k], m) {
        assert MemberWithin(leaf, root, s.fields, k, doc.fields[k], n);
      }
    }
  }

  // ----- Removing positional tuples -----

  /** The entries whose originals are the first of their kind. */
  function Firsts(raw: seq<Json>, done: seq<Json>): (r: seq<Json>)
    requires |raw| == |done|
  {
    if raw == [] then []
    else
      var n := |raw| - 1;
      Firsts(raw[..n], done[..n]) + (if exists e :: e in raw[..n] && Alike(e, raw[n]) then [] else [done[n]])
  }

  function AnyOf(options: seq<Json>): Json {
    Obj(map["anyOf" := Arr(options)])
  }

  /** One schema for every element of a tuple; `raw` are the originals, by which entries are
      compared, and `done` the entries to use. */
  function Superset(raw: seq<Json>, done: seq<Json>): Json
    requires |raw| == |done|
  {
    var unique := Firsts(raw, done);
    if |unique| == 0 then Obj(map[])
    else if |unique| == 1 then unique[0]
    else AnyOf(unique)
  }

  /** The items schema that takes a tuple's place. */
  function TupleItems(raw: seq<Json>, done: seq<Json>, rawItems: Option<Json>, items: Json): Json
    requires |raw| == |done|
  {
    match rawItems
    case Some(Obj(_)) =>
      AnyOf(if Alike(Superset(raw, raw), rawItems.value) then [Superset(raw, done)] else [Superset(raw, done), items])
    case Some(Arr(_)) => items
    case Some(Num(_)) => items
    case Some(Str(_)) => items
    case _ => Superset(raw, done)
  }

  function Each(items: seq<Json>): seq<Json>
    decreases items
  {
    seq(|items|, i requires 0 <= i < |items| => Normalize(items[i]))
  }

  function EachField(v: Json): map<string, Json>
    requires v.Obj?
    decreases v, 0
  {
    map k | k in v.fields :: Normalize(v.fields[k])
  }

  /** Rewrite every dictionary with positional tuples, everywhere. */
  function Normalize(v: Json): Json
    decreases v, 1
  {
    match v
    case Arr(items) => Arr(Each(items))
    case Obj(fields) =>
      var done := EachField(v);
      if "prefixItems" in fields && fields["prefixItems"].Arr? then
        var raw := fields["prefixItems"].items;
        var items := if "items" in done then done["items"] else Null;
        Obj((done - {"prefixItems"})["items" := TupleItems(raw, Each(raw), Get(fields, "items"), items)])
      else Obj(done - {"prefixItems"})
    case _ => v
  }

  // ----- The shape the generator emits -----

  predicate Inert(v: Json) {
    match v
    case Obj(_) => false
    case Arr(items) => forall i :: 0 <= i < |items| ==> Inert(items[i])
    case _ => true
  }

  /** Entries that compare alike are the same; with no schema for further items, there are no
      further items. */
  predicate TupleShaped(fields: map<string, Json>) {
    "prefixItems" in fields ==>
      && fields["prefixItems"].Arr?
      && (forall a, b :: a in Items(fields, "prefixItems") && b in Items(fields, "prefixItems") ==>
            Alike(a, b) ==> a == b)
      && ("items" !in fields || fields["items"] == Bool(true) ==> Items(fields, "prefixItems") == [] || Bounded(fields))
      && (var wide := Superset(Items(fields, "prefixItems"), Items(fields, "prefixItems"));
          "items" in fields && Alike(wide, fields["items"]) ==> wide == fields["items"])
  }

  /** A tuple has no elements after its positions. */
  predicate Bounded(fields: map<string, Json>) {
    "maxItems" in fields && fields["maxItems"].Num? && fields["maxItems"].n <= |Items(fields, "prefixItems")| as real
  }

  predicate Shaped(s: Json)
    decreases s, 1
  {
    match s
    case Bool(_) => true
    case Obj(fields) => TupleShaped(fields) && forall k :: k in fields ==> FieldShaped(s, k)
    case _ => false
  }

  predicate FieldShaped(s: Json, key: string)
    requires s.Obj? && key in s.fields
    decreases s, 0
  {
    var value := s.fields[key];
    if key in {"properties", "$defs"} then
      value.Obj? && "prefixItems" !in value.fields && forall k :: k in value.fields ==> Shaped(value.fields[k])
    else if key in {"items", "additionalProperties"} then Shaped(value)
    else if key in {"prefixItems", "anyOf"} then
      value.Arr? && forall i :: 0 <= i < |value.items| ==> Shaped(value.items[i])
    else key == "default" || Inert(value)
  }

  // ----- The rewrite accepts at least as much -----

  lemma {:induction false} InertFixed(v: Json)
    requires Inert(v)
    ensures Normalize(v) == v
  {
    if v.Arr? {
      forall i | 0 <= i < |v.items| ensures Normalize(v.items[i]) == v.items[i] {
        InertFixed(v.items[i]);
      }
    }
  }

  lemma NormalizedField(s: Json, key: string)
    requires s.Obj? && key != "prefixItems" && key != "items"
    ensures Normalize(s).Obj? && (key in Normalize(s).fields <==> key in s.fields)
    ensures key in s.fields ==> Normalize(s).fields[key] == Normalize(s.fields[key])
  {}

  /** Dictionaries of schemas are rewritten member by member. */
  lemma NormalizedMembers(s: Json, key: string)
    requires s.Obj? && Shaped(s) && key in {"properties", "$defs"}
    ensures Members(Normalize(s).fields, key) ==
      map k | k in Members(s.fields, key) :: Normalize(Members(s.fields, key)[k])
  {
    NormalizedField(s, key);
    if key in s.fields {
      assert FieldShaped(s, key);
    }
  }

  lemma NormalizedItems(s: Json, key: string)
    requires s.Obj? && key != "prefixItems" && key != "items"
    ensures Items(Normalize(s).fields, key) == Each(Items(s.fields, key))
  {
    NormalizedField(s, key);
  }

  /** Whatever a shaped schema accepts with depth n, its rewrite accepts with depth m. */
  ghost predicate Carries(leaf: LeafJudge, root: Json, n: nat, m: nat) {
    forall t, d :: Shaped(t) && Within(leaf, root, t, d, n) ==> Within(leaf, Normalize(root), Normalize(t), d, m)
  }

  lemma WidenObject(leaf: LeafJudge, root: Json, s: Json, doc: Json, n: nat, m: nat)
    requires s.Obj? && Shaped(s) && Carries(leaf, root, n, m)
    requires ObjectWithin(leaf, root, s.fields, doc, n + 1)
    ensures ObjectWithin(leaf, Normalize(root), Normalize(s).fields, doc, m + 1)
  {
    if doc.Obj? {
      NormalizedMembers(s, "properties");
      NormalizedField(s, "additionalProperties");
      forall k | k in doc.fields
        ensures MemberWithin(leaf, Normalize(root), Normalize(s).fields, k, doc.fields[k], m + 1)
      {
        assert MemberWithin(leaf, root, s.fields, k, doc.fields[k], n + 1);
        assert "properties" in s.fields ==> FieldShaped(s, "properties");
        assert "additionalProperties" in s.fields ==> FieldShaped(s, "additionalProperties");
      }
      NormalizedField(s, "required");
      if "required" in s.fields {
        assert FieldShaped(s, "required");
        InertFixed(s.fields["required"]);
      }
    }
  }

  lemma WidenAny(leaf: LeafJudge, root: Json, s: Json, doc: Json, n: nat, m: nat)
    requires s.Obj? && Shaped(s) && Carries(leaf, root, n, m)
    requires AnyWithin(leaf, root, s.fields, doc, n + 1)
    ensures AnyWithin(leaf, Normalize(root), Normalize(s).fields, doc, m + 1)
  {
    NormalizedItems(s, "anyOf");
    NormalizedField(s, "anyOf");
    if "anyOf" in s.fields {
      assert FieldShaped(s, "anyOf");
      var t :| t in Items(s.fields, "anyOf") && Within(leaf, root, t, doc, n);
      var i :| 0 <= i < |Items(s.fields, "anyOf")| && Items(s.fields, "anyOf")[i] == t;
      assert Shaped(t) && Items(Normalize(s).fields, "anyOf")[i] == Normalize(t);
      assert Within(leaf, Normalize(root), Normalize(t), doc, m);
      assert Normalize(t) in Items(Normalize(s).fields, "anyOf");
      var m' := m + 1;
      assert Within(leaf, Normalize(root), Normalize(t), doc, m' - 1);
    }
  }

  lemma WidenReference(leaf: LeafJudge, root: Json, s: Json, doc: Json, n: nat, m: nat)
    requires s.Obj? && Shaped(s) && Shaped(root) && Carries(leaf, root, n, m)
    requires ReferenceWithin(leaf, root, s.fields, doc, n + 1)
    ensures ReferenceWithin(leaf, Normalize(root), Normalize(s).fields, doc, m + 1)
  {
    NormalizedField(s, "$ref");
    if "$ref" in s.fields && s.fields["$ref"].Str? {
      NormalizedMembers(root, "$defs");
      assert FieldShaped(root, "$defs");
    }
  }

  lemma WidenLeaves(leaf: LeafJudge, s: Json, doc: Json)
    requires s.Obj? && Shaped(s)
    requires forall k :: k in s.fields && k !in STRUCTURAL ==> leaf(k, s.fields[k], doc)
    ensures forall k :: k in Normalize(s).fields && k !in STRUCTURAL ==> leaf(k, Normalize(s).fields[k], doc)
  {
    forall k | k in Normalize(s).fields && k !in STRUCTURAL ensures leaf(k, Normalize(s).fields[k], doc) {
      NormalizedField(s, k);
      assert FieldShaped(s, k);
      InertFixed(s.fields[k]);
    }
  }

  // ----- Tuples -----

  /** Every entry is alike to a first entry, in the originals and in the rewritten forms. */
  lemma {:induction false} FirstsCover(raw: seq<Json>, done: seq<Json>, i: nat) returns (j: nat)
    requires |raw| == |done| && i < |raw|
    ensures j < |raw| && Alike(raw[j], raw[i]) && done[j] in Firsts(raw, done)
  {
    var n := |raw| - 1;
    if i < n {
      j := FirstsCover(raw[..n], done[..n], i);
    } else if e :| e in raw[..n] && Alike(e, raw[n]) {
      var k :| 0 <= k < n && raw[k] == e;
      j := FirstsCover(raw[..n], done[..n], k);
    } else {
      j := n;
    }
  }

  lemma AnyOfAccepts(leaf: LeafJudge, root: Json, options: seq<Json>, t: Json, doc: Json, n: nat)
    requires t in options && Within(leaf, root, t, doc, n)
    ensures Within(leaf, root, AnyOf(options), doc, n + 1)
  {
    var fields := AnyOf(options).fields;
    assert Items(fields, "anyOf") == options;
    forall i | doc.Arr? && 0 <= i < |doc.items| ensures ElementWithin(leaf, root, fields, i, doc.items[i], n + 1) {}
    assert AnyWithin(leaf, root, fields, doc, n + 1);
  }

  /** The one schema for a tuple accepts what any of its positions accepts. */
  lemma SupersetAccepts(leaf: LeafJudge, root: Json, raw: seq<Json>, done: seq<Json>, i: nat, doc: Json, n: nat)
    requires |raw| == |done| && i < |raw| && Within(leaf, root, done[i], doc, n)
    requires forall j :: 0 <= j < |raw| && Alike(raw[j], raw[i]) ==> done[j] == done[i]
    ensures Within(leaf, root, Superset(raw, done), doc, n + 1)
  {
    var j := FirstsCover(raw, done, i);
    if |Firsts(raw, done)| == 1 {
      MoreDepth(leaf, root, done[i], doc, n, n + 1);
    } else {
      AnyOfAccepts(leaf, root, Firsts(raw, done), done[i], doc, n);
    }
  }

  lemma {:induction false} FirstsNormalized(raw: seq<Json>)
    ensures Each(Firsts(raw, raw)) == Firsts(raw, Each(raw))
  {
    if raw != [] {
      var n := |raw| - 1;
      FirstsNormalized(raw[..n]);
      assert Each(raw)[..n] == Each(raw[..n]);
    }
  }

  lemma SupersetNormalized(raw: seq<Json>)
    ensures Normalize(Superset(raw, raw)) == Superset(raw, Each(raw))
  {
    FirstsNormalized(raw);
    assert Normalize(Obj(map[])) == Obj(map[]);
    NormalizedAnyOf(Firsts(raw, raw));
  }

  lemma NormalizedAnyOf(options: seq<Json>)
    ensures Normalize(AnyOf(options)) == AnyOf(Each(options))
  {
    assert EachField(AnyOf(options)) == map["anyOf" := Arr(Each(options))];
  }

  /** What stands in a rewritten tuple's place. */
  function NewItems(s: Json): Json
    requires s.Obj?
  {
    var raw := Items(s.fields, "prefixItems");
    var items := if "items" in s.fields then Normalize(s.fields["items"]) else Null;
    TupleItems(raw, Each(raw), Get(s.fields, "items"), items)
  }

  lemma TupleRewritten(s: Json)
    requires s.Obj? && Shaped(s) && "prefixItems" in s.fields
    ensures "prefixItems" !in Normalize(s).fields
    ensures "items" in Normalize(s).fields && Normalize(s).fields["items"] == NewItems(s)
    ensures "items" in s.fields ==> s.fields["items"].Bool? || s.fields["items"].Obj?
  {
    assert FieldShaped(s, "prefixItems");
    assert "items" in s.fields ==> FieldShaped(s, "items");
  }

  lemma TupleItemsTakeWide(leaf: LeafJudge, root: Json, raw: seq<Json>, done: seq<Json>, rawItems: Option<Json>,
                           items: Json, element: Json, n: nat)
    requires |raw| == |done| && Within(leaf, root, Superset(raw, done), element, n)
    requires rawItems.Some? ==> rawItems.value.Bool? || rawItems.value.Obj?
    ensures Within(leaf, root, TupleItems(raw, done, rawItems, items), element, n + 1)
  {
    var wide := Superset(raw, done);
    if rawItems.Some? && rawItems.value.Obj? {
      var options := if Alike(Superset(raw, raw), rawItems.value) then [wide] else [wide, items];
      AnyOfAccepts(leaf, root, options, wide, element, n);
    } else {
      MoreDepth(leaf, root, wide, element, n, n + 1);
    }
  }

  lemma TupleItemsTakeItems(leaf: LeafJudge, root: Json, raw: seq<Json>, done: seq<Json>, rawItems: Json,
                            items: Json, element: Json, n: nat)
    requires |raw| == |done| && rawItems.Obj? && Within(leaf, root, items, element, n)
    requires Alike(Superset(raw, raw), rawItems) ==> items == Superset(raw, done)
    ensures Within(leaf, root, TupleItems(raw, done, Some(rawItems), items), element, n + 1)
  {
    var wide := Superset(raw, done);
    AnyOfAccepts(leaf, root, if Alike(Superset(raw, raw), rawItems) then [wide] else [wide, items], items, element, n);
  }

  /** A leading element stays accepted. */
  lemma WidenLeading(leaf: LeafJudge, root: Json, s: Json, i: nat, element: Json, n: nat, m: nat)
    requires s.Obj? && Shaped(s) && Carries(leaf, root, n, m)
    requires i < |Items(s.fields, "prefixItems")| && Within(leaf, root, Items(s.fields, "prefixItems")[i], element, n)
    ensures Within(leaf, Normalize(root), NewItems(s), element, m + 2)
  {
    var raw := Items(s.fields, "prefixItems");
    var done, root' := Each(raw), Normalize(root);
    assert FieldShaped(s, "prefixItems");
    assert done[i] == Normalize(raw[i]) && Within(leaf, root', done[i], element, m);
    forall j | 0 <= j < |raw| && Alike(raw[j], raw[i]) ensures done[j] == done[i] {
      assert raw[j] in raw && raw[i] in raw;
    }
    SupersetAccepts(leaf, root', raw, done, i, element, m);
    TupleRewritten(s);
    TupleItemsTakeWide(leaf, root', raw, done, Get(s.fields, "items"),
                       if "items" in s.fields then Normalize(s.fields["items"]) else Null, element, m + 1);
  }

  /** An element after a tuple stays accepted. */
  lemma WidenTrailing(leaf: LeafJudge, root: Json, s: Json, i: nat, element: Json, n: nat, m: nat)
    requires s.Obj? && Shaped(s) && Carries(leaf, root, n, m) && "prefixItems" in s.fields
    requires i >= |Items(s.fields, "prefixItems")|
    requires "items" in s.fields ==> Within(leaf, root, s.fields["items"], element, n)
    requires "maxItems" in s.fields && s.fields["maxItems"].Num? ==> i as real < s.fields["maxItems"].n
    ensures Within(leaf, Normalize(root), NewItems(s), element, m + 2)
  {
    var raw := Items(s.fields, "prefixItems");
    TupleRewritten(s);
    if "items" in s.fields && s.fields["items"].Obj? {
      assert FieldShaped(s, "items");
      var rest := Normalize(s.fields["items"]);
      SupersetNormalized(raw);
      TupleItemsTakeItems(leaf, Normalize(root), raw, Each(raw), s.fields["items"], rest, element, m);
      MoreDepth(leaf, Normalize(root), NewItems(s), element, m + 1, m + 2);
    }
  }

  lemma WidenArray(leaf: LeafJudge, root: Json, s: Json, doc: Json, n: nat, m: nat)
    requires s.Obj? && Shaped(s) && Carries(leaf, root, n, m)
    requires ArrayWithin(leaf, root, s.fields, doc, n + 1)
    ensures ArrayWithin(leaf, Normalize(root), Normalize(s).fields, doc, m + 3)
  {
    if doc.Arr? {
      NormalizedField(s, "maxItems");
      if "maxItems" in s.fields {
        assert FieldShaped(s, "maxItems");
        InertFixed(s.fields["maxItems"]);
      }
      forall i: nat | i < |doc.items|
        ensures ElementWithin(leaf, Normalize(root), Normalize(s).fields, i, doc.items[i], m + 3)
      {
        assert ElementWithin(leaf, root, s.fields, i, doc.items[i], n + 1);
        if i < |Items(s.fields, "prefixItems")| {
          WidenLeading(leaf, root, s, i, doc.items[i], n, m);
          TupleRewritten(s);
        } else if "prefixItems" in s.fields {
          WidenTrailing(leaf, root, s, i, doc.items[i], n, m);
          TupleRewritten(s);
        } else if "items" in s.fields {
          assert FieldShaped(s, "items");
          MoreDepth(leaf, Normalize(root), Normalize(s.fields["items"]), doc.items[i], m, m + 2);
        }
      }
    }
  }

  lemma WidenSchema(leaf: LeafJudge, root: Json, s: Json, doc: Json, n: nat, m: nat)
    requires Shaped(root) && Shaped(s) && Within(leaf, root, s, doc, n + 1)
    requires Carries(leaf, root, n, m) && Carries(leaf, root, n, m + 2)
    ensures Within(leaf, Normalize(root), Normalize(s), doc, m + 3)
  {
    if s.Obj? {
      WidenLeaves(leaf, s, doc);
      WidenObject(leaf, root, s, doc, n, m + 2);
      WidenArray(leaf, root, s, doc, n, m);
      WidenAny(leaf, root, s, doc, n, m + 2);
      WidenReference(leaf, root, s, doc, n, m + 2);
    }
  }

  lemma CarriesFurther(leaf: LeafJudge, root: Json, n: nat, m: nat, further: nat)
    requires Carries(leaf, root, n, m) && m <= further
    ensures Carries(leaf, root, n, further)
  {
    forall t, d | Shaped(t) && Within(leaf, root, t, d, n)
      ensures Within(leaf, Normalize(root), Normalize(t), d, further)
    {
      MoreDepth(leaf, Normalize(root), Normalize(t), d, m, further);
    }
  }

  lemma {:induction false} Widened(leaf: LeafJudge, root: Json, s: Json, doc: Json, n: nat)
    requires Shaped(root) && Shaped(s) && Within(leaf, root, s, doc, n)
    ensures Within(leaf, Normalize(root), Normalize(s), doc, 3 * n)
    decreases n
  {
    var n', m := n - 1, 3 * (n - 1);
    forall t, d | Shaped(t) && Within(leaf, root, t, d, n') ensures Within(leaf, Normalize(root), Normalize(t), d, m) {
      Widened(leaf, root, t, d, n');
    }
    CarriesFurther(leaf, root, n', m, m + 2);
    WidenSchema(leaf, root, s, doc, n', m);
  }

  /** Main theorem: the rewritten schema accepts every document the canonical one accepts. */
  lemma NormalizeWidens(leaf: LeafJudge, schema: Json, doc: Json)
    requires Shaped(schema)
    ensures Accepts(leaf, schema, doc) ==> Accepts(leaf, Normalize(schema), doc)
  {
    if n: nat :| Within(leaf, schema, schema, doc, n) {
      Widened(leaf, schema, schema, doc, n);
    }
  }

  // ----- Homogeneous tuples -----

  /** All positions have one schema and there is nothing after them. */
  predicate UniformTuple(fields: map<string, Json>) {
    "prefixItems" in fields ==>
      && Bounded(fields) && !("items" in fields && fields["items"].Obj?)
      && forall a, b :: a in Items(fields, "prefixItems") && b in Items(fields, "prefixItems") ==> a == b
  }

  /** Every tuple anywhere is uniform. */
  predicate Homogeneous(v: Json) {
    match v
    case Arr(items) => forall i :: 0 <= i < |items| ==> Homogeneous(items[i])
    case Obj(fields) => UniformTuple(fields) && forall k :: k in fields ==> Homogeneous(fields[k])
    case _ => true
  }

  /** Whatever the rewrite of a shaped, homogeneous schema accepts, the schema accepts. */
  ghost predicate Returns(leaf: LeafJudge, root: Json, n: nat) {
    forall t, d :: Shaped(t) && Homogeneous(t) && Within(leaf, Normalize(root), Normalize(t), d, n) ==>
      Within(leaf, root, t, d, n)
  }

  lemma ReturnObject(leaf: LeafJudge, root: Json, s: Json, doc: Json, n: nat)
    requires s.Obj? && Shaped(s) && Homogeneous(s) && Returns(leaf, root, n)
    requires ObjectWithin(leaf, Normalize(root), Normalize(s).fields, doc, n + 1)
    ensures ObjectWithin(leaf, root, s.fields, doc, n + 1)
  {
    if doc.Obj? {
      NormalizedMembers(s, "properties");
      NormalizedField(s, "additionalProperties");
      forall k | k in doc.fields ensures MemberWithin(leaf, root, s.fields, k, doc.fields[k], n + 1) {
        assert MemberWithin(leaf, Normalize(root), Normalize(s).fields, k, doc.fields[k], n + 1);
        assert "properties" in s.fields ==> FieldShaped(s, "properties") && Homogeneous(s.fields["properties"]);
        assert "additionalProperties" in s.fields ==> FieldShaped(s, "additionalProperties");
      }
      NormalizedField(s, "required");
      if "required" in s.fields {
        assert FieldShaped(s, "required");
        InertFixed(s.fields["required"]);
      }
    }
  }

  lemma ReturnAny(leaf: LeafJudge, root: Json, s: Json, doc: Json, n: nat)
    requires s.Obj? && Shaped(s) && Homogeneous(s) && Returns(leaf, root, n)
    requires AnyWithin(leaf, Normalize(root), Normalize(s).fields, doc, n + 1)
    ensures AnyWithin(leaf, root, s.fields, doc, n + 1)
  {
    NormalizedItems(s, "anyOf");
    NormalizedField(s, "anyOf");
    if "anyOf" in s.fields {
      assert FieldShaped(s, "anyOf") && Homogeneous(s.fields["anyOf"]);
      var options := Items(s.fields, "anyOf");
      var t :| t in Each(options) && Within(leaf, Normalize(root), t, doc, n);
      var i :| 0 <= i < |options| && Each(options)[i] == t;
      assert Within(leaf, root, options[i], doc, n);
      var n' := n + 1;
      assert options[i] in options && Within(leaf, root, options[i], doc, n' - 1);
    }
  }

  lemma ReturnReference(leaf: LeafJudge, root: Json, s: Json, doc: Json, n: nat)
    requires s.Obj? && Shaped(s) && Shaped(root) && Homogeneous(root) && Returns(leaf, root, n)
    requires ReferenceWithin(leaf, Normalize(root), Normalize(s).fields, doc, n + 1)
    ensures ReferenceWithin(leaf, root, s.fields, doc, n + 1)
  {
    NormalizedField(s, "$ref");
    if "$ref" in s.fields && s.fields["$ref"].Str? && root.Obj? {
      NormalizedMembers(root, "$defs");
      assert "$defs" in root.fields ==> FieldShaped(root, "$defs") && Homogeneous(root.fields["$defs"]);
    }
  }

  lemma {:induction false} AlikeFirsts(raw: seq<Json>, done: seq<Json>)
    requires |raw| == |done| && raw != [] && forall e :: e in raw ==> Alike(raw[0], e)
    ensures Firsts(raw, done) == [done[0]]
  {
    var n := |raw| - 1;
    if n > 0 {
      assert forall e :: e in raw[..n] ==> e in raw;
      AlikeFirsts(raw[..n], done[..n]);
      assert raw[0] in raw[..n] && raw[n] in raw;
    }
  }

  lemma ReturnArray(leaf: LeafJudge, root: Json, s: Json, doc: Json, n: nat)
    requires s.Obj? && Shaped(s) && Homogeneous(s) && Returns(leaf, root, n)
    requires ArrayWithin(leaf, Normalize(root), Normalize(s).fields, doc, n + 1)
    ensures ArrayWithin(leaf, root, s.fields, doc, n + 1)
  {
    if doc.Arr? {
      NormalizedField(s, "maxItems");
      if "maxItems" in s.fields {
        assert FieldShaped(s, "maxItems");
        InertFixed(s.fields["maxItems"]);
      }
      forall i: nat | i < |doc.items| ensures ElementWithin(leaf, root, s.fields, i, doc.items[i], n + 1) {
        assert ElementWithin(leaf, Normalize(root), Normalize(s).fields, i, doc.items[i], n + 1);
        if "prefixItems" in s.fields {
          TupleRewritten(s);
          var raw := Items(s.fields, "prefixItems");
          assert raw[0] in raw && raw[i] in raw;
          AlikeFirsts(raw, Each(raw));
          assert FieldShaped(s, "prefixItems") && Homogeneous(s.fields["prefixItems"]);
          assert Within(leaf, Normalize(root), Normalize(raw[i]), doc.items[i], n);
        } else if "items" in s.fields {
          assert FieldShaped(s, "items");
        }
      }
    }
  }

  lemma {:induction false} Returned(leaf: LeafJudge, root: Json, s: Json, doc: Json, n: nat)
    requires Shaped(root) && Shaped(s) && Homogeneous(root) && Homogeneous(s)
    requires Within(leaf, Normalize(root), Normalize(s), doc, n)
    ensures Within(leaf, root, s, doc, n)
    decreases n
  {
    var n' := n - 1;
    forall t, d | Shaped(t) && Homogeneous(t) && Within(leaf, Normalize(root), Normalize(t), d, n')
      ensures Within(leaf, root, t, d, n')
    {
      Returned(leaf, root, t, d, n');
    }
    if s.Obj? {
      forall k | k in s.fields && k !in STRUCTURAL ensures leaf(k, s.fields[k], doc) {
        NormalizedField(s, k);
        assert FieldShaped(s, k);
        InertFixed(s.fields[k]);
      }
      ReturnObject(leaf, root, s, doc, n');
      ReturnArray(leaf, root, s, doc, n');
      ReturnAny(leaf, root, s, doc, n');
      ReturnReference(leaf, root, s, doc, n');
    }
  }

  /** Main theorem: when all tuples are homogeneous the rewrite changes nothing. */
  lemma HomogeneousExact(leaf: LeafJudge, schema: Json, doc: Json)
    requires Shaped(schema) && Homogeneous(schema)
    ensures Accepts(leaf, Normalize(schema), doc) <==> Accepts(leaf, schema, doc)
  {
    NormalizeWidens(leaf, schema, doc);
    if n: nat :| Within(leaf, Normalize(schema), Normalize(schema), doc, n) {
      Returned(leaf, schema, schema, doc, n);
    }
  }

  // ----- No tuple is left -----

  /** No object anywhere in the value has the keyword of a tuple. */
  predicate TupleFree(v: Json)
    decreases v
  {
    match v
    case Arr(items) => forall i :: 0 <= i < |items| ==> TupleFree(items[i])
    case Obj(fields) => "prefixItems" !in fields && forall k :: k in fields ==> TupleFree(fields[k])
    case _ => true
  }

  lemma {:induction false} FirstsTupleFree(raw: seq<Json>, done: seq<Json>)
    requires |raw| == |done| && forall i :: 0 <= i < |done| ==> TupleFree(done[i])
    ensures forall i :: 0 <= i < |Firsts(raw, done)| ==> TupleFree(Firsts(raw, done)[i])
  {
    if raw != [] {
      FirstsTupleFree(raw[..|raw| - 1], done[..|raw| - 1]);
    }
  }

  lemma AnyOfTupleFree(options: seq<Json>)
    requires forall i :: 0 <= i < |options| ==> TupleFree(options[i])
    ensures TupleFree(AnyOf(options))
  {
    assert TupleFree(Arr(options));
  }

  lemma TupleItemsTupleFree(raw: seq<Json>, done: seq<Json>, rawItems: Option<Json>, items: Json)
    requires |raw| == |done| && TupleFree(items) && forall i :: 0 <= i < |done| ==> TupleFree(done[i])
    ensures TupleFree(TupleItems(raw, done, rawItems, items))
  {
    var wide := Superset(raw, done);
    FirstsTupleFree(raw, done);
    AnyOfTupleFree(Firsts(raw, done));
    assert TupleFree(wide);
    AnyOfTupleFree([wide]);
    AnyOfTupleFree([wide, items]);
  }

  /** Main theorem: the rewrite leaves no tuple, however deep it was. */
  lemma {:induction false} NormalizeTupleFree(v: Json)
    ensures TupleFree(Normalize(v))
    decreases v
  {
    match v
    case Arr(items) =>
      forall i | 0 <= i < |items| ensures TupleFree(Each(items)[i]) {
        NormalizeTupleFree(items[i]);
      }
    case Obj(fields) =>
      forall k | k in fields ensures TupleFree(EachField(v)[k]) {
        NormalizeTupleFree(fields[k]);
      }
      if "prefixItems" in fields && fields["prefixItems"].Arr? {
        var raw := fields["prefixItems"].items;
        forall i | 0 <= i < |raw| ensures TupleFree(Each(raw)[i]) {
          NormalizeTupleFree(raw[i]);
        }
        var items := if "items" in fields then EachField(v)["items"] else Null;
        TupleItemsTupleFree(raw, Each(raw), Get(fields, "items"), items);
      }
    case _ =>
  }
}
