/** The strict pass for response formats: every declared property is required, nothing else is
    allowed, and defaults are dropped.

    Whatever it accepts, the schema it was made from accepts. */
module StrictSchema {
  import opened Wrappers
  import opened TransportSchema

  /** The order in which a dictionary lists its keys. */
  type Listing = set<string> -> seq<string>

  ghost predicate Lists(listing: Listing) {
    forall s: set<string>, k :: k in listing(s) <==> k in s
  }

  function Names(keys: seq<string>): seq<Json> {
    seq(|keys|, i requires 0 <= i < |keys| => Str(keys[i]))
  }

  function StrictEach(listing: Listing, v: Json): map<string, Json>
    requires v.Obj?
    decreases v, 0
  {
    map k | k in v.fields && k != "default" :: Strict(listing, v.fields[k])
  }

  function Strict(listing: Listing, v: Json): Json
    decreases v, 1
  {
    match v
    case Arr(items) => Arr(seq(|items|, i requires 0 <= i < |items| => Strict(listing, items[i])))
    case Obj(fields) =>
      var done := StrictEach(listing, v);
      if "properties" in fields && fields["properties"].Obj? then
        var names := Names(listing(fields["properties"].fields.Keys));
        Obj(done["required" := Arr(names)]["additionalProperties" := Bool(false)])
      else if Get(fields, "type") == Some(Str("object")) && "additionalProperties" !in fields then
        Obj(done["additionalProperties" := Bool(false)])
      else Obj(done)
    case _ => v
  }

  // ----- The schemas it is meant for -----

  predicate Ready(s: Json)
    decreases s, 1
  {
    match s
    case Bool(_) => true
    case Obj(fields) => RequiredDeclared(fields) && forall k :: k in fields ==> FieldReady(s, k)
    case _ => false
  }

  /** Required names are declared, when properties are. */
  predicate RequiredDeclared(fields: map<string, Json>) {
    "properties" in fields ==>
      forall r :: r in Items(fields, "required") ==> r.Str? && r.s in Members(fields, "properties")
  }

  predicate FieldReady(s: Json, key: string)
    requires s.Obj? && key in s.fields
    decreases s, 0
  {
    var value := s.fields[key];
    if key in {"properties", "$defs"} then value.Obj? && forall k :: k in value.fields ==> Ready(value.fields[k])
    else if key in {"items", "additionalProperties"} then Ready(value)
    else if key in {"prefixItems", "anyOf"} then value.Arr? && forall i :: 0 <= i < |value.items| ==>
      Ready(value.items[i])
    else key == "default" || Inert(value)
  }

  lemma {:induction false} InertStrict(listing: Listing, v: Json)
    requires Inert(v)
    ensures Strict(listing, v) == v
  {
    if v.Arr? {
      forall i | 0 <= i < |v.items| ensures Strict(listing, v.items[i]) == v.items[i] {
        InertStrict(listing, v.items[i]);
      }
    }
  }

  lemma StrictField(listing: Listing, s: Json, key: string)
    requires s.Obj? && key !in {"default", "required", "additionalProperties"}
    ensures Strict(listing, s).Obj? && (key in Strict(listing, s).fields <==> key in s.fields)
    ensures key in s.fields ==> Strict(listing, s).fields[key] == Strict(listing, s.fields[key])
  {}

  /** A member of a strict dictionary is the strict form of that member, or a value that
      accepts nothing: names the pass itself adds to a dictionary of schemas. */
  lemma StrictMember(listing: Listing, s: Json, key: string, name: string)
    requires s.Obj? && Ready(s) && key in {"properties", "$defs"}
    requires name in Members(Strict(listing, s).fields, key)
    ensures name != "default"
    ensures var member := Members(Strict(listing, s).fields, key)[name];
      (name in Members(s.fields, key) && member == Strict(listing, Members(s.fields, key)[name]) &&
       Ready(Members(s.fields, key)[name])) ||
      member.Arr? || member == Bool(false)
  {
    StrictField(listing, s, key);
    assert FieldReady(s, key);
  }

  /** Whatever the strict form of a ready schema accepts, the schema accepts. */
  ghost predicate Narrows(leaf: LeafJudge, listing: Listing, root: Json, n: nat) {
    forall t, d :: Ready(t) && Within(leaf, Strict(listing, root), Strict(listing, t), d, n) ==>
      Within(leaf, root, t, d, n)
  }

  lemma StrictDocMember(leaf: LeafJudge, listing: Listing, root: Json, s: Json, key: string, value: Json, n: nat)
    requires s.Obj? && Ready(s) && "properties" in s.fields
    requires MemberWithin(leaf, Strict(listing, root), Strict(listing, s).fields, key, value, n + 1)
    ensures key != "default" && key in Members(s.fields, "properties")
    ensures Within(leaf, Strict(listing, root), Strict(listing, Members(s.fields, "properties")[key]), value, n)
  {
    assert FieldReady(s, "properties");
    var strict := Strict(listing, s).fields;
    assert strict["additionalProperties"] == Bool(false);
    if key in Members(strict, "properties") {
      StrictMember(listing, s, "properties", key);
    }
  }

  /** Without declared properties these keywords stay. */
  lemma StrictKept(listing: Listing, s: Json, key: string)
    requires s.Obj? && Ready(s) && "properties" !in s.fields && key in s.fields
    requires key in {"required", "additionalProperties"}
    ensures Strict(listing, s).Obj? && key in Strict(listing, s).fields
    ensures Strict(listing, s).fields[key] == Strict(listing, s.fields[key])
  {
    assert key in StrictEach(listing, s);
  }

  /** With declared properties, a document the strict form accepts has exactly those members. */
  lemma StrictMembers(leaf: LeafJudge, listing: Listing, root: Json, s: Json, doc: Json, n: nat)
    requires s.Obj? && Ready(s) && Lists(listing) && doc.Obj? && "properties" in s.fields
    requires ObjectWithin(leaf, Strict(listing, root), Strict(listing, s).fields, doc, n + 1)
    ensures doc.fields.Keys == Members(s.fields, "properties").Keys && "default" !in doc.fields
    ensures forall k :: k in doc.fields && k in Members(s.fields, "properties") ==>
      Within(leaf, Strict(listing, root), Strict(listing, Members(s.fields, "properties")[k]), doc.fields[k], n)
  {
    assert FieldReady(s, "properties");
    var strict, properties := Strict(listing, s).fields, Members(s.fields, "properties");
    assert strict["additionalProperties"] == Bool(false);
    forall k | k in doc.fields
      ensures k in properties && Within(leaf, Strict(listing, root), Strict(listing, properties[k]), doc.fields[k], n)
      ensures k != "default"
    {
      StrictDocMember(leaf, listing, root, s, k, doc.fields[k], n);
    }
    var names := listing(properties.Keys);
    assert strict["required"] == Arr(Names(names));
    forall k | k in properties ensures k in doc.fields {
      var i :| 0 <= i < |names| && names[i] == k;
      assert Names(names)[i] == Str(k) && Str(k) in Items(strict, "required");
    }
  }

  lemma NarrowDeclared(leaf: LeafJudge, listing: Listing, root: Json, s: Json, doc: Json, n: nat)
    requires s.Obj? && Ready(s) && Lists(listing) && Narrows(leaf, listing, root, n) && doc.Obj?
    requires "properties" in s.fields
    requires ObjectWithin(leaf, Strict(listing, root), Strict(listing, s).fields, doc, n + 1)
    ensures ObjectWithin(leaf, root, s.fields, doc, n + 1)
  {
    StrictMembers(leaf, listing, root, s, doc, n);
    assert FieldReady(s, "properties");
    forall k | k in doc.fields ensures MemberWithin(leaf, root, s.fields, k, doc.fields[k], n + 1) {
      assert Ready(Members(s.fields, "properties")[k]);
    }
  }

  lemma NarrowUndeclared(leaf: LeafJudge, listing: Listing, root: Json, s: Json, doc: Json, n: nat)
    requires s.Obj? && Ready(s) && Narrows(leaf, listing, root, n) && doc.Obj? && "properties" !in s.fields
    requires ObjectWithin(leaf, Strict(listing, root), Strict(listing, s).fields, doc, n + 1)
    ensures ObjectWithin(leaf, root, s.fields, doc, n + 1)
  {
    var strict := Strict(listing, s).fields;
    forall k | k in doc.fields ensures MemberWithin(leaf, root, s.fields, k, doc.fields[k], n + 1) {
      assert MemberWithin(leaf, Strict(listing, root), strict, k, doc.fields[k], n + 1);
      if "additionalProperties" in s.fields {
        assert FieldReady(s, "additionalProperties");
        StrictKept(listing, s, "additionalProperties");
      }
    }
    if "required" in s.fields {
      assert FieldReady(s, "required");
      StrictKept(listing, s, "required");
      InertStrict(listing, s.fields["required"]);
    }
  }

  lemma NarrowObject(leaf: LeafJudge, listing: Listing, root: Json, s: Json, doc: Json, n: nat)
    requires s.Obj? && Ready(s) && Lists(listing) && Narrows(leaf, listing, root, n)
    requires ObjectWithin(leaf, Strict(listing, root), Strict(listing, s).fields, doc, n + 1)
    ensures ObjectWithin(leaf, root, s.fields, doc, n + 1)
  {
    if doc.Obj? {
      if "properties" in s.fields {
        NarrowDeclared(leaf, listing, root, s, doc, n);
      } else {
        NarrowUndeclared(leaf, listing, root, s, doc, n);
      }
    }
  }

  lemma NarrowArray(leaf: LeafJudge, listing: Listing, root: Json, s: Json, doc: Json, n: nat)
    requires s.Obj? && Ready(s) && Narrows(leaf, listing, root, n)
    requires ArrayWithin(leaf, Strict(listing, root), Strict(listing, s).fields, doc, n + 1)
    ensures ArrayWithin(leaf, root, s.fields, doc, n + 1)
  {
    if doc.Arr? {
      var strict := Strict(listing, s).fields;
      StrictField(listing, s, "maxItems");
      StrictField(listing, s, "prefixItems");
      StrictField(listing, s, "items");
      if "maxItems" in s.fields {
        assert FieldReady(s, "maxItems");
        InertStrict(listing, s.fields["maxItems"]);
      }
      forall i: nat | i < |doc.items| ensures ElementWithin(leaf, root, s.fields, i, doc.items[i], n + 1) {
        assert ElementWithin(leaf, Strict(listing, root), strict, i, doc.items[i], n + 1);
        assert "prefixItems" in s.fields ==> FieldReady(s, "prefixItems");
        assert "items" in s.fields ==> FieldReady(s, "items");
      }
    }
  }

  lemma NarrowAny(leaf: LeafJudge, listing: Listing, root: Json, s: Json, doc: Json, n: nat)
    requires s.Obj? && Ready(s) && Narrows(leaf, listing, root, n)
    requires AnyWithin(leaf, Strict(listing, root), Strict(listing, s).fields, doc, n + 1)
    ensures AnyWithin(leaf, root, s.fields, doc, n + 1)
  {
    StrictField(listing, s, "anyOf");
    if "anyOf" in s.fields {
      assert FieldReady(s, "anyOf");
      var options, strict := Items(s.fields, "anyOf"), Items(Strict(listing, s).fields, "anyOf");
      var t :| t in strict && Within(leaf, Strict(listing, root), t, doc, n);
      var i :| 0 <= i < |strict| && strict[i] == t;
      assert t == Strict(listing, options[i]) && Ready(options[i]);
      var n' := n + 1;
      assert options[i] in options && Within(leaf, root, options[i], doc, n' - 1);
    }
  }

  lemma NarrowReference(leaf: LeafJudge, listing: Listing, root: Json, s: Json, doc: Json, n: nat)
    requires s.Obj? && Ready(s) && Ready(root) && Narrows(leaf, listing, root, n)
    requires ReferenceWithin(leaf, Strict(listing, root), Strict(listing, s).fields, doc, n + 1)
    ensures ReferenceWithin(leaf, root, s.fields, doc, n + 1)
  {
    StrictField(listing, s, "$ref");
    if "$ref" in s.fields && s.fields["$ref"].Str? && root.Obj? {
      var reference := s.fields["$ref"].s;
      StrictField(listing, root, "$defs");
      StrictMember(listing, root, "$defs", reference[8..]);
    }
  }

  lemma {:induction false} Narrowed(leaf: LeafJudge, listing: Listing, root: Json, s: Json, doc: Json, n: nat)
    requires Ready(root) && Ready(s) && Lists(listing)
    requires Within(leaf, Strict(listing, root), Strict(listing, s), doc, n)
    ensures Within(leaf, root, s, doc, n)
    decreases n
  {
    var n' := n - 1;
    forall t, d | Ready(t) && Within(leaf, Strict(listing, root), Strict(listing, t), d, n')
      ensures Within(leaf, root, t, d, n')
    {
      Narrowed(leaf, listing, root, t, d, n');
    }
    NarrowSchema(leaf, listing, root, s, doc, n');
  }

  lemma NarrowLeaves(leaf: LeafJudge, listing: Listing, s: Json, doc: Json)
    requires s.Obj? && Ready(s) && Strict(listing, s).Obj?
    requires forall k :: k in Strict(listing, s).fields && k !in STRUCTURAL ==>
      leaf(k, Strict(listing, s).fields[k], doc)
    ensures forall k :: k in s.fields && k !in STRUCTURAL ==> leaf(k, s.fields[k], doc)
  {
    forall k | k in s.fields && k !in STRUCTURAL ensures leaf(k, s.fields[k], doc) {
      StrictField(listing, s, k);
      assert FieldReady(s, k);
      InertStrict(listing, s.fields[k]);
    }
  }

  lemma NarrowSchema(leaf: LeafJudge, listing: Listing, root: Json, s: Json, doc: Json, n: nat)
    requires Ready(root) && Ready(s) && Lists(listing) && Narrows(leaf, listing, root, n)
    requires Within(leaf, Strict(listing, root), Strict(listing, s), doc, n + 1)
    ensures Within(leaf, root, s, doc, n + 1)
  {
    if s.Obj? {
      NarrowLeaves(leaf, listing, s, doc);
      NarrowObject(leaf, listing, root, s, doc, n);
      NarrowArray(leaf, listing, root, s, doc, n);
      NarrowAny(leaf, listing, root, s, doc, n);
      NarrowReference(leaf, listing, root, s, doc, n);
    }
  }

  /** Main theorem: the strict schema accepts only documents the schema accepts. */
  lemma StrictNarrows(leaf: LeafJudge, listing: Listing, schema: Json, doc: Json)
    requires Ready(schema) && Lists(listing)
    ensures Accepts(leaf, Strict(listing, schema), doc) ==> Accepts(leaf, schema, doc)
  {
    if n: nat :| Within(leaf, Strict(listing, schema), Strict(listing, schema), doc, n) {
      Narrowed(leaf, listing, schema, schema, doc, n);
    }
  }

  /** An object the strict schema accepts has exactly the declared properties, and there is none
      when a property is called default: it is required but its declaration is dropped. */
  lemma StrictMembersExact(leaf: LeafJudge, listing: Listing, schema: Json, doc: Json)
    requires schema.Obj? && Ready(schema) && Lists(listing) && "properties" in schema.fields && doc.Obj?
    requires Accepts(leaf, Strict(listing, schema), doc)
    ensures doc.fields.Keys == Members(schema.fields, "properties").Keys
    ensures "default" !in Members(schema.fields, "properties")
  {
    var n: nat :| Within(leaf, Strict(listing, schema), Strict(listing, schema), doc, n);
    StrictMembers(leaf, listing, schema, schema, doc, n - 1);
  }

  // ----- Strict after removing tuples -----

  lemma {:induction false} FirstsFrom(raw: seq<Json>, done: seq<Json>, e: Json)
    requires |raw| == |done| && e in Firsts(raw, done)
    ensures e in done
  {
    var n := |raw| - 1;
    if e in Firsts(raw[..n], done[..n]) {
      FirstsFrom(raw[..n], done[..n], e);
    }
  }

  lemma AnyOfReady(options: seq<Json>)
    requires forall t :: t in options ==> Ready(t)
    ensures Ready(AnyOf(options))
  {
    assert FieldReady(AnyOf(options), "anyOf");
  }

  lemma SupersetReady(raw: seq<Json>, done: seq<Json>)
    requires |raw| == |done| && forall t :: t in done ==> Ready(t)
    ensures Ready(Superset(raw, done))
  {
    var unique := Firsts(raw, done);
    forall t | t in unique ensures Ready(t) {
      FirstsFrom(raw, done, t);
    }
    if |unique| > 1 {
      AnyOfReady(unique);
    } else if |unique| == 1 {
      assert unique[0] in unique;
    }
  }

  lemma NewItemsReady(s: Json)
    requires s.Obj? && Shaped(s) && "prefixItems" in s.fields
    requires forall t :: t in Each(Items(s.fields, "prefixItems")) ==> Ready(t)
    requires "items" in s.fields ==> Ready(Normalize(s.fields["items"]))
    ensures Ready(NewItems(s))
  {
    var raw := Items(s.fields, "prefixItems");
    TupleRewritten(s);
    SupersetReady(raw, Each(raw));
    if "items" in s.fields && s.fields["items"].Obj? {
      AnyOfReady([Superset(raw, Each(raw)), Normalize(s.fields["items"])]);
      AnyOfReady([Superset(raw, Each(raw))]);
    }
  }

  /** Removing tuples keeps a schema ready for the strict pass. */
  lemma {:induction false} NormalizeReady(s: Json)
    requires Ready(s) && Shaped(s)
    ensures Ready(Normalize(s))
    decreases s, 1
  {
    if s.Obj? {
      var wide := Normalize(s);
      forall k | k in wide.fields ensures FieldReady(wide, k) {
        assert k in s.fields ==> FieldReady(s, k) && FieldShaped(s, k);
        if k == "items" && "prefixItems" in s.fields {
          assert FieldReady(s, "prefixItems") && FieldShaped(s, "prefixItems");
          var raw := Items(s.fields, "prefixItems");
          forall t | t in Each(raw) ensures Ready(t) {
            var i :| 0 <= i < |raw| && Each(raw)[i] == t;
            NormalizeReady(raw[i]);
          }
          if "items" in s.fields {
            NormalizeReady(s.fields["items"]);
          }
          NewItemsReady(s);
          TupleRewritten(s);
        } else {
          ReadyField(s, k);
        }
      }
      RequiredStays(s);
    }
  }

  lemma RequiredStays(s: Json)
    requires s.Obj? && Ready(s) && Shaped(s)
    ensures RequiredDeclared(Normalize(s).fields)
  {
    NormalizedField(s, "required");
    NormalizedField(s, "properties");
    NormalizedMembers(s, "properties");
    if "required" in s.fields {
      assert FieldShaped(s, "required");
      InertFixed(s.fields["required"]);
    }
  }

  lemma ReadyField(s: Json, k: string)
    requires s.Obj? && Ready(s) && Shaped(s) && k in Normalize(s).fields && k in s.fields && k != "prefixItems"
    requires k == "items" ==> "prefixItems" !in s.fields
    ensures FieldReady(Normalize(s), k)
    decreases s, 0
  {
    var wide, value := Normalize(s), s.fields[k];
    assert FieldReady(s, k) && FieldShaped(s, k);
    assert wide.fields[k] == Normalize(value);
    if k in {"properties", "$defs"} {
      assert Normalize(value).fields == EachField(value);
      forall name | name in wide.fields[k].fields ensures Ready(wide.fields[k].fields[name]) {
        NormalizeReady(value.fields[name]);
      }
    } else if k in {"items", "additionalProperties"} {
      NormalizeReady(value);
    } else if k == "anyOf" {
      assert Normalize(value).items == Each(value.items);
      forall i | 0 <= i < |wide.fields[k].items| ensures Ready(wide.fields[k].items[i]) {
        NormalizeReady(value.items[i]);
      }
    } else if k != "default" {
      InertFixed(value);
    }
  }

  /** Main theorem: the schema for strict transports accepts only documents the tuple-free
      schema accepts. */
  lemma CompiledStrictNarrows(leaf: LeafJudge, listing: Listing, schema: Json, doc: Json)
    requires Shaped(schema) && Ready(schema) && Lists(listing)
    ensures Accepts(leaf, Strict(listing, Normalize(schema)), doc) ==> Accepts(leaf, Normalize(schema), doc)
  {
    NormalizeReady(schema);
    StrictNarrows(leaf, listing, Normalize(schema), doc);
  }

  // ----- Every object is strict -----

  /** Every object in the value that declares properties, or is of type object, says what other
      members are; with properties it allows none; and no object has a default. */
  predicate AllStrict(v: Json)
    decreases v
  {
    match v
    case Arr(items) => forall i :: 0 <= i < |items| ==> AllStrict(items[i])
    case Obj(fields) =>
      && "default" !in fields
      && ("properties" in fields && fields["properties"].Obj? ==>
            Get(fields, "additionalProperties") == Some(Bool(false)))
      && (Get(fields, "type") == Some(Str("object")) ==> "additionalProperties" in fields)
      && forall k :: k in fields ==> AllStrict(fields[k])
    case _ => true
  }

  /** Main theorem: the strict pass reaches every object, however deep. */
  lemma {:induction false} StrictEverywhere(listing: Listing, v: Json)
    ensures AllStrict(Strict(listing, v))
    decreases v
  {
    match v
    case Arr(items) =>
      forall i | 0 <= i < |items| ensures AllStrict(Strict(listing, items[i])) {
        StrictEverywhere(listing, items[i]);
      }
    case Obj(fields) =>
      var done := StrictEach(listing, v);
      forall k | k in done ensures AllStrict(done[k]) {
        StrictEverywhere(listing, fields[k]);
      }
      if "properties" in fields && fields["properties"].Obj? {
        NamesStrict(listing(fields["properties"].fields.Keys));
      }
      StrictType(listing, v);
    case _ =>
  }

  lemma StrictType(listing: Listing, v: Json)
    requires v.Obj?
    ensures Strict(listing, v).Obj? && "default" !in Strict(listing, v).fields
    ensures Get(Strict(listing, v).fields, "type") == Some(Str("object")) ==>
      "additionalProperties" in Strict(listing, v).fields
    ensures var after := Strict(listing, v).fields;
      "properties" in after && after["properties"].Obj? ==> Get(after, "additionalProperties") == Some(Bool(false))
    ensures forall k :: k in Strict(listing, v).fields && k !in {"required", "additionalProperties"} ==>
      k in StrictEach(listing, v) && Strict(listing, v).fields[k] == StrictEach(listing, v)[k]
  {
    var done := StrictEach(listing, v);
    if "type" in v.fields {
      StrictKind(listing, v.fields["type"]);
    }
    if "properties" in v.fields {
      StrictKind(listing, v.fields["properties"]);
    }
  }

  lemma StrictKind(listing: Listing, v: Json)
    ensures Strict(listing, v).Obj? <==> v.Obj?
    ensures forall t :: Strict(listing, v) == Str(t) <==> v == Str(t)
  {}

  lemma NamesStrict(keys: seq<string>)
    ensures AllStrict(Arr(Names(keys)))
  {}
}
