/** What the keywords of a schema mean, on schemas flat enough to say it outright: objects with
    plain properties, references to plain definitions, and tuples with a plain schema for the
    elements after them; and what both rewrites make of these. */
module FlatSchemas {
  import opened Wrappers
  import opened TransportSchema
  import opened StrictSchema
  import opened TupleLosses

  /** A schema whose keywords are judged one by one, and which is no open object. */
  predicate LeafSchema(e: Json) {
    e.Obj? && Plain(e) && Get(e.fields, "type") != Some(Str("object"))
  }

  // ----- Objects -----

  /** An object schema with these properties, some of them required, others allowed or not. */
  function FlatObject(properties: map<string, Json>, required: seq<string>, open: bool): Json {
    Obj(map["type" := Str("object"), "properties" := Obj(properties), "required" := Arr(Names(required)),
            "additionalProperties" := Bool(open)])
  }

  /** The document has the required members, each declared member is as its schema demands, and
      there is no other unless it is allowed. */
  predicate FlatTakes(leaf: LeafJudge, properties: map<string, Json>, required: seq<string>, open: bool, doc: Json) {
    leaf("type", Str("object"), doc) &&
    (doc.Obj? ==>
       (forall name :: name in required ==> name in doc.fields) &&
       forall name :: name in doc.fields ==>
         if name in properties then PlainTakes(leaf, properties[name], doc.fields[name]) else open)
  }

  predicate LeafProperties(properties: map<string, Json>) {
    forall name :: name in properties ==> LeafSchema(properties[name])
  }

  lemma NamesExact(required: seq<string>, doc: map<string, Json>)
    ensures (forall r :: r in Names(required) ==> r.Str? && r.s in doc) <==>
      forall name :: name in required ==> name in doc
  {
    forall name | name in required ensures Str(name) in Names(required) {
      var i :| 0 <= i < |required| && required[i] == name;
      assert Names(required)[i] == Str(name);
    }
  }

  lemma FlatWithin(leaf: LeafJudge, root: Json, properties: map<string, Json>, required: seq<string>, open: bool,
                   doc: Json, n: nat)
    requires LeafProperties(properties) && n > 1
    ensures Within(leaf, root, FlatObject(properties, required, open), doc, n) <==>
      FlatTakes(leaf, properties, required, open, doc)
  {
    var fields := FlatObject(properties, required, open).fields;
    PlainAnywhere(leaf, root, fields, doc, n);
    FlatMembers(leaf, root, properties, required, open, doc, n);
    assert fields["type"] == Str("object");
    assert forall k :: k in fields && k !in STRUCTURAL ==> k == "type";
  }

  lemma FlatMembers(leaf: LeafJudge, root: Json, properties: map<string, Json>, required: seq<string>, open: bool,
                    doc: Json, n: nat)
    requires LeafProperties(properties) && n > 1
    ensures ObjectWithin(leaf, root, FlatObject(properties, required, open).fields, doc, n) <==>
      (doc.Obj? ==>
         (forall name :: name in required ==> name in doc.fields) &&
         forall name :: name in doc.fields ==>
           if name in properties then PlainTakes(leaf, properties[name], doc.fields[name]) else open)
  {
    var fields := FlatObject(properties, required, open).fields;
    assert Items(fields, "required") == Names(required);
    if doc.Obj? {
      NamesExact(required, doc.fields);
      forall k | k in doc.fields
        ensures MemberWithin(leaf, root, fields, k, doc.fields[k], n) <==>
                if k in properties then PlainTakes(leaf, properties[k], doc.fields[k]) else open
      {
        FlatMember(leaf, root, properties, required, open, k, doc.fields[k], n);
      }
    }
  }

  lemma FlatMember(leaf: LeafJudge, root: Json, properties: map<string, Json>, required: seq<string>, open: bool,
                   k: string, value: Json, n: nat)
    requires LeafProperties(properties) && n > 1
    ensures MemberWithin(leaf, root, FlatObject(properties, required, open).fields, k, value, n) <==>
      if k in properties then PlainTakes(leaf, properties[k], value) else open
  {
    assert Members(FlatObject(properties, required, open).fields, "properties") == properties;
    if k in properties {
      PlainWithin(leaf, root, properties[k], value, n - 1);
    }
  }

  /** Main theorem: what a flat object schema accepts. */
  lemma FlatExact(leaf: LeafJudge, properties: map<string, Json>, required: seq<string>, open: bool, doc: Json)
    requires LeafProperties(properties)
    ensures Accepts(leaf, FlatObject(properties, required, open), doc) <==>
      FlatTakes(leaf, properties, required, open, doc)
  {
    var s := FlatObject(properties, required, open);
    FlatWithin(leaf, s, properties, required, open, doc, 2);
    if n: nat :| Within(leaf, s, s, doc, n) {
      MoreDepth(leaf, s, s, doc, n, n + 2);
      FlatWithin(leaf, s, properties, required, open, doc, n + 2);
    }
  }

  lemma LeafStrict(listing: Listing, e: Json)
    requires LeafSchema(e)
    ensures Strict(listing, e) == e
  {
    assert "properties" in STRUCTURAL && "default" in STRUCTURAL;
    forall k | k in e.fields ensures k != "default" && Strict(listing, e.fields[k]) == e.fields[k] {
      InertStrict(listing, e.fields[k]);
    }
    assert StrictEach(listing, e) == e.fields;
  }

  lemma StrictProperties(listing: Listing, properties: map<string, Json>)
    requires LeafProperties(properties) && "default" !in properties && "properties" !in properties
    ensures Strict(listing, Obj(properties)) == Obj(properties)
  {
    forall k | k in properties ensures Strict(listing, properties[k]) == properties[k] {
      LeafStrict(listing, properties[k]);
    }
    assert StrictEach(listing, Obj(properties)) == properties;
  }

  /** The strict form of a flat object demands every property and allows no other. */
  lemma StrictFlat(listing: Listing, properties: map<string, Json>, required: seq<string>, open: bool)
    requires LeafProperties(properties) && {"default", "properties"} !! properties.Keys
    ensures Strict(listing, FlatObject(properties, required, open)) ==
      FlatObject(properties, listing(properties.Keys), false)
  {
    var s := FlatObject(properties, required, open);
    StrictProperties(listing, properties);
    assert StrictEach(listing, s)["type"] == Str("object");
    assert StrictEach(listing, s)["properties"] == Obj(properties);
    assert Strict(listing, s).fields == FlatObject(properties, listing(properties.Keys), false).fields;
  }

  /** Main theorem: the strict schema accepts exactly the objects with all declared properties, each
      as its schema demands, and no other member. */
  lemma StrictFlatExact(leaf: LeafJudge, listing: Listing, properties: map<string, Json>, required: seq<string>,
                        open: bool, doc: Json)
    requires LeafProperties(properties) && {"default", "properties"} !! properties.Keys && Lists(listing)
    requires doc.Obj?
    ensures Accepts(leaf, Strict(listing, FlatObject(properties, required, open)), doc) <==>
      leaf("type", Str("object"), doc) && doc.fields.Keys == properties.Keys &&
      forall name :: name in properties ==> PlainTakes(leaf, properties[name], doc.fields[name])
  {
    StrictFlat(listing, properties, required, open);
    FlatExact(leaf, properties, listing(properties.Keys), false, doc);
  }

  // ----- References -----

  /** A schema that refers to its one definition. */
  function ByReference(definition: Json): Json {
    Obj(map["$ref" := Str("#/$defs/part"), "$defs" := Obj(map["part" := definition])])
  }

  lemma ReferenceIs(leaf: LeafJudge, definition: Json, doc: Json, n: nat)
    requires LeafSchema(definition) && n > 1
    ensures Within(leaf, ByReference(definition), ByReference(definition), doc, n) <==>
      PlainTakes(leaf, definition, doc)
  {
    var s := ByReference(definition);
    PlainAnywhere(leaf, s, s.fields, doc, n);
    assert Members(s.fields, "$defs") == map["part" := definition];
    assert "#/$defs/part"[8..] == "part" && "#/$defs/" <= "#/$defs/part";
    assert Resolve(s, "#/$defs/part") == Some(definition);
    PlainWithin(leaf, s, definition, doc, n - 1);
    assert forall k :: k in s.fields ==> k in STRUCTURAL;
  }

  /** A reference accepts what the definition it names accepts, also after either rewrite. */
  lemma ReferenceExact(leaf: LeafJudge, listing: Listing, definition: Json, doc: Json)
    requires LeafSchema(definition)
    ensures Accepts(leaf, ByReference(definition), doc) <==> PlainTakes(leaf, definition, doc)
    ensures Normalize(ByReference(definition)) == ByReference(definition) == Strict(listing, ByReference(definition))
  {
    ReferenceAccepts(leaf, definition, doc);
    ReferenceKept(listing, definition);
  }

  lemma ReferenceAccepts(leaf: LeafJudge, definition: Json, doc: Json)
    requires LeafSchema(definition)
    ensures Accepts(leaf, ByReference(definition), doc) <==> PlainTakes(leaf, definition, doc)
  {
    var s := ByReference(definition);
    ReferenceIs(leaf, definition, doc, 2);
    if n: nat :| Within(leaf, s, s, doc, n) {
      MoreDepth(leaf, s, s, doc, n, n + 2);
      ReferenceIs(leaf, definition, doc, n + 2);
    }
  }

  lemma DefinitionsKept(listing: Listing, definition: Json)
    requires LeafSchema(definition)
    ensures var defs := Obj(map["part" := definition]); Normalize(defs) == defs == Strict(listing, defs)
  {
    var defs := Obj(map["part" := definition]);
    PlainFixed(definition);
    LeafStrict(listing, definition);
    assert EachField(defs) == defs.fields && StrictEach(listing, defs) == defs.fields;
  }

  lemma ReferenceKept(listing: Listing, definition: Json)
    requires LeafSchema(definition)
    ensures Normalize(ByReference(definition)) == ByReference(definition) == Strict(listing, ByReference(definition))
  {
    var s, defs := ByReference(definition), Obj(map["part" := definition]);
    DefinitionsKept(listing, definition);
    forall k | k in s.fields ensures Normalize(s.fields[k]) == s.fields[k] == Strict(listing, s.fields[k]) {
      assert k == "$ref" || s.fields[k] == defs;
    }
    assert EachField(s) == s.fields;
    assert StrictEach(listing, s) == s.fields;
  }

  // ----- Tuples with a schema for further elements -----

  /** A plain tuple that also says what further elements are. */
  function WithRest(t: Json, rest: Json): Json
    requires t.Obj?
  {
    Obj(t.fields["items" := rest])
  }

  /** An element of the rewritten tuple is as some kept entry demands, or as the schema for further
      elements does; the latter is dropped when it compares equal to the former. */
  predicate AnyTakes(leaf: LeafJudge, t: Json, rest: Json, element: Json)
    requires t.Obj?
  {
    KeptTakes(leaf, t, element) ||
    (!Alike(Superset(Entries(t), Entries(t)), rest) && PlainTakes(leaf, rest, element))
  }

  lemma RestRewritten(t: Json, rest: Json)
    requires PlainTuple(t) && LeafSchema(rest)
    ensures var wide := Superset(Entries(t), Entries(t));
      Normalize(WithRest(t, rest)) ==
      Obj((t.fields - {"prefixItems"})["items" := AnyOf(if Alike(wide, rest) then [wide] else [wide, rest])])
  {
    var raw, s := Entries(t), WithRest(t, rest);
    NoOthers(t.fields, {"prefixItems", "maxItems"});
    forall i | 0 <= i < |raw| ensures Normalize(raw[i]) == raw[i] {
      assert raw[i] in raw;
      PlainFixed(raw[i]);
    }
    assert Each(raw) == raw;
    PlainFixed(rest);
    forall k | k in t.fields && k != "prefixItems" ensures Normalize(t.fields[k]) == t.fields[k] {
      InertFixed(t.fields[k]);
    }
    assert s.fields["prefixItems"] == t.fields["prefixItems"] && Get(s.fields, "items") == Some(rest);
    assert EachField(s)["items"] == rest;
    forall k | k in s.fields && k != "prefixItems" && k != "items" ensures EachField(s)[k] == t.fields[k] {}
  }

  lemma RestElement(leaf: LeafJudge, root: Json, t: Json, rest: Json, element: Json, n: nat)
    requires PlainTuple(t) && LeafSchema(rest) && n > 2
    ensures var wide := Superset(Entries(t), Entries(t));
      Within(leaf, root, AnyOf(if Alike(wide, rest) then [wide] else [wide, rest]), element, n) <==>
      AnyTakes(leaf, t, rest, element)
  {
    var wide := Superset(Entries(t), Entries(t));
    var options := if Alike(wide, rest) then [wide] else [wide, rest];
    AnyOfWithin(leaf, root, options, element, n);
    SupersetWithin(leaf, root, t, element, n - 1);
    PlainWithin(leaf, root, rest, element, n - 1);
    assert options[0] == wide && wide in options;
    if !Alike(wide, rest) {
      assert options[1] == rest && rest in options;
    }
  }

  /** Main theorem: what the rewrite of such a tuple accepts among the elements of an array. */
  lemma RestElementsExact(leaf: LeafJudge, root: Json, t: Json, rest: Json, doc: Json, n: nat)
    requires PlainTuple(t) && LeafSchema(rest) && n > 3 && doc.Arr?
    ensures Normalize(WithRest(t, rest)).Obj?
    ensures ArrayWithin(leaf, root, Normalize(WithRest(t, rest)).fields, doc, n) <==>
      LengthTakes(t, doc) && forall i :: 0 <= i < |doc.items| ==> AnyTakes(leaf, t, rest, doc.items[i])
  {
    RestRewritten(t, rest);
    NoOthers(t.fields, {"prefixItems", "maxItems"});
    var fields := Normalize(WithRest(t, rest)).fields;
    assert Items(fields, "prefixItems") == [] && Get(fields, "maxItems") == Get(t.fields, "maxItems");
    forall i: nat | i < |doc.items|
      ensures ElementWithin(leaf, root, fields, i, doc.items[i], n) <==> AnyTakes(leaf, t, rest, doc.items[i])
    {
      RestElement(leaf, root, t, rest, doc.items[i], n - 1);
    }
  }
}
