/** A document in the fragment of the sample generator: a required reference, a bound, and a required name
    that only a merged alternative gives. It shows that the fragment's conditions can be met together. */
module SampleExample {
  import opened Wrappers
  import opened Json
  import opened JsonPointer
  import opened SampleSchema
  import opened SampleFragment
  import opened ContractPointers

  const NAME := Obj([Member("type", Str("string")), Member("minLength", Number(9.0))])
  const REFERENCE := Obj([Member("$ref", Str("#/definitions/Name"))])
  const KIND := Obj([Member("enum", Arr([Str("owned")]))])

  /** An object schema with one declared property. */
  function Single(required: seq<Value>, name: string, schema: Value): seq<Member> {
    [Member("type", Str("object")), Member("required", Arr(required)), Member("properties", Obj([Member(name, schema)]))]
  }

  const TAGGED := Obj(Single([Str("kind")], "kind", KIND))
  const SCHEMA := Obj(Single([Str("name"), Str("kind")], "name", REFERENCE) + [Member("allOf", Arr([TAGGED]))])
  const DOCUMENT := Obj([Member("definitions", Obj([Member("Name", NAME)]))])

  const BARE := Names({}, {})
  const PLAN := Plan(
    map[SCHEMA := Names({"name", "kind"}, {"name", "kind"}), TAGGED := Names({"kind"}, {"kind"}),
        KIND := BARE, REFERENCE := BARE, NAME := BARE],
    {SCHEMA, TAGGED})

  const KEYS := ["definitions", "Name"]

  lemma ReferenceReads()
    ensures Keys("#/definitions/Name"[1..]) == KEYS
  {
    assert "#/definitions/Name"[1..] == "/" + "definitions" + "/" + "Name";
    TwoPlainKeys("definitions", "Name");
  }

  lemma TwoPlainKeys(a: string, b: string)
    requires PlainKey(a) && PlainKey(b)
    ensures Keys("/" + a + "/" + b) == [a, b]
  {
    EscapePlain(a);
    EscapePlain(b);
    RenderTwo(a, b);
    KeysOfRendered([a, b]);
  }

  lemma KeysLeadToName()
    ensures Follow(DOCUMENT, KEYS) == Success(NAME)
  {
    GetOne(Member("definitions", Obj([Member("Name", NAME)])), "definitions");
    GetOne(Member("Name", NAME), "Name");
    FollowTwo(DOCUMENT, "definitions", "Name", Obj([Member("Name", NAME)]), NAME);
  }

  lemma TextLeads(text: string, root: Value)
    requires text != ""
    ensures Target(Str(text), root) == Follow(root, Keys(text[1..]))
  {
  }

  lemma ReferenceLeadsToName()
    ensures Has(REFERENCE.members, "$ref") && Get(REFERENCE.members, "$ref").value == Str("#/definitions/Name")
    ensures Target(Get(REFERENCE.members, "$ref").value, DOCUMENT) == Success(NAME)
  {
    var text := "#/definitions/Name";
    GetOne(Member("$ref", Str(text)), "$ref");
    ReferenceReads();
    KeysLeadToName();
    TextLeads(text, DOCUMENT);
  }

  lemma GetThree(a: Member, b: Member, c: Member, more: seq<Member>, key: string)
    ensures Get([a, b, c] + more, key) ==
      if a.name == key then Some(a.value) else if b.name == key then Some(b.value)
      else if c.name == key then Some(c.value) else Get(more, key)
  {
    GetNext(a, [b, c] + more, key);
    GetNext(b, [c] + more, key);
    GetNext(c, more, key);
    assert [a, b, c] + more == [a] + ([b, c] + more);
    assert [b, c] + more == [b] + ([c] + more);
  }

  lemma GetNext(m: Member, more: seq<Member>, key: string)
    ensures Get([m] + more, key) == if m.name == key then Some(m.value) else Get(more, key)
  {
    assert ([m] + more)[1..] == more;
  }

  lemma GetSingle(required: seq<Value>, name: string, schema: Value, more: seq<Member>, key: string)
    ensures Get(Single(required, name, schema) + more, key) ==
      if key == "type" then Some(Str("object")) else if key == "required" then Some(Arr(required))
      else if key == "properties" then Some(Obj([Member(name, schema)])) else Get(more, key)
  {
    GetThree(Member("type", Str("object")), Member("required", Arr(required)),
             Member("properties", Obj([Member(name, schema)])), more, key);
  }

  lemma GetOne(m: Member, key: string)
    ensures Get([m], key) == if m.name == key then Some(m.value) else None
  {
    assert [m][1..] == [];
  }

  /** What the generator reads of an object schema with these parts. */
  predicate Reads(s: Value, required: seq<Value>, name: string, schema: Value, choices: seq<Value>) {
    && ObjectSchema(s) && Has(s.members, "type") && KindOf(s.members) == Success("object")
    && ListOf(s.members, "required") == Success(required)
    && DictOf(s.members, "properties") == Success([Member(name, schema)])
    && CombinatorsOffer(s.members) && ChoicesOf(s.members) == choices
  }

  lemma SingleReads(required: seq<Value>, name: string, schema: Value)
    ensures Reads(Obj(Single(required, name, schema)), required, name, schema, [])
  {
    var members := Single(required, name, schema);
    assert members + [] == members;
    forall key: string
      ensures Get(members, key) ==
        if key == "type" then Some(Str("object")) else if key == "required" then Some(Arr(required))
        else if key == "properties" then Some(Obj([Member(name, schema)])) else None
    {
      GetSingle(required, name, schema, [], key);
    }
  }

  lemma MergingReads(required: seq<Value>, name: string, schema: Value, choices: seq<Value>)
    ensures Reads(Obj(Single(required, name, schema) + [Member("allOf", Arr(choices))]), required, name, schema, choices)
  {
    var members := Single(required, name, schema) + [Member("allOf", Arr(choices))];
    forall key: string
      ensures Get(members, key) ==
        if key == "type" then Some(Str("object")) else if key == "required" then Some(Arr(required))
        else if key == "properties" then Some(Obj([Member(name, schema)]))
        else if key == "allOf" then Some(Arr(choices)) else None
    {
      GetSingle(required, name, schema, [Member("allOf", Arr(choices))], key);
      GetOne(Member("allOf", Arr(choices)), key);
    }
  }

  lemma OnlyDeclared(s: Value, required: seq<Value>, name: string, schema: Value, choices: seq<Value>)
    requires Reads(s, required, name, schema, choices) && Str(name) in required
    ensures DeclaredRequired(s.members) == {name}
    ensures forall other :: Has([Member(name, schema)], other) <==> other == name
  {
    forall other ensures Has([Member(name, schema)], other) <==> other == name {
      GetOne(Member(name, schema), other);
    }
  }

  /** An object schema fits with its declared name, the names of at most one alternative, and no others. */
  lemma ReadsFits(s: Value, required: seq<Value>, name: string, schema: Value, choices: seq<Value>, plan: Plan)
    requires Reads(s, required, name, schema, choices) && Str(name) in required && |choices| <= 1
    requires s in plan.names && schema in plan.names && forall v <- required :: v.Str? && (v.s != name ==> choices != [])
    requires plan.names[s] == Names({name} + CertainOfChoices(choices, plan), {name} + CertainOfChoices(choices, plan))
    requires forall c <- choices :: c in plan.names && c in plan.objects
    requires forall c <- choices :: plan.names[c].possible == plan.names[c].certain && name !in plan.names[c].possible
    ensures Fits(s, plan, DOCUMENT)
  {
    OnlyDeclared(s, required, name, schema, choices);
    GetOne(Member(name, schema), name);
    if choices != [] {
      assert choices == [choices[0]] && CertainOfChoices([], plan) == {};
    }
    assert MergeFits(s, plan);
  }

  lemma SchemasDiffer()
    ensures SCHEMA != TAGGED && SCHEMA != KIND && SCHEMA != REFERENCE && SCHEMA != NAME
    ensures TAGGED != KIND && TAGGED != REFERENCE && TAGGED != NAME
    ensures KIND != REFERENCE && KIND != NAME && REFERENCE != NAME
  {
    assert |SCHEMA.members| == 4 && |TAGGED.members| == 3 && |NAME.members| == 2;
    assert |KIND.members| == 1 && |REFERENCE.members| == 1;
    assert KIND.members[0].name == "enum" && REFERENCE.members[0].name == "$ref";
    assert "enum"[0] != "$ref"[0];
  }

  lemma PlanListsNames()
    ensures Lists(PLAN)
  {
    SchemasDiffer();
  }

  lemma NameFits(plan: Plan)
    requires NAME in plan.names && plan.names[NAME] == BARE && NAME !in plan.objects
    ensures Fits(NAME, plan, DOCUMENT) && RequiredCertain(NAME, plan)
  {
    forall key: string
      ensures Get(NAME.members, key) ==
        if key == "type" then Some(Str("string")) else if key == "minLength" then Some(Number(9.0)) else None
    {
      assert NAME.members == [Member("type", Str("string"))] + [Member("minLength", Number(9.0))];
      GetNext(Member("type", Str("string")), [Member("minLength", Number(9.0))], key);
      GetOne(Member("minLength", Number(9.0)), key);
    }
  }

  lemma KindFits(plan: Plan)
    requires KIND in plan.names && plan.names[KIND] == BARE && KIND !in plan.objects
    ensures Fits(KIND, plan, DOCUMENT) && RequiredCertain(KIND, plan)
  {
    forall key: string ensures Get(KIND.members, key) == if key == "enum" then Some(Arr([Str("owned")])) else None {
      GetOne(Member("enum", Arr([Str("owned")])), key);
    }
  }

  lemma ReferenceIsFit(plan: Plan)
    requires REFERENCE in plan.names && plan.names[REFERENCE] == BARE && REFERENCE !in plan.objects
    requires NAME in plan.names && plan.names[NAME] == BARE
    ensures Fits(REFERENCE, plan, DOCUMENT) && RequiredCertain(REFERENCE, plan)
  {
    ReferenceLeadsToName();
  }

  lemma TaggedFits(plan: Plan)
    requires TAGGED in plan.names && plan.names[TAGGED] == Names({"kind"}, {"kind"}) && KIND in plan.names
    ensures Fits(TAGGED, plan, DOCUMENT) && RequiredCertain(TAGGED, plan)
  {
    var required := [Str("kind")];
    SingleReads(required, "kind", KIND);
    assert {"kind"} + CertainOfChoices([], plan) == {"kind"};
    ReadsFits(TAGGED, required, "kind", KIND, [], plan);
  }

  lemma SchemaFits(plan: Plan)
    requires SCHEMA in plan.names && plan.names[SCHEMA] == Names({"name", "kind"}, {"name", "kind"})
    requires REFERENCE in plan.names && TAGGED in plan.names && TAGGED in plan.objects
    requires plan.names[TAGGED] == Names({"kind"}, {"kind"})
    ensures Fits(SCHEMA, plan, DOCUMENT) && RequiredCertain(SCHEMA, plan)
  {
    var required := [Str("name"), Str("kind")];
    MergingReads(required, "name", REFERENCE, [TAGGED]);
    OneCertain(TAGGED, plan);
    assert "name"[0] != "kind"[0];
    assert {"name"} + {"kind"} == {"name", "kind"};
    ReadsFits(SCHEMA, required, "name", REFERENCE, [TAGGED], plan);
  }

  lemma OneCertain(c: Value, plan: Plan)
    requires c in plan.names
    ensures CertainOfChoices([c], plan) == plan.names[c].certain
  {
    assert [c][1..] == [] && CertainOfChoices([], plan) == {};
  }

  predicate Lists(plan: Plan) {
    && plan.names.Keys == {SCHEMA, TAGGED, KIND, REFERENCE, NAME} && TAGGED in plan.objects
    && plan.names[NAME] == plan.names[KIND] == plan.names[REFERENCE] == BARE
    && plan.names[TAGGED] == Names({"kind"}, {"kind"}) && plan.names[SCHEMA] == Names({"name", "kind"}, {"name", "kind"})
    && NAME !in plan.objects && KIND !in plan.objects && REFERENCE !in plan.objects
  }

  lemma ListedFits(plan: Plan, s: Value)
    requires Lists(plan) && s in plan.names
    ensures Fits(s, plan, DOCUMENT) && RequiredCertain(s, plan)
  {
    if s == SCHEMA {
      SchemaFits(plan);
    } else if s == TAGGED {
      TaggedFits(plan);
    } else if s == KIND {
      KindFits(plan);
    } else if s == REFERENCE {
      ReferenceIsFit(plan);
    } else {
      NameFits(plan);
    }
  }

  lemma ListedIsSupported(plan: Plan)
    requires Lists(plan)
    ensures Supported(plan, DOCUMENT)
  {
    forall s | s in plan.names ensures Fits(s, plan, DOCUMENT) && RequiredCertain(s, plan) {
      ListedFits(plan, s);
    }
  }

  /** The plan fits: `SampleValidates` speaks of this schema. */
  lemma ExampleIsSupported()
    ensures Supported(PLAN, DOCUMENT) && SCHEMA in PLAN.names
  {
    PlanListsNames();
    ListedIsSupported(PLAN);
  }
}
