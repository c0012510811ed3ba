/** JSON Schema draft 7 validation restricted to the keywords that the sample generator reads, where `oneOf`
    asks for at least one alternative, as `anyOf` does; and the schemas for which a sample validates. */
module SampleFragment {
  import opened Wrappers
  import opened Json
  import opened JsonPointer
  import opened SampleSchema

  // ----- Validation

  predicate TypeMatches(name: Value, v: Value) {
    match name
    case Str("null") => v.Null?
    case Str("boolean") => v.Bool?
    case Str("string") => v.Str?
    case Str("number") => v.Number?
    case Str("integer") => v.Number? && IsIntegral(v.n)
    case Str("array") => v.Arr?
    case Str("object") => v.Obj?
    case _ => false
  }

  predicate TypeAllows(schema: seq<Member>, v: Value) {
    match Get(schema, "type")
    case None => true
    case Some(Arr(names)) => exists name <- names :: TypeMatches(name, v)
    case Some(name) => TypeMatches(name, v)
  }

  predicate EnumAllows(schema: seq<Member>, v: Value) {
    match Get(schema, "enum")
    case None => true
    case Some(Arr(items)) => v in items
    case Some(_) => false
  }

  /** A lower bound keyword: `amount` is at least the bound. */
  predicate BoundAllows(schema: seq<Member>, keyword: string, amount: real) {
    match Get(schema, keyword)
    case None => true
    case Some(Number(bound)) => bound <= amount
    case Some(_) => false
  }

  predicate BoundsAllow(schema: seq<Member>, v: Value) {
    match v
    case Str(s) => BoundAllows(schema, "minLength", |s| as real)
    case Number(n) => BoundAllows(schema, "minimum", n)
    case Arr(items) => BoundAllows(schema, "minItems", |items| as real)
    case _ => true
  }

  predicate RequiredAllows(schema: seq<Member>, v: seq<Member>) {
    match Get(schema, "required")
    case None => true
    case Some(Arr(names)) => forall name <- names :: name.Str? ==> Has(v, name.s)
    case Some(_) => false
  }

  /** `v` validates against `schema` with a derivation of height at most `n`: references may be cyclic. */
  ghost predicate ValidAt(v: Value, schema: Value, root: Value, n: nat)
    decreases n, 0
  {
    n > 0 &&
    match schema
    case Bool(b) => b
    case Obj(members) =>
      if Has(members, "$ref") then
        && Target(Get(members, "$ref").value, root).Success?
        && ValidAt(v, Target(Get(members, "$ref").value, root).value, root, n - 1)
      else
        && TypeAllows(members, v)
        && EnumAllows(members, v)
        && BoundsAllow(members, v)
        && ItemsAllow(members, v, root, n - 1)
        && PropertiesAllow(members, v, root, n - 1)
        && CombinatorsAllow(members, v, root, n - 1)
    case _ => false
  }

  ghost predicate ItemsAllow(schema: seq<Member>, v: Value, root: Value, n: nat)
    decreases n, 2
  {
    v.Arr? && Has(schema, "items") ==>
      forall item <- v.items :: ValidAt(item, Get(schema, "items").value, root, n)
  }

  ghost predicate PropertiesAllow(schema: seq<Member>, v: Value, root: Value, n: nat)
    decreases n, 2
  {
    v.Obj? ==>
      && RequiredAllows(schema, v.members)
      && DictOf(schema, "properties").Success?
      && forall name :: Has(DictOf(schema, "properties").value, name) && Has(v.members, name) ==>
          ValidAt(Get(v.members, name).value, Get(DictOf(schema, "properties").value, name).value, root, n)
  }

  ghost predicate CombinatorsAllow(schema: seq<Member>, v: Value, root: Value, n: nat)
    decreases n, 2
  {
    && SomeAllows(schema, "oneOf", v, root, n)
    && SomeAllows(schema, "anyOf", v, root, n)
    && ListOf(schema, "allOf").Success?
    && forall choice <- ListOf(schema, "allOf").value :: ValidAt(v, choice, root, n)
  }

  ghost predicate SomeAllows(schema: seq<Member>, keyword: string, v: Value, root: Value, n: nat)
    decreases n, 1
  {
    Has(schema, keyword) ==>
      && ListOf(schema, keyword).Success?
      && exists choice <- ListOf(schema, keyword).value :: ValidAt(v, choice, root, n)
  }

  ghost predicate Valid(v: Value, schema: Value, root: Value) {
    exists n: nat :: ValidAt(v, schema, root, n)
  }

  // ----- The supported fragment

  /** The property names a schema or its alternatives speak about, and those its sample is certain to have. */
  datatype Names = Names(possible: set<string>, certain: set<string>)

  /** For each schema the generator may visit its names, and the schemas whose samples are dicts. */
  datatype Plan = Plan(names: map<Value, Names>, objects: set<Value>)

  predicate NoCombinators(schema: seq<Member>) {
    !Has(schema, "oneOf") && !Has(schema, "anyOf") && !Has(schema, "allOf")
  }

  predicate NoBounds(schema: seq<Member>) {
    !Has(schema, "minLength") && !Has(schema, "minimum") && !Has(schema, "minItems") && !Has(schema, "items")
  }

  /** Combinator keywords are lists, and `oneOf` and `anyOf` offer something. */
  predicate CombinatorsOffer(schema: seq<Member>) {
    && (Has(schema, "oneOf") ==> Get(schema, "oneOf").value.Arr? && Get(schema, "oneOf").value.items != [])
    && (Has(schema, "anyOf") ==> Get(schema, "anyOf").value.Arr? && Get(schema, "anyOf").value.items != [])
    && (Has(schema, "allOf") ==> Get(schema, "allOf").value.Arr?)
  }

  predicate ReferenceFits(s: Value, plan: Plan, root: Value)
    requires s.Obj? && Has(s.members, "$ref") && s in plan.names
  {
    var target := Target(Get(s.members, "$ref").value, root);
    target.Success? ==> target.value in plan.names && Covers(s, target.value, plan)
  }

  /** A schema whose sample is another's: it speaks about the same names or more. */
  predicate Covers(s: Value, other: Value, plan: Plan)
    requires s in plan.names && other in plan.names
  {
    && plan.names[other].possible <= plan.names[s].possible
    && plan.names[other].certain == plan.names[s].certain
    && (s in plan.objects ==> other in plan.objects)
  }

  /** An enum stands alone or with a consistent type, and its first alternative is no dict. */
  predicate EnumFits(schema: seq<Member>)
    requires Has(schema, "enum")
  {
    && NoCombinators(schema) && NoBounds(schema)
    && match Get(schema, "enum").value
      case Arr(items) => items != [] && !items[0].Obj? && TypeAllows(schema, items[0])
      case _ => false
  }

  predicate Disjoint(choices: seq<Value>, plan: Plan)
    requires forall c <- choices :: c in plan.names
  {
    forall i, j :: 0 <= i < j < |choices| ==> plan.names[choices[i]].possible !! plan.names[choices[j]].possible
  }

  /** The required names that are declared. */
  function DeclaredRequired(schema: seq<Member>): set<string> {
    match (ListOf(schema, "required"), DictOf(schema, "properties"))
    case (Success(required), Success(properties)) => set name <- required | name.Str? && Has(properties, name.s) :: name.s
    case _ => {}
  }

  /** The names that some visited alternative is certain to give. */
  function CertainOfChoices(choices: seq<Value>, plan: Plan): set<string> {
    if choices == [] then {}
    else
      (if choices[0] in plan.names then plan.names[choices[0]].certain else {}) + CertainOfChoices(choices[1..], plan)
  }

  /** An object with its own properties and object alternatives, none of which speaks about a name of another.
      It is certain to have its declared required names and those certain from an alternative. */
  ghost predicate MergeFits(s: Value, plan: Plan)
    requires s.Obj? && s in plan.names
  {
    var choices := ChoicesOf(s.members);
    && DictOf(s.members, "properties").Success? && ListOf(s.members, "required").Success?
    && CombinatorsOffer(s.members)
    && RequiredListed(ListOf(s.members, "required").value, DictOf(s.members, "properties").value, plan)
    && (forall name :: Has(DictOf(s.members, "properties").value, name) ==> name in plan.names[s].possible)
    && (forall c <- choices :: c in plan.names && c in plan.objects && plan.names[c].possible <= plan.names[s].possible)
    && (forall c, name :: c in choices && Has(DictOf(s.members, "properties").value, name) ==> name !in plan.names[c].possible)
    && Disjoint(choices, plan)
    && (s in plan.objects ==> GivesDict(s.members))
    && plan.names[s].certain == DeclaredRequired(s.members) + CertainOfChoices(choices, plan)
  }

  /** Required names are texts; the schemas of those that are declared are visited. */
  predicate RequiredListed(required: seq<Value>, properties: seq<Member>, plan: Plan) {
    forall name <- required :: name.Str? && (Has(properties, name.s) ==> Get(properties, name.s).value in plan.names)
  }

  /** An object schema without a type, properties or alternatives has no dict as its sample. */
  predicate GivesDict(schema: seq<Member>) {
    KindOf(schema) == Success("object") || Has(schema, "properties") || ChoicesOf(schema) != []
  }

  /** A pure union: one combinator and nothing else that constrains. */
  predicate UnionFits(s: Value, plan: Plan)
    requires s.Obj? && s in plan.names
  {
    var schema := s.members;
    && !Has(schema, "type") && !Has(schema, "properties") && !Has(schema, "required") && NoBounds(schema)
    && CombinatorsOffer(schema)
    && |ChoicesOf(schema)| == 1
    && (!Has(schema, "oneOf") || !Has(schema, "anyOf"))
    && ChoicesOf(schema)[0] in plan.names && Covers(s, ChoicesOf(schema)[0], plan)
  }

  const SCALARS: set<string> := {"null", "boolean", "string", "integer", "number"}

  /** The generator reads the schema as an object. */
  predicate ObjectSchema(s: Value) {
    && s.Obj? && !Has(s.members, "$ref") && !Has(s.members, "enum")
    && KindOf(s.members).Success? && KindOf(s.members).value !in SCALARS && KindOf(s.members).value != "array"
  }

  /** What holds of a listed schema apart from its required names. */
  ghost predicate Fits(s: Value, plan: Plan, root: Value)
    requires s in plan.names
  {
    && plan.names[s].certain <= plan.names[s].possible
    && match s
      case Bool(_) => s !in plan.objects
      case Obj(schema) =>
        if Has(schema, "$ref") then ReferenceFits(s, plan, root)
        else if Has(schema, "enum") then s !in plan.objects && EnumFits(schema)
        else (
          match KindOf(schema)
          case Failure => true
          case Success(kind) =>
            if kind in SCALARS then s !in plan.objects && NoCombinators(schema)
            else if kind == "array" then
              && s !in plan.objects && NoCombinators(schema)
              && (Has(schema, "items") ==> Get(schema, "items").value in plan.names)
            else
              && (kind == "object" || !Has(schema, "type"))
              && (MergeFits(s, plan) || UnionFits(s, plan))
        )
      case _ => true
  }

  /** The plan covers every schema the generator visits from the schemas it lists. */
  ghost predicate Shaped(plan: Plan, root: Value) {
    forall s {:trigger Fits(s, plan, root)} | s in plan.names :: Fits(s, plan, root)
  }

  /** Every required name of an object schema is certain: declared, or given by a visited alternative. */
  predicate RequiredCertain(s: Value, plan: Plan)
    requires s in plan.names
  {
    ObjectSchema(s) && ListOf(s.members, "required").Success? && GivesDict(s.members) ==>
      forall name <- ListOf(s.members, "required").value :: name.Str? ==> name.s in plan.names[s].certain
  }

  ghost predicate Supported(plan: Plan, root: Value) {
    Shaped(plan, root) && forall s {:trigger RequiredCertain(s, plan)} | s in plan.names :: RequiredCertain(s, plan)
  }

  // ----- What the two loops build

  /** The sample of a declared property. */
  function PropertySample(properties: seq<Member>, name: string, root: Value, depth: nat): Option<Value> {
    match Get(properties, name)
    case None => None
    case Some(schema) =>
      (match SampleOf(schema, root, depth + 1) case Failure => None case Success(value) => Some(value))
  }

  /** The comprehension over `required` holds exactly the required names that are declared, each with its
      own sample. */
  lemma {:induction false} OwnMembersAre(required: seq<Value>, properties: seq<Member>, result: seq<Member>,
          root: Value, depth: nat, key: string)
    requires depth <= LIMIT && OwnMembers(required, properties, result, root, depth).Success? && Distinct(result)
    requires forall i :: 0 <= i < |required| ==> required[i].Str?
    ensures
      var own := OwnMembers(required, properties, result, root, depth).value;
      var owned := Str(key) in required && Has(properties, key);
      && Distinct(own)
      && (owned ==> PropertySample(properties, key, root, depth).Some?)
      && Get(own, key) == if owned then PropertySample(properties, key, root, depth) else Get(result, key)
    decreases |required|
  {
    if required != [] {
      var name := required[0].s;
      if Has(properties, name) {
        var value := SampleOf(Get(properties, name).value, root, depth + 1).value;
        PutDistinct(result, name, value);
        GetPut(result, name, value, key);
        OwnMembersAre(required[1..], properties, Put(result, name, value), root, depth, key);
      } else {
        OwnMembersAre(required[1..], properties, result, root, depth, key);
      }
    }
  }

  /** The alternative's sample is a dict. */
  predicate IsDict(c: Value, root: Value, depth: nat) {
    SampleOf(c, root, depth + 1).Success? && SampleOf(c, root, depth + 1).value.Obj? && Distinct(SampleMembers(c, root, depth))
  }

  function SampleMembers(c: Value, root: Value, depth: nat): seq<Member> {
    match SampleOf(c, root, depth + 1) case Success(Obj(members)) => members case _ => []
  }

  predicate AllDicts(choices: seq<Value>, root: Value, depth: nat) {
    forall i :: 0 <= i < |choices| ==> IsDict(choices[i], root, depth)
  }

  /** No alternative's sample has the key. */
  predicate NoneHas(choices: seq<Value>, root: Value, depth: nat, key: string) {
    forall i :: 0 <= i < |choices| ==> !Has(SampleMembers(choices[i], root, depth), key)
  }

  /** Merging dicts: a name that only one alternative has keeps that alternative's value, and a name
      that none has keeps the value it had. */
  lemma {:induction false} MergeKeeps(choices: seq<Value>, result: seq<Member>, seen: bool, root: Value,
          depth: nat, key: string)
    requires depth <= LIMIT && AllDicts(choices, root, depth)
    ensures MergeChoices(choices, result, seen, root, depth).Success?
    ensures MergeChoices(choices, result, seen, root, depth).value.Dict?
    ensures
      var merged := MergeChoices(choices, result, seen, root, depth).value;
      && (merged.objectSeen <==> seen || choices != [])
      && (Distinct(result) ==> Distinct(merged.members))
      && (NoneHas(choices, root, depth, key) ==> Get(merged.members, key) == Get(result, key))
      && (forall i :: 0 <= i < |choices| && Has(SampleMembers(choices[i], root, depth), key)
            && NoneHas(choices[i + 1..], root, depth, key)
            ==> Get(merged.members, key) == Get(SampleMembers(choices[i], root, depth), key))
    decreases |choices|
  {
    if choices != [] {
      assert IsDict(choices[0], root, depth);
      var first, rest := SampleMembers(choices[0], root, depth), choices[1..];
      var next := Update(result, first);
      if Distinct(result) {
        UpdateDistinct(result, first);
      }
      GetUpdate(result, first, key);
      MergeKeeps(rest, next, true, root, depth, key);
      var merged := MergeChoices(choices, result, seen, root, depth).value;
      assert merged == MergeChoices(rest, next, true, root, depth).value;
      forall i | 0 <= i < |choices| && Has(SampleMembers(choices[i], root, depth), key) && NoneHas(choices[i + 1..], root, depth, key)
        ensures Get(merged.members, key) == Get(SampleMembers(choices[i], root, depth), key)
      {
        if i > 0 {
          assert choices[i] == rest[i - 1] && choices[i + 1..] == rest[i..];
        }
      }
    }
  }

  // ----- The shape of a sample

  /** What is known of the sample of a listed schema before its validity: a dict has exactly the certain names. */
  ghost predicate WellShaped(v: Value, s: Value, plan: Plan)
    requires s in plan.names
  {
    && (s in plan.objects ==> v.Obj?)
    && (v.Obj? ==> Distinct(v.members) && forall key :: Has(v.members, key) <==> key in plan.names[s].certain)
  }

  lemma {:induction false} SampleIsWellShaped(s: Value, plan: Plan, root: Value, depth: nat)
    requires Shaped(plan, root) && s in plan.names && SampleOf(s, root, depth).Success?
    ensures WellShaped(SampleOf(s, root, depth).value, s, plan)
    decreases if depth > LIMIT then 0 else LIMIT + 1 - depth, 1
  {
    if s.Obj? && Has(s.members, "$ref") {
      var target := ReferenceSample(s, plan, root, depth);
      SampleIsWellShaped(target, plan, root, depth + 1);
    } else if ObjectSchema(s) {
      ObjectFits(s, plan, root, depth);
      if MergeFits(s, plan) {
        MergeIsWellShaped(s, plan, root, depth);
      } else {
        UnionIsWellShaped(s, plan, root, depth);
      }
    } else {
      BareIsWellShaped(s, plan, root, depth);
    }
  }

  /** A reference has the sample of what it leads to, one level deeper. */
  lemma ReferenceSample(s: Value, plan: Plan, root: Value, depth: nat) returns (target: Value)
    requires Shaped(plan, root) && s in plan.names && SampleOf(s, root, depth).Success?
    requires s.Obj? && Has(s.members, "$ref")
    ensures depth <= LIMIT && Target(Get(s.members, "$ref").value, root) == Success(target)
    ensures SampleOf(target, root, depth + 1) == SampleOf(s, root, depth)
    ensures target in plan.names && Covers(s, target, plan)
  {
    assert Fits(s, plan, root);
    target := Target(Get(s.members, "$ref").value, root).value;
  }

  lemma ObjectFits(s: Value, plan: Plan, root: Value, depth: nat)
    requires Shaped(plan, root) && s in plan.names && SampleOf(s, root, depth).Success? && ObjectSchema(s)
    ensures depth <= LIMIT && (KindOf(s.members).value == "object" || !Has(s.members, "type"))
    ensures MergeFits(s, plan) || UnionFits(s, plan)
  {
    assert Fits(s, plan, root);
  }

  /** The sample of any other schema is no dict. */
  lemma BareIsWellShaped(s: Value, plan: Plan, root: Value, depth: nat)
    requires Shaped(plan, root) && s in plan.names && SampleOf(s, root, depth).Success?
    requires !(s.Obj? && Has(s.members, "$ref")) && !ObjectSchema(s)
    ensures WellShaped(SampleOf(s, root, depth).value, s, plan)
  {
    assert Fits(s, plan, root);
  }

  /** The parts of a dict sample. */
  lemma ObjectParts(s: Value, root: Value, depth: nat) returns (own: seq<Member>, merged: Merged)
    requires depth <= LIMIT && SampleOf(s, root, depth).Success? && ObjectSchema(s)
    ensures DictOf(s.members, "properties").Success? && ListOf(s.members, "required").Success?
    ensures PartsAre(s, root, depth, own, merged)
    ensures SampleOf(s, root, depth).value ==
            match merged
            case Plain(value) => value
            case Dict(result, seen) =>
              if KindOf(s.members).value == "object" || Has(s.members, "properties") || result != [] || seen
              then Obj(result) else Null
  {
    assert ObjectSample(s.members, KindOf(s.members).value, root, depth) == SampleOf(s, root, depth);
    own := OwnMembers(ListOf(s.members, "required").value, DictOf(s.members, "properties").value, [], root, depth).value;
    merged := MergeChoices(ChoicesOf(s.members), own, false, root, depth).value;
  }

  predicate PartsAre(s: Value, root: Value, depth: nat, own: seq<Member>, merged: Merged)
    requires depth <= LIMIT && s.Obj?
  {
    && DictOf(s.members, "properties").Success? && ListOf(s.members, "required").Success?
    && OwnMembers(ListOf(s.members, "required").value, DictOf(s.members, "properties").value, [], root, depth) == Success(own)
    && MergeChoices(ChoicesOf(s.members), own, false, root, depth) == Success(merged)
  }

  /** Each alternative's sample is a dict with exactly its certain names. */
  ghost predicate ChoicesFit(choices: seq<Value>, plan: Plan, root: Value, depth: nat) {
    AllDicts(choices, root, depth) && forall i :: 0 <= i < |choices| ==> ChoiceFits(choices[i], plan, root, depth)
  }

  ghost predicate ChoiceFits(c: Value, plan: Plan, root: Value, depth: nat) {
    && c in plan.names && plan.names[c].certain <= plan.names[c].possible
    && forall key :: Has(SampleMembers(c, root, depth), key) <==> key in plan.names[c].certain
  }

  lemma {:induction false} ChoicesAreDicts(choices: seq<Value>, result: seq<Member>, seen: bool, plan: Plan,
          root: Value, depth: nat)
    requires Shaped(plan, root) && depth <= LIMIT
    requires forall c <- choices :: c in plan.names && c in plan.objects
    requires MergeChoices(choices, result, seen, root, depth).Success?
    ensures ChoicesFit(choices, plan, root, depth)
    decreases LIMIT + 1 - depth, 0, |choices|
  {
    if choices != [] {
      SampleIsWellShaped(choices[0], plan, root, depth + 1);
      FirstIsDict(choices[0], plan, root, depth);
      MergeFirst(choices, result, seen, root, depth);
      ChoicesAreDicts(choices[1..], Update(result, SampleMembers(choices[0], root, depth)), true, plan, root, depth);
      OneMoreFits(choices, plan, root, depth);
    }
  }

  lemma FirstIsDict(c: Value, plan: Plan, root: Value, depth: nat)
    requires Shaped(plan, root) && c in plan.names && c in plan.objects && SampleOf(c, root, depth + 1).Success?
    requires WellShaped(SampleOf(c, root, depth + 1).value, c, plan)
    ensures IsDict(c, root, depth) && ChoiceFits(c, plan, root, depth)
  {
    assert Fits(c, plan, root);
  }

  lemma MergeFirst(choices: seq<Value>, result: seq<Member>, seen: bool, root: Value, depth: nat)
    requires choices != [] && depth <= LIMIT && IsDict(choices[0], root, depth)
    ensures MergeChoices(choices, result, seen, root, depth) ==
            MergeChoices(choices[1..], Update(result, SampleMembers(choices[0], root, depth)), true, root, depth)
  {
  }

  lemma OneMoreFits(choices: seq<Value>, plan: Plan, root: Value, depth: nat)
    requires choices != [] && ChoicesFit(choices[1..], plan, root, depth)
    requires IsDict(choices[0], root, depth) && ChoiceFits(choices[0], plan, root, depth)
    ensures ChoicesFit(choices, plan, root, depth)
  {
    assert forall i :: 1 <= i < |choices| ==> choices[i] == choices[1..][i - 1];
  }

  /** The names of the merged dict: of the object itself or of one of its alternatives. */
  lemma MergedNames(s: Value, plan: Plan, root: Value, depth: nat, own: seq<Member>, merged: Merged, key: string)
    requires s.Obj? && s in plan.names && depth <= LIMIT && MergeFits(s, plan)
    requires PartsAre(s, root, depth, own, merged) && ChoicesFit(ChoicesOf(s.members), plan, root, depth)
    ensures merged.Dict? && Distinct(merged.members)
    ensures Has(merged.members, key) <==> key in plan.names[s].certain
  {
    var choices := ChoicesOf(s.members);
    MergeKeeps(choices, own, false, root, depth, key);
    OwnMembersAre(ListOf(s.members, "required").value, DictOf(s.members, "properties").value, [], root, depth, key);
    assert key in DeclaredRequired(s.members) <==> Has(own, key);
    if NoneHas(choices, root, depth, key) {
      NotFromChoices(choices, plan, root, depth, key);
    } else {
      var i := LastWith(choices, root, depth, key);
      assert ChoiceFits(choices[i], plan, root, depth);
      FromChoice(choices, i, plan, key);
    }
  }

  lemma {:induction false} NotFromChoices(choices: seq<Value>, plan: Plan, root: Value, depth: nat, key: string)
    requires ChoicesFit(choices, plan, root, depth) && NoneHas(choices, root, depth, key)
    ensures key !in CertainOfChoices(choices, plan)
  {
    if choices != [] {
      assert ChoiceFits(choices[0], plan, root, depth);
      NotFromChoices(choices[1..], plan, root, depth, key);
    }
  }

  lemma {:induction false} FromChoice(choices: seq<Value>, i: nat, plan: Plan, key: string)
    requires i < |choices| && choices[i] in plan.names && key in plan.names[choices[i]].certain
    ensures key in CertainOfChoices(choices, plan)
  {
    if i > 0 {
      FromChoice(choices[1..], i - 1, plan, key);
    }
  }

  /** The last alternative whose sample has the key. */
  lemma {:induction false} LastWith(choices: seq<Value>, root: Value, depth: nat, key: string) returns (i: nat)
    requires !NoneHas(choices, root, depth, key)
    ensures i < |choices| && Has(SampleMembers(choices[i], root, depth), key) && NoneHas(choices[i + 1..], root, depth, key)
  {
    var rest := choices[1..];
    if NoneHas(rest, root, depth, key) {
      i := 0;
      assert forall j :: 1 <= j < |choices| ==> choices[j] == rest[j - 1];
    } else {
      var j := LastWith(rest, root, depth, key);
      i := j + 1;
      assert choices[i] == rest[j] && choices[i + 1..] == rest[j + 1..];
    }
  }

  lemma {:induction false} MergeIsWellShaped(s: Value, plan: Plan, root: Value, depth: nat)
    requires Shaped(plan, root) && s in plan.names && depth <= LIMIT && SampleOf(s, root, depth).Success?
    requires ObjectSchema(s) && MergeFits(s, plan)
    ensures WellShaped(SampleOf(s, root, depth).value, s, plan)
    decreases LIMIT + 1 - depth, 0, |ChoicesOf(s.members)| + 1
  {
    var own, merged := ObjectParts(s, root, depth);
    ChoicesAreDicts(ChoicesOf(s.members), own, false, plan, root, depth);
    MergeKeeps(ChoicesOf(s.members), own, false, root, depth, "");
    MergedNames(s, plan, root, depth, own, merged, "");
    forall key ensures Has(merged.members, key) <==> key in plan.names[s].certain {
      MergedNames(s, plan, root, depth, own, merged, key);
    }
    DictIsWellShaped(s, plan, SampleOf(s, root, depth).value, merged.members);
  }

  lemma DictIsWellShaped(s: Value, plan: Plan, v: Value, members: seq<Member>)
    requires s in plan.names && Distinct(members) && forall key :: Has(members, key) <==> key in plan.names[s].certain
    requires v == Obj(members) || (v == Null && s !in plan.objects)
    ensures WellShaped(v, s, plan)
  {
  }

  lemma {:induction false} UnionIsWellShaped(s: Value, plan: Plan, root: Value, depth: nat)
    requires Shaped(plan, root) && s in plan.names && depth <= LIMIT && SampleOf(s, root, depth).Success?
    requires ObjectSchema(s) && UnionFits(s, plan)
    ensures WellShaped(SampleOf(s, root, depth).value, s, plan)
    decreases LIMIT + 1 - depth, 0, |ChoicesOf(s.members)| + 1
  {
    var c := UnionSample(s, root, depth);
    SampleIsWellShaped(c, plan, root, depth + 1);
    var v, child := SampleOf(s, root, depth).value, SampleOf(c, root, depth + 1).value;
    if child.Obj? {
      UpdateDistinct([], child.members);
      forall key ensures Get(v.members, key) == Get(child.members, key) {
        GetUpdate([], child.members, key);
      }
    }
  }

  /** The sample of a pure union is the sample of its one visited alternative. */
  lemma UnionSample(s: Value, root: Value, depth: nat) returns (c: Value)
    requires depth <= LIMIT && SampleOf(s, root, depth).Success? && ObjectSchema(s)
    requires !Has(s.members, "type") && !Has(s.members, "properties") && !Has(s.members, "required")
    requires |ChoicesOf(s.members)| == 1
    ensures c == ChoicesOf(s.members)[0] && SampleOf(c, root, depth + 1).Success?
    ensures
      var child := SampleOf(c, root, depth + 1).value;
      SampleOf(s, root, depth).value == if child.Obj? then Obj(Update([], child.members)) else child
  {
    c := ChoicesOf(s.members)[0];
    var own, merged := ObjectParts(s, root, depth);
    assert own == [];
    assert ChoicesOf(s.members) == [c];
    MergeOne(c, root, depth);
  }

  lemma MergeOne(c: Value, root: Value, depth: nat)
    requires depth <= LIMIT
    ensures MergeChoices([c], [], false, root, depth) ==
      match SampleOf(c, root, depth + 1)
      case Failure => Failure
      case Success(Obj(members)) => Success(Dict(Update([], members), true))
      case Success(child) => Success(Plain(child))
  {
    assert [c][1..] == [];
  }
}
