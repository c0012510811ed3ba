/** Every value that `sample` returns for a supported schema validates against that schema, and which required
    names that rests on. */
module SampleValidity {
  import opened Wrappers
  import opened Json
  import opened JsonPointer
  import opened SampleSchema
  import opened SampleFragment

  /** `w` has exactly the sample's value for each of the names, and anything for other names. */
  ghost predicate Agrees(v: Value, w: Value, names: set<string>) {
    if v.Obj? then w.Obj? && forall key <- names :: Get(w.members, key) == Get(v.members, key) else w == v
  }

  /** `w` validates with a derivation of the height that is left at this depth. */
  ghost predicate ValidBelow(w: Value, schema: Value, root: Value, depth: nat) {
    exists n: nat :: n + depth == LIMIT + 1 && ValidAt(w, schema, root, n)
  }

  /** Every value that agrees with the sample on the schema's names validates. */
  lemma {:induction false} SampleIsValid(s: Value, w: Value, plan: Plan, root: Value, depth: nat)
    requires Supported(plan, root) && s in plan.names && SampleOf(s, root, depth).Success?
    requires Agrees(SampleOf(s, root, depth).value, w, plan.names[s].possible)
    ensures depth <= LIMIT && ValidBelow(w, s, root, depth)
    decreases if depth > LIMIT then 0 else LIMIT + 1 - depth, 4
  {
    if !s.Obj? {
      TrueAllows(s, w, root, depth);
    } else if Has(s.members, "$ref") {
      var target := ReferenceSample(s, plan, root, depth);
      SampleIsValid(target, w, plan, root, depth + 1);
      ReferenceAllows(s, target, w, root, depth);
    } else if Has(s.members, "enum") {
      EnumIsValid(s, w, plan, root, depth);
    } else {
      TypedIsValid(s, w, plan, root, depth);
    }
  }

  /** The schemas whose sample goes by the type. */
  lemma {:induction false} TypedIsValid(s: Value, w: Value, plan: Plan, root: Value, depth: nat)
    requires Supported(plan, root) && s in plan.names && depth <= LIMIT && SampleOf(s, root, depth).Success?
    requires s.Obj? && !Has(s.members, "$ref") && !Has(s.members, "enum")
    requires Agrees(SampleOf(s, root, depth).value, w, plan.names[s].possible)
    ensures ValidBelow(w, s, root, depth)
    decreases LIMIT + 1 - depth, 3
  {
    assert Fits(s, plan, root);
    if KindOf(s.members).value == "array" {
      ArrayIsValid(s, plan, root, depth);
    } else if KindOf(s.members).value in SCALARS {
      ScalarIsValid(s, root, depth);
    } else if MergeFits(s, plan) {
      MergeIsValid(s, w, plan, root, depth);
    } else {
      UnionIsValid(s, w, plan, root, depth);
    }
  }

  /** Of the schemas that are no dicts, only `true` has a sample. */
  lemma TrueAllows(s: Value, w: Value, root: Value, depth: nat)
    requires !s.Obj? && SampleOf(s, root, depth).Success?
    ensures depth <= LIMIT && ValidBelow(w, s, root, depth)
  {
    assert ValidAt(w, s, root, LIMIT + 1 - depth);
  }

  lemma ReferenceAllows(s: Value, target: Value, w: Value, root: Value, depth: nat)
    requires s.Obj? && Has(s.members, "$ref") && Target(Get(s.members, "$ref").value, root) == Success(target)
    requires ValidBelow(w, target, root, depth + 1)
    ensures ValidBelow(w, s, root, depth)
  {
    var n: nat :| n + (depth + 1) == LIMIT + 1 && ValidAt(w, target, root, n);
    assert ValidAt(w, s, root, n + 1);
  }

  lemma VisitedChoices(schema: seq<Member>)
    requires CombinatorsOffer(schema)
    ensures Has(schema, "oneOf") ==> ListOf(schema, "oneOf").value[0] in ChoicesOf(schema)
    ensures Has(schema, "anyOf") ==> ListOf(schema, "anyOf").value[0] in ChoicesOf(schema)
    ensures ListOf(schema, "allOf").Success? && forall c <- ListOf(schema, "allOf").value :: c in ChoicesOf(schema)
  {
    var one, some := ChoicesUnder(schema, "oneOf"), ChoicesUnder(schema, "anyOf");
    if Has(schema, "oneOf") {
      assert ChoicesOf(schema)[0] == ListOf(schema, "oneOf").value[0];
    }
    if Has(schema, "anyOf") {
      assert ChoicesOf(schema)[|one|] == ListOf(schema, "anyOf").value[0];
    }
    var all := ListOf(schema, "allOf").value;
    forall c | c in all ensures c in ChoicesOf(schema) {
      var i :| 0 <= i < |all| && all[i] == c;
      assert ChoicesOf(schema)[|one| + |some| + i] == c;
    }
  }

  lemma FirstAllows(schema: seq<Member>, keyword: string, w: Value, root: Value, n: nat)
    requires ListOf(schema, keyword).Success? && ListOf(schema, keyword).value != []
    requires ValidAt(w, ListOf(schema, keyword).value[0], root, n)
    ensures SomeAllows(schema, keyword, w, root, n)
  {
    assert ListOf(schema, keyword).value[0] in ListOf(schema, keyword).value;
  }

  /** Every visited alternative allows the value. */
  ghost predicate ChoicesAllow(schema: seq<Member>, w: Value, root: Value, depth: nat) {
    forall c <- ChoicesOf(schema) :: ValidBelow(w, c, root, depth + 1)
  }

  /** Then all three combinators do. */
  lemma VisitedAllow(schema: seq<Member>, w: Value, root: Value, depth: nat)
    requires depth <= LIMIT && CombinatorsOffer(schema) && ChoicesAllow(schema, w, root, depth)
    ensures CombinatorsAllow(schema, w, root, LIMIT - depth)
  {
    forall c <- ChoicesOf(schema) ensures ValidAt(w, c, root, LIMIT - depth) {
      assert ValidBelow(w, c, root, depth + 1);
    }
    VisitedAllowAt(schema, w, root, LIMIT - depth);
  }

  lemma VisitedAllowAt(schema: seq<Member>, w: Value, root: Value, n: nat)
    requires CombinatorsOffer(schema) && forall c <- ChoicesOf(schema) :: ValidAt(w, c, root, n)
    ensures CombinatorsAllow(schema, w, root, n)
  {
    VisitedChoices(schema);
    if Has(schema, "oneOf") {
      FirstAllows(schema, "oneOf", w, root, n);
    }
    if Has(schema, "anyOf") {
      FirstAllows(schema, "anyOf", w, root, n);
    }
  }

  /** A value that is no dict meets the keywords of dicts, and no combinator restricts it. */
  lemma PlainAllowed(schema: seq<Member>, v: Value, root: Value, n: nat)
    requires NoCombinators(schema) && !v.Obj?
    ensures PropertiesAllow(schema, v, root, n) && CombinatorsAllow(schema, v, root, n)
  {
  }

  lemma ValidParts(s: Value, v: Value, root: Value, n: nat)
    requires s.Obj? && !Has(s.members, "$ref")
    requires TypeAllows(s.members, v) && EnumAllows(s.members, v) && BoundsAllow(s.members, v)
    requires ItemsAllow(s.members, v, root, n) && PropertiesAllow(s.members, v, root, n)
    requires CombinatorsAllow(s.members, v, root, n)
    ensures ValidAt(v, s, root, n + 1)
  {
  }

  /** The same, for the height that is left. */
  lemma PartsBelow(s: Value, v: Value, root: Value, depth: nat)
    requires depth <= LIMIT && s.Obj? && !Has(s.members, "$ref")
    requires TypeAllows(s.members, v) && EnumAllows(s.members, v) && BoundsAllow(s.members, v)
    requires ItemsAllow(s.members, v, root, LIMIT - depth) && PropertiesAllow(s.members, v, root, LIMIT - depth)
    requires CombinatorsAllow(s.members, v, root, LIMIT - depth)
    ensures ValidBelow(v, s, root, depth)
  {
    ValidParts(s, v, root, LIMIT - depth);
    assert (LIMIT - depth + 1) + depth == LIMIT + 1;
  }

  lemma EnumIsValid(s: Value, w: Value, plan: Plan, root: Value, depth: nat)
    requires Shaped(plan, root) && s in plan.names && SampleOf(s, root, depth).Success?
    requires s.Obj? && !Has(s.members, "$ref") && Has(s.members, "enum")
    requires Agrees(SampleOf(s, root, depth).value, w, plan.names[s].possible)
    ensures depth <= LIMIT && ValidBelow(w, s, root, depth)
  {
    assert Fits(s, plan, root);
    EnumAllowed(s, w, root, depth);
  }

  lemma EnumAllowed(s: Value, w: Value, root: Value, depth: nat)
    requires depth <= LIMIT && s.Obj? && !Has(s.members, "$ref") && Has(s.members, "enum") && EnumFits(s.members)
    requires SampleOf(s, root, depth) == Success(w)
    ensures ValidBelow(w, s, root, depth)
  {
    PlainAllowed(s.members, w, root, LIMIT - depth);
    PartsBelow(s, w, root, depth);
  }

  lemma KindMatches(schema: seq<Member>, v: Value)
    requires KindOf(schema).Success? && KindOf(schema).value != ""
    requires TypeMatches(Str(KindOf(schema).value), v)
    ensures TypeAllows(schema, v)
  {
  }

  lemma ScalarIsValid(s: Value, root: Value, depth: nat)
    requires depth <= LIMIT && SampleOf(s, root, depth).Success?
    requires s.Obj? && !Has(s.members, "$ref") && !Has(s.members, "enum") && NoCombinators(s.members)
    requires KindOf(s.members).Success? && KindOf(s.members).value in SCALARS
    ensures ValidBelow(SampleOf(s, root, depth).value, s, root, depth)
  {
    var v := SampleOf(s, root, depth).value;
    KindMatches(s.members, v);
    PlainAllowed(s.members, v, root, LIMIT - depth);
    PartsBelow(s, v, root, depth);
  }

  lemma {:induction false} ArrayIsValid(s: Value, plan: Plan, root: Value, depth: nat)
    requires Supported(plan, root) && s in plan.names && depth <= LIMIT && SampleOf(s, root, depth).Success?
    requires s.Obj? && !Has(s.members, "$ref") && !Has(s.members, "enum") && NoCombinators(s.members)
    requires KindOf(s.members) == Success("array")
    requires Has(s.members, "items") ==> Get(s.members, "items").value in plan.names
    ensures ValidBelow(SampleOf(s, root, depth).value, s, root, depth)
    decreases LIMIT + 1 - depth, 0
  {
    var v := SampleOf(s, root, depth).value;
    ArrayParts(s, root, depth);
    if Has(s.members, "items") && v.items != [] {
      SampleIsValid(ItemsOf(s.members), v.items[0], plan, root, depth + 1);
    }
    ArrayAllowed(s, v, root, depth);
  }

  /** An array sample holds copies of its item's sample, as many as asked for. */
  lemma ArrayParts(s: Value, root: Value, depth: nat)
    requires depth <= LIMIT && SampleOf(s, root, depth).Success?
    requires s.Obj? && !Has(s.members, "$ref") && !Has(s.members, "enum") && KindOf(s.members) == Success("array")
    ensures
      var v := SampleOf(s, root, depth).value;
      && v.Arr? && TypeAllows(s.members, v) && BoundsAllow(s.members, v)
      && forall item <- v.items :: item == v.items[0] && SampleOf(ItemsOf(s.members), root, depth + 1) == Success(item)
  {
    KindMatches(s.members, SampleOf(s, root, depth).value);
  }

  lemma ArrayAllowed(s: Value, v: Value, root: Value, depth: nat)
    requires s.Obj? && !Has(s.members, "$ref") && !Has(s.members, "enum") && NoCombinators(s.members) && v.Arr?
    requires depth <= LIMIT && TypeAllows(s.members, v) && BoundsAllow(s.members, v)
    requires Has(s.members, "items") ==> forall item <- v.items :: ValidBelow(item, ItemsOf(s.members), root, depth + 1)
    ensures ValidBelow(v, s, root, depth)
  {
    PlainAllowed(s.members, v, root, LIMIT - depth);
    PartsBelow(s, v, root, depth);
  }

  lemma {:induction false} UnionIsValid(s: Value, w: Value, plan: Plan, root: Value, depth: nat)
    requires Supported(plan, root) && s in plan.names && depth <= LIMIT && SampleOf(s, root, depth).Success?
    requires ObjectSchema(s) && UnionFits(s, plan)
    requires Agrees(SampleOf(s, root, depth).value, w, plan.names[s].possible)
    ensures ValidBelow(w, s, root, depth)
    decreases LIMIT + 1 - depth, 0
  {
    var c := UnionSample(s, root, depth);
    SampleIsWellShaped(c, plan, root, depth + 1);
    UnionAgrees(SampleOf(c, root, depth + 1).value, w, plan.names[c].possible, plan.names[s].possible);
    SampleIsValid(c, w, plan, root, depth + 1);
    UnionAllows(s, w, root, depth);
  }

  lemma UnionAgrees(child: Value, w: Value, inner: set<string>, outer: set<string>)
    requires inner <= outer && (child.Obj? ==> Distinct(child.members))
    requires Agrees(if child.Obj? then Obj(Update([], child.members)) else child, w, outer)
    ensures Agrees(child, w, inner)
  {
    if child.Obj? {
      forall key <- inner ensures Get(w.members, key) == Get(child.members, key) {
        GetUpdate([], child.members, key);
      }
    }
  }

  /** A schema with nothing but alternatives allows what those visited allow. */
  lemma UnionAllows(s: Value, w: Value, root: Value, depth: nat)
    requires s.Obj? && !Has(s.members, "$ref") && !Has(s.members, "enum") && !Has(s.members, "type") && depth <= LIMIT
    requires !Has(s.members, "properties") && !Has(s.members, "required") && NoBounds(s.members)
    requires CombinatorsOffer(s.members) && ChoicesAllow(s.members, w, root, depth)
    ensures ValidBelow(w, s, root, depth)
  {
    VisitedAllow(s.members, w, root, depth);
    PartsBelow(s, w, root, depth);
  }

  // ----- Merged objects

  /** No other alternative than this one gives the name. */
  lemma OthersLack(choices: seq<Value>, i: nat, key: string, plan: Plan, root: Value, depth: nat)
    requires (forall c <- choices :: c in plan.names) && Disjoint(choices, plan) && ChoicesFit(choices, plan, root, depth)
    requires i < |choices| && key in plan.names[choices[i]].possible
    ensures forall j :: 0 <= j < |choices| && j != i ==> !Has(SampleMembers(choices[j], root, depth), key)
  {
    forall j | 0 <= j < |choices| && j != i ensures !Has(SampleMembers(choices[j], root, depth), key) {
      assert ChoiceFits(choices[j], plan, root, depth);
      if j < i {
        assert plan.names[choices[j]].possible !! plan.names[choices[i]].possible;
      } else {
        assert plan.names[choices[i]].possible !! plan.names[choices[j]].possible;
      }
    }
  }

  /** In a merged object, an alternative's names keep that alternative's values. */
  lemma MergedAgrees(s: Value, i: nat, key: string, plan: Plan, root: Value, depth: nat, own: seq<Member>,
          merged: Merged)
    requires s.Obj? && s in plan.names && depth <= LIMIT && MergeFits(s, plan)
    requires PartsAre(s, root, depth, own, merged) && merged.Dict?
    requires ChoicesFit(ChoicesOf(s.members), plan, root, depth)
    requires i < |ChoicesOf(s.members)| && key in plan.names[ChoicesOf(s.members)[i]].possible
    ensures Get(merged.members, key) == Get(SampleMembers(ChoicesOf(s.members)[i], root, depth), key)
  {
    var choices := ChoicesOf(s.members);
    OthersLack(choices, i, key, plan, root, depth);
    MergeKeeps(choices, own, false, root, depth, key);
    if !Has(SampleMembers(choices[i], root, depth), key) {
      assert NoneHas(choices, root, depth, key);
      OwnLacks(s, i, key, plan, root, depth, own, merged);
    }
  }

  /** A name of an alternative is none of the object's own. */
  lemma OwnLacks(s: Value, i: nat, key: string, plan: Plan, root: Value, depth: nat, own: seq<Member>, merged: Merged)
    requires s.Obj? && s in plan.names && depth <= LIMIT && MergeFits(s, plan)
    requires PartsAre(s, root, depth, own, merged)
    requires i < |ChoicesOf(s.members)| && key in plan.names[ChoicesOf(s.members)[i]].possible
    ensures !Has(own, key)
  {
    assert ChoicesOf(s.members)[i] in ChoicesOf(s.members);
    OwnMembersAre(ListOf(s.members, "required").value, DictOf(s.members, "properties").value, [], root, depth, key);
  }

  /** A declared property of a merged object is the object's own. */
  lemma OwnedAgrees(s: Value, key: string, plan: Plan, root: Value, depth: nat, own: seq<Member>, merged: Merged)
    requires s.Obj? && s in plan.names && depth <= LIMIT && MergeFits(s, plan)
    requires PartsAre(s, root, depth, own, merged) && merged.Dict?
    requires ChoicesFit(ChoicesOf(s.members), plan, root, depth)
    requires Has(DictOf(s.members, "properties").value, key)
    ensures Get(merged.members, key) ==
            if Str(key) in ListOf(s.members, "required").value
            then PropertySample(DictOf(s.members, "properties").value, key, root, depth) else None
    ensures Str(key) in ListOf(s.members, "required").value ==> Has(merged.members, key)
  {
    var choices := ChoicesOf(s.members);
    forall j | 0 <= j < |choices| ensures !Has(SampleMembers(choices[j], root, depth), key) {
      assert choices[j] in choices && ChoiceFits(choices[j], plan, root, depth);
    }
    MergeKeeps(choices, own, false, root, depth, key);
    OwnMembersAre(ListOf(s.members, "required").value, DictOf(s.members, "properties").value, [], root, depth, key);
  }

  /** A listed object schema that merges, and its sample, a dict. */
  ghost predicate Merges(s: Value, plan: Plan, root: Value, depth: nat) {
    && Shaped(plan, root) && s in plan.names && depth <= LIMIT
    && ObjectSchema(s) && MergeFits(s, plan)
    && SampleOf(s, root, depth).Success? && SampleOf(s, root, depth).value.Obj?
  }

  /** The parts of such a sample. */
  lemma MergedParts(s: Value, plan: Plan, root: Value, depth: nat) returns (own: seq<Member>, merged: Merged)
    requires Merges(s, plan, root, depth)
    ensures PartsAre(s, root, depth, own, merged) && merged.Dict? && SampleOf(s, root, depth).value == Obj(merged.members)
    ensures ChoicesFit(ChoicesOf(s.members), plan, root, depth)
  {
    own, merged := ObjectParts(s, root, depth);
    ChoicesAreDicts(ChoicesOf(s.members), own, false, plan, root, depth);
    MergeKeeps(ChoicesOf(s.members), own, false, root, depth, "");
  }

  /** What a value agreeing with a merged sample has under a declared name. */
  lemma MergedProperty(s: Value, w: Value, name: string, plan: Plan, root: Value, depth: nat)
    requires Merges(s, plan, root, depth)
    requires Agrees(SampleOf(s, root, depth).value, w, plan.names[s].possible)
    requires Has(DictOf(s.members, "properties").value, name)
    ensures Has(w.members, name) ==>
      && Str(name) in ListOf(s.members, "required").value
      && Some(Get(w.members, name).value) == PropertySample(DictOf(s.members, "properties").value, name, root, depth)
  {
    var own, merged := MergedParts(s, plan, root, depth);
    OwnedAgrees(s, name, plan, root, depth, own, merged);
    assert Get(w.members, name) == Get(merged.members, name);
  }

  /** A value that agrees with the sample of a dict has the required names exactly when they are certain. */
  lemma RequiredExactly(s: Value, w: Value, plan: Plan, root: Value, depth: nat)
    requires Merges(s, plan, root, depth)
    requires Agrees(SampleOf(s, root, depth).value, w, plan.names[s].possible)
    ensures RequiredAllows(s.members, w.members) || !RequiredCertain(s, plan)
    ensures w == SampleOf(s, root, depth).value && RequiredAllows(s.members, w.members) ==> RequiredCertain(s, plan)
  {
    SampleIsWellShaped(s, plan, root, depth);
    assert Fits(s, plan, root);
    var own, merged := MergedParts(s, plan, root, depth);
    DictIsGiven(s, root, depth, own, merged);
    forall name: string | name in plan.names[s].certain ensures Has(w.members, name) {
      assert Has(SampleOf(s, root, depth).value.members, name);
    }
  }

  /** Only a schema that gives a dict has one as its sample. */
  lemma DictIsGiven(s: Value, root: Value, depth: nat, own: seq<Member>, merged: Merged)
    requires depth <= LIMIT && ObjectSchema(s) && PartsAre(s, root, depth, own, merged)
    requires merged.Dict? && SampleOf(s, root, depth) == Success(Obj(merged.members))
    ensures GivesDict(s.members)
  {
    if ChoicesOf(s.members) == [] && !Has(s.members, "properties") {
      NothingDeclared(ListOf(s.members, "required").value, [], root, depth);
      assert merged == Dict(own, false);
    }
  }

  lemma {:induction false} NothingDeclared(required: seq<Value>, result: seq<Member>, root: Value, depth: nat)
    requires depth <= LIMIT && OwnMembers(required, [], result, root, depth).Success?
    ensures OwnMembers(required, [], result, root, depth) == Success(result)
    decreases |required|
  {
    if required != [] {
      NothingDeclared(required[1..], result, root, depth);
    }
  }

  /** The declared properties that the object has allow their values. */
  ghost predicate ValuesAllowed(properties: seq<Member>, w: seq<Member>, root: Value, depth: nat) {
    forall name :: Has(properties, name) && Has(w, name) ==>
      ValidBelow(Get(w, name).value, Get(properties, name).value, root, depth + 1)
  }

  lemma {:induction false} MergedPropertiesAllow(s: Value, w: Value, plan: Plan, root: Value, depth: nat)
    requires Supported(plan, root) && Merges(s, plan, root, depth)
    requires Agrees(SampleOf(s, root, depth).value, w, plan.names[s].possible)
    ensures RequiredAllows(s.members, w.members)
    ensures ValuesAllowed(DictOf(s.members, "properties").value, w.members, root, depth)
    decreases LIMIT + 1 - depth, 0
  {
    var properties := DictOf(s.members, "properties").value;
    forall name | Has(properties, name) && Has(w.members, name)
      ensures ValidBelow(Get(w.members, name).value, Get(properties, name).value, root, depth + 1)
    {
      MergedProperty(s, w, name, plan, root, depth);
      assert Str(name) in ListOf(s.members, "required").value;
      SampleIsValid(Get(properties, name).value, Get(w.members, name).value, plan, root, depth + 1);
    }
    assert RequiredCertain(s, plan);
    RequiredExactly(s, w, plan, root, depth);
  }

  lemma MergedChoiceAgrees(s: Value, i: nat, w: Value, plan: Plan, root: Value, depth: nat)
    requires Merges(s, plan, root, depth) && i < |ChoicesOf(s.members)|
    requires Agrees(SampleOf(s, root, depth).value, w, plan.names[s].possible)
    ensures ChoicesOf(s.members)[i] in plan.names && IsDict(ChoicesOf(s.members)[i], root, depth)
    ensures Agrees(SampleOf(ChoicesOf(s.members)[i], root, depth + 1).value, w, plan.names[ChoicesOf(s.members)[i]].possible)
  {
    var choices := ChoicesOf(s.members);
    var own, merged := MergedParts(s, plan, root, depth);
    assert choices[i] in choices && IsDict(choices[i], root, depth);
    forall key | key in plan.names[choices[i]].possible
      ensures Get(w.members, key) == Get(SampleMembers(choices[i], root, depth), key)
    {
      MergedAgrees(s, i, key, plan, root, depth, own, merged);
    }
  }

  lemma {:induction false} MergedChoicesAllow(s: Value, w: Value, plan: Plan, root: Value, depth: nat)
    requires Supported(plan, root) && Merges(s, plan, root, depth)
    requires Agrees(SampleOf(s, root, depth).value, w, plan.names[s].possible)
    ensures ChoicesAllow(s.members, w, root, depth)
    decreases LIMIT + 1 - depth, 1
  {
    forall c | c in ChoicesOf(s.members) ensures AgreesWith(c, w, plan, root, depth + 1) {
      var i :| 0 <= i < |ChoicesOf(s.members)| && ChoicesOf(s.members)[i] == c;
      MergedChoiceAgrees(s, i, w, plan, root, depth);
    }
    AgreeingAllow(ChoicesOf(s.members), w, plan, root, depth);
  }

  /** The value agrees with the sample of a listed schema. */
  ghost predicate AgreesWith(c: Value, w: Value, plan: Plan, root: Value, depth: nat) {
    c in plan.names && SampleOf(c, root, depth).Success? && Agrees(SampleOf(c, root, depth).value, w, plan.names[c].possible)
  }

  lemma {:induction false} AgreeingAllow(choices: seq<Value>, w: Value, plan: Plan, root: Value, depth: nat)
    requires Supported(plan, root) && depth <= LIMIT && forall c <- choices :: AgreesWith(c, w, plan, root, depth + 1)
    ensures forall c <- choices :: ValidBelow(w, c, root, depth + 1)
    decreases LIMIT + 1 - depth, 0
  {
    forall c | c in choices ensures ValidBelow(w, c, root, depth + 1) {
      SampleIsValid(c, w, plan, root, depth + 1);
    }
  }

  lemma {:induction false} MergeIsValid(s: Value, w: Value, plan: Plan, root: Value, depth: nat)
    requires Supported(plan, root) && s in plan.names && depth <= LIMIT && SampleOf(s, root, depth).Success?
    requires ObjectSchema(s) && MergeFits(s, plan) && (KindOf(s.members).value == "object" || !Has(s.members, "type"))
    requires Agrees(SampleOf(s, root, depth).value, w, plan.names[s].possible)
    ensures ValidBelow(w, s, root, depth)
    decreases LIMIT + 1 - depth, 2
  {
    if SampleOf(s, root, depth).value.Obj? {
      MergedPropertiesAllow(s, w, plan, root, depth);
      MergedChoicesAllow(s, w, plan, root, depth);
      ObjectAllowed(s, w, root, depth);
    } else {
      NothingMerged(s, plan, root, depth);
      NullAllowed(s, root, depth);
    }
  }

  lemma ObjectAllowed(s: Value, w: Value, root: Value, depth: nat)
    requires ObjectSchema(s) && (KindOf(s.members).value == "object" || !Has(s.members, "type")) && w.Obj?
    requires depth <= LIMIT && CombinatorsOffer(s.members) && ChoicesAllow(s.members, w, root, depth)
    requires DictOf(s.members, "properties").Success? && RequiredAllows(s.members, w.members)
    requires ValuesAllowed(DictOf(s.members, "properties").value, w.members, root, depth)
    ensures ValidBelow(w, s, root, depth)
  {
    if Has(s.members, "type") {
      KindMatches(s.members, w);
    }
    VisitedAllow(s.members, w, root, depth);
    PartsBelow(s, w, root, depth);
  }

  lemma NullAllowed(s: Value, root: Value, depth: nat)
    requires ObjectSchema(s) && !Has(s.members, "type") && !GivesDict(s.members) && CombinatorsOffer(s.members) && depth <= LIMIT
    ensures ValidBelow(Null, s, root, depth)
  {
    VisitedAllow(s.members, Null, root, depth);
    PartsBelow(s, Null, root, depth);
  }

  /** Only a schema without properties and alternatives has a sample that is no dict. */
  lemma NothingMerged(s: Value, plan: Plan, root: Value, depth: nat)
    requires Shaped(plan, root) && s in plan.names && depth <= LIMIT && SampleOf(s, root, depth).Success?
    requires ObjectSchema(s) && MergeFits(s, plan) && !SampleOf(s, root, depth).value.Obj?
    ensures SampleOf(s, root, depth).value == Null && !GivesDict(s.members)
  {
    var own, merged := ObjectParts(s, root, depth);
    ChoicesAreDicts(ChoicesOf(s.members), own, false, plan, root, depth);
    MergeKeeps(ChoicesOf(s.members), own, false, root, depth, "");
  }

  /** Whenever `sample` returns for a schema in the supported fragment, the value validates. */
  lemma SampleValidates(s: Value, plan: Plan, root: Value)
    requires Supported(plan, root) && s in plan.names && SampleOf(s, root, 0).Success?
    ensures Valid(SampleOf(s, root, 0).value, s, root)
  {
    SampleIsValid(s, SampleOf(s, root, 0).value, plan, root, 0);
    assert ValidBelow(SampleOf(s, root, 0).value, s, root, 0);
  }

  // ----- Required names

  /** A merged object whose required names are not all certain has a sample that does not validate. */
  lemma UncertainIsInvalid(s: Value, plan: Plan, root: Value)
    requires Shaped(plan, root) && s in plan.names && ObjectSchema(s) && MergeFits(s, plan)
    requires SampleOf(s, root, 0).Success? && !RequiredCertain(s, plan)
    ensures !Valid(SampleOf(s, root, 0).value, s, root)
  {
    var v := SampleOf(s, root, 0).value;
    if v.Obj? {
      RequiredExactly(s, v, plan, root, 0);
    } else {
      NothingMerged(s, plan, root, 0);
    }
    forall n: nat ensures !ValidAt(v, s, root, n) {
    }
  }

  /** The sample of an object schema validates exactly when each of its required names is declared or certain
      from a visited alternative; the other schemas of the plan are taken to meet that condition. */
  lemma SampleValidatesExactly(s: Value, plan: Plan, root: Value)
    requires Shaped(plan, root) && s in plan.names && ObjectSchema(s) && MergeFits(s, plan)
    requires forall t <- plan.names :: t != s ==> RequiredCertain(t, plan)
    requires SampleOf(s, root, 0).Success?
    ensures Valid(SampleOf(s, root, 0).value, s, root) <==> RequiredCertain(s, plan)
  {
    if RequiredCertain(s, plan) {
      SampleValidates(s, plan, root);
    } else {
      UncertainIsInvalid(s, plan, root);
    }
  }

  lemma {:induction false} OwnMembersDeclared(required: seq<Value>, properties: seq<Member>, result: seq<Member>,
          root: Value, depth: nat, key: string)
    requires depth <= LIMIT && OwnMembers(required, properties, result, root, depth).Success?
    ensures Has(OwnMembers(required, properties, result, root, depth).value, key) ==> Has(result, key) || Has(properties, key)
    decreases |required|
  {
    if required != [] {
      if required[0].Str? && Has(properties, required[0].s) {
        var name := required[0].s;
        var value := SampleOf(Get(properties, name).value, root, depth + 1).value;
        GetPut(result, name, value, key);
        OwnMembersDeclared(required[1..], properties, Put(result, name, value), root, depth, key);
      } else {
        OwnMembersDeclared(required[1..], properties, result, root, depth, key);
      }
    }
  }

  /** Of an object without combinators, in the fragment or not, a required name that is not declared is left
      out of the sample, which then does not validate. */
  lemma UndeclaredIsOmitted(s: Value, root: Value, name: string)
    requires s.Obj? && !Has(s.members, "$ref") && !Has(s.members, "enum") && NoCombinators(s.members)
    requires KindOf(s.members) == Success("object") && SampleOf(s, root, 0).Success?
    requires Str(name) in ListOf(s.members, "required").value && !Has(DictOf(s.members, "properties").value, name)
    ensures !Valid(SampleOf(s, root, 0).value, s, root)
  {
    var own, merged := ObjectParts(s, root, 0);
    OwnMembersDeclared(ListOf(s.members, "required").value, DictOf(s.members, "properties").value, [], root, 0, name);
    assert ChoicesOf(s.members) == [];
    var v := SampleOf(s, root, 0).value;
    assert v == Obj(own) && !Has(own, name);
    assert !RequiredAllows(s.members, own);
    forall n: nat ensures !ValidAt(v, s, root, n) {
    }
  }
}
