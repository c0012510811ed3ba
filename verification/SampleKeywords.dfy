/** What `sample` of scripts/codex/generate_fixtures.py gives for each keyword: the least value that the lower bounds
    allow, the first of an enumeration, and which alternatives are visited. */
module SampleKeywords {
  import opened Wrappers
  import opened Json
  import opened JsonPointer
  import opened SampleSchema

  /** A dict that goes by its type, which is this. */
  predicate Typed(s: Value, kind: string) {
    s.Obj? && !Has(s.members, "$ref") && !Has(s.members, "enum") && Get(s.members, "type") == Some(Str(kind))
  }

  /** The keyword is absent or this integer. */
  predicate Bounds(s: Value, keyword: string, n: int)
    requires s.Obj?
  {
    match Get(s.members, keyword)
    case None => n == 0
    case Some(value) => value == Number(n as real)
  }

  /** A text is "fixture" and as many letters x as the length bound asks for, and no longer. */
  lemma TextIsLeast(s: Value, root: Value, depth: nat, n: int)
    requires Typed(s, "string") && Bounds(s, "minLength", n) && depth <= 64
    ensures
      var r := SampleOf(s, root, depth);
      && r.Success? && r.value.Str? && "fixture" <= r.value.s && |r.value.s| == (if n > 7 then n else 7)
      && forall i :: 7 <= i < |r.value.s| ==> r.value.s[i] == 'x'
  {
  }

  lemma CeilingIsLeast(bound: real, j: int)
    ensures bound <= j as real <==> Ceiling(bound) <= j
  {
  }

  /** This is the least of the natural numbers that the bound allows. */
  ghost predicate IsLeast(s: Value, k: nat)
    requires s.Obj?
  {
    Allows(s, k) && forall j: nat :: Allows(s, j) ==> k <= j
  }

  /** A number is the least integer that is neither negative nor below the bound. */
  lemma NumberIsLeast(s: Value, root: Value, depth: nat, kind: string)
    requires kind == "integer" || kind == "number"
    requires Typed(s, kind) && depth <= 64
    requires Has(s.members, "minimum") ==> Get(s.members, "minimum").value.Number?
    ensures exists k: nat :: IsLeast(s, k) && SampleOf(s, root, depth) == Success(Number(k as real))
  {
    if Has(s.members, "minimum") {
      var bound := Get(s.members, "minimum").value.n;
      var k: nat := if Ceiling(bound) > 0 then Ceiling(bound) else 0;
      CeilingIsLeast(bound, k);
      forall j: nat | Allows(s, j) ensures k <= j {
        CeilingIsLeast(bound, j);
      }
      assert IsLeast(s, k) && SampleOf(s, root, depth) == Success(Number(k as real));
    } else {
      var k: nat := 0;
      assert IsLeast(s, k) && SampleOf(s, root, depth) == Success(Number(k as real));
    }
  }

  predicate Allows(s: Value, k: nat)
    requires s.Obj?
  {
    match Get(s.members, "minimum") case Some(Number(bound)) => bound <= k as real case _ => true
  }

  /** An array has as many items as the bound asks for, and each is the sample of `items`. */
  lemma ArrayIsLeast(s: Value, root: Value, depth: nat, n: int)
    requires Typed(s, "array") && Bounds(s, "minItems", n) && depth <= 64 && SampleOf(s, root, depth).Success?
    ensures
      var v := SampleOf(s, root, depth).value;
      && v.Arr? && |v.items| == (if n > 0 then n else 0)
      && forall item <- v.items ::
          SampleOf(if Has(s.members, "items") then Get(s.members, "items").value else Bool(true), root, depth + 1)
          == Success(item)
  {
  }

  lemma ScalarsAre(s: Value, root: Value, depth: nat)
    requires depth <= 64
    ensures Typed(s, "null") ==> SampleOf(s, root, depth) == Success(Null)
    ensures Typed(s, "boolean") ==> SampleOf(s, root, depth) == Success(Bool(false))
    ensures SampleOf(Bool(true), root, depth) == Success(Null) && SampleOf(Bool(false), root, depth) == Failure
  {
  }

  /** The same schema with another type. */
  lemma Retyped(members: seq<Member>, kind: string)
    ensures
      var t := Put(members, "type", Str(kind));
      && Has(t, "$ref") == Has(members, "$ref") && Has(t, "enum") == Has(members, "enum")
      && KindOf(t) == Success(kind) && IntegerOf(t, "minLength") == IntegerOf(members, "minLength")
      && IntegerOf(t, "minItems") == IntegerOf(members, "minItems")
      && ItemsOf(t) == ItemsOf(members) && NumberSample(t) == NumberSample(members)
  {
    GetPut(members, "type", Str(kind), "$ref");
    GetPut(members, "type", Str(kind), "enum");
    GetPut(members, "type", Str(kind), "type");
    GetPut(members, "type", Str(kind), "minLength");
    GetPut(members, "type", Str(kind), "minItems");
    GetPut(members, "type", Str(kind), "minimum");
    GetPut(members, "type", Str(kind), "items");
  }

  /** A list of types: null if it is among them, and otherwise as if the first were the only one. */
  lemma TypeListIs(s: Value, kinds: seq<Value>, root: Value, depth: nat)
    requires s.Obj? && !Has(s.members, "$ref") && !Has(s.members, "enum") && depth <= 64
    requires Get(s.members, "type") == Some(Arr(kinds)) && kinds != [] && kinds[0].Str?
    ensures Str("null") in kinds ==> SampleOf(s, root, depth) == Success(Null)
    ensures Str("null") !in kinds && kinds[0].s in ["boolean", "string", "integer", "number", "array"] ==>
      SampleOf(s, root, depth) == SampleOf(Obj(Put(s.members, "type", kinds[0])), root, depth)
  {
    var t := Obj(Put(s.members, "type", kinds[0]));
    if Str("null") !in kinds {
      Retyped(s.members, kinds[0].s);
      assert KindOf(s.members) == Success(kinds[0].s);
    }
  }

  /** The first of an enumeration, whatever else the schema says. */
  lemma EnumIsFirst(s: Value, items: seq<Value>, root: Value, depth: nat)
    requires s.Obj? && !Has(s.members, "$ref") && Get(s.members, "enum") == Some(Arr(items)) && depth <= 64
    ensures SampleOf(s, root, depth) == if items == [] then Failure else Success(items[0])
  {
  }

  /** A reference comes before everything else, and the nesting has a limit. */
  lemma ReferenceIsFollowed(s: Value, text: string, root: Value, depth: nat)
    requires s.Obj? && Get(s.members, "$ref") == Some(Str(text)) && text != ""
    ensures SampleOf(s, root, depth) ==
      if depth > 64 || Follow(root, Keys(text[1..])).Failure? then Failure
      else SampleOf(Follow(root, Keys(text[1..])).value, root, depth + 1)
  {
  }

  lemma DepthIsLimited(s: Value, root: Value)
    ensures SampleOf(s, root, 65) == Failure
  {
  }

  /** The first alternative of `oneOf` and of `anyOf` and all of `allOf`, in this order. */
  lemma VisitedAre(members: seq<Member>, one: seq<Value>, some: seq<Value>, all: seq<Value>)
    requires Get(members, "oneOf") == Some(Arr(one)) || (!Has(members, "oneOf") && one == [])
    requires Get(members, "anyOf") == Some(Arr(some)) || (!Has(members, "anyOf") && some == [])
    requires Get(members, "allOf") == Some(Arr(all)) || (!Has(members, "allOf") && all == [])
    ensures ChoicesOf(members) ==
      (if one == [] then [] else [one[0]]) + (if some == [] then [] else [some[0]]) + all
  {
    assert one != [] ==> one[..1] == [one[0]];
    assert some != [] ==> some[..1] == [some[0]];
  }

  /** Without a required sample of its own, an object takes a first alternative that is no dict as it is. */
  lemma PlainIsTaken(s: Value, root: Value, depth: nat)
    requires Typed(s, "object") && depth <= 64 && !Has(s.members, "required") && !Has(s.members, "properties")
    requires ChoicesOf(s.members) != [] && SampleOf(ChoicesOf(s.members)[0], root, depth + 1).Success?
    requires !SampleOf(ChoicesOf(s.members)[0], root, depth + 1).value.Obj?
    ensures SampleOf(s, root, depth) == SampleOf(ChoicesOf(s.members)[0], root, depth + 1)
  {
    var choices := ChoicesOf(s.members);
    assert OwnMembers([], [], [], root, depth) == Success([]);
    assert MergeChoices(choices, [], false, root, depth) == Success(Plain(SampleOf(choices[0], root, depth + 1).value));
  }

  /** A schema without alternatives and required names is a dict when its type says so or it declares properties, and
      otherwise null. */
  lemma BareIsDict(s: Value, root: Value, depth: nat)
    requires s.Obj? && !Has(s.members, "$ref") && !Has(s.members, "enum") && depth <= 64
    requires !Has(s.members, "required") && ChoicesOf(s.members) == [] && DictOf(s.members, "properties").Success?
    requires Get(s.members, "type") == Some(Str("object")) || !Has(s.members, "type")
    ensures SampleOf(s, root, depth) ==
      Success(if Has(s.members, "type") || Has(s.members, "properties") then Obj([]) else Null)
  {
    assert OwnMembers([], DictOf(s.members, "properties").value, [], root, depth) == Success([]);
    assert MergeChoices([], [], false, root, depth) == Success(Dict([], false));
  }
}
