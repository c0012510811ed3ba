/** The synthetic instance generator `sample` of scripts/codex/generate_fixtures.py. */
module SampleSchema {
  import opened Wrappers
  import opened Json
  import opened JsonPointer

  const LIMIT := 64

  // ----- Keywords

  function IsIntegral(n: real): bool {
    n == n.Floor as real
  }

  /** `schema.get(name, 0)` where Python needs an integer. */
  function IntegerOf(members: seq<Member>, name: string): Result<int> {
    match Get(members, name)
    case None => Success(0)
    case Some(Number(n)) => if IsIntegral(n) then Success(n.Floor) else Failure
    case Some(_) => Failure
  }

  /** The kind `sample` dispatches on; "" when it is absent or no text. */
  function KindOf(members: seq<Member>): Result<string> {
    match Get(members, "type")
    case Some(Str(kind)) => Success(kind)
    case Some(Arr(kinds)) =>
      if Str("null") in kinds then Success("null")
      else if kinds == [] then Failure
      else Success(match kinds[0] case Str(kind) => kind case _ => "")
    case _ => Success("")
  }

  /** The value of a keyword that must be a list or a dict; nothing when absent. */
  function ListOf(members: seq<Member>, name: string): Result<seq<Value>> {
    match Get(members, name)
    case None => Success([])
    case Some(Arr(items)) => Success(items)
    case Some(_) => Failure
  }

  function DictOf(members: seq<Member>, name: string): Result<seq<Member>> {
    match Get(members, name)
    case None => Success([])
    case Some(Obj(inner)) => Success(inner)
    case Some(_) => Failure
  }

  /** The alternatives `sample` visits under one keyword. A keyword that is no list raises when it is
      reached: `Null` is a schema that always raises. */
  function ChoicesUnder(members: seq<Member>, keyword: string): seq<Value> {
    match ListOf(members, keyword)
    case Failure => [Null]
    case Success(choices) => if keyword == "allOf" || choices == [] then choices else choices[..1]
  }

  function ChoicesOf(members: seq<Member>): seq<Value> {
    ChoicesUnder(members, "oneOf") + ChoicesUnder(members, "anyOf") + ChoicesUnder(members, "allOf")
  }

  function Ceiling(n: real): int {
    -((-n).Floor)
  }

  function Repeated(n: nat, c: char): string {
    seq(n, _ => c)
  }

  // ----- sample

  /** The combinator loop stops early with a plain value, or ends with the merged dict. */
  datatype Merged = Plain(value: Value) | Dict(members: seq<Member>, objectSeen: bool)

  /** What a reference leads to: its text after the first character is a pointer. */
  function Target(reference: Value, root: Value): Result<Value> {
    match reference
    case Str(text) => Follow(root, Keys(if text == "" then "" else text[1..]))
    case _ => Failure
  }

  function SampleOf(schema: Value, root: Value, depth: nat): Result<Value>
    decreases if depth > LIMIT then 0 else LIMIT + 1 - depth, 2, 0
  {
    if depth > LIMIT then Failure
    else match schema
      case Bool(b) => if b then Success(Null) else Failure
      case Obj(members) =>
        if Has(members, "$ref") then
          var target :- Target(Get(members, "$ref").value, root);
          SampleOf(target, root, depth + 1)
        else if Has(members, "enum") then
          match Get(members, "enum").value
          case Arr(items) => if items == [] then Failure else Success(items[0])
          case _ => Failure
        else
          var kind :- KindOf(members);
          if kind == "null" then Success(Null)
          else if kind == "boolean" then Success(Bool(false))
          else if kind == "string" then
            var length :- IntegerOf(members, "minLength");
            Success(Str("fixture" + Repeated(if length > 7 then length - 7 else 0, 'x')))
          else if kind == "integer" || kind == "number" then NumberSample(members)
          else if kind == "array" then ArraySample(members, root, depth)
          else ObjectSample(members, kind, root, depth)
      case _ => Failure
  }

  function Copies(v: Value, n: nat): (vs: seq<Value>)
    ensures |vs| == n && forall i :: 0 <= i < n ==> vs[i] == v
  {
    seq(n, _ => v)
  }

  function NumberSample(members: seq<Member>): Result<Value> {
    match Get(members, "minimum")
    case None => Success(Number(0.0))
    case Some(Number(n)) => Success(Number(if Ceiling(n) > 0 then Ceiling(n) as real else 0.0))
    case Some(_) => Failure
  }

  function ArraySample(members: seq<Member>, root: Value, depth: nat): Result<Value>
    requires depth <= LIMIT
    decreases LIMIT + 1 - depth, 1, 0
  {
    var count :- IntegerOf(members, "minItems");
    if count <= 0 then Success(Arr([]))
    else
      var item :- SampleOf(ItemsOf(members), root, depth + 1);
      Success(Arr(Copies(item, count)))
  }

  function ItemsOf(members: seq<Member>): Value {
    match Get(members, "items") case None => Bool(true) case Some(items) => items
  }

  function ObjectSample(members: seq<Member>, kind: string, root: Value, depth: nat): Result<Value>
    requires depth <= LIMIT
    decreases LIMIT + 1 - depth, 1, 0
  {
    var properties :- DictOf(members, "properties");
    var required :- ListOf(members, "required");
    var own :- OwnMembers(required, properties, [], root, depth);
    var merged :- MergeChoices(ChoicesOf(members), own, false, root, depth);
    match merged
    case Plain(value) => Success(value)
    case Dict(result, objectSeen) =>
      if kind == "object" || Has(members, "properties") || result != [] || objectSeen
      then Success(Obj(result)) else Success(Null)
  }

  /** The dict comprehension over `required`: names that `properties` does not declare are skipped. */
  function OwnMembers(required: seq<Value>, properties: seq<Member>, result: seq<Member>, root: Value,
          depth: nat): Result<seq<Member>>
    requires depth <= LIMIT
    decreases LIMIT + 1 - depth, 0, |required|
  {
    if required == [] then Success(result)
    else match required[0]
      case Str(name) =>
        if Has(properties, name) then
          var value :- SampleOf(Get(properties, name).value, root, depth + 1);
          OwnMembers(required[1..], properties, Put(result, name, value), root, depth)
        else OwnMembers(required[1..], properties, result, root, depth)
      case Arr(_) => Failure
      case Obj(_) => Failure
      case _ => OwnMembers(required[1..], properties, result, root, depth)
  }

  function MergeChoices(choices: seq<Value>, result: seq<Member>, objectSeen: bool, root: Value,
          depth: nat): Result<Merged>
    requires depth <= LIMIT
    decreases LIMIT + 1 - depth, 0, |choices|
  {
    if choices == [] then Success(Dict(result, objectSeen))
    else
      var child :- SampleOf(choices[0], root, depth + 1);
      match child
      case Obj(members) => MergeChoices(choices[1..], Update(result, members), true, root, depth)
      case _ =>
        if result == [] then Success(Plain(child))
        else MergeChoices(choices[1..], result, objectSeen, root, depth)
  }

  // ----- The generator as the source runs it

  const KEYWORDS := ["oneOf", "anyOf", "allOf"]

  /** The alternatives still to visit from the k-th combinator keyword on. */
  function ChoicesFrom(members: seq<Member>, k: nat): seq<Value>
    requires k <= 3
    decreases 3 - k
  {
    if k == 3 then [] else ChoicesUnder(members, KEYWORDS[k]) + ChoicesFrom(members, k + 1)
  }

  lemma AllChoices(members: seq<Member>)
    ensures ChoicesFrom(members, 0) == ChoicesOf(members)
  {
    assert ChoicesFrom(members, 2) == ChoicesUnder(members, "allOf");
    assert ChoicesFrom(members, 1) == ChoicesUnder(members, "anyOf") + ChoicesUnder(members, "allOf");
  }

  method ReadTarget(reference: Value, root: Value) returns (r: Result<Value>)
    ensures r == Target(reference, root)
  {
    if !reference.Str? {
      return Failure;
    }
    var text := reference.s;
    r := Pointer(root, if text == "" then "" else text[1..]);
  }

  method Sample(schema: Value, root: Value, depth: nat) returns (r: Result<Value>)
    ensures r == SampleOf(schema, root, depth)
    decreases if depth > LIMIT then 0 else LIMIT + 1 - depth, 1
  {
    if depth > LIMIT {
      return Failure;
    }
    if schema == Bool(true) {
      return Success(Null);
    }
    if !schema.Obj? {
      return Failure;
    }
    var members := schema.members;
    if Has(members, "$ref") {
      var target := ReadTarget(Get(members, "$ref").value, root);
      if target.Failure? {
        return Failure;
      }
      r := Sample(target.value, root, depth + 1);
      return;
    }
    if Has(members, "enum") {
      var items := Get(members, "enum").value;
      return if items.Arr? && items.items != [] then Success(items.items[0]) else Failure;
    }
    r := SampleTyped(schema, root, depth);
  }

  /** The part of `sample` that goes by the type. */
  method SampleTyped(schema: Value, root: Value, depth: nat) returns (r: Result<Value>)
    requires depth <= LIMIT && schema.Obj? && !Has(schema.members, "$ref") && !Has(schema.members, "enum")
    ensures r == SampleOf(schema, root, depth)
    decreases LIMIT + 1 - depth, 0, 3
  {
    var members := schema.members;
    var kind := KindOf(members);
    if kind.Failure? {
      return Failure;
    }
    match kind.value
    case "null" => return Success(Null);
    case "boolean" => return Success(Bool(false));
    case "string" =>
      var length := IntegerOf(members, "minLength");
      if length.Failure? {
        return Failure;
      }
      return Success(Str("fixture" + Repeated(if length.value > 7 then length.value - 7 else 0, 'x')));
    case "integer" => return NumberSample(members);
    case "number" => return NumberSample(members);
    case "array" => r := SampleArray(members, root, depth);
    case _ => r := SampleObject(members, kind.value, root, depth);
  }

  method SampleArray(members: seq<Member>, root: Value, depth: nat) returns (r: Result<Value>)
    requires depth <= LIMIT
    ensures r == ArraySample(members, root, depth)
    decreases LIMIT + 1 - depth, 0, 0
  {
    var count := IntegerOf(members, "minItems");
    if count.Failure? {
      return Failure;
    }
    var items, i := [], 0;
    while i < count.value
      invariant |items| == i
      invariant if 0 < count.value then i <= count.value else i == 0
      invariant forall j :: 0 <= j < i ==> SampleOf(ItemsOf(members), root, depth + 1) == Success(items[j])
    {
      var item := Sample(ItemsOf(members), root, depth + 1);
      if item.Failure? {
        return Failure;
      }
      items, i := items + [item.value], i + 1;
    }
    if count.value > 0 {
      assert SampleOf(ItemsOf(members), root, depth + 1) == Success(items[0]);
      assert items == Copies(items[0], count.value);
    }
    return Success(Arr(items));
  }

  method SampleOwn(required: seq<Value>, properties: seq<Member>, root: Value, depth: nat)
    returns (r: Result<seq<Member>>)
    requires depth <= LIMIT
    ensures r == OwnMembers(required, properties, [], root, depth)
    decreases LIMIT + 1 - depth, 0, 0
  {
    var result: seq<Member> := [];
    for i := 0 to |required|
      invariant OwnMembers(required, properties, [], root, depth) ==
                OwnMembers(required[i..], properties, result, root, depth)
    {
      var name := required[i];
      assert required[i..][0] == name && required[i..][1..] == required[i + 1..];
      if name.Arr? || name.Obj? {
        return Failure;
      }
      if name.Str? && Has(properties, name.s) {
        var value := Sample(Get(properties, name.s).value, root, depth + 1);
        if value.Failure? {
          return Failure;
        }
        result := Put(result, name.s, value.value);
      }
    }
    return Success(result);
  }

  lemma {:induction false} MergeConcat(xs: seq<Value>, ys: seq<Value>, result: seq<Member>, seen: bool,
          root: Value, depth: nat)
    requires depth <= LIMIT
    ensures MergeChoices(xs + ys, result, seen, root, depth) ==
            match MergeChoices(xs, result, seen, root, depth)
            case Success(Dict(next, nextSeen)) => MergeChoices(ys, next, nextSeen, root, depth)
            case stopped => stopped
    decreases |xs|
  {
    if xs == [] {
      assert xs + ys == ys;
    } else {
      assert (xs + ys)[1..] == xs[1..] + ys;
      var child := SampleOf(xs[0], root, depth + 1);
      if child.Success? {
        var next := if child.value.Obj? then Update(result, child.value.members) else result;
        MergeConcat(xs[1..], ys, next, seen || child.value.Obj?, root, depth);
      }
    }
  }

  /** One turn of the combinator loop. */
  lemma MergeNext(choices: seq<Value>, i: nat, result: seq<Member>, seen: bool, root: Value, depth: nat)
    requires depth <= LIMIT && i < |choices|
    ensures MergeChoices(choices[i..], result, seen, root, depth) ==
      match SampleOf(choices[i], root, depth + 1)
      case Failure => Failure
      case Success(Obj(members)) => MergeChoices(choices[i + 1..], Update(result, members), true, root, depth)
      case Success(child) =>
        if result == [] then Success(Plain(child)) else MergeChoices(choices[i + 1..], result, seen, root, depth)
  {
    assert choices[i..][0] == choices[i] && choices[i..][1..] == choices[i + 1..];
  }

  /** The inner combinator loop, which updates `result` in place and returns early with a plain value. */
  method SampleKeyword(choices: seq<Value>, before: seq<Member>, seenBefore: bool, root: Value, depth: nat)
    returns (r: Result<Merged>)
    requires depth <= LIMIT
    ensures r == MergeChoices(choices, before, seenBefore, root, depth)
    decreases LIMIT + 1 - depth, 0, 0
  {
    var result, objectSeen := before, seenBefore;
    for i := 0 to |choices|
      invariant MergeChoices(choices, before, seenBefore, root, depth) ==
                MergeChoices(choices[i..], result, objectSeen, root, depth)
    {
      MergeNext(choices, i, result, objectSeen, root, depth);
      var child := Sample(choices[i], root, depth + 1);
      if child.Failure? {
        return Failure;
      }
      if child.value.Obj? {
        objectSeen := true;
        result := Update(result, child.value.members);
      } else if result == [] {
        return Success(Plain(child.value));
      }
    }
    return Success(Dict(result, objectSeen));
  }

  method SampleMerged(members: seq<Member>, own: seq<Member>, root: Value, depth: nat) returns (r: Result<Merged>)
    requires depth <= LIMIT
    ensures r == MergeChoices(ChoicesOf(members), own, false, root, depth)
    decreases LIMIT + 1 - depth, 0, 1
  {
    var result, objectSeen := own, false;
    AllChoices(members);
    for k := 0 to 3
      invariant MergeChoices(ChoicesOf(members), own, false, root, depth) ==
                MergeChoices(ChoicesFrom(members, k), result, objectSeen, root, depth)
    {
      MergeConcat(ChoicesUnder(members, KEYWORDS[k]), ChoicesFrom(members, k + 1), result, objectSeen, root, depth);
      var merged := SampleKeyword(ChoicesUnder(members, KEYWORDS[k]), result, objectSeen, root, depth);
      if merged.Failure? || merged.value.Plain? {
        return merged;
      }
      result, objectSeen := merged.value.members, merged.value.objectSeen;
    }
    return Success(Dict(result, objectSeen));
  }

  method SampleObject(members: seq<Member>, kind: string, root: Value, depth: nat) returns (r: Result<Value>)
    requires depth <= LIMIT
    ensures r == ObjectSample(members, kind, root, depth)
    decreases LIMIT + 1 - depth, 0, 2
  {
    var properties, required := DictOf(members, "properties"), ListOf(members, "required");
    if properties.Failure? || required.Failure? {
      return Failure;
    }
    var own := SampleOwn(required.value, properties.value, root, depth);
    if own.Failure? {
      return Failure;
    }
    var merged := SampleMerged(members, own.value, root, depth);
    match merged
    case Failure => return Failure;
    case Success(Plain(value)) => return Success(value);
    case Success(Dict(result, objectSeen)) =>
      return Success(
          if kind == "object" || Has(members, "properties") || result != [] || objectSeen then Obj(result) else Null);
  }
}
