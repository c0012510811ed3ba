/** Which contracts `schema_contracts` of scripts/codex/inventory.py writes, said in the words of a schema document. */
module ContractCoverage {
  import opened Wrappers
  import opened Json
  import opened JsonPointer
  import opened Text
  import opened SchemaContracts
  import opened ContractPointers

  // ----- An independent descent

  predicate Ignored(key: string) {
    key == "description" || key == "default" || key == "enum" || key == "examples"
  }

  predicate MapsNames(key: string) {
    key == "properties" || key == "definitions" || key == "$defs" || key == "patternProperties"
  }

  /** One way down: a schema by its name in a map of schemas, any other dict itself, or an item of a list. */
  ghost predicate Descends(node: Value, keys: seq<string>, child: Value) {
    && node.Obj? && |keys| >= 1 && !Ignored(keys[0])
    && exists value: Value :: Member(keys[0], value) in node.members && DescendsInto(value, keys, child)
  }

  ghost predicate DescendsInto(value: Value, keys: seq<string>, child: Value)
    requires |keys| >= 1
  {
    match value
    case Obj(inner) =>
      if MapsNames(keys[0]) then |keys| == 2 && Member(keys[1], child) in inner
      else |keys| == 1 && child == value
    case Arr(items) => |keys| == 2 && exists i :: 0 <= i < |items| && keys[1] == Decimal(i) && child == items[i]
    case _ => false
  }

  /** The value stands at these keys below the node. */
  ghost predicate StandsAt(node: Value, keys: seq<string>, v: Value)
    decreases |keys|
  {
    if keys == [] then v == node
    else
      exists n: nat, child: Value :: 1 <= n <= |keys| && Descends(node, keys[..n], child) && StandsAt(child, keys[n..], v)
  }

  lemma StandsBelow(node: Value, keys: seq<string>, v: Value) returns (n: nat, child: Value)
    requires StandsAt(node, keys, v) && keys != []
    ensures 1 <= n <= |keys| && Descends(node, keys[..n], child) && StandsAt(child, keys[n..], v)
    ensures keys == keys[..n] + keys[n..]
  {
    n, child :| 1 <= n <= |keys| && Descends(node, keys[..n], child) && StandsAt(child, keys[n..], v);
  }

  /** A property of a dict, at its keys. */
  predicate IsField(members: seq<Member>, name: string, keys: seq<string>, schema: Value) {
    && keys == ["properties", name]
    && match Get(members, "properties")
      case Some(Obj(properties)) => Get(properties, name) == Some(schema)
      case _ => false
  }

  /** An alternative of a dict, at its keys. Enumerating a dict gives its names, enumerating a text its characters. */
  predicate IsVariant(members: seq<Member>, keyword: string, keys: seq<string>, schema: Value) {
    && (keyword == "oneOf" || keyword == "anyOf" || keyword == "allOf" || keyword == "enum")
    && |keys| == 2 && keys[0] == keyword
    && match Get(members, keyword)
      case Some(Arr(items)) => exists i :: 0 <= i < |items| && keys[1] == Decimal(i) && schema == items[i]
      case Some(Obj(inner)) => exists i :: 0 <= i < |inner| && keys[1] == Decimal(i) && schema == Str(inner[i].name)
      case Some(Str(s)) => exists i :: 0 <= i < |s| && keys[1] == Decimal(i) && schema == Str([s[i]])
      case _ => false
  }

  predicate IsOwn(members: seq<Member>, kind: Kind, keys: seq<string>, schema: Value) {
    match kind
    case Field(name) => IsField(members, name, keys, schema)
    case Variant(keyword) => IsVariant(members, keyword, keys, schema)
  }

  /** A dict stands somewhere in the document and has this field or alternative itself. */
  ghost predicate Covered(full: Value, kind: Kind, keys: seq<string>, schema: Value) {
    exists n: nat, v: Value :: CoveredAt(full, n, v, kind, keys, schema)
  }

  ghost predicate CoveredAt(full: Value, n: nat, v: Value, kind: Kind, keys: seq<string>, schema: Value) {
    n <= |keys| && StandsAt(full, keys[..n], v) && v.Obj? && IsOwn(v.members, kind, keys[n..], schema)
  }

  // ----- The steps of the walk are the ways down

  lemma StepDescends(node: Value, i: nat, step: Step)
    requires node.Obj? && i < |node.members| && step in StepsOf(node.members[i])
    ensures Descends(node, step.place.keys, step.child)
  {
    var m := node.members[i];
    var j :| 0 <= j < |StepsOf(m)| && StepsOf(m)[j] == step;
    assert Member(m.name, m.value) in node.members;
    if m.value.Obj? && IsContainer(m.name) {
      assert m.value.members[j] == Member(step.place.keys[1], step.child);
    }
    assert DescendsInto(m.value, step.place.keys, step.child);
  }

  lemma IntoIsStep(m: Member, keys: seq<string>, child: Value) returns (step: Step)
    requires |keys| >= 1 && m.name == keys[0] && !Ignored(keys[0]) && DescendsInto(m.value, keys, child)
    ensures step in StepsOf(m) && step.place.keys == keys && step.child == child
  {
    match m.value
    case Obj(inner) =>
      if MapsNames(keys[0]) {
        var j :| 0 <= j < |inner| && inner[j] == Member(keys[1], child);
        step := NamedSteps(keys[0], inner)[j];
      } else {
        step := Step(KeyPlace(keys[0]), m.value);
      }
    case Arr(items) =>
      var j :| 0 <= j < |items| && keys[1] == Decimal(j) && child == items[j];
      step := IndexedSteps(keys[0], items)[j];
  }

  lemma DescentIsStep(node: Value, keys: seq<string>, child: Value) returns (i: nat, step: Step)
    requires Descends(node, keys, child)
    ensures i < |node.members| && step in StepsOf(node.members[i])
    ensures step.place.keys == keys && step.child == child
  {
    var value: Value :| Member(keys[0], value) in node.members && DescendsInto(value, keys, child);
    i :| 0 <= i < |node.members| && node.members[i] == Member(keys[0], value);
    step := IntoIsStep(node.members[i], keys, child);
  }

  lemma {:induction false} VisitedStands(node: Value, path: seq<Step>, v: Value)
    requires Visited(node, path, v)
    ensures StandsAt(node, PlaceOf(path).keys, v)
    decreases |path|
  {
    if path != [] {
      var i :| 0 <= i < |node.members| && path[0] in StepsOf(node.members[i]);
      StepDescends(node, i, path[0]);
      VisitedStands(path[0].child, path[1..], v);
      var keys, n := PlaceOf(path).keys, |path[0].place.keys|;
      assert keys[..n] == path[0].place.keys && keys[n..] == PlaceOf(path[1..]).keys;
    }
  }

  lemma {:induction false} StandsVisited(node: Value, keys: seq<string>, v: Value) returns (path: seq<Step>)
    requires StandsAt(node, keys, v)
    ensures Visited(node, path, v) && PlaceOf(path).keys == keys
    decreases |keys|
  {
    if keys == [] {
      path := [];
    } else {
      var n, child := StandsBelow(node, keys, v);
      var i, step := DescentIsStep(node, keys[..n], child);
      var rest := StandsVisited(child, keys[n..], v);
      path := [step] + rest;
      assert path[1..] == rest;
    }
  }

  // ----- A dict's own rows

  lemma PropertyIsField(members: seq<Member>, name: string)
    requires Has(PropertiesOf(members), name)
    ensures IsField(members, name, ["properties", name], Get(PropertiesOf(members), name).value)
  {
  }

  lemma FieldIsProperty(members: seq<Member>, name: string, keys: seq<string>, schema: Value)
    requires IsField(members, name, keys, schema)
    ensures keys == NamePlace("properties", name).keys && Get(PropertiesOf(members), name) == Some(schema)
  {
  }

  lemma AlternativeIsVariant(members: seq<Member>, k: nat, i: nat)
    requires k < 4 && i < |AlternativesOf(members, KEYWORDS[k])|
    ensures IsVariant(members, KEYWORDS[k], [KEYWORDS[k], Decimal(i)], AlternativesOf(members, KEYWORDS[k])[i])
  {
  }

  lemma VariantIsAlternative(members: seq<Member>, keyword: string, keys: seq<string>, schema: Value)
    returns (k: nat, i: nat)
    requires IsVariant(members, keyword, keys, schema)
    ensures k < 4 && KEYWORDS[k] == keyword && i < |AlternativesOf(members, keyword)|
    ensures keys == [keyword, Decimal(i)] && schema == AlternativesOf(members, keyword)[i]
  {
    k := if keyword == "oneOf" then 0 else if keyword == "anyOf" then 1 else if keyword == "allOf" then 2 else 3;
    var alternatives := AlternativesOf(members, keyword);
    i :| i < |alternatives| && keys[1] == Decimal(i) && schema == alternatives[i];
  }

  lemma OwnRowIsOwn(members: seq<Member>, row: Row)
    requires row in OwnRows(members)
    ensures IsOwn(members, row.kind, row.place.keys, row.schema)
  {
    var k, i := OwnRowIs(members, row);
    if row.kind.Field? {
      PropertyIsField(members, row.kind.name);
    } else {
      AlternativeIsVariant(members, k, i);
    }
  }

  lemma OwnHasRow(members: seq<Member>, kind: Kind, keys: seq<string>, schema: Value) returns (row: Row)
    requires IsOwn(members, kind, keys, schema)
    ensures row in OwnRows(members) && row.kind == kind && row.place.keys == keys && row.schema == schema
  {
    OwnRowsHold(members);
    match kind
    case Field(name) =>
      FieldIsProperty(members, name, keys, schema);
      row := Row(kind, NamePlace("properties", name), schema);
    case Variant(keyword) =>
      var k, i := VariantIsAlternative(members, keyword, keys, schema);
      row := Row(Variant(KEYWORDS[k]), IndexPlace(KEYWORDS[k], i), AlternativesOf(members, KEYWORDS[k])[i]);
  }

  // ----- Coverage

  const START := Place([], "")

  lemma BelowStart(path: seq<Step>, own: Row)
    ensures
      var row := Below(START, path, own);
      row.kind == own.kind && row.schema == own.schema && row.place.keys == PlaceOf(path).keys + own.place.keys
  {
    assert [] + PlaceOf(path).keys == PlaceOf(path).keys;
  }

  lemma SplitKeys(before: seq<string>, after: seq<string>)
    ensures (before + after)[..|before|] == before && (before + after)[|before|..] == after
  {
  }

  lemma JoinKeys(keys: seq<string>, n: nat)
    requires n <= |keys|
    ensures keys[..n] + keys[n..] == keys
  {
  }

  lemma WrittenBelow(full: Value, path: seq<Step>, v: Value, own: Row)
    requires Visited(full, path, v) && v.Obj? && own in OwnRows(v.members)
    ensures Below(START, path, own) in Rows(full, START)
  {
    VisitedHasRow(full, START, path, v, own);
  }

  lemma CoveredIsWritten(full: Value, n: nat, v: Value, kind: Kind, keys: seq<string>, schema: Value) returns (row: Row)
    requires CoveredAt(full, n, v, kind, keys, schema)
    ensures row in Rows(full, START) && row.kind == kind && row.place.keys == keys && row.schema == schema
  {
    var path := StandsVisited(full, keys[..n], v);
    var own := OwnHasRow(v.members, kind, keys[n..], schema);
    WrittenBelow(full, path, v, own);
    BelowStart(path, own);
    JoinKeys(keys, n);
    row := Below(START, path, own);
  }

  lemma CoveredHere(full: Value, before: seq<string>, v: Value, kind: Kind, after: seq<string>, schema: Value)
    requires StandsAt(full, before, v) && v.Obj? && IsOwn(v.members, kind, after, schema)
    ensures Covered(full, kind, before + after, schema)
  {
    SplitKeys(before, after);
    assert CoveredAt(full, |before|, v, kind, before + after, schema);
  }

  lemma WrittenIsCovered(full: Value, row: Row)
    requires row in Rows(full, START)
    ensures Covered(full, row.kind, row.place.keys, row.schema)
  {
    var path, v, own := RowIsOfVisited(full, START, row);
    VisitedStands(full, path, v);
    OwnRowIsOwn(v.members, own);
    BelowStart(path, own);
    CoveredHere(full, PlaceOf(path).keys, v, own.kind, own.place.keys, own.schema);
  }

  /** The walk writes a contract exactly for each field and each alternative of each dict that stands in the
      document, at its keys and with its schema. */
  lemma CoverageIsExact(full: Value, kind: Kind, keys: seq<string>, schema: Value)
    ensures Covered(full, kind, keys, schema) <==>
            exists row <- Rows(full, START) :: row.kind == kind && row.place.keys == keys && row.schema == schema
  {
    if n: nat, v: Value :| CoveredAt(full, n, v, kind, keys, schema) {
      var row := CoveredIsWritten(full, n, v, kind, keys, schema);
    }
    if row :| row in Rows(full, START) && row.kind == kind && row.place.keys == keys && row.schema == schema {
      WrittenIsCovered(full, row);
    }
  }

  // ----- When the walk raises

  /** `properties` is a dict, and what stands under an alternatives keyword can be enumerated. */
  predicate Enumerable(members: seq<Member>) {
    && (Has(members, "properties") ==> Get(members, "properties").value.Obj?)
    && Listed(members, "oneOf") && Listed(members, "anyOf") && Listed(members, "allOf") && Listed(members, "enum")
  }

  predicate Listed(members: seq<Member>, keyword: string) {
    match Get(members, keyword)
    case Some(Null) => false
    case Some(Bool(_)) => false
    case Some(Number(_)) => false
    case _ => true
  }

  lemma EnumerableIsWellShaped(members: seq<Member>)
    ensures Enumerable(members) <==> WellShaped(members)
  {
    assert KEYWORDS[0] == "oneOf" && KEYWORDS[1] == "anyOf" && KEYWORDS[2] == "allOf" && KEYWORDS[3] == "enum";
    if Enumerable(members) {
      forall k | 0 <= k < 4 && Has(members, KEYWORDS[k])
        ensures var v := Get(members, KEYWORDS[k]).value; v.Arr? || v.Obj? || v.Str?
      {
        assert Listed(members, KEYWORDS[k]);
      }
    }
  }

  lemma {:induction false} ReadableStep(steps: seq<Step>, step: Step)
    requires StepsReadable(steps) && step in steps
    ensures Readable(step.child)
    decreases |steps|
  {
    if step != steps[0] {
      ReadableStep(steps[1..], step);
    }
  }

  lemma {:induction false} ReadableMember(members: seq<Member>, i: nat, step: Step)
    requires MembersReadable(members) && i < |members| && step in StepsOf(members[i])
    ensures Readable(step.child)
    decreases |members|
  {
    if i == 0 {
      ReadableStep(StepsOf(members[0]), step);
    } else {
      assert members[1..][i - 1] == members[i];
      ReadableMember(members[1..], i - 1, step);
    }
  }

  lemma {:induction false} ReadableBelow(node: Value, path: seq<Step>, v: Value)
    requires Readable(node) && Visited(node, path, v)
    ensures v.Obj? ==> WellShaped(v.members)
    decreases |path|
  {
    if path != [] {
      var i :| 0 <= i < |node.members| && path[0] in StepsOf(node.members[i]);
      ReadableMember(node.members, i, path[0]);
      ReadableBelow(path[0].child, path[1..], v);
    }
  }

  lemma {:induction false} UnreadableStep(steps: seq<Step>) returns (step: Step)
    requires !StepsReadable(steps)
    ensures step in steps && !Readable(step.child)
    decreases |steps|
  {
    if !Readable(steps[0].child) {
      step := steps[0];
    } else {
      step := UnreadableStep(steps[1..]);
    }
  }

  lemma {:induction false} UnreadableMember(members: seq<Member>) returns (i: nat, step: Step)
    requires !MembersReadable(members)
    ensures i < |members| && step in StepsOf(members[i]) && !Readable(step.child)
    decreases |members|
  {
    if !StepsReadable(StepsOf(members[0])) {
      i := 0;
      step := UnreadableStep(StepsOf(members[0]));
    } else {
      i, step := UnreadableMember(members[1..]);
      i := i + 1;
    }
  }

  lemma {:induction false} UnreadableBelow(node: Value) returns (path: seq<Step>, v: Value)
    requires !Readable(node)
    ensures Visited(node, path, v) && v.Obj? && !WellShaped(v.members)
    decreases Size(node)
  {
    if !WellShaped(node.members) {
      path, v := [], node;
    } else {
      var i, step := UnreadableMember(node.members);
      MemberSize(node.members, i, step);
      var rest;
      rest, v := UnreadableBelow(step.child);
      path := [step] + rest;
      assert path[1..] == rest;
    }
  }

  /** The walk raises exactly when some dict that stands in the document has `properties` that are no dict or
      alternatives that cannot be enumerated. */
  lemma ReadableIsExact(full: Value)
    ensures Readable(full) <==>
            forall keys: seq<string>, v: Value :: StandsAt(full, keys, v) && v.Obj? ==> Enumerable(v.members)
  {
    if Readable(full) {
      forall keys: seq<string>, v: Value | StandsAt(full, keys, v) && v.Obj? ensures Enumerable(v.members) {
        var path := StandsVisited(full, keys, v);
        ReadableBelow(full, path, v);
        EnumerableIsWellShaped(v.members);
      }
    } else {
      var path, v := UnreadableBelow(full);
      var keys := PlaceOf(path).keys;
      VisitedStands(full, path, v);
      EnumerableIsWellShaped(v.members);
      assert !(StandsAt(full, keys, v) && v.Obj? ==> Enumerable(v.members));
    }
  }

  // ----- Their order

  /** The fields of a dict are written in the order of their names, before its alternatives. */
  lemma FieldsAscend(members: seq<Member>)
    ensures
      var rows, n := OwnRows(members), |PropertiesOf(members)|;
      && n <= |rows| && (forall i :: 0 <= i < |rows| ==> (rows[i].kind.Field? <==> i < n))
      && forall i, j :: 0 <= i < j < n ==> AtMost(rows[i].kind.name, rows[j].kind.name)
  {
    var properties := PropertiesOf(members);
    var names := Sort(MemberNames(properties));
    SortIsSorted(MemberNames(properties));
    forall k | 0 <= k < |names| ensures Has(properties, names[k]) {
      assert names[k] in multiset(names);
      assert names[k] in multiset(MemberNames(properties));
      GetIsMember(properties, names[k]);
    }
    assert |names| == |multiset(names)| == |MemberNames(properties)|;
    RowOfEach(properties, names);
    VariantsFollow(members, 0);
  }

  lemma {:induction false} RowOfEach(properties: seq<Member>, names: seq<string>)
    requires forall k :: 0 <= k < |names| ==> Has(properties, names[k])
    ensures |FieldRows(properties, names)| == |names|
    ensures forall k :: 0 <= k < |names| ==> FieldRows(properties, names)[k].kind == Field(names[k])
  {
    if names != [] {
      RowOfEach(properties, names[1..]);
      var rows := FieldRows(properties, names);
      assert |rows| == 1 + |FieldRows(properties, names[1..])| && rows[1..] == FieldRows(properties, names[1..]);
      forall k | 0 <= k < |names| ensures rows[k].kind == Field(names[k]) {
        if k > 0 {
          assert rows[k] == rows[1..][k - 1] && names[k] == names[1..][k - 1];
        }
      }
    }
  }

  lemma {:induction false} VariantsFollow(members: seq<Member>, k: nat)
    requires k <= 4
    ensures forall i :: 0 <= i < |VariantRowsFrom(members, k)| ==> VariantRowsFrom(members, k)[i].kind.Variant?
    decreases 4 - k
  {
    if k < 4 {
      VariantsFollow(members, k + 1);
    }
  }
}
