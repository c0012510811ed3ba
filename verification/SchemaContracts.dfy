/** The inventory walk `schema_contracts` of scripts/codex/inventory.py: one contract for every field and
    every schema alternative, each with a JSON Pointer. */
module SchemaContracts {
  import opened Wrappers
  import opened Json
  import opened JsonPointer
  import opened Text

  datatype Kind = Field(name: string) | Variant(keyword: string)

  /** A contract as the walk writes it; the hash of its schema is represented by the schema. */
  datatype Contract = Contract(kind: Kind, pointer: string, schema: Value)

  const KEYWORDS := ["oneOf", "anyOf", "allOf", "enum"]

  /** Keys whose dict maps names to schemas. */
  predicate IsContainer(key: string) {
    key in ["properties", "definitions", "$defs", "patternProperties"]
  }

  predicate IsSkipped(key: string) {
    key in ["description", "default", "enum", "examples"]
  }

  // ----- One node

  /** `node.get("properties", {})` must be a dict, and an alternatives keyword something to enumerate. */
  predicate WellShaped(members: seq<Member>) {
    && (Has(members, "properties") ==> Get(members, "properties").value.Obj?)
    && forall k :: 0 <= k < 4 && Has(members, KEYWORDS[k]) ==>
        var v := Get(members, KEYWORDS[k]).value; v.Arr? || v.Obj? || v.Str?
  }

  function PropertiesOf(members: seq<Member>): seq<Member> {
    match Get(members, "properties") case Some(Obj(properties)) => properties case _ => []
  }

  /** Enumerating a dict gives its names, enumerating a text its characters. */
  function AlternativesOf(members: seq<Member>, keyword: string): seq<Value> {
    match Get(members, keyword)
    case Some(Arr(items)) => items
    case Some(Obj(inner)) => seq(|inner|, i requires 0 <= i < |inner| => Str(inner[i].name))
    case Some(Str(s)) => seq(|s|, i requires 0 <= i < |s| => Str([s[i]]))
    case _ => []
  }

  /** Where something stands: its keys, and the pointer text the walk writes for it. */
  datatype Place = Place(keys: seq<string>, text: string) {
    function Then(more: Place): Place {
      Place(keys + more.keys, text + more.text)
    }
  }

  datatype Row = Row(kind: Kind, place: Place, schema: Value)

  function NamePlace(key: string, name: string): Place {
    Place([key, name], "/" + key + "/" + Escape(name))
  }

  function IndexPlace(key: string, i: nat): Place {
    Place([key, Decimal(i)], "/" + key + "/" + Decimal(i))
  }

  function KeyPlace(key: string): Place {
    Place([key], "/" + key)
  }

  function FieldRows(properties: seq<Member>, names: seq<string>): seq<Row> {
    if names == [] then []
    else
      (match Get(properties, names[0])
       case Some(schema) => [Row(Field(names[0]), NamePlace("properties", names[0]), schema)]
       case None => [])
      + FieldRows(properties, names[1..])
  }

  function VariantRows(keyword: string, alternatives: seq<Value>): (rows: seq<Row>)
    ensures |rows| == |alternatives|
    ensures forall i :: 0 <= i < |rows| ==> rows[i] == Row(Variant(keyword), IndexPlace(keyword, i), alternatives[i])
  {
    seq(|alternatives|, i requires 0 <= i < |alternatives| => Row(Variant(keyword), IndexPlace(keyword, i), alternatives[i]))
  }

  function VariantRowsFrom(members: seq<Member>, k: nat): seq<Row>
    requires k <= 4
    decreases 4 - k
  {
    if k == 4 then []
    else VariantRows(KEYWORDS[k], AlternativesOf(members, KEYWORDS[k])) + VariantRowsFrom(members, k + 1)
  }

  /** The rows of a node itself: its properties by name, then its alternatives. */
  function OwnRows(members: seq<Member>): seq<Row> {
    FieldRows(PropertiesOf(members), Sort(MemberNames(PropertiesOf(members)))) + VariantRowsFrom(members, 0)
  }

  // ----- The walk

  /** One descent: the keys it adds and the node it leads to. */
  datatype Step = Step(place: Place, child: Value)

  function NamedSteps(key: string, inner: seq<Member>): (steps: seq<Step>)
    ensures |steps| == |inner|
    ensures forall i :: 0 <= i < |steps| ==> steps[i] == Step(NamePlace(key, inner[i].name), inner[i].value)
  {
    seq(|inner|, i requires 0 <= i < |inner| => Step(NamePlace(key, inner[i].name), inner[i].value))
  }

  function IndexedSteps(key: string, items: seq<Value>): (steps: seq<Step>)
    ensures |steps| == |items|
    ensures forall i :: 0 <= i < |steps| ==> steps[i] == Step(IndexPlace(key, i), items[i])
  {
    seq(|items|, i requires 0 <= i < |items| => Step(IndexPlace(key, i), items[i]))
  }

  function StepsOf(m: Member): seq<Step> {
    if IsSkipped(m.name) then []
    else
      match m.value
      case Obj(inner) => if IsContainer(m.name) then NamedSteps(m.name, inner) else [Step(KeyPlace(m.name), m.value)]
      case Arr(items) => IndexedSteps(m.name, items)
      case _ => []
  }

  function StepsSize(steps: seq<Step>): nat {
    if steps == [] then 0 else Size(steps[0].child) + StepsSize(steps[1..])
  }

  lemma {:induction false} StepsSizeIs(steps: seq<Step>, vs: seq<Value>)
    requires |steps| == |vs| && forall i :: 0 <= i < |vs| ==> steps[i].child == vs[i]
    ensures StepsSize(steps) == SizeAll(vs)
  {
    if steps != [] {
      StepsSizeIs(steps[1..], vs[1..]);
    }
  }

  lemma StepsShrink(m: Member)
    ensures StepsSize(StepsOf(m)) <= Size(m.value)
  {
    match m.value
    case Obj(inner) =>
      SizeOfValues(inner);
      StepsSizeIs(NamedSteps(m.name, inner), Values(inner));
      assert StepsSize([Step(KeyPlace(m.name), m.value)]) == Size(m.value) + StepsSize([]);
    case Arr(items) =>
      StepsSizeIs(IndexedSteps(m.name, items), items);
    case _ =>
  }

  /** Every row below a node that stands at the keys `at`. */
  function Rows(node: Value, at: Place): seq<Row>
    decreases Size(node), 0, 0
  {
    if !node.Obj? then []
    else Placed(OwnRows(node.members), at) + RowsOfMembers(node.members, at)
  }

  function RowsOfMembers(members: seq<Member>, at: Place): seq<Row>
    decreases SizeMembers(members), 2, |members|
  {
    if members == [] then []
    else
      StepsShrink(members[0]);
      RowsOfSteps(StepsOf(members[0]), at) + RowsOfMembers(members[1..], at)
  }

  function RowsOfSteps(steps: seq<Step>, at: Place): seq<Row>
    decreases StepsSize(steps), 1, |steps|
  {
    if steps == [] then [] else Rows(steps[0].child, at.Then(steps[0].place)) + RowsOfSteps(steps[1..], at)
  }

  function Placed(rows: seq<Row>, at: Place): (r: seq<Row>)
    ensures |r| == |rows|
    ensures forall i :: 0 <= i < |r| ==> r[i] == rows[i].(place := at.Then(rows[i].place))
  {
    seq(|rows|, i requires 0 <= i < |rows| => rows[i].(place := at.Then(rows[i].place)))
  }

  // ----- The walk as the source runs it

  function Written(row: Row): Contract {
    Contract(row.kind, row.place.text, row.schema)
  }

  function AllWritten(rows: seq<Row>): (r: seq<Contract>)
    ensures |r| == |rows|
    ensures forall i :: 0 <= i < |r| ==> r[i] == Written(rows[i])
  {
    seq(|rows|, i requires 0 <= i < |rows| => Written(rows[i]))
  }

  lemma AllWrittenConcat(a: seq<Row>, b: seq<Row>)
    ensures AllWritten(a + b) == AllWritten(a) + AllWritten(b)
  {
  }

  /** Every node the walk reaches is well shaped, so that it raises nowhere. */
  predicate Readable(node: Value)
    decreases Size(node), 0, 0
  {
    node.Obj? ==> WellShaped(node.members) && MembersReadable(node.members)
  }

  predicate MembersReadable(members: seq<Member>)
    decreases SizeMembers(members), 2, |members|
  {
    members == [] ||
    (StepsShrink(members[0]);
     StepsReadable(StepsOf(members[0])) && MembersReadable(members[1..]))
  }

  predicate StepsReadable(steps: seq<Step>)
    decreases StepsSize(steps), 1, |steps|
  {
    steps == [] || (Readable(steps[0].child) && StepsReadable(steps[1..]))
  }

  class Inventory {
    var contracts: seq<Contract>

    constructor ()
      ensures contracts == []
    {
      contracts := [];
    }

    method AppendFields(properties: seq<Member>, pointer: string, ghost at: Place)
      requires at.text == pointer
      modifies this
      ensures contracts == old(contracts) + AllWritten(Placed(FieldRows(properties, Sort(MemberNames(properties))), at))
    {
      var names := Sort(MemberNames(properties));
      ghost var rows: seq<Row> := [];
      for i := 0 to |names|
        invariant FieldRows(properties, names) == rows + FieldRows(properties, names[i..])
        invariant contracts == old(contracts) + AllWritten(Placed(rows, at))
      {
        FieldRowsNext(properties, names, i);
        var schema := Get(properties, names[i]);
        if schema.Some? {
          ghost var row := Row(Field(names[i]), NamePlace("properties", names[i]), schema.value);
          Regroup(rows, [row], FieldRows(properties, names[i + 1..]));
          AppendField(names[i], schema.value, pointer, old(contracts), rows, at);
          rows := rows + [row];
        }
      }
      assert rows == FieldRows(properties, names);
    }

    /** One property's contract. */
    method AppendField(name: string, schema: Value, pointer: string, ghost before: seq<Contract>, ghost rows: seq<Row>,
            ghost at: Place)
      requires at.text == pointer && contracts == before + AllWritten(Placed(rows, at))
      modifies this
      ensures contracts ==
        before + AllWritten(Placed(rows + [Row(Field(name), NamePlace("properties", name), schema)], at))
    {
      FieldWritten(before, rows, name, schema, at);
      var path := pointer + ("/properties/" + Escape(name));
      contracts := contracts + [Contract(Field(name), path, schema)];
    }

    method AppendVariants(keyword: string, alternatives: seq<Value>, pointer: string, ghost at: Place)
      requires at.text == pointer
      modifies this
      ensures contracts == old(contracts) + AllWritten(Placed(VariantRows(keyword, alternatives), at))
    {
      ghost var variants := VariantRows(keyword, alternatives);
      for index := 0 to |alternatives|
        invariant contracts == old(contracts) + AllWritten(Placed(variants[..index], at))
      {
        WrittenMore(variants[..index], variants[index], at);
        assert variants[..index + 1] == variants[..index] + [variants[index]];
        var path := pointer + ("/" + keyword + "/" + Decimal(index));
        contracts := contracts + [Contract(Variant(keyword), path, alternatives[index])];
      }
      assert variants[..|alternatives|] == variants;
    }

    method AppendOwn(members: seq<Member>, pointer: string, ghost at: Place)
      requires at.text == pointer
      modifies this
      ensures contracts == old(contracts) + AllWritten(Placed(OwnRows(members), at))
    {
      ghost var rows := FieldRows(PropertiesOf(members), Sort(MemberNames(PropertiesOf(members))));
      AppendFields(PropertiesOf(members), pointer, at);
      for k := 0 to 4
        invariant OwnRows(members) == rows + VariantRowsFrom(members, k)
        invariant contracts == old(contracts) + AllWritten(Placed(rows, at))
      {
        var alternatives := AlternativesOf(members, KEYWORDS[k]);
        ghost var more := VariantRows(KEYWORDS[k], alternatives);
        AppendVariants(KEYWORDS[k], alternatives, pointer, at);
        PlacedConcat(rows, more, at);
        Regroup(old(contracts), AllWritten(Placed(rows, at)), AllWritten(Placed(more, at)));
        Regroup(rows, more, VariantRowsFrom(members, k + 1));
        rows := rows + more;
      }
      assert rows + [] == rows;
    }

    /** `walk`: False when a node cannot be read, which raises in the source. */
    method Walk(node: Value, pointer: string, ghost at: Place) returns (ok: bool)
      requires at.text == pointer
      modifies this
      ensures ok <==> Readable(node)
      ensures ok ==> contracts == old(contracts) + AllWritten(Rows(node, at))
      decreases Size(node), 0, 0
    {
      if !node.Obj? {
        return true;
      }
      if !WellShaped(node.members) {
        return false;
      }
      AppendOwn(node.members, pointer, at);
      ok := WalkMembers(node.members, pointer, at);
      Regroup(old(contracts), AllWritten(Placed(OwnRows(node.members), at)), AllWritten(RowsOfMembers(node.members, at)));
      AllWrittenConcat(Placed(OwnRows(node.members), at), RowsOfMembers(node.members, at));
    }

    method WalkMembers(members: seq<Member>, pointer: string, ghost at: Place) returns (ok: bool)
      requires at.text == pointer
      modifies this
      ensures ok <==> MembersReadable(members)
      ensures ok ==> contracts == old(contracts) + AllWritten(RowsOfMembers(members, at))
      decreases SizeMembers(members), 2, |members|
    {
      if members == [] {
        return true;
      }
      StepsShrink(members[0]);
      ok := WalkSteps(StepsOf(members[0]), pointer, at);
      if ok {
        ok := WalkMembers(members[1..], pointer, at);
        Regroup(old(contracts), AllWritten(RowsOfSteps(StepsOf(members[0]), at)), AllWritten(RowsOfMembers(members[1..], at)));
        AllWrittenConcat(RowsOfSteps(StepsOf(members[0]), at), RowsOfMembers(members[1..], at));
      }
    }

    method WalkSteps(steps: seq<Step>, pointer: string, ghost at: Place) returns (ok: bool)
      requires at.text == pointer
      modifies this
      ensures ok <==> StepsReadable(steps)
      ensures ok ==> contracts == old(contracts) + AllWritten(RowsOfSteps(steps, at))
      decreases StepsSize(steps), 1, |steps|
    {
      if steps == [] {
        return true;
      }
      ok := Walk(steps[0].child, pointer + steps[0].place.text, at.Then(steps[0].place));
      if ok {
        ok := WalkSteps(steps[1..], pointer, at);
        Regroup(old(contracts), AllWritten(Rows(steps[0].child, at.Then(steps[0].place))), AllWritten(RowsOfSteps(steps[1..], at)));
        AllWrittenConcat(Rows(steps[0].child, at.Then(steps[0].place)), RowsOfSteps(steps[1..], at));
      }
    }
  }

  lemma Regroup<T>(a: seq<T>, b: seq<T>, c: seq<T>)
    ensures (a + b) + c == a + (b + c)
  {
  }

  lemma FieldWritten(before: seq<Contract>, rows: seq<Row>, name: string, schema: Value, at: Place)
    ensures
      before + AllWritten(Placed(rows, at)) + [Contract(Field(name), at.text + ("/properties/" + Escape(name)), schema)] ==
      before + AllWritten(Placed(rows + [Row(Field(name), NamePlace("properties", name), schema)], at))
  {
    var row := Row(Field(name), NamePlace("properties", name), schema);
    WrittenMore(rows, row, at);
    assert row.place.text == "/properties/" + Escape(name) by {
      assert "/" + "properties" + "/" == "/properties/";
    }
    Regroup(before, AllWritten(Placed(rows, at)), [Contract(Field(name), at.text + row.place.text, schema)]);
  }

  lemma FieldRowsNext(properties: seq<Member>, names: seq<string>, i: nat)
    requires i < |names|
    ensures FieldRows(properties, names[i..]) ==
            (match Get(properties, names[i])
             case Some(schema) => [Row(Field(names[i]), NamePlace("properties", names[i]), schema)]
             case None => [])
            + FieldRows(properties, names[i + 1..])
  {
    assert names[i..][1..] == names[i + 1..];
  }

  lemma PlacedConcat(a: seq<Row>, b: seq<Row>, at: Place)
    ensures Placed(a + b, at) == Placed(a, at) + Placed(b, at)
    ensures AllWritten(Placed(a + b, at)) == AllWritten(Placed(a, at)) + AllWritten(Placed(b, at))
  {
  }

  lemma WrittenMore(rows: seq<Row>, row: Row, at: Place)
    ensures AllWritten(Placed(rows + [row], at)) ==
            AllWritten(Placed(rows, at)) + [Contract(row.kind, at.text + row.place.text, row.schema)]
  {
    assert Placed(rows + [row], at) == Placed(rows, at) + [row.(place := at.Then(row.place))];
  }

  // ----- Pairwise distinct keys

  predicate NoDuplicates(rows: seq<Row>) {
    forall i, j :: 0 <= i < j < |rows| ==> rows[i].place.keys != rows[j].place.keys
  }

  predicate Apart(a: seq<Row>, b: seq<Row>) {
    forall i, j :: 0 <= i < |a| && 0 <= j < |b| ==> a[i].place.keys != b[j].place.keys
  }

  lemma ApartConcat(a: seq<Row>, b: seq<Row>)
    requires NoDuplicates(a) && NoDuplicates(b) && Apart(a, b)
    ensures NoDuplicates(a + b)
  {
    var c := a + b;
    forall i, j | 0 <= i < j < |c| ensures c[i].place.keys != c[j].place.keys {
      if i < |a| && j >= |a| {
        assert a[i].place.keys != b[j - |a|].place.keys;
      }
    }
  }

  /** Each dict has each name once. */
  predicate Dicts(v: Value) {
    match v
    case Arr(items) => forall i :: 0 <= i < |items| ==> Dicts(items[i])
    case Obj(members) => Distinct(members) && forall i :: 0 <= i < |members| ==> Dicts(members[i].value)
    case _ => true
  }

  predicate AllDicts(members: seq<Member>) {
    Distinct(members) && forall i :: 0 <= i < |members| ==> Dicts(members[i].value)
  }

  // The rows of one node.

  lemma {:induction false} FieldRowsAre(properties: seq<Member>, names: seq<string>, i: nat)
    requires i < |FieldRows(properties, names)|
    ensures exists j :: 0 <= j < |names| && FieldRows(properties, names)[i].place.keys == ["properties", names[j]]
  {
    var head := if Has(properties, names[0]) then 1 else 0;
    if i >= head {
      FieldRowsAre(properties, names[1..], i - head);
      var j :| 0 <= j < |names[1..]| && FieldRows(properties, names[1..])[i - head].place.keys == ["properties", names[1..][j]];
      assert names[j + 1] == names[1..][j];
    } else {
      assert FieldRows(properties, names)[0].place.keys == ["properties", names[0]];
    }
  }

  lemma {:induction false} FieldRowsDistinct(properties: seq<Member>, names: seq<string>)
    requires AllDifferent(names)
    ensures NoDuplicates(FieldRows(properties, names))
  {
    if names != [] {
      var rest := FieldRows(properties, names[1..]);
      FieldRowsDistinct(properties, names[1..]);
      if Has(properties, names[0]) {
        var head := Row(Field(names[0]), NamePlace("properties", names[0]), Get(properties, names[0]).value);
        forall i | 0 <= i < |rest| ensures rest[i].place.keys != head.place.keys {
          FieldRowsAre(properties, names[1..], i);
          var j :| 0 <= j < |names[1..]| && rest[i].place.keys == ["properties", names[1..][j]];
          assert names[j + 1] == names[1..][j];
          assert rest[i].place.keys[1] == names[j + 1];
        }
        ApartConcat([head], rest);
        assert FieldRows(properties, names) == [head] + rest;
      } else {
        assert FieldRows(properties, names) == rest;
      }
    }
  }

  lemma DecimalInjective(i: nat, j: nat)
    requires Decimal(i) == Decimal(j)
    ensures i == j
  {
    DecimalRoundTrip(i);
    DecimalRoundTrip(j);
  }

  lemma VariantRowsDistinct(keyword: string, alternatives: seq<Value>)
    ensures NoDuplicates(VariantRows(keyword, alternatives))
  {
    var rows := VariantRows(keyword, alternatives);
    forall i, j | 0 <= i < j < |rows| ensures rows[i].place.keys != rows[j].place.keys {
      if rows[i].place.keys == rows[j].place.keys {
        assert rows[i].place.keys[1] == Decimal(i) && rows[j].place.keys[1] == Decimal(j);
        DecimalInjective(i, j);
      }
    }
  }

  predicate KeyedBy(row: Row, k: nat) {
    |row.place.keys| == 2 && exists m :: k <= m < 4 && row.place.keys[0] == KEYWORDS[m]
  }

  lemma {:induction false} VariantRowsFromDistinct(members: seq<Member>, k: nat)
    requires k <= 4
    ensures NoDuplicates(VariantRowsFrom(members, k))
    ensures forall i :: 0 <= i < |VariantRowsFrom(members, k)| ==> KeyedBy(VariantRowsFrom(members, k)[i], k)
    decreases 4 - k
  {
    if k < 4 {
      var head, rest := VariantRows(KEYWORDS[k], AlternativesOf(members, KEYWORDS[k])), VariantRowsFrom(members, k + 1);
      VariantRowsDistinct(KEYWORDS[k], AlternativesOf(members, KEYWORDS[k]));
      VariantRowsFromDistinct(members, k + 1);
      KeywordsDiffer();
      forall i, j | 0 <= i < |head| && 0 <= j < |rest| ensures head[i].place.keys != rest[j].place.keys {
        assert KeyedBy(rest[j], k + 1);
        assert head[i].place.keys[0] == KEYWORDS[k];
      }
      ApartConcat(head, rest);
      forall i | 0 <= i < |VariantRowsFrom(members, k)| ensures KeyedBy(VariantRowsFrom(members, k)[i], k) {
        if i < |head| {
          assert head[i].place.keys[0] == KEYWORDS[k];
        } else {
          assert KeyedBy(rest[i - |head|], k + 1);
        }
      }
    }
  }

  lemma KeywordsDiffer()
    ensures forall i, j :: 0 <= i < j < 4 ==> KEYWORDS[i] != KEYWORDS[j]
    ensures forall i :: 0 <= i < 4 ==> KEYWORDS[i] != "properties" && KEYWORDS[i] != ""
  {
    assert KEYWORDS[0][1] == 'n' && KEYWORDS[0][0] == 'o' && KEYWORDS[1][1] == 'n' && KEYWORDS[1][0] == 'a';
    assert KEYWORDS[2][0] == 'a' && KEYWORDS[2][1] == 'l' && KEYWORDS[3][0] == 'e' && "properties"[0] == 'p';
  }

  lemma NamesUnique(properties: seq<Member>)
    requires Distinct(properties)
    ensures AllDifferent(Sort(MemberNames(properties)))
  {
    var names := MemberNames(properties);
    SortIsSorted(names);
    UniqueIsCounted(names);
    SameMultisetUnique(names, Sort(names));
  }

  lemma {:induction false} UniqueIsCounted(names: seq<string>)
    requires AllDifferent(names)
    ensures forall x :: multiset(names)[x] <= 1
  {
    if names != [] {
      UniqueIsCounted(names[1..]);
      assert names == [names[0]] + names[1..];
      assert names[0] !in names[1..];
    }
  }

  lemma SameMultisetUnique(a: seq<string>, b: seq<string>)
    requires multiset(a) == multiset(b) && forall x :: multiset(a)[x] <= 1
    ensures AllDifferent(b)
  {
    forall i, j | 0 <= i < j < |b| ensures b[i] != b[j] {
      TwiceCounted(b, i, j);
    }
  }

  lemma TwiceCounted(names: seq<string>, i: nat, j: nat)
    requires i < j < |names|
    ensures names[i] == names[j] ==> multiset(names)[names[i]] >= 2
  {
    assert names == names[..i] + [names[i]] + names[i + 1..j] + [names[j]] + names[j + 1..];
  }

  lemma OwnRowsDistinct(members: seq<Member>)
    requires Distinct(PropertiesOf(members))
    ensures NoDuplicates(OwnRows(members))
    ensures forall i :: 0 <= i < |OwnRows(members)| ==> |OwnRows(members)[i].place.keys| == 2
  {
    var properties := PropertiesOf(members);
    var names := Sort(MemberNames(properties));
    var fields, variants := FieldRows(properties, names), VariantRowsFrom(members, 0);
    NamesUnique(properties);
    FieldRowsDistinct(properties, names);
    VariantRowsFromDistinct(members, 0);
    KeywordsDiffer();
    forall i | 0 <= i < |fields| ensures |fields[i].place.keys| == 2 && fields[i].place.keys[0] == "properties" {
      FieldRowsAre(properties, names, i);
    }
    forall i, j | 0 <= i < |fields| && 0 <= j < |variants| ensures fields[i].place.keys != variants[j].place.keys {
      assert KeyedBy(variants[j], 0);
    }
    ApartConcat(fields, variants);
    forall i | 0 <= i < |OwnRows(members)| ensures |OwnRows(members)[i].place.keys| == 2 {
      if i >= |fields| {
        assert KeyedBy(variants[i - |fields|], 0);
      }
    }
  }

  // The rows of the walk.

  predicate Extends(row: Row, at: seq<string>, more: nat) {
    at <= row.place.keys && |row.place.keys| >= |at| + more
  }

  /** The row lies below one of the steps. */
  ghost predicate FromStep(row: Row, steps: seq<Step>, at: seq<string>) {
    exists j :: 0 <= j < |steps| && Extends(row, at + steps[j].place.keys, 2)
  }

  /** The row lies below the member of this name. */
  ghost predicate FromMember(row: Row, members: seq<Member>, at: seq<string>) {
    Extends(row, at, 3) && exists j :: 0 <= j < |members| && row.place.keys[|at|] == members[j].name
  }

  lemma StepKeys(m: Member, j: nat)
    requires j < |StepsOf(m)|
    ensures 1 <= |StepsOf(m)[j].place.keys| <= 2 && StepsOf(m)[j].place.keys[0] == m.name
  {
  }

  lemma {:induction false} RowsExtend(node: Value, at: Place)
    ensures forall i :: 0 <= i < |Rows(node, at)| ==> Extends(Rows(node, at)[i], at.keys, 2)
    decreases Size(node), 0, 0
  {
    if node.Obj? {
      var own, below := Placed(OwnRows(node.members), at), RowsOfMembers(node.members, at);
      OwnRowsHaveTwoKeys(node.members);
      RowsOfMembersExtend(node.members, at);
      forall i | 0 <= i < |Rows(node, at)| ensures Extends(Rows(node, at)[i], at.keys, 2) {
        if i >= |own| {
          assert FromMember(below[i - |own|], node.members, at.keys);
        }
      }
    }
  }

  lemma OwnRowsHaveTwoKeys(members: seq<Member>)
    ensures forall i :: 0 <= i < |OwnRows(members)| ==> |OwnRows(members)[i].place.keys| == 2
  {
    var names := Sort(MemberNames(PropertiesOf(members)));
    var fields, variants := FieldRows(PropertiesOf(members), names), VariantRowsFrom(members, 0);
    VariantRowsFromDistinct(members, 0);
    forall i | 0 <= i < |OwnRows(members)| ensures |OwnRows(members)[i].place.keys| == 2 {
      if i < |fields| {
        FieldRowsAre(PropertiesOf(members), names, i);
      } else {
        assert KeyedBy(variants[i - |fields|], 0);
      }
    }
  }

  lemma {:induction false} RowsOfMembersExtend(members: seq<Member>, at: Place)
    ensures forall i :: 0 <= i < |RowsOfMembers(members, at)| ==> FromMember(RowsOfMembers(members, at)[i], members, at.keys)
    decreases SizeMembers(members), 2, |members|
  {
    if members != [] {
      StepsShrink(members[0]);
      var steps := StepsOf(members[0]);
      var head, rest := RowsOfSteps(steps, at), RowsOfMembers(members[1..], at);
      RowsOfStepsExtend(steps, at);
      RowsOfMembersExtend(members[1..], at);
      forall i | 0 <= i < |head + rest| ensures FromMember((head + rest)[i], members, at.keys) {
        if i < |head| {
          assert FromStep(head[i], steps, at.keys);
          var j :| 0 <= j < |steps| && Extends(head[i], at.keys + steps[j].place.keys, 2);
          StepKeys(members[0], j);
          assert head[i].place.keys[|at.keys|] == members[0].name;
        } else {
          assert FromMember(rest[i - |head|], members[1..], at.keys);
          var j :| 0 <= j < |members[1..]| && rest[i - |head|].place.keys[|at.keys|] == members[1..][j].name;
          assert members[j + 1] == members[1..][j];
        }
      }
    }
  }

  lemma {:induction false} RowsOfStepsExtend(steps: seq<Step>, at: Place)
    ensures forall i :: 0 <= i < |RowsOfSteps(steps, at)| ==> FromStep(RowsOfSteps(steps, at)[i], steps, at.keys)
    decreases StepsSize(steps), 1, |steps|
  {
    if steps != [] {
      var below := at.Then(steps[0].place);
      var head, rest := Rows(steps[0].child, below), RowsOfSteps(steps[1..], at);
      RowsExtend(steps[0].child, below);
      RowsOfStepsExtend(steps[1..], at);
      forall i | 0 <= i < |head + rest| ensures FromStep((head + rest)[i], steps, at.keys) {
        if i < |head| {
          assert Extends(head[i], at.keys + steps[0].place.keys, 2);
        } else {
          assert FromStep(rest[i - |head|], steps[1..], at.keys);
          var j :| 0 <= j < |steps[1..]| && Extends(rest[i - |head|], at.keys + steps[1..][j].place.keys, 2);
          assert steps[j + 1] == steps[1..][j];
        }
      }
    }
  }

  /** Neither key list is a beginning of the other. */
  predicate Diverge(a: seq<string>, b: seq<string>) {
    exists k :: 0 <= k < |a| && k < |b| && a[k] != b[k]
  }

  predicate AllDiverge(steps: seq<Step>) {
    forall i, j :: 0 <= i < j < |steps| ==> Diverge(steps[i].place.keys, steps[j].place.keys)
  }

  lemma DivergedRowsDiffer(a: Row, b: Row, at: seq<string>, x: seq<string>, y: seq<string>)
    requires Extends(a, at + x, 2) && Extends(b, at + y, 2) && Diverge(x, y)
    ensures a.place.keys != b.place.keys
  {
    var k :| 0 <= k < |x| && k < |y| && x[k] != y[k];
    assert a.place.keys[|at| + k] == (at + x)[|at| + k] == x[k];
    assert b.place.keys[|at| + k] == (at + y)[|at| + k] == y[k];
  }

  lemma StepsDiverge(m: Member)
    requires m.value.Obj? ==> Distinct(m.value.members)
    ensures AllDiverge(StepsOf(m))
  {
    var steps := StepsOf(m);
    forall i, j | 0 <= i < j < |steps| ensures Diverge(steps[i].place.keys, steps[j].place.keys) {
      var a, b := steps[i].place.keys, steps[j].place.keys;
      match m.value
      case Obj(inner) =>
        assert a[1] == inner[i].name && b[1] == inner[j].name;
      case Arr(items) =>
        assert a[1] == Decimal(i) && b[1] == Decimal(j);
        if a[1] == b[1] {
          DecimalInjective(i, j);
        }
    }
  }

  /** No two rows of the walk have the same keys. */
  lemma {:induction false} RowsDistinct(node: Value, at: Place)
    requires Dicts(node)
    ensures NoDuplicates(Rows(node, at))
    decreases Size(node), 0, 0
  {
    if node.Obj? {
      var own, below := Placed(OwnRows(node.members), at), RowsOfMembers(node.members, at);
      PropertiesAreDict(node.members);
      OwnRowsDistinct(node.members);
      PlacedDistinct(OwnRows(node.members), at);
      RowsOfMembersDistinct(node.members, at);
      RowsOfMembersExtend(node.members, at);
      forall i, j | 0 <= i < |own| && 0 <= j < |below| ensures own[i].place.keys != below[j].place.keys {
        assert FromMember(below[j], node.members, at.keys);
        assert |own[i].place.keys| == |at.keys| + 2;
      }
      ApartConcat(own, below);
    }
  }

  lemma PropertiesAreDict(members: seq<Member>)
    requires AllDicts(members)
    ensures Distinct(PropertiesOf(members))
  {
    GetIsMember(members, "properties");
  }

  lemma PlacedDistinct(rows: seq<Row>, at: Place)
    requires NoDuplicates(rows)
    ensures NoDuplicates(Placed(rows, at))
  {
    var placed := Placed(rows, at);
    forall i, j | 0 <= i < j < |placed| ensures placed[i].place.keys != placed[j].place.keys {
      assert placed[i].place.keys[|at.keys|..] == rows[i].place.keys;
      assert placed[j].place.keys[|at.keys|..] == rows[j].place.keys;
    }
  }

  lemma {:induction false} RowsOfMembersDistinct(members: seq<Member>, at: Place)
    requires AllDicts(members)
    ensures NoDuplicates(RowsOfMembers(members, at))
    decreases SizeMembers(members), 2, |members|
  {
    if members != [] {
      StepsShrink(members[0]);
      var steps := StepsOf(members[0]);
      var head, rest := RowsOfSteps(steps, at), RowsOfMembers(members[1..], at);
      assert Dicts(members[0].value);
      StepsDiverge(members[0]);
      StepChildrenAreDicts(members[0]);
      RowsOfStepsDistinct(steps, at);
      RowsOfMembersDistinct(members[1..], at);
      RowsOfStepsExtend(steps, at);
      RowsOfMembersExtend(members[1..], at);
      forall i, j | 0 <= i < |head| && 0 <= j < |rest| ensures head[i].place.keys != rest[j].place.keys {
        assert FromStep(head[i], steps, at.keys) && FromMember(rest[j], members[1..], at.keys);
        var k :| 0 <= k < |steps| && Extends(head[i], at.keys + steps[k].place.keys, 2);
        StepKeys(members[0], k);
        var l :| 0 <= l < |members[1..]| && rest[j].place.keys[|at.keys|] == members[1..][l].name;
        assert members[l + 1] == members[1..][l];
        assert head[i].place.keys[|at.keys|] == members[0].name;
      }
      ApartConcat(head, rest);
    }
  }

  predicate ChildrenDicts(steps: seq<Step>) {
    forall i :: 0 <= i < |steps| ==> Dicts(steps[i].child)
  }

  lemma StepChildrenAreDicts(m: Member)
    requires Dicts(m.value)
    ensures ChildrenDicts(StepsOf(m))
  {
  }

  lemma {:induction false} RowsOfStepsDistinct(steps: seq<Step>, at: Place)
    requires AllDiverge(steps) && ChildrenDicts(steps)
    ensures NoDuplicates(RowsOfSteps(steps, at))
    decreases StepsSize(steps), 1, |steps|
  {
    if steps != [] {
      var below := at.Then(steps[0].place);
      var head, rest := Rows(steps[0].child, below), RowsOfSteps(steps[1..], at);
      RowsDistinct(steps[0].child, below);
      RowsOfStepsDistinct(steps[1..], at);
      RowsExtend(steps[0].child, below);
      RowsOfStepsExtend(steps[1..], at);
      forall i, j | 0 <= i < |head| && 0 <= j < |rest| ensures head[i].place.keys != rest[j].place.keys {
        assert FromStep(rest[j], steps[1..], at.keys);
        var k :| 0 <= k < |steps[1..]| && Extends(rest[j], at.keys + steps[1..][k].place.keys, 2);
        assert steps[k + 1] == steps[1..][k];
        DivergedRowsDiffer(head[i], rest[j], at.keys, steps[0].place.keys, steps[k + 1].place.keys);
      }
      ApartConcat(head, rest);
    }
  }
}
