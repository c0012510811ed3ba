/** What the contracts of scripts/codex/inventory.py cover and where their pointers lead. */
module ContractPointers {
  import opened Wrappers
  import opened Json
  import opened JsonPointer
  import opened SchemaContracts
  import opened Text

  // ----- Exactly the fields and alternatives of the visited nodes

  function PlaceOf(path: seq<Step>): Place {
    if path == [] then Place([], "") else path[0].place.Then(PlaceOf(path[1..]))
  }

  /** The walk from `node` comes to `v` by these steps. */
  ghost predicate Visited(node: Value, path: seq<Step>, v: Value)
    decreases |path|
  {
    if path == [] then v == node
    else
      && node.Obj?
      && (exists i :: 0 <= i < |node.members| && path[0] in StepsOf(node.members[i]))
      && Visited(path[0].child, path[1..], v)
  }

  function Below(at: Place, path: seq<Step>, row: Row): Row {
    row.(place := at.Then(PlaceOf(path)).Then(row.place))
  }

  lemma ThenAssociates(a: Place, b: Place, c: Place)
    ensures a.Then(b).Then(c) == a.Then(b.Then(c))
    ensures a.Then(Place([], "")) == a && Place([], "").Then(a) == a
  {
  }

  lemma {:induction false} RowFromMembers(members: seq<Member>, at: Place, row: Row) returns (i: nat, step: Step)
    requires row in RowsOfMembers(members, at)
    ensures i < |members| && step in StepsOf(members[i]) && row in Rows(step.child, at.Then(step.place))
    decreases |members|
  {
    if row in RowsOfSteps(StepsOf(members[0]), at) {
      i := 0;
      step := RowFromSteps(StepsOf(members[0]), at, row);
    } else {
      var j;
      j, step := RowFromMembers(members[1..], at, row);
      i := j + 1;
    }
  }

  lemma {:induction false} RowFromSteps(steps: seq<Step>, at: Place, row: Row) returns (step: Step)
    requires row in RowsOfSteps(steps, at)
    ensures step in steps && row in Rows(step.child, at.Then(step.place))
    decreases |steps|
  {
    if row in Rows(steps[0].child, at.Then(steps[0].place)) {
      step := steps[0];
    } else {
      step := RowFromSteps(steps[1..], at, row);
    }
  }

  lemma {:induction false} MembersHaveRows(members: seq<Member>, at: Place, i: nat, step: Step, row: Row)
    requires i < |members| && step in StepsOf(members[i]) && row in Rows(step.child, at.Then(step.place))
    ensures row in RowsOfMembers(members, at)
    decreases |members|
  {
    if i == 0 {
      StepsHaveRows(StepsOf(members[0]), at, step, row);
    } else {
      assert members[1..][i - 1] == members[i];
      MembersHaveRows(members[1..], at, i - 1, step, row);
    }
    RowsOfFirst(members, at);
  }

  lemma RowsOfFirst(members: seq<Member>, at: Place)
    requires members != []
    ensures RowsOfMembers(members, at) == RowsOfSteps(StepsOf(members[0]), at) + RowsOfMembers(members[1..], at)
  {
  }

  lemma {:induction false} StepsHaveRows(steps: seq<Step>, at: Place, step: Step, row: Row)
    requires step in steps && row in Rows(step.child, at.Then(step.place))
    ensures row in RowsOfSteps(steps, at)
    decreases |steps|
  {
    if step != steps[0] {
      StepsHaveRows(steps[1..], at, step, row);
    }
  }

  lemma MemberSize(members: seq<Member>, i: nat, step: Step)
    requires i < |members| && step in StepsOf(members[i])
    ensures Size(step.child) <= SizeMembers(members)
    decreases |members|
  {
    StepsShrink(members[i]);
    StepSize(StepsOf(members[i]), step);
    if i > 0 {
      MemberSize(members[1..], i - 1, step);
    }
  }

  lemma {:induction false} StepSize(steps: seq<Step>, step: Step)
    requires step in steps
    ensures Size(step.child) <= StepsSize(steps)
  {
    if step != steps[0] {
      StepSize(steps[1..], step);
    }
  }

  /** Every row of the walk is a field or an alternative of a visited node. */
  lemma {:induction false} RowIsOfVisited(node: Value, at: Place, row: Row)
    returns (path: seq<Step>, v: Value, own: Row)
    requires row in Rows(node, at)
    ensures Visited(node, path, v) && v.Obj? && own in OwnRows(v.members) && row == Below(at, path, own)
    decreases Size(node)
  {
    if row in Placed(OwnRows(node.members), at) {
      var i :| 0 <= i < |OwnRows(node.members)| && Placed(OwnRows(node.members), at)[i] == row;
      path, v, own := [], node, OwnRows(node.members)[i];
      ThenAssociates(at, Place([], ""), own.place);
    } else {
      var i, step := RowFromMembers(node.members, at, row);
      MemberSize(node.members, i, step);
      var rest;
      rest, v, own := RowIsOfVisited(step.child, at.Then(step.place), row);
      path := [step] + rest;
      assert path[1..] == rest;
      ThenAssociates(at, step.place, PlaceOf(rest));
    }
  }

  /** Every field and alternative of a visited node has its row. */
  lemma {:induction false} VisitedHasRow(node: Value, at: Place, path: seq<Step>, v: Value, own: Row)
    requires Visited(node, path, v) && v.Obj? && own in OwnRows(v.members)
    ensures Below(at, path, own) in Rows(node, at)
    decreases |path|
  {
    if path == [] {
      OwnRowPlaced(OwnRows(v.members), at, own);
    } else {
      var i :| 0 <= i < |node.members| && path[0] in StepsOf(node.members[i]);
      BelowStep(at, path, own);
      VisitedHasRow(path[0].child, at.Then(path[0].place), path[1..], v, own);
      MembersHaveRows(node.members, at, i, path[0], Below(at, path, own));
    }
  }

  lemma OwnRowPlaced(rows: seq<Row>, at: Place, own: Row)
    requires own in rows
    ensures Below(at, [], own) in Placed(rows, at)
  {
    var i :| 0 <= i < |rows| && rows[i] == own;
    ThenAssociates(at, at, at);
    assert Placed(rows, at)[i] == Below(at, [], own);
  }

  lemma BelowStep(at: Place, path: seq<Step>, own: Row)
    requires path != []
    ensures Below(at, path, own) == Below(at.Then(path[0].place), path[1..], own)
  {
    ThenAssociates(at, path[0].place, PlaceOf(path[1..]));
  }

  lemma {:induction false} FieldRowsHold(properties: seq<Member>, names: seq<string>, name: string)
    requires name in names && Has(properties, name)
    ensures Row(Field(name), NamePlace("properties", name), Get(properties, name).value) in FieldRows(properties, names)
  {
    if name != names[0] {
      FieldRowsHold(properties, names[1..], name);
    }
  }

  lemma {:induction false} VariantRowsHold(members: seq<Member>, k: nat, j: nat, i: nat)
    requires k <= j < 4 && i < |AlternativesOf(members, KEYWORDS[j])|
    ensures Row(Variant(KEYWORDS[j]), IndexPlace(KEYWORDS[j], i), AlternativesOf(members, KEYWORDS[j])[i]) in VariantRowsFrom(members, k)
    decreases 4 - k
  {
    if k == j {
      assert VariantRows(KEYWORDS[k], AlternativesOf(members, KEYWORDS[k]))[i] in VariantRows(KEYWORDS[k], AlternativesOf(members, KEYWORDS[k]));
    } else {
      VariantRowsHold(members, k + 1, j, i);
    }
  }

  /** Every property and every alternative of a node is among its own rows. */
  lemma OwnRowsHold(members: seq<Member>)
    ensures forall name :: Has(PropertiesOf(members), name) ==>
      Row(Field(name), NamePlace("properties", name), Get(PropertiesOf(members), name).value) in OwnRows(members)
    ensures forall j, i :: 0 <= j < 4 && 0 <= i < |AlternativesOf(members, KEYWORDS[j])| ==>
      Row(Variant(KEYWORDS[j]), IndexPlace(KEYWORDS[j], i), AlternativesOf(members, KEYWORDS[j])[i]) in OwnRows(members)
  {
    var properties := PropertiesOf(members);
    forall name | Has(properties, name)
      ensures Row(Field(name), NamePlace("properties", name), Get(properties, name).value) in OwnRows(members)
    {
      GetIsMember(properties, name);
      var i :| 0 <= i < |properties| && properties[i].name == name;
      assert MemberNames(properties)[i] == name;
      SortIsSorted(MemberNames(properties));
      assert name in multiset(MemberNames(properties));
      assert name in multiset(Sort(MemberNames(properties)));
      FieldRowsHold(properties, Sort(MemberNames(properties)), name);
    }
    forall j, i | 0 <= j < 4 && 0 <= i < |AlternativesOf(members, KEYWORDS[j])|
      ensures Row(Variant(KEYWORDS[j]), IndexPlace(KEYWORDS[j], i), AlternativesOf(members, KEYWORDS[j])[i]) in OwnRows(members)
    {
      VariantRowsHold(members, 0, j, i);
    }
  }

  lemma {:induction false} FieldRowIs(properties: seq<Member>, names: seq<string>, row: Row)
    requires row in FieldRows(properties, names)
    ensures row.kind.Field? && Has(properties, row.kind.name)
    ensures row == Row(row.kind, NamePlace("properties", row.kind.name), Get(properties, row.kind.name).value)
    decreases |names|
  {
    if row in FieldRows(properties, names[1..]) {
      FieldRowIs(properties, names[1..], row);
    }
  }

  lemma {:induction false} VariantRowIs(members: seq<Member>, from: nat, row: Row) returns (k: nat, i: nat)
    requires from <= 4 && row in VariantRowsFrom(members, from)
    ensures k < 4 && i < |AlternativesOf(members, KEYWORDS[k])|
    ensures row == Row(Variant(KEYWORDS[k]), IndexPlace(KEYWORDS[k], i), AlternativesOf(members, KEYWORDS[k])[i])
    decreases 4 - from
  {
    var rows := VariantRows(KEYWORDS[from], AlternativesOf(members, KEYWORDS[from]));
    if row in rows {
      var j :| 0 <= j < |rows| && rows[j] == row;
      k, i := from, j;
    } else {
      k, i := VariantRowIs(members, from + 1, row);
    }
  }

  /** A node has no other rows: each is one of its properties or one of its alternatives. */
  lemma OwnRowIs(members: seq<Member>, row: Row) returns (k: nat, i: nat)
    requires row in OwnRows(members)
    ensures row.kind.Field? ==>
      && Has(PropertiesOf(members), row.kind.name)
      && row == Row(row.kind, NamePlace("properties", row.kind.name), Get(PropertiesOf(members), row.kind.name).value)
    ensures row.kind.Variant? ==>
      && k < 4 && i < |AlternativesOf(members, KEYWORDS[k])|
      && row == Row(Variant(KEYWORDS[k]), IndexPlace(KEYWORDS[k], i), AlternativesOf(members, KEYWORDS[k])[i])
  {
    k, i := 0, 0;
    var names := Sort(MemberNames(PropertiesOf(members)));
    if row in FieldRows(PropertiesOf(members), names) {
      FieldRowIs(PropertiesOf(members), names, row);
    } else {
      k, i := VariantRowIs(members, 0, row);
    }
  }

  // ----- Pointers resolve

  /** A key that its pointer text need not escape. */
  predicate PlainKey(key: string) {
    key != "" && '~' !in key && '/' !in key
  }

  /** Alternatives are lists, and the keys the walk descends through are plain. */
  predicate ProperHere(members: seq<Member>) {
    && (forall k :: 0 <= k < 4 && Has(members, KEYWORDS[k]) ==> Get(members, KEYWORDS[k]).value.Arr?)
    && (forall i :: 0 <= i < |members| && StepsOf(members[i]) != [] ==> PlainKey(members[i].name))
  }

  /** Every node the walk visits is so. */
  ghost predicate Proper(node: Value) {
    forall path, v :: Visited(node, path, v) && v.Obj? ==> ProperHere(v.members)
  }

  lemma ProperNext(node: Value, i: nat, step: Step)
    requires Proper(node) && node.Obj? && i < |node.members| && step in StepsOf(node.members[i])
    ensures Proper(step.child)
  {
    forall path, v | Visited(step.child, path, v) && v.Obj? ensures ProperHere(v.members) {
      assert ([step] + path)[1..] == path;
      assert Visited(node, [step] + path, v);
    }
  }

  lemma {:induction false} ReplaceAbsent(s: string, before: char, after: string)
    requires before !in s
    ensures Replace(s, [before], after) == s
  {
    if s != "" {
      assert s[0] != before && !([before] <= s);
      ReplaceAbsent(s[1..], before, after);
      assert [s[0]] + s[1..] == s;
    }
  }

  lemma EscapePlain(key: string)
    requires '~' !in key && '/' !in key
    ensures Escape(key) == key
  {
    ReplaceAbsent(key, '~', "~0");
    ReplaceAbsent(key, '/', "~1");
  }

  lemma {:induction false} SlashedConcat(a: seq<string>, b: seq<string>)
    ensures Slashed(a + b) == Slashed(a) + Slashed(b)
  {
    if a == [] {
      assert a + b == b;
    } else {
      assert (a + b)[1..] == a[1..] + b;
      SlashedConcat(a[1..], b);
    }
  }

  lemma RenderConcat(a: seq<string>, b: seq<string>)
    ensures Render(a + b) == Render(a) + Render(b)
  {
    assert EscapeAll(a + b) == EscapeAll(a) + EscapeAll(b);
    SlashedConcat(EscapeAll(a), EscapeAll(b));
  }

  /** The place's text is the pointer of its keys. */
  predicate Faithful(p: Place) {
    p.text == Render(p.keys)
  }

  lemma ThenFaithful(a: Place, b: Place)
    requires Faithful(a) && Faithful(b)
    ensures Faithful(a.Then(b))
  {
    RenderConcat(a.keys, b.keys);
  }

  lemma RenderTwo(a: string, b: string)
    ensures Render([a]) == "/" + Escape(a) && Render([a, b]) == "/" + Escape(a) + "/" + Escape(b)
  {
    assert EscapeAll([a]) == [Escape(a)] && EscapeAll([a, b]) == [Escape(a), Escape(b)];
    assert [Escape(a), Escape(b)][1..] == [Escape(b)] && [Escape(b)][1..] == [];
    assert Slashed([Escape(b)]) == "/" + Escape(b) + "" == "/" + Escape(b);
    assert Slashed([Escape(a), Escape(b)]) == "/" + Escape(a) + ("/" + Escape(b));
    assert Slashed([Escape(a)]) == "/" + Escape(a) + "";
  }

  lemma PlacesFaithful(key: string, name: string, i: nat)
    requires PlainKey(key)
    ensures Faithful(KeyPlace(key)) && Faithful(NamePlace(key, name)) && Faithful(IndexPlace(key, i))
  {
    EscapePlain(key);
    DecimalIsPlain(i);
    EscapePlain(Decimal(i));
    RenderTwo(key, name);
    RenderTwo(key, Decimal(i));
  }

  lemma DecimalIsPlain(i: nat)
    ensures '~' !in Decimal(i) && '/' !in Decimal(i)
  {
    assert !IsDigit('~') && !IsDigit('/');
  }

  lemma KeywordsArePlain()
    ensures PlainKey("properties") && forall k :: 0 <= k < 4 ==> PlainKey(KEYWORDS[k])
  {
    assert PlainKey("oneOf") && PlainKey("anyOf") && PlainKey("allOf") && PlainKey("enum");
  }

  lemma FollowTwo(v: Value, a: string, b: string, mid: Value, end: Value)
    requires Lookup(v, a) == Success(mid) && Lookup(mid, b) == Success(end)
    ensures Follow(v, [a, b]) == Success(end) && Follow(v, [a]) == Success(mid)
  {
    assert [a, b][1..] == [b] && [b][1..] == [] && [a][1..] == [];
    assert Follow(mid, [b]) == Follow(end, []) == Success(end);
  }

  lemma LookupIndex(items: seq<Value>, i: nat)
    requires i < |items|
    ensures Lookup(Arr(items), Decimal(i)) == Success(items[i])
  {
    ReadIntOfDecimal(i);
  }

  /** A row leads where its keys say: from the node to its schema. */
  predicate Leads(node: Value, p: Place, target: Value) {
    Faithful(p) && p.keys != [] && p.keys[0] != "" && Follow(node, p.keys) == Success(target)
  }

  lemma FieldLeads(members: seq<Member>, name: string)
    requires Has(PropertiesOf(members), name)
    ensures Leads(Obj(members), NamePlace("properties", name), Get(PropertiesOf(members), name).value)
  {
    KeywordsArePlain();
    PlacesFaithful("properties", name, 0);
    PropertiesAre(members, name);
    LookupName(members, "properties");
    LookupName(PropertiesOf(members), name);
    FollowTwo(Obj(members), "properties", name, Obj(PropertiesOf(members)), Get(PropertiesOf(members), name).value);
  }

  lemma PropertiesAre(members: seq<Member>, name: string)
    requires Has(PropertiesOf(members), name)
    ensures Get(members, "properties") == Some(Obj(PropertiesOf(members)))
  {
    assert PropertiesOf(members) != [];
  }

  lemma LookupName(members: seq<Member>, name: string)
    requires Has(members, name)
    ensures Lookup(Obj(members), name) == Success(Get(members, name).value)
  {
  }

  lemma VariantLeads(members: seq<Member>, k: nat, i: nat)
    requires k < 4 && ProperHere(members) && i < |AlternativesOf(members, KEYWORDS[k])|
    ensures Leads(Obj(members), IndexPlace(KEYWORDS[k], i), AlternativesOf(members, KEYWORDS[k])[i])
  {
    KeywordsArePlain();
    PlacesFaithful(KEYWORDS[k], "", i);
    assert Has(members, KEYWORDS[k]);
    var items := Get(members, KEYWORDS[k]).value.items;
    LookupIndex(items, i);
    FollowTwo(Obj(members), KEYWORDS[k], Decimal(i), Arr(items), items[i]);
  }

  lemma {:induction false} FieldRowsLead(members: seq<Member>, names: seq<string>, row: Row)
    requires row in FieldRows(PropertiesOf(members), names)
    ensures Leads(Obj(members), row.place, row.schema)
    decreases |names|
  {
    if row in FieldRows(PropertiesOf(members), names[1..]) {
      FieldRowsLead(members, names[1..], row);
    } else {
      FieldLeads(members, names[0]);
    }
  }

  lemma {:induction false} VariantRowsLead(members: seq<Member>, k: nat, row: Row)
    requires k <= 4 && ProperHere(members) && row in VariantRowsFrom(members, k)
    ensures Leads(Obj(members), row.place, row.schema)
    decreases 4 - k
  {
    var rows := VariantRows(KEYWORDS[k], AlternativesOf(members, KEYWORDS[k]));
    if row in rows {
      var i :| 0 <= i < |rows| && rows[i] == row;
      VariantLeads(members, k, i);
    } else {
      VariantRowsLead(members, k + 1, row);
    }
  }

  lemma OwnRowsLead(members: seq<Member>, row: Row)
    requires ProperHere(members) && row in OwnRows(members)
    ensures Leads(Obj(members), row.place, row.schema)
  {
    var names := Sort(MemberNames(PropertiesOf(members)));
    if row in FieldRows(PropertiesOf(members), names) {
      FieldRowsLead(members, names, row);
    } else {
      VariantRowsLead(members, 0, row);
    }
  }

  lemma StepLeads(members: seq<Member>, i: nat, step: Step)
    requires AllDicts(members) && ProperHere(members) && i < |members| && step in StepsOf(members[i])
    ensures Leads(Obj(members), step.place, step.child) && Dicts(step.child)
  {
    var m, steps := members[i], StepsOf(members[i]);
    GetUnique(members, i);
    assert Dicts(m.value);
    var j :| 0 <= j < |steps| && steps[j] == step;
    match m.value
    case Obj(inner) =>
      if IsContainer(m.name) {
        PlacesFaithful(m.name, inner[j].name, 0);
        GetUnique(inner, j);
        FollowTwo(Obj(members), m.name, inner[j].name, m.value, inner[j].value);
      } else {
        PlacesFaithful(m.name, "", 0);
        assert [m.name][1..] == [];
        assert Follow(Obj(members), [m.name]) == Follow(m.value, []);
      }
    case Arr(items) =>
      PlacesFaithful(m.name, "", j);
      LookupIndex(items, j);
      FollowTwo(Obj(members), m.name, Decimal(j), m.value, items[j]);
  }

  lemma LeadsThen(node: Value, a: Place, mid: Value, b: Place, end: Value)
    requires Leads(node, a, mid) && Leads(mid, b, end)
    ensures Leads(node, a.Then(b), end)
  {
    ThenFaithful(a, b);
    FollowConcat(node, a.keys, b.keys);
  }

  /** From the node, a row leads to its schema. */
  lemma {:induction false} RowLeads(node: Value, path: seq<Step>, v: Value, own: Row)
    requires Dicts(node) && Proper(node) && Visited(node, path, v) && v.Obj? && own in OwnRows(v.members)
    ensures Leads(node, PlaceOf(path).Then(own.place), own.schema)
    decreases |path|
  {
    if path == [] {
      assert Visited(node, [], node);
      OwnRowsLead(node.members, own);
      assert Place([], "").Then(own.place) == own.place;
    } else {
      var step := path[0];
      var i :| 0 <= i < |node.members| && step in StepsOf(node.members[i]);
      assert Visited(node, [], node);
      StepLeads(node.members, i, step);
      ProperNext(node, i, step);
      RowLeads(step.child, path[1..], v, own);
      LeadsThen(node, step.place, step.child, PlaceOf(path[1..]).Then(own.place), own.schema);
      ThenAssociates(step.place, PlaceOf(path[1..]), own.place);
    }
  }

  /** Every contract's pointer, read by `pointer`, leads back to its field or alternative. */
  lemma ContractResolves(full: Value, row: Row)
    requires Dicts(full) && Proper(full) && row in Rows(full, Place([], ""))
    ensures Follow(full, Keys(Written(row).pointer)) == Success(row.schema)
    ensures row.place.text == Render(row.place.keys)
  {
    var path, v, own := RowIsOfVisited(full, Place([], ""), row);
    RowLeads(full, path, v, own);
    ThenAssociates(PlaceOf(path), own.place, own.place);
    PointerReadsBack(full, row.place.keys);
  }

  /** No two contracts have the same pointer. */
  lemma ContractPointersDistinct(full: Value, i: nat, j: nat)
    requires Dicts(full) && Proper(full) && i < j < |Rows(full, Place([], ""))|
    ensures AllWritten(Rows(full, Place([], "")))[i].pointer != AllWritten(Rows(full, Place([], "")))[j].pointer
  {
    var rows := Rows(full, Place([], ""));
    RowsDistinct(full, Place([], ""));
    ContractResolves(full, rows[i]);
    ContractResolves(full, rows[j]);
    if rows[i].place.text == rows[j].place.text {
      RenderInjective(rows[i].place.keys, rows[j].place.keys);
    }
  }
}
