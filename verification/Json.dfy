/** Parsed JSON text: what `json.loads` returns and the schema tools walk. */
module Json {
  import opened Wrappers

  /** What leads to a definition of the same document. */
  const PREFIX := "#/definitions/"

  /** A dict keeps its members in insertion order. */
  datatype Value =
    | Null
    | Bool(b: bool)
    | Number(n: real)
    | Str(s: string)
    | Arr(items: seq<Value>)
    | Obj(members: seq<Member>)

  datatype Member = Member(name: string, value: Value)

  /** `dict.get`: a dict has each name once, so the first match is the only one. */
  function Get(members: seq<Member>, name: string): Option<Value> {
    if members == [] then None
    else if members[0].name == name then Some(members[0].value)
    else Get(members[1..], name)
  }

  predicate Has(members: seq<Member>, name: string) {
    Get(members, name).Some?
  }

  lemma GetIsMember(members: seq<Member>, name: string)
    ensures Get(members, name).Some? ==> Member(name, Get(members, name).value) in members
    ensures Get(members, name).None? <==> forall i :: 0 <= i < |members| ==> members[i].name != name
  {
    if members != [] && members[0].name != name {
      GetIsMember(members[1..], name);
      assert forall i :: 1 <= i < |members| ==> members[i] == members[1..][i - 1];
    }
  }

  function MemberNames(members: seq<Member>): (names: seq<string>)
    ensures |names| == |members|
    ensures forall i :: 0 <= i < |names| ==> names[i] == members[i].name
  {
    seq(|members|, i requires 0 <= i < |members| => members[i].name)
  }

  /** Each name once. */
  predicate Distinct(members: seq<Member>) {
    forall i, j :: 0 <= i < j < |members| ==> members[i].name != members[j].name
  }

  lemma DistinctFirst(members: seq<Member>)
    requires members != []
    ensures Distinct(members) <==> !Has(members[1..], members[0].name) && Distinct(members[1..])
  {
    var rest := members[1..];
    GetIsMember(rest, members[0].name);
    assert forall i :: 1 <= i < |members| ==> members[i] == rest[i - 1];
  }

  lemma {:induction false} GetUnique(members: seq<Member>, i: nat)
    requires Distinct(members) && i < |members|
    ensures Get(members, members[i].name) == Some(members[i].value)
  {
    if i > 0 {
      assert members[1..][i - 1] == members[i];
      GetUnique(members[1..], i - 1);
    }
  }

  /** `dict.values()`. */
  function Values(members: seq<Member>): (vs: seq<Value>)
    ensures |vs| == |members|
    ensures forall i :: 0 <= i < |vs| ==> vs[i] == members[i].value
  {
    seq(|members|, i requires 0 <= i < |members| => members[i].value)
  }

  function Children(v: Value): seq<Value> {
    match v
    case Arr(items) => items
    case Obj(members) => Values(members)
    case _ => []
  }

  /** A list holds its items, a dict the values of its members. */
  ghost predicate ChildOf(v: Value, child: Value) {
    match v
    case Arr(items) => child in items
    case Obj(members) => exists name: string :: Member(name, child) in members
    case _ => false
  }

  lemma ChildrenAre(v: Value, child: Value)
    ensures child in Children(v) <==> ChildOf(v, child)
  {
    if v.Obj? {
      if child in Children(v) {
        var i :| 0 <= i < |v.members| && Values(v.members)[i] == child;
        assert Member(v.members[i].name, child) in v.members;
      }
      if name: string :| Member(name, child) in v.members {
        var i :| 0 <= i < |v.members| && v.members[i] == Member(name, child);
        assert Values(v.members)[i] == child;
      }
    }
  }

  /** A node of the tree: the value itself, or a node below an item or a member. */
  ghost predicate Under(n: Value, v: Value)
    decreases v
  {
    n == v ||
    match v
    case Arr(items) => exists i :: 0 <= i < |items| && Under(n, items[i])
    case Obj(members) => exists i :: 0 <= i < |members| && Under(n, members[i].value)
    case _ => false
  }

  /** A node is the value itself or below one of its children. */
  lemma UnderChildren(n: Value, v: Value)
    ensures Under(n, v) <==> n == v || exists c <- Children(v) :: Under(n, c)
  {
    var children := Children(v);
    if c :| c in children && Under(n, c) {
      var i :| 0 <= i < |children| && children[i] == c;
    }
    if v.Obj? {
      assert forall i :: 0 <= i < |v.members| ==> v.members[i].value == children[i] && children[i] in children;
    }
  }

  /** Python truthiness. */
  predicate Truthy(v: Value) {
    match v
    case Null => false
    case Bool(b) => b
    case Number(n) => n != 0.0
    case Str(s) => s != ""
    case Arr(items) => items != []
    case Obj(members) => members != []
  }

  /** The number of nodes of a tree: a termination measure. */
  function Size(v: Value): (n: nat)
    ensures n >= 1
  {
    match v
    case Arr(items) => 1 + SizeAll(items)
    case Obj(members) => 1 + SizeMembers(members)
    case _ => 1
  }

  function SizeAll(vs: seq<Value>): nat {
    if vs == [] then 0 else Size(vs[0]) + SizeAll(vs[1..])
  }

  function SizeMembers(members: seq<Member>): nat {
    if members == [] then 0 else Size(members[0].value) + SizeMembers(members[1..])
  }

  lemma {:induction false} SizeAllConcat(xs: seq<Value>, ys: seq<Value>)
    ensures SizeAll(xs + ys) == SizeAll(xs) + SizeAll(ys)
  {
    if xs == [] {
      assert xs + ys == ys;
    } else {
      assert (xs + ys)[1..] == xs[1..] + ys;
      SizeAllConcat(xs[1..], ys);
    }
  }

  lemma {:induction false} SizeOfValues(members: seq<Member>)
    ensures SizeAll(Values(members)) == SizeMembers(members)
  {
    if members != [] {
      assert Values(members)[1..] == Values(members[1..]);
      SizeOfValues(members[1..]);
    }
  }

  lemma SizeOfChildren(v: Value)
    ensures SizeAll(Children(v)) < Size(v)
  {
    if v.Obj? {
      SizeOfValues(v.members);
    }
  }

  lemma {:induction false} SizeOfElement(vs: seq<Value>, i: nat)
    requires i < |vs|
    ensures Size(vs[i]) <= SizeAll(vs)
  {
    if i > 0 {
      SizeOfElement(vs[1..], i - 1);
    }
  }

  // ----- Dict updates

  /** `result[name] = value`: an existing name keeps its place. */
  function Put(members: seq<Member>, name: string, value: Value): seq<Member> {
    if members == [] then [Member(name, value)]
    else if members[0].name == name then [Member(name, value)] + members[1..]
    else [members[0]] + Put(members[1..], name, value)
  }

  /** `result.update(more)`. */
  function Update(members: seq<Member>, more: seq<Member>): seq<Member>
    decreases |more|
  {
    if more == [] then members else Update(Put(members, more[0].name, more[0].value), more[1..])
  }

  lemma {:induction false} GetPut(members: seq<Member>, name: string, value: Value, key: string)
    ensures Get(Put(members, name, value), key) == if key == name then Some(value) else Get(members, key)
  {
    if members != [] && members[0].name != name {
      GetPut(members[1..], name, value, key);
    }
  }

  lemma {:induction false} PutDistinct(members: seq<Member>, name: string, value: Value)
    requires Distinct(members)
    ensures Distinct(Put(members, name, value))
  {
    if members != [] {
      var put := Put(members, name, value);
      DistinctFirst(members);
      DistinctFirst(put);
      if members[0].name == name {
        assert put[1..] == members[1..];
      } else {
        PutDistinct(members[1..], name, value);
        GetPut(members[1..], name, value, members[0].name);
        assert put[1..] == Put(members[1..], name, value);
      }
    }
  }

  lemma {:induction false} UpdateDistinct(members: seq<Member>, more: seq<Member>)
    requires Distinct(members)
    ensures Distinct(Update(members, more))
    decreases |more|
  {
    if more != [] {
      PutDistinct(members, more[0].name, more[0].value);
      UpdateDistinct(Put(members, more[0].name, more[0].value), more[1..]);
    }
  }

  lemma {:induction false} GetUpdate(members: seq<Member>, more: seq<Member>, key: string)
    requires Distinct(more)
    ensures Get(Update(members, more), key) == if Has(more, key) then Get(more, key) else Get(members, key)
    decreases |more|
  {
    if more != [] {
      DistinctFirst(more);
      GetPut(members, more[0].name, more[0].value, key);
      GetUpdate(Put(members, more[0].name, more[0].value), more[1..], key);
    }
  }
}
