/** The output schema corrections of scripts/codex/generate_output_semantics.py: `corrected` renames the
    properties of union branches. */
module OutputCorrections {
  import opened Wrappers
  import opened Json

  type Renames = map<string, string>

  /** One alternative of the corrected definition, which may lack `required`. */
  datatype Branch = Branch(properties: seq<Member>, required: Option<seq<string>>)

  /** `schema["enum"][0]`, a value that a dict can be asked for. */
  function TagIn(schema: Option<Value>): Result<Value> {
    match schema
    case Some(Obj(members)) =>
      (match Get(members, "enum")
       case Some(Arr(items)) => if items == [] || items[0].Arr? || items[0].Obj? then Failure else Success(items[0])
       case Some(Str(text)) => if text == "" then Failure else Success(Str([text[0]]))
       case _ => Failure)
    case _ => Failure
  }

  /** `branch["properties"]["type"]["enum"][0]`. */
  function TagOf(branch: Branch): Result<Value> {
    TagIn(Get(branch.properties, "type"))
  }

  /** `renames.get(name, name)`. */
  function NewName(renames: Renames, name: string): string {
    if name in renames then renames[name] else name
  }

  /** The dict comprehension over `items()`: a name met again replaces the earlier value. */
  function RenamedInto(members: seq<Member>, renames: Renames, result: seq<Member>): seq<Member>
    decreases |members|
  {
    if members == [] then result
    else RenamedInto(members[1..], renames, Put(result, NewName(renames, members[0].name), members[0].value))
  }

  function Renamed(members: seq<Member>, renames: Renames): seq<Member> {
    RenamedInto(members, renames, [])
  }

  function NewNames(names: seq<string>, renames: Renames): (r: seq<string>)
    ensures |r| == |names|
    ensures forall i :: 0 <= i < |r| ==> r[i] == NewName(renames, names[i])
  {
    seq(|names|, i requires 0 <= i < |names| => NewName(renames, names[i]))
  }

  function CorrectedBranch(branch: Branch, renames: Renames): Branch
    requires branch.required.Some?
  {
    Branch(Renamed(branch.properties, renames), Some(NewNames(branch.required.value, renames)))
  }

  /** `semantics["renames"].get(tag, {})`: only texts have renames. */
  function RenamesFor(semantics: map<string, Renames>, tag: Value): Renames {
    if tag.Str? && tag.s in semantics then semantics[tag.s] else map[]
  }

  predicate Correctable(branch: Branch) {
    TagOf(branch).Success? && branch.required.Some?
  }

  function Corrected(branch: Branch, semantics: map<string, Renames>): Branch
    requires Correctable(branch)
  {
    CorrectedBranch(branch, RenamesFor(semantics, TagOf(branch).value))
  }

  function CorrectedAll(document: seq<Branch>, semantics: map<string, Renames>): Result<seq<Branch>> {
    if forall i :: 0 <= i < |document| ==> Correctable(document[i]) then
      Success(seq(|document|, i requires 0 <= i < |document| => Corrected(document[i], semantics)))
    else Failure
  }

  /** `corrected`: rewrites the branches of its copy one after the other. */
  method Correct(document: seq<Branch>, semantics: map<string, Renames>) returns (r: Result<seq<Branch>>)
    ensures r.Success? <==> forall i :: 0 <= i < |document| ==> TagOf(document[i]).Success? && document[i].required.Some?
    ensures r == CorrectedAll(document, semantics)
  {
    var branches := document;
    for k := 0 to |branches|
      invariant |branches| == |document|
      invariant forall i :: 0 <= i < k ==> Correctable(document[i]) && branches[i] == Corrected(document[i], semantics)
      invariant forall i :: k <= i < |document| ==> branches[i] == document[i]
    {
      var tag := TagOf(branches[k]);
      if tag.Failure? || branches[k].required.None? {
        return Failure;
      }
      var renames := RenamesFor(semantics, tag.value);
      branches := branches[k := CorrectedBranch(branches[k], renames)];
    }
    assert branches == CorrectedAll(document, semantics).value;
    return Success(branches);
  }

  // ----- What the renamed dict holds

  function NameSet(members: seq<Member>): set<string> {
    set m <- members :: m.name
  }

  lemma {:induction false} HasIsName(members: seq<Member>, name: string)
    ensures Has(members, name) <==> name in NameSet(members)
  {
    if members != [] {
      HasIsName(members[1..], name);
      NamesOfFirst(members);
    }
  }

  lemma NamesOfFirst(members: seq<Member>)
    requires members != []
    ensures NameSet(members) == {members[0].name} + NameSet(members[1..])
  {
    assert members == [members[0]] + members[1..];
  }

  /** The value of the last member that gets this name. */
  function LastOnto(members: seq<Member>, renames: Renames, name: string): Option<Value> {
    if members == [] then None
    else
      var later := LastOnto(members[1..], renames, name);
      if later.Some? then later
      else if NewName(renames, members[0].name) == name then Some(members[0].value) else None
  }

  /** The renamed dict holds, under each name, the last value that gets it. */
  lemma {:induction false} RenamedIntoHolds(members: seq<Member>, renames: Renames, result: seq<Member>, name: string)
    ensures Get(RenamedInto(members, renames, result), name) ==
            if LastOnto(members, renames, name).Some? then LastOnto(members, renames, name) else Get(result, name)
    decreases |members|
  {
    if members != [] {
      var m, next := members[0], NewName(renames, members[0].name);
      GetPut(result, next, m.value, name);
      RenamedIntoHolds(members[1..], renames, Put(result, next, m.value), name);
    }
  }

  lemma RenamedHolds(members: seq<Member>, renames: Renames, name: string)
    ensures Get(Renamed(members, renames), name) == LastOnto(members, renames, name)
  {
    RenamedIntoHolds(members, renames, [], name);
  }

  /** Some member gets the name exactly when one of the names becomes it. */
  lemma {:induction false} OntoIsNewName(members: seq<Member>, renames: Renames, name: string)
    ensures LastOnto(members, renames, name).Some? <==> exists n <- NameSet(members) :: NewName(renames, n) == name
  {
    if members != [] {
      OntoIsNewName(members[1..], renames, name);
      NamesOfFirst(members);
      assert members[0].name in NameSet(members);
    }
  }

  lemma {:induction false} RenamedIntoDistinct(members: seq<Member>, renames: Renames, result: seq<Member>)
    requires Distinct(result)
    ensures Distinct(RenamedInto(members, renames, result))
    decreases |members|
  {
    if members != [] {
      PutDistinct(result, NewName(renames, members[0].name), members[0].value);
      RenamedIntoDistinct(members[1..], renames, Put(result, NewName(renames, members[0].name), members[0].value));
    }
  }

  /** No other name of the set becomes the same as this one. */
  predicate Apart(renames: Renames, names: set<string>, name: string) {
    forall other <- names :: NewName(renames, other) == NewName(renames, name) ==> other == name
  }

  lemma {:induction false} ApartHolds(members: seq<Member>, renames: Renames, name: string)
    requires Distinct(members) && Apart(renames, NameSet(members), name)
    ensures LastOnto(members, renames, NewName(renames, name)) == Get(members, name)
  {
    if members != [] {
      DistinctFirst(members);
      NamesOfFirst(members);
      ApartHolds(members[1..], renames, name);
    }
  }

  // ----- What correction does to one branch

  /** The first text of the enumeration under `type`. */
  predicate HasTag(branch: Branch, tag: string) {
    match Get(branch.properties, "type")
    case Some(Obj(schema)) =>
      (match Get(schema, "enum") case Some(Arr(items)) => items != [] && items[0] == Str(tag) case _ => false)
    case _ => false
  }

  /** The name under which the descriptor's renames for a tag bring a property. */
  predicate Becomes(semantics: map<string, Renames>, tag: string, name: string, next: string) {
    if tag in semantics && name in semantics[tag] then next == semantics[tag][name] else next == name
  }

  predicate LastToBecome(properties: seq<Member>, semantics: map<string, Renames>, tag: string, i: int, next: string) {
    && 0 <= i < |properties| && Becomes(semantics, tag, properties[i].name, next)
    && forall j :: i < j < |properties| ==> !Becomes(semantics, tag, properties[j].name, next)
  }

  lemma {:induction false} LastOntoIs(members: seq<Member>, renames: Renames, i: nat)
    requires i < |members|
    requires forall j :: i < j < |members| ==> NewName(renames, members[j].name) != NewName(renames, members[i].name)
    ensures LastOnto(members, renames, NewName(renames, members[i].name)) == Some(members[i].value)
  {
    if i > 0 {
      LastOntoIs(members[1..], renames, i - 1);
    } else {
      var rest := members[1..];
      assert forall j :: 0 <= j < |rest| ==> rest[j] == members[j + 1];
      NotOnto(rest, renames, NewName(renames, members[0].name));
    }
  }

  lemma {:induction false} NotOnto(members: seq<Member>, renames: Renames, name: string)
    requires forall j :: 0 <= j < |members| ==> NewName(renames, members[j].name) != name
    ensures LastOnto(members, renames, name) == None
  {
    if members != [] {
      NotOnto(members[1..], renames, name);
    }
  }

  /** A branch with a tag is correctable; each property stands, with its schema, under the name that the renames of the
      tag give it, unless a later one gets the same, no other name is there, and `required` is renamed in place. */
  lemma CorrectedIs(branch: Branch, semantics: map<string, Renames>, tag: string)
    requires HasTag(branch, tag) && branch.required.Some?
    ensures Correctable(branch)
    ensures
      var after := Corrected(branch, semantics);
      && (forall i, next :: LastToBecome(branch.properties, semantics, tag, i, next) ==>
            Get(after.properties, next) == Some(branch.properties[i].value))
      && (forall next :: Has(after.properties, next) ==>
            exists i :: 0 <= i < |branch.properties| && Becomes(semantics, tag, branch.properties[i].name, next))
      && after.required.Some? && |after.required.value| == |branch.required.value|
      && forall i :: 0 <= i < |branch.required.value| ==>
          Becomes(semantics, tag, branch.required.value[i], after.required.value[i])
  {
    var renames := RenamesFor(semantics, Str(tag));
    var after := Corrected(branch, semantics);
    var properties := branch.properties;
    assert TagOf(branch) == Success(Str(tag));
    forall name: string, next: string ensures Becomes(semantics, tag, name, next) <==> NewName(renames, name) == next {
    }
    forall i, next | LastToBecome(properties, semantics, tag, i, next)
      ensures Get(after.properties, next) == Some(properties[i].value)
    {
      LastOntoIs(properties, renames, i);
      RenamedHolds(properties, renames, next);
    }
    forall next | Has(after.properties, next)
      ensures exists i :: 0 <= i < |properties| && Becomes(semantics, tag, properties[i].name, next)
    {
      RenamedHolds(properties, renames, next);
      OntoIsNewName(properties, renames, next);
      var name :| name in NameSet(properties) && NewName(renames, name) == next;
      var m :| m in properties && m.name == name;
      var i :| 0 <= i < |properties| && properties[i] == m;
      assert Becomes(semantics, tag, properties[i].name, next);
    }
  }

  // ----- Meaning

  /** `holds(schema, value)` is validity of a value against a property's schema, which corrections never
      change. An object satisfies a branch when the required names are there and the declared ones hold. */
  datatype Semantics = Semantics(holds: (Value, Value) -> bool) {

    ghost predicate Satisfies(instance: seq<Member>, branch: Branch) {
      && (branch.required.Some? ==> forall name <- branch.required.value :: Has(instance, name))
      && (forall name :: Has(branch.properties, name) && Has(instance, name) ==>
            holds(Get(branch.properties, name).value, Get(instance, name).value))
    }
  }

  function BranchNames(branch: Branch): set<string> {
    NameSet(branch.properties) + (if branch.required.Some? then set name <- branch.required.value else {})
  }

  /** No name of the first set becomes the same as another name of the second. Names that only the object
      has may become one. */
  predicate Separates(renames: Renames, own: set<string>, names: set<string>) {
    forall a <- own :: Apart(renames, names, a)
  }

  lemma ApartInBoth(instance: seq<Member>, branch: Branch, renames: Renames, names: set<string>, name: string)
    requires Distinct(instance) && Distinct(branch.properties) && branch.required.Some?
    requires NameSet(instance) + BranchNames(branch) <= names
    requires name in BranchNames(branch) && Separates(renames, BranchNames(branch), names)
    ensures Get(Renamed(instance, renames), NewName(renames, name)) == Get(instance, name)
    ensures Get(CorrectedBranch(branch, renames).properties, NewName(renames, name)) == Get(branch.properties, name)
  {
    assert Apart(renames, names, name);
    ApartHolds(instance, renames, name);
    ApartHolds(branch.properties, renames, name);
    RenamedHolds(instance, renames, NewName(renames, name));
    RenamedHolds(branch.properties, renames, NewName(renames, name));
  }

  /** A declared name of the corrected branch comes from a declared name. */
  lemma DeclaredBefore(branch: Branch, renames: Renames, name: string) returns (prior: string)
    requires branch.required.Some? && Has(CorrectedBranch(branch, renames).properties, name)
    ensures prior in NameSet(branch.properties) && NewName(renames, prior) == name
  {
    RenamedHolds(branch.properties, renames, name);
    OntoIsNewName(branch.properties, renames, name);
    prior :| prior in NameSet(branch.properties) && NewName(renames, prior) == name;
  }

  lemma SatisfiesAfter(s: Semantics, instance: seq<Member>, branch: Branch, renames: Renames, names: set<string>)
    requires Distinct(instance) && Distinct(branch.properties) && branch.required.Some?
    requires NameSet(instance) + BranchNames(branch) <= names && Separates(renames, BranchNames(branch), names)
    requires s.Satisfies(instance, branch)
    ensures s.Satisfies(Renamed(instance, renames), CorrectedBranch(branch, renames))
  {
    var after, renamed := CorrectedBranch(branch, renames), Renamed(instance, renames);
    forall name | name in after.required.value ensures Has(renamed, name) {
      var i :| 0 <= i < |after.required.value| && after.required.value[i] == name;
      ApartInBoth(instance, branch, renames, names, branch.required.value[i]);
    }
    forall name | Has(after.properties, name) && Has(renamed, name)
      ensures s.holds(Get(after.properties, name).value, Get(renamed, name).value)
    {
      var prior := DeclaredBefore(branch, renames, name);
      ApartInBoth(instance, branch, renames, names, prior);
    }
  }

  lemma SatisfiesBefore(s: Semantics, instance: seq<Member>, branch: Branch, renames: Renames, names: set<string>)
    requires Distinct(instance) && Distinct(branch.properties) && branch.required.Some?
    requires NameSet(instance) + BranchNames(branch) <= names && Separates(renames, BranchNames(branch), names)
    requires s.Satisfies(Renamed(instance, renames), CorrectedBranch(branch, renames))
    ensures s.Satisfies(instance, branch)
  {
    var after, renamed := CorrectedBranch(branch, renames), Renamed(instance, renames);
    forall name | name in branch.required.value ensures Has(instance, name) {
      var i :| 0 <= i < |branch.required.value| && branch.required.value[i] == name;
      assert after.required.value[i] in after.required.value;
      ApartInBoth(instance, branch, renames, names, name);
    }
    forall name | Has(branch.properties, name) && Has(instance, name)
      ensures s.holds(Get(branch.properties, name).value, Get(instance, name).value)
    {
      HasIsName(branch.properties, name);
      ApartInBoth(instance, branch, renames, names, name);
      assert Has(after.properties, NewName(renames, name)) && Has(renamed, NewName(renames, name));
    }
  }

  /** An object satisfies a branch exactly when its key-renamed form satisfies the corrected branch, as
      long as no name of the branch becomes the same as another name of either. */
  lemma CorrectedPreservesMeaning(s: Semantics, instance: seq<Member>, branch: Branch, renames: Renames)
    requires Distinct(instance) && Distinct(branch.properties) && branch.required.Some?
    requires Separates(renames, BranchNames(branch), NameSet(instance) + BranchNames(branch))
    ensures s.Satisfies(instance, branch) <==> s.Satisfies(Renamed(instance, renames), CorrectedBranch(branch, renames))
  {
    var names := NameSet(instance) + BranchNames(branch);
    if s.Satisfies(instance, branch) {
      SatisfiesAfter(s, instance, branch, renames, names);
    }
    if s.Satisfies(Renamed(instance, renames), CorrectedBranch(branch, renames)) {
      SatisfiesBefore(s, instance, branch, renames, names);
    }
  }

  /** The renames of the pinned descriptors: distinct new names that nothing else uses. */
  predicate Fresh(renames: Renames, names: set<string>) {
    && (forall a, b :: a in renames && b in renames && a != b ==> renames[a] != renames[b])
    && (forall a :: a in renames ==> renames[a] !in names)
  }

  lemma FreshSeparates(renames: Renames, own: set<string>, names: set<string>)
    requires Fresh(renames, names) && own <= names
    ensures Separates(renames, own, names)
  {
  }

  // ----- A collision changes meaning

  const GOOD := Null
  const BAD := Bool(false)

  /** An object with these names, all of which hold the good value. */
  lemma {:induction false} GoodObject(names: set<string>) returns (good: seq<Member>)
    ensures Distinct(good) && NameSet(good) == names
    ensures forall m <- good :: m.value == GOOD
    decreases |names|
  {
    if name :| name in names {
      var rest := GoodObject(names - {name});
      good := [Member(name, GOOD)] + rest;
      assert good[1..] == rest;
      HasIsName(rest, name);
      DistinctFirst(good);
      NamesOfFirst(good);
    } else {
      good := [];
    }
  }

  /** Among good values a bad one stays only under a name that no other member gets. */
  lemma {:induction false} BadIsReplaced(members: seq<Member>, renames: Renames, name: string)
    requires forall m <- members :: m.value == GOOD
    ensures LastOnto(members, renames, name) in {None, Some(GOOD)}
  {
    if members != [] {
      assert members[0] in members;
      BadIsReplaced(members[1..], renames, name);
    }
  }

  /** Without the required name, but with one that becomes the same. */
  lemma RequiredCollision(branch: Branch, renames: Renames, names: set<string>, a: string, b: string)
    returns (s: Semantics, instance: seq<Member>)
    requires branch.required.Some? && BranchNames(branch) <= names && a in branch.required.value
    requires b in names && b != a && NewName(renames, a) == NewName(renames, b)
    ensures Distinct(instance) && NameSet(instance) <= names && !s.Satisfies(instance, branch)
    ensures s.Satisfies(Renamed(instance, renames), CorrectedBranch(branch, renames))
  {
    s := Semantics((_, _) => true);
    instance := GoodObject(names - {a});
    HasIsName(instance, a);
    var after := CorrectedBranch(branch, renames);
    forall name | name in after.required.value ensures Has(Renamed(instance, renames), name) {
      var i :| 0 <= i < |after.required.value| && after.required.value[i] == name;
      var prior := if branch.required.value[i] == a then b else branch.required.value[i];
      assert branch.required.value[i] in BranchNames(branch);
      assert prior in NameSet(instance) && NewName(renames, prior) == name;
      OntoIsNewName(instance, renames, name);
      RenamedHolds(instance, renames, name);
    }
  }

  /** With a bad declared name first, which another replaces. */
  lemma DeclaredCollision(branch: Branch, renames: Renames, names: set<string>, a: string, b: string)
    returns (s: Semantics, instance: seq<Member>)
    requires branch.required.Some? && BranchNames(branch) <= names && a in NameSet(branch.properties)
    requires b in names && b != a && NewName(renames, a) == NewName(renames, b)
    ensures Distinct(instance) && NameSet(instance) <= names && !s.Satisfies(instance, branch)
    ensures s.Satisfies(Renamed(instance, renames), CorrectedBranch(branch, renames))
  {
    s := Semantics((_, value) => value != BAD);
    var rest := GoodObject(names - {a});
    instance := [Member(a, BAD)] + rest;
    assert instance[1..] == rest;
    HasIsName(rest, a);
    DistinctFirst(instance);
    NamesOfFirst(instance);
    HasIsName(branch.properties, a);
    assert Has(branch.properties, a) && Has(instance, a) && Get(instance, a).value == BAD;
    var after, renamed := CorrectedBranch(branch, renames), Renamed(instance, renames);
    forall name ensures Get(renamed, name) != Some(BAD) {
      BadIsReplaced(rest, renames, name);
      OntoIsNewName(rest, renames, name);
      RenamedHolds(instance, renames, name);
    }
    forall name | name in after.required.value ensures Has(renamed, name) {
      var i :| 0 <= i < |after.required.value| && after.required.value[i] == name;
      assert branch.required.value[i] in BranchNames(branch) && branch.required.value[i] in NameSet(instance);
      OntoIsNewName(instance, renames, name);
      RenamedHolds(instance, renames, name);
    }
  }

  /** Whenever a name of the branch becomes the same as another, some object that the branch rejects has a
      renamed form that the corrected branch accepts. */
  lemma CollisionChangesMeaning(branch: Branch, renames: Renames, names: set<string>, a: string, b: string)
    returns (s: Semantics, instance: seq<Member>)
    requires branch.required.Some? && BranchNames(branch) <= names
    requires a in BranchNames(branch) && b in names && b != a && NewName(renames, a) == NewName(renames, b)
    ensures Distinct(instance) && NameSet(instance) <= names && !s.Satisfies(instance, branch)
    ensures s.Satisfies(Renamed(instance, renames), CorrectedBranch(branch, renames))
  {
    if a in NameSet(branch.properties) {
      s, instance := DeclaredCollision(branch, renames, names, a, b);
    } else {
      s, instance := RequiredCollision(branch, renames, names, a, b);
    }
  }

  /** Correction keeps which objects over these names satisfy the branch, whatever the schemas mean, exactly
      when no name of the branch becomes the same as another of the names. */
  lemma MeaningIsKeptExactly(branch: Branch, renames: Renames, names: set<string>)
    requires Distinct(branch.properties) && branch.required.Some? && BranchNames(branch) <= names
    ensures Separates(renames, BranchNames(branch), names) <==>
            forall s: Semantics, instance: seq<Member> :: Distinct(instance) && NameSet(instance) <= names ==>
              (s.Satisfies(instance, branch) <==> s.Satisfies(Renamed(instance, renames), CorrectedBranch(branch, renames)))
  {
    if Separates(renames, BranchNames(branch), names) {
      forall s: Semantics, instance: seq<Member> | Distinct(instance) && NameSet(instance) <= names
        ensures s.Satisfies(instance, branch) <==> s.Satisfies(Renamed(instance, renames), CorrectedBranch(branch, renames))
      {
        forall a <- BranchNames(branch) ensures Apart(renames, NameSet(instance) + BranchNames(branch), a) {
          assert Apart(renames, names, a);
        }
        CorrectedPreservesMeaning(s, instance, branch, renames);
      }
    } else {
      var a :| a in BranchNames(branch) && !Apart(renames, names, a);
      var b :| b in names && NewName(renames, b) == NewName(renames, a) && b != a;
      var s, instance := CollisionChangesMeaning(branch, renames, names, a, b);
    }
  }

  // ----- The whole union

  /** The `type` property tells the branches apart, is not renamed and is nobody's new name. */
  ghost predicate Tagged(s: Semantics, branches: seq<Branch>, semantics: map<string, Renames>, tag: string) {
    forall i :: 0 <= i < |branches| ==>
      && Correctable(branches[i]) && Distinct(branches[i].properties)
      && KeepsType(RenamesFor(semantics, TagOf(branches[i]).value), NameSet(branches[i].properties))
      && (s.holds(Get(branches[i].properties, "type").value, Str(tag)) <==> TagOf(branches[i]).value == Str(tag))
  }

  predicate KeepsType(renames: Renames, names: set<string>) {
    "type" !in renames && Apart(renames, names, "type")
  }

  lemma TypeStays(members: seq<Member>, renames: Renames)
    requires Distinct(members) && KeepsType(renames, NameSet(members))
    ensures Get(Renamed(members, renames), "type") == Get(members, "type")
  {
    ApartHolds(members, renames, "type");
    RenamedHolds(members, renames, "type");
  }

  lemma OtherBranchStaysOut(s: Semantics, instance: seq<Member>, branch: Branch, value: Value)
    requires Has(branch.properties, "type") && Get(instance, "type") == Some(value)
    requires !s.holds(Get(branch.properties, "type").value, value)
    ensures !s.Satisfies(instance, branch)
  {
  }

  /** An object with a tag satisfies the same branches before and after the whole union is corrected, its
      own keys renamed as its branch's. */
  lemma CorrectedUnionPreservesMeaning(s: Semantics, instance: seq<Member>, branches: seq<Branch>,
                                       semantics: map<string, Renames>, tag: string, i: nat)
    requires Distinct(instance) && Get(instance, "type") == Some(Str(tag)) && Tagged(s, branches, semantics, tag)
    requires i < |branches| && KeepsType(RenamesFor(semantics, Str(tag)), NameSet(instance))
    requires TagOf(branches[i]).value == Str(tag) ==>
      Separates(RenamesFor(semantics, Str(tag)), BranchNames(branches[i]), NameSet(instance) + BranchNames(branches[i]))
    ensures s.Satisfies(instance, branches[i]) <==>
            s.Satisfies(Renamed(instance, RenamesFor(semantics, Str(tag))), Corrected(branches[i], semantics))
  {
    var branch, renames := branches[i], RenamesFor(semantics, Str(tag));
    if TagOf(branch).value == Str(tag) {
      CorrectedPreservesMeaning(s, instance, branch, renames);
    } else {
      TypeStays(instance, renames);
      TypeStays(branch.properties, RenamesFor(semantics, TagOf(branch).value));
      OtherBranchStaysOut(s, instance, branch, Str(tag));
      OtherBranchStaysOut(s, Renamed(instance, renames), Corrected(branch, semantics), Str(tag));
    }
  }
}
