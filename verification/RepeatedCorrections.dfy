/** When applying `corrected` of scripts/codex/generate_output_semantics.py to its own result changes nothing.
    The second pass reads each branch's tag again, from what the first pass left. */
module RepeatedCorrections {
  import opened Wrappers
  import opened Json
  import opened OutputCorrections

  // ----- A dict is rebuilt as it was exactly when no name of it is renamed

  lemma {:induction false} PutAppends(members: seq<Member>, name: string, value: Value)
    requires !Has(members, name)
    ensures Put(members, name, value) == members + [Member(name, value)]
  {
    if members != [] {
      PutAppends(members[1..], name, value);
    }
  }

  lemma {:induction false} PutReplaces(members: seq<Member>, name: string, value: Value)
    requires Has(members, name)
    ensures |Put(members, name, value)| == |members|
  {
    if members[0].name != name {
      PutReplaces(members[1..], name, value);
    }
  }

  lemma {:induction false} PutKeepsNames(members: seq<Member>, name: string, value: Value, i: nat)
    requires i < |members|
    ensures i < |Put(members, name, value)| && Put(members, name, value)[i].name == members[i].name
  {
    if i > 0 && members[0].name != name {
      PutKeepsNames(members[1..], name, value, i - 1);
    }
  }

  /** Renaming adds at most one entry for each member and keeps the names that are there in place. */
  lemma {:induction false} RenamedIntoGrows(members: seq<Member>, renames: Renames, result: seq<Member>)
    ensures |RenamedInto(members, renames, result)| <= |result| + |members|
    decreases |members|
  {
    if members != [] {
      var name, value := NewName(renames, members[0].name), members[0].value;
      if Has(result, name) {
        PutReplaces(result, name, value);
      } else {
        PutAppends(result, name, value);
      }
      RenamedIntoGrows(members[1..], renames, Put(result, name, value));
    }
  }

  lemma {:induction false} RenamedIntoKeepsNames(members: seq<Member>, renames: Renames, result: seq<Member>, i: nat)
    requires i < |result|
    ensures i < |RenamedInto(members, renames, result)|
    ensures RenamedInto(members, renames, result)[i].name == result[i].name
    decreases |members|
  {
    if members != [] {
      var name, value := NewName(renames, members[0].name), members[0].value;
      PutKeepsNames(result, name, value, i);
      RenamedIntoKeepsNames(members[1..], renames, Put(result, name, value), i);
    }
  }

  /** The first member is renamed to a name that is there, or to a new one: the result differs. */
  lemma FirstRenamedDiffers(members: seq<Member>, renames: Renames, result: seq<Member>)
    requires members != [] && NewName(renames, members[0].name) != members[0].name
    ensures RenamedInto(members, renames, result) != result + members
  {
    var name, value := NewName(renames, members[0].name), members[0].value;
    var next := Put(result, name, value);
    if Has(result, name) {
      PutReplaces(result, name, value);
      RenamedIntoGrows(members[1..], renames, next);
    } else {
      PutAppends(result, name, value);
      RenamedIntoKeepsNames(members[1..], renames, next, |result|);
      assert (result + members)[|result|] == members[0];
    }
  }

  predicate NothingRenamed(members: seq<Member>, renames: Renames) {
    forall i :: 0 <= i < |members| ==> NewName(renames, members[i].name) == members[i].name
  }

  lemma {:induction false} RenamedIntoSame(members: seq<Member>, renames: Renames, result: seq<Member>)
    requires Distinct(result + members)
    ensures RenamedInto(members, renames, result) == result + members <==> NothingRenamed(members, renames)
    decreases |members|
  {
    if members == [] {
      assert result + members == result;
    } else if NewName(renames, members[0].name) != members[0].name {
      FirstRenamedDiffers(members, renames, result);
    } else {
      var m, rest := members[0], members[1..];
      assert members == [m] + rest;
      FirstIsNew(result, m, rest);
      PutAppends(result, m.name, m.value);
      RenamedIntoSame(rest, renames, result + [m]);
      assert NothingRenamed(members, renames) <==> NothingRenamed(rest, renames) by {
        assert forall i :: 1 <= i < |members| ==> members[i] == rest[i - 1];
      }
    }
  }

  lemma FirstIsNew(result: seq<Member>, m: Member, rest: seq<Member>)
    requires Distinct(result + ([m] + rest))
    ensures !Has(result, m.name) && result + ([m] + rest) == (result + [m]) + rest
  {
    var all := result + ([m] + rest);
    assert all[|result|] == m;
    forall i | 0 <= i < |result| ensures result[i].name != m.name {
      assert all[i] == result[i];
    }
    GetIsMember(result, m.name);
  }

  lemma RenamedSame(members: seq<Member>, renames: Renames)
    requires Distinct(members)
    ensures Renamed(members, renames) == members <==> forall name <- NameSet(members) :: NewName(renames, name) == name
  {
    assert [] + members == members;
    RenamedIntoSame(members, renames, []);
    NothingOfNamesRenamed(members, renames);
  }

  lemma NothingOfNamesRenamed(members: seq<Member>, renames: Renames)
    ensures NothingRenamed(members, renames) <==> forall name <- NameSet(members) :: NewName(renames, name) == name
  {
    forall i | 0 <= i < |members| ensures members[i].name in NameSet(members) {
      assert members[i] in members;
    }
  }

  // ----- Correcting twice

  /** The tag after the first pass: of the last property that gets the name `type`. */
  function Retag(branch: Branch, renames: Renames): Result<Value> {
    TagIn(LastOnto(branch.properties, renames, "type"))
  }

  /** The branch still has a tag, and the renames of that tag rename none of its new names. */
  predicate Settles(branch: Branch, semantics: map<string, Renames>)
    requires Correctable(branch)
  {
    var renames := RenamesFor(semantics, TagOf(branch).value);
    var retag := Retag(branch, renames);
    && retag.Success?
    && forall name <- BranchNames(branch) ::
        NewName(RenamesFor(semantics, retag.value), NewName(renames, name)) == NewName(renames, name)
  }

  lemma RenamedNames(members: seq<Member>, renames: Renames)
    ensures NameSet(Renamed(members, renames)) == set name <- NameSet(members) :: NewName(renames, name)
  {
    forall name ensures name in NameSet(Renamed(members, renames)) <==>
                        exists n <- NameSet(members) :: NewName(renames, n) == name
    {
      HasIsName(Renamed(members, renames), name);
      RenamedHolds(members, renames, name);
      OntoIsNewName(members, renames, name);
    }
  }

  lemma NewNamesSame(names: seq<string>, renames: Renames)
    ensures NewNames(names, renames) == names <==> forall name <- names :: NewName(renames, name) == name
  {
  }

  /** A branch that is corrected again stays as it is exactly when no name of it is renamed. */
  lemma CorrectedBranchSame(branch: Branch, renames: Renames)
    requires Distinct(branch.properties) && branch.required.Some?
    ensures CorrectedBranch(branch, renames) == branch <==> forall name <- BranchNames(branch) :: NewName(renames, name) == name
  {
    RenamedSame(branch.properties, renames);
    NewNamesSame(branch.required.value, renames);
  }

  lemma CorrectedNames(branch: Branch, renames: Renames)
    requires branch.required.Some?
    ensures BranchNames(CorrectedBranch(branch, renames)) == set name <- BranchNames(branch) :: NewName(renames, name)
  {
    var once := CorrectedBranch(branch, renames);
    RenamedNames(branch.properties, renames);
    forall name | name in once.required.value
      ensures exists n <- branch.required.value :: NewName(renames, n) == name
    {
      var i :| 0 <= i < |once.required.value| && once.required.value[i] == name;
      assert branch.required.value[i] in branch.required.value;
    }
    forall n | n in branch.required.value ensures NewName(renames, n) in once.required.value {
      var i :| 0 <= i < |branch.required.value| && branch.required.value[i] == n;
      assert once.required.value[i] == NewName(renames, n);
    }
  }

  lemma BranchSettles(branch: Branch, semantics: map<string, Renames>)
    requires Correctable(branch) && Distinct(branch.properties)
    ensures
      var once := Corrected(branch, semantics);
      (Correctable(once) && Corrected(once, semantics) == once) <==> Settles(branch, semantics)
  {
    var renames := RenamesFor(semantics, TagOf(branch).value);
    var once := Corrected(branch, semantics);
    RenamedHolds(branch.properties, renames, "type");
    assert TagOf(once) == Retag(branch, renames);
    RenamedIntoDistinct(branch.properties, renames, []);
    CorrectedNames(branch, renames);
    if Correctable(once) {
      CorrectedBranchSame(once, RenamesFor(semantics, TagOf(once).value));
    }
  }

  /** Correcting a document twice succeeds and equals correcting it once exactly when every branch settles. */
  lemma CorrectedTwiceExactly(document: seq<Branch>, semantics: map<string, Renames>)
    requires CorrectedAll(document, semantics).Success?
    requires forall i :: 0 <= i < |document| ==> Distinct(document[i].properties)
    ensures
      var once := CorrectedAll(document, semantics).value;
      CorrectedAll(once, semantics) == Success(once) <==>
        forall i :: 0 <= i < |document| ==> Settles(document[i], semantics)
  {
    var once := CorrectedAll(document, semantics).value;
    forall i | 0 <= i < |document|
      ensures (Correctable(once[i]) && Corrected(once[i], semantics) == once[i]) <==> Settles(document[i], semantics)
    {
      BranchSettles(document[i], semantics);
    }
    if CorrectedAll(once, semantics).Success? {
      var twice := CorrectedAll(once, semantics).value;
      assert forall i :: 0 <= i < |once| ==> twice[i] == Corrected(once[i], semantics);
      assert twice == once <==> forall i :: 0 <= i < |once| ==> Corrected(once[i], semantics) == once[i];
    }
  }

  /** No new name is renamed again, and `type` is neither renamed nor a new name. */
  predicate Steady(renames: Renames) {
    && "type" !in renames
    && forall name <- renames :: renames[name] != "type" && NewName(renames, renames[name]) == renames[name]
  }

  /** Then correcting twice equals correcting once, on every document. */
  lemma CorrectedTwice(document: seq<Branch>, semantics: map<string, Renames>)
    requires CorrectedAll(document, semantics).Success?
    requires forall i :: 0 <= i < |document| ==> Distinct(document[i].properties)
    requires forall tag <- semantics :: Steady(semantics[tag])
    ensures
      var once := CorrectedAll(document, semantics).value;
      CorrectedAll(once, semantics) == Success(once)
  {
    CorrectedTwiceExactly(document, semantics);
    forall i | 0 <= i < |document| ensures Settles(document[i], semantics) {
      ApartHolds(document[i].properties, RenamesFor(semantics, TagOf(document[i]).value), "type");
    }
  }

  /** The renames of the realtime descriptor. */
  const REALTIME: map<string, Renames> := map["bemItemPromoted" := map["turn_id" := "turnId", "item_id" := "itemId"]]

  lemma RealtimeIsSteady()
    ensures forall tag <- REALTIME :: Steady(REALTIME[tag])
  {
    assert |"type"| == 4 && |"turn_id"| == 7 && |"item_id"| == 7 && |"turnId"| == 6 && |"itemId"| == 6;
  }

  // ----- A document on which the second pass differs

  function Enum(text: string): Value {
    Obj([Member("enum", Arr([Str(text)]))])
  }

  const FIRST := Member("type", Enum("x"))
  const SECOND := Member("kind", Enum("y"))
  const THIRD := Member("a", Null)
  const RETAGGED := Branch([FIRST, SECOND, THIRD], Some([]))
  const RETAGGING: map<string, Renames> := map["x" := map["kind" := "type"], "y" := map["a" := "b"]]

  lemma EnumIsTag(text: string)
    ensures TagIn(Some(Enum(text))) == Success(Str(text))
  {
  }

  lemma RetagsAsSecond()
    ensures Correctable(RETAGGED) && TagOf(RETAGGED) == Success(Str("x")) && Distinct(RETAGGED.properties)
    ensures Retag(RETAGGED, RETAGGING["x"]) == Success(Str("y"))
  {
    EnumIsTag("x");
    EnumIsTag("y");
    assert [FIRST, SECOND, THIRD][1..] == [SECOND, THIRD] && [SECOND, THIRD][1..] == [THIRD] && [THIRD][1..] == [];
    assert LastOnto([THIRD], RETAGGING["x"], "type") == None;
    assert LastOnto([SECOND, THIRD], RETAGGING["x"], "type") == Some(Enum("y"));
  }

  /** No new name is renamed again, but the first pass turns the tag into another, whose renames then apply. */
  lemma RetaggedDocumentChanges()
    ensures forall tag <- RETAGGING, name <- RETAGGING[tag] ::
      NewName(RETAGGING[tag], RETAGGING[tag][name]) == RETAGGING[tag][name]
    ensures CorrectedAll([RETAGGED], RETAGGING).Success?
    ensures
      var once := CorrectedAll([RETAGGED], RETAGGING).value;
      CorrectedAll(once, RETAGGING) != Success(once)
  {
    RetagsAsSecond();
    CorrectedTwiceExactly([RETAGGED], RETAGGING);
    assert THIRD in RETAGGED.properties && "a" in BranchNames(RETAGGED);
    assert [RETAGGED][0] == RETAGGED && !Settles(RETAGGED, RETAGGING);
  }
}
