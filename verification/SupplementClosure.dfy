/** `references` and the closure `ensure_reference` of scripts/codex/generate_supplement.py: the official
    definitions that the supplemental contracts need, found depth-first through cyclic references. */
module SupplementClosure {
  import opened Wrappers
  import opened Json
  import opened Text

  const BUNDLE := "codex_app_server_protocol."

  datatype Document = Document(path: string, definitions: map<string, Value>)

  /** The names a schema refers to, in the order they are met; a reference that is not local raises. */
  function References(schema: Value): Result<seq<string>>
    decreases Size(schema), 0
  {
    SizeOfChildren(schema);
    var inner :- ReferencesOfAll(Children(schema));
    if schema.Obj? && Has(schema.members, "$ref") then
      match Get(schema.members, "$ref").value
      case Str(text) => if PREFIX <= text then Success([RemovePrefix(text, PREFIX)] + inner) else Failure
      case _ => Failure
    else Success(inner)
  }

  function ReferencesOfAll(schemas: seq<Value>): Result<seq<string>>
    decreases SizeAll(schemas), 1
  {
    if schemas == [] then Success([])
    else
      var first :- References(schemas[0]);
      var rest :- ReferencesOfAll(schemas[1..]);
      Success(first + rest)
  }

  // ----- What the references are, said about the nodes of the schema

  predicate IsReference(n: Value, name: string) {
    n.Obj? && Get(n.members, "$ref") == Some(Str("#/definitions/" + name))
  }

  /** A `$ref` that is no text or that leads elsewhere. */
  ghost predicate IsNonlocal(n: Value) {
    n.Obj? && Has(n.members, "$ref") && forall name :: !IsReference(n, name)
  }

  ghost predicate Mentions(schema: Value, name: string) {
    exists n :: Under(n, schema) && IsReference(n, name)
  }

  ghost predicate HoldsNonlocal(schema: Value) {
    exists n :: Under(n, schema) && IsNonlocal(n)
  }

  lemma OwnReference(n: Value)
    ensures n.Obj? && Has(n.members, "$ref") ==>
      match Get(n.members, "$ref").value
      case Str(text) =>
        if PREFIX <= text then !IsNonlocal(n) && forall name :: IsReference(n, name) <==> name == RemovePrefix(text, PREFIX)
        else IsNonlocal(n)
      case _ => IsNonlocal(n)
    ensures !(n.Obj? && Has(n.members, "$ref")) ==> !IsNonlocal(n) && forall name :: !IsReference(n, name)
  {
    if n.Obj? && Has(n.members, "$ref") && Get(n.members, "$ref").value.Str? {
      var text := Get(n.members, "$ref").value.s;
      if PREFIX <= text {
        assert text == PREFIX + text[|PREFIX|..];
        assert IsReference(n, text[|PREFIX|..]);
        forall name: string ensures IsReference(n, name) <==> name == text[|PREFIX|..] {
          assert (PREFIX + name)[|PREFIX|..] == name;
        }
      }
    }
  }

  /** `references` raises exactly when some node of the schema has a reference that is not local, and otherwise
      yields exactly the names that the nodes refer to. */
  lemma {:induction false} ReferencesExactly(schema: Value)
    ensures References(schema).Failure? <==> HoldsNonlocal(schema)
    ensures References(schema).Success? ==> forall name :: name in References(schema).value <==> Mentions(schema, name)
    decreases Size(schema), 0
  {
    SizeOfChildren(schema);
    OwnReference(schema);
    AllReferencesExactly(Children(schema));
    NonlocalSplits(schema);
    forall name: string ensures Mentions(schema, name) <==>
      IsReference(schema, name) || exists c <- Children(schema) :: Mentions(c, name)
    {
      MentionsSplits(schema, name);
    }
  }

  lemma {:induction false} AllReferencesExactly(schemas: seq<Value>)
    ensures ReferencesOfAll(schemas).Failure? <==> exists s <- schemas :: HoldsNonlocal(s)
    ensures ReferencesOfAll(schemas).Success? ==>
      forall name :: name in ReferencesOfAll(schemas).value <==> exists s <- schemas :: Mentions(s, name)
    decreases SizeAll(schemas), 1
  {
    if schemas != [] {
      ReferencesExactly(schemas[0]);
      AllReferencesExactly(schemas[1..]);
      assert forall s :: s in schemas <==> s == schemas[0] || s in schemas[1..];
    }
  }

  lemma MentionsSplits(schema: Value, name: string)
    ensures Mentions(schema, name) <==> IsReference(schema, name) || exists c <- Children(schema) :: Mentions(c, name)
  {
    if n :| Under(n, schema) && IsReference(n, name) {
      UnderChildren(n, schema);
    }
    if IsReference(schema, name) {
      UnderChildren(schema, schema);
      assert Under(schema, schema);
    }
    if c :| c in Children(schema) && Mentions(c, name) {
      var n :| Under(n, c) && IsReference(n, name);
      UnderChildren(n, schema);
    }
  }

  lemma NonlocalSplits(schema: Value)
    ensures HoldsNonlocal(schema) <==> IsNonlocal(schema) || exists c <- Children(schema) :: HoldsNonlocal(c)
  {
    if n :| Under(n, schema) && IsNonlocal(n) {
      UnderChildren(n, schema);
    }
    if IsNonlocal(schema) {
      UnderChildren(schema, schema);
      assert Under(schema, schema);
    }
    if c :| c in Children(schema) && HoldsNonlocal(c) {
      var n :| Under(n, c) && IsNonlocal(n);
      UnderChildren(n, schema);
    }
  }

  // ----- The official definitions

  /** The definitions of one name over all documents but the bundles. */
  function Candidates(documents: seq<Document>, name: string): seq<Value> {
    if documents == [] then []
    else
      (if !(BUNDLE <= documents[0].path) && name in documents[0].definitions
       then [documents[0].definitions[name]] else [])
      + Candidates(documents[1..], name)
  }

  /** Where names lead: the starting definitions, then the official ones when they agree. */
  datatype Sources = Sources(start: map<string, Value>, documents: seq<Document>, encode: Value -> string) {

    function Official(name: string): Option<Value> {
      var candidates := Candidates(documents, name);
      if candidates != [] && forall c <- candidates :: encode(c) == encode(candidates[0])
      then Some(candidates[0]) else None
    }

    function Resolve(name: string): Option<Value> {
      if name in start then Some(start[name]) else Official(name)
    }

    /** The name is missing or ambiguous, or a node of its definition has a reference that is not local. */
    ghost predicate Broken(name: string) {
      Resolve(name).None? || HoldsNonlocal(Resolve(name).value)
    }

    /** A node of the one definition refers to the other. */
    ghost predicate Refers(a: string, b: string) {
      !Broken(a) && Mentions(Resolve(a).value, b)
    }

    ghost predicate Walk(w: seq<string>) {
      |w| > 0 && (|w| > 1 ==> Refers(w[0], w[1]) && Walk(w[1..]))
    }

    ghost predicate Reaches(a: string, b: string) {
      exists w :: Walk(w) && w[0] == a && w[|w| - 1] == b
    }

    /** The names every run starts from. */
    predicate Root(name: string) {
      name in start || name == "RequestId"
    }

    ghost predicate Needed(name: string) {
      exists root :: Root(root) && Reaches(root, name)
    }

    ghost function Names(): set<string> {
      start.Keys + OfferedBy(documents)
    }
  }

  /** A document that is no bundle defines the name. */
  predicate Offers(document: Document, name: string) {
    !("codex_app_server_protocol." <= document.path) && name in document.definitions
  }

  lemma {:induction false} CandidatesAre(documents: seq<Document>, name: string, c: Value)
    ensures c in Candidates(documents, name) <==> exists d <- documents :: Offers(d, name) && d.definitions[name] == c
  {
    if documents != [] {
      CandidatesAre(documents[1..], name, c);
      assert forall d :: d in documents <==> d == documents[0] || d in documents[1..];
    }
  }

  lemma {:induction false} FirstCandidate(documents: seq<Document>, name: string) returns (i: nat)
    requires Candidates(documents, name) != []
    ensures i < |documents| && Offers(documents[i], name) && forall j :: 0 <= j < i ==> !Offers(documents[j], name)
    ensures Candidates(documents, name)[0] == documents[i].definitions[name]
  {
    if Offers(documents[0], name) {
      i := 0;
    } else {
      i := FirstCandidate(documents[1..], name);
      i := i + 1;
    }
  }

  /** The official definition is the first document's, and there is one exactly when some document that is no
      bundle defines the name and all that do encode it alike. */
  lemma OfficialExactly(sources: Sources, name: string)
    ensures sources.Official(name).Some? <==>
      && (exists d <- sources.documents :: Offers(d, name))
      && forall d <- sources.documents, e <- sources.documents :: Offers(d, name) && Offers(e, name) ==>
          sources.encode(d.definitions[name]) == sources.encode(e.definitions[name])
    ensures sources.Official(name).Some? ==> exists i ::
      && 0 <= i < |sources.documents| && Offers(sources.documents[i], name)
      && sources.Official(name).value == sources.documents[i].definitions[name]
      && forall j :: 0 <= j < i ==> !Offers(sources.documents[j], name)
  {
    var candidates := Candidates(sources.documents, name);
    forall c ensures c in candidates <==> exists d <- sources.documents :: Offers(d, name) && d.definitions[name] == c {
      CandidatesAre(sources.documents, name, c);
    }
    forall d | d in sources.documents && Offers(d, name) ensures d.definitions[name] in candidates {
    }
    if candidates != [] {
      assert candidates[0] in candidates;
      var i := FirstCandidate(sources.documents, name);
    }
  }

  ghost function OfferedBy(documents: seq<Document>): set<string> {
    if documents == [] then {} else documents[0].definitions.Keys + OfferedBy(documents[1..])
  }

  lemma {:induction false} CandidatesOffered(documents: seq<Document>, name: string)
    ensures Candidates(documents, name) != [] ==> name in OfferedBy(documents)
  {
    if documents != [] {
      CandidatesOffered(documents[1..], name);
    }
  }

  lemma ReachesSelf(sources: Sources, a: string)
    ensures sources.Reaches(a, a)
  {
    assert sources.Walk([a]);
  }

  lemma ReachesFrom(sources: Sources, a: string, b: string, c: string)
    requires sources.Refers(a, b) && sources.Reaches(b, c)
    ensures sources.Reaches(a, c)
  {
    var w :| sources.Walk(w) && w[0] == b && w[|w| - 1] == c;
    assert ([a] + w)[1..] == w;
    assert sources.Walk([a] + w);
  }

  predicate AllIn(names: seq<string>, definitions: map<string, Value>) {
    forall name <- names :: name in definitions
  }

  lemma OneMoreIn(names: seq<string>, i: nat, before: map<string, Value>, after: map<string, Value>)
    requires i < |names| && AllIn(names[..i], before) && before.Keys <= after.Keys && names[i] in after
    ensures AllIn(names[..i + 1], after)
  {
    assert names[..i + 1] == names[..i] + [names[i]];
  }

  /** Every reference of this definition is local and defined. */
  ghost predicate Closed(sources: Sources, definitions: map<string, Value>, name: string) {
    !sources.Broken(name) && forall r :: Mentions(sources.Resolve(name).value, r) ==> r in definitions
  }

  /** What following the references of a definition asks of them and leads to. */
  lemma FollowsReferences(sources: Sources, name: string, schema: Value)
    requires sources.Resolve(name) == Some(schema)
    ensures References(schema).Failure? <==> sources.Broken(name)
    ensures References(schema).Success? ==> forall r <- References(schema).value :: sources.Refers(name, r)
    ensures References(schema).Success? ==> forall definitions: map<string, Value> ::
      AllIn(References(schema).value, definitions) ==> Closed(sources, definitions, name)
  {
    ReferencesExactly(schema);
  }

  /** Only the open names may still lack some of their references. */
  ghost predicate ClosedBut(sources: Sources, definitions: map<string, Value>, open: set<string>) {
    && open + sources.start.Keys <= definitions.Keys <= sources.Names()
    && (forall name <- definitions :: sources.Resolve(name) == Some(definitions[name]))
    && (forall name <- definitions :: name !in open ==> Closed(sources, definitions, name))
  }

  /** From `before` to `after` only names that `name` needs were added. */
  ghost predicate Progress(sources: Sources, name: string, before: map<string, Value>, after: map<string, Value>) {
    && before.Keys <= after.Keys
    && forall n <- after :: n !in before ==> sources.Reaches(name, n)
  }

  ghost predicate Blocked(sources: Sources, name: string) {
    exists n :: sources.Reaches(name, n) && sources.Broken(n)
  }

  lemma Blocks(sources: Sources, name: string)
    requires sources.Broken(name)
    ensures Blocked(sources, name)
  {
    ReachesSelf(sources, name);
  }

  lemma NestedBlocks(sources: Sources, name: string, nested: string)
    requires sources.Refers(name, nested) && Blocked(sources, nested)
    ensures Blocked(sources, name)
  {
    var n :| sources.Reaches(nested, n) && sources.Broken(n);
    ReachesFrom(sources, name, nested, n);
  }

  lemma NestedProgress(sources: Sources, name: string, nested: string, d0: map<string, Value>, d1: map<string,
          Value>, d2: map<string, Value>)
    requires sources.Refers(name, nested)
    requires Progress(sources, name, d0, d1) && Progress(sources, nested, d1, d2)
    ensures Progress(sources, name, d0, d2)
  {
    forall n | n in d2 && n !in d0 ensures sources.Reaches(name, n) {
      if n !in d1 {
        ReachesFrom(sources, name, nested, n);
      }
    }
  }

  lemma JoinProgress(sources: Sources, name: string, d0: map<string, Value>, d1: map<string, Value>,
          d2: map<string, Value>)
    requires Progress(sources, name, d0, d1) && Progress(sources, name, d1, d2)
    ensures Progress(sources, name, d0, d2)
  {
  }

  lemma NewIsOfficial(sources: Sources, definitions: map<string, Value>, open: set<string>, name: string)
    requires ClosedBut(sources, definitions, open) && name !in definitions
    ensures name !in sources.start && sources.Resolve(name) == sources.Official(name)
    ensures sources.Official(name).Some? ==> name in sources.Names()
  {
    CandidatesOffered(sources.documents, name);
  }

  /** Inserting a name before following its references leaves that name open. */
  lemma Inserted(sources: Sources, definitions: map<string, Value>, open: set<string>, name: string, official: Value)
    requires ClosedBut(sources, definitions, open) && name !in definitions && name in sources.Names()
    requires sources.Resolve(name) == Some(official)
    ensures ClosedBut(sources, definitions[name := official], open + {name})
  {
    var next := definitions[name := official];
    forall n | n in next && n !in open + {name} ensures Closed(sources, next, n) {
      StaysClosed(sources, definitions, next, n);
    }
  }

  lemma InsertedProgress(sources: Sources, definitions: map<string, Value>, name: string, official: Value)
    requires name !in definitions && name in sources.Names()
    ensures Progress(sources, name, definitions, definitions[name := official])
    ensures |sources.Names() - definitions[name := official].Keys| < |sources.Names() - definitions.Keys|
  {
    var next := definitions[name := official];
    ReachesSelf(sources, name);
    assert sources.Names() - definitions.Keys == (sources.Names() - next.Keys) + {name};
  }

  lemma StaysClosed(sources: Sources, before: map<string, Value>, after: map<string, Value>, name: string)
    requires Closed(sources, before, name) && before.Keys <= after.Keys
    ensures Closed(sources, after, name)
  {
  }

  /** Once its references are all defined, the name is closed and leaves the open set. */
  lemma Finished(sources: Sources, definitions: map<string, Value>, open: set<string>, name: string)
    requires ClosedBut(sources, definitions, open + {name}) && Closed(sources, definitions, name)
    ensures ClosedBut(sources, definitions, open)
  {
  }

  lemma Smaller(sources: Sources, before: map<string, Value>, after: map<string, Value>)
    requires before.Keys <= after.Keys
    ensures |sources.Names() - after.Keys| <= |sources.Names() - before.Keys|
  {
    SubsetSize(sources.Names() - after.Keys, sources.Names() - before.Keys);
  }

  lemma {:induction false} WalkStaysClosed(sources: Sources, definitions: map<string, Value>, w: seq<string>)
    requires ClosedBut(sources, definitions, {}) && sources.Walk(w) && w[0] in definitions
    ensures w[|w| - 1] in definitions
  {
    if |w| > 1 {
      assert Closed(sources, definitions, w[0]);
      WalkStaysClosed(sources, definitions, w[1..]);
    }
  }

  class Supplement {
    const sources: Sources
    var definitions: map<string, Value>

    constructor (sources: Sources)
      ensures this.sources == sources && definitions == sources.start
    {
      this.sources := sources;
      definitions := sources.start;
    }

    /** Adds `name` and everything it needs. The names on the call stack are `open`: they are inserted
        before their own references are followed, so a cycle stops at them. */
    method EnsureReference(name: string, ghost open: set<string>) returns (ok: bool)
      requires ClosedBut(sources, definitions, open)
      modifies this`definitions
      ensures ok ==> ClosedBut(sources, definitions, open) && name in definitions
      ensures ok ==> Progress(sources, name, old(definitions), definitions)
      ensures !ok ==> Blocked(sources, name)
      decreases |sources.Names() - definitions.Keys|, 0
    {
      if name in definitions {
        return true;
      }
      NewIsOfficial(sources, definitions, open, name);
      var official := sources.Official(name);
      if official.None? {
        Blocks(sources, name);
        return false;
      }
      Inserted(sources, definitions, open, name, official.value);
      InsertedProgress(sources, definitions, name, official.value);
      definitions := definitions[name := official.value];
      ghost var inserted := definitions;
      FollowsReferences(sources, name, official.value);
      var references := References(official.value);
      if references.Failure? {
        Blocks(sources, name);
        return false;
      }
      ok := EnsureAll(references.value, name, open + {name});
      if ok {
        JoinProgress(sources, name, old(definitions), inserted, definitions);
        Finished(sources, definitions, open, name);
      }
    }

    /** The inner loop: every reference of the definition `name` in turn. */
    method EnsureAll(references: seq<string>, ghost name: string, ghost open: set<string>) returns (ok: bool)
      requires ClosedBut(sources, definitions, open)
      requires forall nested <- references :: sources.Refers(name, nested)
      modifies this`definitions
      ensures ok ==> ClosedBut(sources, definitions, open) && AllIn(references, definitions)
      ensures ok ==> Progress(sources, name, old(definitions), definitions)
      ensures !ok ==> Blocked(sources, name)
      decreases |sources.Names() - definitions.Keys|, 1
    {
      for i := 0 to |references|
        invariant ClosedBut(sources, definitions, open)
        invariant Progress(sources, name, old(definitions), definitions)
        invariant AllIn(references[..i], definitions)
      {
        ghost var before := definitions;
        Smaller(sources, old(definitions), definitions);
        ok := EnsureReference(references[i], open);
        if !ok {
          NestedBlocks(sources, name, references[i]);
          return false;
        }
        NestedProgress(sources, name, references[i], old(definitions), before, definitions);
        OneMoreIn(references, i, before, definitions);
      }
      assert references[..|references|] == references;
      return true;
    }

    /** The closing loop of `generate`: the references of every starting definition. */
    method CloseStart() returns (ok: bool)
      requires definitions == sources.start
      modifies this`definitions
      ensures ok ==> ClosedBut(sources, definitions, {}) && AllNeeded(sources, definitions)
      ensures !ok ==> !Complete(sources)
    {
      var pending := definitions.Keys;
      StartIsNeeded(sources);
      while pending != {}
        invariant pending <= sources.start.Keys
        invariant ClosedBut(sources, definitions, pending)
        invariant AllNeeded(sources, definitions)
        decreases |pending|
      {
        var name :| name in pending;
        TakenOut(pending, name);
        pending := pending - {name};
        ok := CloseOne(name, pending);
        if !ok {
          return false;
        }
      }
      return true;
    }

    /** One turn of the loop. */
    method CloseOne(name: string, ghost open: set<string>) returns (ok: bool)
      requires ClosedBut(sources, definitions, open + {name}) && AllNeeded(sources, definitions) && sources.Root(name)
      requires name in definitions
      modifies this`definitions
      ensures ok ==> ClosedBut(sources, definitions, open) && AllNeeded(sources, definitions)
      ensures !ok ==> !Complete(sources)
    {
      var references := References(definitions[name]);
      assert sources.Resolve(name) == Some(definitions[name]);
      FollowsReferences(sources, name, definitions[name]);
      if references.Failure? {
        Blocks(sources, name);
        RootBlocks(sources, name);
        return false;
      }
      ghost var before := definitions;
      ok := EnsureAll(references.value, name, open + {name});
      if !ok {
        RootBlocks(sources, name);
        return false;
      }
      RootProgress(sources, name, before, definitions);
      Finished(sources, definitions, open, name);
    }

    /** The closing loop and `RequestId`. */
    method Close() returns (ok: bool)
      requires definitions == sources.start
      modifies this`definitions
      ensures ok <==> Complete(sources)
      ensures ok ==> AllNeeded(sources, definitions) && HoldsNeeded(sources, definitions)
      ensures ok ==> AllClosed(sources, definitions) && NothingDangles(definitions)
      ensures ok ==> "RequestId" in definitions && forall name <- sources.start :: name in definitions
    {
      ok := CloseStart();
      if !ok {
        return false;
      }
      ghost var before := definitions;
      ok := EnsureReference("RequestId", {});
      if !ok {
        RootBlocks(sources, "RequestId");
        return false;
      }
      RootProgress(sources, "RequestId", before, definitions);
      NeededIsDefined(sources, definitions);
      ClosedHangsTogether(sources, definitions);
    }
  }

  lemma TakenOut<T>(elements: set<T>, x: T)
    requires x in elements
    ensures (elements - {x}) + {x} == elements && |elements - {x}| < |elements|
  {
  }

  /** No name that is needed is missing, ambiguous or has a nonlocal reference. */
  ghost predicate Complete(sources: Sources) {
    forall n :: sources.Needed(n) ==> !sources.Broken(n)
  }

  ghost predicate HoldsNeeded(sources: Sources, definitions: map<string, Value>) {
    forall n :: sources.Needed(n) ==> n in definitions
  }

  /** Every reference at any node of a definition is local and to a definition. */
  ghost predicate NothingDangles(definitions: map<string, Value>) {
    forall name <- definitions, n :: Under(n, definitions[name]) ==>
      !IsNonlocal(n) && forall r :: IsReference(n, r) ==> r in definitions
  }

  lemma ClosedHangsTogether(sources: Sources, definitions: map<string, Value>)
    requires AllClosed(sources, definitions)
    ensures NothingDangles(definitions)
  {
    forall name, n | name in definitions && Under(n, definitions[name])
      ensures !IsNonlocal(n) && forall r :: IsReference(n, r) ==> r in definitions
    {
      assert Closed(sources, definitions, name);
    }
  }

  /** Every name is defined as it resolves, and all its references are defined. */
  ghost predicate AllClosed(sources: Sources, definitions: map<string, Value>) {
    forall n <- definitions :: sources.Resolve(n) == Some(definitions[n]) && Closed(sources, definitions, n)
  }

  ghost predicate AllNeeded(sources: Sources, definitions: map<string, Value>) {
    forall n <- definitions :: sources.Needed(n)
  }

  lemma StartIsNeeded(sources: Sources)
    ensures AllNeeded(sources, sources.start)
  {
    forall n | n in sources.start ensures sources.Needed(n) {
      ReachesSelf(sources, n);
    }
  }

  lemma RootBlocks(sources: Sources, root: string)
    requires sources.Root(root) && Blocked(sources, root)
    ensures !Complete(sources)
  {
    var n :| sources.Reaches(root, n) && sources.Broken(n);
    assert sources.Needed(n);
  }

  lemma RootProgress(sources: Sources, root: string, before: map<string, Value>, after: map<string, Value>)
    requires sources.Root(root) && Progress(sources, root, before, after)
    requires AllNeeded(sources, before)
    ensures AllNeeded(sources, after)
  {
  }

  /** A closed set of definitions that holds every root holds everything that is needed. */
  lemma NeededIsDefined(sources: Sources, definitions: map<string, Value>)
    requires ClosedBut(sources, definitions, {}) && "RequestId" in definitions
    ensures HoldsNeeded(sources, definitions) && Complete(sources) && AllClosed(sources, definitions)
  {
    forall n | sources.Needed(n) ensures n in definitions && !sources.Broken(n) {
      var root :| sources.Root(root) && sources.Reaches(root, n);
      var w :| sources.Walk(w) && w[0] == root && w[|w| - 1] == n;
      WalkStaysClosed(sources, definitions, w);
      assert Closed(sources, definitions, n);
    }
  }

  lemma {:induction false} SubsetSize<T>(a: set<T>, b: set<T>)
    requires a <= b
    ensures |a| <= |b|
    decreases |a|
  {
    if x :| x in a {
      SubsetSize(a - {x}, b - {x});
    }
  }
}
