/** The worklist search `request_methods` of scripts/codex/generate_input_semantics.py. */
module WorklistSearch {
  import opened Wrappers
  import opened Json
  import opened Text
  import opened SchemaGraph

  /** One entry of `document["oneOf"]`: its `params` schema and its `method` enum. */
  datatype Branch = Branch(params: Value, methods: seq<string>)

  /** A set that holds `start` and every neighbour of its members holds every reachable node. */
  lemma {:induction false} ClosedUnderEdges(defs: Definitions, closed: set<Value>, w: seq<Value>)
    requires Walk(Full, defs, w) && w[0] in closed
    requires forall a, b :: a in closed && Edge(Full, defs, a, b) ==> b in closed
    ensures w[|w| - 1] in closed
  {
    if |w| > 1 {
      assert Edge(Full, defs, w[0], w[1]);
      ClosedUnderEdges(defs, closed, w[1..]);
    }
  }

  /** Node `v` has nothing left to expand: its children and its definition have been found. */
  ghost predicate Expanded(defs: Definitions, v: Value, seen: set<string>, found: set<Value>) {
    && NamedProperly(defs, v)
    && (NamingOf(v).Names? ==> NamingOf(v).name in seen)
    && (forall c <- Children(v) :: c in found)
  }

  ghost function Found(pending: seq<Value>, done: set<Value>): set<Value> {
    done + (set v | v in pending)
  }

  /** The worklist invariant: only reachable nodes are found, every name seen is referred to and its
      definition found, and every node taken off the list is expanded. */
  ghost predicate Searching(defs: Definitions, params: Value, pending: seq<Value>, seen: set<string>,
          done: set<Value>) {
    && params in Found(pending, done)
    && AllReached(defs, params, Found(pending, done))
    && SeenReferred(defs, params, seen, Found(pending, done))
    && (forall v <- done :: Expanded(defs, v, seen, Found(pending, done)))
  }

  ghost predicate AllReached(defs: Definitions, params: Value, found: set<Value>) {
    forall v <- found :: Reaches(Full, defs, params, v)
  }

  ghost predicate SeenReferred(defs: Definitions, params: Value, seen: set<string>, found: set<Value>) {
    forall name <- seen :: name in defs && RefersTo(defs, params, name) && defs[name] in found
  }

  /** The worklist after `value` is expanded. */
  function NextPending(defs: Definitions, rest: seq<Value>, value: Value, seen: set<string>): seq<Value>
    requires NamedProperly(defs, value)
  {
    var reference := NamingOf(value);
    rest + (if reference.Names? && reference.name !in seen then [defs[reference.name]] else []) + Children(value)
  }

  lemma NextPendingSame(defs: Definitions, rest: seq<Value>, value: Value, seen: set<string>)
    requires NamedProperly(defs, value)
    requires NamingOf(value).Names? ==> NamingOf(value).name in seen
    ensures NextPending(defs, rest, value, seen) == rest + Children(value)
  {
  }

  function NextSeen(value: Value, seen: set<string>): set<string> {
    if NamingOf(value).Names? then seen + {NamingOf(value).name} else seen
  }

  lemma NextSeenAgain(value: Value, seen: set<string>)
    ensures NamingOf(value).Names? && NamingOf(value).name in seen ==> NextSeen(value, seen) == seen
  {
  }

  lemma FoundGrows(defs: Definitions, rest: seq<Value>, value: Value, seen: set<string>, done: set<Value>)
    requires NamedProperly(defs, value)
    ensures
      var before := Found(rest + [value], done);
      var after := Found(NextPending(defs, rest, value, seen), done + {value});
      && value in before && before <= after
      && (forall c <- Children(value) :: c in after)
      && (forall v <- after :: v in before || Edge(Full, defs, value, v))
      && (NamingOf(value).Names? && NamingOf(value).name !in seen ==> defs[NamingOf(value).name] in after)
  {
    var next := NextPending(defs, rest, value, seen);
    assert forall v <- rest :: v in next;
    assert forall c <- Children(value) :: c in next;
  }

  lemma ReachedStep(defs: Definitions, params: Value, before: set<Value>, after: set<Value>, value: Value)
    requires AllReached(defs, params, before) && value in before
    requires forall v <- after :: v in before || Edge(Full, defs, value, v)
    ensures AllReached(defs, params, after)
  {
    forall v <- after ensures Reaches(Full, defs, params, v) {
      if v !in before {
        ReachesNext(Full, defs, params, value, v);
      }
    }
  }

  lemma SeenStep(defs: Definitions, params: Value, seen: set<string>, before: set<Value>, after: set<Value>,
          value: Value)
    requires SeenReferred(defs, params, seen, before) && NamedProperly(defs, value)
    requires before <= after && Reaches(Full, defs, params, value)
    requires NamingOf(value).Names? && NamingOf(value).name !in seen ==> defs[NamingOf(value).name] in after
    ensures SeenReferred(defs, params, NextSeen(value, seen), after)
  {
    if NamingOf(value).Names? {
      assert RefersTo(defs, params, NamingOf(value).name);
    }
  }

  lemma SearchingStep(defs: Definitions, params: Value, rest: seq<Value>, value: Value, seen: set<string>,
          done: set<Value>)
    requires Searching(defs, params, rest + [value], seen, done) && NamedProperly(defs, value)
    ensures Searching(defs, params, NextPending(defs, rest, value, seen), NextSeen(value, seen), done + {value})
  {
    var before := Found(rest + [value], done);
    var after := Found(NextPending(defs, rest, value, seen), done + {value});
    FoundGrows(defs, rest, value, seen, done);
    ReachedStep(defs, params, before, after, value);
    SeenStep(defs, params, seen, before, after, value);
    forall v <- done + {value} ensures Expanded(defs, v, NextSeen(value, seen), after) {
      if v in done {
        assert Expanded(defs, v, seen, before);
      }
    }
  }

  lemma SearchingStarts(defs: Definitions, params: Value)
    ensures Searching(defs, params, [params], {}, {})
  {
    ReachesSelf(Full, defs, params);
  }

  lemma SearchingFails(defs: Definitions, params: Value, rest: seq<Value>, value: Value, seen: set<string>,
          done: set<Value>)
    requires Searching(defs, params, rest + [value], seen, done) && !NamedProperly(defs, value)
    ensures !Sound(defs, params)
  {
    assert value in Found(rest + [value], done);
    assert Reaches(Full, defs, params, value);
  }

  lemma SearchingEnds(defs: Definitions, params: Value, seen: set<string>, done: set<Value>)
    requires Searching(defs, params, [], seen, done)
    ensures Sound(defs, params)
    ensures forall name :: name in seen <==> RefersTo(defs, params, name)
  {
    forall n | Reaches(Full, defs, params, n) ensures n in done {
      var w :| Walk(Full, defs, w) && w[0] == params && w[|w| - 1] == n;
      ClosedUnderEdges(defs, done, w);
    }
  }

  lemma SeenIsDefined(defs: Definitions, params: Value, pending: seq<Value>, seen: set<string>, done: set<Value>)
    requires Searching(defs, params, pending, seen, done)
    ensures seen <= defs.Keys
  {
  }

  lemma SearchShrinks(defs: Definitions, rest: seq<Value>, value: Value, seen: set<string>)
    requires seen <= defs.Keys && NamedProperly(defs, value)
    ensures
      var unseen := |defs.Keys - NextSeen(value, seen)|;
      || unseen < |defs.Keys - seen|
      || (unseen == |defs.Keys - seen| && SizeAll(NextPending(defs, rest, value, seen)) < SizeAll(rest + [value]))
  {
    var reference := NamingOf(value);
    if reference.Names? && reference.name !in seen {
      Shrinks(defs.Keys, seen, reference.name);
    } else {
      assert NextSeen(value, seen) == seen;
      assert NextPending(defs, rest, value, seen) == rest + Children(value);
      SizeAllConcat(rest, [value]);
      SizeAllConcat(rest, Children(value));
      SizeOfChildren(value);
    }
  }

  /** The inner worklist of `request_methods`: the names of all definitions reachable from `params`. */
  method SeenReferences(defs: Definitions, params: Value) returns (r: Result<set<string>>)
    ensures r.Success? <==> Sound(defs, params)
    ensures r.Success? ==> forall name :: name in r.value <==> RefersTo(defs, params, name)
  {
    var pending, seen: set<string> := [params], {};
    ghost var done: set<Value> := {};
    SearchingStarts(defs, params);
    while pending != []
      invariant Searching(defs, params, pending, seen, done)
      decreases |defs.Keys - seen|, SizeAll(pending)
    {
      var value := pending[|pending| - 1];
      ghost var rest, was := pending[..|pending| - 1], seen;
      LastSplit(pending);
      pending := pending[..|pending| - 1];
      SeenIsDefined(defs, params, rest + [value], seen, done);
      var reference := NamingOf(value);
      if reference.NotText? || (reference.Names? && reference.name !in seen && reference.name !in defs) {
        SearchingFails(defs, params, rest, value, seen, done);
        return Failure;
      }
      SearchShrinks(defs, rest, value, seen);
      SearchingStep(defs, params, rest, value, seen, done);
      if !(reference.Names? && reference.name !in seen) {
        NextPendingSame(defs, rest, value, seen);
      }
      if reference.Names? && reference.name !in seen {
        seen := seen + {reference.name};
        pending := pending + [defs[reference.name]];
      }
      pending := pending + Children(value);
      done := done + {value};
      NextSeenAgain(value, was);
      assert pending == NextPending(defs, rest, value, was);
    }
    SearchingEnds(defs, params, seen, done);
    return Success(seen);
  }

  /** The methods of exactly those branches whose params refer to `definition`, in branch order. */
  ghost function Reporting(defs: Definitions, branches: seq<Branch>, definition: string): seq<string> {
    if branches == [] then []
    else
      var rest := branches[..|branches| - 1];
      var last := branches[|branches| - 1];
      Reporting(defs, rest, definition) +
      if RefersTo(defs, last.params, definition) then last.methods else []
  }

  method RequestMethods(defs: Definitions, branches: seq<Branch>, definition: string)
    returns (r: Result<seq<string>>)
    ensures r.Success? <==> forall branch <- branches :: Sound(defs, branch.params)
    ensures r.Success? ==> Ascending(r.value)
    ensures r.Success? ==> multiset(r.value) == multiset(Reporting(defs, branches, definition))
  {
    var reachable := [];
    for i := 0 to |branches|
      invariant forall branch <- branches[..i] :: Sound(defs, branch.params)
      invariant reachable == Reporting(defs, branches[..i], definition)
    {
      assert branches[..i + 1] == branches[..i] + [branches[i]];
      var seen := SeenReferences(defs, branches[i].params);
      if seen.Failure? {
        return Failure;
      }
      if definition in seen.value {
        reachable := reachable + branches[i].methods;
      }
    }
    assert branches[..|branches|] == branches;
    SortIsSorted(reachable);
    return Success(Sort(reachable));
  }
}
