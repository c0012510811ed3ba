/** What `input_paths` of scripts/codex/generate_input_semantics.py returns, said in the words of a schema document: the
    keys of every way from a node to a reference to the target, in the order of the document. */
module InputRoutes {
  import opened Wrappers
  import opened Json
  import opened Text
  import opened SchemaGraph
  import opened PathSearch

  /** A way through a document: to a reference to the target, or to a node at which the search raises. A
      definition is entered through the text of its reference; a property, a member or an item is entered at its place. */
  datatype Route =
    | Here
    | Stuck
    | Through(raw: string, rest: Route)
    | Property(at: nat, name: string, rest: Route)
    | Items(rest: Route)
    | Inside(at: nat, rest: Route)

  /** The node is a dict whose `$ref` is missing or false for Python. */
  predicate NoReference(v: Value) {
    v.Obj? && Get(v.members, "$ref") in {
      None, Some(Null), Some(Bool(false)), Some(Number(0.0)), Some(Str("")), Some(Arr([])), Some(Obj([]))}
  }

  /** What a search for the target follows: a text other than the reference to the target. */
  predicate Leads(v: Value, raw: string, target: string) {
    v.Obj? && Get(v.members, "$ref") == Some(Str(raw)) && raw != "" && raw != "#/definitions/" + target
  }

  /** The search raises here: on a reference that is no text or that leads nowhere, or on `properties` that are no dict. */
  predicate Raises(v: Value, target: string, defs: Definitions) {
    v.Obj? &&
    match Get(v.members, "$ref")
    case Some(Str(raw)) =>
      if raw == "" then BadProperties(v)
      else raw != "#/definitions/" + target && forall name <- defs :: !IsNameIn(raw, name)
    case _ => if NoReference(v) then BadProperties(v) else true
  }

  predicate BadProperties(v: Value)
    requires v.Obj?
  {
    Has(v.members, "properties") && !Get(v.members, "properties").value.Obj?
  }

  ghost predicate IsRoute(r: Route, v: Value, target: string, arrays: bool, defs: Definitions) {
    match r
    case Here => v.Obj? && Get(v.members, "$ref") == Some(Str("#/definitions/" + target))
    case Stuck => Raises(v, target, defs)
    case Through(raw, rest) =>
      && Leads(v, raw, target)
      && exists name <- defs :: IsNameIn(raw, name) && IsRoute(rest, defs[name], target, arrays, defs)
    case Property(at, name, rest) =>
      && NoReference(v)
      && Has(v.members, "properties")
      && var properties := Get(v.members, "properties").value;
        && properties.Obj? && at < |properties.members| && properties.members[at].name == name
        && IsRoute(rest, properties.members[at].value, target, arrays, defs)
    case Items(rest) =>
      && arrays && NoReference(v) && !Has(v.members, "properties") && Has(v.members, "items")
      && IsRoute(rest, Get(v.members, "items").value, target, arrays, defs)
    case Inside(at, rest) =>
      match v
      case Arr(items) => at < |items| && IsRoute(rest, items[at], target, arrays, defs)
      case Obj(members) =>
        && NoReference(v) && !Has(members, "properties") && !(arrays && Has(members, "items"))
        && at < |members| && IsRoute(rest, members[at].value, target, arrays, defs)
      case _ => false
  }

  /** The names of the properties that a route passes, and "[]" for the items of an array. */
  function KeysOf(r: Route): Path {
    match r
    case Here => []
    case Stuck => []
    case Through(_, rest) => KeysOf(rest)
    case Property(_, name, rest) => [name] + KeysOf(rest)
    case Items(rest) => ["[]"] + KeysOf(rest)
    case Inside(_, rest) => KeysOf(rest)
  }

  function Entered(r: Route): set<string> {
    match r
    case Here => {}
    case Stuck => {}
    case Through(raw, rest) => {raw} + Entered(rest)
    case Property(_, _, rest) => Entered(rest)
    case Items(rest) => Entered(rest)
    case Inside(_, rest) => Entered(rest)
  }

  /** No definition is entered twice through the same text. */
  predicate CycleFree(r: Route) {
    match r
    case Here => true
    case Stuck => true
    case Through(raw, rest) => raw !in Entered(rest) && CycleFree(rest)
    case Property(_, _, rest) => CycleFree(rest)
    case Items(rest) => CycleFree(rest)
    case Inside(_, rest) => CycleFree(rest)
  }

  predicate Arrives(r: Route) {
    match r
    case Here => true
    case Stuck => false
    case Through(_, rest) => Arrives(rest)
    case Property(_, _, rest) => Arrives(rest)
    case Items(rest) => Arrives(rest)
    case Inside(_, rest) => Arrives(rest)
  }

  /** The order of the document: where two routes part, the first goes the earlier way. */
  predicate Before(a: Route, b: Route) {
    match (a, b)
    case (Through(_, x), Through(_, y)) => Before(x, y)
    case (Property(i, _, x), Property(j, _, y)) => i < j || (i == j && Before(x, y))
    case (Items(x), Items(y)) => Before(x, y)
    case (Inside(i, x), Inside(j, y)) => i < j || (i == j && Before(x, y))
    case _ => false
  }

  ghost predicate Open(r: Route, v: Value, seen: set<string>, target: string, arrays: bool, defs: Definitions) {
    IsRoute(r, v, target, arrays, defs) && CycleFree(r) && Entered(r) !! seen
  }

  // ----- Entering a node

  lemma EntryIs(v: Value, target: string)
    ensures EntryOf(v, target) == Hit <==> v.Obj? && Get(v.members, "$ref") == Some(Str("#/definitions/" + target))
    ensures forall raw :: EntryOf(v, target) == Follow(raw) <==> Leads(v, raw, target)
    ensures EntryOf(v, target) == Descend <==> !v.Obj? || NoReference(v)
  {
    assert (PREFIX + target)[0] == '#';
  }

  /** A definition is entered exactly when the name in the reference is defined. */
  lemma ThroughIs(raw: string, rest: Route, v: Value, g: Graph, defs: Definitions)
    requires g.Input? && EntryOf(v, g.target) == Follow(raw)
    ensures IsRoute(Through(raw, rest), v, g.target, g.arrays, defs) <==>
            RemovePrefix(raw, PREFIX) in defs && IsRoute(rest, defs[RemovePrefix(raw, PREFIX)], g.target, g.arrays, defs)
    ensures Raises(v, g.target, defs) <==> RemovePrefix(raw, PREFIX) !in defs
  {
    EntryIs(v, g.target);
    forall name: string ensures IsNameIn(raw, name) <==> name == RemovePrefix(raw, PREFIX) {
      NameIsIn(raw, name);
    }
  }

  // ----- Descending from a node

  /** The route that goes on at this place of the node. */
  function Via(v: Value, arrays: bool, at: nat, rest: Route): Route {
    if v.Obj? && Has(v.members, "properties") then
      match Get(v.members, "properties").value
      case Obj(members) => if at < |members| then Property(at, members[at].name, rest) else Stuck
      case _ => Stuck
    else if v.Obj? && arrays && Has(v.members, "items") then Items(rest)
    else Inside(at, rest)
  }

  lemma StepIsRoute(v: Value, g: Graph, at: nat, rest: Route, defs: Definitions)
    requires g.Input? && EntryOf(v, g.target) == Descend && StepsOf(v, g.arrays).Success?
    requires at < |StepsOf(v, g.arrays).value|
    ensures IsRoute(Via(v, g.arrays, at, rest), v, g.target, g.arrays, defs) <==>
            IsRoute(rest, StepsOf(v, g.arrays).value[at].child, g.target, g.arrays, defs)
  {
    EntryIs(v, g.target);
  }

  lemma StepKeys(v: Value, arrays: bool, at: nat, rest: Route)
    requires StepsOf(v, arrays).Success? && at < |StepsOf(v, arrays).value|
    ensures
      var r := Via(v, arrays, at, rest);
      KeysOf(r) == StepsOf(v, arrays).value[at].suffix + KeysOf(rest) && Continues(r, rest)
  {
  }

  lemma StepIs(v: Value, g: Graph, at: nat, rest: Route, seen: set<string>, defs: Definitions)
    requires g.Input? && EntryOf(v, g.target) == Descend && StepsOf(v, g.arrays).Success?
    requires at < |StepsOf(v, g.arrays).value|
    ensures Open(Via(v, g.arrays, at, rest), v, seen, g.target, g.arrays, defs) <==>
            TurnOpen(Turn(at, rest), StepsOf(v, g.arrays).value, 0, seen, g, defs)
    ensures Arrives(Via(v, g.arrays, at, rest)) <==> Arrives(rest)
  {
    StepIsRoute(v, g, at, rest, defs);
    StepKeys(v, g.arrays, at, rest);
  }

  predicate Continues(r: Route, rest: Route) {
    Entered(r) == Entered(rest) && CycleFree(r) == CycleFree(rest) && Arrives(r) == Arrives(rest)
  }

  lemma StepOf(r: Route, v: Value, g: Graph, defs: Definitions) returns (at: nat, rest: Route)
    requires g.Input? && EntryOf(v, g.target) == Descend && StepsOf(v, g.arrays).Success?
    requires IsRoute(r, v, g.target, g.arrays, defs)
    ensures at < |StepsOf(v, g.arrays).value| && r == Via(v, g.arrays, at, rest)
  {
    EntryIs(v, g.target);
    match r
    case Property(i, _, more) => at, rest := i, more;
    case Items(more) => at, rest := 0, more;
    case Inside(i, more) => at, rest := i, more;
  }

  /** On a node without a reference the search raises exactly when `properties` are no dict. */
  lemma DescentRaises(v: Value, g: Graph, defs: Definitions)
    requires g.Input? && EntryOf(v, g.target) == Descend
    ensures Raises(v, g.target, defs) <==> StepsOf(v, g.arrays).Failure?
  {
    EntryIs(v, g.target);
  }

  // ----- The list of routes

  ghost predicate AllOpen(routes: seq<Route>, v: Value, seen: set<string>, g: Graph, defs: Definitions)
    requires g.Input?
  {
    forall i :: 0 <= i < |routes| ==> Arrives(routes[i]) && Open(routes[i], v, seen, g.target, g.arrays, defs)
  }

  /** Every open route is listed, and so arrives. */
  ghost predicate Complete(routes: seq<Route>, v: Value, seen: set<string>, g: Graph, defs: Definitions)
    requires g.Input?
  {
    forall r :: Open(r, v, seen, g.target, g.arrays, defs) ==> r in routes
  }

  predicate Ordered(routes: seq<Route>) {
    forall i, j :: 0 <= i < j < |routes| ==> Before(routes[i], routes[j])
  }

  predicate PathsFrom(paths: seq<Path>, path: Path, routes: seq<Route>) {
    |paths| == |routes| && forall i :: 0 <= i < |paths| ==> paths[i] == path + KeysOf(routes[i])
  }

  ghost predicate Listing(routes: seq<Route>, v: Value, seen: set<string>, g: Graph, defs: Definitions)
    requires g.Input?
  {
    AllOpen(routes, v, seen, g, defs) && Complete(routes, v, seen, g, defs) && Ordered(routes)
  }

  /** A route that goes on at one of several steps. */
  datatype Turn = Turn(at: nat, rest: Route)

  predicate Earlier(a: Turn, b: Turn) {
    a.at < b.at || (a.at == b.at && Before(a.rest, b.rest))
  }

  predicate TurnsOrdered(turns: seq<Turn>) {
    forall i, j :: 0 <= i < j < |turns| ==> Earlier(turns[i], turns[j])
  }

  ghost predicate TurnOpen(turn: Turn, steps: seq<Step>, base: nat, seen: set<string>, g: Graph, defs: Definitions)
    requires g.Input?
  {
    base <= turn.at < base + |steps| && Open(turn.rest, steps[turn.at - base].child, seen, g.target, g.arrays, defs)
  }

  ghost predicate TurnsListing(turns: seq<Turn>, steps: seq<Step>, base: nat, seen: set<string>, g: Graph, defs: Definitions)
    requires g.Input?
  {
    && (forall i :: 0 <= i < |turns| ==> Arrives(turns[i].rest) && TurnOpen(turns[i], steps, base, seen, g, defs))
    && (forall turn :: TurnOpen(turn, steps, base, seen, g, defs) ==> turn in turns)
    && TurnsOrdered(turns)
  }

  predicate PathsFromTurns(paths: seq<Path>, path: Path, turns: seq<Turn>, steps: seq<Step>, base: nat) {
    && |paths| == |turns|
    && forall i :: 0 <= i < |paths| ==>
        && base <= turns[i].at < base + |steps|
        && paths[i] == path + steps[turns[i].at - base].suffix + KeysOf(turns[i].rest)
  }

  function TurnsAt(at: nat, routes: seq<Route>): (turns: seq<Turn>)
    ensures |turns| == |routes| && forall i :: 0 <= i < |turns| ==> turns[i] == Turn(at, routes[i])
  {
    seq(|routes|, i requires 0 <= i < |routes| => Turn(at, routes[i]))
  }

  /** A turn is at the first step, or at a later one. */
  lemma TurnSplits(turn: Turn, steps: seq<Step>, base: nat, seen: set<string>, g: Graph, defs: Definitions)
    requires g.Input? && steps != []
    ensures TurnOpen(turn, steps, base, seen, g, defs) <==>
            || (turn.at == base && Open(turn.rest, steps[0].child, seen, g.target, g.arrays, defs))
            || TurnOpen(turn, steps[1..], base + 1, seen, g, defs)
  {
    if turn.at > base && turn.at < base + |steps| {
      assert steps[1..][turn.at - (base + 1)] == steps[turn.at - base];
    }
  }

  lemma JoinedAreOpen(steps: seq<Step>, base: nat, routes: seq<Route>, later: seq<Turn>, seen: set<string>, g: Graph,
          defs: Definitions)
    requires g.Input? && steps != [] && Listing(routes, steps[0].child, seen, g, defs)
    requires TurnsListing(later, steps[1..], base + 1, seen, g, defs)
    ensures
      var turns := TurnsAt(base, routes) + later;
      forall i :: 0 <= i < |turns| ==> Arrives(turns[i].rest) && TurnOpen(turns[i], steps, base, seen, g, defs)
  {
    var turns := TurnsAt(base, routes) + later;
    forall i | 0 <= i < |turns| ensures Arrives(turns[i].rest) && TurnOpen(turns[i], steps, base, seen, g, defs) {
      TurnSplits(turns[i], steps, base, seen, g, defs);
      if i >= |routes| {
        assert turns[i] == later[i - |routes|];
      } else {
        assert turns[i] == Turn(base, routes[i]);
      }
    }
  }

  lemma JoinedAreAll(steps: seq<Step>, base: nat, routes: seq<Route>, later: seq<Turn>, seen: set<string>, g: Graph,
          defs: Definitions, turn: Turn)
    requires g.Input? && steps != [] && Listing(routes, steps[0].child, seen, g, defs)
    requires TurnsListing(later, steps[1..], base + 1, seen, g, defs) && TurnOpen(turn, steps, base, seen, g, defs)
    ensures turn in TurnsAt(base, routes) + later
  {
    TurnSplits(turn, steps, base, seen, g, defs);
    if TurnOpen(turn, steps[1..], base + 1, seen, g, defs) {
      assert turn in later;
    } else {
      var i :| 0 <= i < |routes| && routes[i] == turn.rest;
      assert TurnsAt(base, routes)[i] == turn;
    }
  }

  lemma JoinedOrder(base: nat, routes: seq<Route>, later: seq<Turn>)
    requires Ordered(routes) && TurnsOrdered(later) && forall i :: 0 <= i < |later| ==> later[i].at > base
    ensures TurnsOrdered(TurnsAt(base, routes) + later)
  {
  }

  /** The routes of the first step, then those of the others. */
  lemma TurnsJoin(steps: seq<Step>, base: nat, routes: seq<Route>, later: seq<Turn>, seen: set<string>, g: Graph,
          defs: Definitions)
    requires g.Input? && steps != [] && Listing(routes, steps[0].child, seen, g, defs)
    requires TurnsListing(later, steps[1..], base + 1, seen, g, defs)
    ensures TurnsListing(TurnsAt(base, routes) + later, steps, base, seen, g, defs)
  {
    var turns := TurnsAt(base, routes) + later;
    JoinedAreOpen(steps, base, routes, later, seen, g, defs);
    forall turn | TurnOpen(turn, steps, base, seen, g, defs) ensures turn in turns {
      JoinedAreAll(steps, base, routes, later, seen, g, defs, turn);
    }
    forall i | 0 <= i < |later| ensures later[i].at > base {
      assert TurnOpen(later[i], steps[1..], base + 1, seen, g, defs);
    }
    JoinedOrder(base, routes, later);
  }

  lemma TurnPathsJoin(first: seq<Path>, more: seq<Path>, path: Path, routes: seq<Route>, later: seq<Turn>,
          steps: seq<Step>, base: nat)
    requires steps != [] && PathsFrom(first, path + steps[0].suffix, routes)
    requires PathsFromTurns(more, path, later, steps[1..], base + 1)
    ensures PathsFromTurns(first + more, path, TurnsAt(base, routes) + later, steps, base)
  {
    var paths, turns := first + more, TurnsAt(base, routes) + later;
    forall i | 0 <= i < |paths|
      ensures base <= turns[i].at < base + |steps|
      ensures paths[i] == path + steps[turns[i].at - base].suffix + KeysOf(turns[i].rest)
    {
      if i >= |first| {
        assert paths[i] == more[i - |first|] && turns[i] == later[i - |first|];
      }
    }
  }

  function Vias(v: Value, arrays: bool, turns: seq<Turn>): (routes: seq<Route>)
    ensures |routes| == |turns|
    ensures forall i :: 0 <= i < |routes| ==> routes[i] == Via(v, arrays, turns[i].at, turns[i].rest)
  {
    seq(|turns|, i requires 0 <= i < |turns| => Via(v, arrays, turns[i].at, turns[i].rest))
  }

  lemma ViaOrdered(v: Value, arrays: bool, a: Turn, b: Turn)
    requires StepsOf(v, arrays).Success? && a.at < |StepsOf(v, arrays).value| && b.at < |StepsOf(v, arrays).value|
    requires Earlier(a, b)
    ensures Before(Via(v, arrays, a.at, a.rest), Via(v, arrays, b.at, b.rest))
  {
  }

  lemma ViasListing(v: Value, turns: seq<Turn>, seen: set<string>, g: Graph, defs: Definitions)
    requires g.Input? && EntryOf(v, g.target) == Descend && StepsOf(v, g.arrays).Success?
    requires TurnsListing(turns, StepsOf(v, g.arrays).value, 0, seen, g, defs)
    ensures Listing(Vias(v, g.arrays, turns), v, seen, g, defs)
  {
    var steps, routes := StepsOf(v, g.arrays).value, Vias(v, g.arrays, turns);
    forall i | 0 <= i < |routes| ensures Arrives(routes[i]) && Open(routes[i], v, seen, g.target, g.arrays, defs) {
      assert TurnOpen(turns[i], steps, 0, seen, g, defs);
      StepIs(v, g, turns[i].at, turns[i].rest, seen, defs);
    }
    forall r | Open(r, v, seen, g.target, g.arrays, defs) ensures r in routes {
      var at, rest := StepOf(r, v, g, defs);
      StepIs(v, g, at, rest, seen, defs);
      var i :| 0 <= i < |turns| && turns[i] == Turn(at, rest);
      assert routes[i] == r;
    }
    forall i, j | 0 <= i < j < |routes| ensures Before(routes[i], routes[j]) {
      assert TurnOpen(turns[i], steps, 0, seen, g, defs) && TurnOpen(turns[j], steps, 0, seen, g, defs);
      ViaOrdered(v, g.arrays, turns[i], turns[j]);
    }
  }

  lemma ViaPaths(v: Value, paths: seq<Path>, path: Path, turns: seq<Turn>, g: Graph, defs: Definitions)
    requires g.Input? && EntryOf(v, g.target) == Descend && StepsOf(v, g.arrays).Success?
    requires PathsFromTurns(paths, path, turns, StepsOf(v, g.arrays).value, 0)
    ensures PathsFrom(paths, path, Vias(v, g.arrays, turns))
  {
    var steps := StepsOf(v, g.arrays).value;
    forall i | 0 <= i < |paths| ensures paths[i] == path + KeysOf(Vias(v, g.arrays, turns)[i]) {
      StepKeys(v, g.arrays, turns[i].at, turns[i].rest);
      Grouped(path, steps[turns[i].at].suffix, KeysOf(turns[i].rest));
    }
  }

  lemma Grouped(a: Path, b: Path, c: Path)
    ensures a + b + c == a + (b + c)
  {
  }

  function Throughs(raw: string, rests: seq<Route>): (routes: seq<Route>)
    ensures |routes| == |rests| && forall i :: 0 <= i < |routes| ==> routes[i] == Through(raw, rests[i])
  {
    seq(|rests|, i requires 0 <= i < |rests| => Through(raw, rests[i]))
  }

  lemma OpenThrough(raw: string, rest: Route, v: Value, seen: set<string>, g: Graph, defs: Definitions)
    requires g.Input? && EntryOf(v, g.target) == Follow(raw) && raw !in seen && RemovePrefix(raw, PREFIX) in defs
    ensures Open(Through(raw, rest), v, seen, g.target, g.arrays, defs) <==>
            Open(rest, defs[RemovePrefix(raw, PREFIX)], seen + {raw}, g.target, g.arrays, defs)
  {
    ThroughIs(raw, rest, v, g, defs);
  }

  /** Every open route of a node with a reference goes through it. */
  lemma OpenLeads(r: Route, v: Value, raw: string, seen: set<string>, g: Graph, defs: Definitions)
    requires g.Input? && EntryOf(v, g.target) == Follow(raw) && RemovePrefix(raw, PREFIX) in defs
    requires Open(r, v, seen, g.target, g.arrays, defs)
    ensures r.Through? && r.raw == raw && raw !in seen
  {
    EntryIs(v, g.target);
    ThroughIs(raw, Here, v, g, defs);
  }

  lemma ThroughsListing(v: Value, raw: string, rests: seq<Route>, seen: set<string>, g: Graph, defs: Definitions)
    requires g.Input? && EntryOf(v, g.target) == Follow(raw) && raw !in seen && RemovePrefix(raw, PREFIX) in defs
    requires Listing(rests, defs[RemovePrefix(raw, PREFIX)], seen + {raw}, g, defs)
    ensures Listing(Throughs(raw, rests), v, seen, g, defs)
  {
    var routes := Throughs(raw, rests);
    forall i | 0 <= i < |routes| ensures Open(routes[i], v, seen, g.target, g.arrays, defs) {
      OpenThrough(raw, rests[i], v, seen, g, defs);
    }
    forall r | Open(r, v, seen, g.target, g.arrays, defs) ensures r in routes {
      OpenLeads(r, v, raw, seen, g, defs);
      OpenThrough(raw, r.rest, v, seen, g, defs);
      var i :| 0 <= i < |rests| && rests[i] == r.rest;
      assert routes[i] == r;
    }
  }

  // ----- What the search returns

  /** The search returns the keys of exactly the routes that enter no definition twice, one path for each of them,
      in the order of the document. */
  lemma {:induction false} PathsInOrder(v: Value, path: Path, seen: set<string>, g: Graph, defs: Definitions)
    returns (routes: seq<Route>)
    requires g.Input? && InputPaths(v, path, seen, g, defs).Success? && AllLed(seen, defs)
    ensures Listing(routes, v, seen, g, defs)
    ensures PathsFrom(InputPaths(v, path, seen, g, defs).value, path, routes)
    decreases |Spellings(defs) - seen|, Size(v), 0
  {
    EntryIs(v, g.target);
    match EntryOf(v, g.target)
    case Hit =>
      routes := [Here];
      HereListing(v, seen, g, defs);
    case Follow(raw) =>
      if raw in seen {
        routes := [];
        NoneThrough(v, raw, seen, g, defs);
      } else {
        FollowingShrinks(defs, raw, seen);
        PathsOfDefinition(v, raw, path, seen, g, defs);
        var rests := PathsInOrder(defs[RemovePrefix(raw, PREFIX)], path, seen + {raw}, g, defs);
        routes := Throughs(raw, rests);
        ThroughsListing(v, raw, rests, seen, g, defs);
      }
    case Descend =>
      StepsShrink(v, g.arrays);
      PathsOfSteps(v, path, seen, g, defs);
      var steps := StepsOf(v, g.arrays).value;
      var turns := TurnsInOrder(steps, 0, path, seen, g, defs);
      routes := Vias(v, g.arrays, turns);
      ViasListing(v, turns, seen, g, defs);
      ViaPaths(v, InputPaths(v, path, seen, g, defs).value, path, turns, g, defs);
  }

  lemma HereListing(v: Value, seen: set<string>, g: Graph, defs: Definitions)
    requires g.Input? && EntryOf(v, g.target) == Hit
    ensures Listing([Here], v, seen, g, defs)
  {
    EntryIs(v, g.target);
    forall r | Open(r, v, seen, g.target, g.arrays, defs) ensures r in [Here] {
      assert r == Here;
    }
  }

  /** The texts followed before led to definitions. */
  predicate AllLed(seen: set<string>, defs: Definitions) {
    forall raw <- seen :: RemovePrefix(raw, PREFIX) in defs
  }

  /** A text that was followed before opens no route. */
  lemma NoneThrough(v: Value, raw: string, seen: set<string>, g: Graph, defs: Definitions)
    requires g.Input? && EntryOf(v, g.target) == Follow(raw) && raw in seen && RemovePrefix(raw, PREFIX) in defs
    ensures Listing([], v, seen, g, defs)
  {
    forall r ensures !Open(r, v, seen, g.target, g.arrays, defs) {
      if Open(r, v, seen, g.target, g.arrays, defs) {
        OpenLeads(r, v, raw, seen, g, defs);
      }
    }
  }

  lemma {:induction false} TurnsInOrder(steps: seq<Step>, base: nat, path: Path, seen: set<string>, g: Graph,
          defs: Definitions)
    returns (turns: seq<Turn>)
    requires g.Input? && InputPathsOfAll(steps, path, seen, g, defs).Success? && AllLed(seen, defs)
    ensures TurnsListing(turns, steps, base, seen, g, defs)
    ensures PathsFromTurns(InputPathsOfAll(steps, path, seen, g, defs).value, path, turns, steps, base)
    decreases |Spellings(defs) - seen|, StepsSize(steps), 1, |steps|
  {
    if steps == [] {
      turns := [];
    } else {
      var routes := PathsInOrder(steps[0].child, path + steps[0].suffix, seen, g, defs);
      var later := TurnsInOrder(steps[1..], base + 1, path, seen, g, defs);
      turns := TurnsAt(base, routes) + later;
      TurnsJoin(steps, base, routes, later, seen, g, defs);
      TurnPathsJoin(InputPaths(steps[0].child, path + steps[0].suffix, seen, g, defs).value,
                    InputPathsOfAll(steps[1..], path, seen, g, defs).value, path, routes, later, steps, base);
    }
  }

  /** When the search raises, a route that enters no definition twice comes to a node where it raises. */
  lemma {:induction false} FailureIsStuck(v: Value, path: Path, seen: set<string>, g: Graph, defs: Definitions)
    returns (r: Route)
    requires g.Input? && InputPaths(v, path, seen, g, defs).Failure? && AllLed(seen, defs)
    ensures Open(r, v, seen, g.target, g.arrays, defs) && !Arrives(r)
    decreases |Spellings(defs) - seen|, Size(v), 0
  {
    EntryIs(v, g.target);
    match EntryOf(v, g.target)
    case Bad =>
      r := Stuck;
    case Follow(raw) =>
      ThroughIs(raw, Here, v, g, defs);
      if RemovePrefix(raw, PREFIX) !in defs {
        r := Stuck;
      } else {
        FollowingShrinks(defs, raw, seen);
        PathsOfDefinition(v, raw, path, seen, g, defs);
        var rest := FailureIsStuck(defs[RemovePrefix(raw, PREFIX)], path, seen + {raw}, g, defs);
        r := Through(raw, rest);
        OpenThrough(raw, rest, v, seen, g, defs);
      }
    case Descend =>
      DescentRaises(v, g, defs);
      if StepsOf(v, g.arrays).Failure? {
        r := Stuck;
      } else {
        StepsShrink(v, g.arrays);
        PathsOfSteps(v, path, seen, g, defs);
        var at, rest := StepsAreStuck(StepsOf(v, g.arrays).value, path, seen, g, defs);
        r := Via(v, g.arrays, at, rest);
        StepIs(v, g, at, rest, seen, defs);
      }
  }

  lemma {:induction false} StepsAreStuck(steps: seq<Step>, path: Path, seen: set<string>, g: Graph, defs: Definitions)
    returns (at: nat, r: Route)
    requires g.Input? && InputPathsOfAll(steps, path, seen, g, defs).Failure? && AllLed(seen, defs)
    ensures at < |steps| && Open(r, steps[at].child, seen, g.target, g.arrays, defs) && !Arrives(r)
    decreases |Spellings(defs) - seen|, StepsSize(steps), 1, |steps|
  {
    if InputPaths(steps[0].child, path + steps[0].suffix, seen, g, defs).Failure? {
      at := 0;
      r := FailureIsStuck(steps[0].child, path + steps[0].suffix, seen, g, defs);
    } else {
      at, r := StepsAreStuck(steps[1..], path, seen, g, defs);
      at := at + 1;
    }
  }

  /** `input_paths` raises exactly when a route that enters no definition twice comes to a node where it raises.
      Otherwise it returns the keys of exactly the routes to the target that enter no definition twice, one path
      for each route, in the order of the document. */
  lemma InputPathsAreRoutes(v: Value, target: string, arrays: bool, defs: Definitions)
    ensures
      var r := InputPaths(v, [], {}, Input(target, arrays), defs);
      && (r.Failure? <==> exists stuck :: Open(stuck, v, {}, target, arrays, defs) && !Arrives(stuck))
      && (r.Success? ==> exists routes ::
            Listing(routes, v, {}, Input(target, arrays), defs) && PathsFrom(r.value, [], routes))
      && (r.Success? ==> forall p :: p in r.value <==> exists route ::
            Open(route, v, {}, target, arrays, defs) && KeysOf(route) == p)
  {
    var g := Input(target, arrays);
    if InputPaths(v, [], {}, g, defs).Failure? {
      var stuck := FailureIsStuck(v, [], {}, g, defs);
    } else {
      var routes := PathsInOrder(v, [], {}, g, defs);
      ListedPaths(InputPaths(v, [], {}, g, defs).value, routes, v, g, defs);
      forall stuck ensures !(Open(stuck, v, {}, target, arrays, defs) && !Arrives(stuck)) {
        assert Open(stuck, v, {}, target, arrays, defs) ==> stuck in routes;
      }
    }
  }

  lemma ListedPaths(paths: seq<Path>, routes: seq<Route>, v: Value, g: Graph, defs: Definitions)
    requires g.Input? && Listing(routes, v, {}, g, defs) && PathsFrom(paths, [], routes)
    ensures forall p :: p in paths <==> exists r :: Open(r, v, {}, g.target, g.arrays, defs) && KeysOf(r) == p
  {
    forall p ensures p in paths <==> exists r :: Open(r, v, {}, g.target, g.arrays, defs) && KeysOf(r) == p {
      if p in paths {
        var i :| 0 <= i < |paths| && paths[i] == p;
        assert Open(routes[i], v, {}, g.target, g.arrays, defs) && KeysOf(routes[i]) == p;
      }
      if r :| Open(r, v, {}, g.target, g.arrays, defs) && KeysOf(r) == p {
        var i :| 0 <= i < |routes| && routes[i] == r;
        assert paths[i] == p;
      }
    }
  }
}
