/** Exactly when the two searches of scripts/codex/generate_input_semantics.py agree on a schema: when each name
    that its tree refers to is also referred to from a place that `input_paths` descends to. */
module SearchExactness {
  import opened Wrappers
  import opened Json
  import opened Text
  import opened SchemaGraph
  import opened PathSearch
  import opened SearchAgreement

  /** The tree of the schema alone refers to the name. */
  ghost predicate TreeRefersTo(v: Value, name: string) {
    RefersTo(map[], v, name)
  }

  /** The path search comes to a reference to the name without entering a definition. */
  ghost predicate InView(v: Value, name: string, arrays: bool) {
    HasTrail(v, Input(name, arrays), map[])
  }

  ghost predicate AllInView(v: Value, arrays: bool) {
    forall name :: name != "" && TreeRefersTo(v, name) ==> InView(v, name, arrays)
  }

  /** The definitions are plain for every target, and none is named "". */
  ghost predicate PlainDefinitions(defs: Definitions, arrays: bool) {
    "" !in defs && forall target: string, name <- defs :: PlainFrom(defs[name], Input(target, arrays), defs)
  }

  // ----- Trails within the tree

  /** A trail that enters no definition is a trail among any definitions. */
  lemma {:induction false} TreeTrail(t: Trail, v: Value, g: Graph, defs: Definitions)
    requires g.Input? && IsTrail(t, v, g, map[])
    ensures IsTrail(t, v, g, defs)
    decreases t
  {
    match t
    case Arrive =>
    case Cross(_, _) =>
    case Down(step, rest) =>
      TreeTrail(rest, step.child, g, defs);
  }

  lemma SameDescent(v: Value, name: string, target: string)
    requires EntryOf(v, name) == Descend
    ensures EntryOf(v, target) == Descend
  {
  }

  /** A reference to one name, for a search with another target, is followed. */
  lemma HitIsFollowed(v: Value, name: string, target: string)
    requires EntryOf(v, name) == Hit && name != target
    ensures EntryOf(v, target) == Follow(PREFIX + name) && RemovePrefix(PREFIX + name, PREFIX) == name
  {
    assert (PREFIX + name)[|PREFIX|..] == name && (PREFIX + target)[|PREFIX|..] == target;
  }

  /** A trail to a definition within the tree goes on with any trail from that definition. */
  lemma {:induction false} Redirected(t: Trail, v: Value, name: string, rest: Trail, g: Graph, defs: Definitions)
    returns (u: Trail)
    requires g.Input? && IsTrail(t, v, Input(name, g.arrays), map[])
    requires name in defs && IsTrail(rest, defs[name], g, defs)
    ensures IsTrail(u, v, g, defs)
    decreases t
  {
    match t
    case Arrive =>
      if name == g.target {
        u := Arrive;
      } else {
        HitIsFollowed(v, name, g.target);
        u := Cross(PREFIX + name, rest);
      }
    case Down(step, more) =>
      SameDescent(v, name, g.target);
      var w := Redirected(more, step.child, name, rest, g, defs);
      u := Down(step, w);
  }

  lemma NoBarePrefix(raw: string)
    ensures RemovePrefix(raw, PREFIX) != "" ==> raw != PREFIX
  {
  }

  lemma {:induction false} NeverBare(t: Trail, v: Value, g: Graph, defs: Definitions)
    requires g.Input? && IsTrail(t, v, g, defs) && "" !in defs
    ensures PREFIX !in Crossed(t)
    decreases t
  {
    match t
    case Arrive =>
    case Cross(raw, rest) =>
      NoBarePrefix(raw);
      NeverBare(rest, defs[RemovePrefix(raw, PREFIX)], g, defs);
    case Down(step, rest) =>
      NeverBare(rest, step.child, g, defs);
  }

  // ----- Walks within the tree

  lemma {:induction false} TreeWalk(w: seq<Value>, defs: Definitions)
    requires Walk(Full, map[], w)
    ensures Walk(Full, defs, w)
  {
    if |w| > 1 {
      TreeWalk(w[1..], defs);
    }
  }

  lemma TreeReference(v: Value, name: string, defs: Definitions)
    requires TreeRefersTo(v, name)
    ensures RefersTo(defs, v, name)
  {
    var n :| Reaches(Full, map[], v, n) && NamingOf(n) == Names(name);
    var w :| Walk(Full, map[], w) && w[0] == v && w[|w| - 1] == n;
    TreeWalk(w, defs);
    assert Reaches(Full, defs, v, n);
  }

  /** The name itself, or one whose definition refers to it. */
  ghost predicate LeadsTo(defs: Definitions, name: string, target: string) {
    name == target || (name in defs && RefersTo(defs, defs[name], target))
  }

  lemma NamedInTree(start: Value, node: Value, name: string)
    requires Reaches(Full, map[], start, node) && NamingOf(node) == Names(name)
    ensures TreeRefersTo(start, name) && name != ""
  {
  }

  lemma CrossingLeads(w: seq<Value>, target: string, defs: Definitions) returns (name: string)
    requires Walk(Full, defs, w) && NamingOf(w[|w| - 1]) == Names(target) && |w| > 1 && w[1] !in Children(w[0])
    ensures NamingOf(w[0]) == Names(name) && LeadsTo(defs, name, target)
  {
    assert Edge(Full, defs, w[0], w[1]);
    name := NamingOf(w[0]).name;
    WalkReaches(w[1..], defs);
    assert w[1..][|w| - 2] == w[|w| - 1];
  }

  lemma WalkReaches(w: seq<Value>, defs: Definitions)
    requires Walk(Full, defs, w)
    ensures Reaches(Full, defs, w[0], w[|w| - 1])
  {
  }

  /** A walk from a node of the tree to a reference stays in the tree, or leaves it at a reference to a
      definition, from which the reference is reached. */
  lemma {:induction false} LeavesTree(w: seq<Value>, start: Value, target: string, defs: Definitions)
    returns (name: string)
    requires Walk(Full, defs, w) && NamingOf(w[|w| - 1]) == Names(target)
    requires Reaches(Full, map[], start, w[0])
    ensures TreeRefersTo(start, name) && name != "" && LeadsTo(defs, name, target)
    decreases |w|
  {
    if |w| == 1 {
      name := target;
      NamedInTree(start, w[0], name);
    } else if w[1] in Children(w[0]) {
      ChildReaches(start, w[0], w[1], map[]);
      name := LeavesTree(w[1..], start, target, defs);
    } else {
      name := CrossingLeads(w, target, defs);
      NamedInTree(start, w[0], name);
    }
  }

  // ----- The exact condition

  lemma TrailRefersAnyway(v: Value, g: Graph, defs: Definitions)
    requires g.Input? && g.target != "" && "" !in defs && HasTrail(v, g, defs)
    ensures RefersTo(defs, v, g.target)
  {
    var t :| IsTrail(t, v, g, defs);
    NeverBare(t, v, g, defs);
    ReachesSelf(Full, defs, v);
    TrailIsWalk(t, v, v, g, defs);
  }

  lemma InViewIsFound(v: Value, g: Graph, defs: Definitions)
    requires g.Input? && AllInView(v, g.arrays) && PlainDefinitions(defs, g.arrays) && RefersTo(defs, v, g.target)
    ensures HasTrail(v, g, defs)
  {
    var n :| Reaches(Full, defs, v, n) && NamingOf(n) == Names(g.target);
    var w :| Walk(Full, defs, w) && w[0] == v && w[|w| - 1] == n;
    ReachesSelf(Full, map[], v);
    var name := LeavesTree(w, v, g.target, defs);
    assert InView(v, name, g.arrays);
    var t :| IsTrail(t, v, Input(name, g.arrays), map[]);
    if name == g.target {
      TreeTrail(t, v, g, defs);
    } else {
      assert PlainFrom(defs[name], Input(g.target, g.arrays), defs);
      var rest := ReferenceHasTrail(defs[name], g, defs);
      var u := Redirected(t, v, name, rest, g, defs);
    }
  }

  /** On a schema, whatever its plain definitions and the target, the path search has a route exactly when the
      worklist sees the target, if and only if all names that its tree refers to are in view. */
  lemma SearchesAgreeExactly(v: Value, arrays: bool)
    ensures AllInView(v, arrays) <==>
            forall defs: Definitions, target: string :: PlainDefinitions(defs, arrays) && target != "" ==>
              (HasTrail(v, Input(target, arrays), defs) <==> RefersTo(defs, v, target))
  {
    if AllInView(v, arrays) {
      forall defs: Definitions, target: string | PlainDefinitions(defs, arrays) && target != ""
        ensures HasTrail(v, Input(target, arrays), defs) <==> RefersTo(defs, v, target)
      {
        var g := Input(target, arrays);
        if HasTrail(v, g, defs) {
          TrailRefersAnyway(v, g, defs);
        }
        if RefersTo(defs, v, target) {
          InViewIsFound(v, g, defs);
        }
      }
    } else {
      var name :| name != "" && TreeRefersTo(v, name) && !InView(v, name, arrays);
      var none: Definitions := map[];
      assert PlainDefinitions(none, arrays);
      assert !(HasTrail(v, Input(name, arrays), none) <==> RefersTo(none, v, name));
    }
  }

  /** What the path search returns when everything is in view and it does not raise. */
  lemma InViewPathsAgree(v: Value, g: Graph, defs: Definitions)
    requires g.Input? && g.target != "" && AllInView(v, g.arrays) && PlainDefinitions(defs, g.arrays)
    requires InputPaths(v, [], {}, g, defs).Success?
    ensures InputPaths(v, [], {}, g, defs).value != [] <==> RefersTo(defs, v, g.target)
  {
    InputPathsExact(v, g, defs);
    SearchesAgreeExactly(v, g.arrays);
  }

  // ----- A name out of view

  /** A trail stays in the tree, or some definition has a trail. */
  lemma {:induction false} TrailStays(t: Trail, v: Value, g: Graph, defs: Definitions)
    requires g.Input? && IsTrail(t, v, g, defs)
    requires forall name <- defs :: !HasTrail(defs[name], g, defs)
    ensures IsTrail(t, v, g, map[])
    decreases t
  {
    match t
    case Arrive =>
    case Cross(_, _) =>
    case Down(step, rest) =>
      TrailStays(rest, step.child, g, defs);
  }

  /** A name that the tree refers to only out of view is seen by the worklist and missed by the path search,
      among any definitions that do not lead to it themselves. */
  lemma HiddenReferenceIsMissed(v: Value, g: Graph, defs: Definitions)
    requires g.Input? && TreeRefersTo(v, g.target) && !InView(v, g.target, g.arrays)
    requires forall name <- defs :: !HasTrail(defs[name], g, defs)
    ensures RefersTo(defs, v, g.target) && !HasTrail(v, g, defs)
    ensures InputPaths(v, [], {}, g, defs).Success? ==> InputPaths(v, [], {}, g, defs) == Success([])
  {
    TreeReference(v, g.target, defs);
    if HasTrail(v, g, defs) {
      var t :| IsTrail(t, v, g, defs);
      TrailStays(t, v, g, defs);
    }
    if InputPaths(v, [], {}, g, defs).Success? {
      InputPathsExact(v, g, defs);
    }
  }

  const HIDDEN := Obj([Member("$ref", Str("#/definitions/Mode"))])
  const HIDING := Obj([Member("properties", Obj([])), Member("not", HIDDEN)])
  const HIDING_DEFINITIONS: Definitions := map["Mode" := Null]

  lemma HiddenNames()
    ensures NamingOf(HIDDEN) == Names("Mode")
  {
    assert "#/definitions/Mode"[|PREFIX|..] == "Mode";
  }

  lemma HidingHasNoSteps(g: Graph)
    requires g.Input?
    ensures EntryOf(HIDING, g.target) == Descend && StepsOf(HIDING, g.arrays) == Success([])
  {
    var ms := HIDING.members;
    assert ms[1..] == [Member("not", HIDDEN)] && ms[1..][1..] == [];
    assert Get(ms, "$ref") == Get(ms[1..], "$ref") == None;
    assert Get(ms, "properties") == Some(Obj([]));
  }

  /** A reference beside `properties` is such a name. */
  lemma HiddenBesideProperties(g: Graph)
    requires g.Input? && g.target == "Mode"
    ensures TreeRefersTo(HIDING, "Mode") && !InView(HIDING, "Mode", g.arrays)
    ensures RefersTo(HIDING_DEFINITIONS, HIDING, "Mode")
    ensures InputPaths(HIDING, [], {}, g, HIDING_DEFINITIONS) == Success([])
  {
    ReachesSelf(Full, map[], HIDING);
    assert Children(HIDING)[1] == HIDDEN;
    ChildReaches(HIDING, HIDING, HIDDEN, map[]);
    HiddenNames();
    HidingHasNoSteps(g);
    HidingHasNoSteps(Input("Mode", g.arrays));
    NullHasNoTrail(g, HIDING_DEFINITIONS);
    HiddenReferenceIsMissed(HIDING, g, HIDING_DEFINITIONS);
  }

  lemma NullHasNoTrail(g: Graph, defs: Definitions)
    requires g.Input?
    ensures !HasTrail(Null, g, defs)
  {
    assert StepsOf(Null, g.arrays).value == [];
  }
}
