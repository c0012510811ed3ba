/** The cycle-cutting path search `input_paths` of scripts/codex/generate_input_semantics.py. */
module PathSearch {
  import opened Wrappers
  import opened Json
  import opened Text
  import opened SchemaGraph

  function StepsSize(steps: seq<Step>): nat {
    if steps == [] then 0 else Size(steps[0].child) + StepsSize(steps[1..])
  }

  lemma {:induction false} SizeOfSteps(steps: seq<Step>, vs: seq<Value>)
    requires |steps| == |vs| && forall i :: 0 <= i < |vs| ==> steps[i].child == vs[i]
    ensures StepsSize(steps) == SizeAll(vs)
  {
    if steps != [] {
      SizeOfSteps(steps[1..], vs[1..]);
    }
  }

  lemma StepsShrink(v: Value, arrays: bool)
    ensures StepsOf(v, arrays).Success? ==> StepsSize(StepsOf(v, arrays).value) < Size(v)
  {
    SizeOfChildren(v);
    if v.Obj? {
      SizeOfValues(v.members);
      SizeOfSteps(Unnamed(Values(v.members)), Values(v.members));
      if Has(v.members, "properties") {
        MemberSize(v.members, "properties");
        var p := Get(v.members, "properties").value;
        if p.Obj? {
          SizeOfValues(p.members);
          SizeOfSteps(Named(p.members), Values(p.members));
        }
      } else if Has(v.members, "items") {
        MemberSize(v.members, "items");
      }
    } else {
      SizeOfSteps(Unnamed(Children(v)), Children(v));
    }
  }

  lemma MemberSize(members: seq<Member>, name: string)
    requires Has(members, name)
    ensures Size(Get(members, name).value) <= SizeMembers(members)
  {
  }

  /** Every text that leads to a definition: its name, or the prefixed name. */
  function Spellings(defs: Definitions): set<string> {
    (set name <- defs.Keys) + (set name <- defs.Keys :: PREFIX + name)
  }

  lemma FollowingShrinks(defs: Definitions, raw: string, seen: set<string>)
    requires RemovePrefix(raw, PREFIX) in defs && raw !in seen
    ensures raw in Spellings(defs)
    ensures |Spellings(defs) - (seen + {raw})| < |Spellings(defs) - seen|
  {
    if PREFIX <= raw {
      assert raw == PREFIX + raw[|PREFIX|..];
    }
    Shrinks(Spellings(defs), seen, raw);
  }

  function InputPaths(node: Value, path: Path, seen: set<string>, g: Graph, defs: Definitions): Result<seq<Path>>
    requires g.Input?
    decreases |Spellings(defs) - seen|, Size(node), 0
  {
    match EntryOf(node, g.target)
    case Hit => Success([path])
    case Bad => Failure
    case Follow(raw) =>
      var name := RemovePrefix(raw, PREFIX);
      if raw in seen then Success([])
      else if name !in defs then Failure
      else
        FollowingShrinks(defs, raw, seen);
        InputPaths(defs[name], path, seen + {raw}, g, defs)
    case Descend =>
      StepsShrink(node, g.arrays);
      var steps :- StepsOf(node, g.arrays);
      InputPathsOfAll(steps, path, seen, g, defs)
  }

  function InputPathsOfAll(steps: seq<Step>, path: Path, seen: set<string>, g: Graph,
          defs: Definitions): Result<seq<Path>>
    requires g.Input?
    decreases |Spellings(defs) - seen|, StepsSize(steps), 1, |steps|
  {
    if steps == [] then Success([])
    else
      var first :- InputPaths(steps[0].child, path + steps[0].suffix, seen, g, defs);
      var rest :- InputPathsOfAll(steps[1..], path, seen, g, defs);
      Success(first + rest)
  }

  // ----- What the returned paths mean

  /** A route from a node to a reference to the target: definitions entered and steps descended. */
  datatype Trail = Arrive | Cross(raw: string, rest: Trail) | Down(step: Step, rest: Trail)

  ghost predicate IsTrail(t: Trail, node: Value, g: Graph, defs: Definitions)
    requires g.Input?
  {
    match t
    case Arrive => EntryOf(node, g.target) == Hit
    case Cross(raw, rest) =>
      && EntryOf(node, g.target) == Follow(raw)
      && RemovePrefix(raw, PREFIX) in defs
      && IsTrail(rest, defs[RemovePrefix(raw, PREFIX)], g, defs)
    case Down(step, rest) =>
      && EntryOf(node, g.target) == Descend
      && StepsOf(node, g.arrays).Success?
      && step in StepsOf(node, g.arrays).value
      && IsTrail(rest, step.child, g, defs)
  }

  ghost predicate HasTrail(node: Value, g: Graph, defs: Definitions)
    requires g.Input?
  {
    exists t :: IsTrail(t, node, g, defs)
  }

  /** The property names a trail descends through. */
  function PathOf(t: Trail): Path {
    match t
    case Arrive => []
    case Cross(_, rest) => PathOf(rest)
    case Down(step, rest) => step.suffix + PathOf(rest)
  }

  function Crossed(t: Trail): set<string> {
    match t
    case Arrive => {}
    case Cross(raw, rest) => {raw} + Crossed(rest)
    case Down(_, rest) => Crossed(rest)
  }

  /** No definition is entered twice under one spelling. */
  predicate Simple(t: Trail) {
    match t
    case Arrive => true
    case Cross(raw, rest) => raw !in Crossed(rest) && Simple(rest)
    case Down(_, rest) => Simple(rest)
  }

  ghost predicate Returned(p: Path, node: Value, path: Path, seen: set<string>, g: Graph, defs: Definitions)
    requires g.Input?
  {
    exists t :: IsTrail(t, node, g, defs) && Simple(t) && Crossed(t) !! seen && p == path + PathOf(t)
  }

  /** Every returned path is the property path of a genuine route that repeats no definition. */
  lemma {:induction false} PathsAreRoutes(p: Path, node: Value, path: Path, seen: set<string>, g: Graph,
          defs: Definitions)
    returns (t: Trail)
    requires g.Input? && InputPaths(node, path, seen, g, defs).Success?
    requires p in InputPaths(node, path, seen, g, defs).value
    ensures IsTrail(t, node, g, defs) && Simple(t) && Crossed(t) !! seen && p == path + PathOf(t)
    decreases |Spellings(defs) - seen|, Size(node), 0
  {
    match EntryOf(node, g.target)
    case Hit =>
      t := Arrive;
    case Follow(raw) =>
      FollowingShrinks(defs, raw, seen);
      PathsOfDefinition(node, raw, path, seen, g, defs);
      var rest := PathsAreRoutes(p, defs[RemovePrefix(raw, PREFIX)], path, seen + {raw}, g, defs);
      t := Cross(raw, rest);
    case Descend =>
      StepsShrink(node, g.arrays);
      PathsOfSteps(node, path, seen, g, defs);
      var step, rest := StepPathsAreRoutes(p, StepsOf(node, g.arrays).value, path, seen, g, defs);
      t := Down(step, rest);
      PathThroughStep(path, step, rest);
  }

  lemma PathThroughStep(path: Path, step: Step, rest: Trail)
    ensures path + step.suffix + PathOf(rest) == path + PathOf(Down(step, rest))
  {
  }

  lemma {:induction false} StepPathsAreRoutes(p: Path, steps: seq<Step>, path: Path, seen: set<string>, g: Graph,
          defs: Definitions)
    returns (step: Step, t: Trail)
    requires g.Input? && InputPathsOfAll(steps, path, seen, g, defs).Success?
    requires p in InputPathsOfAll(steps, path, seen, g, defs).value
    ensures step in steps && IsTrail(t, step.child, g, defs) && Simple(t) && Crossed(t) !! seen
    ensures p == path + step.suffix + PathOf(t)
    decreases |Spellings(defs) - seen|, StepsSize(steps), 1, |steps|
  {
    if p in InputPaths(steps[0].child, path + steps[0].suffix, seen, g, defs).value {
      step := steps[0];
      t := PathsAreRoutes(p, step.child, path + step.suffix, seen, g, defs);
    } else {
      step, t := StepPathsAreRoutes(p, steps[1..], path, seen, g, defs);
    }
  }

  /** Every route that repeats no definition is returned. */
  lemma {:induction false} RoutesAreReturned(t: Trail, node: Value, path: Path, seen: set<string>, g: Graph,
          defs: Definitions)
    requires g.Input? && InputPaths(node, path, seen, g, defs).Success?
    requires IsTrail(t, node, g, defs) && Simple(t) && Crossed(t) !! seen
    ensures path + PathOf(t) in InputPaths(node, path, seen, g, defs).value
    decreases t
  {
    match t
    case Arrive =>
      assert path + PathOf(t) == path;
    case Cross(raw, rest) =>
      RoutesAreReturned(rest, defs[RemovePrefix(raw, PREFIX)], path, seen + {raw}, g, defs);
    case Down(step, rest) =>
      var steps := StepsOf(node, g.arrays).value;
      var i :| 0 <= i < |steps| && steps[i] == step;
      PathsOfSteps(node, path, seen, g, defs);
      StepPathsSucceed(steps, i, path, seen, g, defs);
      RoutesAreReturned(rest, step.child, path + step.suffix, seen, g, defs);
      StepPathsIncluded(steps, i, path + step.suffix + PathOf(rest), path, seen, g, defs);
      PathThroughStep(path, step, rest);
  }

  lemma PathsOfDefinition(node: Value, raw: string, path: Path, seen: set<string>, g: Graph, defs: Definitions)
    requires g.Input? && EntryOf(node, g.target) == Follow(raw) && raw !in seen
    ensures InputPaths(node, path, seen, g, defs) ==
      if RemovePrefix(raw, PREFIX) in defs then InputPaths(defs[RemovePrefix(raw, PREFIX)], path, seen + {raw}, g, defs)
      else Failure
  {
  }

  lemma PathsOfSteps(node: Value, path: Path, seen: set<string>, g: Graph, defs: Definitions)
    requires g.Input? && EntryOf(node, g.target) == Descend && StepsOf(node, g.arrays).Success?
    ensures InputPaths(node, path, seen, g, defs) == InputPathsOfAll(StepsOf(node, g.arrays).value, path, seen, g, defs)
  {
  }

  lemma {:induction false} StepPathsSucceed(steps: seq<Step>, i: nat, path: Path, seen: set<string>, g: Graph,
          defs: Definitions)
    requires g.Input? && i < |steps| && InputPathsOfAll(steps, path, seen, g, defs).Success?
    ensures InputPaths(steps[i].child, path + steps[i].suffix, seen, g, defs).Success?
  {
    if i > 0 {
      StepPathsSucceed(steps[1..], i - 1, path, seen, g, defs);
    }
  }

  lemma {:induction false} StepPathsIncluded(steps: seq<Step>, i: nat, p: Path, path: Path, seen: set<string>,
          g: Graph, defs: Definitions)
    requires g.Input? && i < |steps| && InputPathsOfAll(steps, path, seen, g, defs).Success?
    requires InputPaths(steps[i].child, path + steps[i].suffix, seen, g, defs).Success?
    requires p in InputPaths(steps[i].child, path + steps[i].suffix, seen, g, defs).value
    ensures p in InputPathsOfAll(steps, path, seen, g, defs).value
  {
    if i > 0 {
      StepPathsIncluded(steps[1..], i - 1, p, path, seen, g, defs);
    }
  }

  /** The last part of a trail that crosses `raw`, from the definition it enters. */
  lemma {:induction false} AfterCrossing(t: Trail, node: Value, raw: string, g: Graph, defs: Definitions)
    returns (s: Trail)
    requires g.Input? && IsTrail(t, node, g, defs) && Simple(t) && raw in Crossed(t)
    ensures RemovePrefix(raw, PREFIX) in defs && IsTrail(s, defs[RemovePrefix(raw, PREFIX)], g, defs)
    ensures Simple(s) && Crossed(s) <= Crossed(t) && raw !in Crossed(s)
    decreases t
  {
    match t
    case Cross(r, rest) =>
      if r == raw {
        s := rest;
      } else {
        s := AfterCrossing(rest, defs[RemovePrefix(r, PREFIX)], raw, g, defs);
      }
    case Down(step, rest) =>
      s := AfterCrossing(rest, step.child, raw, g, defs);
  }

  /** Cutting a repeated definition never loses the last route: any trail shortens to one that
      enters no definition twice. */
  lemma {:induction false} CutCycles(t: Trail, node: Value, g: Graph, defs: Definitions) returns (s: Trail)
    requires g.Input? && IsTrail(t, node, g, defs)
    ensures IsTrail(s, node, g, defs) && Simple(s) && Crossed(s) <= Crossed(t)
    decreases t
  {
    match t
    case Arrive =>
      s := Arrive;
    case Down(step, rest) =>
      var short := CutCycles(rest, step.child, g, defs);
      s := Down(step, short);
    case Cross(raw, rest) =>
      var entered := defs[RemovePrefix(raw, PREFIX)];
      var short := CutCycles(rest, entered, g, defs);
      if raw in Crossed(short) {
        short := AfterCrossing(short, entered, raw, g, defs);
      }
      s := Cross(raw, short);
  }

  /** `input_paths` returns exactly the property paths of the routes that repeat no definition, and
      returns none only when there is no route at all, repeating or not. */
  lemma InputPathsExact(node: Value, g: Graph, defs: Definitions)
    requires g.Input? && InputPaths(node, [], {}, g, defs).Success?
    ensures forall p :: p in InputPaths(node, [], {}, g, defs).value <==> Returned(p, node, [], {}, g, defs)
    ensures InputPaths(node, [], {}, g, defs).value != [] <==> HasTrail(node, g, defs)
  {
    var ps := InputPaths(node, [], {}, g, defs).value;
    forall p ensures p in ps <==> Returned(p, node, [], {}, g, defs) {
      if p in ps {
        var t := PathsAreRoutes(p, node, [], {}, g, defs);
      }
      if Returned(p, node, [], {}, g, defs) {
        var t :| IsTrail(t, node, g, defs) && Simple(t) && Crossed(t) !! {} && p == [] + PathOf(t);
        RoutesAreReturned(t, node, [], {}, g, defs);
      }
    }
    if ps != [] {
      var t := PathsAreRoutes(ps[0], node, [], {}, g, defs);
      assert HasTrail(node, g, defs);
    }
    if HasTrail(node, g, defs) {
      var t :| IsTrail(t, node, g, defs);
      var s := CutCycles(t, node, g, defs);
      assert Returned([] + PathOf(s), node, [], {}, g, defs);
      assert ps != [];
    }
  }
}
