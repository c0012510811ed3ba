/** The two searches of scripts/codex/generate_input_semantics.py agree on documents whose references
    occur only where `input_paths` looks. */
module SearchAgreement {
  import opened Wrappers
  import opened Json
  import opened Text
  import opened SchemaGraph
  import opened WorklistSearch
  import opened PathSearch

  /** No node of the tree carries a `$ref`. */
  predicate RefFree(v: Value) {
    match v
    case Arr(items) => forall i :: 0 <= i < |items| ==> RefFree(items[i])
    case Obj(members) =>
      && !Has(members, "$ref")
      && forall i :: 0 <= i < |members| ==> RefFree(members[i].value)
    case _ => true
  }

  predicate OthersRefFree(members: seq<Member>, name: string) {
    forall i :: 0 <= i < |members| && members[i].name != name ==> RefFree(members[i].value)
  }

  /** References occur only where `input_paths` looks: no reference beside a `$ref`, beside
      `properties` or beside `items`, every `$ref` is a prefixed name of a definition, and `properties` is an
      object without a property called `$ref`. */
  predicate Plain(v: Value, g: Graph, defs: Definitions)
    requires g.Input?
  {
    v.Obj? ==>
      && Distinct(v.members)
      && match Get(v.members, "$ref")
        case Some(Str(raw)) =>
          PREFIX < raw && RemovePrefix(raw, PREFIX) in defs && OthersRefFree(v.members, "$ref")
        case Some(_) => false
        case None =>
          if Has(v.members, "properties") then
            var p := Get(v.members, "properties").value;
            p.Obj? && !Has(p.members, "$ref") && OthersRefFree(v.members, "properties")
          else if g.arrays && Has(v.members, "items") then OthersRefFree(v.members, "items")
          else true
  }

  ghost predicate PlainFrom(node: Value, g: Graph, defs: Definitions)
    requires g.Input?
  {
    forall n :: Reaches(g, defs, node, n) ==> Plain(n, g, defs)
  }

  lemma PlainNext(node: Value, next: Value, g: Graph, defs: Definitions)
    requires g.Input? && PlainFrom(node, g, defs) && Edge(g, defs, node, next)
    ensures PlainFrom(next, g, defs)
  {
    forall n | Reaches(g, defs, next, n) ensures Plain(n, g, defs) {
      var w :| Walk(g, defs, w) && w[0] == next && w[|w| - 1] == n;
      assert ([node] + w)[1..] == w;
      assert Walk(g, defs, [node] + w);
    }
  }

  /** On a plain document `input_paths` never raises. */
  lemma {:induction false} PlainNeverFails(node: Value, path: Path, seen: set<string>, g: Graph, defs: Definitions)
    requires g.Input? && PlainFrom(node, g, defs)
    ensures InputPaths(node, path, seen, g, defs).Success?
    decreases |Spellings(defs) - seen|, Size(node), 0
  {
    ReachesSelf(g, defs, node);
    match EntryOf(node, g.target)
    case Hit =>
    case Bad =>
    case Follow(raw) =>
      if raw !in seen {
        FollowingShrinks(defs, raw, seen);
        PlainNext(node, defs[RemovePrefix(raw, PREFIX)], g, defs);
        PlainNeverFails(defs[RemovePrefix(raw, PREFIX)], path, seen + {raw}, g, defs);
      }
    case Descend =>
      StepsShrink(node, g.arrays);
      var steps := StepsOf(node, g.arrays).value;
      forall step <- steps ensures PlainFrom(step.child, g, defs) {
        PlainNext(node, step.child, g, defs);
      }
      PlainStepsNeverFail(steps, path, seen, g, defs);
  }

  lemma {:induction false} PlainStepsNeverFail(steps: seq<Step>, path: Path, seen: set<string>, g: Graph,
          defs: Definitions)
    requires g.Input? && forall step <- steps :: PlainFrom(step.child, g, defs)
    ensures InputPathsOfAll(steps, path, seen, g, defs).Success?
    decreases |Spellings(defs) - seen|, StepsSize(steps), 1, |steps|
  {
    if steps != [] {
      PlainNeverFails(steps[0].child, path + steps[0].suffix, seen, g, defs);
      PlainStepsNeverFail(steps[1..], path, seen, g, defs);
    }
  }

  /** A walk that starts in a tree without references ends at a node without one. */
  lemma {:induction false} RefFreeWalk(defs: Definitions, w: seq<Value>)
    requires Walk(Full, defs, w)
    ensures RefFree(w[0]) ==> NamingOf(w[|w| - 1]) == Nothing
  {
    if |w| > 1 && RefFree(w[0]) {
      assert Edge(Full, defs, w[0], w[1]);
      RefFreeWalk(defs, w[1..]);
    }
  }

  /** On a plain document, every walk of the full graph that ends at a reference to the target
      shows a trail of the path search. */
  lemma {:induction false} WalkIsTrail(w: seq<Value>, g: Graph, defs: Definitions) returns (t: Trail)
    requires g.Input? && Walk(Full, defs, w) && PlainFrom(w[0], g, defs)
    requires NamingOf(w[|w| - 1]) == Names(g.target)
    ensures IsTrail(t, w[0], g, defs)
    decreases |w|
  {
    var node := w[0];
    ReachesSelf(g, defs, node);
    if |w| == 1 {
      t := Arrive;
      var raw := Get(node.members, "$ref").value.s;
      assert raw == PREFIX + raw[|PREFIX|..];
    } else {
      assert Edge(Full, defs, w[0], w[1]);
      RefFreeWalk(defs, w[1..]);
      match EntryOf(node, g.target)
      case Hit =>
        t := Arrive;
      case Follow(raw) =>
        FollowedNext(node, w[1], raw, g, defs);
        PlainNext(node, w[1], g, defs);
        var rest := WalkIsTrail(w[1..], g, defs);
        t := Cross(raw, rest);
      case Descend =>
        t := DescentIsTrail(w, g, defs);
    }
  }

  /** A plain node with a reference leads on only to its definition. */
  lemma FollowedNext(node: Value, next: Value, raw: string, g: Graph, defs: Definitions)
    requires g.Input? && Plain(node, g, defs) && Edge(Full, defs, node, next) && !RefFree(next)
    requires EntryOf(node, g.target) == Follow(raw)
    ensures RemovePrefix(raw, PREFIX) in defs && next == defs[RemovePrefix(raw, PREFIX)]
  {
    if next in Children(node) {
      var i :| 0 <= i < |node.members| && Values(node.members)[i] == next;
      assert node.members[i].name == "$ref";
      GetUnique(node.members, i);
    }
  }

  lemma {:induction false} DescentIsTrail(w: seq<Value>, g: Graph, defs: Definitions) returns (t: Trail)
    requires g.Input? && Walk(Full, defs, w) && PlainFrom(w[0], g, defs)
    requires NamingOf(w[|w| - 1]) == Names(g.target)
    requires |w| > 1 && EntryOf(w[0], g.target) == Descend && !RefFree(w[1])
    ensures IsTrail(t, w[0], g, defs)
    decreases |w|, 0
  {
    ReachesSelf(g, defs, w[0]);
    var k, step := FirstStep(w, g, defs);
    assert Edge(g, defs, w[0], w[k]);
    PlainNext(w[0], w[k], g, defs);
    var rest := WalkIsTrail(w[k..], g, defs);
    t := Down(step, rest);
  }

  /** The walk from a plain node without a reference goes where the path search descends, in one
      edge or, through `properties`, in two. */
  lemma FirstStep(w: seq<Value>, g: Graph, defs: Definitions) returns (k: nat, step: Step)
    requires g.Input? && Walk(Full, defs, w) && Plain(w[0], g, defs)
    requires NamingOf(w[|w| - 1]) == Names(g.target)
    requires |w| > 1 && EntryOf(w[0], g.target) == Descend && !RefFree(w[1])
    ensures 1 <= k < |w| && Walk(Full, defs, w[k..]) && step.child == w[k]
    ensures StepsOf(w[0], g.arrays).Success? && step in StepsOf(w[0], g.arrays).value
  {
    DescendsToChild(w[0], w[1], g, defs);
    if w[0].Obj? && Has(w[0].members, "properties") {
      k := 2;
      step := PropertyStep(w, g, defs);
    } else {
      k := 1;
      step := ChildStep(w[0], w[1], g, defs);
    }
  }

  lemma DescendsToChild(node: Value, next: Value, g: Graph, defs: Definitions)
    requires g.Input? && Plain(node, g, defs) && Edge(Full, defs, node, next) && EntryOf(node, g.target) == Descend
    ensures next in Children(node) && NamingOf(node) == Nothing
  {
  }

  lemma PropertyStep(w: seq<Value>, g: Graph, defs: Definitions) returns (step: Step)
    requires g.Input? && Walk(Full, defs, w) && Plain(w[0], g, defs)
    requires NamingOf(w[|w| - 1]) == Names(g.target)
    requires |w| > 1 && EntryOf(w[0], g.target) == Descend && !RefFree(w[1]) && w[1] in Children(w[0])
    requires w[0].Obj? && Has(w[0].members, "properties")
    ensures 2 < |w| && Walk(Full, defs, w[2..]) && step.child == w[2]
    ensures StepsOf(w[0], g.arrays).Success? && step in StepsOf(w[0], g.arrays).value
  {
    var p := Get(w[0].members, "properties").value;
    OnlyMember(w[0].members, "properties", w[1]);
    assert w[1] == p && NamingOf(p) == Nothing;
    assert Walk(Full, defs, w[1..]) && w[1..][1..] == w[2..];
    assert Edge(Full, defs, w[1], w[2]);
    var steps := Named(p.members);
    var i :| 0 <= i < |p.members| && Values(p.members)[i] == w[2];
    step := steps[i];
  }

  lemma ChildStep(node: Value, next: Value, g: Graph, defs: Definitions) returns (step: Step)
    requires g.Input? && Plain(node, g, defs) && EntryOf(node, g.target) == Descend
    requires next in Children(node) && !RefFree(next)
    requires node.Obj? ==> !Has(node.members, "properties")
    ensures StepsOf(node, g.arrays).Success? && step in StepsOf(node, g.arrays).value && step.child == next
  {
    var steps := StepsOf(node, g.arrays).value;
    if node.Obj? && g.arrays && Has(node.members, "items") {
      OnlyMember(node.members, "items", next);
      step := steps[0];
    } else {
      var i :| 0 <= i < |Children(node)| && Children(node)[i] == next;
      step := steps[i];
    }
  }

  lemma OnlyMember(members: seq<Member>, name: string, v: Value)
    requires Has(members, name) && OthersRefFree(members, name)
    requires Distinct(members)
    requires v in Values(members) && !RefFree(v)
    ensures v == Get(members, name).value
  {
    GetIsMember(members, name);
    var i :| 0 <= i < |members| && Values(members)[i] == v;
    assert members[i].name == name;
  }

  lemma ChildReaches(start: Value, node: Value, child: Value, defs: Definitions)
    requires Reaches(Full, defs, start, node) && child in Children(node)
    ensures Reaches(Full, defs, start, child)
  {
    assert Edge(Full, defs, node, child);
    ReachesNext(Full, defs, start, node, child);
  }

  lemma MemberIsChild(node: Value, name: string)
    requires node.Obj? && Has(node.members, name)
    ensures Get(node.members, name).value in Children(node)
  {
    GetIsMember(node.members, name);
    var i :| 0 <= i < |node.members| && node.members[i] == Member(name, Get(node.members, name).value);
    assert Values(node.members)[i] == Get(node.members, name).value;
  }

  lemma StepsAreChildren(node: Value, step: Step, arrays: bool)
    requires StepsOf(node, arrays).Success? && step in StepsOf(node, arrays).value
    ensures
      || step.child in Children(node)
      || (node.Obj? && Has(node.members, "properties") && step.child in Children(Get(node.members, "properties").value))
  {
    var steps := StepsOf(node, arrays).value;
    var i :| 0 <= i < |steps| && steps[i] == step;
    if node.Obj? && Has(node.members, "properties") {
      var p := Get(node.members, "properties").value;
      assert Children(p)[i] == step.child;
    } else if node.Obj? && arrays && Has(node.members, "items") {
      MemberIsChild(node, "items");
    } else {
      assert Children(node)[i] == step.child;
    }
  }

  lemma StepReaches(start: Value, node: Value, step: Step, arrays: bool, defs: Definitions)
    requires Reaches(Full, defs, start, node)
    requires StepsOf(node, arrays).Success? && step in StepsOf(node, arrays).value
    ensures Reaches(Full, defs, start, step.child)
  {
    StepsAreChildren(node, step, arrays);
    if step.child in Children(node) {
      ChildReaches(start, node, step.child, defs);
    } else {
      MemberIsChild(node, "properties");
      ChildReaches(start, node, Get(node.members, "properties").value, defs);
      ChildReaches(start, Get(node.members, "properties").value, step.child, defs);
    }
  }

  lemma OnlyPrefixStripsToNothing(raw: string)
    ensures RemovePrefix(raw, PREFIX) == "" ==> raw == "" || raw == PREFIX
  {
    if RemovePrefix(raw, PREFIX) == "" && raw != "" {
      assert raw == PREFIX;
    }
  }

  lemma FollowIsEdge(node: Value, raw: string, g: Graph, defs: Definitions)
    requires g.Input? && EntryOf(node, g.target) == Follow(raw) && raw != PREFIX
    requires RemovePrefix(raw, PREFIX) in defs
    ensures Edge(Full, defs, node, defs[RemovePrefix(raw, PREFIX)])
  {
    OnlyPrefixStripsToNothing(raw);
    assert NamingOf(node) == Names(RemovePrefix(raw, PREFIX));
  }

  /** Every trail is a walk of the full graph, on any document, unless it crosses the bare prefix,
      which `input_paths` follows to a definition named "" and `request_methods` ignores. */
  lemma {:induction false} TrailIsWalk(t: Trail, start: Value, node: Value, g: Graph, defs: Definitions)
    requires g.Input? && g.target != "" && IsTrail(t, node, g, defs) && PREFIX !in Crossed(t)
    requires Reaches(Full, defs, start, node)
    ensures RefersTo(defs, start, g.target)
    decreases t
  {
    match t
    case Arrive =>
      assert NamingOf(node) == Names(g.target);
    case Cross(raw, rest) =>
      var next := defs[RemovePrefix(raw, PREFIX)];
      FollowIsEdge(node, raw, g, defs);
      ReachesNext(Full, defs, start, node, next);
      TrailIsWalk(rest, start, next, g, defs);
    case Down(step, rest) =>
      StepReaches(start, node, step, g.arrays, defs);
      TrailIsWalk(rest, start, step.child, g, defs);
  }

  lemma {:induction false} PlainCrossings(t: Trail, node: Value, g: Graph, defs: Definitions)
    requires g.Input? && IsTrail(t, node, g, defs) && PlainFrom(node, g, defs)
    ensures PREFIX !in Crossed(t)
    decreases t
  {
    ReachesSelf(g, defs, node);
    match t
    case Arrive =>
    case Cross(raw, rest) =>
      PlainNext(node, defs[RemovePrefix(raw, PREFIX)], g, defs);
      PlainCrossings(rest, defs[RemovePrefix(raw, PREFIX)], g, defs);
    case Down(step, rest) =>
      PlainNext(node, step.child, g, defs);
      PlainCrossings(rest, step.child, g, defs);
  }

  lemma TrailRefers(t: Trail, node: Value, g: Graph, defs: Definitions)
    requires g.Input? && g.target != "" && PlainFrom(node, g, defs) && IsTrail(t, node, g, defs)
    ensures RefersTo(defs, node, g.target)
  {
    ReachesSelf(Full, defs, node);
    PlainCrossings(t, node, g, defs);
    TrailIsWalk(t, node, node, g, defs);
  }

  lemma ReferenceHasTrail(node: Value, g: Graph, defs: Definitions) returns (t: Trail)
    requires g.Input? && PlainFrom(node, g, defs) && RefersTo(defs, node, g.target)
    ensures IsTrail(t, node, g, defs)
  {
    var n :| Reaches(Full, defs, node, n) && NamingOf(n) == Names(g.target);
    var w :| Walk(Full, defs, w) && w[0] == node && w[|w| - 1] == n;
    t := WalkIsTrail(w, g, defs);
  }

  /** On a plain schema the path search succeeds and finds a path exactly when the worklist sees the target. */
  lemma SearchesAgree(node: Value, g: Graph, defs: Definitions)
    requires g.Input? && g.target != "" && PlainFrom(node, g, defs)
    ensures InputPaths(node, [], {}, g, defs).Success?
    ensures InputPaths(node, [], {}, g, defs).value != [] <==> RefersTo(defs, node, g.target)
  {
    PlainNeverFails(node, [], {}, g, defs);
    var ps := InputPaths(node, [], {}, g, defs).value;
    InputPathsExact(node, g, defs);
    if ps != [] {
      var t :| IsTrail(t, node, g, defs);
      TrailRefers(t, node, g, defs);
      assert RefersTo(defs, node, g.target);
    } else if RefersTo(defs, node, g.target) {
      var t := ReferenceHasTrail(node, g, defs);
      assert HasTrail(node, g, defs);
    }
  }

  lemma {:induction false} ReportingMembers(defs: Definitions, branches: seq<Branch>, definition: string, m: string)
    ensures m in Reporting(defs, branches, definition) <==>
            exists branch <- branches :: m in branch.methods && RefersTo(defs, branch.params, definition)
  {
    if branches != [] {
      LastSplit(branches);
      ReportingMembers(defs, branches[..|branches| - 1], definition, m);
    }
  }

  /** A method reported for a whole document is exactly one whose params have an input path. */
  lemma DocumentSearchesAgree(defs: Definitions, branches: seq<Branch>, g: Graph, m: string)
    requires g.Input? && g.target != ""
    requires forall branch <- branches :: PlainFrom(branch.params, g, defs)
    ensures m in Reporting(defs, branches, g.target) <==>
            exists branch <- branches :: m in branch.methods &&
              InputPaths(branch.params, [], {}, g, defs).Success? && InputPaths(branch.params, [], {}, g, defs).value != []
  {
    ReportingMembers(defs, branches, g.target, m);
    forall branch | branch in branches
      ensures InputPaths(branch.params, [], {}, g, defs).Success?
      ensures InputPaths(branch.params, [], {}, g, defs).value != [] <==> RefersTo(defs, branch.params, g.target)
    {
      SearchesAgree(branch.params, g, defs);
    }
  }
}
