/** Schema documents of scripts/codex/generate_input_semantics.py as graphs, whose references may be cyclic. */
module SchemaGraph {
  import opened Wrappers
  import opened Json
  import opened Text

  type Definitions = map<string, Value>
  type Path = seq<string>

  // ----- Nodes, as `input_paths` enters and descends them

  /** How `input_paths` enters a node. */
  datatype Entry = Hit | Follow(raw: string) | Descend | Bad

  function EntryOf(v: Value, target: string): Entry {
    if !v.Obj? then Descend
    else match Get(v.members, "$ref")
      case None => Descend
      case Some(Str(raw)) =>
        if raw == PREFIX + target then Hit else if raw == "" then Descend else Follow(raw)
      case Some(other) => if Truthy(other) then Bad else Descend
  }

  /** One descent: what it appends to the path and the node it leads to. */
  datatype Step = Step(suffix: Path, child: Value)

  function Named(members: seq<Member>): (steps: seq<Step>)
    ensures |steps| == |members|
    ensures forall i :: 0 <= i < |steps| ==> steps[i] == Step([members[i].name], members[i].value)
  {
    seq(|members|, i requires 0 <= i < |members| => Step([members[i].name], members[i].value))
  }

  function Unnamed(vs: seq<Value>): (steps: seq<Step>)
    ensures |steps| == |vs|
    ensures forall i :: 0 <= i < |steps| ==> steps[i] == Step([], vs[i])
  {
    seq(|vs|, i requires 0 <= i < |vs| => Step([], vs[i]))
  }

  /** The descents from a node without a reference. Only two of the three copies of `input_paths`
      look for `items`; `arrays` says whether this one does. */
  function StepsOf(v: Value, arrays: bool): Result<seq<Step>> {
    if !v.Obj? then Success(Unnamed(Children(v)))
    else if Has(v.members, "properties") then
      match Get(v.members, "properties").value
      case Obj(members) => Success(Named(members))
      case _ => Failure
    else if arrays && Has(v.members, "items") then
      Success([Step(["[]"], Get(v.members, "items").value)])
    else Success(Unnamed(Values(v.members)))
  }

  // ----- The reference graph, as request_methods walks it

  /** `value.get("$ref", "").removeprefix(...)`, on any node. */
  datatype Naming = Nothing | Names(name: string) | NotText

  function NamingOf(v: Value): Naming {
    if !v.Obj? then Nothing
    else match Get(v.members, "$ref")
      case None => Nothing
      case Some(Str(raw)) =>
        var name := RemovePrefix(raw, PREFIX);
        if name == "" then Nothing else Names(name)
      case Some(_) => NotText
  }

  /** Two graphs over schema nodes: every child and every named definition, or only what
      `input_paths` descends into. */
  datatype Graph = Full | Input(target: string, arrays: bool)

  ghost predicate Edge(g: Graph, defs: Definitions, a: Value, b: Value) {
    match g
    case Full =>
      || b in Children(a)
      || (NamingOf(a).Names? && NamingOf(a).name in defs && b == defs[NamingOf(a).name])
    case Input(target, arrays) =>
      match EntryOf(a, target)
      case Follow(raw) => RemovePrefix(raw, PREFIX) in defs && b == defs[RemovePrefix(raw, PREFIX)]
      case Descend =>
        && StepsOf(a, arrays).Success?
        && exists step <- StepsOf(a, arrays).value :: step.child == b
      case _ => false
  }

  ghost predicate Walk(g: Graph, defs: Definitions, w: seq<Value>) {
    |w| > 0 && (|w| > 1 ==> Edge(g, defs, w[0], w[1]) && Walk(g, defs, w[1..]))
  }

  ghost predicate Reaches(g: Graph, defs: Definitions, a: Value, b: Value) {
    exists w :: Walk(g, defs, w) && w[0] == a && w[|w| - 1] == b
  }

  /** Some node reachable from `start` refers to the definition `name`. */
  ghost predicate RefersTo(defs: Definitions, start: Value, name: string) {
    exists n :: Reaches(Full, defs, start, n) && NamingOf(n) == Names(name)
  }

  /** Nothing reachable from `start` makes the search raise: every `$ref` is text and defined. */
  ghost predicate Sound(defs: Definitions, start: Value) {
    forall n :: Reaches(Full, defs, start, n) ==> NamedProperly(defs, n)
  }

  predicate NamedProperly(defs: Definitions, n: Value) {
    NamingOf(n).Nothing? || (NamingOf(n).Names? && NamingOf(n).name in defs)
  }

  // ----- The graph, said in the words of a document

  /** The name in a reference, with or without the prefix. */
  predicate IsNameIn(raw: string, name: string) {
    raw == "#/definitions/" + name || (raw == name && !("#/definitions/" <= raw))
  }

  lemma NameIsIn(raw: string, name: string)
    ensures IsNameIn(raw, name) <==> name == RemovePrefix(raw, PREFIX)
  {
    assert PREFIX == "#/definitions/" && (PREFIX + name)[|PREFIX|..] == name;
    if PREFIX <= raw {
      assert raw == PREFIX + raw[|PREFIX|..];
    }
  }

  /** A dict whose `$ref` is a text with this name in it. */
  predicate RefersBy(v: Value, name: string) {
    v.Obj? && name != "" && Has(v.members, "$ref")
    && match Get(v.members, "$ref").value case Str(raw) => IsNameIn(raw, name) case _ => false
  }

  lemma NamingIs(v: Value, name: string)
    ensures NamingOf(v) == Names(name) <==> RefersBy(v, name)
    ensures NamingOf(v) == NotText <==> v.Obj? && Has(v.members, "$ref") && !Get(v.members, "$ref").value.Str?
  {
    if v.Obj? && Has(v.members, "$ref") && Get(v.members, "$ref").value.Str? {
      NameIsIn(Get(v.members, "$ref").value.s, name);
    }
  }

  /** `request_methods` goes from a node to its children and to the definition it refers to. */
  lemma FullEdgeIs(defs: Definitions, a: Value, b: Value)
    ensures Edge(Full, defs, a, b) <==> ChildOf(a, b) || exists name <- defs :: RefersBy(a, name) && b == defs[name]
  {
    ChildrenAre(a, b);
    forall name: string ensures NamingOf(a) == Names(name) <==> RefersBy(a, name) {
      NamingIs(a, name);
    }
  }

  /** A node at which it raises: a `$ref` that is no text, or a name that is not defined. */
  lemma NamedProperlyIs(defs: Definitions, v: Value)
    ensures NamedProperly(defs, v) <==>
            !(v.Obj? && Has(v.members, "$ref"))
            || (Get(v.members, "$ref").value.Str? && forall name :: RefersBy(v, name) ==> name in defs)
  {
    forall name: string ensures NamingOf(v) == Names(name) <==> RefersBy(v, name) {
      NamingIs(v, name);
    }
    NamingIs(v, "");
  }

  lemma ReachesSelf(g: Graph, defs: Definitions, a: Value)
    ensures Reaches(g, defs, a, a)
  {
    assert Walk(g, defs, [a]);
  }

  lemma {:induction false} WalkAppend(g: Graph, defs: Definitions, w: seq<Value>, c: Value)
    requires Walk(g, defs, w) && Edge(g, defs, w[|w| - 1], c)
    ensures Walk(g, defs, w + [c])
  {
    if |w| > 1 {
      WalkAppend(g, defs, w[1..], c);
      assert (w + [c])[1..] == w[1..] + [c];
    }
  }

  lemma ReachesNext(g: Graph, defs: Definitions, a: Value, b: Value, c: Value)
    requires Reaches(g, defs, a, b) && Edge(g, defs, b, c)
    ensures Reaches(g, defs, a, c)
  {
    var w :| Walk(g, defs, w) && w[0] == a && w[|w| - 1] == b;
    WalkAppend(g, defs, w, c);
    assert Walk(g, defs, w + [c]);
  }

  lemma LastSplit<T>(s: seq<T>)
    requires s != []
    ensures s == s[..|s| - 1] + [s[|s| - 1]]
  {
  }

  lemma Shrinks<T>(universe: set<T>, seen: set<T>, x: T)
    requires x in universe && x !in seen
    ensures |universe - (seen + {x})| < |universe - seen|
  {
    assert universe - seen == (universe - (seen + {x})) + {x};
  }
}
