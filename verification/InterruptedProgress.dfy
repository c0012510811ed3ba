/** What the provider of scripts/codex/collaboration_interrupted_fixture.py does bring about: a held root that was
    released is answered, nobody falls silent before closing, and the owned conversation comes to its end. */
module InterruptedProgress {
  import opened Wrappers
  import opened Json
  import opened InterruptedProvider
  import opened InterruptedRuns
  import opened InterruptedAnswers

  // ----- Silence only at closing

  predicate SilentAtClosing(s: State) {
    forall id <- s.handlers :: s.handlers[id].phase.Silent? ==> s.shared.closing
  }

  lemma AdvanceSilent(s: Shared, r: Request, phase: Phase, works: bool)
    requires !Blocked(s, phase)
    ensures Advance(s, r, phase, works).1.Silent? ==> Advance(s, r, phase, works).0.closing
  {
    if phase.Arrived? {
      AcceptEffect(s, r, works);
    }
  }

  lemma StepSilent(s: State, e: Event)
    requires SilentAtClosing(s)
    ensures SilentAtClosing(Step(s, e)) && (s.shared.closing ==> Step(s, e).shared.closing)
  {
    if e.Resume? && e.id in s.handlers && !Blocked(s.shared, s.handlers[e.id].phase) {
      AdvanceSilent(s.shared, s.handlers[e.id].request, s.handlers[e.id].phase, e.works);
      AdvanceFinishes(s.shared, s.handlers[e.id].request, s.handlers[e.id].phase, e.works);
    }
  }

  lemma {:induction false} RunSilent(s: State, events: seq<Event>)
    requires SilentAtClosing(s)
    ensures SilentAtClosing(Run(s, events))
    decreases |events|
  {
    if events != [] {
      StepSilent(s, events[0]);
      RunSilent(Step(s, events[0]), events[1..]);
    }
  }

  /** In every run a handler, root or child, ends without a response and without an error only when the fixture is
      closing. */
  lemma NobodyFallsSilent(events: seq<Event>, id: nat)
    requires id in Run(BEGIN, events).handlers && Run(BEGIN, events).handlers[id].phase.Silent?
    ensures Run(BEGIN, events).shared.closing
  {
    RunSilent(BEGIN, events);
  }

  // ----- A released root is answered

  predicate OnStepTwo(phase: Phase) {
    match phase
    case RootAccepted => true
    case RootWaiting => true
    case RootReleased => true
    case RootResumed => true
    case RootChecked => true
    case Answering(step) => step == 2
    case Sending(step) => step == 2
    case Answered(step) => step == 2
    case _ => false
  }

  /** The control is on the record and has released, nothing is closing, and the handler's request names the held
      child. */
  predicate Promised(s: State, id: nat) {
    && id in s.handlers && OnStepTwo(s.handlers[id].phase)
    && s.shared.release && !s.shared.closing && s.stopping == 0 && Continued(s.shared)
    && s.shared.rootRequests >= 1 && NamesChild(s.shared, s.handlers[id].request)
    && (s.handlers[id].phase.Sending? || s.handlers[id].phase.Answered? ==> CLOSE in s.shared.rootResponses)
  }

  /** The fixture is not closed, the handler's wait does not time out, and its sections work. */
  predicate Undisturbed(e: Event, id: nat) {
    && !e.StartClose?
    && (e.Timeout? ==> e.id != id)
    && (e.Resume? && e.id == id ==> e.works)
  }

  predicate Promises(s: Shared, h: Handler) {
    && OnStepTwo(h.phase) && s.release && !s.closing && Continued(s)
    && s.rootRequests >= 1 && NamesChild(s, h.request)
    && (h.phase.Sending? || h.phase.Answered? ==> CLOSE in s.rootResponses)
  }

  lemma PromiseAdvances(s: Shared, h: Handler)
    requires Promises(s, h) && !Blocked(s, h.phase)
    ensures
      var (next, phase) := Advance(s, h.request, h.phase, true);
      Promises(next, Handler(h.request, phase)) && Remaining(phase) < Remaining(h.phase)
  {
    match h.phase
    case Answering(_) =>
      assert LABELS[1] == CLOSE;
      assert (s.rootResponses + [CLOSE])[|s.rootResponses|] == CLOSE;
    case _ =>
  }

  /** Another handler's section takes nothing of this away. */
  lemma PromiseStays(s: Shared, h: Handler, other: Handler, works: bool)
    requires Promises(s, h) && Counted(s) && Entitled(s, other) && ChildCounted(s) && !Blocked(s, other.phase)
    ensures Promises(Advance(s, other.request, other.phase, works).0, h)
  {
    OtherSteady(s, other, works);
    OtherSignals(s, other, works);
  }

  lemma OtherSteady(s: Shared, other: Handler, works: bool)
    requires Entitled(s, other) && ChildCounted(s) && !Blocked(s, other.phase)
    ensures Steady(s, Advance(s, other.request, other.phase, works).0)
  {
    if other.phase.Arrived? {
      AcceptEntitled(s, other.request, works);
    } else {
      LaterEntitled(s, other, works);
    }
  }

  predicate KeepsSignals(a: Shared, b: Shared) {
    && b.release == a.release && b.closing == a.closing && b.controls == a.controls
    && (a.childReady ==> b.childReady) && a.rootResponses <= b.rootResponses
  }

  lemma OtherSignals(s: Shared, other: Handler, works: bool)
    requires !Blocked(s, other.phase)
    ensures KeepsSignals(s, Advance(s, other.request, other.phase, works).0)
  {
    if other.phase.Arrived? {
      AcceptEffect(s, other.request, works);
    } else {
      LaterSignals(s, other, works);
    }
  }

  lemma LaterSignals(s: Shared, other: Handler, works: bool)
    requires !Blocked(s, other.phase) && !other.phase.Arrived?
    ensures ResultKeeps(s, Advance(s, other.request, other.phase, works))
  {
    match other.phase
    case RootReleased =>
    case RootResumed =>
    case RootChecked =>
    case Answering(_) =>
    case Sending(_) =>
    case _ =>
  }

  predicate ResultKeeps(s: Shared, result: (Shared, Phase)) {
    KeepsSignals(s, result.0)
  }

  lemma PromiseStep(s: State, e: Event, id: nat)
    requires Promised(s, id) && Undisturbed(e, id)
    requires Inv(s) && AllEntitled(s.shared, s.handlers) && ChildCounted(s.shared)
    ensures Promised(Step(s, e), id)
    ensures
      var before, after := Remaining(s.handlers[id].phase), Remaining(Step(s, e).handlers[id].phase);
      if e.Resume? && e.id == id then after < before || (before == 0 && after == 0) else after <= before
  {
    if e.Resume? && e.id in s.handlers && !Blocked(s.shared, s.handlers[e.id].phase) {
      if e.id == id {
        PromiseAdvances(s.shared, s.handlers[id]);
      } else {
        PromiseStays(s.shared, s.handlers[id], s.handlers[e.id], e.works);
      }
    }
  }

  lemma {:induction false} PromiseKept(s: State, events: seq<Event>, id: nat)
    requires Promised(s, id) && forall e <- events :: Undisturbed(e, id)
    requires Inv(s) && AllEntitled(s.shared, s.handlers) && ChildCounted(s.shared)
    ensures Promised(Run(s, events), id)
    ensures
      var left := Remaining(Run(s, events).handlers[id].phase);
      left == 0 || left + Turns(events, id) <= Remaining(s.handlers[id].phase)
    decreases |events|
  {
    if events != [] {
      PromiseStep(s, events[0], id);
      StepKeeps(s, events[0]);
      StepEntitled(s, events[0]);
      PromiseKept(Step(s, events[0]), events[1..], id);
    }
  }

  /** In every run: when the control was recorded and has released, the root that is held with the agent id of the held
      child is answered with the closing call after eight undisturbed turns, whatever else runs in between. */
  lemma ReleasedRootIsAnswered(events: seq<Event>, more: seq<Event>, id: nat)
    requires Promised(Run(BEGIN, events), id)
    requires (forall e <- more :: Undisturbed(e, id)) && Turns(more, id) >= 8
    ensures
      var s := Run(Run(BEGIN, events), more);
      && id in s.handlers && s.handlers[id].phase == Answered(2)
      && "owned-v417-close" in s.shared.rootResponses
  {
    RunKeeps(BEGIN, events);
    RunEntitled(BEGIN, events);
    RunCounted(BEGIN, events);
    PromiseKept(Run(BEGIN, events), more, id);
    assert OnStepTwo(Run(Run(BEGIN, events), more).handlers[id].phase);
  }

  lemma {:induction false} RunCounted(s: State, events: seq<Event>)
    requires AllEntitled(s.shared, s.handlers) && ChildCounted(s.shared)
    ensures ChildCounted(Run(s, events).shared)
    decreases |events|
  {
    if events != [] {
      StepEntitled(s, events[0]);
      RunCounted(Step(s, events[0]), events[1..]);
    }
  }

  // ----- What admission asks and writes

  predicate IsMarker(text: string) {
    text == "OWNED_V417_ROOT" || text == "OWNED_V417_CHILD_HELD"
  }

  predicate LastAt(texts: seq<string>, marker: string, i: int) {
    0 <= i < |texts| && texts[i] == marker && forall j :: i < j < |texts| ==> !IsMarker(texts[j])
  }

  /** The last of the texts that is a marker is this one. */
  predicate LastMarker(texts: seq<string>, marker: string) {
    exists i :: 0 <= i < |texts| && LastAt(texts, marker, i)
  }

  lemma LastMarkerFront(texts: seq<string>, marker: string)
    requires texts != [] && !IsMarker(texts[|texts| - 1]) && IsMarker(marker)
    ensures LastMarker(texts, marker) <==> LastMarker(texts[..|texts| - 1], marker)
  {
    var front := texts[..|texts| - 1];
    if LastMarker(front, marker) {
      var i :| 0 <= i < |front| && LastAt(front, marker, i);
      assert forall j :: 0 <= j < |front| ==> texts[j] == front[j];
      assert LastAt(texts, marker, i);
    }
    if LastMarker(texts, marker) {
      var i :| 0 <= i < |texts| && LastAt(texts, marker, i);
      assert LastAt(front, marker, i);
    }
  }

  lemma LastMarkerEnd(texts: seq<string>, marker: string)
    requires texts != [] && IsMarker(texts[|texts| - 1])
    ensures LastMarker(texts, marker) <==> texts[|texts| - 1] == marker
  {
    var last := |texts| - 1;
    if LastMarker(texts, marker) {
      var i :| 0 <= i < |texts| && LastAt(texts, marker, i);
      assert i == last;
    }
    if texts[last] == marker {
      assert LastAt(texts, marker, last);
    }
  }

  lemma {:induction false} MarkerIs(texts: seq<string>, marker: string)
    requires IsMarker(marker)
    ensures Marker(texts) == Some(marker) <==> LastMarker(texts, marker)
  {
    if texts != [] {
      if IsMarker(texts[|texts| - 1]) {
        LastMarkerEnd(texts, marker);
      } else {
        LastMarkerFront(texts, marker);
        MarkerIs(texts[..|texts| - 1], marker);
      }
    }
  }

  /** Outputs of the calls before the step, with an agent id from the second on and the closing status at the third. */
  ghost predicate OutputsFit(outputs: seq<Member>, step: Turn) {
    && (step == 1 ==> outputs == [])
    && (step == 2 ==> |outputs| == 1) && (step == 3 ==> |outputs| == 2)
    && (step >= 2 ==>
          && outputs[0].name == "owned-v417-spawn" && outputs[0].value.Obj?
          && exists agent: string :: agent != "" && Get(outputs[0].value.members, "agent_id") == Some(Str(agent)))
    && (step == 3 ==>
          outputs[1] == Member("owned-v417-close", Obj([Member("previous_status", Str("interrupted"))])))
  }

  lemma CallNamesDiffer()
    ensures SPAWN != CLOSE
  {
    assert SPAWN[11] != CLOSE[11];
  }

  lemma NamesAre(outputs: seq<Member>, step: Turn)
    ensures MemberNames(outputs) == CALLS[..step - 1] <==>
      && |outputs| == step - 1
      && (step >= 2 ==> outputs[0].name == "owned-v417-spawn") && (step == 3 ==> outputs[1].name == "owned-v417-close")
  {
    assert forall i :: 0 <= i < |outputs| ==> MemberNames(outputs)[i] == outputs[i].name;
  }

  /** What `respond` checks of a root request. */
  lemma RootFitsIs(root: Option<Identity>, r: Request, step: Turn)
    requires r.outputs.Some?
    ensures RootFits(root, r, step) <==> r.identity == root && OutputsFit(r.outputs.value, step)
  {
    var outputs := r.outputs.value;
    NamesAre(outputs, step);
    CallNamesDiffer();
    if step == 3 && |outputs| == 2 {
      assert Get(outputs, CLOSE) ==
        if outputs[0].name == CLOSE then Some(outputs[0].value)
        else if outputs[1].name == CLOSE then Some(outputs[1].value) else Get(outputs[1..][1..], CLOSE);
    }
  }

  predicate ChildWritten(s: Shared, r: Request, next: Shared)
    requires r.outputs.Some?
  {
    && next.rootRequests == s.rootRequests && next.root == s.root
    && next.childRequests == s.childRequests + (if r.outputs.value == [] then 1 else 0)
    && next.child == (if r.outputs.value == [] && s.childRequests == 0 then r.identity else s.child)
    && next.childHeld == (s.childHeld || (r.outputs.value == [] && s.childRequests == 0))
    && next.rootHeld == s.rootHeld
  }

  predicate RootWritten(s: Shared, r: Request, next: Shared)
    requires r.outputs.Some?
  {
    && next.childRequests == s.childRequests && next.child == s.child
    && next.rootRequests == s.rootRequests + 1
    && next.root == (if s.rootRequests == 0 then r.identity else s.root)
    && next.childHeld == s.childHeld
    && next.rootHeld == (s.rootHeld || (s.rootRequests == 1 && RootFits(s.root, r, 2)))
  }

  predicate Untouched(s: Shared, next: Shared) {
    && next.requests == s.requests && next.rootResponses == s.rootResponses && next.errors == s.errors
    && next.controls == s.controls && SameEvents(s, next)
  }

  predicate SameEvents(s: Shared, next: Shared) {
    && next.childReady == s.childReady && next.rootReady == s.rootReady
    && next.release == s.release && next.closing == s.closing
  }

  lemma ChildWrites(s: Shared, r: Request, saves: bool)
    requires r.outputs.Some?
    ensures ChildWritten(s, r, AcceptChild(s, r, saves).0) && Untouched(s, AcceptChild(s, r, saves).0)
  {
  }

  lemma RootWrites(s: Shared, r: Request, saves: bool)
    requires r.outputs.Some?
    ensures RootWritten(s, r, AcceptRoot(s, r, saves).0) && Untouched(s, AcceptRoot(s, r, saves).0)
  {
  }

  /** A request that is kept: of this model and effort, with a marker, an identity and outputs, and one of the first
      four. */
  predicate IsKept(s: Shared, r: Request) {
    && r.model == "mock-model" && r.effort == "low"
    && (exists text <- r.texts :: IsMarker(text))
    && r.identity.Some? && r.outputs.Some? && |s.requests| < 4
  }

  lemma {:induction false} MarkerThere(texts: seq<string>)
    ensures Marker(texts).Some? <==> exists text <- texts :: IsMarker(text)
  {
    if texts != [] {
      var front, last := texts[..|texts| - 1], texts[|texts| - 1];
      MarkerThere(front);
      assert last in texts && forall text <- front :: text in texts;
      if text :| text in texts && IsMarker(text) && !IsMarker(last) {
        assert text in front;
      }
    }
  }

  /** What a request leaves on the record, also when it is refused: a kept one is recorded, a child's counts
      unless it has outputs and only the first names the child, a root's counts always and the first names the root.
      Any other leaves nothing and is refused. */
  lemma AdmissionWrites(s: Shared, r: Request, saves: bool)
    ensures !IsKept(s, r) ==> Accept(s, r, saves) == (s, Failing)
    ensures IsKept(s, r) ==>
      var next := Accept(s, r, saves).0;
      && next.requests == s.requests + [r] && next.rootResponses == s.rootResponses && next.errors == s.errors
      && next.controls == s.controls && SameEvents(s, next)
      && (LastMarker(r.texts, "OWNED_V417_CHILD_HELD") ==> ChildWritten(s, r, next))
      && (LastMarker(r.texts, "OWNED_V417_ROOT") ==> RootWritten(s, r, next))
  {
    MarkerThere(r.texts);
    if IsKept(s, r) {
      KeptWrites(s, r, saves);
    }
  }

  lemma KeptWrites(s: Shared, r: Request, saves: bool)
    requires Readable(r) && |s.requests| < 4
    ensures
      var next := Accept(s, r, saves).0;
      && next.requests == s.requests + [r] && next.rootResponses == s.rootResponses && next.errors == s.errors
      && next.controls == s.controls && SameEvents(s, next)
      && (LastMarker(r.texts, "OWNED_V417_CHILD_HELD") ==> ChildWritten(s, r, next))
      && (LastMarker(r.texts, "OWNED_V417_ROOT") ==> RootWritten(s, r, next))
  {
    var admitted := s.(requests := s.requests + [r]);
    MarkerIs(r.texts, "OWNED_V417_ROOT");
    MarkerIs(r.texts, "OWNED_V417_CHILD_HELD");
    MarkersDiffer();
    ChildWrites(admitted, r, saves);
    RootWrites(admitted, r, saves);
  }

  lemma MarkersDiffer()
    ensures ROOT != CHILD
  {
    assert ROOT[|ROOT| - 1] != CHILD[|CHILD| - 1];
  }

  // ----- Every failure is counted

  function RefusedIn(handlers: map<nat, Handler>): set<nat> {
    set id <- handlers | handlers[id].phase.Refused?
  }

  /** Only a failing handler ends refused, and then one error is added. */
  lemma AdvanceCounts(s: Shared, r: Request, phase: Phase, works: bool)
    requires !Blocked(s, phase)
    ensures Counts(s, phase, Advance(s, r, phase, works))
  {
    if phase.Arrived? {
      AcceptCounts(s, r, works);
    } else {
      LaterCounts(s, r, phase, works);
    }
  }

  predicate Counts(s: Shared, phase: Phase, result: (Shared, Phase)) {
    && result.0.errors == s.errors + (if phase.Failing? then 1 else 0)
    && (result.1.Refused? <==> phase.Failing?)
  }

  lemma AcceptCounts(s: Shared, r: Request, works: bool)
    ensures Counts(s, Arrived, Accept(s, r, works))
  {
  }

  lemma LaterCounts(s: Shared, r: Request, phase: Phase, works: bool)
    requires !Blocked(s, phase) && !phase.Arrived?
    ensures Counts(s, phase, Advance(s, r, phase, works))
  {
    match phase
    case RootChecked =>
    case Answering(_) =>
    case Sending(_) =>
    case _ =>
  }

  lemma StepCounts(s: State, e: Event)
    requires s.shared.errors == |RefusedIn(s.handlers)|
    ensures Step(s, e).shared.errors == |RefusedIn(Step(s, e).handlers)|
  {
    var next := Step(s, e);
    match e
    case Resume(id, works) =>
      if id in s.handlers && !Blocked(s.shared, s.handlers[id].phase) {
        AdvanceCounts(s.shared, s.handlers[id].request, s.handlers[id].phase, works);
        OneReplaced(s.handlers, id, next.handlers[id]);
      }
    case Arrive(id, request) =>
      if id !in s.handlers {
        OneReplaced(s.handlers, id, Handler(request, Arrived));
      }
    case Timeout(id) =>
      if id in s.handlers && next != s {
        OneReplaced(s.handlers, id, s.handlers[id].(phase := Failing));
      }
    case _ =>
  }

  lemma OneReplaced(handlers: map<nat, Handler>, id: nat, h: Handler)
    requires id in handlers ==> !handlers[id].phase.Refused?
    ensures RefusedIn(handlers[id := h]) == RefusedIn(handlers) + (if h.phase.Refused? then {id} else {})
    ensures |RefusedIn(handlers[id := h])| == |RefusedIn(handlers)| + (if h.phase.Refused? then 1 else 0)
  {
    assert id !in RefusedIn(handlers);
    assert RefusedIn(handlers[id := h]) == RefusedIn(handlers) + (if h.phase.Refused? then {id} else {});
  }

  lemma {:induction false} RunCounts(s: State, events: seq<Event>)
    requires s.shared.errors == |RefusedIn(s.handlers)|
    ensures Run(s, events).shared.errors == |RefusedIn(Run(s, events).handlers)|
    decreases |events|
  {
    if events != [] {
      StepCounts(s, events[0]);
      RunCounts(Step(s, events[0]), events[1..]);
    }
  }

  /** In every run the errors on the record are as many as the handlers that ended refused. */
  lemma ErrorsAreRefusals(events: seq<Event>)
    ensures
      var s := Run(BEGIN, events);
      s.shared.errors == |set id <- s.handlers | s.handlers[id].phase == Refused|
  {
    assert RefusedIn(BEGIN.handlers) == {};
    RunCounts(BEGIN, events);
    var s := Run(BEGIN, events);
    assert RefusedIn(s.handlers) == set id <- s.handlers | s.handlers[id].phase == Refused;
  }

  // ----- The owned conversation

  function RootRequest(parent: Identity, outputs: seq<Member>): Request {
    Request("mock-model", "low", ["OWNED_V417_ROOT"], Some(parent), Some(outputs))
  }

  function ChildRequest(child: Identity): Request {
    Request("mock-model", "low", ["OWNED_V417_CHILD_HELD"], Some(child), Some([]))
  }

  function Spawned(child: Identity): Member {
    Member("owned-v417-spawn", Obj([Member("agent_id", Str(child.thread))]))
  }

  function Closed(): Member {
    Member("owned-v417-close", Obj([Member("previous_status", Str("interrupted"))]))
  }

  /** So many working turns of one handler. */
  function Working(id: nat, turns: nat): seq<Event> {
    if turns == 0 then [] else [Resume(id, true)] + Working(id, turns - 1)
  }

  /** A request, and so many working turns for it. */
  function Visit(id: nat, r: Request, turns: nat): seq<Event> {
    [Arrive(id, r)] + Working(id, turns)
  }

  /** The root's first request, and the child's. */
  function Opening(parent: Identity, child: Identity): seq<Event> {
    Visit(0, RootRequest(parent, []), 3) + Visit(1, ChildRequest(child), 2)
  }

  /** The root's second request, held until the control releases it. */
  function Holding(parent: Identity, child: Identity): seq<Event> {
    Visit(2, RootRequest(parent, [Spawned(child)]), 2) + [Control(true), ControlReleases]
  }

  function Continuing(): seq<Event> {
    Working(2, 6)
  }

  /** The root's last request, and the end. */
  function Ending(parent: Identity, child: Identity): seq<Event> {
    Visit(3, RootRequest(parent, [Spawned(child), Closed()]), 3) + [StartClose, CloseReleases, Resume(1, true)]
  }

  function Conversation(parent: Identity, child: Identity): seq<Event> {
    Opening(parent, child) + Holding(parent, child) + Continuing() + Ending(parent, child)
  }

  lemma RunThree(s: State, a: Event, b: Event, c: Event)
    ensures Run(s, [a, b, c]) == Step(Step(Step(s, a), b), c)
  {
    RunTwo(Step(Step(s, a), b), c, c);
    RunTwo(s, a, b);
    RunConcat(s, [a, b], [c]);
    assert [a, b] + [c] == [a, b, c];
  }

  lemma RootReadable(parent: Identity, outputs: seq<Member>)
    ensures Readable(RootRequest(parent, outputs)) && !ForChild(RootRequest(parent, outputs))
  {
    assert ROOT[|ROOT| - 1] != CHILD[|CHILD| - 1];
    assert Marker([ROOT]) == Some(ROOT);
  }

  lemma ChildReadable(child: Identity)
    ensures Readable(ChildRequest(child)) && ForChild(ChildRequest(child))
  {
    assert Marker([CHILD]) == Some(CHILD);
  }

  /** The state with this record and this handler. */
  function Where(s: State, id: nat, shared: Shared, r: Request, phase: Phase): State {
    s.(shared := shared, handlers := s.handlers[id := Handler(r, phase)])
  }

  lemma Turn(s: State, id: nat, shared: Shared, r: Request, phase: Phase)
    requires !Blocked(shared, phase)
    ensures
      var (next, after) := Advance(shared, r, phase, true);
      Step(Where(s, id, shared, r, phase), Resume(id, true)) == Where(s, id, next, r, after)
  {
    var (next, after) := Advance(shared, r, phase, true);
    var handlers := s.handlers[id := Handler(r, phase)];
    assert handlers[id := Handler(r, after)] == s.handlers[id := Handler(r, after)];
  }

  /** The record and the phase after so many working turns. */
  function After(s: Shared, r: Request, phase: Phase, turns: nat): (Shared, Phase)
    decreases turns
  {
    if turns == 0 || Blocked(s, phase) then (s, phase)
    else
      var (next, after) := Advance(s, r, phase, true);
      After(next, r, after, turns - 1)
  }

  lemma {:induction false} RunWorking(s: State, id: nat, shared: Shared, r: Request, phase: Phase, turns: nat)
    ensures
      var (next, after) := After(shared, r, phase, turns);
      Run(Where(s, id, shared, r, phase), Working(id, turns)) == Where(s, id, next, r, after)
    decreases turns
  {
    if turns > 0 {
      var here := Where(s, id, shared, r, phase);
      assert Working(id, turns)[1..] == Working(id, turns - 1);
      if Blocked(shared, phase) {
        assert Step(here, Resume(id, true)) == here;
        RunWorking(s, id, shared, r, phase, turns - 1);
      } else {
        var (next, after) := Advance(shared, r, phase, true);
        Turn(s, id, shared, r, phase);
        RunWorking(s, id, next, r, after, turns - 1);
      }
    }
  }

  lemma RunVisit(s: State, id: nat, r: Request, turns: nat)
    requires id !in s.handlers
    ensures
      var (next, after) := After(s.shared, r, Arrived, turns);
      Run(s, Visit(id, r, turns)) == Where(s, id, next, r, after)
  {
    assert Visit(id, r, turns)[1..] == Working(id, turns);
    assert Step(s, Arrive(id, r)) == Where(s, id, s.shared, r, Arrived);
    RunWorking(s, id, s.shared, r, Arrived, turns);
  }

  lemma RootIsAdmitted(s: Shared, r: Request, step: Turn)
    requires Readable(r) && !ForChild(r) && |s.requests| < 4 && s.rootRequests == step - 1
    requires RootFits(if step == 1 then r.identity else s.root, r, step)
    ensures Advance(s, r, Arrived, true) == (Admitted(s, r, step), AdmittedRoot(step))
  {
  }

  /** The record with one more root request. */
  function Admitted(s: Shared, r: Request, step: Turn): Shared {
    s.(requests := s.requests + [r], rootRequests := step, root := if step == 1 then r.identity else s.root,
       rootHeld := s.rootHeld || step == 2)
  }

  function Recorded(s: Shared, answer: string): Shared {
    s.(rootResponses := s.rootResponses + [answer])
  }

  lemma AnswerAfter(s: Shared, r: Request, step: Turn)
    ensures After(s, r, Answering(step), 2) == (Recorded(s, LABELS[step - 1]), Answered(step))
  {
    assert After(Recorded(s, LABELS[step - 1]), r, Sending(step), 1) == (Recorded(s, LABELS[step - 1]), Answered(step));
  }

  /** A root request that fits its step 1 or 3 is answered in three turns. */
  lemma FitIsAnswered(s: State, id: nat, r: Request, step: Turn)
    requires id !in s.handlers && Readable(r) && !ForChild(r) && |s.shared.requests| < 4
    requires step != 2 && s.shared.rootRequests == step - 1
    requires RootFits(if step == 1 then r.identity else s.shared.root, r, step)
    ensures Run(s, Visit(id, r, 3)) ==
            Where(s, id, Recorded(Admitted(s.shared, r, step), LABELS[step - 1]), r, Answered(step))
  {
    RootIsAdmitted(s.shared, r, step);
    AnswerAfter(Admitted(s.shared, r, step), r, step);
    RunVisit(s, id, r, 3);
  }

  function Held(s: Shared, child: Identity): Shared {
    s.(requests := s.requests + [ChildRequest(child)], childRequests := 1, child := Some(child), childHeld := true)
  }

  lemma ChildIsAdmitted(s: Shared, child: Identity)
    requires |s.requests| < 4 && s.childRequests == 0
    ensures After(s, ChildRequest(child), Arrived, 2) == (Held(s, child).(childReady := true), ChildWaiting)
  {
    ChildReadable(child);
    assert Advance(s, ChildRequest(child), Arrived, true) == (Held(s, child), ChildAccepted);
    assert After(Held(s, child), ChildRequest(child), ChildAccepted, 1)
           == (Held(s, child).(childReady := true), ChildWaiting);
  }

  lemma ChildIsHeld(s: State, id: nat, child: Identity)
    requires id !in s.handlers && |s.shared.requests| < 4 && s.shared.childRequests == 0
    ensures Run(s, Visit(id, ChildRequest(child), 2)) ==
            Where(s, id, Held(s.shared, child).(childReady := true), ChildRequest(child), ChildWaiting)
  {
    ChildIsAdmitted(s.shared, child);
    RunVisit(s, id, ChildRequest(child), 2);
  }

  lemma FitsOne(parent: Identity)
    ensures RootFits(Some(parent), RootRequest(parent, []), 1)
  {
  }

  lemma FitsTwo(parent: Identity, child: Identity)
    requires child.thread != ""
    ensures RootFits(Some(parent), RootRequest(parent, [Spawned(child)]), 2)
    ensures Agent([Spawned(child)]) == Some(child.thread)
  {
    assert MemberNames([Spawned(child)]) == CALLS[..1];
  }

  lemma FitsThree(parent: Identity, child: Identity)
    requires child.thread != ""
    ensures RootFits(Some(parent), RootRequest(parent, [Spawned(child), Closed()]), 3)
  {
    var outputs := [Spawned(child), Closed()];
    assert SPAWN[11] != CLOSE[11];
    assert outputs[1..] == [Closed()];
    assert MemberNames(outputs) == CALLS[..2];
    assert Get(outputs[1..], CLOSE) == Some(INTERRUPTED);
  }

  /** After the opening the first answer is on the record and the child is held. */
  lemma Opens(parent: Identity, child: Identity)
    ensures
      var s := Run(BEGIN, Opening(parent, child));
      && s.shared == START.(requests := [RootRequest(parent, []), ChildRequest(child)], rootRequests := 1,
                            childRequests := 1, rootResponses := ["owned-v417-spawn"], root := Some(parent),
                            child := Some(child), childHeld := true, childReady := true)
      && s.handlers == map[0 := Handler(RootRequest(parent, []), Answered(1)),
                           1 := Handler(ChildRequest(child), ChildWaiting)]
      && s.continuing == 0 && s.stopping == 0
  {
    RootReadable(parent, []);
    FitsOne(parent);
    FitIsAnswered(BEGIN, 0, RootRequest(parent, []), 1);
    var first := Visit(0, RootRequest(parent, []), 3);
    ChildIsHeld(Run(BEGIN, first), 1, child);
    RunConcat(BEGIN, first, Visit(1, ChildRequest(child), 2));
    assert LABELS[0] == "owned-v417-spawn";
  }

  /** The root's second request is held until the control was recorded and released it. */
  lemma Holds(s: State, parent: Identity, child: Identity)
    requires child.thread != "" && 2 !in s.handlers && |s.shared.requests| == 2 && s.shared.rootRequests == 1
    requires s.shared.root == Some(parent) && s.shared.controls == [] && s.shared.childReady && !s.shared.closing
    requires !s.shared.release && s.continuing == 0
    ensures
      var r := RootRequest(parent, [Spawned(child)]);
      Run(s, Holding(parent, child)) ==
      Where(s, 2, Admitted(s.shared, r, 2).(rootReady := true, controls := ["after-native-interrupted"], release := true),
            r, RootWaiting)
  {
    var r := RootRequest(parent, [Spawned(child)]);
    RootReadable(parent, [Spawned(child)]);
    FitsTwo(parent, child);
    RootIsAdmitted(s.shared, r, 2);
    var admitted := Admitted(s.shared, r, 2);
    assert After(admitted, r, RootAccepted, 1) == (admitted.(rootReady := true), RootWaiting);
    RunVisit(s, 2, r, 2);
    var before := Run(s, Visit(2, r, 2));
    RunConcat(s, Visit(2, r, 2), [Control(true), ControlReleases]);
    RunTwo(before, Control(true), ControlReleases);
  }

  /** The released root passes its checks and is answered. */
  lemma Resumes(s: State, shared: Shared, r: Request)
    requires shared.release && !shared.closing && shared.childReady && Continues(shared, r)
    ensures Run(Where(s, 2, shared, r, RootWaiting), Continuing()) ==
            Where(s, 2, Recorded(shared, "owned-v417-close"), r, Answered(2))
  {
    AnswerAfter(shared, r, 2);
    assert LABELS[1] == "owned-v417-close";
    assert After(shared, r, RootChecked, 3) == After(shared, r, Answering(2), 2);
    assert After(shared, r, RootReleased, 5) == After(shared, r, RootResumed, 4) == After(shared, r, RootChecked, 3);
    RunWorking(s, 2, shared, r, RootWaiting, 6);
  }

  /** The last request is answered, and closing lets the child end without a response. */
  lemma Ends(s: State, parent: Identity, child: Identity)
    requires child.thread != "" && 3 !in s.handlers && |s.shared.requests| == 3 && s.shared.rootRequests == 2
    requires s.shared.root == Some(parent) && s.stopping == 0
    requires 1 in s.handlers && s.handlers[1] == Handler(ChildRequest(child), ChildWaiting)
    ensures
      var r := RootRequest(parent, [Spawned(child), Closed()]);
      var end := Run(s, Ending(parent, child));
      && end.shared == Recorded(Admitted(s.shared, r, 3), "root_final").(closing := true, release := true)
      && end.handlers == s.handlers[3 := Handler(r, Answered(3))][1 := Handler(ChildRequest(child), Silent)]
  {
    var r := RootRequest(parent, [Spawned(child), Closed()]);
    RootReadable(parent, [Spawned(child), Closed()]);
    FitsThree(parent, child);
    FitIsAnswered(s, 3, r, 3);
    assert LABELS[2] == "root_final";
    RunConcat(s, Visit(3, r, 3), [StartClose, CloseReleases, Resume(1, true)]);
    RunThree(Run(s, Visit(3, r, 3)), StartClose, CloseReleases, Resume(1, true));
  }

  lemma ContinuesWithChild(s: Shared, parent: Identity, child: Identity)
    requires child.thread != "" && child.thread != parent.thread && child.turn != parent.turn
    requires s.controls == ["after-native-interrupted"] && s.root == Some(parent) && s.child == Some(child)
    ensures Continues(s, RootRequest(parent, [Spawned(child)]))
  {
    FitsTwo(parent, child);
  }

  /** Up to the second answer. */
  lemma Middle(parent: Identity, child: Identity)
    requires child.thread != "" && child.thread != parent.thread && child.turn != parent.turn
    ensures
      var s := Run(BEGIN, Opening(parent, child) + Holding(parent, child) + Continuing());
      && s.shared == START.(requests := [RootRequest(parent, []), ChildRequest(child), RootRequest(parent, [Spawned(child)])],
                            rootRequests := 2, childRequests := 1,
                            rootResponses := ["owned-v417-spawn", "owned-v417-close"], root := Some(parent),
                            child := Some(child), childHeld := true, rootHeld := true, childReady := true,
                            rootReady := true, controls := ["after-native-interrupted"], release := true)
      && s.handlers == map[0 := Handler(RootRequest(parent, []), Answered(1)),
                           1 := Handler(ChildRequest(child), ChildWaiting),
                           2 := Handler(RootRequest(parent, [Spawned(child)]), Answered(2))]
      && s.continuing == 0 && s.stopping == 0
  {
    Opens(parent, child);
    var s1 := Run(BEGIN, Opening(parent, child));
    Holds(s1, parent, child);
    var held := Run(s1, Holding(parent, child)).shared;
    ContinuesWithChild(held, parent, child);
    Resumes(s1, held, RootRequest(parent, [Spawned(child)]));
    RunConcat(BEGIN, Opening(parent, child), Holding(parent, child));
    RunConcat(BEGIN, Opening(parent, child) + Holding(parent, child), Continuing());
  }

  /** The owned conversation: with a child of another thread and turn the three answers go out in order, the child ends
      without one, and there is no error. */
  lemma ConversationCompletes(parent: Identity, child: Identity)
    requires child.thread != "" && child.thread != parent.thread && child.turn != parent.turn
    ensures
      var s := Run(BEGIN, Conversation(parent, child));
      && s.shared.rootResponses == ["owned-v417-spawn", "owned-v417-close", "root_final"]
      && s.shared.controls == ["after-native-interrupted"] && s.shared.errors == 0
      && s.shared.rootRequests == 3 && s.shared.childRequests == 1 && |s.shared.requests| == 4
      && s.handlers.Keys == {0, 1, 2, 3} && s.handlers[0].phase == Answered(1) && s.handlers[2].phase == Answered(2)
      && s.handlers[3].phase == Answered(3) && s.handlers[1].phase == Silent
  {
    Middle(parent, child);
    Ends(Run(BEGIN, Opening(parent, child) + Holding(parent, child) + Continuing()), parent, child);
    RunConcat(BEGIN, Opening(parent, child) + Holding(parent, child) + Continuing(), Ending(parent, child));
  }
}
