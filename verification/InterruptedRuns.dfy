/** Every run of the provider of scripts/codex/collaboration_interrupted_fixture.py: requests arrive at any
    time, handlers, control and close run their sections in any order, and any wait may time out. */
module InterruptedRuns {
  import opened Wrappers
  import opened Json
  import opened InterruptedProvider

  datatype Handler = Handler(request: Request, phase: Phase)

  /** `continuing` and `stopping` count the calls of `continue_after_interrupt` and of `close` that have yet to
      set the release. */
  datatype State = State(shared: Shared, handlers: map<nat, Handler>, continuing: nat, stopping: nat)

  datatype Event =
    | Arrive(id: nat, request: Request)
    | Resume(id: nat, works: bool)
    | Timeout(id: nat)
    | Control(saves: bool)
    | ControlReleases
    | StartClose
    | CloseReleases

  /** What one event does; an event that cannot happen now does nothing. */
  function Step(s: State, e: Event): State {
    match e
    case Arrive(id, request) =>
      if id in s.handlers then s else s.(handlers := s.handlers[id := Handler(request, Arrived)])
    case Resume(id, works) =>
      if id !in s.handlers || Blocked(s.shared, s.handlers[id].phase) then s
      else
        var (shared, phase) := Advance(s.shared, s.handlers[id].request, s.handlers[id].phase, works);
        s.(shared := shared, handlers := s.handlers[id := s.handlers[id].(phase := phase)])
    case Timeout(id) =>
      if id in s.handlers && (s.handlers[id].phase.ChildWaiting? || s.handlers[id].phase.RootWaiting?) then
        s.(handlers := s.handlers[id := s.handlers[id].(phase := Failing)])
      else s
    case Control(saves) =>
      var (shared, continued) := Continue(s.shared, saves);
      s.(shared := shared, continuing := s.continuing + if continued then 1 else 0)
    case ControlReleases =>
      if s.continuing == 0 then s
      else s.(shared := s.shared.(release := true), continuing := s.continuing - 1)
    case StartClose => s.(shared := s.shared.(closing := true), stopping := s.stopping + 1)
    case CloseReleases =>
      if s.stopping == 0 then s
      else s.(shared := s.shared.(release := true), stopping := s.stopping - 1)
  }

  function Run(s: State, events: seq<Event>): State
    decreases |events|
  {
    if events == [] then s else Run(Step(s, events[0]), events[1..])
  }

  const BEGIN := State(START, map[], 0, 0)

  // ----- What holds in every reachable state

  predicate RootPhase(phase: Phase) {
    match phase
    case Arrived => false
    case ChildAccepted => false
    case ChildWaiting => false
    case Failing => false
    case Silent => false
    case Refused => false
    case _ => true
  }

  predicate Fits(s: Shared, h: Handler) {
    && (RootPhase(h.phase) ==> !ForChild(h.request))
    && (h.phase.RootReleased? ==> s.release)
    && (h.phase.RootResumed? || h.phase.RootChecked? ==> Continued(s))
  }

  predicate AllFit(s: Shared, handlers: map<nat, Handler>) {
    forall id <- handlers :: Fits(s, handlers[id])
  }

  predicate Signals(s: State) {
    && Signalled(s.shared)
    && (s.continuing > 0 ==> Continued(s.shared))
    && (s.shared.closing ==> s.shared.release || s.stopping > 0)
    && (s.stopping > 0 ==> s.shared.closing)
  }

  predicate Inv(s: State) {
    Counted(s.shared) && Signals(s) && AllFit(s.shared, s.handlers)
  }

  /** Nothing is taken back: events stay set, a control stays recorded. */
  predicate Onward(a: Shared, b: Shared) {
    && (a.release ==> b.release)
    && (a.closing ==> b.closing)
    && (a.childReady ==> b.childReady)
    && (a.controls != [] ==> b.controls == a.controls)
  }

  predicate SameSignals(a: Shared, b: Shared) {
    && a.release == b.release && a.closing == b.closing
    && a.childReady == b.childReady && a.controls == b.controls && a.rootResponses == b.rootResponses
  }

  lemma AcceptChildEffect(s: Shared, r: Request, saves: bool)
    requires r.outputs.Some?
    ensures ChildAdmitted(s, AcceptChild(s, r, saves))
  {
  }

  predicate ChildAdmitted(s: Shared, result: (Shared, Phase)) {
    var (next, phase) := result;
    && SameSignals(s, next) && next.requests == s.requests && next.rootRequests == s.rootRequests
    && s.childRequests <= next.childRequests <= s.childRequests + 1
    && (phase == ChildAccepted || phase == Failing)
  }

  lemma AcceptRootEffect(s: Shared, r: Request, saves: bool)
    requires r.outputs.Some?
    ensures RootAdmitted(s, r, AcceptRoot(s, r, saves))
  {
  }

  predicate RootAdmitted(s: Shared, r: Request, result: (Shared, Phase))
    requires r.outputs.Some?
  {
    var (next, phase) := result;
    && SameSignals(s, next) && next.requests == s.requests && next.childRequests == s.childRequests
    && next.rootRequests == s.rootRequests + 1
    && (phase == Failing || phase == RootAccepted || phase.Answering?)
    && (phase != Failing ==>
          && Unrecorded(phase) == s.rootRequests + 1 <= 3
          && MemberNames(r.outputs.value) == CALLS[..s.rootRequests])
  }

  /** What admitting a request does to the record, and where it leaves the handler. */
  lemma AcceptEffect(s: Shared, r: Request, saves: bool)
    ensures
      var (next, phase) := Accept(s, r, saves);
      && SameSignals(s, next) && (Counted(s) ==> Counted(next)) && s.rootRequests <= next.rootRequests
      && (phase == Failing || phase == ChildAccepted || phase == RootAccepted || phase.Answering?)
      && (phase.ChildAccepted? ==> ForChild(r))
      && (Unrecorded(phase) > 0 ==>
            && !ForChild(r) && r.outputs.Some?
            && Unrecorded(phase) == s.rootRequests + 1 == next.rootRequests <= 3
            && MemberNames(r.outputs.value) == CALLS[..s.rootRequests])
  {
    if Readable(r) && |s.requests| < 4 {
      var admitted := s.(requests := s.requests + [r]);
      if ForChild(r) {
        AcceptChildEffect(admitted, r, saves);
      } else {
        AcceptRootEffect(admitted, r, saves);
      }
    }
  }

  lemma AdvanceKeeps(s: Shared, h: Handler, works: bool)
    requires Counted(s) && Fits(s, h) && !Blocked(s, h.phase)
    requires s.release ==> s.closing || Continued(s)
    ensures
      var (next, phase) := Advance(s, h.request, h.phase, works);
      && Counted(next) && Onward(s, next) && Fits(next, Handler(h.request, phase))
      && next.release == s.release && next.closing == s.closing && next.controls == s.controls
  {
    if h.phase.Arrived? {
      AcceptEffect(s, h.request, works);
    } else {
      LaterKeeps(s, h, works);
    }
  }

  lemma LaterKeeps(s: Shared, h: Handler, works: bool)
    requires Counted(s) && Fits(s, h) && !Blocked(s, h.phase) && !h.phase.Arrived?
    requires s.release ==> s.closing || Continued(s)
    ensures
      var (next, phase) := Advance(s, h.request, h.phase, works);
      && Counted(next) && Onward(s, next) && Fits(next, Handler(h.request, phase))
      && next.release == s.release && next.closing == s.closing && next.controls == s.controls
  {
    match h.phase
    case RootReleased =>
    case RootResumed =>
    case RootChecked =>
    case _ =>
  }

  lemma FitsOnward(a: Shared, b: Shared, handlers: map<nat, Handler>)
    requires AllFit(a, handlers) && Onward(a, b)
    ensures AllFit(b, handlers)
  {
  }

  lemma StepKeeps(s: State, e: Event)
    requires Inv(s)
    ensures Inv(Step(s, e))
  {
    match e
    case Resume(id, works) =>
      if id in s.handlers && !Blocked(s.shared, s.handlers[id].phase) {
        AdvanceKeeps(s.shared, s.handlers[id], works);
        FitsOnward(s.shared, Step(s, e).shared, s.handlers);
      }
    case _ =>
      FitsOnward(s.shared, Step(s, e).shared, s.handlers);
  }

  lemma {:induction false} RunKeeps(s: State, events: seq<Event>)
    requires Inv(s)
    ensures Inv(Run(s, events))
    decreases |events|
  {
    if events != [] {
      StepKeeps(s, events[0]);
      RunKeeps(Step(s, events[0]), events[1..]);
    }
  }

  /** In every run the accepted requests never exceed four, and the counts of root and child requests never
      exceed the accepted ones. */
  lemma RequestsAreBounded(events: seq<Event>)
    ensures
      var s := Run(BEGIN, events).shared;
      s.rootRequests + s.childRequests <= |s.requests| <= 4
  {
    RunKeeps(BEGIN, events);
  }

  /** In every run the child gets no answer: not even the sending of one begins. */
  lemma ChildIsNeverAnswered(events: seq<Event>, id: nat)
    requires id in Run(BEGIN, events).handlers && ForChild(Run(BEGIN, events).handlers[id].request)
    ensures
      var phase := Run(BEGIN, events).handlers[id].phase;
      !phase.Answering? && !phase.Sending? && !phase.Answered?
  {
    RunKeeps(BEGIN, events);
    assert Fits(Run(BEGIN, events).shared, Run(BEGIN, events).handlers[id]);
  }

  /** Once the held root has been released and has seen no closing, the checks on `child_ready` and on
      `controls` cannot fail. */
  lemma ChecksAfterReleaseHold(events: seq<Event>, id: nat)
    requires id in Run(BEGIN, events).handlers
    requires
      var phase := Run(BEGIN, events).handlers[id].phase;
      phase.RootResumed? || phase.RootChecked?
    ensures Run(BEGIN, events).shared.childReady && Run(BEGIN, events).shared.controls == [CONTROL]
  {
    RunKeeps(BEGIN, events);
    assert Fits(Run(BEGIN, events).shared, Run(BEGIN, events).handlers[id]);
  }

  // ----- Closing lets every handler finish

  predicate Done(phase: Phase) {
    phase.Silent? || phase.Refused? || phase.Answered?
  }

  /** How many more sections a handler can run at most. */
  function Remaining(phase: Phase): nat {
    match phase
    case Arrived => 9
    case RootAccepted => 8
    case RootWaiting => 7
    case RootReleased => 6
    case RootResumed => 5
    case RootChecked => 4
    case ChildAccepted => 3
    case Answering(_) => 3
    case ChildWaiting => 2
    case Sending(_) => 2
    case Failing => 1
    case _ => 0
  }

  function Turns(events: seq<Event>, id: nat): nat {
    if events == [] then 0
    else (if events[0].Resume? && events[0].id == id then 1 else 0) + Turns(events[1..], id)
  }

  /** Once both events are set, each turn brings a handler nearer to its end, whatever runs in between. */
  lemma {:induction false} TurnsFinish(s: State, events: seq<Event>, id: nat)
    requires s.shared.closing && s.shared.release && id in s.handlers
    ensures id in Run(s, events).handlers
    ensures
      var left := Remaining(Run(s, events).handlers[id].phase);
      left == 0 || left + Turns(events, id) <= Remaining(s.handlers[id].phase)
    decreases |events|
  {
    if events != [] {
      TurnFinishes(s, events[0], id);
      TurnsFinish(Step(s, events[0]), events[1..], id);
    }
  }

  lemma AdvanceFinishes(s: Shared, r: Request, phase: Phase, works: bool)
    requires !Blocked(s, phase)
    ensures Nearer(s, phase, Advance(s, r, phase, works))
  {
    if phase.Arrived? {
      AcceptEffect(s, r, works);
    } else {
      LaterFinishes(s, r, phase, works);
    }
  }

  predicate Nearer(s: Shared, phase: Phase, result: (Shared, Phase)) {
    && (s.closing ==> result.0.closing) && (s.release ==> result.0.release)
    && Remaining(result.1) < Remaining(phase)
  }

  lemma LaterFinishes(s: Shared, r: Request, phase: Phase, works: bool)
    requires !Blocked(s, phase) && !phase.Arrived?
    ensures Nearer(s, phase, Advance(s, r, phase, works))
  {
    match phase
    case RootReleased =>
    case RootResumed =>
    case RootChecked =>
    case _ =>
  }

  lemma TurnFinishes(s: State, e: Event, id: nat)
    requires s.shared.closing && s.shared.release && id in s.handlers
    ensures
      var next := Step(s, e);
      && next.shared.closing && next.shared.release && id in next.handlers
      && var before, after := Remaining(s.handlers[id].phase), Remaining(next.handlers[id].phase);
        if e.Resume? && e.id == id then after < before || (before == 0 && after == 0) else after <= before
  {
    if e.Resume? && e.id in s.handlers && !Blocked(s.shared, s.handlers[e.id].phase) {
      AdvanceFinishes(s.shared, s.handlers[e.id].request, s.handlers[e.id].phase, e.works);
    }
  }

  /** After `close`, in any run, a handler that gets nine turns has ended: none stays blocked. */
  lemma NobodyStaysBlocked(events: seq<Event>, more: seq<Event>, id: nat)
    requires
      var s := Run(BEGIN, events);
      s.shared.closing && s.stopping == 0 && id in s.handlers
    requires Turns(more, id) >= 9
    ensures id in Run(Run(BEGIN, events), more).handlers
    ensures Done(Run(Run(BEGIN, events), more).handlers[id].phase)
  {
    RunKeeps(BEGIN, events);
    TurnsFinish(Run(BEGIN, events), more, id);
  }

  // ----- The order of the root's responses

  /** Every call whose output a readable root request brings was answered on the record. */
  predicate Deserved(s: Shared, r: Request) {
    Readable(r) && !ForChild(r) ==>
      forall call <- MemberNames(r.outputs.value) :: call in CALLS ==> call in s.rootResponses
  }

  /** A request that is admitted now brings no output early. */
  predicate Honest(s: State, e: Event) {
    e.Resume? && e.id in s.handlers && s.handlers[e.id].phase.Arrived? ==> Deserved(s.shared, s.handlers[e.id].request)
  }

  predicate HonestRun(s: State, events: seq<Event>)
    decreases |events|
  {
    events == [] || (Honest(s, events[0]) && HonestRun(Step(s, events[0]), events[1..]))
  }

  /** The step of a root handler whose answer is not recorded yet, or 0. */
  function Unrecorded(phase: Phase): nat {
    match phase
    case RootAccepted => 2
    case RootWaiting => 2
    case RootReleased => 2
    case RootResumed => 2
    case RootChecked => 2
    case Answering(step) => step
    case _ => 0
  }

  predicate InOrder(s: Shared) {
    && |s.rootResponses| <= 3 && |s.rootResponses| <= s.rootRequests
    && s.rootResponses == LABELS[..|s.rootResponses|]
  }

  predicate InTurn(s: Shared, h: Handler) {
    && (Unrecorded(h.phase) > 0 ==> |s.rootResponses| + 1 == Unrecorded(h.phase) <= s.rootRequests)
    && (h.phase.Sending? ==> LABELS[h.phase.step - 1] in s.rootResponses)
    && (h.phase.Answered? ==> LABELS[h.phase.step - 1] in s.rootResponses)
  }

  predicate OnlyOne(handlers: map<nat, Handler>) {
    forall i <- handlers, j <- handlers ::
      Unrecorded(handlers[i].phase) > 0 && Unrecorded(handlers[j].phase) > 0 ==> i == j
  }

  predicate Ordered(s: State) {
    && InOrder(s.shared)
    && AllInTurn(s.shared, s.handlers)
    && OnlyOne(s.handlers)
  }

  predicate AllInTurn(s: Shared, handlers: map<nat, Handler>) {
    forall id <- handlers :: InTurn(s, handlers[id])
  }

  /** A request is admitted as step `k` only when the answers before it are recorded, so that no earlier step
      is then outstanding. */
  lemma AcceptInTurn(s: Shared, r: Request, saves: bool)
    requires InOrder(s) && Deserved(s, r)
    ensures
      var (next, phase) := Advance(s, r, Arrived, saves);
      && InOrder(next) && next.rootResponses == s.rootResponses && s.rootRequests <= next.rootRequests
      && InTurn(next, Handler(r, phase))
      && (Unrecorded(phase) > 0 ==> Unrecorded(phase) == s.rootRequests + 1)
  {
    AcceptEffect(s, r, saves);
    if Unrecorded(Advance(s, r, Arrived, saves).1) > 0 {
      CallsAnswered(s, MemberNames(r.outputs.value), s.rootRequests);
    }
  }

  lemma CallsAnswered(s: Shared, calls: seq<string>, k: nat)
    requires InOrder(s) && k <= 2 && calls == CALLS[..k]
    requires forall call <- calls :: call in CALLS ==> call in s.rootResponses
    ensures |s.rootResponses| >= k
  {
    if k > 0 {
      assert calls[k - 1] == CALLS[k - 1] == LABELS[k - 1];
      assert calls[k - 1] in calls;
      var i :| 0 <= i < |s.rootResponses| && s.rootResponses[i] == LABELS[k - 1];
      LabelsDiffer(i, k - 1);
    }
  }

  lemma LabelsDiffer(i: nat, j: nat)
    requires i < 3 && j < 3 && LABELS[i] == LABELS[j]
    ensures i == j
  {
    assert |SPAWN| == 16 && |CLOSE| == 16 && |FINAL| == 10;
    assert SPAWN[11] == 's' && CLOSE[11] == 'c';
  }

  lemma RecordInTurn(s: Shared, r: Request, step: Turn, works: bool)
    requires InOrder(s) && InTurn(s, Handler(r, Answering(step)))
    ensures
      var (next, phase) := Advance(s, r, Answering(step), works);
      InOrder(next) && InTurn(next, Handler(r, phase)) && next.rootResponses == s.rootResponses + [LABELS[step - 1]]
  {
    assert LABELS[..step] == LABELS[..step - 1] + [LABELS[step - 1]];
    var recorded := s.rootResponses + [LABELS[step - 1]];
    assert recorded[|recorded| - 1] == LABELS[step - 1];
  }

  /** Only an answer adds to the responses. */
  predicate Responds(s: Shared, phase: Phase, next: Shared) {
    && next.rootRequests >= s.rootRequests
    && next.rootResponses == s.rootResponses + if phase.Answering? then [LABELS[phase.step - 1]] else []
  }

  lemma ResponsesAfter(s: Shared, h: Handler, works: bool)
    requires !Blocked(s, h.phase)
    ensures Responds(s, h.phase, Advance(s, h.request, h.phase, works).0)
  {
    if h.phase.Arrived? {
      AcceptEffect(s, h.request, works);
    } else {
      LaterResponds(s, h, works);
    }
  }

  lemma LaterResponds(s: Shared, h: Handler, works: bool)
    requires !Blocked(s, h.phase) && !h.phase.Arrived?
    ensures Responds(s, h.phase, Advance(s, h.request, h.phase, works).0)
  {
    match h.phase
    case Answering(_) =>
    case RootChecked =>
    case _ =>
  }

  lemma StaysInTurn(a: Shared, b: Shared, h: Handler)
    requires InTurn(a, h) && a.rootRequests <= b.rootRequests && a.rootResponses <= b.rootResponses
    requires Unrecorded(h.phase) == 0 || b.rootResponses == a.rootResponses
    ensures InTurn(b, h)
  {
    forall x | x in a.rootResponses ensures x in b.rootResponses {
      var i :| 0 <= i < |a.rootResponses| && a.rootResponses[i] == x;
      assert b.rootResponses[i] == x;
    }
  }

  lemma OthersInTurn(s: State, e: Event)
    requires Ordered(s) && e.Resume? && e.id in s.handlers && !Blocked(s.shared, s.handlers[e.id].phase) && Honest(s, e)
    ensures forall id <- s.handlers :: id != e.id ==> InTurn(Step(s, e).shared, s.handlers[id])
    ensures Unrecorded(Step(s, e).handlers[e.id].phase) > 0 ==>
      forall id <- s.handlers :: id != e.id ==> Unrecorded(s.handlers[id].phase) == 0
  {
    var h := s.handlers[e.id];
    ResponsesAfter(s.shared, h, e.works);
    forall id <- s.handlers | id != e.id ensures InTurn(Step(s, e).shared, s.handlers[id]) {
      StaysInTurn(s.shared, Step(s, e).shared, s.handlers[id]);
    }
    OthersRecorded(s, h, e);
  }

  lemma OthersRecorded(s: State, h: Handler, e: Event)
    requires Ordered(s) && e.Resume? && e.id in s.handlers && !Blocked(s.shared, s.handlers[e.id].phase)
    requires h == s.handlers[e.id] && Honest(s, e)
    ensures Unrecorded(Advance(s.shared, h.request, h.phase, e.works).1) > 0 ==>
      forall id <- s.handlers :: id != e.id ==> Unrecorded(s.handlers[id].phase) == 0
  {
    if h.phase.Arrived? {
      AcceptInTurn(s.shared, h.request, e.works);
    } else {
      StaysUnrecorded(s.shared, h, e.works);
    }
  }

  /** Only admission makes a step outstanding. */
  lemma StaysUnrecorded(s: Shared, h: Handler, works: bool)
    requires !Blocked(s, h.phase) && !h.phase.Arrived?
    ensures Unrecorded(Advance(s, h.request, h.phase, works).1) > 0 ==> Unrecorded(h.phase) > 0
  {
  }

  lemma ResumeOrdered(s: State, e: Event)
    requires Ordered(s) && e.Resume? && Honest(s, e)
    ensures Ordered(Step(s, e))
  {
    if e.id in s.handlers && !Blocked(s.shared, s.handlers[e.id].phase) {
      OthersInTurn(s, e);
      ResumedInTurn(s.shared, s.handlers[e.id], e.works);
      ReplaceInTurn(s.handlers, Step(s, e).shared, e.id, Step(s, e).handlers[e.id]);
    }
  }

  lemma ResumedInTurn(s: Shared, h: Handler, works: bool)
    requires InOrder(s) && InTurn(s, h) && !Blocked(s, h.phase) && (h.phase.Arrived? ==> Deserved(s, h.request))
    ensures
      var (next, phase) := Advance(s, h.request, h.phase, works);
      InOrder(next) && InTurn(next, Handler(h.request, phase))
  {
    if h.phase.Arrived? {
      AcceptInTurn(s, h.request, works);
    } else if h.phase.Answering? {
      RecordInTurn(s, h.request, h.phase.step, works);
    } else {
      LaterInTurn(s, h, works);
    }
  }

  lemma LaterInTurn(s: Shared, h: Handler, works: bool)
    requires InOrder(s) && InTurn(s, h) && !Blocked(s, h.phase) && !h.phase.Arrived? && !h.phase.Answering?
    ensures ResultInTurn(h.request, Advance(s, h.request, h.phase, works))
  {
    match h.phase
    case RootReleased =>
    case RootResumed =>
    case RootChecked =>
    case Sending(_) =>
    case _ =>
  }

  predicate ResultInTurn(r: Request, result: (Shared, Phase)) {
    InOrder(result.0) && InTurn(result.0, Handler(r, result.1))
  }

  lemma ReplaceInTurn(handlers: map<nat, Handler>, s: Shared, id: nat, h: Handler)
    requires OnlyOne(handlers) && InTurn(s, h)
    requires forall i <- handlers :: i != id ==> InTurn(s, handlers[i])
    requires Unrecorded(h.phase) > 0 ==> forall i <- handlers :: i != id ==> Unrecorded(handlers[i].phase) == 0
    ensures OnlyOne(handlers[id := h]) && AllInTurn(s, handlers[id := h])
  {
  }

  lemma StepOrdered(s: State, e: Event)
    requires Ordered(s) && Honest(s, e)
    ensures Ordered(Step(s, e))
  {
    match e
    case Resume(_, _) =>
      ResumeOrdered(s, e);
    case Arrive(id, request) =>
      if id !in s.handlers {
        ReplaceInTurn(s.handlers, s.shared, id, Handler(request, Arrived));
      }
    case Timeout(id) =>
      if id in s.handlers {
        ReplaceInTurn(s.handlers, s.shared, id, s.handlers[id].(phase := Failing));
      }
    case _ =>
      SignalsOrdered(s, Step(s, e));
  }

  /** Signals and controls change neither requests, responses nor handlers. */
  lemma SignalsOrdered(s: State, next: State)
    requires Ordered(s) && next.handlers == s.handlers
    requires next.shared.rootRequests == s.shared.rootRequests && next.shared.rootResponses == s.shared.rootResponses
    ensures Ordered(next)
  {
  }

  lemma {:induction false} RunOrdered(s: State, events: seq<Event>)
    requires Ordered(s) && HonestRun(s, events)
    ensures Ordered(Run(s, events))
    decreases |events|
  {
    if events != [] {
      StepOrdered(s, events[0]);
      RunOrdered(Step(s, events[0]), events[1..]);
    }
  }

  /** If no root request is admitted with the output of a call that was not answered, the recorded responses
      are always a prefix of spawn, close and final. Other requests may bring anything. */
  lemma ResponsesArePrefix(events: seq<Event>)
    requires HonestRun(BEGIN, events)
    ensures Run(BEGIN, events).shared.rootResponses <= [SPAWN, CLOSE, FINAL]
  {
    RunOrdered(BEGIN, events);
    var s := Run(BEGIN, events).shared;
    assert LABELS == [SPAWN, CLOSE, FINAL];
  }

  // ----- Without that client rule the order breaks

  const PARENT := Identity("root", "turn")
  const AGENT := Member(SPAWN, Obj([Member("agent_id", Str("child"))]))

  const OUTPUTS: seq<Member> := [AGENT, Member(CLOSE, INTERRUPTED)]

  function Asking(outputs: seq<Member>): Request {
    Request("mock-model", "low", [ROOT], Some(PARENT), Some(outputs))
  }

  lemma AskingReadable(outputs: seq<Member>)
    ensures Readable(Asking(outputs)) && !ForChild(Asking(outputs))
  {
    assert ROOT[|ROOT| - 1] != CHILD[|CHILD| - 1];
    assert [ROOT][0] == ROOT && Marker([ROOT]) == Some(ROOT);
  }

  lemma AskingFits(n: nat)
    requires n <= 2
    ensures RootFits(Some(PARENT), Asking(OUTPUTS[..n]), n + 1)
  {
    assert SPAWN[11] != CLOSE[11];
    assert Get([Member("agent_id", Str("child"))], "agent_id") == Some(Str("child"));
    assert MemberNames(OUTPUTS[..n]) == CALLS[..n];
    assert OUTPUTS[..2][1..][0] == Member(CLOSE, INTERRUPTED);
  }

  lemma AskingAdmitted(s: Shared, n: nat)
    requires |s.requests| < 4 && s.rootRequests == n <= 2
    requires n > 0 ==> s.root == Some(PARENT)
    ensures
      var (next, phase) := Accept(s, Asking(OUTPUTS[..n]), true);
      && phase == AdmittedRoot(n + 1) && next.root == Some(PARENT)
      && next.rootRequests == n + 1 && next.rootResponses == s.rootResponses
      && |next.requests| == |s.requests| + 1
  {
    AskingReadable(OUTPUTS[..n]);
    AskingFits(n);
  }

  /** Handler `n` arrives with the first `n` outputs and is admitted. */
  lemma Joins(s: State, n: nat)
    requires n !in s.handlers && |s.shared.requests| == s.shared.rootRequests == n <= 2
    requires n > 0 ==> s.shared.root == Some(PARENT)
    ensures
      var next := Step(Step(s, Arrive(n, Asking(OUTPUTS[..n]))), Resume(n, true));
      && next.handlers.Keys == s.handlers.Keys + {n}
      && next.handlers[n].phase == AdmittedRoot(n + 1)
      && next.shared.rootRequests == |next.shared.requests| == n + 1 && next.shared.root == Some(PARENT)
      && next.shared.rootResponses == s.shared.rootResponses
  {
    AskingAdmitted(s.shared, n);
  }

  lemma {:induction false} RunConcat(s: State, a: seq<Event>, b: seq<Event>)
    ensures Run(s, a + b) == Run(Run(s, a), b)
    decreases |a|
  {
    if a == [] {
      assert a + b == b;
    } else {
      assert (a + b)[1..] == a[1..] + b;
      RunConcat(Step(s, a[0]), a[1..], b);
    }
  }

  function Joining(n: nat): seq<Event>
    requires n <= 2
  {
    [Arrive(n, Asking(OUTPUTS[..n])), Resume(n, true)]
  }

  lemma RunTwo(s: State, a: Event, b: Event)
    ensures Run(s, [a, b]) == Step(Step(s, a), b) && Run(s, [a]) == Step(s, a)
  {
    assert [a, b][1..] == [b] && [b][1..] == [] && [a][1..] == [];
    assert Run(Step(s, a), [b]) == Run(Step(Step(s, a), b), []);
  }

  predicate Joined(s: State, n: nat) {
    && |s.shared.requests| == s.shared.rootRequests == n && (n > 0 ==> s.shared.root == Some(PARENT))
    && s.shared.rootResponses == [] && forall id <- s.handlers :: id < n
  }

  lemma RunJoins(s: State, n: nat)
    requires Joined(s, n) && n <= 2
    ensures Joined(Run(s, Joining(n)), n + 1)
    ensures n in Run(s, Joining(n)).handlers && Run(s, Joining(n)).handlers[n].phase == AdmittedRoot(n + 1)
  {
    RunTwo(s, Arrive(n, Asking(OUTPUTS[..n])), Resume(n, true));
    Joins(s, n);
  }

  lemma AllJoin()
    ensures
      var s := Run(BEGIN, Joining(0) + Joining(1) + Joining(2));
      s.shared.rootResponses == [] && 2 in s.handlers && s.handlers[2].phase == Answering(3)
  {
    RunJoins(BEGIN, 0);
    RunJoins(Run(BEGIN, Joining(0)), 1);
    RunJoins(Run(Run(BEGIN, Joining(0)), Joining(1)), 2);
    RunConcat(BEGIN, Joining(0), Joining(1));
    RunConcat(BEGIN, Joining(0) + Joining(1), Joining(2));
  }

  /** A client that sends outputs before their calls were answered can have the final answer first. */
  lemma EarlyOutputsBreakOrder()
    ensures Run(BEGIN, Joining(0) + Joining(1) + Joining(2) + [Resume(2, true)]).shared.rootResponses == [FINAL]
  {
    var before := Joining(0) + Joining(1) + Joining(2);
    AllJoin();
    RunConcat(BEGIN, before, [Resume(2, true)]);
    RunTwo(Run(BEGIN, before), Resume(2, true), Resume(2, true));
    assert LABELS[2] == FINAL;
  }
}
