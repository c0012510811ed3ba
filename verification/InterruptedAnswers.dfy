/** Whom the provider of scripts/codex/collaboration_interrupted_fixture.py answers, in every run. */
module InterruptedAnswers {
  import opened Wrappers
  import opened Json
  import opened InterruptedProvider
  import opened InterruptedRuns

  /** The request of the step was made by the first root thread and turn, with exactly the outputs of the
      calls before it. */
  predicate FromRoot(s: Shared, r: Request, step: Turn) {
    s.rootRequests >= 1 && Readable(r) && s.root.Some? && RootFits(s.root, r, step)
  }

  /** The agent it spawned is the held child, of another thread and turn than the root. */
  predicate NamesChild(s: Shared, r: Request) {
    && s.childRequests >= 1 && s.child.Some? && s.root.Some? && r.outputs.Some?
    && Agent(r.outputs.value) == Some(s.child.value.thread)
    && s.child.value.thread != s.root.value.thread
    && s.child.value.turn != s.root.value.turn
  }

  /** The step a root handler answers, or 0. */
  function StepOf(phase: Phase): nat {
    match phase
    case Answering(step) => step
    case Sending(step) => step
    case Answered(step) => step
    case _ => if Unrecorded(phase) == 2 then 2 else 0
  }

  predicate Answers(phase: Phase) {
    phase.Answering? || phase.Sending? || phase.Answered?
  }

  predicate Entitled(s: Shared, h: Handler) {
    && (StepOf(h.phase) > 0 ==> FromRoot(s, h.request, StepOf(h.phase)))
    && (Answers(h.phase) && StepOf(h.phase) == 2 ==> NamesChild(s, h.request))
  }

  predicate AllEntitled(s: Shared, handlers: map<nat, Handler>) {
    forall id <- handlers :: Entitled(s, handlers[id])
  }

  predicate ChildCounted(s: Shared) {
    s.child.Some? ==> s.childRequests >= 1
  }

  /** Counts grow, and whoever is known stays known. */
  predicate Steady(a: Shared, b: Shared) {
    && a.rootRequests <= b.rootRequests && a.childRequests <= b.childRequests
    && (a.rootRequests > 0 ==> b.root == a.root)
    && (a.childRequests > 0 ==> b.child == a.child)
    && (ChildCounted(a) ==> ChildCounted(b))
  }

  lemma SteadyEntitled(a: Shared, b: Shared, h: Handler)
    requires Steady(a, b) && Entitled(a, h)
    ensures Entitled(b, h)
  {
  }

  predicate Admits(s: Shared, r: Request, result: (Shared, Phase)) {
    Steady(s, result.0) && Entitled(result.0, Handler(r, result.1))
  }

  lemma ChildEntitled(s: Shared, r: Request, saves: bool)
    requires r.outputs.Some?
    ensures Admits(s, r, AcceptChild(s, r, saves))
  {
  }

  lemma RootEntitled(s: Shared, r: Request, saves: bool)
    requires Readable(r)
    ensures Admits(s, r, AcceptRoot(s, r, saves))
    ensures AcceptRoot(s, r, saves).1 != Answering(2)
  {
  }

  lemma AcceptEntitled(s: Shared, r: Request, saves: bool)
    ensures Admits(s, r, Accept(s, r, saves))
  {
    if Readable(r) && |s.requests| < 4 {
      var admitted := s.(requests := s.requests + [r]);
      ChildEntitled(admitted, r, saves);
      RootEntitled(admitted, r, saves);
    }
  }

  lemma CheckedEntitled(s: Shared, r: Request, works: bool)
    requires FromRoot(s, r, 2) && ChildCounted(s)
    ensures Admits(s, r, Advance(s, r, RootChecked, works))
  {
  }

  lemma RecordEntitled(s: Shared, r: Request, step: Turn, works: bool)
    requires Entitled(s, Handler(r, Answering(step)))
    ensures Admits(s, r, Advance(s, r, Answering(step), works))
  {
    SteadyEntitled(s, Advance(s, r, Answering(step), works).0, Handler(r, Answering(step)));
  }

  /** The other sections change no count and nobody that is known, and stay with their step or leave it. */
  lemma SignalSteady(s: Shared, r: Request, phase: Phase, works: bool)
    requires !Blocked(s, phase) && !phase.Arrived? && !phase.RootChecked? && !phase.Answering?
    ensures Steady(s, Advance(s, r, phase, works).0)
    ensures
      var after := Advance(s, r, phase, works).1;
      StepOf(after) == 0 || (StepOf(after) == StepOf(phase) && (Answers(after) ==> Answers(phase)))
  {
  }

  lemma SameStepEntitled(s: Shared, r: Request, before: Phase, after: Phase)
    requires Entitled(s, Handler(r, before))
    requires StepOf(after) == 0 || (StepOf(after) == StepOf(before) && (Answers(after) ==> Answers(before)))
    ensures Entitled(s, Handler(r, after))
  {
  }

  lemma SignalEntitled(s: Shared, h: Handler, works: bool)
    requires Entitled(s, h) && !Blocked(s, h.phase)
    requires !h.phase.Arrived? && !h.phase.RootChecked? && !h.phase.Answering?
    ensures Admits(s, h.request, Advance(s, h.request, h.phase, works))
  {
    SignalSteady(s, h.request, h.phase, works);
    var result := Advance(s, h.request, h.phase, works);
    SteadyEntitled(s, result.0, h);
    SameStepEntitled(result.0, h.request, h.phase, result.1);
  }

  lemma LaterEntitled(s: Shared, h: Handler, works: bool)
    requires Entitled(s, h) && ChildCounted(s) && !Blocked(s, h.phase) && !h.phase.Arrived?
    ensures Admits(s, h.request, Advance(s, h.request, h.phase, works))
  {
    match h.phase
    case RootChecked =>
      CheckedEntitled(s, h.request, works);
    case Answering(step) =>
      RecordEntitled(s, h.request, step, works);
    case _ =>
      SignalEntitled(s, h, works);
  }

  lemma ResumeEntitled(s: State, e: Event)
    requires AllEntitled(s.shared, s.handlers) && ChildCounted(s.shared) && e.Resume?
    ensures Steady(s.shared, Step(s, e).shared) && AllEntitled(Step(s, e).shared, Step(s, e).handlers)
  {
    if e.id in s.handlers && !Blocked(s.shared, s.handlers[e.id].phase) {
      var h := s.handlers[e.id];
      if h.phase.Arrived? {
        AcceptEntitled(s.shared, h.request, e.works);
      } else {
        LaterEntitled(s.shared, h, e.works);
      }
      forall id <- s.handlers ensures Entitled(Step(s, e).shared, s.handlers[id]) {
        SteadyEntitled(s.shared, Step(s, e).shared, s.handlers[id]);
      }
    }
  }

  lemma StepEntitled(s: State, e: Event)
    requires AllEntitled(s.shared, s.handlers) && ChildCounted(s.shared)
    ensures AllEntitled(Step(s, e).shared, Step(s, e).handlers) && ChildCounted(Step(s, e).shared)
  {
    if e.Resume? {
      ResumeEntitled(s, e);
    } else {
      var next := Step(s, e);
      forall id <- s.handlers ensures Entitled(next.shared, s.handlers[id]) {
        SteadyEntitled(s.shared, next.shared, s.handlers[id]);
      }
    }
  }

  lemma {:induction false} RunEntitled(s: State, events: seq<Event>)
    requires AllEntitled(s.shared, s.handlers) && ChildCounted(s.shared)
    ensures AllEntitled(Run(s, events).shared, Run(s, events).handlers)
    decreases |events|
  {
    if events != [] {
      StepEntitled(s, events[0]);
      RunEntitled(Step(s, events[0]), events[1..]);
    }
  }

  /** In every run an answer goes only to the first root thread and turn, with exactly the outputs of the
      calls before it, and the closing call only to a root whose agent is the held child. */
  lemma AnswersAreEntitled(events: seq<Event>, id: nat)
    requires id in Run(BEGIN, events).handlers && Run(BEGIN, events).handlers[id].phase.Answered?
    ensures
      var s, h := Run(BEGIN, events).shared, Run(BEGIN, events).handlers[id];
      FromRoot(s, h.request, h.phase.step) && (h.phase.step == 2 ==> NamesChild(s, h.request))
  {
    RunEntitled(BEGIN, events);
    assert Entitled(Run(BEGIN, events).shared, Run(BEGIN, events).handlers[id]);
  }
}
