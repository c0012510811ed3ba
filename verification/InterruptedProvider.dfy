/** The provider of scripts/codex/collaboration_interrupted_fixture.py: handler threads that share a
    lock, one state record and four one-shot events. */
module InterruptedProvider {
  import opened Wrappers
  import opened Json

  const ROOT := "OWNED_V417_ROOT"
  const CHILD := "OWNED_V417_CHILD_HELD"
  const SPAWN := "owned-v417-spawn"
  const CLOSE := "owned-v417-close"
  const FINAL := "root_final"
  const CONTROL := "after-native-interrupted"

  const CALLS := [SPAWN, CLOSE]
  const LABELS := [SPAWN, CLOSE, FINAL]
  const INTERRUPTED := Obj([Member("previous_status", Str("interrupted"))])

  // ----- Requests

  datatype Identity = Identity(thread: string, turn: string)

  /** What `respond` reads of a request. No identity and no outputs stand for a request whose metadata
      or whose call outputs cannot be read, which raises. */
  datatype Request = Request(
    model: string,
    effort: string,
    texts: seq<string>,
    identity: Option<Identity>,
    outputs: Option<seq<Member>>)

  /** The last user text that is one of the two markers. */
  function Marker(texts: seq<string>): Option<string> {
    if texts == [] then None
    else
      var last := texts[|texts| - 1];
      if last == ROOT || last == CHILD then Some(last) else Marker(texts[..|texts| - 1])
  }

  /** The checks `respond` makes before it takes the lock. */
  predicate Readable(r: Request) {
    && r.model == "mock-model"
    && r.effort == "low"
    && Marker(r.texts).Some?
    && r.identity.Some?
    && r.outputs.Some?
  }

  predicate ForChild(r: Request) {
    Marker(r.texts) == Some(CHILD)
  }

  /** `values[SPAWN]["agent_id"]`, a text that is not empty. */
  function Agent(outputs: seq<Member>): Option<string> {
    match Get(outputs, SPAWN)
    case Some(Obj(spawned)) =>
      (match Get(spawned, "agent_id") case Some(Str(id)) => if id == "" then None else Some(id) case _ => None)
    case _ => None
  }

  // ----- The shared record

  datatype Shared = Shared(
    requests: seq<Request>,
    rootRequests: nat,
    childRequests: nat,
    rootResponses: seq<string>,
    root: Option<Identity>,
    child: Option<Identity>,
    childHeld: bool,
    rootHeld: bool,
    controls: seq<string>,
    errors: nat,
    childReady: bool,
    rootReady: bool,
    release: bool,
    closing: bool)

  /** The number of a root request that is answered. */
  type Turn = n: nat | 1 <= n <= 3 witness 1

  /** Where a handler thread stands. */
  datatype Phase =
    | Arrived
    | ChildAccepted
    | ChildWaiting
    | RootAccepted
    | RootWaiting
    | RootReleased
    | RootResumed
    | RootChecked
    | Answering(step: Turn)
    | Sending(step: Turn)
    | Failing
    | Silent
    | Refused
    | Answered(step: Turn)

  /** The first locked section: admit the request, or fail with what was written before the failing check. */
  function Accept(s: Shared, r: Request, saves: bool): (Shared, Phase) {
    if !Readable(r) || |s.requests| >= 4 then (s, Failing)
    else
      var admitted := s.(requests := s.requests + [r]);
      if ForChild(r) then AcceptChild(admitted, r, saves) else AcceptRoot(admitted, r, saves)
  }

  function AcceptChild(s: Shared, r: Request, saves: bool): (Shared, Phase)
    requires r.outputs.Some?
  {
    if r.outputs.value != [] then (s, Failing)
    else
      var counted := s.(childRequests := s.childRequests + 1);
      if counted.childRequests != 1 then (counted, Failing)
      else (counted.(child := r.identity, childHeld := true), if saves then ChildAccepted else Failing)
  }

  function AcceptRoot(s: Shared, r: Request, saves: bool): (Shared, Phase)
    requires r.outputs.Some?
  {
    var step := s.rootRequests + 1;
    var known := s.(rootRequests := step, root := if step == 1 then r.identity else s.root);
    if step > 3 || !RootFits(known.root, r, step) then (known, Failing)
    else (known.(rootHeld := known.rootHeld || step == 2), if saves then AdmittedRoot(step) else Failing)
  }

  function AdmittedRoot(step: Turn): Phase {
    if step == 2 then RootAccepted else Answering(step)
  }

  /** The same thread and turn, and exactly the outputs of the calls answered before this step. */
  predicate RootFits(root: Option<Identity>, r: Request, step: Turn)
    requires r.outputs.Some?
  {
    && r.identity == root
    && MemberNames(r.outputs.value) == CALLS[..step - 1]
    && (step >= 2 ==> Agent(r.outputs.value).Some?)
    && (step == 3 ==> Get(r.outputs.value, CLOSE) == Some(INTERRUPTED))
  }

  /** The second locked section of the held root: the control arrived and the spawned agent is the child. */
  predicate Continues(s: Shared, r: Request) {
    && s.controls == [CONTROL]
    && r.outputs.Some?
    && s.child.Some? && s.root.Some?
    && Agent(r.outputs.value) == Some(s.child.value.thread)
    && s.child.value.thread != s.root.value.thread
    && s.child.value.turn != s.root.value.turn
  }

  /** A wait on an event returns only when the event is set; every other section can always run. */
  predicate Blocked(s: Shared, phase: Phase) {
    match phase
    case ChildWaiting => !s.closing
    case RootWaiting => !s.release
    case Silent => true
    case Refused => true
    case Answered(_) => true
    case _ => false
  }

  /** One section of a handler. `works` says that the section's file or socket writes succeed. */
  function Advance(s: Shared, r: Request, phase: Phase, works: bool): (Shared, Phase)
    requires !Blocked(s, phase)
  {
    match phase
    case Arrived => Accept(s, r, works)
    case ChildAccepted => (s.(childReady := true), ChildWaiting)
    case ChildWaiting => (s, Silent)
    case RootAccepted => (s.(rootReady := true), RootWaiting)
    case RootWaiting => (s, RootReleased)
    case RootReleased => (s, if s.closing then Silent else RootResumed)
    case RootResumed => (s, if s.childReady then RootChecked else Failing)
    case RootChecked => (s, if Continues(s, r) then Answering(2) else Failing)
    case Answering(step) =>
      (s.(rootResponses := s.rootResponses + [LABELS[step - 1]]), if works then Sending(step) else Failing)
    case Sending(step) => (s, if works then Answered(step) else Failing)
    case Failing => (s.(errors := s.errors + 1), Refused)
  }

  /** The locked section of `continue_after_interrupt`; it releases the root only after it leaves the lock. */
  function Continue(s: Shared, saves: bool): (Shared, bool) {
    if !(s.childReady && s.rootReady) || s.closing || s.controls != [] then (s, false)
    else (s.(controls := s.controls + [CONTROL]), saves)
  }

  // ----- What every section keeps

  /** Root and child requests are among the accepted ones, which are at most four. */
  predicate Counted(s: Shared) {
    s.rootRequests + s.childRequests <= |s.requests| <= 4
  }

  /** The control arrived after the child was ready. */
  predicate Continued(s: Shared) {
    s.childReady && s.controls == [CONTROL]
  }

  /** There is at most one control, and a release comes from it or from closing. */
  predicate Signalled(s: Shared) {
    && (s.controls == [] || s.controls == [CONTROL])
    && (s.release ==> s.closing || Continued(s))
  }

  // ----- The object

  class Provider {
    var requests: seq<Request>
    var rootRequests: nat
    var childRequests: nat
    var rootResponses: seq<string>
    var root: Option<Identity>
    var child: Option<Identity>
    var childHeld: bool
    var rootHeld: bool
    var controls: seq<string>
    var errors: nat
    var childReady: bool
    var rootReady: bool
    var release: bool
    var closing: bool

    function View(): Shared
      reads this
    {
      Shared(requests, rootRequests, childRequests, rootResponses, root, child, childHeld, rootHeld,
             controls, errors, childReady, rootReady, release, closing)
    }

    predicate Valid()
      reads this
    {
      Counted(View()) && Signalled(View())
    }

    constructor ()
      ensures Valid() && View() == START
    {
      requests, rootRequests, childRequests, rootResponses := [], 0, 0, [];
      root, child, childHeld, rootHeld := None, None, false, false;
      controls, errors := [], 0;
      childReady, rootReady, release, closing := false, false, false, false;
    }

    /** `respond` up to its first unlock. */
    method Admit(r: Request, saves: bool) returns (phase: Phase)
      requires Valid()
      modifies this
      ensures Valid()
      ensures (View(), phase) == Advance(old(View()), r, Arrived, saves)
    {
      if !Readable(r) {
        return Failing;
      }
      if |requests| >= 4 {
        return Failing;
      }
      requests := requests + [r];
      if ForChild(r) {
        phase := AdmitChild(r, saves);
      } else {
        phase := AdmitRoot(r, saves);
      }
    }

    method AdmitChild(r: Request, saves: bool) returns (phase: Phase)
      requires r.outputs.Some? && Valid() && rootRequests + childRequests < |requests|
      modifies this
      ensures Valid()
      ensures (View(), phase) == AcceptChild(old(View()), r, saves)
    {
      if r.outputs.value != [] {
        return Failing;
      }
      childRequests := childRequests + 1;
      if childRequests != 1 {
        return Failing;
      }
      child := r.identity;
      childHeld := true;
      return if saves then ChildAccepted else Failing;
    }

    method AdmitRoot(r: Request, saves: bool) returns (phase: Phase)
      requires r.outputs.Some? && Valid() && rootRequests + childRequests < |requests|
      modifies this
      ensures Valid()
      ensures (View(), phase) == AcceptRoot(old(View()), r, saves)
    {
      rootRequests := rootRequests + 1;
      var step := rootRequests;
      if step > 3 {
        return Failing;
      }
      if step == 1 {
        root := r.identity;
      }
      if r.identity != root {
        return Failing;
      }
      if MemberNames(r.outputs.value) != CALLS[..step - 1] {
        return Failing;
      }
      if step >= 2 && Agent(r.outputs.value).None? {
        return Failing;
      }
      if step == 2 {
        rootHeld := true;
      }
      if step == 3 && Get(r.outputs.value, CLOSE) != Some(INTERRUPTED) {
        return Failing;
      }
      return if saves then AdmittedRoot(step) else Failing;
    }

    /** The rest of `respond`, one section at a time. */
    method Proceed(r: Request, phase: Phase, works: bool) returns (next: Phase)
      requires Valid() && !phase.Arrived? && !Blocked(View(), phase)
      modifies this
      ensures Valid()
      ensures (View(), next) == Advance(old(View()), r, phase, works)
    {
      match phase {
        case ChildAccepted =>
          childReady := true;
          next := ChildWaiting;
        case ChildWaiting =>
          next := Silent;
        case RootAccepted =>
          rootReady := true;
          next := RootWaiting;
        case RootWaiting =>
          next := RootReleased;
        case RootReleased =>
          next := if closing then Silent else RootResumed;
        case RootResumed =>
          next := if childReady then RootChecked else Failing;
        case RootChecked =>
          if controls != [CONTROL] || r.outputs.None? || child.None? || root.None? {
            return Failing;
          }
          if Agent(r.outputs.value) != Some(child.value.thread) {
            return Failing;
          }
          if child.value.thread == root.value.thread || child.value.turn == root.value.turn {
            return Failing;
          }
          next := Answering(2);
        case Answering(step) =>
          rootResponses := rootResponses + [LABELS[step - 1]];
          next := if works then Sending(step) else Failing;
        case Sending(step) =>
          next := if works then Answered(step) else Failing;
        case Failing =>
          errors := errors + 1;
          next := Refused;
      }
    }

    /** `continue_after_interrupt`: the release comes last, and not at all when a check or the save fails. */
    method ContinueAfterInterrupt(saves: bool) returns (ok: bool)
      requires Valid()
      modifies this
      ensures Valid()
      ensures
        var (locked, continued) := Continue(old(View()), saves);
        ok == continued && View() == if continued then locked.(release := true) else locked
    {
      if !childReady || !rootReady || closing || controls != [] {
        return false;
      }
      controls := controls + [CONTROL];
      if !saves {
        return false;
      }
      release := true;
      return true;
    }

    method Close()
      requires Valid()
      modifies this
      ensures Valid()
      ensures View() == old(View()).(closing := true, release := true)
    {
      closing := true;
      release := true;
    }
  }

  const START := Shared([], 0, 0, [], None, None, false, false, [], 0, false, false, false, false)
}
