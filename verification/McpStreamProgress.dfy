/** What the streams of scripts/codex/isolated_mcp_control_fixture.py do bring about: what is queued is sent, and a stream
    that is cancelled comes to its end. */
module McpStreamProgress {
  import opened Wrappers
  import opened Json
  import opened McpStreams
  import opened McpStreamRuns
  import opened McpStreamEffects

  function Turns(moves: seq<Move>, n: nat): nat {
    if moves == [] then 0
    else (if moves[0].Resume? && moves[0].number == n then 1 else 0) + Turns(moves[1..], n)
  }

  // ----- What is queued is sent

  /** The fixture is not closed, this request is not cancelled, and the thread's sections work. */
  predicate Undisturbed(m: Move, n: nat, id: Value) {
    && !m.StartClose?
    && (m.Cancel? ==> m.request != id)
    && (m.Resume? && m.number == n ==> m.outcome.Works?)
  }

  /** The first `goal` actions ever queued, of which only the last may complete the stream, are sent or still to be sent
      by a thread that lives. */
  predicate Serving(s: State, n: nat, goal: nat) {
    && n in s.fixture.streams && n in s.phases && n in s.queued && !s.fixture.closing
    && goal <= |s.queued[n]|
    && (forall i :: 0 <= i < goal - 1 ==> !s.queued[n][i].Complete?)
    && (|SentOf(s.fixture.journal, n)| >= goal || (Live(s.phases[n]) && !s.fixture.streams[n].cancelled))
  }

  function Rank(phase: Phase): nat {
    match phase
    case Heading => 5
    case Looping => 4
    case Peeking => 3
    case Taking => 2
    case Writing(_) => 1
    case _ => 0
  }

  function Distance(s: State, n: nat, goal: nat): nat
    requires n in s.phases
  {
    var sent := |SentOf(s.fixture.journal, n)|;
    if sent >= goal then 0 else 5 * (goal - sent) + Rank(s.phases[n])
  }

  /** One working section of the thread. */
  lemma WorksOn(f: Fixture, n: nat, phase: Phase, queued: seq<Action>, goal: nat)
    requires n in f.streams && Fits(f, n, phase, queued) && Live(phase) && !f.streams[n].cancelled && !f.closing
    requires |SentOf(f.journal, n)| < goal <= |queued| && forall i :: 0 <= i < goal - 1 ==> !queued[i].Complete?
    ensures
      var (after, next) := Advance(f, n, phase, Works);
      var sent := |SentOf(after.journal, n)|;
      && n in after.streams && !after.closing && !after.streams[n].cancelled
      && (sent >= goal || (Live(next) && 5 * (goal - sent) + Rank(next) < 5 * (goal - |SentOf(f.journal, n)|) + Rank(phase)))
  {
    var (after, next) := Advance(f, n, phase, Works);
    match phase
    case Recording(action) =>
      SentOfMore(f.journal, Sent(n, Render(f.streams[n].id, action)), n);
      assert queued[|SentOf(f.journal, n)|] == action;
    case Taking =>
      assert f.streams[n].queue != [];
    case _ =>
  }

  lemma ResumeServes(s: State, n: nat, goal: nat)
    requires Inv(s) && Serving(s, n, goal) && |SentOf(s.fixture.journal, n)| < goal
    ensures Serving(Step(s, Resume(n, Works)), n, goal)
    ensures Distance(Step(s, Resume(n, Works)), n, goal) < Distance(s, n, goal)
  {
    assert Fits(s.fixture, n, s.phases[n], s.queued[n]);
    WorksOn(s.fixture, n, s.phases[n], s.queued[n], goal);
  }

  /** Nothing recorded as sent is taken back. */
  lemma SentStays(s: State, number: nat, outcome: Outcome, n: nat)
    requires Registered(s) && n in s.phases
    ensures |SentOf(Step(s, Resume(number, outcome)).fixture.journal, n)| >= |SentOf(s.fixture.journal, n)|
  {
    if number in s.fixture.streams && number in s.phases {
      var row := RowOf(s.fixture.streams[number].id, number, s.phases[number]);
      AdvanceEffect(s.fixture, number, s.phases[number], outcome);
      if row.Some? {
        SentOfMore(s.fixture.journal, row.value, n);
      }
    }
  }

  lemma OtherResumeServes(s: State, number: nat, outcome: Outcome, n: nat, goal: nat)
    requires Inv(s) && Serving(s, n, goal) && number != n
    ensures Serving(Step(s, Resume(number, outcome)), n, goal)
    ensures Distance(Step(s, Resume(number, outcome)), n, goal) == Distance(s, n, goal)
  {
    if number in s.fixture.streams && number in s.phases {
      OtherDue(s.fixture, n, number, s.phases[number], outcome);
      AdvanceEffect(s.fixture, number, s.phases[number], outcome);
    }
  }

  /** The other moves leave the thread, its flag and what it was to send alone. */
  lemma OtherServes(s: State, m: Move, n: nat, goal: nat)
    requires Inv(s) && Serving(s, n, goal) && !m.Resume? && Undisturbed(m, n, s.fixture.streams[n].id)
    ensures Serving(Step(s, m), n, goal) && Distance(Step(s, m), n, goal) == Distance(s, n, goal)
  {
    InvRegisters(s);
    NothingSentBy(s, m, n);
    OtherLeaves(s, m, n);
  }

  predicate LeavesAlone(s: State, next: State, n: nat)
    requires n in s.fixture.streams && n in s.queued
  {
    && n in next.fixture.streams && n in next.queued && !next.fixture.closing
    && next.fixture.streams[n].cancelled == s.fixture.streams[n].cancelled
    && s.queued[n] <= next.queued[n]
  }

  lemma OtherLeaves(s: State, m: Move, n: nat)
    requires Inv(s) && n in s.fixture.streams && n in s.queued && !s.fixture.closing
    requires !m.Resume? && Undisturbed(m, n, s.fixture.streams[n].id)
    ensures LeavesAlone(s, Step(s, m), n)
  {
    InvRegisters(s);
    match m
    case Cancel(id) =>
      CancelExactly(s.fixture, id);
    case Put =>
      if s.emission.Putting? && s.emission.number in s.fixture.streams {
        PutGrows(s.fixture, s.emission.number, s.emission.action);
      }
    case Check =>
      if s.emission.Ready? && s.emission.number in s.fixture.streams {
        CheckGrows(s.fixture, s.emission.number, s.emission.late, s.emission.action, n);
      }
    case _ =>
  }

  lemma IdStays(s: State, m: Move, n: nat)
    requires Inv(s) && n in s.fixture.streams
    ensures n in Step(s, m).fixture.streams && Step(s, m).fixture.streams[n].id == s.fixture.streams[n].id
  {
    InvRegisters(s);
    StepGrows(s, m);
  }

  lemma StepServes(s: State, m: Move, n: nat, goal: nat)
    requires Inv(s) && Serving(s, n, goal) && Undisturbed(m, n, s.fixture.streams[n].id)
    ensures Serving(Step(s, m), n, goal)
    ensures
      var before, after := Distance(s, n, goal), Distance(Step(s, m), n, goal);
      if m.Resume? && m.number == n then after < before || (before == 0 && after == 0) else after <= before
  {
    if !m.Resume? {
      OtherServes(s, m, n, goal);
    } else if m.number != n {
      OtherResumeServes(s, m.number, m.outcome, n, goal);
    } else if |SentOf(s.fixture.journal, n)| < goal {
      ResumeServes(s, n, goal);
    } else {
      InvRegisters(s);
      SentStays(s, n, m.outcome, n);
      AdvanceEffect(s.fixture, n, s.phases[n], m.outcome);
    }
  }

  lemma {:induction false} RunServes(s: State, moves: seq<Move>, n: nat, goal: nat)
    requires Inv(s) && Serving(s, n, goal)
    requires forall m <- moves :: Undisturbed(m, n, s.fixture.streams[n].id)
    ensures n in Run(s, moves).phases
    ensures
      var left := Distance(Run(s, moves), n, goal);
      left == 0 || left + Turns(moves, n) <= Distance(s, n, goal)
    decreases |moves|
  {
    if moves != [] {
      StepServes(s, moves[0], n, goal);
      StepKeeps(s, moves[0]);
      IdStays(s, moves[0], n);
      RunServes(Step(s, moves[0]), moves[1..], n, goal);
    }
  }

  /** In every run: the first actions queued for a stream whose thread lives, up to a completion, are sent after
      enough undisturbed turns of its thread, whatever else runs in between. */
  lemma QueuedIsSent(moves: seq<Move>, more: seq<Move>, n: nat, goal: nat)
    requires
      var s := Run(BEGIN, moves);
      && n in s.fixture.streams && n in s.phases && n in s.queued
      && !s.fixture.closing && !s.fixture.streams[n].cancelled && Live(s.phases[n])
      && goal <= |s.queued[n]| && (forall i :: 0 <= i < goal - 1 ==> !s.queued[n][i].Complete?)
      && (forall m <- more :: Undisturbed(m, n, s.fixture.streams[n].id))
    requires Turns(more, n) >= 5 * goal + 5
    ensures |SentOf(Run(Run(BEGIN, moves), more).fixture.journal, n)| >= goal
  {
    RunKeeps(BEGIN, moves);
    RunServes(Run(BEGIN, moves), more, n, goal);
  }

  // ----- A stream stays open

  /** Of a stream of this request these were queued first, and its thread lives unless a completion was queued. */
  predicate Attending(s: State, n: nat, id: Value, first: seq<Action>) {
    && n in s.fixture.streams && n in s.phases && n in s.queued && !s.fixture.closing
    && s.fixture.streams[n].id == id && first <= s.queued[n]
    && (Complete in s.queued[n] || (Live(s.phases[n]) && !s.fixture.streams[n].cancelled))
  }

  lemma WorksAttended(f: Fixture, n: nat, phase: Phase, queued: seq<Action>)
    requires n in f.streams && Fits(f, n, phase, queued) && Live(phase) && !f.streams[n].cancelled && !f.closing
    ensures
      var (after, next) := Advance(f, n, phase, Works);
      && n in after.streams && !after.streams[n].cancelled && (Live(next) || Complete in queued)
  {
    if phase.Recording? {
      assert queued[|SentOf(f.journal, n)|] == phase.action;
    }
  }

  lemma StepAttends(s: State, m: Move, n: nat, id: Value, first: seq<Action>)
    requires Inv(s) && Attending(s, n, id, first) && Undisturbed(m, n, id)
    ensures Attending(Step(s, m), n, id, first)
  {
    InvRegisters(s);
    IdStays(s, m, n);
    if !m.Resume? {
      NothingSentBy(s, m, n);
      OtherLeaves(s, m, n);
    } else if m.number in s.fixture.streams && m.number in s.phases {
      AdvanceEffect(s.fixture, m.number, s.phases[m.number], m.outcome);
      assert Fits(s.fixture, n, s.phases[n], s.queued[n]);
      if m.number == n && Complete !in s.queued[n] {
        WorksAttended(s.fixture, n, s.phases[n], s.queued[n]);
      }
    }
  }

  lemma {:induction false} RunAttends(s: State, moves: seq<Move>, n: nat, id: Value, first: seq<Action>)
    requires Inv(s) && Attending(s, n, id, first) && forall m <- moves :: Undisturbed(m, n, id)
    ensures Attending(Run(s, moves), n, id, first)
    decreases |moves|
  {
    if moves != [] {
      StepAttends(s, moves[0], n, id, first);
      StepKeeps(s, moves[0]);
      RunAttends(Step(s, moves[0]), moves[1..], n, id, first);
    }
  }

  /** In every run: a thread that lives goes on, also with nothing queued, until a completion is queued for its stream,
      as long as its sections work and neither its request is cancelled nor the fixture closed. */
  lemma OpenStaysOpen(moves: seq<Move>, more: seq<Move>, n: nat)
    requires
      var s := Run(BEGIN, moves);
      && n in s.fixture.streams && n in s.phases && n in s.queued
      && !s.fixture.closing && !s.fixture.streams[n].cancelled && Live(s.phases[n])
      && (forall m <- more :: Undisturbed(m, n, s.fixture.streams[n].id))
    ensures
      var s := Run(Run(BEGIN, moves), more);
      n in s.phases && n in s.queued && (Live(s.phases[n]) || Complete in s.queued[n])
  {
    var s := Run(BEGIN, moves);
    RunKeeps(BEGIN, moves);
    RunAttends(s, more, n, s.fixture.streams[n].id, []);
  }

  // ----- A new stream is served

  /** What is sent for a kind of emission to a stream of this request. */
  predicate Answers(output: Output, kind: Option<Kind>, id: Value) {
    match kind
    case None => output == Result(id)
    case Some(k) =>
      output == Notification(k, if k == WrongId then Some(Str("owned-unrelated-request"))
                                else if k == MissingId then None else Some(id))
  }

  /** The four moves of a request and of an emission to its stream. */
  function Serve(s: State, id: Value, kind: Option<Kind>): State {
    var n := s.fixture.next + 1;
    Step(Step(Step(Step(s, Open(Some(id), true)), Begin(n, kind)), Check), Put)
  }

  /** The fixture takes requests, and no emission is under way. */
  predicate Free(s: State) {
    !s.stopped && !s.fixture.closing && s.emission.Idle?
  }

  /** A stream with one action queued, whose thread lives. */
  predicate Waits(s: State, n: nat, id: Value, action: Action) {
    && Inv(s) && Attending(s, n, id, [action]) && Live(s.phases[n]) && !s.fixture.streams[n].cancelled
  }

  lemma ServeQueues(s: State, id: Value, kind: Option<Kind>)
    requires Inv(s) && Free(s) && kind != Some(Late)
    ensures Waits(Serve(s, id, kind), s.fixture.next + 1, id, ActionOf(kind, id))
  {
    var n := s.fixture.next + 1;
    var registered := Step(s, Open(Some(id), true));
    var begun := Step(registered, Begin(n, kind));
    StepKeeps(s, Open(Some(id), true));
    StepKeeps(registered, Begin(n, kind));
    StepKeeps(begun, Check);
    StepKeeps(Step(begun, Check), Put);
    assert registered.fixture.streams[n] == Stream(id, [], false, false) && registered.queued[n] == [];
    assert begun.emission == Ready(n, false, ActionOf(kind, id));
    assert Step(begun, Check).emission == Putting(n, ActionOf(kind, id));
  }

  predicate SentFirst(s: State, n: nat, id: Value, action: Action) {
    var sent := SentOf(s.fixture.journal, n);
    sent != [] && Shows(sent[0], id, action)
  }

  lemma QueuedIsFirst(s: State, n: nat, id: Value, action: Action)
    requires Inv(s) && Attending(s, n, id, [action]) && SentOf(s.fixture.journal, n) != []
    ensures SentFirst(s, n, id, action)
  {
    assert Fits(s.fixture, n, s.phases[n], s.queued[n]);
    assert s.queued[n][0] == action;
  }

  lemma AttendedIsSent(s: State, more: seq<Move>, n: nat, id: Value, action: Action)
    requires Waits(s, n, id, action) && (forall m <- more :: Undisturbed(m, n, id)) && Turns(more, n) >= 10
    ensures SentFirst(Run(s, more), n, id, action)
  {
    RunServes(s, more, n, 1);
    RunAttends(s, more, n, id, [action]);
    RunKeeps(s, more);
    QueuedIsFirst(Run(s, more), n, id, action);
  }

  predicate Answered(s: State, n: nat, id: Value, kind: Option<Kind>) {
    var sent := SentOf(s.fixture.journal, n);
    sent != [] && Answers(sent[0], kind, id)
  }

  lemma WaitingIsAnswered(s: State, more: seq<Move>, n: nat, id: Value, kind: Option<Kind>)
    requires Waits(s, n, id, ActionOf(kind, id)) && (forall m <- more :: Undisturbed(m, n, id)) && Turns(more, n) >= 10
    ensures Answered(Run(s, more), n, id, kind)
  {
    AttendedIsSent(s, more, n, id, ActionOf(kind, id));
  }

  lemma ServeAnswers(s: State, id: Value, kind: Option<Kind>, more: seq<Move>)
    requires Inv(s) && Free(s) && kind != Some(Late)
    requires (forall m <- more :: Undisturbed(m, s.fixture.next + 1, id)) && Turns(more, s.fixture.next + 1) >= 10
    ensures Answered(Run(Serve(s, id, kind), more), s.fixture.next + 1, id, kind)
  {
    ServeQueues(s, id, kind);
    WaitingIsAnswered(Serve(s, id, kind), more, s.fixture.next + 1, id, kind);
  }

  ghost predicate Reachable(s: State) {
    exists moves :: Run(BEGIN, moves) == s
  }

  lemma ReachableKeeps(s: State)
    requires Reachable(s)
    ensures Inv(s)
  {
    var moves :| Run(BEGIN, moves) == s;
    RunKeeps(BEGIN, moves);
  }

  /** In every run: a request that comes before closing opens a stream, and the first emission to it is what the stream
      sends first, after ten turns in which its sections work and neither is it cancelled nor the fixture closed. */
  lemma RequestIsServed(s: State, id: Value, kind: Option<Kind>, more: seq<Move>)
    requires Reachable(s) && Free(s) && kind != Some(Late)
    requires (forall m <- more :: Undisturbed(m, s.fixture.next + 1, id)) && Turns(more, s.fixture.next + 1) >= 10
    ensures Answered(Run(Serve(s, id, kind), more), s.fixture.next + 1, id, kind)
  {
    ReachableKeeps(s);
    ServeAnswers(s, id, kind, more);
  }

  // ----- A cancelled stream ends

  /** How many sections the thread of a stopping stream can still run. */
  function Left(phase: Phase): nat {
    match phase
    case Heading => 8
    case Peeking => 7
    case Taking => 6
    case Writing(_) => 5
    case Recording(_) => 4
    case Looping => 3
    case Losing => 3
    case Dropping => 3
    case Leaving => 2
    case Noting => 1
    case Ended => 0
  }

  ghost predicate ClosedRow(journal: seq<Row>, n: nat) {
    exists i :: 0 <= i < |journal| && journal[i].event == Closed(n)
  }

  /** A thread that left its loop has marked its stream closed, and when it has ended that is recorded. */
  ghost predicate Marked(f: Fixture, n: nat, phase: Phase)
    requires n in f.streams
  {
    && (phase.Noting? || phase.Ended? ==> f.streams[n].closed)
    && (phase.Ended? ==> ClosedRow(f.journal, n))
  }

  lemma RowStays(journal: seq<Row>, e: Event, n: nat)
    ensures ClosedRow(journal, n) || e == Closed(n) ==> ClosedRow(Record(journal, e), n)
  {
    var more := Record(journal, e);
    if ClosedRow(journal, n) {
      var i :| 0 <= i < |journal| && journal[i].event == Closed(n);
      assert more[i] == journal[i];
    } else if e == Closed(n) {
      assert more[|journal|].event == e;
    }
  }

  lemma ThreadEnds(f: Fixture, n: nat, phase: Phase, outcome: Outcome)
    requires n in f.streams && (f.closing || f.streams[n].cancelled)
    ensures Left(Advance(f, n, phase, outcome).1) < Left(phase) || phase.Ended?
  {
  }

  lemma ThreadMarks(f: Fixture, n: nat, phase: Phase, outcome: Outcome)
    requires n in f.streams && Marked(f, n, phase) && !phase.Heading?
    ensures
      var (after, next) := Advance(f, n, phase, outcome);
      n in after.streams && Marked(after, n, next) && !next.Heading?
  {
    var row := RowOf(f.streams[n].id, n, phase);
    AdvanceEffect(f, n, phase, outcome);
    if row.Some? {
      RowStays(f.journal, row.value, n);
    }
  }

  lemma {:induction false} CancelOnlyAdds(f: Fixture, id: Value)
    requires forall n <- f.streams :: n <= f.next
    ensures f.journal <= CancelFrom(f, id, 0).journal
  {
    CancelExactly(f, id);
    var numbers: seq<nat> :|
      Lists(numbers, f.streams, id, 0) && Adds(f.journal, CancelFrom(f, id, 0).journal, numbers);
  }

  lemma JournalGrows(s: State, m: Move)
    requires Registered(s) && !m.Resume?
    ensures s.fixture.journal <= Step(s, m).fixture.journal
  {
    if m.Cancel? {
      CancelOnlyAdds(s.fixture, m.request);
    }
  }

  lemma OtherMarks(s: State, m: Move, n: nat)
    requires Registered(s) && n in s.phases && Marked(s.fixture, n, s.phases[n]) && !m.Resume?
    ensures n in Step(s, m).fixture.streams && Step(s, m).phases[n] == s.phases[n]
    ensures Marked(Step(s, m).fixture, n, s.phases[n])
  {
    StepGrows(s, m);
    NothingSentBy(s, m, n);
    JournalGrows(s, m);
    if ClosedRow(s.fixture.journal, n) {
      var i :| 0 <= i < |s.fixture.journal| && s.fixture.journal[i].event == Closed(n);
      assert Step(s, m).fixture.journal[i] == s.fixture.journal[i];
    }
  }

  lemma OtherThreadMarks(s: State, number: nat, outcome: Outcome, n: nat)
    requires Registered(s) && n in s.phases && Marked(s.fixture, n, s.phases[n]) && number != n
    ensures
      var next := Step(s, Resume(number, outcome));
      n in next.fixture.streams && next.phases[n] == s.phases[n] && Marked(next.fixture, n, s.phases[n])
  {
    if number in s.fixture.streams && number in s.phases {
      var row := RowOf(s.fixture.streams[number].id, number, s.phases[number]);
      AdvanceEffect(s.fixture, number, s.phases[number], outcome);
      if row.Some? {
        RowStays(s.fixture.journal, row.value, n);
      }
    }
  }

  ghost predicate Ending(s: State, n: nat) {
    Stopping(s, n) && !s.phases[n].Heading? && Marked(s.fixture, n, s.phases[n])
  }

  lemma StepEnds(s: State, m: Move, n: nat)
    requires Inv(s) && Ending(s, n)
    ensures Ending(Step(s, m), n)
    ensures
      var before, after := Left(s.phases[n]), Left(Step(s, m).phases[n]);
      if m.Resume? && m.number == n then after < before || (before == 0 && after == 0) else after <= before
  {
    InvRegisters(s);
    StepGrows(s, m);
    if !m.Resume? {
      OtherMarks(s, m, n);
    } else if m.number != n {
      OtherThreadMarks(s, m.number, m.outcome, n);
    } else {
      ThreadEnds(s.fixture, n, s.phases[n], m.outcome);
      ThreadMarks(s.fixture, n, s.phases[n], m.outcome);
    }
  }

  lemma {:induction false} RunEnds(s: State, moves: seq<Move>, n: nat)
    requires Inv(s) && Ending(s, n)
    ensures Ending(Run(s, moves), n)
    ensures
      var left := Left(Run(s, moves).phases[n]);
      left == 0 || left + Turns(moves, n) <= Left(s.phases[n])
    decreases |moves|
  {
    if moves != [] {
      StepEnds(s, moves[0], n);
      StepKeeps(s, moves[0]);
      RunEnds(Step(s, moves[0]), moves[1..], n);
    }
  }

  /** In every run: once a stream is cancelled, or the fixture is closing, a thread that is in its loop or leaving it
      ends in seven turns, whatever happens in them and in between; then the stream is marked closed and that is recorded. */
  lemma StoppedStreamEnds(moves: seq<Move>, more: seq<Move>, n: nat)
    requires Stopping(Run(BEGIN, moves), n) && 2 <= Left(Run(BEGIN, moves).phases[n]) <= 7
    requires Turns(more, n) >= 7
    ensures
      var s := Run(Run(BEGIN, moves), more);
      && n in s.phases && s.phases[n] == Ended && n in s.fixture.streams && s.fixture.streams[n].closed
      && exists i :: 0 <= i < |s.fixture.journal| && s.fixture.journal[i].event == Closed(n)
  {
    RunKeeps(BEGIN, moves);
    RunEnds(Run(BEGIN, moves), more, n);
    assert ClosedRow(Run(Run(BEGIN, moves), more).fixture.journal, n);
  }

  /** In every run: when the request of a stream is cancelled, or the fixture is closed, a thread that is in its loop ends
      in seven turns, whatever happens in them and in between. */
  lemma CancelledStreamEnds(s: State, m: Move, more: seq<Move>, n: nat)
    requires Reachable(s) && Looks(s, n) && Stops(s, m, n) && Turns(more, n) >= 7
    ensures HasEnded(Run(Step(s, m), more), n)
  {
    ReachableKeeps(s);
    StopEnds(s, m, more, n);
  }

  predicate Looks(s: State, n: nat) {
    n in s.fixture.streams && n in s.phases && Live(s.phases[n]) && !s.phases[n].Heading?
  }

  predicate Stops(s: State, m: Move, n: nat)
    requires n in s.fixture.streams
  {
    m == StartClose || m == Cancel(s.fixture.streams[n].id)
  }

  predicate HasEnded(s: State, n: nat) {
    n in s.phases && s.phases[n] == Ended && n in s.fixture.streams && s.fixture.streams[n].closed
  }

  lemma StopStarts(s: State, m: Move, n: nat)
    requires Inv(s) && Looks(s, n) && Stops(s, m, n)
    ensures Ending(Step(s, m), n) && Step(s, m).phases == s.phases
  {
    InvRegisters(s);
    if m.Cancel? {
      CancelExactly(s.fixture, m.request);
    }
  }

  lemma StopEnds(s: State, m: Move, more: seq<Move>, n: nat)
    requires Inv(s) && Looks(s, n) && Stops(s, m, n) && Turns(more, n) >= 7
    ensures HasEnded(Run(Step(s, m), more), n)
  {
    StepKeeps(s, m);
    StopStarts(s, m, n);
    EndingEnds(Step(s, m), more, n);
  }

  lemma EndingEnds(s: State, more: seq<Move>, n: nat)
    requires Inv(s) && Ending(s, n) && Left(s.phases[n]) <= 7 && Turns(more, n) >= 7
    ensures HasEnded(Run(s, more), n)
  {
    RunEnds(s, more, n);
  }
}
