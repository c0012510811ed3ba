/** What a cancellation stops and which request a queued output speaks of, in every run of the streams of
    scripts/codex/isolated_mcp_control_fixture.py. */
module McpStreamEffects {
  import opened Wrappers
  import opened Json
  import opened McpStreams
  import opened McpStreamRuns

  // ----- A move only adds streams and sets flags

  predicate Grown(a: map<nat, Stream>, b: map<nat, Stream>) {
    && a.Keys <= b.Keys
    && forall n <- a :: a[n].id == b[n].id && (a[n].cancelled ==> b[n].cancelled) && (a[n].closed ==> b[n].closed)
  }

  lemma GrownThen(a: map<nat, Stream>, b: map<nat, Stream>, c: map<nat, Stream>)
    requires Grown(a, b) && Grown(b, c)
    ensures Grown(a, c)
  {
  }

  lemma {:induction false} CancelGrows(f: Fixture, id: Value, number: nat, n: nat)
    ensures Grown(f.streams, CancelFrom(f, id, number).streams)
    ensures SentOf(CancelFrom(f, id, number).journal, n) == SentOf(f.journal, n)
    ensures CancelFrom(f, id, number).closing == f.closing
    decreases f.next + 1 - number
  {
    if number <= f.next {
      if number in f.streams && f.streams[number].id == id {
        SentOfMore(f.journal, Cancelled(number), n);
        CancelGrows(CancelOne(f, number), id, number + 1, n);
        GrownThen(f.streams, CancelOne(f, number).streams, CancelFrom(CancelOne(f, number), id, number + 1).streams);
      } else {
        CancelGrows(f, id, number + 1, n);
      }
    }
  }

  lemma AdvanceGrows(f: Fixture, n: nat, phase: Phase, outcome: Outcome)
    requires n in f.streams
    ensures Grown(f.streams, Advance(f, n, phase, outcome).0.streams)
  {
  }

  /** The part of the invariant needed here. */
  predicate Registered(s: State) {
    && s.phases.Keys == s.fixture.streams.Keys == s.queued.Keys
    && forall n <- s.fixture.streams :: n <= s.fixture.next
  }

  lemma InvRegisters(s: State)
    requires Inv(s)
    ensures Registered(s)
  {
    NumbersBelow(s);
  }

  lemma PutGrows(f: Fixture, n: nat, action: Action)
    requires n in f.streams
    ensures Grown(f.streams, EmitPut(f, n, action).streams) && EmitPut(f, n, action).journal == f.journal
    ensures EmitPut(f, n, action).closing == f.closing
  {
  }

  lemma CheckGrows(f: Fixture, n: nat, late: bool, action: Action, other: nat)
    requires n in f.streams
    ensures EmitCheck(f, n, late, action).0.streams == f.streams && EmitCheck(f, n, late, action).0.closing == f.closing
    ensures SentOf(EmitCheck(f, n, late, action).0.journal, other) == SentOf(f.journal, other)
  {
    SentOfMore(f.journal, LateAfterClose(n), other);
    var journal := EmitCheck(f, n, late, action).0.journal;
    assert journal == f.journal || journal == Record(f.journal, LateAfterClose(n));
  }

  lemma StepGrows(s: State, m: Move)
    requires Registered(s)
    ensures Grown(s.fixture.streams, Step(s, m).fixture.streams)
    ensures s.fixture.closing ==> Step(s, m).fixture.closing
  {
    match m
    case Resume(n, outcome) =>
      if n in s.fixture.streams {
        AdvanceGrows(s.fixture, n, s.phases[n], outcome);
        AdvanceEffect(s.fixture, n, s.phases[n], outcome);
      }
    case Cancel(id) =>
      CancelGrows(s.fixture, id, 0, 0);
    case Check =>
      if s.emission.Ready? && s.emission.number in s.fixture.streams {
        CheckGrows(s.fixture, s.emission.number, s.emission.late, s.emission.action, 0);
      }
    case Put =>
      if s.emission.Putting? && s.emission.number in s.fixture.streams {
        PutGrows(s.fixture, s.emission.number, s.emission.action);
      }
    case Open(id, _) =>
      OpenGrows(s.fixture, id);
    case CloseCancels(n) =>
      if n in s.fixture.streams {
        FlagGrows(s.fixture.streams, n, s.fixture.streams[n].(cancelled := true));
      }
    case _ =>
  }

  lemma OpenGrows(f: Fixture, id: Option<Value>)
    requires forall n <- f.streams :: n <= f.next
    ensures Grown(f.streams, OpenStream(f, id).streams) && OpenStream(f, id).closing == f.closing
  {
  }

  lemma FlagGrows(streams: map<nat, Stream>, n: nat, stream: Stream)
    requires n in streams && streams[n].id == stream.id
    requires (streams[n].cancelled ==> stream.cancelled) && (streams[n].closed ==> stream.closed)
    ensures Grown(streams, streams[n := stream])
  {
  }

  // ----- After a cancellation

  predicate Stopping(s: State, n: nat) {
    n in s.fixture.streams && n in s.phases && (s.fixture.closing || s.fixture.streams[n].cancelled)
  }

  /** How many outputs the thread may still send once its stream is cancelled: the one it is about to take or
      has taken. */
  function Quota(phase: Phase): nat {
    match phase
    case Peeking => 1
    case Taking => 1
    case Writing(_) => 1
    case Recording(_) => 1
    case _ => 0
  }

  function Due(s: State, n: nat): nat
    requires n in s.phases
  {
    |SentOf(s.fixture.journal, n)| + Quota(s.phases[n])
  }

  lemma ThreadDue(f: Fixture, n: nat, phase: Phase, outcome: Outcome)
    requires n in f.streams && (f.closing || f.streams[n].cancelled)
    ensures
      var (after, next) := Advance(f, n, phase, outcome);
      |SentOf(after.journal, n)| + Quota(next) <= |SentOf(f.journal, n)| + Quota(phase)
  {
    var row := RowOf(f.streams[n].id, n, phase);
    AdvanceEffect(f, n, phase, outcome);
    QuotaFalls(f, n, phase, outcome);
    if row.Some? {
      SentOfMore(f.journal, row.value, n);
    }
  }

  lemma QuotaFalls(f: Fixture, n: nat, phase: Phase, outcome: Outcome)
    requires n in f.streams && (f.closing || f.streams[n].cancelled)
    ensures Quota(Advance(f, n, phase, outcome).1) + (if phase.Recording? then 1 else 0) <= Quota(phase)
  {
  }

  lemma OtherDue(f: Fixture, n: nat, other: nat, phase: Phase, outcome: Outcome)
    requires other in f.streams && n != other
    ensures SentOf(Advance(f, other, phase, outcome).0.journal, n) == SentOf(f.journal, n)
  {
    var row := RowOf(f.streams[other].id, other, phase);
    AdvanceEffect(f, other, phase, outcome);
    if row.Some? {
      SentOfMore(f.journal, row.value, n);
    }
  }

  lemma ResumeDue(s: State, number: nat, outcome: Outcome, n: nat)
    requires Registered(s) && Stopping(s, n)
    ensures n in Step(s, Resume(number, outcome)).phases && Due(Step(s, Resume(number, outcome)), n) <= Due(s, n)
  {
    if number == n {
      ThreadDue(s.fixture, n, s.phases[n], outcome);
    } else if number in s.fixture.streams {
      OtherDue(s.fixture, n, number, s.phases[number], outcome);
    }
  }

  /** Only a stream's own thread sends on it. */
  lemma NothingSentBy(s: State, m: Move, n: nat)
    requires Registered(s) && n in s.phases && !m.Resume?
    ensures n in Step(s, m).phases && Step(s, m).phases[n] == s.phases[n]
    ensures SentOf(Step(s, m).fixture.journal, n) == SentOf(s.fixture.journal, n)
  {
    match m
    case Open(_, _) =>
      SentOfMore(s.fixture.journal, Opened(s.fixture.next + 1), n);
    case Cancel(id) =>
      CancelGrows(s.fixture, id, 0, n);
    case Check =>
      if s.emission.Ready? && s.emission.number in s.fixture.streams {
        CheckGrows(s.fixture, s.emission.number, s.emission.late, s.emission.action, n);
      }
    case Put =>
      if s.emission.Putting? && s.emission.number in s.fixture.streams {
        PutGrows(s.fixture, s.emission.number, s.emission.action);
      }
    case Finish =>
      SentOfMore(s.fixture.journal, FixtureClosed, n);
    case Note(text) =>
      SentOfMore(s.fixture.journal, Other(text), n);
    case _ =>
  }

  lemma StepDue(s: State, m: Move, n: nat)
    requires Registered(s) && Stopping(s, n)
    ensures Stopping(Step(s, m), n) && Due(Step(s, m), n) <= Due(s, n)
  {
    StepGrows(s, m);
    if m.Resume? {
      ResumeDue(s, m.number, m.outcome, n);
    } else {
      NothingSentBy(s, m, n);
    }
  }

  lemma {:induction false} RunDue(s: State, moves: seq<Move>, n: nat)
    requires Inv(s) && Stopping(s, n)
    ensures Stopping(Run(s, moves), n) && Due(Run(s, moves), n) <= Due(s, n)
    decreases |moves|
  {
    if moves != [] {
      InvRegisters(s);
      StepDue(s, moves[0], n);
      StepKeeps(s, moves[0]);
      RunDue(Step(s, moves[0]), moves[1..], n);
    }
  }

  /** Once a stream is cancelled, or the fixture is closing, at most one more output is sent on it, whatever
      is queued and however the run goes on. */
  lemma AtMostOneAfterCancel(moves: seq<Move>, more: seq<Move>, n: nat)
    requires Stopping(Run(BEGIN, moves), n)
    ensures
      var before, after := Run(BEGIN, moves), Run(Run(BEGIN, moves), more);
      |SentOf(after.fixture.journal, n)| <= |SentOf(before.fixture.journal, n)| + 1
  {
    RunKeeps(BEGIN, moves);
    RunDue(Run(BEGIN, moves), more, n);
  }

  // ----- Whom an output speaks of

  ghost predicate FromStale(streams: map<nat, Stream>, n: nat, id: Value) {
    exists m :: 0 <= m < n && m in streams && streams[m].cancelled && streams[m].id == id
  }

  /** A notification carries its stream's request, but for the wrong, missing and late ones. */
  ghost predicate Addressed(streams: map<nat, Stream>, n: nat, action: Action)
    requires n in streams
  {
    match action
    case Complete => true
    case Notice(WrongId, subscription) => subscription == Some(UNRELATED)
    case Notice(MissingId, subscription) => subscription == None
    case Notice(Late, subscription) => subscription.Some? && FromStale(streams, n, subscription.value)
    case Notice(_, subscription) => subscription == Some(streams[n].id)
  }

  ghost predicate AllAddressed(streams: map<nat, Stream>, n: nat, queued: seq<Action>) {
    n in streams && forall i :: 0 <= i < |queued| ==> Addressed(streams, n, queued[i])
  }

  /** An output that is not addressed so is the late sentinel of a closed stream, which is never queued. */
  ghost predicate EmissionFits(streams: map<nat, Stream>, emission: Emission) {
    match emission
    case Idle => true
    case Scanning(n) => n in streams
    case Ready(n, late, action) => n in streams && (Addressed(streams, n, action) || streams[n].closed)
    case Putting(n, action) => n in streams && Addressed(streams, n, action)
  }

  ghost predicate QueuesFit(s: State) {
    && EmissionFits(s.fixture.streams, s.emission)
    && forall n <- s.queued :: AllAddressed(s.fixture.streams, n, s.queued[n])
  }

  lemma StillAddressed(a: map<nat, Stream>, b: map<nat, Stream>, n: nat, action: Action)
    requires Grown(a, b) && n in a && Addressed(a, n, action)
    ensures Addressed(b, n, action)
  {
    if action.Notice? && action.kind.Late? {
      var m :| 0 <= m < n && m in a && a[m].cancelled && a[m].id == action.subscription.value;
      assert m in b && b[m].cancelled && b[m].id == action.subscription.value;
    }
  }

  lemma StillAllAddressed(a: map<nat, Stream>, b: map<nat, Stream>, n: nat, queued: seq<Action>)
    requires Grown(a, b) && AllAddressed(a, n, queued)
    ensures AllAddressed(b, n, queued)
  {
    forall i | 0 <= i < |queued| ensures Addressed(b, n, queued[i]) {
      StillAddressed(a, b, n, queued[i]);
    }
  }

  lemma EmissionGrows(a: map<nat, Stream>, b: map<nat, Stream>, emission: Emission)
    requires Grown(a, b) && EmissionFits(a, emission)
    ensures EmissionFits(b, emission)
  {
    if (emission.Ready? || emission.Putting?) && Addressed(a, emission.number, emission.action) {
      StillAddressed(a, b, emission.number, emission.action);
    }
  }

  lemma ScanAddressed(f: Fixture, n: nat)
    requires n in f.streams
    ensures EmissionFits(f.streams, EmitScan(f, n))
  {
    StaleIsCancelled(f.streams, n);
  }

  lemma BeginAddressed(f: Fixture, n: nat, kind: Option<Kind>)
    ensures EmissionFits(f.streams, EmitBegin(f, n, kind))
  {
  }

  lemma CheckAddressed(f: Fixture, n: nat, late: bool, action: Action)
    requires EmissionFits(f.streams, Ready(n, late, action))
    ensures
      var (after, emission) := EmitCheck(f, n, late, action);
      EmissionFits(after.streams, emission)
  {
  }

  lemma PutAddressed(s: State)
    requires Registered(s) && QueuesFit(s) && s.emission.Putting?
    ensures QueuesFit(Step(s, Put))
  {
    var n, next := s.emission.number, Step(s, Put);
    PutGrows(s.fixture, n, s.emission.action);
    StillAddressed(s.fixture.streams, next.fixture.streams, n, s.emission.action);
    forall k <- s.queued ensures AllAddressed(next.fixture.streams, k, s.queued[k]) {
      StillAllAddressed(s.fixture.streams, next.fixture.streams, k, s.queued[k]);
    }
  }

  lemma StepQueuesFit(s: State, m: Move)
    requires Registered(s) && QueuesFit(s)
    ensures QueuesFit(Step(s, m))
  {
    if m.Put? {
      if s.emission.Putting? {
        PutAddressed(s);
      }
    } else {
      StepEmission(s, m);
      var next := Step(s, m);
      StepGrows(s, m);
      StepQueued(s, m);
      forall n <- next.queued ensures AllAddressed(next.fixture.streams, n, next.queued[n]) {
        if n in s.queued {
          StillAllAddressed(s.fixture.streams, next.fixture.streams, n, s.queued[n]);
        }
      }
    }
  }

  lemma StepQueued(s: State, m: Move)
    requires Registered(s) && !m.Put?
    ensures forall n <- Step(s, m).queued ::
      if n in s.queued then Step(s, m).queued[n] == s.queued[n]
      else n in Step(s, m).fixture.streams && Step(s, m).queued[n] == []
  {
  }

  lemma StepEmission(s: State, m: Move)
    requires Registered(s) && EmissionFits(s.fixture.streams, s.emission) && !m.Put?
    ensures EmissionFits(Step(s, m).fixture.streams, Step(s, m).emission)
  {
    match m
    case Begin(n, kind) =>
      BeginAddressed(s.fixture, n, kind);
    case Scan =>
      if s.emission.Scanning? {
        ScanAddressed(s.fixture, s.emission.number);
      }
    case Check =>
      if s.emission.Ready? {
        CheckAddressed(s.fixture, s.emission.number, s.emission.late, s.emission.action);
      }
    case _ =>
      StepGrows(s, m);
      EmissionGrows(s.fixture.streams, Step(s, m).fixture.streams, s.emission);
  }

  lemma {:induction false} RunQueuesFit(s: State, moves: seq<Move>)
    requires Inv(s) && QueuesFit(s)
    ensures QueuesFit(Run(s, moves))
    decreases |moves|
  {
    if moves != [] {
      InvRegisters(s);
      StepQueuesFit(s, moves[0]);
      StepKeeps(s, moves[0]);
      RunQueuesFit(Step(s, moves[0]), moves[1..]);
    }
  }

  /** In every run whatever is queued for a stream speaks of that stream's request; a late sentinel speaks of
      the request of a stream that was opened before it and is cancelled. */
  lemma QueuedIsAddressed(moves: seq<Move>, n: nat, i: nat)
    requires n in Run(BEGIN, moves).queued && i < |Run(BEGIN, moves).queued[n]|
    ensures n in Run(BEGIN, moves).fixture.streams
    ensures Addressed(Run(BEGIN, moves).fixture.streams, n, Run(BEGIN, moves).queued[n][i])
  {
    RunQueuesFit(BEGIN, moves);
    assert AllAddressed(Run(BEGIN, moves).fixture.streams, n, Run(BEGIN, moves).queued[n]);
  }
}
