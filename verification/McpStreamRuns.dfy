/** Every run of the MCP event streams of scripts/codex/isolated_mcp_control_fixture.py: streams open, are
    cancelled and closed, the control thread emits and other threads record, in any order. */
module McpStreamRuns {
  import opened Wrappers
  import opened Json
  import opened McpStreams

  /** `queued` is the history of what was put into each stream's queue. */
  datatype State = State(
    fixture: Fixture,
    phases: map<nat, Phase>,
    queued: map<nat, seq<Action>>,
    emission: Emission,
    stopped: bool)

  datatype Move =
    | Open(id: Option<Value>, saves: bool)
    | Resume(number: nat, outcome: Outcome)
    | Cancel(request: Value)
    | Begin(number: nat, kind: Option<Kind>)
    | Scan
    | Check
    | Put
    | StartClose
    | CloseCancels(number: nat)
    | Shutdown
    | Finish
    | Note(text: string)

  /** What one move does; a move that cannot happen now does nothing. */
  function Step(s: State, m: Move): State {
    var f := s.fixture;
    match m
    case Open(id, saves) =>
      if s.stopped then s
      else
        var number, after := f.next + 1, OpenStream(f, id);
        if id.None? then s.(fixture := after)
        else s.(fixture := after,
                phases := s.phases[number := if saves then Heading else Ended],
                queued := s.queued[number := []])
    case Resume(number, outcome) =>
      if number !in f.streams || number !in s.phases then s
      else
        var (after, phase) := Advance(f, number, s.phases[number], outcome);
        s.(fixture := after, phases := s.phases[number := phase])
    case Cancel(id) => s.(fixture := CancelFrom(f, id, 0))
    case Begin(number, kind) => if s.emission.Idle? then s.(emission := EmitBegin(f, number, kind)) else s
    case Scan => if s.emission.Scanning? then s.(emission := EmitScan(f, s.emission.number)) else s
    case Check =>
      if !s.emission.Ready? || s.emission.number !in f.streams then s
      else
        var (after, emission) := EmitCheck(f, s.emission.number, s.emission.late, s.emission.action);
        s.(fixture := after, emission := emission)
    case Put =>
      if !s.emission.Putting? || s.emission.number !in f.streams || s.emission.number !in s.queued then s
      else
        var number, action := s.emission.number, s.emission.action;
        var full := |f.streams[number].queue| >= CAPACITY;
        s.(fixture := EmitPut(f, number, action), emission := Idle,
           queued := if full then s.queued else s.queued[number := s.queued[number] + [action]])
    case StartClose => s.(fixture := f.(closing := true))
    case CloseCancels(number) =>
      if f.closing && number in f.streams then
        s.(fixture := f.(streams := f.streams[number := f.streams[number].(cancelled := true)]))
      else s
    case Shutdown => if f.closing then s.(stopped := true) else s
    case Finish =>
      if s.stopped && forall n <- s.phases :: s.phases[n] == Ended then
        s.(fixture := f.(journal := Record(f.journal, FixtureClosed)))
      else s
    case Note(text) => s.(fixture := f.(journal := Record(f.journal, Other(text))))
  }

  function Run(s: State, moves: seq<Move>): State
    decreases |moves|
  {
    if moves == [] then s else Run(Step(s, moves[0]), moves[1..])
  }

  const BEGIN := State(Fixture(0, map[], [], false), map[], map[], Idle, false)

  // ----- What the journal says

  /** The outputs recorded as sent on a stream, in order. */
  function SentOf(journal: seq<Row>, n: nat): seq<Output> {
    if journal == [] then []
    else
      var last := journal[|journal| - 1].event;
      SentOf(journal[..|journal| - 1], n) + if last.Sent? && last.number == n then [last.output] else []
  }

  /** After this row nothing more may be sent on the stream. */
  predicate Terminal(e: Event, n: nat) {
    match e
    case Sent(number, output) => number == n && output.Result?
    case TransportClosed(number) => number == n
    case PeerClosed(number) => number == n
    case Closed(number) => number == n
    case FixtureClosed => true
    case _ => false
  }

  predicate Finished(journal: seq<Row>, n: nat) {
    journal != [] &&
    (Terminal(journal[|journal| - 1].event, n) || Finished(journal[..|journal| - 1], n))
  }

  lemma {:induction false} FinishedSince(journal: seq<Row>, i: nat, n: nat)
    requires i < |journal| && Terminal(journal[i].event, n)
    ensures Finished(journal, n)
  {
    if i < |journal| - 1 {
      FinishedSince(journal[..|journal| - 1], i, n);
    }
  }

  /** Nothing is sent on a stream after one of its terminal rows. */
  predicate Quiet(journal: seq<Row>) {
    forall i, j :: 0 <= i < j < |journal| && journal[j].event.Sent? ==> !Terminal(journal[i].event, journal[j].event.number)
  }

  /** Streams are opened in the order of their numbers, so each at most once. */
  predicate Ascend(journal: seq<Row>) {
    forall i, j :: 0 <= i < j < |journal| && journal[i].event.Opened? && journal[j].event.Opened? ==>
      journal[i].event.number < journal[j].event.number
  }

  function Subject(e: Event): Option<nat> {
    match e
    case FixtureClosed => None
    case Other(_) => None
    case _ => Some(e.number)
  }

  /** Rows speak only of opened streams. */
  predicate Known(journal: seq<Row>, streams: map<nat, Stream>) {
    forall i :: 0 <= i < |journal| ==> Subject(journal[i].event).Some? ==> Subject(journal[i].event).value in streams
  }

  predicate EndsStopped(journal: seq<Row>, stopped: bool) {
    forall i :: 0 <= i < |journal| && journal[i].event.FixtureClosed? ==> stopped
  }

  // ----- One stream

  predicate Live(phase: Phase) {
    match phase
    case Heading => true
    case Looping => true
    case Peeking => true
    case Taking => true
    case Writing(_) => true
    case Recording(_) => true
    case _ => false
  }

  function Held(phase: Phase): Option<Action> {
    match phase
    case Writing(action) => Some(action)
    case Recording(action) => Some(action)
    case _ => None
  }

  /** What is queued now is the rest of what was ever queued. */
  predicate QueueFits(queue: seq<Action>, queued: seq<Action>) {
    && |queue| <= CAPACITY
    && |queue| <= |queued|
    && forall i :: 0 <= i < |queue| ==> queue[i] == queued[|queued| - |queue| + i]
  }

  /** A completion is the result with the request's id, and a notification has the kind and the id it was queued with. */
  predicate Shows(output: Output, id: Value, action: Action) {
    match output
    case Result(response) => action.Complete? && response == id
    case Notification(kind, subscription) => action == Notice(kind, subscription)
  }

  /** The outputs are those of the first actions, in order. */
  predicate Follows(id: Value, sent: seq<Output>, queued: seq<Action>) {
    && |sent| <= |queued|
    && forall i :: 0 <= i < |sent| ==> Shows(sent[i], id, queued[i])
  }

  /** What was sent is what was taken off the queue, less what the thread still holds; once the thread is leaving,
      it only follows what was queued. */
  predicate SentFits(id: Value, sent: seq<Output>, queued: seq<Action>, left: nat, phase: Phase) {
    && Follows(id, sent, queued)
    && (Live(phase) ==>
          match Held(phase)
          case None => |sent| + left == |queued|
          case Some(action) => |sent| + 1 + left == |queued| && queued[|sent|] == action)
  }

  predicate Fits(f: Fixture, n: nat, phase: Phase, queued: seq<Action>)
    requires n in f.streams
  {
    && 1 <= n <= f.next
    && QueueFits(f.streams[n].queue, queued)
    && SentFits(f.streams[n].id, SentOf(f.journal, n), queued, |f.streams[n].queue|, phase)
    && (Live(phase) ==> !Finished(f.journal, n))
  }

  predicate AllFit(f: Fixture, phases: map<nat, Phase>, queued: map<nat, seq<Action>>) {
    && phases.Keys == f.streams.Keys == queued.Keys
    && forall n {:trigger Fits(f, n, phases[n], queued[n])} | n in f.streams :: Fits(f, n, phases[n], queued[n])
  }

  predicate JournalFits(f: Fixture, stopped: bool) {
    && Numbered(f.journal)
    && Quiet(f.journal)
    && Ascend(f.journal)
    && Known(f.journal, f.streams)
    && EndsStopped(f.journal, stopped)
  }

  predicate Inv(s: State) {
    JournalFits(s.fixture, s.stopped) && AllFit(s.fixture, s.phases, s.queued)
  }

  // ----- Appending a row

  lemma SentOfMore(journal: seq<Row>, e: Event, n: nat)
    ensures SentOf(Record(journal, e), n) == SentOf(journal, n) + if e.Sent? && e.number == n then [e.output] else []
  {
    var more := Record(journal, e);
    assert more[..|more| - 1] == journal;
  }

  lemma FinishedMore(journal: seq<Row>, e: Event, n: nat)
    ensures Finished(Record(journal, e), n) <==> Finished(journal, n) || Terminal(e, n)
  {
    var more := Record(journal, e);
    assert more[..|more| - 1] == journal;
  }

  /** A row that opens, sends and ends nothing it should not. */
  predicate MayRecord(f: Fixture, stopped: bool, e: Event) {
    && (e.Sent? ==> !Finished(f.journal, e.number))
    && !e.Opened?
    && (Subject(e).Some? ==> Subject(e).value in f.streams)
    && (e.FixtureClosed? ==> stopped)
  }

  lemma RecordFits(f: Fixture, stopped: bool, e: Event)
    requires JournalFits(f, stopped) && MayRecord(f, stopped, e)
    ensures JournalFits(f.(journal := Record(f.journal, e)), stopped)
  {
    if e.Sent? {
      forall i | 0 <= i < |f.journal| ensures !Terminal(f.journal[i].event, e.number) {
        if Terminal(f.journal[i].event, e.number) {
          FinishedSince(f.journal, i, e.number);
        }
      }
    }
  }

  /** A row about one stream leaves the others as they were. */
  lemma OthersFit(f: Fixture, e: Event, n: nat, phase: Phase, queued: seq<Action>)
    requires n in f.streams && Fits(f, n, phase, queued)
    requires !(e.Sent? && e.number == n) && (Live(phase) ==> !Terminal(e, n))
    ensures Fits(f.(journal := Record(f.journal, e)), n, phase, queued)
  {
    SentOfMore(f.journal, e, n);
    FinishedMore(f.journal, e, n);
  }

  // ----- Moves that leave the threads alone

  lemma NoteKeeps(s: State, e: Event)
    requires Inv(s) && MayRecord(s.fixture, s.stopped, e) && !e.Sent?
    requires forall n <- s.phases :: Live(s.phases[n]) ==> !Terminal(e, n)
    ensures Inv(s.(fixture := s.fixture.(journal := Record(s.fixture.journal, e))))
  {
    RecordFits(s.fixture, s.stopped, e);
    forall n <- s.fixture.streams
      ensures Fits(s.fixture.(journal := Record(s.fixture.journal, e)), n, s.phases[n], s.queued[n])
    {
      OthersFit(s.fixture, e, n, s.phases[n], s.queued[n]);
    }
  }

  lemma FlagKeeps(s: State, n: nat, stream: Stream)
    requires Inv(s) && n in s.fixture.streams
    requires stream.id == s.fixture.streams[n].id && stream.queue == s.fixture.streams[n].queue
    ensures Inv(s.(fixture := s.fixture.(streams := s.fixture.streams[n := stream])))
  {
    var after := s.fixture.(streams := s.fixture.streams[n := stream]);
    forall m | m in after.streams ensures Fits(after, m, s.phases[m], s.queued[m]) {
      SameStreamFits(s.fixture, after, m, s.phases[m], s.queued[m]);
    }
  }

  /** Flags matter to nothing here. */
  lemma SameStreamFits(f: Fixture, after: Fixture, n: nat, phase: Phase, queued: seq<Action>)
    requires n in f.streams && n in after.streams && Fits(f, n, phase, queued)
    requires after.journal == f.journal && after.next == f.next
    requires after.streams[n].id == f.streams[n].id && after.streams[n].queue == f.streams[n].queue
    ensures Fits(after, n, phase, queued)
  {
  }

  lemma NumbersBelow(s: State)
    requires Inv(s)
    ensures forall n <- s.fixture.streams :: n <= s.fixture.next
  {
    forall n <- s.fixture.streams ensures n <= s.fixture.next {
      assert Fits(s.fixture, n, s.phases[n], s.queued[n]);
    }
  }

  lemma OpenKeeps(s: State, id: Value, saves: bool)
    requires Inv(s) && !s.stopped
    ensures Inv(Step(s, Open(Some(id), saves)))
  {
    NumbersBelow(s);
    OpenedFits(s.fixture, s.fixture.next + 1, id);
    OpenedAllFit(s.fixture, s.phases, s.queued, id, if saves then Heading else Ended);
  }

  lemma OpenedAllFit(f: Fixture, phases: map<nat, Phase>, queued: map<nat, seq<Action>>, id: Value, phase: Phase)
    requires JournalFits(f, false) && AllFit(f, phases, queued) && f.next + 1 !in f.streams
    requires phase == Heading || phase == Ended
    ensures AllFit(OpenStream(f, Some(id)), phases[f.next + 1 := phase], queued[f.next + 1 := []])
  {
    NewFits(f, f.next + 1, id, phase);
    forall n <- f.streams ensures Fits(OpenStream(f, Some(id)), n, phases[n], queued[n]) {
      OldFits(f, f.next + 1, id, n, phases[n], queued[n]);
    }
  }

  lemma NewFits(f: Fixture, number: nat, id: Value, phase: Phase)
    requires JournalFits(f, false) && number == f.next + 1 && number !in f.streams && (phase == Heading || phase == Ended)
    ensures Fits(OpenStream(f, Some(id)), number, phase, [])
  {
    SentOfMore(f.journal, Opened(number), number);
    FinishedMore(f.journal, Opened(number), number);
    NothingSent(f.journal, f.streams, number);
  }

  lemma OldFits(f: Fixture, number: nat, id: Value, n: nat, phase: Phase, queued: seq<Action>)
    requires number == f.next + 1 && n in f.streams && n != number && Fits(f, n, phase, queued)
    ensures Fits(OpenStream(f, Some(id)), n, phase, queued)
  {
    SentOfMore(f.journal, Opened(number), n);
    FinishedMore(f.journal, Opened(number), n);
  }

  lemma OpenedFits(f: Fixture, number: nat, id: Value)
    requires JournalFits(f, false) && number == f.next + 1 && number !in f.streams
    requires forall n <- f.streams :: n <= f.next
    ensures JournalFits(OpenStream(f, Some(id)), false)
  {
    AscendMore(f.journal, f.streams, number);
    var after := OpenStream(f, Some(id));
    assert Quiet(after.journal);
    assert Known(after.journal, after.streams);
  }

  lemma AscendMore(journal: seq<Row>, streams: map<nat, Stream>, number: nat)
    requires Ascend(journal) && Known(journal, streams) && forall n <- streams :: n < number
    ensures Ascend(Record(journal, Opened(number)))
  {
    forall i | 0 <= i < |journal| && journal[i].event.Opened? ensures journal[i].event.number < number {
      assert Subject(journal[i].event).value in streams;
    }
  }

  lemma {:induction false} NothingSent(journal: seq<Row>, streams: map<nat, Stream>, n: nat)
    requires Known(journal, streams) && EndsStopped(journal, false) && n !in streams
    ensures SentOf(journal, n) == [] && !Finished(journal, n)
  {
    forall i | 0 <= i < |journal| ensures !Terminal(journal[i].event, n) {
      assert Subject(journal[i].event).Some? ==> Subject(journal[i].event).value in streams;
    }
    if journal != [] {
      var before := journal[..|journal| - 1];
      assert Known(before, streams) && EndsStopped(before, false);
      NothingSent(before, streams, n);
    }
  }

  lemma {:induction false} CancelKeeps(s: State, id: Value, number: nat)
    requires Inv(s)
    ensures Inv(s.(fixture := CancelFrom(s.fixture, id, number)))
    decreases s.fixture.next + 1 - number
  {
    if number <= s.fixture.next {
      if number in s.fixture.streams && s.fixture.streams[number].id == id {
        CancelOneKeeps(s, number);
        CancelKeeps(s.(fixture := CancelOne(s.fixture, number)), id, number + 1);
      } else {
        CancelKeeps(s, id, number + 1);
      }
    }
  }

  lemma CancelOneKeeps(s: State, number: nat)
    requires Inv(s) && number in s.fixture.streams
    ensures Inv(s.(fixture := CancelOne(s.fixture, number)))
  {
    var stream := s.fixture.streams[number].(cancelled := true);
    FlagKeeps(s, number, stream);
    NoteKeeps(s.(fixture := s.fixture.(streams := s.fixture.streams[number := stream])), Cancelled(number));
  }

  lemma PutKeeps(s: State)
    requires Inv(s)
    ensures Inv(Step(s, Put))
  {
    if s.emission.Putting? && s.emission.number in s.fixture.streams {
      var n, action := s.emission.number, s.emission.action;
      if |s.fixture.streams[n].queue| < CAPACITY {
        PutFits(s.fixture, n, s.phases[n], s.queued[n], action);
        PutAllFit(s.fixture, s.phases, s.queued, n, action);
      }
    }
  }

  lemma PutAllFit(f: Fixture, phases: map<nat, Phase>, queued: map<nat, seq<Action>>, n: nat, action: Action)
    requires AllFit(f, phases, queued) && n in f.streams && |f.streams[n].queue| < CAPACITY
    requires Fits(EmitPut(f, n, action), n, phases[n], queued[n] + [action])
    ensures AllFit(EmitPut(f, n, action), phases, queued[n := queued[n] + [action]])
  {
    var after := EmitPut(f, n, action);
    forall m | m in after.streams && m != n ensures Fits(after, m, phases[m], queued[m]) {
      assert Fits(f, m, phases[m], queued[m]);
      SameStreamFits(f, after, m, phases[m], queued[m]);
    }
  }

  lemma PutFits(f: Fixture, n: nat, phase: Phase, queued: seq<Action>, action: Action)
    requires n in f.streams && Fits(f, n, phase, queued) && |f.streams[n].queue| < CAPACITY
    ensures Fits(EmitPut(f, n, action), n, phase, queued + [action])
  {
  }

  // ----- Moves of a stream's thread

  /** The row a section records, if any. */
  function RowOf(id: Value, n: nat, phase: Phase): Option<Event> {
    match phase
    case Dropping => Some(TransportClosed(n))
    case Losing => Some(PeerClosed(n))
    case Noting => Some(Closed(n))
    case Recording(action) => Some(Sent(n, Render(id, action)))
    case _ => None
  }

  lemma AdvanceEffect(f: Fixture, n: nat, phase: Phase, outcome: Outcome)
    requires n in f.streams
    ensures
      var (after, next) := Advance(f, n, phase, outcome);
      && after.streams.Keys == f.streams.Keys && after.next == f.next && after.closing == f.closing
      && after.streams[n].id == f.streams[n].id
      && (forall m <- f.streams :: m != n ==> after.streams[m] == f.streams[m])
      && (match RowOf(f.streams[n].id, n, phase)
          case None => after.journal == f.journal
          case Some(e) => after.journal == Record(f.journal, e))
  {
  }

  predicate ResultFits(n: nat, queued: seq<Action>, result: (Fixture, Phase)) {
    n in result.0.streams && Fits(result.0, n, result.1, queued)
  }

  /** The held output is sent: it follows what was sent before. */
  lemma SentMoreFits(id: Value, sent: seq<Output>, queued: seq<Action>, left: nat, action: Action)
    requires SentFits(id, sent, queued, left, Recording(action))
    ensures SentFits(id, sent + [Render(id, action)], queued, left, Looping)
    ensures SentFits(id, sent + [Render(id, action)], queued, left, Leaving)
  {
  }

  lemma RecordingFits(f: Fixture, n: nat, phase: Phase, outcome: Outcome, queued: seq<Action>)
    requires n in f.streams && Fits(f, n, phase, queued) && phase.Recording?
    ensures ResultFits(n, queued, Advance(f, n, phase, outcome))
  {
    var stream, e := f.streams[n], Sent(n, Render(f.streams[n].id, phase.action));
    SentOfMore(f.journal, e, n);
    FinishedMore(f.journal, e, n);
    SentMoreFits(stream.id, SentOf(f.journal, n), queued, |stream.queue|, phase.action);
  }

  lemma TakingFits(f: Fixture, n: nat, outcome: Outcome, queued: seq<Action>)
    requires n in f.streams && Fits(f, n, Taking, queued)
    ensures ResultFits(n, queued, Advance(f, n, Taking, outcome))
  {
  }

  /** A thread that is over sends nothing more. */
  lemma OverFits(f: Fixture, after: Fixture, n: nat, phase: Phase, next: Phase, queued: seq<Action>)
    requires n in f.streams && n in after.streams && Fits(f, n, phase, queued) && !Live(next)
    requires after.next == f.next && SentOf(after.journal, n) == SentOf(f.journal, n)
    requires after.streams[n].id == f.streams[n].id && after.streams[n].queue == f.streams[n].queue
    ensures Fits(after, n, next, queued)
  {
  }

  lemma EndingFits(f: Fixture, n: nat, phase: Phase, outcome: Outcome, queued: seq<Action>)
    requires n in f.streams && Fits(f, n, phase, queued) && !Live(phase)
    ensures ResultFits(n, queued, Advance(f, n, phase, outcome))
  {
    var (after, next) := Advance(f, n, phase, outcome);
    EndingSends(f, n, phase, outcome);
    OverFits(f, after, n, phase, next, queued);
  }

  lemma EndingSends(f: Fixture, n: nat, phase: Phase, outcome: Outcome)
    requires n in f.streams && !Live(phase)
    ensures
      var (after, next) := Advance(f, n, phase, outcome);
      && !Live(next) && after.next == f.next && n in after.streams && SentOf(after.journal, n) == SentOf(f.journal, n)
      && after.streams[n].id == f.streams[n].id && after.streams[n].queue == f.streams[n].queue
  {
    match phase
    case Dropping =>
      SentOfMore(f.journal, TransportClosed(n), n);
    case Losing =>
      SentOfMore(f.journal, PeerClosed(n), n);
    case Noting =>
      SentOfMore(f.journal, Closed(n), n);
    case _ =>
  }

  lemma WaitingFits(f: Fixture, n: nat, phase: Phase, outcome: Outcome, queued: seq<Action>)
    requires n in f.streams && Fits(f, n, phase, queued) && Live(phase) && !phase.Recording? && !phase.Taking?
    ensures ResultFits(n, queued, Advance(f, n, phase, outcome))
  {
  }

  lemma ThreadFits(f: Fixture, n: nat, phase: Phase, outcome: Outcome, queued: seq<Action>)
    requires n in f.streams && Fits(f, n, phase, queued)
    ensures ResultFits(n, queued, Advance(f, n, phase, outcome))
  {
    if !Live(phase) {
      EndingFits(f, n, phase, outcome, queued);
    } else if phase.Recording? {
      RecordingFits(f, n, phase, outcome, queued);
    } else if phase.Taking? {
      TakingFits(f, n, outcome, queued);
    } else {
      WaitingFits(f, n, phase, outcome, queued);
    }
  }

  lemma ResumeKeeps(s: State, n: nat, outcome: Outcome)
    requires Inv(s) && n in s.fixture.streams
    ensures Inv(Step(s, Resume(n, outcome)))
  {
    var f, phase := s.fixture, s.phases[n];
    var row := RowOf(f.streams[n].id, n, phase);
    AdvanceEffect(f, n, phase, outcome);
    assert Fits(f, n, phase, s.queued[n]);
    ThreadFits(f, n, phase, outcome, s.queued[n]);
    ResumedAllFit(f, s.phases, s.queued, n, outcome);
    ResumedJournalFits(f, s.stopped, n, phase, outcome, s.queued[n]);
  }

  lemma ResumedJournalFits(f: Fixture, stopped: bool, n: nat, phase: Phase, outcome: Outcome, queued: seq<Action>)
    requires JournalFits(f, stopped) && n in f.streams && Fits(f, n, phase, queued)
    ensures JournalFits(Advance(f, n, phase, outcome).0, stopped)
  {
    AdvanceEffect(f, n, phase, outcome);
    var after := Advance(f, n, phase, outcome).0;
    var row := RowOf(f.streams[n].id, n, phase);
    if row.Some? {
      RecordFits(f, stopped, row.value);
      SameJournalFits(f.(journal := after.journal), after, stopped);
    } else {
      SameJournalFits(f, after, stopped);
    }
  }

  lemma SameJournalFits(f: Fixture, after: Fixture, stopped: bool)
    requires JournalFits(f, stopped) && after.journal == f.journal && after.streams.Keys == f.streams.Keys
    ensures JournalFits(after, stopped)
  {
  }

  lemma OtherFits(f: Fixture, n: nat, phase: Phase, outcome: Outcome, m: nat, other: Phase, queued: seq<Action>)
    requires n in f.streams && m in f.streams && m != n && Fits(f, m, other, queued)
    ensures
      var after := Advance(f, n, phase, outcome).0;
      m in after.streams && Fits(after, m, other, queued)
  {
    AdvanceEffect(f, n, phase, outcome);
    var after := Advance(f, n, phase, outcome).0;
    var row := RowOf(f.streams[n].id, n, phase);
    if row.Some? {
      OthersFit(f, row.value, m, other, queued);
      SameStreamFits(f.(journal := after.journal), after, m, other, queued);
    } else {
      SameStreamFits(f, after, m, other, queued);
    }
  }

  lemma ResumedAllFit(f: Fixture, phases: map<nat, Phase>, queued: map<nat, seq<Action>>, n: nat, outcome: Outcome)
    requires AllFit(f, phases, queued) && n in f.streams
    requires ResultFits(n, queued[n], Advance(f, n, phases[n], outcome))
    ensures
      var (after, phase) := Advance(f, n, phases[n], outcome);
      AllFit(after, phases[n := phase], queued)
  {
    AdvanceEffect(f, n, phases[n], outcome);
    var after := Advance(f, n, phases[n], outcome).0;
    forall m | m in after.streams && m != n ensures Fits(after, m, phases[m], queued[m]) {
      assert Fits(f, m, phases[m], queued[m]);
      OtherFits(f, n, phases[n], outcome, m, phases[m], queued[m]);
    }
  }

  // ----- All moves

  lemma StepKeeps(s: State, m: Move)
    requires Inv(s)
    ensures Inv(Step(s, m))
  {
    match m
    case Open(id, saves) =>
      if !s.stopped && id.Some? {
        OpenKeeps(s, id.value, saves);
      } else if !s.stopped {
        NumberUsed(s);
      }
    case Resume(number, outcome) =>
      if number in s.fixture.streams {
        ResumeKeeps(s, number, outcome);
      }
    case Cancel(id) =>
      CancelKeeps(s, id, 0);
    case Put =>
      PutKeeps(s);
    case CloseCancels(number) =>
      if number in s.fixture.streams {
        FlagKeeps(s, number, s.fixture.streams[number].(cancelled := true));
      }
    case _ =>
      RecordingKeeps(s, m);
  }

  lemma NumberUsed(s: State)
    requires Inv(s)
    ensures Inv(s.(fixture := s.fixture.(next := s.fixture.next + 1)))
  {
    var after := s.fixture.(next := s.fixture.next + 1);
    forall n | n in after.streams ensures Fits(after, n, s.phases[n], s.queued[n]) {
      assert Fits(s.fixture, n, s.phases[n], s.queued[n]);
    }
  }

  /** The moves that at most record a row. */
  lemma RecordingKeeps(s: State, m: Move)
    requires Inv(s)
    requires !m.Open? && !m.Resume? && !m.Cancel? && !m.Put? && !m.CloseCancels?
    ensures Inv(Step(s, m))
  {
    match m
    case Check =>
      if s.emission.Ready? && s.emission.number in s.fixture.streams {
        NoteKeeps(s, LateAfterClose(s.emission.number));
      }
    case Finish =>
      if s.stopped && forall n <- s.phases :: s.phases[n] == Ended {
        NoteKeeps(s, FixtureClosed);
      }
    case Note(text) =>
      NoteKeeps(s, Other(text));
    case StartClose =>
      ClosingKeeps(s);
    case _ =>
  }

  lemma ClosingKeeps(s: State)
    requires Inv(s)
    ensures Inv(s.(fixture := s.fixture.(closing := true)))
  {
    var after := s.fixture.(closing := true);
    forall n | n in after.streams ensures Fits(after, n, s.phases[n], s.queued[n]) {
      SameStreamFits(s.fixture, after, n, s.phases[n], s.queued[n]);
    }
  }

  lemma {:induction false} RunKeeps(s: State, moves: seq<Move>)
    requires Inv(s)
    ensures Inv(Run(s, moves))
    decreases |moves|
  {
    if moves != [] {
      StepKeeps(s, moves[0]);
      RunKeeps(Step(s, moves[0]), moves[1..]);
    }
  }

  /** In every run the rows of the journal are numbered 0 to n-1, whichever thread wrote them. */
  lemma JournalIsNumbered(moves: seq<Move>, i: nat)
    requires i < |Run(BEGIN, moves).fixture.journal|
    ensures Run(BEGIN, moves).fixture.journal[i].seqno == i
  {
    RunKeeps(BEGIN, moves);
  }

  /** In every run each stream number is opened at most once, in ascending order. */
  lemma OpenedAtMostOnce(moves: seq<Move>, i: nat, j: nat)
    requires i < j < |Run(BEGIN, moves).fixture.journal|
    requires
      var journal := Run(BEGIN, moves).fixture.journal;
      journal[i].event.Opened? && journal[j].event.Opened?
    ensures
      var journal := Run(BEGIN, moves).fixture.journal;
      journal[i].event.number < journal[j].event.number
  {
    RunKeeps(BEGIN, moves);
  }

  /** In every run the outputs recorded as sent on a stream are a prefix, in order, of those queued for it. */
  lemma SentIsPrefixOfQueued(moves: seq<Move>, n: nat)
    requires n in Run(BEGIN, moves).fixture.streams
    ensures n in Run(BEGIN, moves).queued
    ensures
      var s := Run(BEGIN, moves);
      Follows(s.fixture.streams[n].id, SentOf(s.fixture.journal, n), s.queued[n])
  {
    RunKeeps(BEGIN, moves);
    var s := Run(BEGIN, moves);
    assert Fits(s.fixture, n, s.phases[n], s.queued[n]);
  }

  /** In every run nothing is recorded as sent on a stream after its completion was sent, after its peer
      was found gone, after it was closed or after the fixture was closed. */
  lemma NothingSentAfterEnd(moves: seq<Move>, i: nat, j: nat, n: nat)
    requires i < j < |Run(BEGIN, moves).fixture.journal|
    requires Terminal(Run(BEGIN, moves).fixture.journal[i].event, n)
    ensures
      var e := Run(BEGIN, moves).fixture.journal[j].event;
      !(e.Sent? && e.number == n)
  {
    RunKeeps(BEGIN, moves);
  }
}
