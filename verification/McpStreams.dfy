/** The MCP event streams of scripts/codex/isolated_mcp_control_fixture.py: handler threads that send what
    a control thread queues for them, and one journal under a lock. */
module McpStreams {
  import opened Wrappers
  import opened Json

  // ----- What is queued and what is sent

  datatype Kind = Active | Update | Terminated | WrongId | MissingId | Late

  /** What `emit` queues: the completion, or a notification with a kind and a subscription id. */
  datatype Action = Complete | Notice(kind: Kind, subscription: Option<Value>)

  /** What goes out: the result for the stream's request, or the notification as it was queued. */
  datatype Output = Result(id: Value) | Notification(kind: Kind, subscription: Option<Value>)

  const UNRELATED := Str("owned-unrelated-request")
  const CAPACITY := 16

  function Render(id: Value, action: Action): Output {
    match action
    case Complete => Result(id)
    case Notice(kind, subscription) => Notification(kind, subscription)
  }

  // ----- The journal

  datatype Event =
    | Opened(number: nat)
    | Sent(number: nat, output: Output)
    | TransportClosed(number: nat)
    | PeerClosed(number: nat)
    | Closed(number: nat)
    | Cancelled(number: nat)
    | LateAfterClose(number: nat)
    | FixtureClosed
    | Other(text: string)

  datatype Row = Row(seqno: nat, event: Event)

  /** `record`: the row is appended under the lock with the next number. */
  function Record(journal: seq<Row>, event: Event): seq<Row> {
    journal + [Row(|journal|, event)]
  }

  predicate Numbered(journal: seq<Row>) {
    forall i :: 0 <= i < |journal| ==> journal[i].seqno == i
  }

  // ----- State

  /** An entry of `streams`. */
  datatype Stream = Stream(id: Value, queue: seq<Action>, cancelled: bool, closed: bool)

  /** Where the thread of a stream stands. */
  datatype Phase =
    | Heading
    | Looping
    | Peeking
    | Taking
    | Dropping
    | Writing(action: Action)
    | Recording(action: Action)
    | Losing
    | Leaving
    | Noting
    | Ended

  /** Where the control thread stands in `emit`. */
  datatype Emission =
    | Idle
    | Scanning(number: nat)
    | Ready(number: nat, late: bool, action: Action)
    | Putting(number: nat, action: Action)

  datatype Fixture = Fixture(
    next: nat,
    streams: map<nat, Stream>,
    journal: seq<Row>,
    closing: bool)

  /** How the outside world answers a section: it works, the peer is gone, or something else raises. */
  datatype Outcome = Works | PeerGone | Fails

  // ----- The sections of a stream's thread

  /** `stream` under the lock. Without a request id the number is used up and nothing is opened. */
  function OpenStream(f: Fixture, id: Option<Value>): Fixture {
    var number := f.next + 1;
    match id
    case None => f.(next := number)
    case Some(v) =>
      f.(next := number,
         streams := f.streams[number := Stream(v, [], false, false)],
         journal := Record(f.journal, Opened(number)))
  }

  function Advance(f: Fixture, number: nat, phase: Phase, outcome: Outcome): (Fixture, Phase)
    requires number in f.streams
  {
    var stream := f.streams[number];
    match phase
    case Heading => (f, if outcome.Works? then Looping else Ended)
    case Looping => (f, if f.closing || stream.cancelled || outcome.Fails? then Leaving else Peeking)
    case Peeking =>
      if outcome.PeerGone? then (f.(streams := f.streams[number := stream.(cancelled := true)]), Dropping)
      else (f, if outcome.Works? then Taking else Leaving)
    case Dropping => (f.(journal := Record(f.journal, TransportClosed(number))), Leaving)
    case Taking =>
      if stream.queue == [] then (f, Looping)
      else (f.(streams := f.streams[number := stream.(queue := stream.queue[1..])]), Writing(stream.queue[0]))
    case Writing(action) =>
      (f, if outcome.Works? then Recording(action) else if outcome.PeerGone? then Losing else Leaving)
    case Losing => (f.(journal := Record(f.journal, PeerClosed(number))), Leaving)
    case Recording(action) =>
      (f.(journal := Record(f.journal, Sent(number, Render(stream.id, action)))),
       if action.Complete? || outcome.Fails? then Leaving else Looping)
    case Leaving => (f.(streams := f.streams[number := stream.(closed := true)]), Noting)
    case Noting => (f.(journal := Record(f.journal, Closed(number))), Ended)
    case Ended => (f, Ended)
  }

  // ----- Cancellation

  /** `notifications/cancelled` from this number on: every stream of the request, in order of opening. */
  function CancelFrom(f: Fixture, id: Value, number: nat): Fixture
    decreases f.next + 1 - number
  {
    if number > f.next then f
    else if number in f.streams && f.streams[number].id == id then CancelFrom(CancelOne(f, number), id, number + 1)
    else CancelFrom(f, id, number + 1)
  }

  function CancelOne(f: Fixture, number: nat): Fixture
    requires number in f.streams
  {
    f.(streams := f.streams[number := f.streams[number].(cancelled := true)],
       journal := Record(f.journal, Cancelled(number)))
  }

  /** The numbers of this request's streams from `number` on, ascending. */
  ghost predicate Lists(numbers: seq<nat>, streams: map<nat, Stream>, id: Value, number: nat) {
    && (forall i, j :: 0 <= i < j < |numbers| ==> numbers[i] < numbers[j])
    && (forall n :: n in numbers <==> n >= number && n in streams && streams[n].id == id)
  }

  predicate Adds(before: seq<Row>, after: seq<Row>, numbers: seq<nat>) {
    && |after| == |before| + |numbers| && after[..|before|] == before
    && forall k :: 0 <= k < |numbers| ==> after[|before| + k] == Row(|before| + k, Cancelled(numbers[k]))
  }

  /** Each stream of the request from `number` on is cancelled, and no stream changes otherwise. */
  predicate StreamsCancelled(before: map<nat, Stream>, after: map<nat, Stream>, id: Value, number: nat) {
    && after.Keys == before.Keys
    && forall n <- before :: after[n] == before[n].(cancelled := before[n].cancelled || (n >= number && before[n].id == id))
  }

  ghost predicate RowsAdded(streams: map<nat, Stream>, before: seq<Row>, after: seq<Row>, id: Value, number: nat) {
    exists numbers: seq<nat> :: Lists(numbers, streams, id, number) && Adds(before, after, numbers)
  }

  /** The journal grows by one row for each of those streams, in the order of their numbers; nothing else changes. */
  ghost predicate CancelsAll(before: Fixture, after: Fixture, id: Value, number: nat) {
    && after.next == before.next && after.closing == before.closing
    && StreamsCancelled(before.streams, after.streams, id, number)
    && RowsAdded(before.streams, before.journal, after.journal, id, number)
  }

  lemma {:induction false} CancelStreams(f: Fixture, id: Value, number: nat)
    requires forall n <- f.streams :: n <= f.next
    ensures StreamsCancelled(f.streams, CancelFrom(f, id, number).streams, id, number)
    decreases f.next + 1 - number
  {
    if number <= f.next {
      if number in f.streams && f.streams[number].id == id {
        var one := CancelOne(f, number);
        CancelStreams(one, id, number + 1);
        OneThenLater(f.streams, one.streams, CancelFrom(one, id, number + 1).streams, id, number);
      } else {
        CancelStreams(f, id, number + 1);
        OnlyLater(f.streams, CancelFrom(f, id, number + 1).streams, id, number);
      }
    }
  }

  lemma OneThenLater(before: map<nat, Stream>, one: map<nat, Stream>, after: map<nat, Stream>, id: Value, number: nat)
    requires number in before && before[number].id == id && one == before[number := before[number].(cancelled := true)]
    requires StreamsCancelled(one, after, id, number + 1)
    ensures StreamsCancelled(before, after, id, number)
  {
  }

  lemma OnlyLater(before: map<nat, Stream>, after: map<nat, Stream>, id: Value, number: nat)
    requires !(number in before && before[number].id == id) && StreamsCancelled(before, after, id, number + 1)
    ensures StreamsCancelled(before, after, id, number)
  {
  }

  lemma {:induction false} CancelKeepsRest(f: Fixture, id: Value, number: nat)
    ensures CancelFrom(f, id, number).next == f.next && CancelFrom(f, id, number).closing == f.closing
    decreases f.next + 1 - number
  {
    if number <= f.next {
      if number in f.streams && f.streams[number].id == id {
        CancelKeepsRest(CancelOne(f, number), id, number + 1);
      } else {
        CancelKeepsRest(f, id, number + 1);
      }
    }
  }

  lemma {:induction false} CancelRows(f: Fixture, id: Value, number: nat)
    requires forall n <- f.streams :: n <= f.next
    ensures RowsAdded(f.streams, f.journal, CancelFrom(f, id, number).journal, id, number)
    decreases f.next + 1 - number
  {
    if number > f.next {
      assert Lists([], f.streams, id, number) && Adds(f.journal, f.journal, []);
    } else if number in f.streams && f.streams[number].id == id {
      var one := CancelOne(f, number);
      CancelRows(one, id, number + 1);
      RowsFollow(f.streams, one.streams, f.journal, one.journal, CancelFrom(f, id, number).journal, id, number);
    } else {
      CancelRows(f, id, number + 1);
      RowsSkip(f.streams, f.journal, CancelFrom(f, id, number + 1).journal, id, number);
    }
  }

  lemma RowsSkip(streams: map<nat, Stream>, before: seq<Row>, after: seq<Row>, id: Value, number: nat)
    requires !(number in streams && streams[number].id == id) && RowsAdded(streams, before, after, id, number + 1)
    ensures RowsAdded(streams, before, after, id, number)
  {
    var numbers: seq<nat> :| Lists(numbers, streams, id, number + 1) && Adds(before, after, numbers);
    assert Lists(numbers, streams, id, number);
  }

  /** One cancelled stream, and then the later ones. */
  lemma RowsFollow(streams: map<nat, Stream>, next: map<nat, Stream>, before: seq<Row>, one: seq<Row>, after: seq<Row>,
          id: Value, number: nat)
    requires number in streams && streams[number].id == id && next.Keys == streams.Keys
    requires forall n <- streams :: next[n].id == streams[n].id
    requires one == Record(before, Cancelled(number)) && RowsAdded(next, one, after, id, number + 1)
    ensures RowsAdded(streams, before, after, id, number)
  {
    var later: seq<nat> :| Lists(later, next, id, number + 1) && Adds(one, after, later);
    NumbersJoin(later, streams, next, id, number);
    RowsJoin(before, one, after, number, later);
    assert Lists([number] + later, streams, id, number) && Adds(before, after, [number] + later);
  }

  lemma CancelExactly(f: Fixture, id: Value)
    requires forall n <- f.streams :: n <= f.next
    ensures CancelsAll(f, CancelFrom(f, id, 0), id, 0)
  {
    CancelKeepsRest(f, id, 0);
    CancelStreams(f, id, 0);
    CancelRows(f, id, 0);
  }

  lemma NumbersJoin(later: seq<nat>, streams: map<nat, Stream>, after: map<nat, Stream>, id: Value, number: nat)
    requires number in streams && streams[number].id == id && after.Keys == streams.Keys
    requires forall n <- streams :: after[n].id == streams[n].id
    requires Lists(later, after, id, number + 1)
    ensures Lists([number] + later, streams, id, number)
  {
    forall k | 0 <= k < |later| ensures later[k] > number {
      assert later[k] in later;
    }
  }

  lemma RowsJoin(before: seq<Row>, one: seq<Row>, after: seq<Row>, number: nat, later: seq<nat>)
    requires one == Record(before, Cancelled(number)) && Adds(one, after, later)
    ensures Adds(before, after, [number] + later)
  {
    assert after[..|before|] == one[..|before|] == before;
    assert after[|before|] == one[|before|];
  }

  // ----- emit

  /** The last cancelled stream opened before `number`. */
  function Stale(streams: map<nat, Stream>, number: nat): Option<nat> {
    if number == 0 then None
    else if number - 1 in streams && streams[number - 1].cancelled then Some(number - 1)
    else Stale(streams, number - 1)
  }

  /** The notification for a stream of this request, the completion when no kind is given. */
  function ActionOf(kind: Option<Kind>, id: Value): Action {
    match kind
    case None => Complete
    case Some(WrongId) => Notice(WrongId, Some(UNRELATED))
    case Some(MissingId) => Notice(MissingId, None)
    case Some(k) => Notice(k, Some(id))
  }

  /** Builds the output; a late sentinel for a stream that is not closed has yet to find its stale stream. */
  function EmitBegin(f: Fixture, number: nat, kind: Option<Kind>): Emission {
    if number !in f.streams then Idle
    else if kind == Some(Late) && !f.streams[number].closed then Scanning(number)
    else Ready(number, kind == Some(Late), ActionOf(kind, f.streams[number].id))
  }

  function EmitScan(f: Fixture, number: nat): Emission {
    StaleIsCancelled(f.streams, number);
    match Stale(f.streams, number)
    case None => Idle
    case Some(m) => Ready(number, true, Notice(Late, Some(f.streams[m].id)))
  }

  /** Only a late sentinel may target a stream that is closed or cancelled, and it is recorded, not queued. */
  function EmitCheck(f: Fixture, number: nat, late: bool, action: Action): (Fixture, Emission)
    requires number in f.streams
  {
    if f.streams[number].closed || f.streams[number].cancelled then
      (if late then f.(journal := Record(f.journal, LateAfterClose(number))) else f, Idle)
    else (f, Putting(number, action))
  }

  /** `put_nowait`: a full queue raises. */
  function EmitPut(f: Fixture, number: nat, action: Action): Fixture
    requires number in f.streams
  {
    var stream := f.streams[number];
    if |stream.queue| >= CAPACITY then f
    else f.(streams := f.streams[number := stream.(queue := stream.queue + [action])])
  }

  /** The greatest number below `number` of a cancelled stream. */
  ghost predicate IsStale(streams: map<nat, Stream>, number: nat, m: nat) {
    && m < number && m in streams && streams[m].cancelled
    && forall k :: m < k < number && k in streams ==> !streams[k].cancelled
  }

  lemma {:induction false} StaleIs(streams: map<nat, Stream>, number: nat)
    ensures
      match Stale(streams, number)
      case Some(m) => IsStale(streams, number, m)
      case None => forall m :: 0 <= m < number && m in streams ==> !streams[m].cancelled
  {
    if number > 0 {
      StaleIs(streams, number - 1);
    }
  }

  /** What is queued for a stream of this request, the late sentinel carrying another's. */
  predicate Carries(action: Action, kind: Option<Kind>, id: Value, stale: Option<Value>) {
    match kind
    case None => action == Complete
    case Some(Active) => action == Notice(Active, Some(id))
    case Some(Update) => action == Notice(Update, Some(id))
    case Some(Terminated) => action == Notice(Terminated, Some(id))
    case Some(WrongId) => action == Notice(WrongId, Some(Str("owned-unrelated-request")))
    case Some(MissingId) => action == Notice(MissingId, None)
    case Some(Late) => stale.Some? && action == Notice(Late, stale)
  }

  /** What `emit` leaves when no other thread runs: a late sentinel for a closed or cancelled stream is a row; for an
      open stream the output goes to the end of the queue, unless that holds sixteen or no stale stream is there for a
      late one. */
  ghost predicate Emits(f: Fixture, after: Fixture, number: nat, kind: Option<Kind>) {
    if number !in f.streams then after == f
    else
      var s := f.streams[number];
      var hasStale := exists m :: 0 <= m < number && m in f.streams && f.streams[m].cancelled;
      if kind == Some(Late) && !s.closed && !hasStale then after == f
      else if s.closed || s.cancelled then
        after == if kind == Some(Late) then f.(journal := f.journal + [Row(|f.journal|, LateAfterClose(number))]) else f
      else if |s.queue| >= 16 then after == f
      else exists action, stale: Option<Value> ::
        && Carries(action, kind, s.id, stale)
        && (stale.Some? ==> exists m :: IsStale(f.streams, number, m) && stale == Some(f.streams[m].id))
        && after == f.(streams := f.streams[number := s.(queue := s.queue + [action])])
  }

  lemma EmitIs(f: Fixture, number: nat, kind: Option<Kind>)
    ensures Emits(f, EmitAlone(f, number, kind), number, kind)
  {
    StaleIs(f.streams, number);
    if number in f.streams {
      var s := f.streams[number];
      var stale := if kind == Some(Late) && Stale(f.streams, number).Some?
        then Some(f.streams[Stale(f.streams, number).value].id) else None;
      var action := if kind == Some(Late) then Notice(Late, stale) else ActionOf(kind, s.id);
      if stale.Some? || kind != Some(Late) {
        assert Carries(action, kind, s.id, stale);
      }
    }
  }

  // ----- The object

  class ControlFixture {
    var next: nat
    var streams: map<nat, Stream>
    var journal: seq<Row>
    var closing: bool

    function View(): Fixture
      reads this
    {
      Fixture(next, streams, journal, closing)
    }

    /** The journal is numbered, no number was used beyond the last, and no queue is over its size. */
    predicate Valid()
      reads this
    {
      && Numbered(journal)
      && forall n <- streams :: 1 <= n <= next && |streams[n].queue| <= CAPACITY
    }

    constructor ()
      ensures Valid()
      ensures View() == Fixture(0, map[], [], false)
    {
      next, streams, journal, closing := 0, map[], [], false;
    }

    method Append(event: Event)
      requires Valid()
      modifies this`journal
      ensures Valid()
      ensures journal == Record(old(journal), event)
    {
      journal := journal + [Row(|journal|, event)];
    }

    method Open(id: Option<Value>) returns (ok: bool)
      requires Valid()
      modifies this
      ensures Valid()
      ensures View() == OpenStream(old(View()), id) && ok == id.Some?
      ensures next == old(next) + 1 && closing == old(closing)
      ensures ok ==> streams == old(streams)[next := Stream(id.value, [], false, false)]
      ensures ok ==> journal == old(journal) + [Row(|old(journal)|, Opened(next))]
      ensures !ok ==> streams == old(streams) && journal == old(journal)
    {
      next := next + 1;
      var number := next;
      if id.None? {
        return false;
      }
      streams := streams[number := Stream(id.value, [], false, false)];
      Append(Opened(number));
      return true;
    }

    /** The loop of `stream`, one section at a time. */
    method Proceed(number: nat, phase: Phase, outcome: Outcome) returns (after: Phase)
      requires Valid() && number in streams
      modifies this
      ensures Valid()
      ensures (View(), after) == Advance(old(View()), number, phase, outcome)
    {
      var stream := streams[number];
      match phase {
        case Heading =>
          after := if outcome.Works? then Looping else Ended;
        case Looping =>
          if closing || stream.cancelled || outcome.Fails? {
            return Leaving;
          }
          after := Peeking;
        case Peeking =>
          if outcome.PeerGone? {
            streams := streams[number := stream.(cancelled := true)];
            return Dropping;
          }
          after := if outcome.Works? then Taking else Leaving;
        case Dropping =>
          Append(TransportClosed(number));
          after := Leaving;
        case Taking =>
          if stream.queue == [] {
            return Looping;
          }
          streams := streams[number := stream.(queue := stream.queue[1..])];
          after := Writing(stream.queue[0]);
        case Writing(action) =>
          after := match outcome case Works => Recording(action) case PeerGone => Losing case Fails => Leaving;
        case Losing =>
          Append(PeerClosed(number));
          after := Leaving;
        case Recording(action) =>
          Append(Sent(number, Render(stream.id, action)));
          after := if action.Complete? || outcome.Fails? then Leaving else Looping;
        case Leaving =>
          streams := streams[number := stream.(closed := true)];
          after := Noting;
        case Noting =>
          Append(Closed(number));
          after := Ended;
        case Ended =>
          after := Ended;
      }
    }

    /** `notifications/cancelled`, under the lock. */
    method Cancel(id: Value)
      requires Valid()
      modifies this
      ensures Valid()
      ensures View() == CancelFrom(old(View()), id, 0)
      ensures CancelsAll(old(View()), View(), id, 0)
    {
      CancelExactly(View(), id);
      var number := 0;
      while number <= next
        invariant Valid() && next == old(next)
        invariant CancelFrom(View(), id, number) == CancelFrom(old(View()), id, 0)
        decreases next + 1 - number
      {
        if number in streams && streams[number].id == id {
          streams := streams[number := streams[number].(cancelled := true)];
          Append(Cancelled(number));
        }
        number := number + 1;
      }
    }

    /** `stale[-1]`: the comprehension meets the streams in the order of their numbers. */
    method LastStale(number: nat) returns (stale: Option<nat>)
      ensures stale == Stale(streams, number)
      ensures stale.Some? ==> IsStale(streams, number, stale.value)
      ensures stale.None? ==> forall m :: 0 <= m < number && m in streams ==> !streams[m].cancelled
    {
      StaleIs(streams, number);
      stale := None;
      for row := 0 to number
        invariant stale == Stale(streams, row)
      {
        if row in streams && streams[row].cancelled {
          stale := Some(row);
        }
      }
    }

    /** `emit` when no other thread runs between its sections. */
    method Emit(number: nat, kind: Option<Kind>) returns (ok: bool)
      requires Valid()
      modifies this
      ensures Valid()
      ensures View() == EmitAlone(old(View()), number, kind)
      ensures Emits(old(View()), View(), number, kind)
    {
      EmitIs(View(), number, kind);
      if number !in streams {
        return false;
      }
      var late, action := kind == Some(Late), ActionOf(kind, streams[number].id);
      if late && !streams[number].closed {
        var stale := LastStale(number);
        if stale.None? {
          return false;
        }
        StaleIsCancelled(streams, number);
        action := Notice(Late, Some(streams[stale.value].id));
      }
      if streams[number].closed || streams[number].cancelled {
        if late {
          Append(LateAfterClose(number));
        }
        return late;
      }
      if |streams[number].queue| >= CAPACITY {
        return false;
      }
      streams := streams[number := streams[number].(queue := streams[number].queue + [action])];
      return true;
    }
  }

  lemma {:induction false} StaleIsCancelled(streams: map<nat, Stream>, number: nat)
    ensures
      var stale := Stale(streams, number);
      stale.Some? ==> stale.value < number && stale.value in streams && streams[stale.value].cancelled
  {
    if number > 0 {
      StaleIsCancelled(streams, number - 1);
    }
  }

  function EmitAlone(f: Fixture, number: nat, kind: Option<Kind>): Fixture {
    var begun := EmitBegin(f, number, kind);
    var ready := if begun.Scanning? then EmitScan(f, number) else begun;
    if !ready.Ready? || number !in f.streams then f
    else
      var (checked, emission) := EmitCheck(f, number, ready.late, ready.action);
      if emission.Putting? then EmitPut(checked, number, ready.action) else checked
  }
}
