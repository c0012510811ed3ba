/** The validating frame relay `Fixture.frames` of scripts/codex/isolated_environment_skills_fixture.py. */
module FrameRelay {
  import opened Wrappers
  import opened Bytes
  import opened WebSocketFrames

  const MAX_FRAME := 65_536
  const MAX_COUNT := 96

  /** The FIN bit is set, the reserved bits are not, the mask bit suits the side, the opcode is known. */
  predicate HeaderPasses(first: Byte, second: Byte, client: bool) {
    && 128 <= first < 128 + 16
    && (second >= 128) == client
    && Low4(first) in {1, 2, 8, 9, 10}
  }

  predicate SizePasses(opcode: nat, size: nat) {
    size <= MAX_FRAME && (opcode < 8 || size <= 125)
  }

  /** One frame, byte for byte. */
  datatype RelayFrame = RelayFrame(first: Byte, second: Byte, extension: seq<Byte>, mask: seq<Byte>, payload: seq<Byte>) {

    function Opcode(): nat { Low4(first) }

    predicate IsMasked() { second >= 128 }

    function Bytes(): seq<Byte> { [first, second] + extension + mask + payload }

    function DeclaredSize(): nat {
      if Low7(second) < 126 then Low7(second) else Unpack(extension)
    }

    /** Every part has the length its header declares. */
    predicate Whole() {
      && |extension| == ExtensionWidth(Low7(second))
      && |mask| == (if IsMasked() then 4 else 0)
      && |payload| == DeclaredSize()
    }

    /** The checks of sections 5.2 and 5.5 of RFC 6455 that the relay makes before it forwards. */
    predicate Passes(client: bool) {
      && Whole()
      && HeaderPasses(first, second, client)
      && SizePasses(Opcode(), |payload|)
    }

    /** What the inspection of text and binary frames sees. */
    function Decoded(): seq<Byte> {
      if |mask| == 4 then Masked(payload, mask) else payload
    }

    predicate IsClose() { Opcode() == 8 }
  }

  function Concat(frames: seq<RelayFrame>): seq<Byte> {
    if frames == [] then [] else Concat(frames[..|frames| - 1]) + frames[|frames| - 1].Bytes()
  }

  // ----- The first frame of a stream

  datatype First = Stuck | Found(frame: RelayFrame, rest: seq<Byte>)

  /** What stands at the front of a stream by its own length fields. */
  function ShapeOf(s: seq<Byte>): First {
    if |s| < 2 || |s| < 2 + ExtensionWidth(Low7(s[1])) then Stuck
    else
      var n := 2 + ExtensionWidth(Low7(s[1]));
      BodyOf(s[0], s[1], s[2..n], s[n..])
  }

  function BodyOf(first: Byte, second: Byte, extension: seq<Byte>, s: seq<Byte>): First {
    var m := if second >= 128 then 4 else 0;
    var size := if Low7(second) < 126 then Low7(second) else Unpack(extension);
    if |s| < m + size then Stuck
    else Found(RelayFrame(first, second, extension, s[..m], s[m..m + size]), s[m + size..])
  }

  /** The frame a stream starts with, when it passes every check. */
  function FirstOf(s: seq<Byte>, client: bool): First {
    match ShapeOf(s)
    case Found(frame, rest) => if frame.Passes(client) then Found(frame, rest) else Stuck
    case Stuck => Stuck
  }

  lemma FrameParts(f: RelayFrame, rest: seq<Byte>)
    ensures
      var s := f.Bytes() + rest;
      var n := 2 + |f.extension|;
      && |s| >= n && s[0] == f.first && s[1] == f.second
      && s[2..n] == f.extension
      && s[n..] == f.mask + f.payload + rest
  {
  }

  lemma BodySplits(f: RelayFrame, rest: seq<Byte>)
    requires f.Whole()
    ensures BodyOf(f.first, f.second, f.extension, f.mask + f.payload + rest) == Found(f, rest)
  {
    var s := f.mask + f.payload + rest;
    assert s[..|f.mask|] == f.mask;
    assert s[|f.mask|..|f.mask| + |f.payload|] == f.payload;
    assert s[|f.mask| + |f.payload|..] == rest;
  }

  lemma BodyJoins(first: Byte, second: Byte, extension: seq<Byte>, s: seq<Byte>)
    ensures
      match BodyOf(first, second, extension, s)
      case Stuck => true
      case Found(f, rest) => s == f.mask + f.payload + rest && f.first == first && f.second == second && f.extension == extension
  {
  }

  lemma CutAt(s: seq<Byte>, n: nat)
    requires 2 <= n <= |s|
    ensures s == [s[0], s[1]] + s[2..n] + s[n..]
  {
  }

  lemma BytesThen(f: RelayFrame, rest: seq<Byte>)
    ensures f.Bytes() + rest == [f.first, f.second] + f.extension + (f.mask + f.payload + rest)
  {
  }

  lemma ShapeJoins(s: seq<Byte>)
    ensures
      match ShapeOf(s)
      case Stuck => true
      case Found(f, rest) => s == f.Bytes() + rest && f.Whole()
  {
    if ShapeOf(s).Found? {
      var n := 2 + ExtensionWidth(Low7(s[1]));
      BodyJoins(s[0], s[1], s[2..n], s[n..]);
      CutAt(s, n);
      BytesThen(ShapeOf(s).frame, ShapeOf(s).rest);
    }
  }

  lemma ShapeSplits(f: RelayFrame, rest: seq<Byte>)
    requires f.Whole()
    ensures ShapeOf(f.Bytes() + rest) == Found(f, rest)
  {
    FrameParts(f, rest);
    BodySplits(f, rest);
  }

  /** A stream starts with at most one frame that passes, and this is how to tell it. */
  lemma FirstIsExact(s: seq<Byte>, client: bool, f: RelayFrame, rest: seq<Byte>)
    ensures FirstOf(s, client) == Found(f, rest) <==> s == f.Bytes() + rest && f.Passes(client)
  {
    ShapeJoins(s);
    if s == f.Bytes() + rest && f.Passes(client) {
      ShapeSplits(f, rest);
    }
  }

  class Sink {
    var sent: seq<Byte>

    constructor ()
      ensures sent == []
    {
      sent := [];
    }

    method SendAll(bytes: seq<Byte>)
      modifies this
      ensures sent == old(sent) + bytes
    {
      sent := sent + bytes;
    }
  }

  /** `read_exact`: all the bytes asked for, or an end of file. */
  method ReadExact(source: Stream, size: nat) returns (r: Result<seq<Byte>>)
    modifies source
    ensures r.Failure? <==> |old(source.data)| < size
    ensures r.Success? ==> r.value == old(source.data)[..size] && source.data == old(source.data)[size..]
  {
    var data := source.Read(size);
    return if |data| == size then Success(data) else Failure;
  }

  lemma BadHeaderSticks(s: seq<Byte>, client: bool)
    requires |s| >= 2 && !HeaderPasses(s[0], s[1], client)
    ensures FirstOf(s, client) == Stuck
  {
  }

  method ReadExtension(source: Stream, second: Byte) returns (r: Result<seq<Byte>>)
    modifies source
    ensures r.Failure? <==> |old(source.data)| < ExtensionWidth(Low7(second))
    ensures r.Success? ==>
              && r.value == old(source.data)[..ExtensionWidth(Low7(second))]
              && source.data == old(source.data)[ExtensionWidth(Low7(second))..]
  {
    var size := Low7(second);
    if size == 126 || size == 127 {
      r := ReadExact(source, if size == 126 then 2 else 8);
    } else {
      r := Success([]);
    }
  }

  method ReadRest(source: Stream, first: Byte, second: Byte, extension: seq<Byte>) returns (r: Result<RelayFrame>)
    modifies source
    ensures
      match BodyOf(first, second, extension, old(source.data))
      case Stuck => r == Failure
      case Found(frame, rest) =>
        if SizePasses(Low4(first), |frame.payload|) then r == Success(frame) && source.data == rest else r == Failure
  {
    var size := if Low7(second) < 126 then Low7(second) else Unpack(extension);
    if !SizePasses(Low4(first), size) {
      return Failure;
    }
    ghost var s := source.data;
    var mask := ReadExact(source, if second >= 128 then 4 else 0);
    if mask.Failure? {
      return Failure;
    }
    var payload := ReadExact(source, size);
    if payload.Failure? {
      return Failure;
    }
    assert payload.value == s[|mask.value|..|mask.value| + size];
    return Success(RelayFrame(first, second, extension, mask.value, payload.value));
  }

  /** The part of the loop that reads and checks one frame. */
  method ReadRelayFrame(source: Stream, client: bool) returns (r: Result<RelayFrame>)
    modifies source
    ensures
      match FirstOf(old(source.data), client)
      case Stuck => r == Failure
      case Found(frame, rest) => r == Success(frame) && source.data == rest
  {
    ghost var s := source.data;
    var prefix := ReadExact(source, 2);
    if prefix.Failure? {
      return Failure;
    }
    var first, second := prefix.value[0], prefix.value[1];
    if !HeaderPasses(first, second, client) {
      BadHeaderSticks(s, client);
      return Failure;
    }
    var extension := ReadExtension(source, second);
    if extension.Failure? {
      return Failure;
    }
    ghost var n := 2 + ExtensionWidth(Low7(second));
    assert extension.value == s[2..n] && source.data == s[n..];
    assert ShapeOf(s) == BodyOf(first, second, s[2..n], s[n..]);
    ShapeJoins(s);
    r := ReadRest(source, first, second, extension.value);
  }

  // ----- The relay

  /** Why the relay stopped. */
  datatype Outcome = Closed | Finished | Refused

  /** One side of the relay: whether it reads the client, what the loop sees of `closed` before its
      frame number i, and the inspection of text and binary payloads: the token check, JSON and the
      operation checks. */
  datatype Side = Side(client: bool, closed: nat -> bool, admitted: (nat, seq<Byte>) -> bool) {

    predicate Admits(f: RelayFrame, i: nat) {
      f.Opcode() in {1, 2} ==> admitted(i, f.Decoded())
    }

    predicate Clears(f: RelayFrame, i: nat) {
      f.Passes(client) && Admits(f, i) && !closed(i)
    }
  }

  predicate Ended(frames: seq<RelayFrame>) {
    frames != [] && frames[|frames| - 1].IsClose()
  }

  /** What has been forwarded is a prefix of the input made of whole frames that passed; at most 96, none
      after a close frame. */
  ghost predicate Forwarded(input: seq<Byte>, side: Side, frames: seq<RelayFrame>) {
    && Concat(frames) <= input
    && |frames| <= MAX_COUNT
    && (forall i :: 0 <= i < |frames| ==> side.Clears(frames[i], i))
    && (forall i :: 0 <= i < |frames| - 1 ==> !frames[i].IsClose())
  }

  /** The reason to stop is the right one for what is left of the input. */
  ghost predicate Stopped(rest: seq<Byte>, side: Side, frames: seq<RelayFrame>, outcome: Outcome) {
    match outcome
    case Finished => Ended(frames)
    case Closed => !Ended(frames) && side.closed(|frames|)
    case Refused =>
      && !Ended(frames) && !side.closed(|frames|)
      && forall f: RelayFrame, more :: rest == f.Bytes() + more && f.Passes(side.client) ==>
          |frames| == MAX_COUNT || !side.Admits(f, |frames|)
  }

  /** The relay forwarded exactly these frames and stopped for this reason. */
  ghost predicate Run(input: seq<Byte>, side: Side, frames: seq<RelayFrame>, outcome: Outcome) {
    Forwarded(input, side, frames) && Stopped(input[|Concat(frames)|..], side, frames, outcome)
  }

  lemma ConcatMore(frames: seq<RelayFrame>, f: RelayFrame)
    ensures Concat(frames + [f]) == Concat(frames) + f.Bytes()
  {
    assert (frames + [f])[..|frames|] == frames;
  }

  lemma SentMore(sent: seq<Byte>, frames: seq<RelayFrame>, f: RelayFrame)
    ensures (sent + Concat(frames)) + f.Bytes() == sent + Concat(frames + [f])
  {
    ConcatMore(frames, f);
  }

  /** The loop between two frames: `data` is still to be read and no close frame was forwarded. */
  ghost predicate Relaying(input: seq<Byte>, side: Side, frames: seq<RelayFrame>, data: seq<Byte>) {
    Forwarded(input, side, frames) && !Ended(frames) && data == input[|Concat(frames)|..]
  }

  lemma ConcatForwards(input: seq<Byte>, frames: seq<RelayFrame>, f: RelayFrame, rest: seq<Byte>)
    requires Concat(frames) <= input && input[|Concat(frames)|..] == f.Bytes() + rest
    ensures Concat(frames + [f]) <= input && input[|Concat(frames + [f])|..] == rest
  {
    ConcatMore(frames, f);
    assert input == Concat(frames) + (f.Bytes() + rest);
    assert input == Concat(frames + [f]) + rest;
  }

  lemma Forwards(input: seq<Byte>, side: Side, frames: seq<RelayFrame>, data: seq<Byte>, f: RelayFrame, rest: seq<Byte>)
    requires Relaying(input, side, frames, data) && |frames| < MAX_COUNT && !side.closed(|frames|)
    requires FirstOf(data, side.client) == Found(f, rest) && side.Admits(f, |frames|)
    ensures Forwarded(input, side, frames + [f]) && rest == input[|Concat(frames + [f])|..]
  {
    FirstIsExact(data, side.client, f, rest);
    ConcatForwards(input, frames, f, rest);
    assert side.Clears(f, |frames|);
  }

  lemma Refuses(input: seq<Byte>, side: Side, frames: seq<RelayFrame>, data: seq<Byte>)
    requires Relaying(input, side, frames, data) && !side.closed(|frames|)
    requires
      match FirstOf(data, side.client)
      case Stuck => true
      case Found(f, _) => |frames| == MAX_COUNT || !side.Admits(f, |frames|)
    ensures Run(input, side, frames, Refused)
  {
    forall f: RelayFrame, more | data == f.Bytes() + more && f.Passes(side.client)
      ensures |frames| == MAX_COUNT || !side.Admits(f, |frames|)
    {
      FirstIsExact(data, side.client, f, more);
    }
  }

  /** `source` holds what arrives before the peer or the fixture closes. */
  method Frames(source: Stream, target: Sink, side: Side) returns (outcome: Outcome, ghost frames: seq<RelayFrame>)
    requires source != target as object
    modifies source, target
    ensures target.sent == old(target.sent) + Concat(frames)
    ensures Run(old(source.data), side, frames, outcome)
  {
    frames := [];
    var count := 0;
    ghost var input := source.data;
    while !side.closed(count)
      invariant count == |frames|
      invariant target.sent == old(target.sent) + Concat(frames)
      invariant Relaying(input, side, frames, source.data)
      decreases MAX_COUNT - count
    {
      ghost var data := source.data;
      var read := ReadRelayFrame(source, side.client);
      if read.Failure? || count + 1 > MAX_COUNT || !side.Admits(read.value, count) {
        Refuses(input, side, frames, data);
        return Refused, frames;
      }
      var frame := read.value;
      target.SendAll(frame.Bytes());
      Forwards(input, side, frames, data, frame, source.data);
      SentMore(old(target.sent), frames, frame);
      frames := frames + [frame];
      count := count + 1;
      if frame.IsClose() {
        return Finished, frames;
      }
    }
    return Closed, frames;
  }

  // ----- The run is determined by its input

  lemma {:induction false} ConcatPrefix(frames: seq<RelayFrame>, k: nat)
    requires k <= |frames|
    ensures Concat(frames[..k]) <= Concat(frames)
    ensures k < |frames| ==> Concat(frames[..k]) + frames[k].Bytes() <= Concat(frames)
  {
    if k < |frames| {
      var front := frames[..|frames| - 1];
      if k == |frames| - 1 {
        assert frames[..k] == front;
      } else {
        ConcatPrefix(front, k);
        assert frames[..k] == front[..k] && frames[k] == front[k];
      }
    } else {
      assert frames[..k] == frames;
    }
  }

  lemma {:induction false} SameFrames(input: seq<Byte>, side: Side, a: seq<RelayFrame>, b: seq<RelayFrame>, k: nat)
    requires Forwarded(input, side, a) && Forwarded(input, side, b)
    requires k <= |a| && k <= |b|
    ensures a[..k] == b[..k]
  {
    if k > 0 {
      SameFrames(input, side, a, b, k - 1);
      SameNext(input, side, a, b, k - 1);
      TakeOne(a, k - 1);
      TakeOne(b, k - 1);
    }
  }

  lemma TakeOne(frames: seq<RelayFrame>, k: nat)
    requires k < |frames|
    ensures frames[..k + 1] == frames[..k] + [frames[k]]
  {
  }

  lemma SameNext(input: seq<Byte>, side: Side, a: seq<RelayFrame>, b: seq<RelayFrame>, k: nat)
    requires Forwarded(input, side, a) && Forwarded(input, side, b)
    requires k < |a| && k < |b| && a[..k] == b[..k]
    ensures a[k] == b[k]
  {
    var done := Concat(a[..k]);
    ConcatPrefix(a, k);
    ConcatPrefix(b, k);
    NextFrame(input, done, a[k], side.client);
    NextFrame(input, done, b[k], side.client);
  }

  lemma NextFrame(input: seq<Byte>, done: seq<Byte>, f: RelayFrame, client: bool)
    requires done + f.Bytes() <= input && f.Passes(client)
    ensures FirstOf(input[|done|..], client).Found? && FirstOf(input[|done|..], client).frame == f
    ensures exists more :: input[|done|..] == f.Bytes() + more
  {
    var more := input[|done| + |f.Bytes()|..];
    assert input == done + f.Bytes() + more;
    assert input[|done|..] == f.Bytes() + more;
    FirstIsExact(input[|done|..], client, f, more);
  }

  /** A run that forwards less than another on the same input had no reason to stop. */
  lemma NoShorterRun(input: seq<Byte>, side: Side, a: seq<RelayFrame>, b: seq<RelayFrame>, outcome: Outcome)
    requires Run(input, side, a, outcome) && Forwarded(input, side, b)
    ensures |b| <= |a|
  {
    if |b| > |a| {
      SameFrames(input, side, a, b, |a|);
      assert a[..|a|] == a;
      ConcatPrefix(b, |a|);
      NextFrame(input, Concat(a), b[|a|], side.client);
    }
  }

  /** The frames forwarded and the reason to stop follow from the input alone. */
  lemma RunIsDetermined(input: seq<Byte>, side: Side, a: seq<RelayFrame>, b: seq<RelayFrame>, outcomeA: Outcome,
          outcomeB: Outcome)
    requires Run(input, side, a, outcomeA) && Run(input, side, b, outcomeB)
    ensures a == b && outcomeA == outcomeB
  {
    NoShorterRun(input, side, a, b, outcomeA);
    NoShorterRun(input, side, b, a, outcomeB);
    SameFrames(input, side, a, b, |a|);
    assert a[..|a|] == a && b[..|a|] == b;
  }
}
