/** The WebSocket framing of scripts/codex/auth_interaction_fixture.py: `frame` and `read_frame`. */
module WebSocketFrames {
  import opened Wrappers
  import opened Bytes

  const LIMIT := 4_194_304

  /** The length part of a header: seven bits, or an escape and a longer big-endian number. */
  function Length7(size: nat): (n: nat)
    ensures n < 128
  {
    if size < 126 then size else if size < 65_536 then 126 else 127
  }

  function LengthExtension(size: nat): seq<Byte> {
    if size < 126 then [] else if size < 65_536 then Pack(size, 2) else Pack(size, 8)
  }

  /** `frame`: `bytes` refuses an opcode that does not fit, `struct.pack` a size over 64 bits. */
  function Frame(payload: seq<Byte>, opcode: nat): Result<seq<Byte>> {
    if opcode > 127 || |payload| >= Power256(8) then Failure
    else Success([128 + opcode, Length7(|payload|)] + LengthExtension(|payload|) + payload)
  }

  /** What one call of `read_frame` finds at the front of the stream. */
  datatype Reading = NoFrame | Broken | Read(opcode: nat, payload: seq<Byte>, rest: seq<Byte>)

  function ExtensionWidth(length7: nat): nat {
    if length7 == 126 then 2 else if length7 == 127 then 8 else 0
  }

  /** The payload size after the two header bytes, and what follows it. */
  datatype Sized = Short | Sized(size: nat, rest: seq<Byte>)

  function SizeOf(length7: nat, s: seq<Byte>): Sized {
    var width := ExtensionWidth(length7);
    if width == 0 then Sized(length7, s)
    else if |s| < width then Short
    else Sized(Unpack(s[..width]), s[width..])
  }

  function ReadOf(s: seq<Byte>): Reading {
    if s == [] then NoFrame
    else if |s| < 2 || s[0] < 128 then Broken
    else
      match SizeOf(Low7(s[1]), s[2..])
      case Short => Broken
      case Sized(size, keyed) =>
        if size > LIMIT then Broken else ReadPayload(Low4(s[0]), s[1] >= 128, size, keyed)
  }

  function ReadPayload(opcode: nat, masked: bool, size: nat, s: seq<Byte>): Reading {
    var key := Take(s, if masked then 4 else 0);
    var after := s[|key|..];
    if |after| < size then Broken
    else Read(opcode, if masked && |key| == 4 then Masked(after[..size], key) else after[..size], after[size..])
  }

  class Stream {
    var data: seq<Byte>

    constructor (data: seq<Byte>)
      ensures this.data == data
    {
      this.data := data;
    }

    method Read(size: nat) returns (r: seq<Byte>)
      modifies this
      ensures r == Take(old(data), size) && data == old(data)[|r|..]
    {
      r := Take(data, size);
      data := data[|r|..];
    }
  }

  method ReadSize(stream: Stream, length7: nat) returns (size: Result<nat>)
    modifies stream
    ensures
      match SizeOf(length7, old(stream.data))
      case Short => size == Failure
      case Sized(n, rest) => size == Success(n) && stream.data == rest
  {
    if length7 == 126 {
      var extension := stream.Read(2);
      return if |extension| == 2 then Success(Unpack(extension)) else Failure;
    } else if length7 == 127 {
      var extension := stream.Read(8);
      return if |extension| == 8 then Success(Unpack(extension)) else Failure;
    }
    return Success(length7);
  }

  method ReadBody(stream: Stream, masked: bool, size: nat) returns (payload: Result<seq<Byte>>)
    modifies stream
    ensures forall opcode {:trigger ReadPayload(opcode, masked, size, old(stream.data))} ::
      match payload
      case Failure => ReadPayload(opcode, masked, size, old(stream.data)) == Broken
      case Success(bytes) => ReadPayload(opcode, masked, size, old(stream.data)) == Read(opcode, bytes, stream.data)
  {
    var key := [];
    if masked {
      key := stream.Read(4);
    }
    assert key == Take(old(stream.data), if masked then 4 else 0) && stream.data == old(stream.data)[|key|..];
    var bytes := stream.Read(size);
    if |bytes| != size {
      return Failure;
    }
    if masked && bytes != [] {
      bytes := Masked(bytes, key);
    } else if masked && |key| == 4 {
      assert Masked(bytes, key) == bytes;
    }
    return Success(bytes);
  }

  /** `read_frame`: None at the end of the stream, an error on anything but a whole frame. */
  method ReadFrame(stream: Stream) returns (r: Result<Option<(nat, seq<Byte>)>>)
    modifies stream
    ensures
      match ReadOf(old(stream.data))
      case NoFrame => r == Success(None) && stream.data == []
      case Broken => r == Failure
      case Read(opcode, payload, rest) => r == Success(Some((opcode, payload))) && stream.data == rest
  {
    var head := stream.Read(2);
    if head == [] {
      return Success(None);
    }
    if |head| != 2 || head[0] < 128 {
      return Failure;
    }
    var size := ReadSize(stream, Low7(head[1]));
    if size.Failure? || size.value > LIMIT {
      return Failure;
    }
    ghost var keyed := stream.data;
    var payload := ReadBody(stream, head[1] >= 128, size.value);
    assert ReadOf(old(stream.data)) == ReadPayload(Low4(head[0]), head[1] >= 128, size.value, keyed);
    if payload.Failure? {
      return Failure;
    }
    return Success(Some((Low4(head[0]), payload.value)));
  }

  // ----- Reading what was written

  lemma EightBytes()
    ensures Power256(2) == 65_536 && Power256(8) == 18_446_744_073_709_551_616
  {
    assert Power256(2) == 256 * Power256(1) == 256 * (256 * Power256(0));
    assert Power256(4) == 256 * Power256(3) == 256 * (256 * Power256(2));
    assert Power256(6) == 256 * Power256(5) == 256 * (256 * Power256(4));
    assert Power256(8) == 256 * Power256(7) == 256 * (256 * Power256(6));
  }

  lemma LimitFits()
    ensures LIMIT < Power256(8)
  {
    EightBytes();
  }

  lemma SizeRoundTrip(size: nat, tail: seq<Byte>)
    requires size < Power256(8)
    ensures SizeOf(Length7(size), LengthExtension(size) + tail) == Sized(size, tail)
  {
    EightBytes();
    var extension := LengthExtension(size);
    var s := extension + tail;
    assert s[..|extension|] == extension && s[|extension|..] == tail;
    if size >= 126 {
      UnpackPack(size, |extension|);
    }
  }

  /** An unmasked frame whose length part gives the payload's size. */
  lemma ReadUnmasked(opcode: nat, second: Byte, extension: seq<Byte>, payload: seq<Byte>, rest: seq<Byte>)
    requires opcode < 128 && second < 128 && |payload| <= LIMIT
    requires SizeOf(second, extension + (payload + rest)) == Sized(|payload|, payload + rest)
    ensures ReadOf([128 + opcode, second] + (extension + (payload + rest))) == Read(Low4(128 + opcode), payload, rest)
  {
    var tail := payload + rest;
    assert ([128 + opcode, second] + (extension + tail))[2..] == extension + tail;
    assert tail[0..] == tail;
  }

  /** A masked frame whose length part gives the payload's size. */
  lemma ReadMasked(opcode: nat, second: Byte, extension: seq<Byte>, key: seq<Byte>, payload: seq<Byte>, rest: seq<Byte>)
    requires opcode < 128 && second >= 128 && |payload| <= LIMIT && |key| == 4
    requires
      var tail := key + (Masked(payload, key) + rest);
      SizeOf(Low7(second), extension + tail) == Sized(|payload|, tail)
    ensures ReadOf([128 + opcode, second] + (extension + (key + (Masked(payload, key) + rest)))) ==
            Read(Low4(128 + opcode), payload, rest)
  {
    var body := Masked(payload, key);
    var tail := key + (body + rest);
    assert ([128 + opcode, second] + (extension + tail))[2..] == extension + tail;
    MaskedBody(Low4(128 + opcode), key, payload, rest);
  }

  lemma MaskedBody(opcode: nat, key: seq<Byte>, payload: seq<Byte>, rest: seq<Byte>)
    requires |key| == 4
    ensures ReadPayload(opcode, true, |payload|, key + (Masked(payload, key) + rest)) == Read(opcode, payload, rest)
  {
    var body := Masked(payload, key);
    var tail := key + (body + rest);
    assert Take(tail, 4) == key && tail[4..] == body + rest;
    assert (body + rest)[..|payload|] == body && (body + rest)[|payload|..] == rest;
    MaskedTwice(payload, key);
  }

  /** A frame a peer may send: an opcode, a mask key from clients, a payload. */
  datatype Message = Message(opcode: nat, key: seq<Byte>, payload: seq<Byte>)

  predicate Sendable(m: Message) {
    m.opcode < 16 && (m.key == [] || |m.key| == 4) && |m.payload| <= LIMIT
  }

  /** The encoding of sections 5.2 and 5.3 of RFC 6455 for an unfragmented frame, and what follows it. */
  function WireThen(m: Message, rest: seq<Byte>): seq<Byte>
    requires Sendable(m)
  {
    var size := |m.payload|;
    if m.key == [] then
      [128 + m.opcode, Length7(size)] + (LengthExtension(size) + (m.payload + rest))
    else
      [128 + m.opcode, 128 + Length7(size)] + (LengthExtension(size) + (m.key + (Masked(m.payload, m.key) + rest)))
  }

  function Wire(m: Message): seq<Byte>
    requires Sendable(m)
  {
    WireThen(m, [])
  }

  lemma WireIsPrefix(m: Message, rest: seq<Byte>)
    requires Sendable(m)
    ensures WireThen(m, rest) == Wire(m) + rest
  {
    var size := |m.payload|;
    if m.key == [] {
      RegroupFour([128 + m.opcode, Length7(size)], LengthExtension(size), [], m.payload, rest);
      RegroupFour([128 + m.opcode, Length7(size)], LengthExtension(size), [], m.payload, []);
    } else {
      RegroupFour([128 + m.opcode, 128 + Length7(size)], LengthExtension(size), m.key, Masked(m.payload, m.key), rest);
      RegroupFour([128 + m.opcode, 128 + Length7(size)], LengthExtension(size), m.key, Masked(m.payload, m.key), []);
    }
  }

  lemma RegroupFour(a: seq<Byte>, b: seq<Byte>, c: seq<Byte>, d: seq<Byte>, rest: seq<Byte>)
    ensures a + (b + (c + (d + rest))) == (a + b + c + d) + rest
    ensures c == [] ==> a + (b + (d + rest)) == (a + b + c + d) + rest
  {
    assert (a + b + c + d) + rest == a + (b + (c + (d + rest)));
    assert c == [] ==> c + (d + rest) == d + rest;
  }

  lemma FrameThen(payload: seq<Byte>, opcode: nat, rest: seq<Byte>)
    requires Frame(payload, opcode).Success?
    ensures Frame(payload, opcode).value + rest ==
            [128 + opcode, Length7(|payload|)] + (LengthExtension(|payload|) + (payload + rest))
  {
  }

  /** `frame` writes the unmasked encoding. */
  lemma FrameIsWire(payload: seq<Byte>, opcode: nat)
    requires opcode < 16 && |payload| <= LIMIT
    ensures Frame(payload, opcode) == Success(Wire(Message(opcode, [], payload)))
  {
    LimitFits();
    FrameThen(payload, opcode, []);
    assert Frame(payload, opcode).value + [] == Frame(payload, opcode).value;
  }

  lemma ReadUnmaskedWire(opcode: nat, payload: seq<Byte>, rest: seq<Byte>)
    requires opcode < 16 && |payload| <= LIMIT
    ensures ReadOf([128 + opcode, Length7(|payload|)] + (LengthExtension(|payload|) + (payload + rest))) ==
            Read(Low4(128 + opcode), payload, rest)
  {
    LimitFits();
    SizeRoundTrip(|payload|, payload + rest);
    ReadUnmasked(opcode, Length7(|payload|), LengthExtension(|payload|), payload, rest);
  }

  lemma ReadMaskedWire(opcode: nat, key: seq<Byte>, payload: seq<Byte>, rest: seq<Byte>)
    requires opcode < 16 && |key| == 4 && |payload| <= LIMIT
    ensures
      ReadOf([128 + opcode, 128 + Length7(|payload|)] +
             (LengthExtension(|payload|) + (key + (Masked(payload, key) + rest)))) ==
      Read(Low4(128 + opcode), payload, rest)
  {
    LimitFits();
    SizeRoundTrip(|payload|, key + (Masked(payload, key) + rest));
    ReadMasked(opcode, 128 + Length7(|payload|), LengthExtension(|payload|), key, payload, rest);
  }

  /** Reading gives a written message back and leaves the rest of the stream. */
  lemma ReadWire(m: Message, rest: seq<Byte>)
    requires Sendable(m)
    ensures ReadOf(WireThen(m, rest)) == Read(m.opcode, m.payload, rest)
  {
    Low4Is(8, m.opcode);
    if m.key == [] {
      ReadUnmaskedWire(m.opcode, m.payload, rest);
    } else {
      ReadMaskedWire(m.opcode, m.key, m.payload, rest);
    }
  }

  /** Reading until the stream ends; nothing when a frame is broken. */
  function ReadAll(s: seq<Byte>): Result<seq<(nat, seq<Byte>)>>
    decreases |s|
  {
    match ReadOf(s)
    case NoFrame => Success([])
    case Broken => Failure
    case Read(opcode, payload, rest) =>
      ReadIsShorter(s);
      var more :- ReadAll(rest);
      Success([(opcode, payload)] + more)
  }

  lemma ReadIsShorter(s: seq<Byte>)
    ensures ReadOf(s).Read? ==> |ReadOf(s).rest| < |s|
  {
  }

  predicate AllSendable(messages: seq<Message>) {
    forall i :: 0 <= i < |messages| ==> Sendable(messages[i])
  }

  function WireAll(messages: seq<Message>): seq<Byte>
    requires AllSendable(messages)
  {
    if messages == [] then [] else Wire(messages[0]) + WireAll(messages[1..])
  }

  function Contents(messages: seq<Message>): (r: seq<(nat, seq<Byte>)>)
    ensures |r| == |messages|
    ensures forall i :: 0 <= i < |r| ==> r[i] == (messages[i].opcode, messages[i].payload)
  {
    seq(|messages|, i requires 0 <= i < |messages| => (messages[i].opcode, messages[i].payload))
  }

  lemma ReadAllStep(s: seq<Byte>, opcode: nat, payload: seq<Byte>, rest: seq<Byte>, more: seq<(nat, seq<Byte>)>)
    requires ReadOf(s) == Read(opcode, payload, rest) && ReadAll(rest) == Success(more)
    ensures ReadAll(s) == Success([(opcode, payload)] + more)
  {
  }

  lemma ReadAllMore(m: Message, rest: seq<Byte>, more: seq<(nat, seq<Byte>)>)
    requires Sendable(m) && ReadAll(rest) == Success(more)
    ensures ReadAll(Wire(m) + rest) == Success([(m.opcode, m.payload)] + more)
  {
    var s := Wire(m) + rest;
    assert ReadOf(s) == Read(m.opcode, m.payload, rest) by {
      WireIsPrefix(m, rest);
      ReadWire(m, rest);
    }
    ReadAllStep(s, m.opcode, m.payload, rest, more);
  }

  /** Reading the concatenation of any frames, masked or not, gives exactly their opcodes and payloads and
      then the end of the stream. */
  lemma {:induction false} ReadAllWire(messages: seq<Message>)
    requires AllSendable(messages)
    ensures ReadAll(WireAll(messages)) == Success(Contents(messages))
  {
    if messages == [] {
      assert WireAll(messages) == [];
    } else {
      var m, rest := messages[0], WireAll(messages[1..]);
      ReadAllWire(messages[1..]);
      ReadAllMore(m, rest, Contents(messages[1..]));
      assert Contents(messages) == [(m.opcode, m.payload)] + Contents(messages[1..]);
    }
  }

  lemma ReadTooLong(opcode: nat, second: Byte, extension: seq<Byte>, size: nat, tail: seq<Byte>)
    requires opcode < 128 && second < 128 && size > LIMIT
    requires SizeOf(second, extension + tail) == Sized(size, tail)
    ensures ReadOf([128 + opcode, second] + (extension + tail)) == Broken
  {
    assert ([128 + opcode, second] + (extension + tail))[2..] == extension + tail;
  }

  /** `read_frame` gives back what `frame` wrote exactly when the opcode fits its four bits and the
      payload keeps the limit. */
  lemma FrameReadsBack(payload: seq<Byte>, opcode: nat, rest: seq<Byte>)
    requires Frame(payload, opcode).Success?
    ensures ReadOf(Frame(payload, opcode).value + rest) == Read(opcode, payload, rest) <==> opcode < 16 && |payload| <= LIMIT
  {
    var size := |payload|;
    if opcode < 16 {
      Low4Is(8, opcode);
    }
    FrameThen(payload, opcode, rest);
    SizeRoundTrip(size, payload + rest);
    if size > LIMIT {
      ReadTooLong(opcode, Length7(size), LengthExtension(size), size, payload + rest);
    } else {
      ReadUnmasked(opcode, Length7(size), LengthExtension(size), payload, rest);
    }
  }
}
