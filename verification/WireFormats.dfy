/** The bytes of WebSocket frames, said with the bits and numbers of sections 5.2 and 5.3 of RFC 6455: what `frame` and
    `read_frame` of scripts/codex/auth_interaction_fixture.py write and read, and what the relay of
    scripts/codex/isolated_environment_skills_fixture.py lets pass. */
module WireFormats {
  import opened Wrappers
  import opened Bytes
  import opened WebSocketFrames
  import opened FrameRelay

  // ----- Numbers and bits

  /** The first byte is the most significant. */
  function BigEndian(bytes: seq<Byte>): nat {
    if bytes == [] then 0 else bytes[0] * Power256(|bytes| - 1) + BigEndian(bytes[1..])
  }

  lemma {:induction false} BigEndianEnds(bytes: seq<Byte>)
    requires bytes != []
    ensures BigEndian(bytes) == 256 * BigEndian(bytes[..|bytes| - 1]) + bytes[|bytes| - 1]
  {
    var front, rest := bytes[..|bytes| - 1], bytes[1..];
    if |bytes| > 1 {
      BigEndianEnds(rest);
      assert rest[..|rest| - 1] == front[1..];
      Shifted(bytes[0], |front|, BigEndian(front[1..]));
    }
  }

  lemma Shifted(first: nat, width: nat, rest: nat)
    requires width >= 1
    ensures 256 * (first * Power256(width - 1) + rest) == first * Power256(width) + 256 * rest
  {
    assert Power256(width) == 256 * Power256(width - 1);
  }

  lemma {:induction false} UnpackIsBigEndian(bytes: seq<Byte>)
    ensures Unpack(bytes) == BigEndian(bytes)
  {
    if bytes != [] {
      UnpackIsBigEndian(bytes[..|bytes| - 1]);
      BigEndianEnds(bytes);
    }
  }

  /** The i-th bit of a number. */
  function Bit(x: nat, i: nat): nat {
    if i == 0 then x % 2 else Bit(x / 2, i - 1)
  }

  lemma {:induction false} XorBitsAt(a: nat, b: nat, bits: nat, i: nat)
    requires i < bits
    ensures Bit(XorBits(a, b, bits), i) == (Bit(a, i) + Bit(b, i)) % 2
  {
    var x := XorBits(a, b, bits);
    assert x / 2 == XorBits(a / 2, b / 2, bits - 1);
    if i > 0 {
      XorBitsAt(a / 2, b / 2, bits - 1, i - 1);
    }
  }

  /** Masking adds the bits of the key byte to those of each payload byte, the key repeating every four bytes. */
  lemma MaskedBitwise(payload: seq<Byte>, key: seq<Byte>, i: nat, bit: nat)
    requires |key| == 4 && i < |payload| && bit < 8
    ensures Bit(Masked(payload, key)[i], bit) == (Bit(payload[i], bit) + Bit(key[i % 4], bit)) % 2
  {
    MaskedAt(payload, key, i);
    XorBitsAt(payload[i], key[i % 4], 8, bit);
  }

  lemma {:induction false} Low4IsRemainder(b: nat)
    ensures Low4(b) == b % 16
  {
    if b >= 16 {
      Low4IsRemainder(b - 16);
    }
  }

  lemma Low7IsRemainder(b: Byte)
    ensures Low7(b) == b % 128
  {
  }

  // ----- What is read

  /** The length that the second byte and the extension declare. */
  predicate Declares(second: Byte, extension: seq<Byte>, size: nat) {
    var length := second % 128;
    if length < 126 then extension == [] && size == length
    else |extension| == (if length == 126 then 2 else 8) && size == BigEndian(extension)
  }

  /** The stream starts with a final frame of this opcode and payload: its header, the key when the mask bit is set, and
      the payload, masked or not. An empty payload may end the stream within its key. */
  predicate Decodes(s: seq<Byte>, extension: seq<Byte>, key: seq<Byte>, body: seq<Byte>, opcode: nat,
          payload: seq<Byte>, rest: seq<Byte>)
  {
    && |s| >= 2 && s == [s[0], s[1]] + (extension + (key + (body + rest)))
    && s[0] / 128 == 1 && opcode == s[0] % 16
    && Declares(s[1], extension, |body|) && |body| <= 4_194_304
    && IsKey(s[1] / 128 == 1, key, body, rest)
    && payload == if |key| == 4 then Masked(body, key) else body
  }

  lemma SizeDeclares(second: Byte, t: seq<Byte>) returns (extension: seq<Byte>)
    requires SizeOf(Low7(second), t).Sized?
    ensures t == extension + SizeOf(Low7(second), t).rest
    ensures Declares(second, extension, SizeOf(Low7(second), t).size)
  {
    Low7IsRemainder(second);
    extension := t[..ExtensionWidth(Low7(second))];
    UnpackIsBigEndian(extension);
  }

  predicate IsKey(masked: bool, key: seq<Byte>, body: seq<Byte>, rest: seq<Byte>) {
    if masked then |key| == 4 || (|key| < 4 && body == [] && rest == []) else key == []
  }

  lemma PayloadSplits(masked: bool, size: nat, t: seq<Byte>, opcode: nat, payload: seq<Byte>, rest: seq<Byte>)
    returns (key: seq<Byte>, body: seq<Byte>)
    requires ReadPayload(opcode, masked, size, t) == Read(opcode, payload, rest)
    ensures t == key + (body + rest) && |body| == size && IsKey(masked, key, body, rest)
    ensures payload == if |key| == 4 then Masked(body, key) else body
  {
    key := Take(t, if masked then 4 else 0);
    var after := t[|key|..];
    body := after[..size];
    assert after == body + rest && t == key + after;
  }

  lemma ReadParts(s: seq<Byte>)
    requires ReadOf(s).Read?
    ensures |s| >= 2 && s[0] / 128 == 1 && SizeOf(Low7(s[1]), s[2..]).Sized?
    ensures
      var sized := SizeOf(Low7(s[1]), s[2..]);
      sized.size <= LIMIT && ReadOf(s) == ReadPayload(s[0] % 16, s[1] / 128 == 1, sized.size, sized.rest)
  {
    Low4IsRemainder(s[0]);
  }

  lemma ReadDecodes(s: seq<Byte>, opcode: nat, payload: seq<Byte>, rest: seq<Byte>)
    requires ReadOf(s) == Read(opcode, payload, rest)
    ensures exists extension, key, body :: Decodes(s, extension, key, body, opcode, payload, rest)
  {
    ReadParts(s);
    var sized := SizeOf(Low7(s[1]), s[2..]);
    var extension := SizeDeclares(s[1], s[2..]);
    var key, body := PayloadSplits(s[1] / 128 == 1, sized.size, sized.rest, s[0] % 16, payload, rest);
    TwoAndRest(s);
    assert Decodes(s, extension, key, body, opcode, payload, rest);
  }

  lemma TwoAndRest(s: seq<Byte>)
    requires |s| >= 2
    ensures s == [s[0], s[1]] + s[2..]
  {
  }

  lemma Ungrouped(s: seq<Byte>, extension: seq<Byte>, key: seq<Byte>, body: seq<Byte>, rest: seq<Byte>)
    requires |s| >= 2 && s == [s[0], s[1]] + (extension + (key + (body + rest)))
    ensures s[2..] == extension + (key + (body + rest))
  {
  }

  lemma BodyUngrouped(key: seq<Byte>, body: seq<Byte>, rest: seq<Byte>)
    ensures
      var t := key + (body + rest);
      t[..|key|] == key && t[|key|..] == body + rest && t[|key|..][..|body|] == body && t[|key|..][|body|..] == rest
  {
  }

  lemma DeclaredSize(second: Byte, extension: seq<Byte>, size: nat, t: seq<Byte>)
    requires Declares(second, extension, size)
    ensures SizeOf(Low7(second), extension + t) == Sized(size, t)
  {
    Low7IsRemainder(second);
    UnpackIsBigEndian(extension);
    assert (extension + t)[..|extension|] == extension && (extension + t)[|extension|..] == t;
  }

  lemma PayloadJoins(opcode: nat, masked: bool, key: seq<Byte>, body: seq<Byte>, rest: seq<Byte>)
    requires IsKey(masked, key, body, rest)
    ensures ReadPayload(opcode, masked, |body|, key + (body + rest)) ==
            Read(opcode, if |key| == 4 then Masked(body, key) else body, rest)
  {
    KeyTaken(masked, key, body, rest);
    BodyUngrouped(key, body, rest);
  }

  lemma DecodedIsRead(s: seq<Byte>, extension: seq<Byte>, key: seq<Byte>, body: seq<Byte>, opcode: nat,
          payload: seq<Byte>, rest: seq<Byte>)
    requires Decodes(s, extension, key, body, opcode, payload, rest)
    ensures ReadOf(s) == Read(opcode, payload, rest)
  {
    Ungrouped(s, extension, key, body, rest);
    DeclaredSize(s[1], extension, |body|, key + (body + rest));
    PayloadJoins(opcode, s[1] / 128 == 1, key, body, rest);
    ReadBySize(s, |body|, key + (body + rest));
  }

  lemma ReadBySize(s: seq<Byte>, size: nat, t: seq<Byte>)
    requires |s| >= 2 && s[0] / 128 == 1 && SizeOf(Low7(s[1]), s[2..]) == Sized(size, t) && size <= LIMIT
    ensures ReadOf(s) == ReadPayload(s[0] % 16, s[1] / 128 == 1, size, t)
  {
    Low4IsRemainder(s[0]);
  }

  lemma KeyTaken(masked: bool, key: seq<Byte>, body: seq<Byte>, rest: seq<Byte>)
    requires IsKey(masked, key, body, rest)
    ensures Take(key + (body + rest), if masked then 4 else 0) == key
  {
    assert (key + (body + rest))[..|key|] == key;
  }

  /** `read_frame` finds a frame exactly when the stream starts with one, no frame exactly at the end of the stream,
      and breaks on everything else. */
  lemma ReadIsDecoding(s: seq<Byte>, opcode: nat, payload: seq<Byte>, rest: seq<Byte>)
    ensures ReadOf(s) == Read(opcode, payload, rest) <==>
            exists extension, key, body :: Decodes(s, extension, key, body, opcode, payload, rest)
    ensures ReadOf(s) == NoFrame <==> s == []
  {
    if ReadOf(s) == Read(opcode, payload, rest) {
      ReadDecodes(s, opcode, payload, rest);
    }
    if extension, key, body :| Decodes(s, extension, key, body, opcode, payload, rest) {
      DecodedIsRead(s, extension, key, body, opcode, payload, rest);
    }
  }

  // ----- What is written

  /** `frame` writes a final, unmasked frame with the shortest length, for every opcode below 128 and every payload
      whose size fits 64 bits, and fails on any other. */
  lemma FrameIs(payload: seq<Byte>, opcode: nat)
    ensures Frame(payload, opcode).Success? <==> opcode < 128 && |payload| < 18_446_744_073_709_551_616
    ensures Frame(payload, opcode).Success? ==> exists extension: seq<Byte> ::
      && Frame(payload, opcode).value == [128 + opcode, ShortestLength(|payload|)] + extension + payload
      && Declares(ShortestLength(|payload|), extension, |payload|)
  {
    EightBytes();
    if Frame(payload, opcode).Success? {
      var size, extension := |payload|, LengthExtension(|payload|);
      if size >= 126 {
        UnpackPack(size, |extension|);
        UnpackIsBigEndian(extension);
      }
      assert Declares(ShortestLength(size), extension, size);
    }
  }

  function ShortestLength(size: nat): Byte {
    if size <= 125 then size else if size <= 65_535 then 126 else 127
  }

  const HELLO: seq<Byte> := [0x48, 0x65, 0x6c, 0x6c, 0x6f]

  /** The first example of section 5.7 of RFC 6455: an unmasked text frame that holds "Hello". */
  lemma StandardExample()
    ensures Frame(HELLO, 1) == Success([0x81, 0x05, 0x48, 0x65, 0x6c, 0x6c, 0x6f])
  {
    FiveFramed(HELLO);
    assert [0x81, 0x05] + HELLO == [0x81, 0x05, 0x48, 0x65, 0x6c, 0x6c, 0x6f];
  }

  lemma FiveFramed(payload: seq<Byte>)
    requires |payload| == 5
    ensures Frame(payload, 1) == Success([0x81, 0x05] + payload)
  {
    EightBytes();
    assert [0x81, 0x05] + [] == [0x81, 0x05];
  }

  // ----- What the relay lets pass

  /** The header checks of the relay on the bits of the two bytes, and its size checks. */
  predicate Acceptable(first: Byte, second: Byte, size: nat, client: bool) {
    var opcode := first % 16;
    && first / 128 == 1 && (first / 16) % 8 == 0
    && (second / 128 == 1) == client
    && (opcode == 1 || opcode == 2 || opcode == 8 || opcode == 9 || opcode == 10)
    && size <= 65_536 && (opcode >= 8 ==> size <= 125)
  }

  /** A frame passes exactly when its parts have the declared lengths and its header and size are acceptable. */
  lemma PassesExactly(f: RelayFrame, client: bool)
    ensures f.Passes(client) <==>
      && Declares(f.second, f.extension, |f.payload|)
      && |f.mask| == (if f.second / 128 == 1 then 4 else 0)
      && Acceptable(f.first, f.second, |f.payload|, client)
    ensures f.IsClose() <==> f.first % 16 == 8
  {
    Low4IsRemainder(f.first);
    Low7IsRemainder(f.second);
    UnpackIsBigEndian(f.extension);
  }

  /** What the inspection sees of a frame: the payload, unmasked when the mask bit is set. */
  function Inspected(f: RelayFrame): seq<Byte> {
    if f.second / 128 == 1 && |f.mask| == 4 then Masked(f.payload, f.mask) else f.payload
  }

  /** The i-th frame that a side may forward: acceptable, before the other side closed, and admitted if it is a text or
      binary frame. */
  predicate MayForward(f: RelayFrame, i: nat, side: Side) {
    && Acceptable(f.first, f.second, |f.payload|, side.client)
    && !side.closed(i)
    && (f.first % 16 == 1 || f.first % 16 == 2 ==> side.admitted(i, Inspected(f)))
  }

  lemma ClearsExactly(f: RelayFrame, i: nat, side: Side)
    requires f.Whole()
    ensures side.Clears(f, i) <==> MayForward(f, i, side)
  {
    PassesExactly(f, side.client);
    Low4IsRemainder(f.first);
  }

  /** In every run of the relay: what it forwards are such frames, at most 96, of which only the last is a close frame. */
  lemma ForwardsOnly(input: seq<Byte>, side: Side, frames: seq<RelayFrame>, outcome: Outcome)
    requires FrameRelay.Run(input, side, frames, outcome)
    ensures |frames| <= 96
    ensures forall i :: 0 <= i < |frames| ==>
      MayForward(frames[i], i, side) && (frames[i].first % 16 == 8 ==> i == |frames| - 1)
  {
    forall i | 0 <= i < |frames|
      ensures MayForward(frames[i], i, side) && (frames[i].first % 16 == 8 ==> i == |frames| - 1)
    {
      assert side.Clears(frames[i], i);
      ClearsExactly(frames[i], i, side);
      PassesExactly(frames[i], side.client);
    }
  }

  /** It stops before a whole frame that it may forward only after a close frame or after 96 frames. */
  lemma ForwardsAll(input: seq<Byte>, side: Side, frames: seq<RelayFrame>, outcome: Outcome, f: RelayFrame,
          rest: seq<Byte>)
    requires FrameRelay.Run(input, side, frames, outcome)
    requires input[|Concat(frames)|..] == f.Bytes() + rest && MayForward(f, |frames|, side)
    requires Declares(f.second, f.extension, |f.payload|) && |f.mask| == if f.second / 128 == 1 then 4 else 0
    ensures |frames| == 96 || (frames != [] && frames[|frames| - 1].first % 16 == 8)
  {
    PassesExactly(f, side.client);
    ClearsExactly(f, |frames|, side);
    if frames != [] {
      PassesExactly(frames[|frames| - 1], side.client);
    }
  }
}
