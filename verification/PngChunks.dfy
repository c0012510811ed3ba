/** The PNG check `assert_png` of scripts/codex/isolated_queue_image_fixture.py, after base64 decoding. CRC-32
    and zlib are functions given from outside. */
module PngChunks {
  import opened Wrappers
  import opened Bytes

  const SIGNATURE: seq<Byte> := [137, 80, 78, 71, 13, 10, 26, 10]
  const IHDR: seq<Byte> := [73, 72, 68, 82]
  const IDAT: seq<Byte> := [73, 68, 65, 84]
  const IEND: seq<Byte> := [73, 69, 78, 68]
  const LIMIT := 4096

  type Word = x: int | 0 <= x < 4_294_967_296

  /** CRC-32 of a byte string, and zlib decompression where it succeeds. */
  datatype Codec = Codec(crc: seq<Byte> -> Word, decompress: seq<Byte> -> Option<seq<Byte>>)

  datatype Chunk = Chunk(kind: seq<Byte>, payload: seq<Byte>)

  predicate Known(kind: seq<Byte>) {
    kind == IHDR || kind == IDAT || kind == IEND
  }

  predicate Sound(c: Chunk) {
    Known(c.kind) && |c.payload| <= LIMIT
  }

  /** Length, kind, payload and checksum: section 5.3 of the PNG Specification, Third Edition. */
  function Encode(c: Chunk, codec: Codec): seq<Byte> {
    Pack(|c.payload|, 4) + (c.kind + (c.payload + Pack(codec.crc(c.kind + c.payload), 4)))
  }

  function EncodeAll(chunks: seq<Chunk>, codec: Codec): seq<Byte> {
    if chunks == [] then [] else Encode(chunks[0], codec) + EncodeAll(chunks[1..], codec)
  }

  /** What one pass of the loop takes off the front. */
  datatype Step = Refused | Took(chunk: Chunk, rest: seq<Byte>)

  function FirstChunk(rest: seq<Byte>, codec: Codec): Step {
    if |rest| < 12 then Refused
    else
      var size := Unpack(rest[..4]);
      if size > LIMIT || |rest| < size + 12 then Refused
      else TakeChunk(rest[4..8], rest[8..8 + size], rest[8 + size..12 + size], rest[12 + size..], codec)
  }

  function TakeChunk(kind: seq<Byte>, payload: seq<Byte>, crc: seq<Byte>, rest: seq<Byte>, codec: Codec): Step {
    if Unpack(crc) == codec.crc(kind + payload) && Known(kind) then Took(Chunk(kind, payload), rest) else Refused
  }

  lemma FourBytes()
    ensures Power256(4) == 4_294_967_296
  {
    assert Power256(4) == 256 * Power256(3) == 256 * (256 * (256 * Power256(1)));
  }

  lemma Parts(a: seq<Byte>, kind: seq<Byte>, payload: seq<Byte>, crc: seq<Byte>, rest: seq<Byte>)
    requires |a| == 4 && |kind| == 4 && |crc| == 4
    ensures
      var s, n := (a + (kind + (payload + crc))) + rest, |payload|;
      && |s| >= n + 12
      && s[..4] == a && s[4..8] == kind && s[8..8 + n] == payload && s[8 + n..12 + n] == crc && s[12 + n..] == rest
  {
  }

  lemma Joined(s: seq<Byte>, n: nat)
    requires |s| >= n + 12
    ensures s == (s[..4] + (s[4..8] + (s[8..8 + n] + s[8 + n..12 + n]))) + s[12 + n..]
  {
  }

  /** A chunk is taken exactly when its encoding stands at the front. */
  lemma FirstIsExact(s: seq<Byte>, c: Chunk, rest: seq<Byte>, codec: Codec)
    ensures FirstChunk(s, codec) == Took(c, rest) <==> s == Encode(c, codec) + rest && Sound(c)
  {
    FourBytes();
    if s == Encode(c, codec) + rest && Sound(c) {
      var crc := codec.crc(c.kind + c.payload);
      Parts(Pack(|c.payload|, 4), c.kind, c.payload, Pack(crc, 4), rest);
      UnpackPack(|c.payload|, 4);
      UnpackPack(crc, 4);
    }
    if FirstChunk(s, codec) == Took(c, rest) {
      var size := Unpack(s[..4]);
      Joined(s, size);
      PackUnpack(s[..4]);
      PackUnpack(s[8 + size..12 + size]);
    }
  }

  function ParseChunks(rest: seq<Byte>, codec: Codec): Result<seq<Chunk>>
    decreases |rest|
  {
    if rest == [] then Success([])
    else
      match FirstChunk(rest, codec)
      case Refused => Failure
      case Took(chunk, next) =>
        var more :- ParseChunks(next, codec);
        Success([chunk] + more)
  }

  /** The loop accepts exactly the encodings of lists of sound chunks, with no byte left over. */
  lemma {:induction false} ParseIsExact(s: seq<Byte>, chunks: seq<Chunk>, codec: Codec)
    ensures ParseChunks(s, codec) == Success(chunks) <==>
            s == EncodeAll(chunks, codec) && forall i :: 0 <= i < |chunks| ==> Sound(chunks[i])
    decreases |s|
  {
    if chunks != [] {
      var rest := EncodeAll(chunks[1..], codec);
      FirstIsExact(s, chunks[0], rest, codec);
      match FirstChunk(s, codec)
      case Refused =>
      case Took(c, next) =>
        FirstIsExact(s, c, next, codec);
        ParseIsExact(next, chunks[1..], codec);
        assert chunks == [chunks[0]] + chunks[1..];
    }
  }

  // ----- The image

  function Repeat(bytes: seq<Byte>, n: nat): seq<Byte> {
    if n == 0 then [] else bytes + Repeat(bytes, n - 1)
  }

  /** Filter byte zero and one fixed colour for each pixel of a row. */
  function Row(width: nat): seq<Byte> {
    [0] + Repeat([17, 34, 51], width)
  }

  function Pixels(width: nat, height: nat): seq<Byte> {
    Repeat(Row(width), height)
  }

  lemma {:induction false} RepeatSize(bytes: seq<Byte>, n: nat)
    ensures |Repeat(bytes, n)| == |bytes| * n
  {
    if n > 0 {
      RepeatSize(bytes, n - 1);
      assert |bytes| * n == |bytes| + |bytes| * (n - 1);
    }
  }

  lemma PixelsSize(width: nat, height: nat)
    ensures |Pixels(width, height)| == (1 + 3 * width) * height
  {
    RepeatSize([17, 34, 51], width);
    RepeatSize(Row(width), height);
  }

  lemma {:induction false} RepeatAt(bytes: seq<Byte>, n: nat, i: nat, k: nat)
    requires i < n && k < |bytes|
    ensures i * |bytes| + k < |Repeat(bytes, n)| && Repeat(bytes, n)[i * |bytes| + k] == bytes[k]
  {
    RepeatSize(bytes, n);
    if i > 0 {
      RepeatAt(bytes, n - 1, i - 1, k);
      assert i * |bytes| == |bytes| + (i - 1) * |bytes|;
      assert (bytes + Repeat(bytes, n - 1))[|bytes| + ((i - 1) * |bytes| + k)] == Repeat(bytes, n - 1)[(i - 1) * |bytes| + k];
    }
  }

  lemma RowAt(width: nat, x: nat, k: nat)
    requires x < width && k < 3
    ensures |Row(width)| == 1 + 3 * width && Row(width)[0] == 0 && Row(width)[1 + 3 * x + k] == 17 * (k + 1)
  {
    RepeatSize([17, 34, 51], width);
    RepeatAt([17, 34, 51], width, x, k);
    assert Row(width)[1 + (x * 3 + k)] == Repeat([17, 34, 51], width)[x * 3 + k];
  }

  /** Each row starts with the filter byte zero, and each of its pixels has the samples 17, 34 and 51. */
  lemma PixelAt(width: nat, height: nat, y: nat, x: nat, k: nat)
    requires y < height && x < width && k < 3
    ensures
      var at := y * (1 + 3 * width);
      && at + 1 + 3 * x + k < |Pixels(width, height)|
      && Pixels(width, height)[at] == 0 && Pixels(width, height)[at + (1 + 3 * x + k)] == 17 * (k + 1)
  {
    RowAt(width, x, k);
    RepeatAt(Row(width), height, y, 0);
    RepeatAt(Row(width), height, y, 1 + 3 * x + k);
  }

  /** The parts of an encoded chunk, and the chunk that every image ends with. */
  lemma EncodedParts(c: Chunk, codec: Codec)
    requires |c.kind| == 4 && |c.payload| < 65_536
    ensures
      var s, n := Encode(c, codec), |c.payload|;
      && |s| == n + 12 && s[..4] == Pack(n, 4) && Unpack(s[..4]) == n && s[4..8] == c.kind && s[8..8 + n] == c.payload
      && Unpack(s[8 + n..]) == codec.crc(s[4..8 + n])
    ensures c == Chunk(IEND, []) ==> Encode(c, codec)[..8] == [0, 0, 0, 0, 0x49, 0x45, 0x4e, 0x44]
  {
    FourBytes();
    var n, crc := |c.payload|, codec.crc(c.kind + c.payload);
    var s := Encode(c, codec);
    Parts(Pack(n, 4), c.kind, c.payload, Pack(crc, 4), []);
    assert s + [] == s;
    UnpackPack(n, 4);
    UnpackPack(crc, 4);
    assert s[4..8 + n] == s[4..8] + s[8..8 + n];
    if c == Chunk(IEND, []) {
      FourZeros();
      assert s[..8] == s[..4] + s[4..8];
    }
  }

  lemma FourZeros()
    ensures Pack(0, 4) == [0, 0, 0, 0]
  {
    assert Pack(0, 1) == [] + [0] && Pack(0, 2) == [0] + [0] && Pack(0, 3) == [0, 0] + [0];
  }

  /** Eight-bit RGB without interlacing. */
  function Header(width: nat, height: nat): seq<Byte> {
    Pack(width, 4) + Pack(height, 4) + [8, 2, 0, 0, 0]
  }

  /** `struct.unpack(">IIBBBBB", ...)` and the comparisons with what is expected. */
  predicate HeaderMatches(header: seq<Byte>, width: nat, height: nat) {
    && |header| == 13
    && Unpack(header[..4]) == width && Unpack(header[4..8]) == height
    && header[8..] == [8, 2, 0, 0, 0]
  }

  lemma HeaderIsExact(header: seq<Byte>, width: nat, height: nat)
    ensures HeaderMatches(header, width, height) <==>
            width < Power256(4) && height < Power256(4) && header == Header(width, height)
  {
    if HeaderMatches(header, width, height) {
      PackUnpack(header[..4]);
      PackUnpack(header[4..8]);
      assert header == header[..4] + header[4..8] + header[8..];
    }
    if width < Power256(4) && height < Power256(4) && header == Header(width, height) {
      UnpackPack(width, 4);
      UnpackPack(height, 4);
      assert header[..4] == Pack(width, 4) && header[4..8] == Pack(height, 4);
    }
  }

  function Image(width: nat, height: nat, compressed: seq<Byte>): seq<Chunk> {
    [Chunk(IHDR, Header(width, height)), Chunk(IDAT, compressed), Chunk(IEND, [])]
  }

  /** The bytes of a PNG with exactly these three chunks, which decompress to the expected pixels. */
  ghost predicate IsImage(data: seq<Byte>, width: nat, height: nat, codec: Codec) {
    && |data| <= LIMIT && width < Power256(4) && height < Power256(4)
    && exists compressed ::
        && codec.decompress(compressed) == Some(Pixels(width, height))
        && data == SIGNATURE + EncodeAll(Image(width, height, compressed), codec)
  }

  predicate ChunksMatch(chunks: seq<Chunk>, width: nat, height: nat, codec: Codec) {
    && |chunks| == 3
    && chunks[0].kind == IHDR && chunks[1].kind == IDAT && chunks[2].kind == IEND
    && HeaderMatches(chunks[0].payload, width, height)
    && chunks[2].payload == []
    && codec.decompress(chunks[1].payload) == Some(Pixels(width, height))
  }

  lemma MatchedIsImage(chunks: seq<Chunk>, width: nat, height: nat, codec: Codec)
    requires ChunksMatch(chunks, width, height, codec)
    ensures width < Power256(4) && height < Power256(4)
    ensures chunks == Image(width, height, chunks[1].payload)
  {
    HeaderIsExact(chunks[0].payload, width, height);
    assert chunks == [chunks[0], chunks[1], chunks[2]];
  }

  lemma {:induction false} EncodedSize(chunks: seq<Chunk>, i: nat, codec: Codec)
    requires i < |chunks|
    ensures |chunks[i].payload| <= |EncodeAll(chunks, codec)|
  {
    if i > 0 {
      EncodedSize(chunks[1..], i - 1, codec);
    }
  }

  lemma ImageParses(data: seq<Byte>, width: nat, height: nat, codec: Codec, compressed: seq<Byte>)
    requires |data| <= LIMIT && width < Power256(4) && height < Power256(4)
    requires codec.decompress(compressed) == Some(Pixels(width, height))
    requires data == SIGNATURE + EncodeAll(Image(width, height, compressed), codec)
    ensures ParseChunks(data[8..], codec) == Success(Image(width, height, compressed))
    ensures ChunksMatch(Image(width, height, compressed), width, height, codec)
  {
    var chunks := Image(width, height, compressed);
    assert data[8..] == EncodeAll(chunks, codec);
    EncodedSize(chunks, 1, codec);
    HeaderIsExact(Header(width, height), width, height);
    ParseIsExact(data[8..], chunks, codec);
  }

  lemma Thirteen()
    ensures Pack(13, 4) == [0, 0, 0, 13]
  {
    assert Pack(0, 1) == [] + [0] && Pack(0, 2) == [0] + [0] && Pack(0, 3) == [0, 0] + [0];
    assert Pack(13, 4) == Pack(0, 3) + [13];
  }

  lemma SlicesAfter(head: seq<Byte>, chunk: seq<Byte>, tail: seq<Byte>, i: nat, j: nat)
    requires i <= j <= |chunk|
    ensures |head + (chunk + tail)| >= |head| + j && (head + (chunk + tail))[|head| + i..|head| + j] == chunk[i..j]
  {
  }

  /** The signature, then an IHDR chunk for these dimensions, eight bits of RGB without interlacing, then an IDAT chunk. */
  predicate StartsAs(data: seq<Byte>, width: nat, height: nat) {
    && 41 <= |data| <= 4096
    && data[..8] == [0x89, 0x50, 0x4e, 0x47, 0x0d, 0x0a, 0x1a, 0x0a]
    && data[8..12] == [0, 0, 0, 13] && data[12..16] == [0x49, 0x48, 0x44, 0x52]
    && Unpack(data[16..20]) == width && Unpack(data[20..24]) == height && data[24..29] == [8, 2, 0, 0, 0]
    && data[37..41] == [0x49, 0x44, 0x41, 0x54]
  }

  lemma HeaderChunk(width: nat, height: nat, codec: Codec)
    requires width < Power256(4) && height < Power256(4)
    ensures
      var header, first := Header(width, height), Encode(Chunk(IHDR, Header(width, height)), codec);
      && |header| == 13 && Unpack(header[..4]) == width && Unpack(header[4..8]) == height && header[8..] == [8, 2, 0, 0, 0]
      && |first| == 25 && first[..4] == [0, 0, 0, 13] && first[4..8] == IHDR && first[8..21] == header
  {
    HeaderIsExact(Header(width, height), width, height);
    EncodedParts(Chunk(IHDR, Header(width, height)), codec);
    Thirteen();
  }

  lemma StartJoins(first: seq<Byte>, second: seq<Byte>, last: seq<Byte>, header: seq<Byte>, width: nat, height: nat)
    requires |header| == 13 && Unpack(header[..4]) == width && Unpack(header[4..8]) == height
    requires header[8..] == [8, 2, 0, 0, 0]
    requires |first| == 25 && first[..4] == [0, 0, 0, 13] && first[4..8] == IHDR && first[8..21] == header
    requires |second| >= 8 && second[4..8] == IDAT && |second| + |last| <= 4063
    ensures StartsAs(SIGNATURE + (first + (second + last)), width, height)
  {
    HeaderPlaces(SIGNATURE, first, second + last, header);
    SlicesAfter(SIGNATURE + first, second, last, 4, 8);
    assert SIGNATURE + (first + (second + last)) == (SIGNATURE + first) + (second + last);
  }

  lemma StartOfImage(data: seq<Byte>, width: nat, height: nat, codec: Codec, compressed: seq<Byte>)
    requires |data| <= LIMIT && width < Power256(4) && height < Power256(4)
    requires data == SIGNATURE + EncodeAll(Image(width, height, compressed), codec)
    ensures StartsAs(data, width, height)
  {
    var a, b, c := Chunk(IHDR, Header(width, height)), Chunk(IDAT, compressed), Chunk(IEND, []);
    ChunksInRow(a, b, c, codec);
    EncodedSize(Image(width, height, compressed), 1, codec);
    HeaderChunk(width, height, codec);
    EncodedParts(b, codec);
    StartJoins(Encode(a, codec), Encode(b, codec), EncodeAll([c], codec), Header(width, height), width, height);
  }

  /** How the data of an image starts. */
  lemma ImageStarts(data: seq<Byte>, width: nat, height: nat, codec: Codec)
    requires IsImage(data, width, height, codec)
    ensures StartsAs(data, width, height)
  {
    var compressed :| codec.decompress(compressed) == Some(Pixels(width, height))
      && data == SIGNATURE + EncodeAll(Image(width, height, compressed), codec);
    StartOfImage(data, width, height, codec, compressed);
  }

  lemma ChunksInRow(a: Chunk, b: Chunk, c: Chunk, codec: Codec)
    ensures EncodeAll([a, b, c], codec) == Encode(a, codec) + (Encode(b, codec) + EncodeAll([c], codec))
  {
    assert [a, b, c][1..] == [b, c] && [b, c][1..] == [c];
  }

  lemma HeaderPlaces(head: seq<Byte>, first: seq<Byte>, tail: seq<Byte>, header: seq<Byte>)
    requires |head| == 8 && |header| == 13 && |first| == 25 && first[8..21] == header
    ensures
      var data := head + (first + tail);
      && data[..8] == head && data[8..12] == first[..4] && data[12..16] == first[4..8]
      && data[16..20] == header[..4] && data[20..24] == header[4..8] && data[24..29] == header[8..]
  {
    var data := head + (first + tail);
    SlicesAfter(head, first, tail, 8, 21);
    assert data[16..29] == header;
    assert data[16..29][..4] == data[16..20] && data[16..29][4..8] == data[20..24] && data[16..29][8..] == data[24..29];
  }

  lemma ParsedIsImage(data: seq<Byte>, width: nat, height: nat, codec: Codec, chunks: seq<Chunk>)
    requires |data| <= LIMIT && SIGNATURE <= data && ParseChunks(data[8..], codec) == Success(chunks)
    ensures ChunksMatch(chunks, width, height, codec) <==> IsImage(data, width, height, codec)
  {
    assert data == SIGNATURE + data[8..];
    if ChunksMatch(chunks, width, height, codec) {
      MatchedIsImage(chunks, width, height, codec);
      ParseIsExact(data[8..], chunks, codec);
    }
    if IsImage(data, width, height, codec) {
      var compressed :| codec.decompress(compressed) == Some(Pixels(width, height))
        && data == SIGNATURE + EncodeAll(Image(width, height, compressed), codec);
      ImageParses(data, width, height, codec, compressed);
    }
  }

  lemma UnparsedIsNoImage(data: seq<Byte>, width: nat, height: nat, codec: Codec)
    requires |data| > LIMIT || !(SIGNATURE <= data) || ParseChunks(data[8..], codec).Failure?
    ensures !IsImage(data, width, height, codec)
  {
    if IsImage(data, width, height, codec) {
      var compressed :| codec.decompress(compressed) == Some(Pixels(width, height))
        && data == SIGNATURE + EncodeAll(Image(width, height, compressed), codec);
      ImageParses(data, width, height, codec, compressed);
    }
  }

  function Prepended(chunks: seq<Chunk>, r: Result<seq<Chunk>>): Result<seq<Chunk>> {
    match r case Failure => Failure case Success(more) => Success(chunks + more)
  }

  lemma PrependedNothing(r: Result<seq<Chunk>>)
    ensures Prepended([], r) == r
  {
    if r.Success? {
      assert [] + r.value == r.value;
    }
  }

  lemma ParseNext(done: seq<Chunk>, rest: seq<Byte>, codec: Codec)
    requires rest != [] && FirstChunk(rest, codec).Took?
    ensures
      var step := FirstChunk(rest, codec);
      Prepended(done, ParseChunks(rest, codec)) == Prepended(done + [step.chunk], ParseChunks(step.rest, codec))
  {
    var step := FirstChunk(rest, codec);
    match ParseChunks(step.rest, codec)
    case Failure =>
    case Success(more) =>
      assert done + ([step.chunk] + more) == done + [step.chunk] + more;
  }

  /** `assert_png` accepts exactly the bytes of the expected image. */
  method AssertPng(data: seq<Byte>, width: nat, height: nat, codec: Codec) returns (ok: bool)
    ensures ok <==> IsImage(data, width, height, codec)
  {
    if |data| > LIMIT || !(SIGNATURE <= data) {
      UnparsedIsNoImage(data, width, height, codec);
      return false;
    }
    var rest, chunks := data[8..], [];
    PrependedNothing(ParseChunks(rest, codec));
    while rest != []
      invariant ParseChunks(data[8..], codec) == Prepended(chunks, ParseChunks(rest, codec))
      decreases |rest|
    {
      var step := FirstChunk(rest, codec);
      if step.Refused? {
        UnparsedIsNoImage(data, width, height, codec);
        return false;
      }
      ParseNext(chunks, rest, codec);
      chunks := chunks + [step.chunk];
      rest := step.rest;
    }
    assert chunks + [] == chunks;
    ParsedIsImage(data, width, height, codec, chunks);
    return ChunksMatch(chunks, width, height, codec);
  }
}
