/** Bytes, big-endian numbers (`struct` with "!" or ">") and the XOR mask of section 5.3 of RFC 6455. */
module Bytes {

  type Byte = x: int | 0 <= x < 256

  /** `byte & 127`. */
  function Low7(b: Byte): nat {
    if b >= 128 then b - 128 else b
  }

  /** `byte & 15`. */
  function Low4(b: nat): (r: nat)
    ensures r < 16
  {
    if b < 16 then b else Low4(b - 16)
  }

  lemma {:induction false} Low4Is(k: nat, opcode: nat)
    requires opcode < 16
    ensures Low4(16 * k + opcode) == opcode
  {
    if k > 0 {
      Low4Is(k - 1, opcode);
    }
  }

  function Power256(width: nat): nat {
    if width == 0 then 1 else 256 * Power256(width - 1)
  }

  /** The last byte of a number and the number without it; by subtraction, which keeps division out of the
      proofs about whole frames. */
  function LastByte(n: nat): Byte {
    if n < 256 then n else LastByte(n - 256)
  }

  function OtherBytes(n: nat): nat {
    if n < 256 then 0 else 1 + OtherBytes(n - 256)
  }

  lemma {:induction false} LastAndOthers(n: nat)
    ensures n == 256 * OtherBytes(n) + LastByte(n)
  {
    if n >= 256 {
      LastAndOthers(n - 256);
    }
  }

  lemma {:induction false} OthersAndLast(n: nat, b: Byte)
    ensures OtherBytes(256 * n + b) == n && LastByte(256 * n + b) == b
  {
    if n > 0 {
      OthersAndLast(n - 1, b);
    }
  }

  /** `struct.pack` of an unsigned number into `width` bytes. */
  function Pack(n: nat, width: nat): (bytes: seq<Byte>)
    ensures |bytes| == width
    decreases width
  {
    if width == 0 then [] else Pack(OtherBytes(n), width - 1) + [LastByte(n)]
  }

  /** `struct.unpack` of an unsigned number. */
  function Unpack(bytes: seq<Byte>): nat {
    if bytes == [] then 0 else 256 * Unpack(bytes[..|bytes| - 1]) + bytes[|bytes| - 1]
  }

  lemma {:induction false} UnpackPack(n: nat, width: nat)
    requires n < Power256(width)
    ensures Unpack(Pack(n, width)) == n
    decreases width
  {
    LastAndOthers(n);
    if width > 0 {
      UnpackPack(OtherBytes(n), width - 1);
      assert Pack(n, width)[..width - 1] == Pack(OtherBytes(n), width - 1);
    }
  }

  lemma {:induction false} PackUnpack(bytes: seq<Byte>)
    ensures Unpack(bytes) < Power256(|bytes|)
    ensures Pack(Unpack(bytes), |bytes|) == bytes
  {
    if bytes != [] {
      var front, last := bytes[..|bytes| - 1], bytes[|bytes| - 1];
      PackUnpack(front);
      OthersAndLast(Unpack(front), last);
      assert bytes == front + [last];
    }
  }

  function Power2(bits: nat): nat {
    if bits == 0 then 1 else 2 * Power2(bits - 1)
  }

  /** The exclusive or of the lowest bits of two numbers. */
  function XorBits(a: nat, b: nat, bits: nat): nat {
    if bits == 0 then 0
    else 2 * XorBits(a / 2, b / 2, bits - 1) + if a % 2 == b % 2 then 0 else 1
  }

  lemma {:induction false} XorBitsTwice(a: nat, b: nat, bits: nat)
    requires a < Power2(bits)
    ensures XorBits(XorBits(a, b, bits), b, bits) == a
  {
    if bits > 0 {
      XorBitsTwice(a / 2, b / 2, bits - 1);
      assert XorBits(a, b, bits) / 2 == XorBits(a / 2, b / 2, bits - 1);
    }
  }

  lemma {:induction false} XorBitsBound(a: nat, b: nat, bits: nat)
    ensures XorBits(a, b, bits) < Power2(bits)
  {
    if bits > 0 {
      XorBitsBound(a / 2, b / 2, bits - 1);
    }
  }

  lemma EightBits()
    ensures Power2(8) == 256
  {
    assert Power2(4) == 2 * Power2(3) == 4 * Power2(2) == 16;
    assert Power2(8) == 2 * Power2(7) == 4 * Power2(6) == 8 * Power2(5) == 16 * Power2(4);
  }

  function Xor(a: Byte, b: Byte): Byte {
    EightBits();
    XorBitsBound(a, b, 8);
    XorBits(a, b, 8)
  }

  lemma XorTwice(a: Byte, k: Byte)
    ensures Xor(Xor(a, k), k) == a
  {
    EightBits();
    XorBitsTwice(a, k, 8);
  }

  /** Each byte of the payload with the key byte at its index modulo four. */
  function Masked(payload: seq<Byte>, key: seq<Byte>): (bytes: seq<Byte>)
    requires |key| == 4
    ensures |bytes| == |payload|
  {
    if payload == [] then []
    else
      var last := |payload| - 1;
      Masked(payload[..last], key) + [Xor(payload[last], key[last % 4])]
  }

  lemma {:induction false} MaskedAt(payload: seq<Byte>, key: seq<Byte>, i: nat)
    requires |key| == 4 && i < |payload|
    ensures Masked(payload, key)[i] == Xor(payload[i], key[i % 4])
  {
    var last := |payload| - 1;
    if i < last {
      MaskedAt(payload[..last], key, i);
    }
  }

  /** Masking is its own inverse. */
  lemma {:induction false} MaskedTwice(payload: seq<Byte>, key: seq<Byte>)
    requires |key| == 4
    ensures Masked(Masked(payload, key), key) == payload
  {
    if payload != [] {
      var last := |payload| - 1;
      MaskedTwice(payload[..last], key);
      XorTwice(payload[last], key[last % 4]);
      assert Masked(payload, key)[..last] == Masked(payload[..last], key);
      assert payload == payload[..last] + [payload[last]];
    }
  }

  /** At most `n` bytes from the front, as a stream read gives them. */
  function Take(s: seq<Byte>, n: nat): (r: seq<Byte>)
    ensures |r| == if n < |s| then n else |s|
    ensures r == s[..|r|]
  {
    if n < |s| then s[..n] else s
  }
}
