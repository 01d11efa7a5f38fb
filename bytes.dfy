/** Byte-level vocabulary shared by the MRG decoder model: the unsigned
    widths the decoder computes in, the one-bit rotation and the exclusive
    or applied to table bytes, little-endian 32-bit fields and
    zero-terminated name fields. */
module Bytes {

  /** A value of C++ type u8. */
  type Byte = b: int | 0 <= b < 0x100

  /** A value of C++ type u32. */
  type U32 = x: int | 0 <= x < 0x1_0000_0000

  /** Modulus of u32 arithmetic. */
  const U32Modulus: int := 0x1_0000_0000

  /** Modulus of size_t arithmetic (a 64-bit platform). */
  const SizeModulus: int := 0x1_0000_0000_0000_0000

  /** rol8(b, 1): rotate a byte left by one bit; the top bit moves to the
      bottom. */
  function Rol1(b: Byte): Byte
  {
    if b < 0x80 then 2 * b else 2 * b - 0xFF
  }

  /** Rol1 is the rotation: the byte shifted left by one bit, truncated to
      eight bits, with the bit shifted out entering at the bottom. */
  lemma Rol1IsRotation(b: Byte)
    ensures Rol1(b) == (2 * b) % 0x100 + b / 0x80
  {
  }

  /** The inverse rotation, used by the scrambling side only. */
  function Ror1(b: Byte): Byte
  {
    if b % 2 == 0 then b / 2 else b / 2 + 0x80
  }

  lemma RotationsInvert(b: Byte)
    ensures Ror1(Rol1(b)) == b
    ensures Rol1(Ror1(b)) == b
  {
  }

  function Pow2(e: nat): (p: nat)
    ensures p >= 1
  {
    if e == 0 then 1 else 2 * Pow2(e - 1)
  }

  /** The low `width` bits of the bitwise exclusive or of a and b. */
  function XorBits(a: nat, b: nat, width: nat): (r: nat)
    ensures r < Pow2(width)
  {
    if width == 0 then 0 else 2 * XorBits(a / 2, b / 2, width - 1) + (a % 2 + b % 2) % 2
  }

  /** Bits in a byte. */
  const ByteWidth: nat := 8

  /** a ^ b on bytes. */
  function Xor(a: Byte, b: Byte): Byte
  {
    assert Pow2(ByteWidth) == 0x100;
    XorBits(a, b, ByteWidth)
  }

  lemma {:induction false} XorBitsCancel(a: nat, b: nat, width: nat)
    requires a < Pow2(width)
    ensures XorBits(XorBits(a, b, width), b, width) == a
  {
    if width > 0 {
      var x := XorBits(a, b, width);
      var high := XorBits(a / 2, b / 2, width - 1);
      var pa, pb := a % 2, b % 2;
      XorBitsUnfold(a, b, width);
      HalveTwice(x, high, (pa + pb) % 2);
      XorBitsCancel(a / 2, b / 2, width - 1);
      BitCancels(pa, pb);
      XorBitsUnfold(x, b, width);
      assert XorBits(x / 2, b / 2, width - 1) == a / 2;
      assert (x % 2 + pb) % 2 == pa;
    }
  }

  lemma XorBitsUnfold(a: nat, b: nat, width: nat)
    requires width > 0
    ensures XorBits(a, b, width) == 2 * XorBits(a / 2, b / 2, width - 1) + (a % 2 + b % 2) % 2
  {
  }

  lemma BitCancels(p: nat, q: nat)
    requires p < 2 && q < 2
    ensures ((p + q) % 2 + q) % 2 == p
  {
  }

  lemma HalveTwice(x: nat, high: nat, low: nat)
    requires low < 2 && x == 2 * high + low
    ensures x / 2 == high && x % 2 == low
  {
  }

  lemma {:induction false} XorBitsCommutes(a: nat, b: nat, width: nat)
    ensures XorBits(a, b, width) == XorBits(b, a, width)
  {
    if width > 0 {
      XorBitsCommutes(a / 2, b / 2, width - 1);
    }
  }

  /** XOR with the same byte twice is the identity. */
  lemma XorCancel(a: Byte, b: Byte)
    ensures Xor(Xor(a, b), b) == a
  {
    assert Pow2(ByteWidth) == 0x100;
    XorBitsCancel(a, b, ByteWidth);
  }

  lemma XorCommutes(a: Byte, b: Byte)
    ensures Xor(a, b) == Xor(b, a)
  {
    XorBitsCommutes(a, b, ByteWidth);
  }

  /** The byte XORed in is determined by the input and the output. */
  lemma XorSolve(a: Byte, k: Byte, c: Byte)
    requires Xor(a, k) == c
    ensures Xor(a, c) == k
  {
    XorCommutes(a, k);
    XorCommutes(a, c);
    XorCancel(k, a);
  }

  /** The u32 stored little-endian at s[at..at+4]. */
  function LE32(s: seq<Byte>, at: nat): (v: U32)
    requires at + 4 <= |s|
    ensures v % 0x100 == s[at]
    ensures v / 0x100_0000 == s[at + 3]
  {
    var b0: int, b1: int, b2: int, b3: int := s[at], s[at + 1], s[at + 2], s[at + 3];
    b0 + 0x100 * b1 + 0x1_0000 * b2 + 0x100_0000 * b3
  }

  /** A u32 field reads the same from a sequence as from the four bytes
      holding it. */
  lemma LE32Slice(s: seq<Byte>, at: nat)
    requires at + 4 <= |s|
    ensures LE32(s, at) == LE32(s[at..at + 4], 0)
  {
  }

  /** The four little-endian bytes of a u32: the writing side of LE32. */
  function U32Bytes(x: U32): (s: seq<Byte>)
    ensures |s| == 4 && LE32(s, 0) == x
  {
    SplitU32(x);
    [x % 0x100, x / 0x100 % 0x100, x / 0x1_0000 % 0x100, x / 0x100_0000]
  }

  lemma SplitU32(x: U32)
    ensures x / 0x100_0000 < 0x100
    ensures x == x % 0x100 + 0x100 * (x / 0x100 % 0x100) + 0x1_0000 * (x / 0x1_0000 % 0x100)
                 + 0x100_0000 * (x / 0x100_0000)
  {
    var q1 := x / 0x100;
    var q2 := q1 / 0x100;
    assert x == x % 0x100 + 0x100 * q1;
    assert q1 == q1 % 0x100 + 0x100 * q2;
    assert q2 == x / 0x1_0000;
    assert q2 == q2 % 0x100 + 0x100 * (q2 / 0x100);
    assert q2 / 0x100 == x / 0x100_0000;
  }

  /** read_to_zero on a fixed-width field: the bytes before the first zero
      byte, or the whole field when it holds no zero byte. */
  function TrimAtZero(field: seq<Byte>): (name: seq<Byte>)
    ensures name <= field
    ensures 0 !in name
    ensures |name| < |field| ==> field[|name|] == 0
  {
    if field == [] || field[0] == 0 then []
    else [field[0]] + TrimAtZero(field[1..])
  }

  /** A name padded with zero bytes reads back unchanged when it holds no
      zero byte itself. */
  lemma {:induction false} TrimAtZeroOfPadded(name: seq<Byte>, pad: seq<Byte>)
    requires 0 !in name
    requires pad == [] || pad[0] == 0
    ensures TrimAtZero(name + pad) == name
  {
    if name != [] {
      assert (name + pad)[1..] == name[1..] + pad;
      TrimAtZeroOfPadded(name[1..], pad);
    }
  }
}

/** The decoder's error kinds and a failure-compatible result type. */
module Outcomes {

  datatype Error =
    | UnexpectedEof   // a seek, skip or read outside the stream
    | KeyNotFound     // "Failed to guess the key"

  datatype Result<+T> = Success(value: T) | Failure(error: Error) {

    predicate IsFailure() {
      Failure?
    }

    function PropagateFailure<U>(): Result<U>
      requires Failure?
    {
      Failure(error)
    }

    function Extract(): T
      requires Success?
    {
      value
    }
  }
}
