/**
 Bytes and machine words. Words are kept as bounded integers so that the length
 arithmetic of the codec is ordinary arithmetic; `^` is defined bit by bit.
 */
module Words {
  type byte = x: int | 0 <= x < 0x100
  type bytes = seq<byte>
  type u16 = x: int | 0 <= x < 0x1_0000
  type u32 = x: int | 0 <= x < 0x1_0000_0000

  // ----- big- and little-endian encodings -----

  /** The big-endian 16-bit word at index `i`. */
  function U16At(b: bytes, i: nat): u16
    requires i + 2 <= |b|
  {
    var high: int := b[i];
    0x100 * high + b[i + 1]
  }

  /** `n as u16`: the cast keeps the low 16 bits. */
  function AsU16(n: nat): u16 {
    n % 0x1_0000
  }

  lemma AsU16Small(n: nat)
    ensures AsU16(n) <= n && (AsU16(n) == n <==> n < 0x1_0000)
  {
  }

  lemma AsU16Aligned(n: nat)
    requires n % 4 == 0
    ensures AsU16(n) % 4 == 0
  {
    var k := n / 4 - 0x4000 * (n / 0x1_0000);
    assert AsU16(n) == 4 * k;
  }

  function High(n: u16): byte {
    n / 0x100
  }

  function Low(n: u16): byte {
    n % 0x100
  }

  lemma HighLow(n: u16)
    ensures 0x100 * High(n) + Low(n) == n
  {
  }

  lemma HighLowOf(high: byte, low: byte)
    ensures High(0x100 * high + low) == high && Low(0x100 * high + low) == low
  {
  }

  function U16Bytes(n: u16): (b: bytes)
    ensures |b| == 2 && U16At(b, 0) == n
  {
    HighLow(n);
    [High(n), Low(n)]
  }

  lemma U16BytesOf(b: bytes, i: nat)
    requires i + 2 <= |b|
    ensures U16Bytes(U16At(b, i)) == b[i..i + 2]
  {
    HighLowOf(b[i], b[i + 1]);
    hide High, Low;
  }

  /** Equal bytes make equal words. */
  lemma U16Same(a: bytes, i: nat, b: bytes, j: nat)
    requires i + 2 <= |a| && j + 2 <= |b| && a[i..i + 2] == b[j..j + 2]
    ensures U16At(a, i) == U16At(b, j)
  {
    assert a[i] == a[i..i + 2][0] && a[i + 1] == a[i..i + 2][1];
    assert b[j] == b[j..j + 2][0] && b[j + 1] == b[j..j + 2][1];
  }

  function U32Of(b: bytes): u32
    requires |b| >= 4
  {
    0x1_0000 * U16At(b, 0) + U16At(b, 2)
  }

  function U32Bytes(n: u32): (b: bytes)
    ensures |b| == 4 && U32Of(b) == n
  {
    var high, low := n / 0x1_0000, n % 0x1_0000;
    HighLow(high);
    HighLow(low);
    hide High, Low;
    [High(high), Low(high), High(low), Low(low)]
  }

  lemma U32BytesOf(b: bytes)
    requires |b| == 4
    ensures U32Bytes(U32Of(b)) == b
  {
    var high, low := U16At(b, 0), U16At(b, 2);
    assert U32Of(b) / 0x1_0000 == high && U32Of(b) % 0x1_0000 == low;
    HighLowOf(b[0], b[1]);
    HighLowOf(b[2], b[3]);
    hide High, Low;
  }

  function U32LeOf(b: bytes): u32
    requires |b| == 4
  {
    U32Of([b[3], b[2], b[1], b[0]])
  }

  function U32LeBytes(n: u32): (b: bytes)
    ensures |b| == 4 && U32LeOf(b) == n
  {
    var be := U32Bytes(n);
    [be[3], be[2], be[1], be[0]]
  }

  lemma U32LeBytesOf(b: bytes)
    requires |b| == 4
    ensures U32LeBytes(U32LeOf(b)) == b
  {
    U32BytesOf([b[3], b[2], b[1], b[0]]);
  }

  // ----- exclusive or -----

  function Half(n: nat): nat {
    n / 2
  }

  function Bit(n: nat): nat {
    n % 2
  }

  lemma HalfBit(n: nat)
    ensures n == 2 * Half(n) + Bit(n) && Bit(n) < 2
    ensures n > 0 ==> Half(n) < n
  {
  }

  lemma HalfBitOf(n: nat, bit: nat)
    requires bit < 2
    ensures Half(2 * n + bit) == n && Bit(2 * n + bit) == bit
  {
  }

  /** Bitwise exclusive or, lowest bit first. */
  function Xor(a: nat, b: nat): nat {
    if a == 0 && b == 0 then 0
    else
      HalfBit(a);
      HalfBit(b);
      2 * Xor(Half(a), Half(b)) + (if Bit(a) == Bit(b) then 0 else 1)
  }

  lemma XorZero()
    ensures Xor(0, 0) == 0
  {
  }

  lemma XorStep(a: nat, b: nat, i: nat, j: nat)
    requires i < 2 && j < 2
    ensures Xor(2 * a + i, 2 * b + j) == 2 * Xor(a, b) + (if i == j then 0 else 1)
  {
    HalfBitOf(a, i);
    HalfBitOf(b, j);
    hide Half, Bit;
  }

  lemma {:induction false} XorInvolution(a: nat, b: nat)
    ensures Xor(Xor(a, b), b) == a
  {
    XorZero();
    hide Half, Bit, Xor;
    if a != 0 || b != 0 {
      HalfBit(a);
      HalfBit(b);
      XorInvolution(Half(a), Half(b));
      var bit := if Bit(a) == Bit(b) then 0 else 1;
      XorStep(Half(a), Half(b), Bit(a), Bit(b));
      XorStep(Xor(Half(a), Half(b)), Half(b), bit, Bit(b));
    }
  }

  function Shl(a: nat, k: nat): nat {
    if k == 0 then a else 2 * Shl(a, k - 1)
  }

  lemma Shl8(a: nat)
    ensures Shl(a, 8) == 0x100 * a
  {
    assert Shl(a, 1) == 2 * a;
    assert Shl(a, 2) == 4 * a;
    assert Shl(a, 3) == 8 * a;
    assert Shl(a, 4) == 16 * a;
    assert Shl(a, 5) == 32 * a;
    assert Shl(a, 6) == 64 * a;
    assert Shl(a, 7) == 128 * a;
  }

  lemma XorSplitStep(hiA: nat, hiB: nat, hi: nat, a: nat, b: nat, i: nat, j: nat)
    requires i < 2 && j < 2 && Xor(hiA + a, hiB + b) == hi + Xor(a, b)
    ensures Xor(2 * hiA + (2 * a + i), 2 * hiB + (2 * b + j)) == 2 * hi + Xor(2 * a + i, 2 * b + j)
    ensures Xor(2 * a + i, 2 * b + j) <= 2 * Xor(a, b) + 1
  {
    hide Xor;
    XorStep(hiA + a, hiB + b, i, j);
    XorStep(a, b, i, j);
  }

  lemma {:induction false} XorSplitBits(hiA: nat, hiB: nat, loA: nat, loB: nat, k: nat)
    requires loA < Shl(1, k) && loB < Shl(1, k)
    ensures Xor(Shl(hiA, k) + loA, Shl(hiB, k) + loB) == Shl(Xor(hiA, hiB), k) + Xor(loA, loB)
    ensures Xor(loA, loB) < Shl(1, k)
  {
    XorZero();
    hide Half, Bit, Xor;
    if k > 0 {
      HalfBit(loA);
      HalfBit(loB);
      XorSplitBits(hiA, hiB, Half(loA), Half(loB), k - 1);
      XorSplitStep(Shl(hiA, k - 1), Shl(hiB, k - 1), Shl(Xor(hiA, hiB), k - 1), Half(loA), Half(loB), Bit(loA), Bit(loB));
    }
  }

  /** Exclusive or works on each byte of a word separately. */
  lemma XorSplit(hiA: nat, hiB: nat, loA: byte, loB: byte)
    ensures Xor(0x100 * hiA + loA, 0x100 * hiB + loB) == 0x100 * Xor(hiA, hiB) + Xor(loA, loB)
    ensures Xor(loA, loB) < 0x100
  {
    hide Xor, Shl;
    Shl8(1);
    Shl8(hiA);
    Shl8(hiB);
    Shl8(Xor(hiA, hiB));
    XorSplitBits(hiA, hiB, loA, loB, 8);
  }

  lemma Shl4(a: nat)
    ensures Shl(a, 4) == 0x10 * a
  {
    assert Shl(a, 1) == 2 * a;
    assert Shl(a, 2) == 4 * a;
    assert Shl(a, 3) == 8 * a;
  }

  /** And on each half of a byte. */
  lemma XorNibbles(hiA: nat, loA: nat, hiB: nat, loB: nat)
    requires loA < 0x10 && loB < 0x10
    ensures Xor(0x10 * hiA + loA, 0x10 * hiB + loB) == 0x10 * Xor(hiA, hiB) + Xor(loA, loB)
  {
    hide Xor, Shl;
    Shl4(1);
    Shl4(hiA);
    Shl4(hiB);
    Shl4(Xor(hiA, hiB));
    XorSplitBits(hiA, hiB, loA, loB, 4);
  }

  function XorByte(a: byte, b: byte): byte {
    XorSplit(0, 0, a, b);
    Xor(a, b)
  }

  /** Each byte of `value` combined with the byte of `mask` at its position; bytes past the mask stay. */
  function XorBytes(value: bytes, mask: bytes): (r: bytes)
    ensures |r| == |value|
    ensures forall i :: 0 <= i < |value| ==> r[i] == if i < |mask| then XorByte(value[i], mask[i]) else value[i]
  {
    seq(|value|, i requires 0 <= i < |value| => if i < |mask| then XorByte(value[i], mask[i]) else value[i])
  }

  lemma XorBytesInvolution(value: bytes, mask: bytes)
    ensures XorBytes(XorBytes(value, mask), mask) == value
  {
    forall i | 0 <= i < |value| && i < |mask|
      ensures XorByte(XorByte(value[i], mask[i]), mask[i]) == value[i]
    {
      XorInvolution(value[i], mask[i]);
    }
  }

  lemma XorU16(a: bytes, i: nat, b: bytes, j: nat)
    requires i + 2 <= |a| && j + 2 <= |b|
    ensures Xor(U16At(a, i), U16At(b, j)) == 0x100 * XorByte(a[i], b[j]) + XorByte(a[i + 1], b[j + 1])
  {
    hide Xor;
    XorSplit(a[i], b[j], a[i + 1], b[j + 1]);
  }

  lemma XorU32(a: bytes, b: bytes)
    requires |a| == 4 && |b| == 4
    ensures Xor(U32Of(a), U32Of(b)) == U32Of(XorBytes(a, b))
  {
    hide Xor, XorBytes;
    var a2, b2 := 0x100 * U16At(a, 0) + a[2], 0x100 * U16At(b, 0) + b[2];
    XorSplit(a2, b2, a[3], b[3]);
    XorSplit(U16At(a, 0), U16At(b, 0), a[2], b[2]);
    XorU16(a, 0, b, 0);
  }
}
