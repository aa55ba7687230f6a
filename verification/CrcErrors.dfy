/**
 Error detection. The register is driven by the message bits in transmission order, so the CRCs
 of two messages differ by the CRC of the bits in which the messages differ.
 */
module CrcErrors {
  import Bytes
  import opened Words16
  import opened Crc16

  function BitUpdate(c: bv16, bit: bool): bv16 {
    BitStep(Xor(c, One(bit)))
  }

  function CrcBits(c: bv16, bits: seq<bool>): bv16
    decreases |bits|
  {
    if bits == [] then c else CrcBits(BitUpdate(c, bits[0]), bits[1..])
  }

  /** The low n bits of a word, lowest first. */
  function WordBits(w: bv16, n: nat): (bits: seq<bool>)
    ensures |bits| == n
    decreases n
  {
    if n == 0 then [] else [Bit0(w)] + WordBits(Shr(w), n - 1)
  }

  function ByteBits(b: byte): (bits: seq<bool>)
    ensures |bits| == 8
  {
    WordBits(Wide(b), 8)
  }

  function Bits(m: seq<byte>): (bits: seq<bool>)
    ensures |bits| == 8 * |m|
  {
    if m == [] then [] else Bits(m[..|m| - 1]) + ByteBits(m[|m| - 1])
  }

  /** The positions in which two bit strings differ. */
  function Diff(a: seq<bool>, b: seq<bool>): (d: seq<bool>)
    requires |a| == |b|
    ensures |d| == |a|
  {
    seq(|a|, i requires 0 <= i < |a| => a[i] != b[i])
  }

  function Ones(bits: seq<bool>): nat {
    if bits == [] then 0 else (if bits[0] then 1 else 0) + Ones(bits[1..])
  }

  // The bytewise and the bitwise register agree.

  lemma {:induction false} CrcBitsConcat(c: bv16, x: seq<bool>, y: seq<bool>)
    ensures CrcBits(c, x + y) == CrcBits(CrcBits(c, x), y)
    decreases |x|
  {
    if x == [] {
      assert x + y == y;
    } else {
      assert (x + y)[1..] == x[1..] + y;
      CrcBitsConcat(BitUpdate(c, x[0]), x[1..], y);
    }
  }

  lemma OneBits(bit: bool)
    ensures Shr(One(bit)) == 0
    ensures Bit0(One(bit)) == bit
  {
  }

  /** The bit that falls out decides the step; the rest of the word just waits its turn. */
  lemma StepOfWord(c: bv16, w: bv16)
    ensures BitStep(Xor(c, w)) == Xor(BitUpdate(c, Bit0(w)), Shr(w))
  {
    var o := One(Bit0(w));
    OneBits(Bit0(w));
    ShrXor(c, w);
    Bit0Xor(c, w);
    ShrXor(c, o);
    Bit0Xor(c, o);
    var x, y := Shr(c), Shr(w);
    XorLaws(x, 0, 0);
    XorLaws(x, y, POLYNOMIAL);
    XorLaws(x, POLYNOMIAL, y);
    XorLaws(y, POLYNOMIAL, 0);
  }

  lemma {:induction false} StepsOfWord(c: bv16, w: bv16, n: nat)
    ensures BitSteps(Xor(c, w), n) == Xor(CrcBits(c, WordBits(w, n)), ShrN(w, n))
    decreases n
  {
    hide Xor, Shr, Bit0, BitStep;
    if n > 0 {
      StepOfWord(c, w);
      var bits := WordBits(w, n);
      assert bits[1..] == WordBits(Shr(w), n - 1);
      StepsOfWord(BitUpdate(c, Bit0(w)), Shr(w), n - 1);
    }
  }

  lemma {:induction false} CrcOfBits(init: bv16, m: seq<byte>)
    ensures Crc(init, m) == CrcBits(init, Bits(m))
  {
    if m != [] {
      var p, b := m[..|m| - 1], m[|m| - 1];
      CrcOfBits(init, p);
      StepsOfWord(Crc(init, p), Wide(b), 8);
      ShrN8(b);
      XorLaws(CrcBits(Crc(init, p), ByteBits(b)), 0, 0);
      CrcBitsConcat(init, Bits(p), ByteBits(b));
    }
  }

  // Linearity over bit strings.

  lemma OneDiff(x: bool, y: bool)
    ensures One(x != y) == Xor(One(x), One(y))
  {
  }

  lemma BitUpdateXor(c: bv16, d: bv16, x: bool, y: bool)
    ensures BitUpdate(Xor(c, d), x != y) == Xor(BitUpdate(c, x), BitUpdate(d, y))
  {
    OneDiff(x, y);
    XorSwap(c, d, One(x), One(y));
    StepXor(Xor(c, One(x)), Xor(d, One(y)));
  }

  lemma {:induction false} CrcBitsXor(c: bv16, d: bv16, a: seq<bool>, b: seq<bool>)
    requires |a| == |b|
    ensures CrcBits(Xor(c, d), Diff(a, b)) == Xor(CrcBits(c, a), CrcBits(d, b))
    decreases |a|
  {
    if a != [] {
      assert Diff(a, b)[1..] == Diff(a[1..], b[1..]);
      BitUpdateXor(c, d, a[0], b[0]);
      CrcBitsXor(BitUpdate(c, a[0]), BitUpdate(d, b[0]), a[1..], b[1..]);
    }
  }

  /** Two messages collide exactly when the CRC of their difference, from zero, is zero. */
  lemma CollisionIsDifference(init: bv16, a: seq<byte>, b: seq<byte>)
    requires |a| == |b|
    ensures Crc(init, a) == Crc(init, b) <==> CrcBits(0, Diff(Bits(a), Bits(b))) == 0
  {
    CrcOfBits(init, a);
    CrcOfBits(init, b);
    CrcBitsXor(init, init, Bits(a), Bits(b));
    XorLaws(init, 0, 0);
    XorCancel(Crc(init, a), Crc(init, b));
  }

  // Bursts: errors confined to 16 consecutive bits.

  predicate BurstAt(e: seq<bool>, p: nat) {
    && p < |e|
    && e[p]
    && forall k :: 0 <= k < |e| && (k < p || p + 16 <= k) ==> !e[k]
  }

  lemma ZeroStep()
    ensures BitUpdate(0, false) == 0
    ensures BitUpdate(0, true) == POLYNOMIAL
  {
  }

  lemma {:induction false} QuietBitsKeepNonzero(d: bv16, e: seq<bool>)
    requires d != 0
    requires forall k :: 0 <= k < |e| ==> !e[k]
    ensures CrcBits(d, e) != 0
    decreases |e|
  {
    if e != [] {
      XorLaws(d, 0, 0);
      StepNonzero(d);
      QuietBitsKeepNonzero(BitUpdate(d, e[0]), e[1..]);
    }
  }

  /** j is the word with only bit n set. */
  predicate IsPower(j: bv16, n: nat)
    decreases n
  {
    if n == 0 then j == 1 else j > 1 && j & 1 == 0 && j & (j - 1) == 0 && IsPower(j >> 1, n - 1)
  }

  lemma RawHeight(d: bv16, e: bv16, j: bv16)
    requires e < 2 && d >= j && j > 1 && j & 1 == 0 && j & (j - 1) == 0
    ensures ((d ^ e) >> 1) ^ 0xA001 >= j >> 1
    ensures (d ^ e) >> 1 >= j >> 1
  {
  }

  /** While the highest difference is at bit n or above, n more bits of any kind cannot cancel it. */
  lemma {:induction false} BurstTail(d: bv16, e: seq<bool>, j: bv16, n: nat)
    requires IsPower(j, n) && d >= j
    requires forall k :: n <= k < |e| ==> !e[k]
    ensures CrcBits(d, e) != 0
    decreases n
  {
    if n == 0 {
      QuietBitsKeepNonzero(d, e);
    } else if e == [] {
      assert d != 0;
    } else {
      RawHeight(d, One(e[0]), j);
      BurstTail(BitUpdate(d, e[0]), e[1..], j >> 1, n - 1);
    }
  }

  lemma TopIsPower()
    ensures IsPower(0x8000, 15)
  {
    assert IsPower(0x80, 7);
  }

  lemma {:induction false} BurstNonzero(e: seq<bool>, p: nat)
    requires BurstAt(e, p)
    ensures CrcBits(0, e) != 0
    decreases p
  {
    ZeroStep();
    if p == 0 {
      TopIsPower();
      BurstTail(POLYNOMIAL, e[1..], 0x8000, 15);
    } else {
      assert !e[0];
      BurstNonzero(e[1..], p - 1);
    }
  }

  /** Any corruption confined to 16 consecutive bits changes the CRC, whatever the length. */
  lemma BurstDetected(init: bv16, a: seq<byte>, b: seq<byte>, p: nat)
    requires |a| == |b|
    requires BurstAt(Diff(Bits(a), Bits(b)), p)
    ensures Crc(init, a) != Crc(init, b)
  {
    CollisionIsDifference(init, a, b);
    BurstNonzero(Diff(Bits(a), Bits(b)), p);
  }

  // Odd numbers of flipped bits, however far apart.

  function Parity(c: bv16, n: nat): bool
    decreases n
  {
    if n == 0 then false else Bit0(c) != Parity(Shr(c), n - 1)
  }

  lemma {:induction false} ParityXor(a: bv16, b: bv16, n: nat)
    ensures Parity(Xor(a, b), n) == (Parity(a, n) != Parity(b, n))
    decreases n
  {
    hide Xor, Shr, Bit0;
    if n > 0 {
      ShrXor(a, b);
      Bit0Xor(a, b);
      ParityXor(Shr(a), Shr(b), n - 1);
    }
  }

  lemma {:induction false} ParityLast(c: bv16, n: nat)
    ensures Parity(c, n + 1) == (Parity(c, n) != Bit0(ShrN(c, n)))
    decreases n
  {
    if n > 0 {
      ParityLast(Shr(c), n - 1);
    }
  }

  lemma ParityOfPolynomial()
    ensures Parity(POLYNOMIAL, 16)
    ensures Parity(1, 16)
    ensures !Parity(0, 16)
  {
    assert Parity(0, 4) == Parity(0, 8) == Parity(0, 12) == Parity(0, 16) == false;
    assert Parity(0, 15) == false;
    assert Parity(1, 16) == (true != Parity(0, 15));
    assert Parity(0xA0, 8) == Parity(0xA, 4) == false;
    assert Parity(0xA00, 12) == false;
    assert Parity(0x5000, 15) == false;
  }

  /** The polynomial has an odd number of ones, so a step passes the parity of the register on. */
  lemma ParityStep(c: bv16)
    ensures Parity(BitStep(c), 16) == Parity(c, 16)
  {
    ParityXor(Shr(c), POLYNOMIAL, 16);
    ParityOfPolynomial();
    ParityLast(c, 16);
    ShrN16(c);
  }

  lemma {:induction false} ParityOfCrc(c: bv16, bits: seq<bool>)
    ensures Parity(CrcBits(c, bits), 16) == (Parity(c, 16) != (Ones(bits) % 2 == 1))
    decreases |bits|
  {
    hide Xor, Shr, Bit0, BitStep;
    if bits != [] {
      ParityXor(c, One(bits[0]), 16);
      ParityOfPolynomial();
      ParityStep(Xor(c, One(bits[0])));
      ParityOfCrc(BitUpdate(c, bits[0]), bits[1..]);
    }
  }

  /** Any odd number of flipped bits changes the CRC, wherever they are. */
  lemma OddErrorsDetected(init: bv16, a: seq<byte>, b: seq<byte>)
    requires |a| == |b|
    requires Ones(Diff(Bits(a), Bits(b))) % 2 == 1
    ensures Crc(init, a) != Crc(init, b)
  {
    CollisionIsDifference(init, a, b);
    ParityOfCrc(0, Diff(Bits(a), Bits(b)));
    ParityOfPolynomial();
  }

  // One wrong byte is a burst.

  lemma {:induction false} BitsConcat(x: seq<byte>, y: seq<byte>)
    ensures Bits(x + y) == Bits(x) + Bits(y)
    decreases |y|
  {
    hide ByteBits;
    if y == [] {
      assert x + y == x;
    } else {
      hide Bits;
      var p, b := y[..|y| - 1], y[|y| - 1];
      assert p + [b] == y;
      BitsConcat(x, p);
      BitsSnoc(p, b);
      BitsSnoc(x + p, b);
      Bytes.Associates(x, p, [b]);
      Bytes.Associates(Bits(x), Bits(p), ByteBits(b));
    }
  }

  lemma BitsSnoc(p: seq<byte>, b: byte)
    ensures Bits(p + [b]) == Bits(p) + ByteBits(b)
  {
    hide ByteBits;
    assert (p + [b])[..|p|] == p;
  }

  lemma {:induction false} WordBitsInjective(v: bv16, w: bv16, n: nat)
    requires WordBits(v, n) == WordBits(w, n)
    requires ShrN(v, n) == ShrN(w, n)
    ensures v == w
    decreases n
  {
    if n > 0 {
      var x, y := WordBits(v, n), WordBits(w, n);
      assert x[0] == y[0] && x[1..] == y[1..];
      WordBitsInjective(Shr(v), Shr(w), n - 1);
      RawRebuild(v, w);
    }
  }

  lemma RawRebuild(v: bv16, w: bv16)
    ensures v >> 1 == w >> 1 && (v & 1 == 1 <==> w & 1 == 1) ==> v == w
  {
  }

  lemma ByteBitsInjective(x: byte, y: byte)
    requires ByteBits(x) == ByteBits(y)
    ensures x == y
  {
    ShrN8(x);
    ShrN8(y);
    WordBitsInjective(Wide(x), Wide(y), 8);
    RawNarrow(x, y);
  }

  lemma FirstDifference(u: seq<bool>, v: seq<bool>) returns (k: nat)
    requires |u| == |v| && u != v
    ensures k < |u| && u[k] != v[k]
    ensures forall i :: 0 <= i < k ==> u[i] == v[i]
  {
    assert exists i :: 0 <= i < |u| && u[i] != v[i];
    k := 0;
    while u[k] == v[k]
      invariant k < |u|
      invariant forall i :: 0 <= i < k ==> u[i] == v[i]
      decreases |u| - k
    {
      k := k + 1;
    }
  }

  lemma WindowIsBurst(pre: seq<bool>, u: seq<bool>, v: seq<bool>, post: seq<bool>) returns (p: nat)
    requires |u| == |v| <= 16 && u != v
    ensures BurstAt(Diff(pre + u + post, pre + v + post), p)
  {
    var k := FirstDifference(u, v);
    p := |pre| + k;
  }

  lemma RawNarrow(x: byte, y: byte)
    ensures (x as bv16) == (y as bv16) ==> x == y
  {
  }

  lemma OneByteDetected(init: bv16, pre: seq<byte>, x: byte, y: byte, post: seq<byte>)
    requires x != y
    ensures Crc(init, pre + [x] + post) != Crc(init, pre + [y] + post)
  {
    BitsOfThree(pre, x, post);
    BitsOfThree(pre, y, post);
    if ByteBits(x) == ByteBits(y) {
      ByteBitsInjective(x, y);
    }
    var p := WindowIsBurst(Bits(pre), ByteBits(x), ByteBits(y), Bits(post));
    BurstDetected(init, pre + [x] + post, pre + [y] + post, p);
  }

  lemma BitsOfThree(pre: seq<byte>, x: byte, post: seq<byte>)
    ensures Bits(pre + [x] + post) == Bits(pre) + ByteBits(x) + Bits(post)
  {
    BitsConcat(pre + [x], post);
    BitsConcat(pre, [x]);
    assert [x][..0] == [];
    assert Bits([x]) == ByteBits(x);
  }
}
