/** Binary digits of numbers, and what the bit operations of the Modbus code do to them. */
module Digits {
  import opened Bytes
  import opened ModbusData
  import opened ModbusProtocol

  /** The k-th binary digit of n, counted from the lowest. */
  predicate Digit(n: nat, k: nat)
    decreases k
  {
    if k == 0 then n % 2 == 1 else Digit(n / 2, k - 1)
  }

  lemma RawHalf(b: byte)
    ensures b as int == 2 * ((b >> 1) as int) + (b & 1) as int
    ensures (b & 1) as int == 0 || (b & 1) as int == 1
  {
  }

  lemma RawMasks(b: byte)
    ensures b & 2 != 0 <==> (b >> 1) & 1 != 0
    ensures b & 4 != 0 <==> (b >> 1) & 2 != 0
    ensures b & 8 != 0 <==> (b >> 1) & 4 != 0
    ensures b & 16 != 0 <==> (b >> 1) & 8 != 0
    ensures b & 32 != 0 <==> (b >> 1) & 16 != 0
    ensures b & 64 != 0 <==> (b >> 1) & 32 != 0
    ensures b & 128 != 0 <==> (b >> 1) & 64 != 0
  {
  }

  function Halved(b: byte): byte { b >> 1 }

  lemma HalvedValue(b: byte)
    ensures Value(Halved(b)) == Value(b) / 2
    ensures Bit(b, 0) <==> Value(b) % 2 == 1
  {
    RawHalf(b);
    RawOne(b);
  }

  lemma RawOne(b: byte)
    ensures b & 1 != 0 <==> (b & 1) as int == 1
  {
  }

  lemma BitHalved(b: byte, k: nat)
    requires 0 < k < 8
    ensures Bit(b, k) <==> Bit(Halved(b), k - 1)
  {
    ShlOnes();
    hide Shl;
    RawMasks(b);
  }

  /** The mask test of the source picks the binary digit. */
  lemma {:induction false} BitIsDigit(b: byte, k: nat)
    requires k < 8
    ensures Bit(b, k) <==> Digit(Value(b), k)
    decreases k
  {
    hide Bit, Halved, Value;
    HalvedValue(b);
    if k > 0 {
      BitHalved(b, k);
      BitIsDigit(Halved(b), k - 1);
    }
  }

  // Words.

  lemma {:induction false} DigitOfSum(h: nat, l: nat, n: nat, k: nat)
    requires l < Pow2(n)
    ensures h * Pow2(n) >= 0
    ensures Digit(h * Pow2(n) + l, k) <==> if k < n then Digit(l, k) else Digit(h, k - n)
    decreases n
  {
    Doubles(h, n);
    if n > 0 {
      DigitUnfold(h * Pow2(n) + l, k);
      DigitUnfold(l, k);
      assert (h * Pow2(n) + l) / 2 == h * Pow2(n - 1) + l / 2;
      DigitOfSum(h, l / 2, n - 1, if k == 0 then 0 else k - 1);
      if k == 0 {
        DigitUnfold(h * Pow2(n - 1) + l / 2, 0);
      }
    }
  }

  lemma DigitUnfold(n: nat, k: nat)
    ensures Digit(n, k) <==> if k == 0 then n % 2 == 1 else Digit(n / 2, k - 1)
  {
  }

  lemma Pow256()
    ensures Pow2(8) == 256
  {
    assert Pow2(4) == 16;
  }

  lemma WordValue(w: word)
    ensures Value(Hi(w)) == w / 256 && Value(Lo(w)) == w % 256
  {
    NumberOfByte(w / 256);
    NumberOfByte(w % 256);
    hide B;
  }

  /** The digits of a register are those of its two bytes. */
  lemma WordDigits(w: word, k: nat)
    requires k < 16
    ensures Digit(w, k) <==> if k < 8 then Bit(Lo(w), k) else Bit(Hi(w), k - 8)
  {
    hide Bit, Pow2, Hi, Lo, Value, Digit;
    WordValue(w);
    Pow256();
    DigitOfSum(w / 256, w % 256, 8, k);
    if k < 8 {
      BitIsDigit(Lo(w), k);
    } else {
      BitIsDigit(Hi(w), k - 8);
    }
  }

  predicate OneBit(m: byte) {
    m == 1 || m == 2 || m == 4 || m == 8 || m == 16 || m == 32 || m == 64 || m == 128
  }

  lemma MaskIsOneBit(k: nat)
    requires k < 8
    ensures OneBit(Shl(1, k))
  {
    ShlOnes();
    hide Shl;
  }

  lemma RawMaskByte(d: byte, a: byte, o: byte, m: byte)
    requires m == 1 || m == 2 || m == 4 || m == 8 || m == 16 || m == 32 || m == 64 || m == 128
    ensures ((d & a) | (o & !a)) & m != 0 <==> if a & m != 0 then d & m != 0 else o & m != 0
  {
  }

  lemma MaskByteMask(d: byte, a: byte, o: byte, m: byte)
    requires OneBit(m)
    ensures And(MaskByte(d, a, o), m) != 0 <==> if And(a, m) != 0 then And(d, m) != 0 else And(o, m) != 0
  {
    RawMaskByte(d, a, o, m);
  }

  /** Where the AND mask has a one the old bit stays; where it has a zero the OR mask decides. */
  lemma MaskByteBits(d: byte, a: byte, o: byte, k: nat)
    requires k < 8
    ensures Bit(MaskByte(d, a, o), k) <==> if Bit(a, k) then Bit(d, k) else Bit(o, k)
  {
    hide Shl, And, MaskByte, OneBit;
    MaskIsOneBit(k);
    MaskByteMask(d, a, o, Shl(1, k));
  }

  lemma MaskedDigits(d: word, a: word, o: word, k: nat)
    requires k < 16
    ensures Digit(Masked(d, a, o), k) <==> if Digit(a, k) then Digit(d, k) else Digit(o, k)
  {
    hide Bit, MaskByte, Word, Hi, Lo;
    var h, l := MaskByte(Hi(d), Hi(a), Hi(o)), MaskByte(Lo(d), Lo(a), Lo(o));
    WordRoundTrip(0, h, l);
    WordDigits(Word(h, l), k);
    WordDigits(d, k);
    WordDigits(a, k);
    WordDigits(o, k);
    if k < 8 {
      MaskByteBits(Lo(d), Lo(a), Lo(o), k);
    } else {
      MaskByteBits(Hi(d), Hi(a), Hi(o), k - 8);
    }
  }

  // What the payloads of frames are as numbers.

  /** Byte k of packed bits has bits 8k, 8k + 1, ... as its binary digits, and zeros after the last. */
  lemma PackedDigits(bits: seq<bool>, k: nat, j: nat)
    requires k < ByteCount(|bits|) && j < 8
    ensures Digit(Value(Pack(bits)[k]), j) <==> 8 * k + j < |bits| && bits[8 * k + j]
  {
    hide Bit, ByteOf, Value;
    BitsOfByte(Group(bits, k), j);
    BitIsDigit(Pack(bits)[k], j);
  }

  /** The i-th bit taken out of packed bytes is the binary digit i % 8 of byte i / 8. */
  lemma UnpackedDigits(b: seq<byte>, nb: nat, i: nat)
    requires nb <= 8 * |b| && i < nb
    ensures Unpack(b, nb)[i] <==> Digit(Value(b[i / 8]), i % 8)
  {
    hide Bit, Value;
    BitIsDigit(b[i / 8], i % 8);
  }

  /** A register is sent as the two base-256 digits of its number, the high one first. */
  lemma RegistersAsNumbers(vs: seq<word>, k: nat)
    requires k < |vs|
    ensures 256 * Value(RegisterBytes(vs)[2 * k]) + Value(RegisterBytes(vs)[2 * k + 1]) == vs[k]
  {
    NumberOfByte(vs[k] / 256);
    NumberOfByte(vs[k] % 256);
    assert RegisterBytes(vs)[2 * k] == Hi(vs[k]) && RegisterBytes(vs)[2 * k + 1] == Lo(vs[k]);
    hide B, RegisterBytes;
  }
}
