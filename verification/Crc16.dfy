/**
 The CRC of section 6.2.2 of MODBUS over Serial Line V1.02, one bit at a time, and what it
 guarantees about messages of any length.
 */
module Crc16 {
  import opened Words16

  const POLYNOMIAL: bv16 := 0xA001

  function BitStep(c: bv16): bv16 {
    if Bit0(c) then Xor(Shr(c), POLYNOMIAL) else Shr(c)
  }

  function BitSteps(c: bv16, n: nat): bv16
    decreases n
  {
    if n == 0 then c else BitSteps(BitStep(c), n - 1)
  }

  /** A byte is combined with the low half of the register, then shifted through. */
  function Update(c: bv16, b: byte): bv16 {
    BitSteps(Xor(c, Wide(b)), 8)
  }

  function Crc(init: bv16, m: seq<byte>): bv16 {
    if m == [] then init else Update(Crc(init, m[..|m| - 1]), m[|m| - 1])
  }

  // One step is linear and loses nothing.

  lemma StepXor(a: bv16, b: bv16)
    ensures BitStep(Xor(a, b)) == Xor(BitStep(a), BitStep(b))
  {
    ShrXor(a, b);
    Bit0Xor(a, b);
    var x, y := Shr(a), Shr(b);
    XorSwap(x, POLYNOMIAL, y, POLYNOMIAL);
    XorLaws(POLYNOMIAL, POLYNOMIAL, 0);
    XorLaws(Xor(x, y), 0, 0);
    XorLaws(x, POLYNOMIAL, y);
    XorLaws(x, y, POLYNOMIAL);
    XorLaws(POLYNOMIAL, y, 0);
  }

  lemma {:induction false} StepsXor(a: bv16, b: bv16, n: nat)
    ensures BitSteps(Xor(a, b), n) == Xor(BitSteps(a, n), BitSteps(b, n))
    decreases n
  {
    if n > 0 {
      StepXor(a, b);
      StepsXor(BitStep(a), BitStep(b), n - 1);
    }
  }

  lemma StepNonzero(a: bv16)
    requires a != 0
    ensures BitStep(a) != 0
  {
    RawNonzero(a);
  }

  lemma RawNonzero(a: bv16)
    ensures (a >> 1) ^ 0xA001 != 0
    ensures a & 1 != 1 && a != 0 ==> a >> 1 != 0
  {
  }

  lemma {:induction false} StepsInjective(a: bv16, b: bv16, n: nat)
    requires BitSteps(a, n) == BitSteps(b, n)
    ensures a == b
    decreases n
  {
    if n > 0 {
      StepsInjective(BitStep(a), BitStep(b), n - 1);
      StepXor(a, b);
      XorCancel(BitStep(a), BitStep(b));
      XorCancel(a, b);
      if Xor(a, b) != 0 {
        StepNonzero(Xor(a, b));
      }
    }
  }

  /** Eight steps of a word whose low byte is clear only move its high byte down. */
  lemma StepsOfHigh(a: bv16)
    requires Lo(a) == 0
    ensures BitSteps(a, 8) == Wide(Hi(a))
  {
    RawLowClear(a);
    calc {
      BitSteps(a, 8);
      BitSteps(a >> 1, 7);
      BitSteps(a >> 2, 6);
      BitSteps(a >> 3, 5);
      BitSteps(a >> 4, 4);
      BitSteps(a >> 5, 3);
      BitSteps(a >> 6, 2);
      BitSteps(a >> 7, 1);
      a >> 8;
    }
  }

  lemma RawLowClear(a: bv16)
    requires (a & 0xFF) as bv8 == 0
    ensures a & 1 != 1 && (a >> 1) & 1 != 1 && (a >> 2) & 1 != 1 && (a >> 3) & 1 != 1
    ensures (a >> 4) & 1 != 1 && (a >> 5) & 1 != 1 && (a >> 6) & 1 != 1 && (a >> 7) & 1 != 1
    ensures a >> 8 == (((a >> 8) as bv8) as bv16)
  {
  }

  /** Only the low byte goes through the polynomial: what a 256-entry table exploits. */
  lemma TableForm(c: bv16)
    ensures BitSteps(c, 8) == Xor(Wide(Hi(c)), BitSteps(Wide(Lo(c)), 8))
  {
    var h := Join(Hi(c), 0);
    SplitJoin(c, Hi(c), 0);
    StepsXor(h, Wide(Lo(c)), 8);
    StepsOfHigh(h);
  }

  // Sealing a message with its own CRC, low byte first.

  lemma ResidueZero(init: bv16, m: seq<byte>, lo: byte, hi: byte)
    ensures Crc(init, m + [lo, hi]) == 0 <==> Join(hi, lo) == Crc(init, m)
  {
    var c := Crc(init, m);
    var one, two := m + [lo], m + [lo, hi];
    assert two[..|m| + 1] == one && one[..|m|] == m;
    assert Crc(init, two) == Update(Update(c, lo), hi);
    ResidueOfTwo(c, lo, hi);
  }

  lemma ResidueOfTwo(c: bv16, lo: byte, hi: byte)
    ensures Update(Update(c, lo), hi) == 0 <==> Join(hi, lo) == c
  {
    LastByteClears(Update(c, lo), hi);
    ByteToHigh(Xor(c, Wide(lo)), hi);
    SealSplit(c, hi, lo);
  }

  lemma LastByteClears(v: bv16, hi: byte)
    ensures Update(v, hi) == 0 <==> v == Wide(hi)
  {
    assert BitSteps(0, 8) == 0;
    XorCancel(v, Wide(hi));
    if Update(v, hi) == 0 {
      StepsInjective(Xor(v, Wide(hi)), 0, 8);
    }
  }

  lemma ByteToHigh(w: bv16, hi: byte)
    ensures BitSteps(w, 8) == Wide(hi) <==> w == Join(hi, 0)
  {
    var s := Join(hi, 0);
    SplitJoin(s, hi, 0);
    StepsOfHigh(s);
    if BitSteps(w, 8) == Wide(hi) {
      StepsInjective(w, s, 8);
    }
  }

  lemma SealSplit(c: bv16, hi: byte, lo: byte)
    ensures Xor(c, Wide(lo)) == Join(hi, 0) <==> Join(hi, lo) == c
  {
    var j := Join(hi, lo);
    SplitJoin(j, hi, lo);
    XorCancel(Join(hi, 0), Wide(lo));
    XorCancel(c, Wide(lo));
  }

  /** The registers along the check string. */
  lemma CheckSteps()
    ensures Update(0xFFFF, 0x31) == 0x947E
    ensures Update(0x947E, 0x32) == 0xF595
    ensures Update(0xF595, 0x33) == 0x7A75
    ensures Update(0x7A75, 0x34) == 0x30BA
    ensures Update(0x30BA, 0x35) == 0xA471
    ensures Update(0xA471, 0x36) == 0x32E4
    ensures Update(0x32E4, 0x37) == 0x9D73
    ensures Update(0x9D73, 0x38) == 0x37DD
    ensures Update(0x37DD, 0x39) == 0x4B37
  {
  }

  /** The digits 1 to 9, in ASCII. */
  const CHECK: seq<byte> := [0x31, 0x32, 0x33, 0x34, 0x35, 0x36, 0x37, 0x38, 0x39]

  lemma CheckStep(k: nat)
    requires k < 9
    ensures Crc(0xFFFF, CHECK[..k + 1]) == Update(Crc(0xFFFF, CHECK[..k]), CHECK[k])
  {
    hide Update;
    assert CHECK[..k + 1][..k] == CHECK[..k];
  }

  /** The published check value of this CRC. */
  lemma CheckValue()
    ensures Crc(0xFFFF, CHECK) == 0x4B37
  {
    hide Update;
    CheckSteps();
    CheckStep(0);
    CheckStep(1);
    CheckStep(2);
    CheckStep(3);
    CheckStep(4);
    CheckStep(5);
    CheckStep(6);
    CheckStep(7);
    CheckStep(8);
    assert CHECK[..9] == CHECK;
  }
}
