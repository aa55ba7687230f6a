/**
 CRC-32 two ways: the reflected, byte-at-a-time definition (polynomial 0x04C11DB7, initial value
 and final exclusive or 0xFFFFFFFF), and the register of the CRC unit, which takes whole words
 with the most significant bit first.
 */
module Crc32 {
  import opened Words32

  const POLYNOMIAL: bv32 := 0x04C1_1DB7
  const REFLECTED: bv32 := 0xEDB8_8320
  const INIT: bv32 := 0xFFFF_FFFF

  // The definition.

  function BitStep(c: bv32): bv32 {
    if Bit0(c) then Xor(Shr(c), REFLECTED) else Shr(c)
  }

  function BitSteps(c: bv32, n: nat): bv32
    decreases n
  {
    if n == 0 then c else BitSteps(BitStep(c), n - 1)
  }

  function Update(c: bv32, b: byte): bv32 {
    BitSteps(Xor(c, Wide(b)), 8)
  }

  function State(c: bv32, m: seq<byte>): bv32 {
    if m == [] then c else Update(State(c, m[..|m| - 1]), m[|m| - 1])
  }

  function Crc(m: seq<byte>): bv32 {
    Not(State(INIT, m))
  }

  // The unit.

  function UnitStep(r: bv32): bv32 {
    if Top(r) then Xor(Shl(r), POLYNOMIAL) else Shl(r)
  }

  function UnitSteps(r: bv32, n: nat): bv32
    decreases n
  {
    if n == 0 then r else UnitSteps(UnitStep(r), n - 1)
  }

  /** The register after a word is written to it. */
  function UnitWrite(r: bv32, data: bv32): bv32 {
    UnitSteps(Xor(r, data), 32)
  }

  // One is the mirror image of the other.

  lemma StepMirror(r: bv32)
    ensures Rbit(UnitStep(r)) == BitStep(Rbit(r))
  {
    RbitShl(r);
    RbitXor(Shl(r), POLYNOMIAL);
    assert Rbit(POLYNOMIAL) == REFLECTED;
  }

  lemma {:induction false} StepsMirror(r: bv32, n: nat)
    ensures Rbit(UnitSteps(r, n)) == BitSteps(Rbit(r), n)
    decreases n
  {
    hide Rbit, UnitStep, BitStep;
    if n > 0 {
      StepMirror(r);
      StepsMirror(UnitStep(r), n - 1);
    }
  }

  lemma WriteMirror(r: bv32, data: bv32)
    ensures Rbit(UnitWrite(r, Rbit(data))) == BitSteps(Xor(Rbit(r), data), 32)
  {
    hide Rbit, Xor, UnitSteps, BitSteps;
    StepsMirror(Xor(r, Rbit(data)), 32);
    RbitXor(r, Rbit(data));
    RbitTwice(data);
  }

  // Linearity, and what it means to feed several bytes at once.

  lemma StepXor(a: bv32, b: bv32)
    ensures BitStep(Xor(a, b)) == Xor(BitStep(a), BitStep(b))
  {
    hide Xor, Shr, Bit0;
    ShiftXor(a, b);
    Bit0Xor(a, b);
    var x, y := Shr(a), Shr(b);
    XorSwap(x, REFLECTED, y, REFLECTED);
    XorLaws(REFLECTED, REFLECTED, 0);
    XorLaws(Xor(x, y), 0, 0);
    XorLaws(x, REFLECTED, y);
    XorLaws(x, y, REFLECTED);
    XorLaws(REFLECTED, y, 0);
  }

  lemma {:induction false} StepsXor(a: bv32, b: bv32, n: nat)
    ensures BitSteps(Xor(a, b), n) == Xor(BitSteps(a, n), BitSteps(b, n))
    decreases n
  {
    hide Xor, BitStep;
    if n > 0 {
      StepXor(a, b);
      StepsXor(BitStep(a), BitStep(b), n - 1);
    }
  }

  lemma StepNonzero(a: bv32)
    requires a != 0
    ensures BitStep(a) != 0
  {
    RawNonzero(a);
  }

  lemma RawNonzero(a: bv32)
    ensures (a >> 1) ^ 0xEDB8_8320 != 0
    ensures a & 1 != 1 && a != 0 ==> a >> 1 != 0
  {
  }

  lemma {:induction false} StepsInjective(a: bv32, b: bv32, n: nat)
    requires BitSteps(a, n) == BitSteps(b, n)
    ensures a == b
    decreases n
  {
    hide Xor, BitStep;
    if n > 0 {
      StepsInjective(BitStep(a), BitStep(b), n - 1);
      StepXor(a, b);
      XorCancel(BitStep(a), BitStep(b));
      XorCancel(a, b);
      if Xor(a, b) != 0 {
        StepNonzero(Xor(a, b));
      }
    }
  }

  lemma {:induction false} StepsAdd(c: bv32, m: nat, n: nat)
    ensures BitSteps(c, m + n) == BitSteps(BitSteps(c, m), n)
    decreases m
  {
    hide BitStep;
    if m > 0 {
      StepsAdd(BitStep(c), m - 1, n);
    }
  }

  /** Eight steps of a word whose low byte is clear only move it down. */
  lemma StepsOfHigh(a: bv32)
    requires Low8(a) == 0
    ensures BitSteps(a, 8) == Shr8(a)
  {
    RawLowClear(a);
    hide BitStep, BitSteps;
    ShiftOnly(a, 8);
    ShiftOnly(a >> 1, 7);
    ShiftOnly(a >> 2, 6);
    ShiftOnly(a >> 3, 5);
    ShiftOnly(a >> 4, 4);
    ShiftOnly(a >> 5, 3);
    ShiftOnly(a >> 6, 2);
    ShiftOnly(a >> 7, 1);
    NoSteps(a >> 8);
  }

  /** A step that loses a zero bit is a shift. */
  lemma ShiftOnly(a: bv32, n: nat)
    requires n > 0
    ensures a & 1 != 1 ==> BitSteps(a, n) == BitSteps(a >> 1, n - 1)
  {
  }

  lemma NoSteps(a: bv32)
    ensures BitSteps(a, 0) == a
  {
  }

  lemma RawLowClear(a: bv32)
    requires a & 0xFF == 0
    ensures a & 1 != 1 && (a >> 1) & 1 != 1 && (a >> 2) & 1 != 1 && (a >> 3) & 1 != 1
    ensures (a >> 4) & 1 != 1 && (a >> 5) & 1 != 1 && (a >> 6) & 1 != 1 && (a >> 7) & 1 != 1
    ensures (a >> 1) >> 1 == a >> 2 && (a >> 2) >> 1 == a >> 3 && (a >> 3) >> 1 == a >> 4 && (a >> 4) >> 1 == a >> 5
    ensures (a >> 5) >> 1 == a >> 6 && (a >> 6) >> 1 == a >> 7 && (a >> 7) >> 1 == a >> 8
  {
  }

  /** The bytes above the lowest wait while it is worked off. */
  lemma Absorb(c: bv32, b: byte, w: bv32, n: nat)
    ensures BitSteps(Xor(c, Xor(Wide(b), Shl8(w))), 8 + n) == BitSteps(Xor(Update(c, b), Shr8(Shl8(w))), n)
  {
    hide BitSteps, Xor, Wide, Low8, Shl8, Shr8;
    var x := Xor(c, Wide(b));
    XorLaws(c, Wide(b), Shl8(w));
    StepsAdd(Xor(x, Shl8(w)), 8, n);
    StepsXor(x, Shl8(w), 8);
    SplitLow(w);
    StepsOfHigh(Shl8(w));
  }

  lemma Update1(c: bv32, b0: byte)
    ensures BitSteps(Xor(c, Wide(b0)), 8) == Update(c, b0)
  {
  }

  lemma Update2(c: bv32, b0: byte, b1: byte)
    ensures BitSteps(Xor(c, Word2(b0, b1)), 16) == Update(Update(c, b0), b1)
  {
    hide BitSteps, Xor, Wide, Shl8, Shr8;
    Absorb(c, b0, Wide(b1), 8);
    OneByteIsShort(b1);
  }

  lemma Update3(c: bv32, b0: byte, b1: byte, b2: byte)
    ensures BitSteps(Xor(c, Word3(b0, b1, b2)), 24) == Update(Update(Update(c, b0), b1), b2)
  {
    hide BitSteps, Xor, Wide, Shl8, Shr8, Word2, Update;
    Absorb(c, b0, Word2(b1, b2), 16);
    TwoBytesAreShort(b1, b2);
    Update2(Update(c, b0), b1, b2);
  }

  /** Thirty-two steps of a combined word are four bytewise updates. */
  lemma Update4(c: bv32, b0: byte, b1: byte, b2: byte, b3: byte)
    ensures BitSteps(Xor(c, Word(b0, b1, b2, b3)), 32) == Update(Update(Update(Update(c, b0), b1), b2), b3)
  {
    hide BitSteps, Xor, Wide, Shl8, Shr8, Word2, Word3, Update;
    Absorb(c, b0, Word3(b1, b2, b3), 24);
    ThreeBytesAreShort(b1, b2, b3);
    Update3(Update(c, b0), b1, b2, b3);
  }

  // The trick for one to three trailing bytes: shifted to the top of the word, they pass through
  // the unit as if only they had been fed to it.

  lemma {:induction false} StepsOfClear(a: bv32, j: nat)
    requires forall i: nat :: i < j ==> Low8(ShrBytes(a, i)) == 0
    ensures BitSteps(a, 8 * j) == ShrBytes(a, j)
    decreases j
  {
    hide BitSteps, Low8, Shr8;
    if j == 0 {
      StepsNone(a);
    } else {
      assert Low8(ShrBytes(a, 0)) == 0;
      StepsOfHigh(a);
      StepsAdd(a, 8, 8 * (j - 1));
      forall i: nat | i < j - 1 ensures Low8(ShrBytes(Shr8(a), i)) == 0 {
        assert ShrBytes(a, i + 1) == ShrBytes(Shr8(a), i);
      }
      StepsOfClear(Shr8(a), j - 1);
    }
  }

  lemma StepsNone(a: bv32)
    ensures BitSteps(a, 0) == a
  {
  }

  lemma StepsOfShifted(x: bv32, j: nat)
    requires 1 <= j <= 3
    ensures BitSteps(ShlBytes(x, j), 32) == BitSteps(Kept(x, j), 32 - 8 * j)
  {
    hide BitSteps, Low8, ShlBytes, Shr8, Kept;
    if j == 1 {
      UpAndDown1(x);
    } else if j == 2 {
      UpAndDown2(x);
    } else {
      UpAndDown3(x);
    }
    assert ShrBytes(ShlBytes(x, j), 0) == ShlBytes(x, j);
    StepsOfClear(ShlBytes(x, j), j);
    StepsAdd(ShlBytes(x, j), 8 * j, 32 - 8 * j);
  }

  lemma StepsOfTail(x: bv32, j: nat)
    requires 1 <= j <= 3
    ensures BitSteps(x, 32 - 8 * j) == Xor(ShrBytes(x, 4 - j), BitSteps(Kept(x, j), 32 - 8 * j))
  {
    hide BitSteps, Low8, Shr8, Kept, Dropped, Xor;
    var d, k := Dropped(x, j), Kept(x, j);
    KeptDropped(x, j);
    StepsXor(d, k, 32 - 8 * j);
    DroppedIsClear(x, j);
    StepsOfClear(d, 4 - j);
    ShrBytesXor(d, k, 4 - j);
    XorLaws(ShrBytes(d, 4 - j), 0, 0);
  }

  lemma DroppedIsClear(x: bv32, j: nat)
    requires 1 <= j <= 3
    ensures forall i: nat :: i < 4 - j ==> Low8(ShrBytes(Dropped(x, j), i)) == 0
    ensures ShrBytes(Kept(x, j), 4 - j) == 0
  {
    hide Low8, Shr8, Kept, Dropped;
    Kept1(x);
    Kept2(x);
    Kept3(x);
    var d := Dropped(x, j);
    assert ShrBytes(d, 0) == d;
    assert ShrBytes(d, 1) == ShrBytes(Shr8(d), 0) == Shr8(d);
    assert ShrBytes(d, 2) == ShrBytes(Shr8(d), 1) == ShrBytes(Shr8(Shr8(d)), 0);
  }

  /** The registers along the check string. */
  lemma CheckSteps()
    ensures Update(INIT, 0x31) == 0x7C23_1048
    ensures Update(0x7C23_1048, 0x32) == 0xB0AC_BB32
    ensures Update(0xB0AC_BB32, 0x33) == 0x77B7_9C2D
    ensures Update(0x77B7_9C2D, 0x34) == 0x641C_1F5C
    ensures Update(0x641C_1F5C, 0x35) == 0x340A_C5E3
    ensures Update(0x340A_C5E3, 0x36) == 0xF68D_2C9E
    ensures Update(0xF68D_2C9E, 0x37) == 0xAFFC_9660
    ensures Update(0xAFFC_9660, 0x38) == 0x651F_2550
    ensures Update(0x651F_2550, 0x39) == 0x340B_C6D9
  {
  }

  /** The digits 1 to 9, in ASCII. */
  const CHECK: seq<byte> := [0x31, 0x32, 0x33, 0x34, 0x35, 0x36, 0x37, 0x38, 0x39]

  lemma CheckStep(k: nat)
    requires k < 9
    ensures State(INIT, CHECK[..k + 1]) == Update(State(INIT, CHECK[..k]), CHECK[k])
  {
    hide Update;
    assert CHECK[..k + 1][..k] == CHECK[..k];
  }

  /** The published check value of this CRC. */
  lemma CheckValue()
    ensures Crc(CHECK) == 0xCBF4_3926
  {
    hide Update;
    CheckSteps();
    CheckStep(0);
    CheckStep(1);
    CheckStep(2);
    CheckStep(3);
    CheckStep(4);
    CheckStep(5);
    CheckStep(6);
    CheckStep(7);
    CheckStep(8);
    assert CHECK[..9] == CHECK;
  }
}
