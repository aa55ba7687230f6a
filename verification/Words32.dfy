/** 32-bit words as the CRC unit uses them: named operations and their laws. */
module Words32 {
  type byte = bv8

  function Xor(a: bv32, b: bv32): bv32 { a ^ b }

  function Shr(a: bv32): bv32 { a >> 1 }

  function Shl(a: bv32): bv32 { a << 1 }

  function Not(a: bv32): bv32 { !a }

  predicate Bit0(a: bv32) { a & 1 == 1 }

  predicate Top(a: bv32) { a & 0x8000_0000 == 0x8000_0000 }

  function Shr8(a: bv32): bv32 { a >> 8 }

  function Shl8(a: bv32): bv32 { a << 8 }

  /** The low byte, and the word without it. */
  function Low8(a: bv32): bv32 { a & 0xFF }

  function High24(a: bv32): bv32 { a & 0xFFFF_FF00 }

  function Wide(b: byte): bv32 { b as bv32 }

  /** Shifts by whole bytes. */
  function ShrBytes(a: bv32, n: nat): bv32
    decreases n
  {
    if n == 0 then a else ShrBytes(Shr8(a), n - 1)
  }

  function ShlBytes(a: bv32, n: nat): bv32
    decreases n
  {
    if n == 0 then a else ShlBytes(Shl8(a), n - 1)
  }

  /** The RBIT instruction: bit i becomes bit 31 - i. */
  function Rbit(a: bv32): bv32 {
    ((a & 0x00000001) << 31) | ((a & 0x00000002) << 29) | ((a & 0x00000004) << 27) | ((a & 0x00000008) << 25) |
    ((a & 0x00000010) << 23) | ((a & 0x00000020) << 21) | ((a & 0x00000040) << 19) | ((a & 0x00000080) << 17) |
    ((a & 0x00000100) << 15) | ((a & 0x00000200) << 13) | ((a & 0x00000400) << 11) | ((a & 0x00000800) << 9) |
    ((a & 0x00001000) << 7) | ((a & 0x00002000) << 5) | ((a & 0x00004000) << 3) | ((a & 0x00008000) << 1) |
    ((a & 0x00010000) >> 1) | ((a & 0x00020000) >> 3) | ((a & 0x00040000) >> 5) | ((a & 0x00080000) >> 7) |
    ((a & 0x00100000) >> 9) | ((a & 0x00200000) >> 11) | ((a & 0x00400000) >> 13) | ((a & 0x00800000) >> 15) |
    ((a & 0x01000000) >> 17) | ((a & 0x02000000) >> 19) | ((a & 0x04000000) >> 21) | ((a & 0x08000000) >> 23) |
    ((a & 0x10000000) >> 25) | ((a & 0x20000000) >> 27) | ((a & 0x40000000) >> 29) | ((a & 0x80000000) >> 31)
  }

  /** The word a little-endian load reads from four bytes. */
  function Word(b0: byte, b1: byte, b2: byte, b3: byte): bv32 {
    Xor(Wide(b0), Shl8(Word3(b1, b2, b3)))
  }

  // The laws on bare bit-vectors.

  lemma RawXor(a: bv32, b: bv32, c: bv32)
    ensures (a ^ b) ^ c == a ^ (b ^ c)
    ensures a ^ b == b ^ a
    ensures a ^ a == 0
    ensures a ^ 0 == a
  {
  }

  lemma RawShifts(a: bv32, b: bv32)
    ensures (a ^ b) >> 1 == (a >> 1) ^ (b >> 1)
    ensures (a ^ b) << 1 == (a << 1) ^ (b << 1)
    ensures (a ^ b) >> 8 == (a >> 8) ^ (b >> 8)
    ensures (a ^ b) << 8 == (a << 8) ^ (b << 8)
  {
  }

  lemma RawLow(a: bv32, b: bv32)
    ensures (a ^ b) & 1 == (a & 1) ^ (b & 1)
    ensures a & 1 == 0 || a & 1 == 1
    ensures b & 1 == 0 || b & 1 == 1
  {
  }

  lemma RawSplit(a: bv32)
    ensures (a & 0xFFFF_FF00) ^ (a & 0xFF) == a
    ensures (a & 0xFFFF_FF00) >> 8 == a >> 8
    ensures (a & 0xFFFF_FF00) & 0xFF == 0
    ensures (a << 8) & 0xFF == 0
  {
  }

  lemma RawWide(a: bv32, b: byte)
    ensures (b as bv32) >> 8 == 0
    ensures ((b as bv32) ^ (a << 8)) >> 8 == a & 0x00FF_FFFF
    ensures ((b as bv32) ^ (a << 8)) & 0xFF == b as bv32
  {
  }

  lemma RawRbitXor(a: bv32, b: bv32)
    ensures Rbit(a ^ b) == Rbit(a) ^ Rbit(b)
  {
  }

  lemma RawRbitShr8(a: bv32)
    ensures Rbit(a >> 8) == Rbit(a) << 8
  {
  }

  // The same laws on the named operations.

  lemma XorLaws(a: bv32, b: bv32, c: bv32)
    ensures Xor(Xor(a, b), c) == Xor(a, Xor(b, c))
    ensures Xor(a, b) == Xor(b, a)
    ensures Xor(a, a) == 0
    ensures Xor(a, 0) == a
  {
    RawXor(a, b, c);
  }

  lemma XorSwap(a: bv32, b: bv32, c: bv32, d: bv32)
    ensures Xor(Xor(a, b), Xor(c, d)) == Xor(Xor(a, c), Xor(b, d))
  {
    hide Xor;
    XorLaws(a, b, Xor(c, d));
    XorLaws(b, c, d);
    XorLaws(c, b, d);
    XorLaws(a, c, Xor(b, d));
  }

  lemma XorCancel(a: bv32, b: bv32)
    ensures Xor(Xor(a, b), b) == a
    ensures Xor(a, b) == 0 <==> a == b
  {
    hide Xor;
    XorLaws(a, b, b);
    XorLaws(b, b, a);
    XorLaws(0, b, 0);
    if Xor(a, b) == 0 {
      assert Xor(Xor(a, b), b) == Xor(0, b) == b;
    }
  }

  lemma ShiftXor(a: bv32, b: bv32)
    ensures Shr(Xor(a, b)) == Xor(Shr(a), Shr(b))
    ensures Shl(Xor(a, b)) == Xor(Shl(a), Shl(b))
  {
    RawShifts(a, b);
  }

  lemma Shift8Xor(a: bv32, b: bv32)
    ensures Shr8(Xor(a, b)) == Xor(Shr8(a), Shr8(b))
    ensures Shl8(Xor(a, b)) == Xor(Shl8(a), Shl8(b))
  {
    RawShifts(a, b);
  }

  lemma Bit0Xor(a: bv32, b: bv32)
    ensures Bit0(Xor(a, b)) == (Bit0(a) != Bit0(b))
  {
    RawLow(a, b);
  }

  lemma SplitLow(a: bv32)
    ensures Xor(High24(a), Low8(a)) == a
    ensures Shr8(High24(a)) == Shr8(a)
    ensures Low8(High24(a)) == 0
    ensures Low8(Shl8(a)) == 0
  {
    RawSplit(a);
  }

  lemma RbitTwice(a: bv32)
    ensures Rbit(Rbit(a)) == a
  {
  }

  lemma RbitXor(a: bv32, b: bv32)
    ensures Rbit(Xor(a, b)) == Xor(Rbit(a), Rbit(b))
  {
    RawRbitXor(a, b);
  }

  lemma RbitShl(a: bv32)
    ensures Rbit(Shl(a)) == Shr(Rbit(a))
    ensures Bit0(Rbit(a)) == Top(a)
  {
  }

  lemma RbitShr8(a: bv32)
    ensures Rbit(Shr8(a)) == Shl8(Rbit(a))
  {
    RawRbitShr8(a);
  }

  lemma {:induction false} RbitShrBytes(a: bv32, n: nat)
    ensures Rbit(ShrBytes(a, n)) == ShlBytes(Rbit(a), n)
    decreases n
  {
    hide Rbit, Shr8, Shl8;
    if n > 0 {
      RbitShr8(a);
      RbitShrBytes(Shr8(a), n - 1);
    }
  }

  lemma {:induction false} ShrBytesXor(a: bv32, b: bv32, n: nat)
    ensures ShrBytes(Xor(a, b), n) == Xor(ShrBytes(a, n), ShrBytes(b, n))
    decreases n
  {
    hide Xor, Shr8;
    if n > 0 {
      Shift8Xor(a, b);
      ShrBytesXor(Shr8(a), Shr8(b), n - 1);
    }
  }

  /** The bytes of a word that a shift up by n bytes keeps. */
  function Kept(a: bv32, n: nat): bv32
    requires 1 <= n <= 3
  {
    if n == 1 then a & 0x00FF_FFFF else if n == 2 then a & 0xFFFF else Low8(a)
  }

  // A word shifted up by whole bytes comes back down, byte by byte, to the part that was kept.

  lemma UpAndDown1(a: bv32)
    ensures Low8(ShlBytes(a, 1)) == 0
    ensures ShrBytes(ShlBytes(a, 1), 1) == Kept(a, 1)
  {
    hide Low8, Shr8, Shl8, Kept;
    UpAndDownOnce(a);
  }

  lemma UpAndDown2(a: bv32)
    ensures Low8(ShlBytes(a, 2)) == 0 && Low8(ShrBytes(ShlBytes(a, 2), 1)) == 0
    ensures ShrBytes(ShlBytes(a, 2), 2) == Kept(a, 2)
  {
    hide Low8, Shr8, Shl8, Kept;
    UpAndDownTwice(a);
  }

  lemma UpAndDown3(a: bv32)
    ensures Low8(ShlBytes(a, 3)) == 0 && Low8(ShrBytes(ShlBytes(a, 3), 1)) == 0
    ensures Low8(ShrBytes(ShlBytes(a, 3), 2)) == 0
    ensures ShrBytes(ShlBytes(a, 3), 3) == Kept(a, 3)
  {
    hide Low8, Shr8, Shl8, Kept;
    UpAndDownThrice(a);
  }

  lemma UpAndDownOnce(a: bv32)
    ensures Low8(Shl8(a)) == 0 && Shr8(Shl8(a)) == Kept(a, 1)
  {
    RawUpAndDown(a);
  }

  lemma UpAndDownTwice(a: bv32)
    ensures Low8(Shl8(Shl8(a))) == 0 && Low8(Shr8(Shl8(Shl8(a)))) == 0
    ensures Shr8(Shr8(Shl8(Shl8(a)))) == Kept(a, 2)
  {
    RawUpAndDown(a);
  }

  lemma UpAndDownThrice(a: bv32)
    ensures Low8(Shl8(Shl8(Shl8(a)))) == 0 && Low8(Shr8(Shl8(Shl8(Shl8(a))))) == 0
    ensures Low8(Shr8(Shr8(Shl8(Shl8(Shl8(a)))))) == 0
    ensures Shr8(Shr8(Shr8(Shl8(Shl8(Shl8(a)))))) == Kept(a, 3)
  {
    RawUpAndDown(a);
  }

  lemma RawUpAndDown(a: bv32)
    ensures (a << 8) & 0xFF == 0 && (a << 8) >> 8 == a & 0x00FF_FFFF
    ensures ((a << 8) << 8) & 0xFF == 0 && (((a << 8) << 8) >> 8) & 0xFF == 0
    ensures (((a << 8) << 8) >> 8) >> 8 == a & 0xFFFF
    ensures (((a << 8) << 8) << 8) & 0xFF == 0 && ((((a << 8) << 8) << 8) >> 8) & 0xFF == 0
    ensures (((((a << 8) << 8) << 8) >> 8) >> 8) & 0xFF == 0
    ensures ((((((a << 8) << 8) << 8) >> 8) >> 8)) >> 8 == a & 0xFF
  {
  }

  /** What a shift up by n bytes drops. */
  function Dropped(a: bv32, n: nat): bv32
    requires 1 <= n <= 3
  {
    if n == 1 then a & 0xFF00_0000 else if n == 2 then a & 0xFFFF_0000 else High24(a)
  }

  lemma KeptDropped(a: bv32, n: nat)
    requires 1 <= n <= 3
    ensures Xor(Dropped(a, n), Kept(a, n)) == a
  {
    hide Xor, Dropped, Kept;
    if n == 1 {
      KeptDropped1(a);
    } else if n == 2 {
      KeptDropped2(a);
    } else {
      KeptDropped3(a);
    }
  }

  lemma KeptDropped1(a: bv32)
    ensures Xor(Dropped(a, 1), Kept(a, 1)) == a
  {
    RawKeptDropped1(a);
  }

  lemma KeptDropped2(a: bv32)
    ensures Xor(Dropped(a, 2), Kept(a, 2)) == a
  {
    RawKeptDropped2(a);
  }

  lemma KeptDropped3(a: bv32)
    ensures Xor(Dropped(a, 3), Kept(a, 3)) == a
  {
    hide Xor, High24, Low8;
    SplitLow(a);
  }

  lemma RawKeptDropped1(a: bv32)
    ensures (a & 0xFF00_0000) ^ (a & 0x00FF_FFFF) == a
  {
  }

  lemma RawKeptDropped2(a: bv32)
    ensures (a & 0xFFFF_0000) ^ (a & 0xFFFF) == a
  {
  }

  // The dropped bytes have nothing below them, and the kept ones nothing above.

  lemma Kept1(a: bv32)
    ensures Low8(Dropped(a, 1)) == 0 && Low8(Shr8(Dropped(a, 1))) == 0 && Low8(Shr8(Shr8(Dropped(a, 1)))) == 0
    ensures Shr8(Shr8(Shr8(Kept(a, 1)))) == 0
  {
    RawKept1(a);
  }

  lemma RawKept1(a: bv32)
    ensures (a & 0xFF00_0000) & 0xFF == 0 && ((a & 0xFF00_0000) >> 8) & 0xFF == 0
    ensures (((a & 0xFF00_0000) >> 8) >> 8) & 0xFF == 0
    ensures (((a & 0x00FF_FFFF) >> 8) >> 8) >> 8 == 0
  {
  }

  lemma Kept2(a: bv32)
    ensures Low8(Dropped(a, 2)) == 0 && Low8(Shr8(Dropped(a, 2))) == 0
    ensures Shr8(Shr8(Kept(a, 2))) == 0
  {
    RawKept2(a);
  }

  lemma RawKept2(a: bv32)
    ensures (a & 0xFFFF_0000) & 0xFF == 0 && ((a & 0xFFFF_0000) >> 8) & 0xFF == 0
    ensures ((a & 0xFFFF) >> 8) >> 8 == 0
  {
  }

  lemma Kept3(a: bv32)
    ensures Low8(Dropped(a, 3)) == 0
    ensures Shr8(Kept(a, 3)) == 0
  {
    RawKept3(a);
  }

  lemma RawKept3(a: bv32)
    ensures (a & 0xFFFF_FF00) & 0xFF == 0 && (a & 0xFF) >> 8 == 0
  {
  }

  /** Words of one, two and three bytes. */
  function Word2(b0: byte, b1: byte): bv32 { Xor(Wide(b0), Shl8(Wide(b1))) }

  function Word3(b0: byte, b1: byte, b2: byte): bv32 { Xor(Wide(b0), Shl8(Word2(b1, b2))) }

  lemma OneByteIsShort(b0: byte)
    ensures Shr8(Shl8(Wide(b0))) == Wide(b0) && Shr8(Wide(b0)) == 0
  {
    RawOneByte(b0);
  }

  lemma RawOneByte(b0: byte)
    ensures ((b0 as bv32) << 8) >> 8 == (b0 as bv32) && (b0 as bv32) >> 8 == 0
  {
  }

  lemma TwoBytesAreShort(b0: byte, b1: byte)
    ensures Shr8(Shl8(Word2(b0, b1))) == Word2(b0, b1) && Shr8(Shr8(Word2(b0, b1))) == 0
  {
    RawTwoBytes(b0, b1);
  }

  lemma RawTwoBytes(b0: byte, b1: byte)
    ensures (((b0 as bv32) ^ ((b1 as bv32) << 8)) << 8) >> 8 == (b0 as bv32) ^ ((b1 as bv32) << 8)
    ensures (((b0 as bv32) ^ ((b1 as bv32) << 8)) >> 8) >> 8 == 0
  {
  }

  lemma ThreeBytesAreShort(b0: byte, b1: byte, b2: byte)
    ensures Shr8(Shl8(Word3(b0, b1, b2))) == Word3(b0, b1, b2) && Shr8(Shr8(Shr8(Word3(b0, b1, b2)))) == 0
  {
    RawThreeBytes(b0, b1, b2);
  }

  lemma RawThreeBytes(b0: byte, b1: byte, b2: byte)
    ensures (((b0 as bv32) ^ (((b1 as bv32) ^ ((b2 as bv32) << 8)) << 8)) << 8) >> 8 ==
            (b0 as bv32) ^ (((b1 as bv32) ^ ((b2 as bv32) << 8)) << 8)
    ensures ((((b0 as bv32) ^ (((b1 as bv32) ^ ((b2 as bv32) << 8)) << 8)) >> 8) >> 8) >> 8 == 0
  {
  }
}
