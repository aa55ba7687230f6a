/**
 16-bit words and bytes as the CRC code uses them. The operations are named, and their laws
 are proved once here, so that later proofs reason with the laws and not with the bits.
 */
module Words16 {
  type byte = bv8

  function Xor(a: bv16, b: bv16): bv16 { a ^ b }

  function Shr(a: bv16): bv16 { a >> 1 }

  predicate Bit0(a: bv16) { a & 1 == 1 }

  function One(b: bool): bv16 { if b then 1 else 0 }

  /** Zero extension of a byte. */
  function Wide(b: byte): bv16 { b as bv16 }

  /** Exclusive or of bytes. */
  function Mix(a: byte, b: byte): byte { a ^ b }

  function Lo(a: bv16): byte { (a & 0xFF) as bv8 }

  function Hi(a: bv16): byte { (a >> 8) as bv8 }

  function Join(hi: byte, lo: byte): bv16 { ((hi as bv16) << 8) | (lo as bv16) }

  function ShrN(a: bv16, n: nat): bv16
    decreases n
  {
    if n == 0 then a else ShrN(Shr(a), n - 1)
  }

  // The laws on bare bit-vectors.

  lemma RawShift(a: bv16, b: bv16)
    ensures (a ^ b) >> 1 == (a >> 1) ^ (b >> 1)
    ensures (a >> 1) & (b >> 1) == (a & b) >> 1
  {
  }

  lemma RawLow(a: bv16, b: bv16)
    ensures (a ^ b) & 1 == (a & 1) ^ (b & 1)
    ensures a & 1 == 0 || a & 1 == 1
    ensures b & 1 == 0 || b & 1 == 1
  {
  }

  lemma RawXor(a: bv16, b: bv16, c: bv16)
    ensures (a ^ b) ^ c == a ^ (b ^ c)
    ensures a ^ b == b ^ a
    ensures a ^ a == 0
    ensures a ^ 0 == a
  {
  }

  lemma RawBytes(a: bv16, b: bv16)
    ensures ((a ^ b) & 0xFF) as bv8 == ((a & 0xFF) as bv8) ^ ((b & 0xFF) as bv8)
    ensures ((a ^ b) >> 8) as bv8 == ((a >> 8) as bv8) ^ ((b >> 8) as bv8)
  {
  }

  lemma RawSplit(a: bv16)
    ensures ((((a >> 8) as bv8) as bv16) << 8) | (((a & 0xFF) as bv8) as bv16) == a
    ensures ((((a >> 8) as bv8) as bv16) << 8) ^ (((a & 0xFF) as bv8) as bv16) == a
  {
  }

  lemma RawJoin(h: byte, l: byte)
    ensures ((((h as bv16) << 8) | (l as bv16)) >> 8) as bv8 == h
    ensures ((((h as bv16) << 8) | (l as bv16)) & 0xFF) as bv8 == l
  {
  }

  lemma RawWide(b: byte)
    ensures ((b as bv16) & 0xFF) == (b as bv16)
  {
  }

  // The same laws on the named operations.

  lemma XorLaws(a: bv16, b: bv16, c: bv16)
    ensures Xor(Xor(a, b), c) == Xor(a, Xor(b, c))
    ensures Xor(a, b) == Xor(b, a)
    ensures Xor(a, a) == 0
    ensures Xor(a, 0) == a
  {
    RawXor(a, b, c);
  }

  lemma XorCancel(a: bv16, b: bv16)
    ensures Xor(Xor(a, b), b) == a
    ensures Xor(a, b) == 0 <==> a == b
  {
    XorLaws(a, b, b);
    XorLaws(b, b, a);
    XorLaws(0, b, 0);
    if Xor(a, b) == 0 {
      assert Xor(Xor(a, b), b) == Xor(0, b) == b;
    }
  }

  lemma XorSwap(a: bv16, b: bv16, c: bv16, d: bv16)
    ensures Xor(Xor(a, b), Xor(c, d)) == Xor(Xor(a, c), Xor(b, d))
  {
    XorLaws(a, b, Xor(c, d));
    XorLaws(b, c, d);
    XorLaws(c, b, d);
    XorLaws(a, c, Xor(b, d));
  }

  lemma ShrXor(a: bv16, b: bv16)
    ensures Shr(Xor(a, b)) == Xor(Shr(a), Shr(b))
  {
    RawShift(a, b);
  }

  lemma Bit0Xor(a: bv16, b: bv16)
    ensures Bit0(Xor(a, b)) == (Bit0(a) != Bit0(b))
  {
    RawLow(a, b);
  }

  lemma BytesXor(a: bv16, b: bv16)
    ensures Lo(Xor(a, b)) == Lo(a) ^ Lo(b)
    ensures Hi(Xor(a, b)) == Hi(a) ^ Hi(b)
  {
    RawBytes(a, b);
  }

  lemma SplitJoin(a: bv16, h: byte, l: byte)
    ensures Join(Hi(a), Lo(a)) == a
    ensures Xor(Join(Hi(a), 0), Wide(Lo(a))) == a
    ensures Hi(Join(h, l)) == h && Lo(Join(h, l)) == l
  {
    RawSplit(a);
    RawJoin(h, l);
  }

  /** A bit that a word lacks stays lacking, in step with a mask: sixteen shifts clear any word. */
  lemma {:induction false} ShrNMask(a: bv16, m: bv16, n: nat)
    requires a & m == a
    ensures ShrN(a, n) & ShrN(m, n) == ShrN(a, n)
    decreases n
  {
    if n > 0 {
      RawShift(a, m);
      ShrNMask(Shr(a), Shr(m), n - 1);
    }
  }

  lemma ShrNOnes()
    ensures ShrN(0xFF, 8) == 0
    ensures ShrN(0xFFFF, 16) == 0
  {
    assert ShrN(0xFF, 8) == ShrN(0xF, 4) == 0;
    assert ShrN(0xFFFF, 16) == ShrN(0xFFF, 12) == ShrN(0xFF, 8);
  }

  lemma And0(a: bv16)
    ensures a & 0 == 0
  {
  }

  lemma ShrN16(a: bv16)
    ensures ShrN(a, 16) == 0
  {
    assert a & 0xFFFF == a;
    ShrNMask(a, 0xFFFF, 16);
    ShrNOnes();
    And0(ShrN(a, 16));
  }

  lemma ShrN8(b: byte)
    ensures ShrN(Wide(b), 8) == 0
  {
    RawWide(b);
    ShrNMask(Wide(b), 0xFF, 8);
    ShrNOnes();
    And0(ShrN(Wide(b), 8));
  }
}
