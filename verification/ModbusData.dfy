/** Registers and coils as bytes of a Modbus frame. */
module ModbusData {
  import opened Bytes

  // Registers, high byte first.

  function RegisterBytes(vs: seq<word>): (b: seq<byte>)
    ensures |b| == 2 * |vs|
  {
    seq(2 * |vs|, i requires 0 <= i < 2 * |vs| => if i % 2 == 0 then Hi(vs[i / 2]) else Lo(vs[i / 2]))
  }

  function Registers(b: seq<byte>): (vs: seq<word>)
    ensures |vs| == |b| / 2
  {
    seq(|b| / 2, i requires 0 <= i < |b| / 2 => Word(b[2 * i], b[2 * i + 1]))
  }

  lemma RegistersRoundTrip(vs: seq<word>)
    ensures Registers(RegisterBytes(vs)) == vs
  {
    hide Hi, Lo, Word;
    forall i | 0 <= i < |vs| ensures Registers(RegisterBytes(vs))[i] == vs[i] {
      WordRoundTrip(vs[i], 0, 0);
      assert (2 * i) / 2 == i && (2 * i + 1) / 2 == i && (2 * i + 1) % 2 == 1;
    }
  }

  lemma RegisterBytesSnoc(vs: seq<word>, v: word)
    ensures RegisterBytes(vs + [v]) == RegisterBytes(vs) + [Hi(v), Lo(v)]
  {
    hide Hi, Lo;
  }

  // Bits, lowest first.

  function Shl(b: byte, k: nat): byte
    decreases k
  {
    if k == 0 then b else Shl(b << 1, k - 1)
  }

  function And(a: byte, b: byte): byte { a & b }

  function Or(a: byte, b: byte): byte { a | b }

  function Cell(bit: bool): byte { if bit then 1 else 0 }

  /** Bit k of a byte. */
  predicate Bit(b: byte, k: nat) {
    And(b, Shl(1, k)) != 0
  }

  /** Up to eight bits in a byte. */
  function ByteOf(bits: seq<bool>): byte {
    if bits == [] then 0
    else Or(ByteOf(bits[..|bits| - 1]), Shl(Cell(bits[|bits| - 1]), |bits| - 1))
  }

  lemma RawMask(b: byte, m: byte, c: byte)
    ensures (b | m) & m == m
    ensures (b | 0) & m == b & m
    ensures c & m == 0 ==> (b | c) & m == b & m
    ensures 0 & m == 0
  {
  }

  lemma ShlZero(k: nat)
    ensures Shl(0, k) == 0
    decreases k
  {
    if k > 0 {
      assert (0 as bv8) << 1 == 0;
      ShlZero(k - 1);
    }
  }

  lemma ShlOnes()
    ensures Shl(1, 0) == 1 && Shl(1, 1) == 2 && Shl(1, 2) == 4 && Shl(1, 3) == 8
    ensures Shl(1, 4) == 16 && Shl(1, 5) == 32 && Shl(1, 6) == 64 && Shl(1, 7) == 128
  {
  }

  lemma MasksDisjoint(j: nat, k: nat)
    requires j < 8 && k < 8
    ensures And(Shl(1, j), Shl(1, k)) == if j == k then Shl(1, k) else 0
    ensures Shl(1, k) != 0
  {
    ShlOnes();
    hide Shl;
  }

  lemma {:induction false} BitsOfByte(bits: seq<bool>, k: nat)
    requires |bits| <= 8 && k < 8
    ensures Bit(ByteOf(bits), k) == (k < |bits| && bits[k])
  {
    hide And, Or, Shl;
    if bits == [] {
      AndZero(Shl(1, k));
    } else {
      var j := |bits| - 1;
      BitsOfByte(bits[..j], k);
      MasksDisjoint(j, k);
      ShlZero(j);
      OrMask(ByteOf(bits[..j]), Shl(1, j), Shl(1, k));
      OrMask(ByteOf(bits[..j]), 0, Shl(1, k));
    }
  }

  lemma AndZero(m: byte)
    ensures And(0, m) == 0
  {
  }

  lemma OrMask(b: byte, c: byte, m: byte)
    ensures c == m ==> And(Or(b, c), m) == m
    ensures And(c, m) == 0 ==> And(Or(b, c), m) == And(b, m)
    ensures And(0, m) == 0
  {
    RawMask(b, m, c);
  }

  function ByteCount(nb: nat): nat { (nb + 7) / 8 }

  lemma ByteCountAsWritten(nb: nat)
    ensures nb / 8 + (if nb % 8 != 0 then 1 else 0) == ByteCount(nb)
  {
  }

  /** The k-th group of eight bits. */
  function Group(bits: seq<bool>, k: nat): (g: seq<bool>)
    requires 8 * k <= |bits|
    ensures |g| <= 8
  {
    bits[8 * k..if 8 * k + 8 <= |bits| then 8 * k + 8 else |bits|]
  }

  function Pack(bits: seq<bool>): (b: seq<byte>)
    ensures |b| == ByteCount(|bits|)
  {
    seq(ByteCount(|bits|), k requires 0 <= k < ByteCount(|bits|) => ByteOf(Group(bits, k)))
  }

  function Unpack(b: seq<byte>, nb: nat): (bits: seq<bool>)
    requires nb <= 8 * |b|
    ensures |bits| == nb
  {
    seq(nb, i requires 0 <= i < nb => Bit(b[i / 8], i % 8))
  }

  lemma PackRoundTrip(bits: seq<bool>)
    ensures Unpack(Pack(bits), |bits|) == bits
  {
    hide Bit, ByteOf;
    forall i | 0 <= i < |bits| ensures Unpack(Pack(bits), |bits|)[i] == bits[i] {
      BitsOfByte(Group(bits, i / 8), i % 8);
      assert Group(bits, i / 8)[i % 8] == bits[i];
    }
  }
}
