/** The CRC unit and `crc32_posix`, which drives it. */
module CrcUnit {
  import opened Words32
  import opened Crc32

  /** The word written to the unit when fewer than four bytes are passed. */
  const SHORT_WORD: bv32 := 0x00EB_ABAB

  /** The mirrored register from which `crc32_posix` goes on, given the register it finds. */
  function StartState(r: bv32, len: nat): bv32 {
    if len >= 4 then Rbit(r) else Rbit(UnitWrite(r, SHORT_WORD))
  }

  /** What `crc32_posix` returns, given the register it finds. */
  function Posix(r: bv32, buf: seq<byte>): bv32 {
    Not(State(StartState(r, |buf|), buf))
  }

  lemma {:induction false} StateConcat(c: bv32, a: seq<byte>, b: seq<byte>)
    ensures State(c, a + b) == State(State(c, a), b)
    decreases |b|
  {
    hide Update;
    if b == [] {
      assert a + b == a;
    } else {
      var m := a + b;
      assert m[..|m| - 1] == a + b[..|b| - 1];
      StateConcat(c, a, b[..|b| - 1]);
    }
  }

  lemma StateOne(c: bv32, b: byte)
    ensures State(c, [b]) == Update(c, b)
  {
    hide Update;
    assert [b][..0] == [];
  }

  lemma StateTwo(c: bv32, b0: byte, b1: byte)
    ensures State(c, [b0, b1]) == Update(Update(c, b0), b1)
  {
    hide Update;
    assert [b0, b1] == [b0] + [b1];
    StateConcat(c, [b0], [b1]);
    StateOne(c, b0);
    StateOne(Update(c, b0), b1);
  }

  lemma StateThree(c: bv32, b0: byte, b1: byte, b2: byte)
    ensures State(c, [b0, b1, b2]) == Update(Update(Update(c, b0), b1), b2)
  {
    hide Update;
    assert [b0, b1, b2] == [b0, b1] + [b2];
    StateConcat(c, [b0, b1], [b2]);
    StateTwo(c, b0, b1);
    StateOne(Update(Update(c, b0), b1), b2);
  }

  /** A word written with its bits mirrored is four bytes of the message. */
  lemma WriteWord(r: bv32, m: seq<byte>)
    requires |m| == 4
    ensures Rbit(UnitWrite(r, Rbit(Word(m[0], m[1], m[2], m[3])))) == State(Rbit(r), m)
  {
    hide Update, Xor, Word, Rbit, BitSteps, UnitWrite;
    WriteMirror(r, Word(m[0], m[1], m[2], m[3]));
    Update4(Rbit(r), m[0], m[1], m[2], m[3]);
    assert m == [m[0], m[1], m[2]] + [m[3]];
    StateConcat(Rbit(r), [m[0], m[1], m[2]], [m[3]]);
    StateThree(Rbit(r), m[0], m[1], m[2]);
    StateOne(State(Rbit(r), [m[0], m[1], m[2]]), m[3]);
  }

  /** The one to three bytes that remain, as the masked load sees them. */
  function TailWord(m: seq<byte>): bv32
    requires 1 <= |m| <= 3
  {
    if |m| == 1 then Wide(m[0]) else if |m| == 2 then Word2(m[0], m[1]) else Word3(m[0], m[1], m[2])
  }

  lemma TailUpdates(c: bv32, m: seq<byte>)
    requires 1 <= |m| <= 3
    ensures BitSteps(Xor(c, TailWord(m)), 8 * |m|) == State(c, m)
    ensures ShrBytes(TailWord(m), |m|) == 0
  {
    hide Update, Xor, Wide, Word2, Word3, BitSteps, Shr8, Shl8;
    if |m| == 1 {
      assert m == [m[0]];
      StateOne(c, m[0]);
      Update1(c, m[0]);
      OneByteIsShort(m[0]);
    } else if |m| == 2 {
      assert m == [m[0], m[1]];
      StateTwo(c, m[0], m[1]);
      Update2(c, m[0], m[1]);
      TwoBytesAreShort(m[0], m[1]);
    } else {
      assert m == [m[0], m[1], m[2]];
      StateThree(c, m[0], m[1], m[2]);
      Update3(c, m[0], m[1], m[2]);
      ThreeBytesAreShort(m[0], m[1], m[2]);
    }
  }

  /** The trailing bytes through a cleared unit: the result the source assembles is the CRC. */
  lemma TailTrick(c: bv32, m: seq<byte>)
    requires 1 <= |m| <= 3
    ensures var d := ShrBytes(Rbit(Xor(TailWord(m), c)), 4 - |m|);
            Xor(ShrBytes(c, |m|), Rbit(UnitWrite(0, d))) == State(c, m)
  {
    hide Update, Xor, TailWord, BitSteps, Rbit, UnitWrite, Kept;
    var t := TailWord(m);
    var x := Xor(t, c);
    var j := 4 - |m|;
    var d := ShrBytes(Rbit(x), j);
    XorLaws(t, c, 0);
    RbitShrBytes(Rbit(x), j);
    RbitTwice(x);
    RbitTwice(d);
    assert Rbit(d) == ShlBytes(x, j);
    WriteMirror(0, ShlBytes(x, j));
    RbitZero();
    XorLaws(0, ShlBytes(x, j), 0);
    XorLaws(ShlBytes(x, j), 0, 0);
    StepsOfShifted(x, j);
    StepsOfTail(x, j);
    TailUpdates(c, m);
    ShrBytesXor(c, t, |m|);
    XorLaws(ShrBytes(c, |m|), 0, 0);
  }

  lemma RbitZero()
    ensures Rbit(0) == 0
    ensures Rbit(INIT) == INIT
  {
  }

  /** Writing its own value to the unit clears it. */
  lemma WriteClears(r: bv32)
    ensures UnitWrite(r, r) == 0
  {
    XorLaws(r, r, r);
    UnitZero(32);
  }

  lemma {:induction false} UnitZero(n: nat)
    ensures UnitSteps(0, n) == 0
    decreases n
  {
    if n > 0 {
      assert UnitStep(0) == 0;
      UnitZero(n - 1);
    }
  }

  class Unit {
    var dr: bv32

    method Reset()
      modifies this
      ensures dr == INIT
    {
      dr := INIT;
    }

    method CalcCrc(data: bv32) returns (r: bv32)
      modifies this
      ensures dr == r == UnitWrite(old(dr), data)
    {
      dr := UnitWrite(dr, data);
      r := dr;
    }

    /**
     `crc32_posix`. After a whole number of words the register holds the running state, so a
     second call without `clear` continues the message.
     */
    method Crc32Posix(buf: seq<byte>, clear: bool) returns (crc: bv32)
      modifies this
      ensures var r := if clear then INIT else old(dr);
              && crc == Posix(r, buf)
              && (|buf| >= 4 && |buf| % 4 == 0 ==> Rbit(dr) == State(Rbit(r), buf))
    {
      hide Rbit, UnitWrite, Xor, Word, TailWord, Not, Update;
      if clear {
        Reset();
      }
      ghost var start := dr;
      var p, len := 0, |buf|;
      var reg: bv32;
      if len >= 4 {
        reg := dr;
        while len >= 4
          invariant 0 <= len && p + len == |buf| && p % 4 == 0
          invariant reg == dr && Rbit(dr) == State(Rbit(start), buf[..p])
        {
          WriteWord(dr, buf[p..p + 4]);
          StateConcat(Rbit(start), buf[..p], buf[p..p + 4]);
          assert buf[..p + 4] == buf[..p] + buf[p..p + 4];
          reg := CalcCrc(Rbit(Word(buf[p], buf[p + 1], buf[p + 2], buf[p + 3])));
          p, len := p + 4, len - 4;
        }
      } else {
        reg := CalcCrc(SHORT_WORD);
      }
      crc := Rbit(reg);
      assert crc == State(StartState(start, |buf|), buf[..p]);
      StateConcat(StartState(start, |buf|), buf[..p], buf[p..]);
      assert buf == buf[..p] + buf[p..];
      if len != 0 {
        WriteClears(dr);
        TailTrick(crc, buf[p..]);
        reg := CalcCrc(reg);
        reg := CalcCrc(ShrBytes(Rbit(Xor(TailWord(buf[p..]), crc)), 4 - len));
        crc := Xor(ShrBytes(crc, len), Rbit(reg));
      }
      crc := Not(crc);
    }
  }

  // What the call computes.

  lemma {:induction false} StateInjective(c: bv32, d: bv32, m: seq<byte>)
    requires State(c, m) == State(d, m)
    ensures c == d
  {
    hide BitSteps, Xor, Wide;
    if m != [] {
      var p, b := m[..|m| - 1], m[|m| - 1];
      StepsInjective(Xor(State(c, p), Wide(b)), Xor(State(d, p), Wide(b)), 8);
      XorCancel(State(c, p), Wide(b));
      XorCancel(State(d, p), Wide(b));
      StateInjective(c, d, p);
    }
  }

  lemma NotInjective(a: bv32, b: bv32)
    requires Not(a) == Not(b)
    ensures a == b
  {
    assert !!a == a && !!b == b;
  }

  lemma {:induction false} UnitAdd(r: bv32, m: nat, n: nat)
    ensures UnitSteps(r, m + n) == UnitSteps(UnitSteps(r, m), n)
    decreases m
  {
    hide UnitStep;
    if m > 0 {
      UnitAdd(UnitStep(r), m - 1, n);
    }
  }

  lemma ShortWordSteps()
    ensures UnitSteps(0xFF14_5454, 8) == 0xA5A3_14B4
    ensures UnitSteps(0xA5A3_14B4, 8) == 0x45FE_8965
    ensures UnitSteps(0x45FE_8965, 8) == 0xDDCA_7E1C
    ensures UnitSteps(0xDDCA_7E1C, 8) == 0xEA28_D13A
  {
  }

  /** The word written for short messages does not bring the register back to its reset value. */
  lemma ShortWordSpoils()
    ensures UnitWrite(INIT, SHORT_WORD) != INIT
  {
    assert Xor(INIT, SHORT_WORD) == 0xFF14_5454;
    ShortWordSteps();
    hide UnitStep;
    UnitAdd(0xFF14_5454, 8, 24);
    UnitAdd(0xA5A3_14B4, 8, 16);
    UnitAdd(0x45FE_8965, 8, 8);
  }

  /**
   A fresh call computes CRC-32 exactly when the message has at least four bytes: below that the
   branch taken overwrites the initial state.
   */
  lemma PosixIsCrc32(buf: seq<byte>)
    ensures Posix(INIT, buf) == Crc(buf) <==> |buf| >= 4
  {
    hide Rbit, UnitWrite, Update, Not;
    RbitZero();
    if |buf| < 4 && Posix(INIT, buf) == Crc(buf) {
      NotInjective(State(StartState(INIT, |buf|), buf), State(INIT, buf));
      StateInjective(StartState(INIT, |buf|), INIT, buf);
      ShortWordSpoils();
      RbitTwice(UnitWrite(INIT, SHORT_WORD));
      assert false;
    }
  }

  /** Two chained calls, the first on whole words and the second on at least four bytes, are one. */
  lemma PosixChained(r: bv32, a: seq<byte>, b: seq<byte>)
    requires Rbit(r) == State(INIT, a)
    requires |b| >= 4
    ensures Posix(r, b) == Crc(a + b)
  {
    hide Rbit, Update, Not;
    StateConcat(INIT, a, b);
  }
}
