/** `eMBRegHoldingCB`: holding registers as a walk over the parameter array. */
module RegisterWalk {
  import opened Bytes
  import opened ParamBytes
  import opened Params
  import opened ParamSystem

  datatype ErrorCode = NoErr | NoReg | Inval

  /** The number of registers a parameter takes. */
  function Units(h: Handler): nat { if h.size == 4 then 2 else 1 }

  /** A parameter's bytes out of its registers: high byte first in a register, low register first. */
  function FromRegisters(h: Handler, r: seq<byte>): (b: seq<byte>)
    requires h.size != 8 && WellTyped(h) && |r| >= 2 * Units(h)
    ensures |b| == h.size
  {
    if h.size == 1 then [r[1]] else if h.size == 2 then [r[1], r[0]] else [r[1], r[0], r[3], r[2]]
  }

  function ToRegisters(h: Handler, b: seq<byte>): (r: seq<byte>)
    requires h.size != 8 && WellTyped(h) && |b| == h.size
    ensures |r| == 2 * Units(h)
  {
    if h.size == 1 then [0, b[0]] else if h.size == 2 then [b[1], b[0]] else [b[1], b[0], b[3], b[2]]
  }

  /** A walk over n registers from parameter i on meets no 8-byte parameter. */
  predicate WalkSafe(ps: seq<Param>, i: nat, n: nat)
    decreases n
  {
    n == 0 || i >= |ps| || (ps[i].h.size != 8 && (Units(ps[i].h) > n || WalkSafe(ps, i + 1, n - Units(ps[i].h))))
  }

  /** Writing registers to the parameters from i on; it stops at the first that refuses. */
  function WriteWalk(ps: seq<Param>, i: nat, regs: seq<byte>): (r: (ErrorCode, seq<Param>))
    requires Legal(ps) && |regs| % 2 == 0 && WalkSafe(ps, i, |regs| / 2)
    ensures |r.1| == |ps| && Legal(r.1) && SameHandlers(ps, r.1)
    ensures forall j :: 0 <= j < i && j < |ps| ==> r.1[j] == ps[j]
    decreases |regs|
  {
    if regs == [] then (NoErr, ps)
    else if i >= |ps| then (NoReg, ps)
    else if 2 * Units(ps[i].h) > |regs| then (Inval, ps)
    else
      var b := FromRegisters(ps[i].h, regs);
      LoadedLegal(ps[i], b);
      if !InRange(ps[i].h, Decode(b, ps[i].h.signed)) then (Inval, ps)
      else
        SameWalk(ps, ps[i := Loaded(ps[i], b)], i + 1, |regs| / 2 - Units(ps[i].h));
        WriteWalk(ps[i := Loaded(ps[i], b)], i + 1, regs[2 * Units(ps[i].h)..])
  }

  /** Only handlers decide where a walk goes. */
  lemma {:induction false} SameWalk(ps: seq<Param>, qs: seq<Param>, i: nat, n: nat)
    requires SameHandlers(ps, qs)
    ensures WalkSafe(ps, i, n) == WalkSafe(qs, i, n)
    decreases n
  {
    if n > 0 && i < |ps| && ps[i].h.size != 8 && Units(ps[i].h) <= n {
      SameWalk(ps, qs, i + 1, n - Units(ps[i].h));
    }
  }

  /** Reading n registers; what was read before a refusal is in the buffer. */
  function ReadWalk(ps: seq<Param>, i: nat, n: nat): (r: (ErrorCode, seq<byte>))
    requires Legal(ps) && WalkSafe(ps, i, n)
    ensures |r.1| <= 2 * n
    ensures r.0 == NoErr ==> |r.1| == 2 * n
    decreases n
  {
    if n == 0 then (NoErr, [])
    else if i >= |ps| then (NoReg, [])
    else if Units(ps[i].h) > n then (Inval, [])
    else
      var (e, rest) := ReadWalk(ps, i + 1, n - Units(ps[i].h));
      (e, ToRegisters(ps[i].h, Encode(ps[i].val, ps[i].h.size)) + rest)
  }

  // Reading back what was written.

  /** The registers with the high byte cleared where a 1-byte parameter takes a register. */
  function Shown(ps: seq<Param>, i: nat, regs: seq<byte>): (r: seq<byte>)
    requires |regs| % 2 == 0
    ensures |r| == |regs|
    decreases |regs|
  {
    if regs == [] || i >= |ps| || 2 * Units(ps[i].h) > |regs| then regs
    else
      var k := 2 * Units(ps[i].h);
      (if ps[i].h.size == 1 then [0, regs[1]] else regs[..k]) + Shown(ps, i + 1, regs[k..])
  }

  lemma {:induction false} SameShown(ps: seq<Param>, qs: seq<Param>, i: nat, regs: seq<byte>)
    requires SameHandlers(ps, qs) && |regs| % 2 == 0
    ensures Shown(ps, i, regs) == Shown(qs, i, regs)
    decreases |regs|
  {
    if regs != [] && i < |ps| && 2 * Units(ps[i].h) <= |regs| {
      SameShown(ps, qs, i + 1, regs[2 * Units(ps[i].h)..]);
    }
  }

  lemma RegistersOfBytes(h: Handler, r: seq<byte>)
    requires h.size != 8 && WellTyped(h) && |r| >= 2 * Units(h)
    ensures ToRegisters(h, FromRegisters(h, r)) == if h.size == 1 then [0, r[1]] else r[..2 * Units(h)]
  {
    hide Fits;
  }

  /** The first step of a write that succeeds. */
  lemma WriteStep(ps: seq<Param>, i: nat, regs: seq<byte>)
    requires Legal(ps) && |regs| % 2 == 0 && WalkSafe(ps, i, |regs| / 2) && regs != []
    requires WriteWalk(ps, i, regs).0 == NoErr
    ensures i < |ps| && ps[i].h.size != 8 && WellTyped(ps[i].h) && 2 * Units(ps[i].h) <= |regs|
    ensures var k, b := 2 * Units(ps[i].h), FromRegisters(ps[i].h, regs);
            var one := ps[i := Loaded(ps[i], b)];
            && SameHandlers(ps, one) && Legal(one) && WalkSafe(one, i + 1, |regs[k..]| / 2)
            && WriteWalk(ps, i, regs) == WriteWalk(one, i + 1, regs[k..])
            && Encode(one[i].val, ps[i].h.size) == b
  {
    WriteUnfolds(ps, i, regs);
    hide Fits, Encode, Decode;
    var b := FromRegisters(ps[i].h, regs);
    BytesRoundTrip(b, ps[i].h.signed);
  }

  /** A successful write, read back, gives the same registers, but for the unused bytes of 1-byte parameters. */
  lemma {:induction false} WriteThenRead(ps: seq<Param>, i: nat, regs: seq<byte>)
    requires Legal(ps) && |regs| % 2 == 0 && WalkSafe(ps, i, |regs| / 2)
    requires WriteWalk(ps, i, regs).0 == NoErr
    ensures WalkSafe(WriteWalk(ps, i, regs).1, i, |regs| / 2)
    ensures ReadWalk(WriteWalk(ps, i, regs).1, i, |regs| / 2) == (NoErr, Shown(ps, i, regs))
    decreases |regs|
  {
    hide Encode, Decode, Loaded, Legal, InRange;
    var qs := WriteWalk(ps, i, regs).1;
    SameWalk(ps, qs, i, |regs| / 2);
    if regs != [] {
      WriteStep(ps, i, regs);
      var h := ps[i].h;
      var k, b := 2 * Units(h), FromRegisters(h, regs);
      var one := ps[i := Loaded(ps[i], b)];
      WriteThenRead(one, i + 1, regs[k..]);
      SameShown(ps, one, i + 1, regs[k..]);
      RegistersOfBytes(h, regs);
      hide WriteWalk, FromRegisters, ToRegisters;
      assert qs[i] == one[i];
    }
  }

  /** The registers of the parameters i to m. */
  function UnitsOf(ps: seq<Param>, i: nat, m: nat): nat
    requires i <= m <= |ps|
    decreases m - i
  {
    if i == m then 0 else (if ps[i].h.size == 4 then 2 else 1) + UnitsOf(ps, i + 1, m)
  }

  lemma WriteStops(ps: seq<Param>, i: nat, regs: seq<byte>)
    requires Legal(ps) && |regs| % 2 == 0 && WalkSafe(ps, i, |regs| / 2)
    requires regs == [] || i >= |ps| || 2 * Units(ps[i].h) > |regs|
    ensures WriteWalk(ps, i, regs) == (if regs == [] then NoErr else if i >= |ps| then NoReg else Inval, ps)
  {
  }

  lemma WriteUnfolds(ps: seq<Param>, i: nat, regs: seq<byte>)
    requires Legal(ps) && |regs| % 2 == 0 && WalkSafe(ps, i, |regs| / 2)
    requires regs != [] && i < |ps| && 2 * Units(ps[i].h) <= |regs|
    ensures ps[i].h.size != 8 && WellTyped(ps[i].h)
    ensures var k, b := 2 * Units(ps[i].h), FromRegisters(ps[i].h, regs);
            var one := ps[i := Loaded(ps[i], b)];
            && Legal(one) && SameHandlers(ps, one) && WalkSafe(one, i + 1, |regs[k..]| / 2)
            && WriteWalk(ps, i, regs) ==
               if InRange(ps[i].h, Decode(b, ps[i].h.signed)) then WriteWalk(one, i + 1, regs[k..]) else (Inval, ps)
  {
    hide Fits, Decode;
    var b := FromRegisters(ps[i].h, regs);
    LoadedLegal(ps[i], b);
    SameWalk(ps, ps[i := Loaded(ps[i], b)], i + 1, |regs| / 2 - Units(ps[i].h));
  }

  lemma {:induction false} SameUnits(ps: seq<Param>, qs: seq<Param>, i: nat, m: nat)
    requires SameHandlers(ps, qs) && i <= m <= |ps|
    ensures UnitsOf(ps, i, m) == UnitsOf(qs, i, m)
    decreases m - i
  {
    if i < m {
      SameUnits(ps, qs, i + 1, m);
    }
  }

  // What the registers are, as numbers.

  /** Register k of a buffer: its bytes 2k and 2k + 1, the high one first. */
  function Register(b: seq<byte>, k: nat): nat
    requires 2 * k + 1 < |b|
  {
    256 * Value(b[2 * k]) + Value(b[2 * k + 1])
  }

  /** The registers from k on hold v as a value of that size: low word first, a single byte in the low byte. */
  predicate Gives(b: seq<byte>, k: nat, size: nat, v: int) {
    && 2 * (k + (if size == 4 then 2 else 1)) <= |b|
    && (size == 1 ==> Value(b[2 * k + 1]) == v % 256)
    && (size == 2 || size == 4 ==> Register(b, k) == v % 0x1_0000)
    && (size == 4 ==> Register(b, k + 1) == v / 0x1_0000 % 0x1_0000)
  }

  /** As read: the high byte of a single byte's register is zero. */
  predicate Shows(b: seq<byte>, k: nat, size: nat, v: int) {
    Gives(b, k, size, v) && (size == 1 ==> Register(b, k) == v % 256)
  }

  /** No other value of the type gives the same registers. */
  lemma GivesOneValue(b: seq<byte>, k: nat, size: nat, signed: bool, v: int, w: int)
    requires size == 1 || size == 2 || size == 4
    requires Gives(b, k, size, v) && Gives(b, k, size, w) && Fits(v, size, signed) && Fits(w, size, signed)
    ensures v == w
  {
    hide Value, Pow;
    Powers();
    if size == 4 {
      SameModulo(v, w, 0x1_0000);
      SameModulo(v / 0x1_0000, w / 0x1_0000, 0x1_0000);
    } else {
      SameModulo(v, w, if size == 1 then 256 else 0x1_0000);
    }
  }

  lemma SameModulo(v: int, w: int, p: int)
    requires p == 256 || p == 0x1_0000
    requires v % p == w % p
    ensures v - w == p * (v / p - w / p)
    ensures -p < v - w < p ==> v == w
  {
  }

  lemma Powers()
    ensures Pow(0) == 1 && Pow(1) == 256 && Pow(2) == 0x1_0000 && Pow(3) == 0x100_0000 && Pow(4) == 0x1_0000_0000
  {
  }

  /** Two base-256 digits of a value are a word of it. */
  lemma WordOfDigits(v: int)
    ensures 256 * (v / 256 % 256) + v % 256 == v % 0x1_0000
  {
    var q := v / 256;
    assert v == 0x1_0000 * (q / 256) + (256 * (q % 256) + v % 256);
    QuotientIs(v, 0x1_0000, q / 256, 256 * (q % 256) + v % 256);
  }

  lemma WordsOfValue(v: int)
    ensures 256 * (v / 256 % 256) + v % 256 == v % 0x1_0000
    ensures 256 * (v / 0x100_0000 % 256) + v / 0x1_0000 % 256 == v / 0x1_0000 % 0x1_0000
  {
    WordOfDigits(v);
    WordOfDigits(v / 0x1_0000);
    DividesTwice(v, 256);
    DividesTwice(v / 256, 256);
    DividesTwice(v, 0x1_0000);
  }

  lemma EncodedRegisters(h: Handler, v: int, r: seq<byte>)
    requires h.size != 8 && WellTyped(h) && |r| >= 2 * Units(h) && FromRegisters(h, r) == Encode(v, h.size)
    ensures Gives(r, 0, h.size, v)
  {
    hide Value, Fits, Encode;
    Powers();
    WordsOfValue(v);
    EncodeDigit(v, h.size, 0);
    if h.size > 1 {
      EncodeDigit(v, h.size, 1);
    }
    if h.size == 4 {
      EncodeDigit(v, h.size, 2);
      EncodeDigit(v, h.size, 3);
    }
  }

  lemma ShownRegisters(h: Handler, v: int, r: seq<byte>)
    requires h.size != 8 && WellTyped(h) && r == ToRegisters(h, Encode(v, h.size))
    ensures Shows(r, 0, h.size, v)
  {
    hide Fits, Encode;
    assert FromRegisters(h, r) == Encode(v, h.size);
    EncodedRegisters(h, v, r);
    ValueOfByte(0);
    hide Value;
  }

  lemma GivesLater(a: seq<byte>, b: seq<byte>, k: nat, size: nat, v: int)
    requires |a| % 2 == 0
    ensures Gives(b, k, size, v) ==> Gives(a + b, |a| / 2 + k, size, v)
    ensures Shows(b, k, size, v) ==> Shows(a + b, |a| / 2 + k, size, v)
  {
    hide Value;
  }

  lemma GivesEarlier(a: seq<byte>, b: seq<byte>, k: nat, size: nat, v: int)
    ensures Gives(a, k, size, v) ==> Gives(a + b, k, size, v)
    ensures Shows(a, k, size, v) ==> Shows(a + b, k, size, v)
  {
    hide Value;
  }

  /** The registers r show parameters i to m, and a walk over n registers ends as e. */
  predicate Walked(ps: seq<Param>, i: nat, m: nat, n: nat, e: ErrorCode, r: seq<byte>) {
    && i <= m <= |ps| && |r| == 2 * UnitsOf(ps, i, m) <= 2 * n
    && (forall j :: i <= j < m ==> Shows(r, UnitsOf(ps, i, j), ps[j].h.size, ps[j].val))
    && Ended(ps, m, n - UnitsOf(ps, i, m), e, false)
  }

  /** With no register left, or before the first it cannot serve: the table's end, half a 4-byte value, a refusal. */
  predicate Ended(ps: seq<Param>, m: nat, left: nat, e: ErrorCode, refused: bool) {
    && m <= |ps|
    && (e == NoErr <==> left == 0)
    && (e == NoReg <==> left > 0 && m == |ps|)
    && (e == Inval ==> refused || (left == 1 && ps[m].h.size == 4))
  }

  /** A read delivers the parameters' values, one after the other. */
  lemma {:induction false} ReadShowsValues(ps: seq<Param>, i: nat, n: nat) returns (m: nat)
    requires Legal(ps) && WalkSafe(ps, i, n) && i <= |ps|
    ensures Walked(ps, i, m, n, ReadWalk(ps, i, n).0, ReadWalk(ps, i, n).1)
    decreases n
  {
    hide Encode, ToRegisters, ReadWalk, Shows, Legal, WellTyped, Value;
    ReadUnfolds(ps, i, n);
    m := i;
    if n > 0 && i < |ps| && Units(ps[i].h) <= n {
      m := ReadShowsValues(ps, i + 1, n - Units(ps[i].h));
      var first, rest := ToRegisters(ps[i].h, Encode(ps[i].val, ps[i].h.size)), ReadWalk(ps, i + 1, n - Units(ps[i].h)).1;
      ShownRegisters(ps[i].h, ps[i].val, first);
      forall j | i <= j < m ensures Shows(first + rest, UnitsOf(ps, i, j), ps[j].h.size, ps[j].val) {
        if j == i {
          GivesEarlier(first, rest, 0, ps[j].h.size, ps[j].val);
        } else {
          GivesLater(first, rest, UnitsOf(ps, i + 1, j), ps[j].h.size, ps[j].val);
        }
      }
    }
  }

  /** The registers regs gave parameters i to m their values, in range; parameter m may have refused v. */
  predicate Written(ps: seq<Param>, i: nat, m: nat, regs: seq<byte>, e: ErrorCode, qs: seq<Param>, v: int) {
    && i <= m <= |ps| && SameHandlers(ps, qs) && 2 * UnitsOf(ps, i, m) <= |regs|
    && (forall j :: 0 <= j < |ps| && !(i <= j < m) ==> qs[j] == ps[j])
    && (forall j :: i <= j < m ==> Took(regs, UnitsOf(ps, i, j), qs[j]))
    && Ended(ps, m, |regs| / 2 - UnitsOf(ps, i, m), e, m < |ps| && Refuses(regs, UnitsOf(ps, i, m), ps[m].h, v))
  }

  predicate Took(regs: seq<byte>, k: nat, p: Param) {
    Gives(regs, k, p.h.size, p.val) && p.h.min <= p.val <= p.h.max
  }

  predicate Refuses(regs: seq<byte>, k: nat, h: Handler, v: int) {
    Gives(regs, k, h.size, v) && Fits(v, h.size, h.signed) && (v < h.min || v > h.max)
  }

  /** What the bytes of the registers decode to is what the registers give. */
  lemma DecodedRegisters(h: Handler, r: seq<byte>)
    requires h.size != 8 && WellTyped(h) && |r| >= 2 * Units(h)
    ensures var v := Decode(FromRegisters(h, r), h.signed);
            && Gives(r, 0, h.size, v) && Fits(v, h.size, h.signed)
            && (InRange(h, v) <==> h.min <= v <= h.max)
  {
    var b := FromRegisters(h, r);
    BytesRoundTrip(b, h.signed);
    EncodedRegisters(h, Decode(b, h.signed), r);
    hide Fits, Encode, Decode, Gives, FromRegisters;
  }

  lemma TookLater(a: seq<byte>, b: seq<byte>, k: nat, p: Param, v: int)
    requires |a| % 2 == 0
    ensures Took(b, k, p) ==> Took(a + b, |a| / 2 + k, p)
    ensures Refuses(b, k, p.h, v) ==> Refuses(a + b, |a| / 2 + k, p.h, v)
  {
    hide Gives, Fits;
    GivesLater(a, b, k, p.h.size, p.val);
    GivesLater(a, b, k, p.h.size, v);
  }

  lemma TakesInRange(p: Param, b: seq<byte>, regs: seq<byte>)
    requires InRange(p.h, Decode(b, p.h.signed)) && Gives(regs, 0, p.h.size, Decode(b, p.h.signed))
    ensures Took(regs, 0, Loaded(p, b))
  {
    hide Gives, Decode;
  }

  /** One parameter takes its registers, and the rest of the walk follows. */
  lemma WrittenStep(ps: seq<Param>, one: seq<Param>, i: nat, m: nat, regs: seq<byte>, e: ErrorCode, qs: seq<Param>, v: int)
    requires i < |ps| && 2 * Units(ps[i].h) <= |regs| && SameHandlers(ps, one) && one == ps[i := one[i]]
    requires Took(regs, 0, one[i]) && Written(one, i + 1, m, regs[2 * Units(ps[i].h)..], e, qs, v)
    ensures Written(ps, i, m, regs, e, qs, v)
  {
    hide Took, Refuses;
    var first, rest := regs[..2 * Units(ps[i].h)], regs[2 * Units(ps[i].h)..];
    assert first + rest == regs;
    SameUnits(ps, one, i + 1, m);
    forall j | i <= j < m ensures Took(regs, UnitsOf(ps, i, j), qs[j]) {
      if j > i {
        SameUnits(ps, one, i + 1, j);
        TookLater(first, rest, UnitsOf(one, i + 1, j), qs[j], 0);
      }
    }
    if m < |ps| {
      TookLater(first, rest, UnitsOf(one, i + 1, m), ps[m], v);
    }
  }

  /** A parameter that refuses the value in the next registers ends the walk. */
  lemma WrittenRefused(ps: seq<Param>, i: nat, regs: seq<byte>, v: int)
    requires i < |ps| && |regs| >= 2 * Units(ps[i].h)
    requires Gives(regs, 0, ps[i].h.size, v) && Fits(v, ps[i].h.size, ps[i].h.signed) && !InRange(ps[i].h, v)
    ensures Written(ps, i, i, regs, Inval, ps, v)
  {
    hide Gives, Fits;
  }

  /**
   Whether or not it succeeds, a write gives the parameters it walked over the values in the
   registers, all in their ranges, and changes no others.
   */
  lemma {:induction false} WriteTouchesOnlyWalked(ps: seq<Param>, i: nat, regs: seq<byte>) returns (m: nat, v: int)
    requires Legal(ps) && |regs| % 2 == 0 && WalkSafe(ps, i, |regs| / 2) && i <= |ps|
    ensures Written(ps, i, m, regs, WriteWalk(ps, i, regs).0, WriteWalk(ps, i, regs).1, v)
    decreases |regs|
  {
    hide Fits, Encode, Decode, InRange, WriteWalk, Took, Refuses, Gives, Legal, WellTyped, FromRegisters;
    m, v := i, 0;
    if regs != [] && i < |ps| && 2 * Units(ps[i].h) <= |regs| {
      WriteUnfolds(ps, i, regs);
      var k, b := 2 * Units(ps[i].h), FromRegisters(ps[i].h, regs);
      DecodedRegisters(ps[i].h, regs);
      v := Decode(b, ps[i].h.signed);
      if InRange(ps[i].h, v) {
        var one := ps[i := Loaded(ps[i], b)];
        m, v := WriteTouchesOnlyWalked(one, i + 1, regs[k..]);
        TakesInRange(ps[i], b, regs);
        assert one == ps[i := one[i]];
        WrittenStep(ps, one, i, m, regs, WriteWalk(ps, i, regs).0, WriteWalk(ps, i, regs).1, v);
      } else {
        WrittenRefused(ps, i, regs, v);
      }
    } else {
      WriteStops(ps, i, regs);
    }
  }

  /** When only 2- and 4-byte parameters are walked, exactly the same registers come back. */
  lemma {:induction false} ShownUnchanged(ps: seq<Param>, i: nat, m: nat, regs: seq<byte>)
    requires i <= m <= |ps| && |regs| == 2 * UnitsOf(ps, i, m)
    requires forall j :: i <= j < m ==> ps[j].h.size == 2 || ps[j].h.size == 4
    ensures Shown(ps, i, regs) == regs
    decreases m - i
  {
    if i < m {
      ShownUnchanged(ps, i + 1, m, regs[2 * Units(ps[i].h)..]);
    }
  }

  // Where a walk starts.

  /** Parameter i is at the address and none before it is, or no parameter is and i is their number. */
  predicate IsFirst(ps: seq<Param>, i: nat, address: int) {
    && i <= |ps| && (i < |ps| ==> ps[i].h.addr == address)
    && (forall j :: 0 <= j < i ==> ps[j].h.addr != address)
  }

  /** The buffer holds what parameters i to m show, and what it held behind that. */
  predicate Delivered(ps: seq<Param>, i: nat, m: nat, n: nat, e: ErrorCode, was: seq<byte>, b: seq<byte>) {
    && i <= m <= |ps| && |b| == |was| && var k := 2 * UnitsOf(ps, i, m);
    && k <= |b| && b[k..] == was[k..] && Walked(ps, i, m, n, e, b[..k])
  }

  lemma FirstIsRead(ps: seq<Param>, address: int, n: nat, was: seq<byte>)
    requires Legal(ps) && WalkSafe(ps, Lookup(ps, address), n) && |was| >= 2 * n
    ensures var (e, r) := ReadWalk(ps, Lookup(ps, address), n);
            exists i, m :: IsFirst(ps, i, address) && Delivered(ps, i, m, n, e, was, r + was[|r|..])
  {
    hide Legal, WalkSafe, ReadWalk, Shows;
    LookupIsFirst(ps, address);
    var i := Lookup(ps, address);
    hide Lookup;
    var m := ReadShowsValues(ps, i, n);
    var (e, r) := ReadWalk(ps, i, n);
    assert (r + was[|r|..])[..|r|] == r;
    assert IsFirst(ps, i, address) && Delivered(ps, i, m, n, e, was, r + was[|r|..]);
  }

  lemma FirstIsWritten(ps: seq<Param>, address: int, regs: seq<byte>)
    requires Legal(ps) && |regs| % 2 == 0 && WalkSafe(ps, Lookup(ps, address), |regs| / 2)
    ensures var (e, qs) := WriteWalk(ps, Lookup(ps, address), regs);
            exists i, m, v :: IsFirst(ps, i, address) && Written(ps, i, m, regs, e, qs, v)
  {
    hide Legal, WalkSafe, WriteWalk, Written;
    LookupIsFirst(ps, address);
    var i := Lookup(ps, address);
    hide Lookup;
    var m, v := WriteTouchesOnlyWalked(ps, i, regs);
    assert IsFirst(ps, i, address);
  }

  // The two halves of the callback. The parameters' own callbacks are taken to do nothing.

  /** The switch on the size in the read loop. */
  method PutValue(ph: Val, dst: array<byte>, at: nat) returns (end: nat)
    requires ph.handler.size != 8 && WellTyped(ph.handler) && at + 2 * Units(ph.handler) <= dst.Length
    modifies dst
    ensures end == at + 2 * Units(ph.handler)
    ensures dst[..end] == old(dst[..at]) + ToRegisters(ph.handler, Encode(ph.val, ph.handler.size))
    ensures dst[end..] == old(dst[end..])
  {
    hide Encode, Fits;
    var buffer := new byte[4](_ => 0);
    ph.Serialize(buffer, 0);
    ghost var b := Encode(ph.val, ph.handler.size);
    assert b == buffer[0..ph.handler.size];
    assert forall k :: ph.handler.size <= k < 4 ==> buffer[k] == buffer[ph.handler.size..][k - ph.handler.size];
    end := PutBuffer(ph.handler, b, buffer, dst, at);
  }

  method PutBuffer(h: Handler, ghost b: seq<byte>, buffer: array<byte>, dst: array<byte>, at: nat) returns (end: nat)
    requires h.size != 8 && WellTyped(h) && at + 2 * Units(h) <= dst.Length
    requires buffer != dst && buffer.Length == 4 && |b| == h.size && buffer[0..h.size] == b
    requires forall k :: h.size <= k < 4 ==> buffer[k] == 0
    modifies dst
    ensures end == at + 2 * Units(h)
    ensures dst[..end] == old(dst[..at]) + ToRegisters(h, b)
    ensures dst[end..] == old(dst[end..])
  {
    hide Fits;
    assert forall k :: 0 <= k < h.size ==> buffer[k] == b[k];
    dst[at], dst[at + 1] := buffer[1], buffer[0];
    end := at + 2;
    if h.size == 4 {
      dst[at + 2], dst[at + 3] := buffer[3], buffer[2];
      end := end + 2;
    }
  }

  lemma ReadUnfolds(ps: seq<Param>, i: nat, n: nat)
    requires Legal(ps) && WalkSafe(ps, i, n)
    ensures n == 0 ==> ReadWalk(ps, i, n) == (NoErr, [])
    ensures n > 0 && i >= |ps| ==> ReadWalk(ps, i, n) == (NoReg, [])
    ensures n > 0 && i < |ps| ==> ps[i].h.size != 8 && WellTyped(ps[i].h)
    ensures n > 0 && i < |ps| && Units(ps[i].h) > n ==> ReadWalk(ps, i, n) == (Inval, [])
    ensures n > 0 && i < |ps| && Units(ps[i].h) <= n ==>
              && WalkSafe(ps, i + 1, n - Units(ps[i].h))
              && var r := ReadWalk(ps, i + 1, n - Units(ps[i].h));
                 ReadWalk(ps, i, n) == (r.0, ToRegisters(ps[i].h, Encode(ps[i].val, ps[i].h.size)) + r.1)
  {
    hide Fits, Encode, ToRegisters;
  }

  /** `MB_REG_READ`. */
  method ReadHolding(system: System, pucRegBuffer: array<byte>, usAddress: word, usNRegs: word) returns (e: ErrorCode)
    requires system.Valid() && pucRegBuffer.Length >= 2 * usNRegs
    requires WalkSafe(system.Table(), Lookup(system.Table(), (usAddress - 1) % 0x10000), usNRegs)
    modifies system, pucRegBuffer
    ensures system.Valid() && system.Table() == old(system.Table())
    ensures var r := ReadWalk(system.Table(), Lookup(system.Table(), (usAddress - 1) % 0x10000), usNRegs);
            e == r.0 && pucRegBuffer[..] == r.1 + old(pucRegBuffer[|r.1|..])
    ensures exists i, m ::
              && IsFirst(system.Table(), i, (usAddress - 1) % 0x10000)
              && Delivered(system.Table(), i, m, usNRegs, e, old(pucRegBuffer[..]), pucRegBuffer[..])
  {
    hide IsFirst, Delivered, ReadWalk, Legal, WalkSafe, WellTyped, Encode, ToRegisters, Lookup;
    var ph := system.GetByAddress((usAddress - 1) % 0x10000);
    var n, at := usNRegs as int, 0;
    ghost var ps, i := system.Table(), system.currentIndex;
    ghost var all := ReadWalk(ps, i, n);
    FirstIsRead(ps, (usAddress - 1) % 0x10000, n, pucRegBuffer[..]);
    while n > 0
      invariant 0 <= n && at == 2 * (usNRegs - n) && system.currentIndex == i
      invariant system.Table() == ps && WalkSafe(ps, i, n)
      invariant if i < |ps| then ph == system.valuearray[i] else ph == null
      invariant all.0 == ReadWalk(ps, i, n).0 && all.1 == pucRegBuffer[..at] + ReadWalk(ps, i, n).1
      invariant pucRegBuffer[at..] == old(pucRegBuffer[at..])
    {
      ReadUnfolds(ps, i, n);
      if ph == null {
        return NoReg;
      }
      if ph.handler.size == 4 && n < 2 {
        return Inval;
      }
      ghost var regs, units := ToRegisters(ps[i].h, Encode(ps[i].val, ps[i].h.size)), Units(ps[i].h);
      Associates(pucRegBuffer[..at], regs, ReadWalk(ps, i + 1, n - units).1);
      at := PutValue(ph, pucRegBuffer, at);
      n := n - Units(ph.handler);
      ph := system.GetNext();
      i := i + 1;
    }
    ReadUnfolds(ps, i, 0);
    e := NoErr;
  }

  /** The switch on the size in the write loop. */
  method TakeBuffer(h: Handler, r: seq<byte>) returns (buffer: array<byte>)
    requires h.size != 8 && WellTyped(h) && |r| >= 2 * Units(h)
    ensures fresh(buffer) && buffer.Length == 4 && h.size <= 4 && buffer[..h.size] == FromRegisters(h, r)
  {
    hide Fits;
    buffer := new byte[4];
    buffer[1], buffer[0] := r[0], r[1];
    if h.size == 4 {
      buffer[3], buffer[2] := r[2], r[3];
    }
  }

  /** One round of the write loop on the parameter i. */
  method LoadNext(system: System, ghost i: nat, ph: Val, regs: seq<byte>) returns (ok: bool)
    requires system.Valid() && i < |system.valuearray| && ph == system.valuearray[i]
    requires |regs| % 2 == 0 && 2 * Units(ph.handler) <= |regs| && WalkSafe(system.Table(), i, |regs| / 2) && regs != []
    modifies ph
    ensures system.Valid()
    ensures var walk, k := old(WriteWalk(system.Table(), i, regs)), 2 * Units(ph.handler);
            if ok then
              && WalkSafe(system.Table(), i + 1, |regs[k..]| / 2)
              && walk == WriteWalk(system.Table(), i + 1, regs[k..])
            else walk == (Inval, system.Table())
  {
    hide WriteWalk, Legal, WalkSafe, WellTyped, Fits, Decode, InRange, Loaded, FromRegisters;
    ghost var ps := system.Table();
    WriteUnfolds(ps, i, regs);
    var buffer := TakeBuffer(ph.handler, regs);
    ghost var b := FromRegisters(ph.handler, regs);
    ok := ph.Deserialize(buffer[..ph.handler.size]);
    assert system.Table() == ps[i := Loaded(ps[i], b)];
    if !ok {
      LoadedUnchanged(ps[i], b);
      assert system.Table() == ps;
    }
  }

  lemma LoadedUnchanged(p: Param, b: seq<byte>)
    requires !InRange(p.h, Decode(b, p.h.signed))
    ensures Loaded(p, b) == p
  {
  }

  /** `MB_REG_WRITE`. */
  method WriteHolding(system: System, pucRegBuffer: seq<byte>, usAddress: word, usNRegs: word) returns (e: ErrorCode)
    requires system.Valid() && |pucRegBuffer| == 2 * usNRegs
    requires WalkSafe(system.Table(), Lookup(system.Table(), (usAddress - 1) % 0x10000), usNRegs)
    modifies system, system.valuearray
    ensures system.Valid()
    ensures (e, system.Table()) ==
            old(WriteWalk(system.Table(), Lookup(system.Table(), (usAddress - 1) % 0x10000), pucRegBuffer))
    ensures exists i, m, v ::
              && IsFirst(old(system.Table()), i, (usAddress - 1) % 0x10000)
              && Written(old(system.Table()), i, m, pucRegBuffer, e, system.Table(), v)
  {
    hide IsFirst, Written, WriteWalk, Legal, WalkSafe, WellTyped, Fits, Decode, InRange, Loaded, FromRegisters, Lookup;
    ghost var ps := system.Table();
    var ph := system.GetByAddress((usAddress - 1) % 0x10000);
    var n, at := usNRegs as int, 0;
    ghost var i := system.currentIndex;
    ghost var all := WriteWalk(ps, i, pucRegBuffer);
    FirstIsWritten(ps, (usAddress - 1) % 0x10000, pucRegBuffer);
    assert pucRegBuffer[0..] == pucRegBuffer;
    while n > 0
      invariant 0 <= n && at == 2 * (usNRegs - n) && system.currentIndex == i
      invariant system.Valid() && WalkSafe(system.Table(), i, n) && 2 * n == |pucRegBuffer[at..]|
      invariant if i < |ps| then ph == system.valuearray[i] else ph == null
      invariant all == WriteWalk(system.Table(), i, pucRegBuffer[at..])
    {
      ghost var now, regs := system.Table(), pucRegBuffer[at..];
      if ph == null {
        WriteStops(now, i, regs);
        return NoReg;
      }
      if ph.handler.size == 4 && n < 2 {
        WriteStops(now, i, regs);
        return Inval;
      }
      var ok := LoadNext(system, i, ph, pucRegBuffer[at..]);
      if !ok {
        return Inval;
      }
      at, n := at + 2 * Units(ph.handler), n - Units(ph.handler);
      assert regs[2 * Units(ph.handler)..] == pucRegBuffer[at..];
      ph := system.GetNext();
      i := i + 1;
    }
    WriteStops(system.Table(), i, []);
    e := NoErr;
  }
}
