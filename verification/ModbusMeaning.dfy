/**
 What the direct operation does, table cell by table cell, and what the frames are as numbers: the
 functions of the model against statements that use none of them.
 */
module ModbusMeaning {
  import opened Bytes
  import opened Digits
  import opened ModbusData
  import opened ModbusProtocol
  import opened ModbusServe
  import opened ModbusWire

  // The direct operation (sections 6.1 to 6.17 of MODBUS Application Protocol V1.1b).

  /** Cells at .. at + |vs| are vs, and all others as they were. */
  predicate Replaced<T(==)>(s: seq<T>, r: seq<T>, at: int, vs: seq<T>) {
    && |r| == |s| && 0 <= at && at + |vs| <= |s|
    && (forall j :: 0 <= j < |vs| ==> r[at + j] == vs[j])
    && (forall j :: 0 <= j < |s| && (j < at || at + |vs| <= j) ==> r[j] == s[j])
  }

  lemma ReadBitsMeaning(t: Tables, input: bool, addr: word, nb: word)
    ensures var (u, a) := Execute(t, ReadBits(input, addr, nb));
            var (start, tab) := if input then (t.startInputBits, t.inputBits) else (t.startBits, t.bits);
            && u == t
            && (a == Exception(3) <==> nb == 0 || nb > 2000)
            && (a == Exception(2) <==> 1 <= nb <= 2000 && (addr < start || addr + nb > start + |tab|))
            && (a != Exception(2) && a != Exception(3) ==> a.Bits? && |a.bits| == nb && forall j :: 0 <= j < nb ==> a.bits[j] == tab[addr - start + j])
  {
  }

  lemma ReadRegistersMeaning(t: Tables, input: bool, addr: word, nb: word)
    ensures var (u, a) := Execute(t, ReadRegisters(input, addr, nb));
            var (start, tab) := if input then (t.startInputRegisters, t.inputRegisters) else (t.startRegisters, t.registers);
            && u == t
            && (a == Exception(3) <==> nb == 0 || nb > 125)
            && (a == Exception(2) <==> 1 <= nb <= 125 && (addr < start || addr + nb > start + |tab|))
            && (a != Exception(2) && a != Exception(3) ==> a.Values? && |a.values| == nb && forall j :: 0 <= j < nb ==> a.values[j] == tab[addr - start + j])
  {
  }

  lemma WriteBitMeaning(t: Tables, addr: word, on: bool)
    ensures var (u, a) := Execute(t, WriteBit(addr, on));
            && (a == Exception(2) <==> addr < t.startBits || addr >= t.startBits + |t.bits|)
            && (a != Exception(2) ==> a == Done && Replaced(t.bits, u.bits, addr - t.startBits, [on]) && u == t.(bits := u.bits))
  {
  }

  lemma WriteRegisterMeaning(t: Tables, addr: word, value: word)
    ensures var (u, a) := Execute(t, WriteRegister(addr, value));
            && (a == Exception(2) <==> addr < t.startRegisters || addr >= t.startRegisters + |t.registers|)
            && (a != Exception(2) ==>
                && a == Done && Replaced(t.registers, u.registers, addr - t.startRegisters, [value])
                && u == t.(registers := u.registers))
  {
  }

  lemma WriteBitsMeaning(t: Tables, addr: word, bits: seq<bool>)
    ensures var (u, a) := Execute(t, WriteBits(addr, bits));
            && (a == Exception(3) <==> |bits| == 0 || |bits| > 1968)
            && (a == Exception(2) <==> 1 <= |bits| <= 1968 && (addr < t.startBits || addr + |bits| > t.startBits + |t.bits|))
            && (a != Exception(2) && a != Exception(3) ==> a == Done && Replaced(t.bits, u.bits, addr - t.startBits, bits) && u == t.(bits := u.bits))
  {
  }

  lemma WriteRegistersMeaning(t: Tables, addr: word, values: seq<word>)
    ensures var (u, a) := Execute(t, WriteRegisters(addr, values));
            && (a == Exception(3) <==> |values| == 0 || |values| > 123)
            && (a == Exception(2) <==>
                1 <= |values| <= 123 && (addr < t.startRegisters || addr + |values| > t.startRegisters + |t.registers|))
            && (a != Exception(2) && a != Exception(3) ==>
                && a == Done && Replaced(t.registers, u.registers, addr - t.startRegisters, values)
                && u == t.(registers := u.registers))
  {
  }

  /** Bit by bit: the old bit where the AND mask has a one, the OR mask's bit where it has a zero. */
  lemma MaskWriteMeaning(t: Tables, addr: word, andMask: word, orMask: word)
    ensures var (u, a) := Execute(t, Request.MaskWrite(addr, andMask, orMask));
            var i := addr - t.startRegisters;
            && (a == Exception(2) <==> addr < t.startRegisters || addr >= t.startRegisters + |t.registers|)
            && (a != Exception(2) ==>
                && a == Done && |u.registers| == |t.registers| && u == t.(registers := u.registers)
                && (forall j :: 0 <= j < |t.registers| && j != i ==> u.registers[j] == t.registers[j])
                && (forall k :: 0 <= k < 16 ==>
                      (Digit(u.registers[i], k) <==> if Digit(andMask, k) then Digit(t.registers[i], k) else Digit(orMask, k))))
  {
    hide Masked, Digit;
    var i := addr - t.startRegisters;
    if 0 <= i < |t.registers| {
      forall k | 0 <= k < 16
        ensures Digit(Masked(t.registers[i], andMask, orMask), k) <==>
                if Digit(andMask, k) then Digit(t.registers[i], k) else Digit(orMask, k)
      {
        MaskedDigits(t.registers[i], andMask, orMask, k);
      }
    }
  }

  /** The write is done before the read. */
  lemma WriteReadMeaning(t: Tables, writeAddr: word, values: seq<word>, addr: word, nb: word)
    ensures var (u, a) := Execute(t, WriteRead(writeAddr, values, addr, nb));
            var badCount := |values| == 0 || |values| > 121 || nb == 0 || nb > 125;
            var badAddress := addr < t.startRegisters || addr + nb > t.startRegisters + |t.registers|
                              || writeAddr < t.startRegisters || writeAddr + |values| > t.startRegisters + |t.registers|;
            && (a == Exception(3) <==> badCount)
            && (a == Exception(2) <==> !badCount && badAddress)
            && (a != Exception(2) && a != Exception(3) ==>
                && Replaced(t.registers, u.registers, writeAddr - t.startRegisters, values) && u == t.(registers := u.registers)
                && a.Values? && |a.values| == nb
                && forall j :: 0 <= j < nb ==> a.values[j] == u.registers[addr - t.startRegisters + j])
  {
  }

  // Frames as numbers.

  function Numbers(q: seq<byte>): (n: seq<nat>)
    ensures |n| == |q|
  {
    seq(|q|, i requires 0 <= i < |q| => Value(q[i]))
  }

  lemma BasisNumbers(slave: byte, fc: byte, x: word, y: word)
    ensures Numbers(Basis(slave, fc, x, y)) == [Value(slave), Value(fc), x / 256, x % 256, y / 256, y % 256]
  {
    hide Hi, Lo, Value;
    WordValue(x);
    WordValue(y);
  }

  lemma FunctionNumbers(r: Request)
    ensures Value(FunctionCode(r)) ==
            match r
            case ReadBits(input, _, _) => if input then 2 else 1
            case ReadRegisters(input, _, _) => if input then 4 else 3
            case WriteBit(_, _) => 5
            case WriteRegister(_, _) => 6
            case WriteBits(_, _) => 15
            case WriteRegisters(_, _) => 16
            case MaskWrite(_, _, _) => 22
            case WriteRead(_, _, _, _) => 23
  {
  }

  /** Requests of fixed length: slave, function code, and words with the high byte first. */
  lemma ShortRequest(slave: byte, r: Request)
    requires Sendable(r) && !r.WriteBits? && !r.WriteRegisters? && !r.WriteRead?
    ensures Numbers(EncodeRequest(slave, r)) ==
            match r
            case ReadBits(input, addr, nb) => [Value(slave), if input then 2 else 1, addr / 256, addr % 256, nb / 256, nb % 256]
            case ReadRegisters(input, addr, nb) => [Value(slave), if input then 4 else 3, addr / 256, addr % 256, nb / 256, nb % 256]
            case WriteBit(addr, on) => [Value(slave), 5, addr / 256, addr % 256, if on then 255 else 0, 0]
            case WriteRegister(addr, value) => [Value(slave), 6, addr / 256, addr % 256, value / 256, value % 256]
            case MaskWrite(addr, a, o) => [Value(slave), 22, addr / 256, addr % 256, a / 256, a % 256, o / 256, o % 256]
  {
    hide Hi, Lo, Value, FunctionCode, Basis;
    FunctionNumbers(r);
    var fc := FunctionCode(r);
    match r
    case ReadBits(_, addr, nb) => BasisNumbers(slave, fc, addr, nb);
    case ReadRegisters(_, addr, nb) => BasisNumbers(slave, fc, addr, nb);
    case WriteBit(addr, on) => BasisNumbers(slave, fc, addr, if on then COIL_ON else 0);
    case WriteRegister(addr, value) => BasisNumbers(slave, fc, addr, value);
    case MaskWrite(addr, a, o) =>
      BasisNumbers(slave, fc, addr, a);
      WordValue(o);
      NumbersConcat(Basis(slave, fc, addr, a), [Hi(o), Lo(o)]);
      assert Numbers([Hi(o), Lo(o)]) == [o / 256, o % 256];
  }

  lemma NumbersConcat(a: seq<byte>, b: seq<byte>)
    ensures Numbers(a + b) == Numbers(a) + Numbers(b)
  {
    hide Value;
  }

  lemma WriteBitsRequest(slave: byte, r: Request)
    requires Sendable(r) && r.WriteBits?
    ensures var q, n := EncodeRequest(slave, r), |r.bits|;
            && |q| == 7 + (n + 7) / 8
            && Numbers(q[..7]) == [Value(slave), 15, r.addr / 256, r.addr % 256, n / 256, n % 256, (n + 7) / 8]
            && forall i :: 0 <= i < n ==> (Digit(Value(q[7 + i / 8]), i % 8) <==> r.bits[i])
  {
    var q, n := EncodeRequest(slave, r), |r.bits|;
    HeadNumbers(slave, 15, r.addr, n, ByteCount(n));
    assert q[..7] == Basis(slave, 15, r.addr, n) + [B(ByteCount(n))];
    hide Basis, B, Value, Digit, Pack;
    forall i | 0 <= i < n ensures Digit(Value(q[7 + i / 8]), i % 8) <==> r.bits[i] {
      assert q[7 + i / 8] == Pack(r.bits)[i / 8];
      PackedDigits(r.bits, i / 8, i % 8);
    }
  }

  lemma HeadNumbers(slave: byte, fc: byte, x: word, y: word, count: nat)
    requires count < 256
    ensures Numbers(Basis(slave, fc, x, y) + [B(count)]) ==
            [Value(slave), Value(fc), x / 256, x % 256, y / 256, y % 256, count]
  {
    hide B, Value, Basis;
    BasisNumbers(slave, fc, x, y);
    ValueOfByte(count);
    NumbersConcat(Basis(slave, fc, x, y), [B(count)]);
  }

  lemma WriteRegistersRequest(slave: byte, r: Request)
    requires Sendable(r) && r.WriteRegisters?
    ensures var q, n := EncodeRequest(slave, r), |r.values|;
            && |q| == 7 + 2 * n
            && Numbers(q[..7]) == [Value(slave), 16, r.addr / 256, r.addr % 256, n / 256, n % 256, 2 * n]
            && forall i :: 0 <= i < n ==> 256 * Value(q[7 + 2 * i]) + Value(q[8 + 2 * i]) == r.values[i]
  {
    var q, n := EncodeRequest(slave, r), |r.values|;
    HeadNumbers(slave, 16, r.addr, n, 2 * n);
    assert q[..7] == Basis(slave, 16, r.addr, n) + [B(2 * n)];
    hide Basis, B, Value, RegisterBytes;
    forall i | 0 <= i < n ensures 256 * Value(q[7 + 2 * i]) + Value(q[8 + 2 * i]) == r.values[i] {
      assert q[7 + 2 * i] == RegisterBytes(r.values)[2 * i] && q[8 + 2 * i] == RegisterBytes(r.values)[2 * i + 1];
      RegistersAsNumbers(r.values, i);
    }
  }

  lemma TailNumbers(x: word, y: word, count: nat)
    requires count < 256
    ensures Numbers([Hi(x), Lo(x), Hi(y), Lo(y), B(count)]) == [x / 256, x % 256, y / 256, y % 256, count]
  {
    hide Hi, Lo, B, Value;
    WordValue(x);
    WordValue(y);
    ValueOfByte(count);
  }

  lemma WriteReadRequest(slave: byte, r: Request)
    requires Sendable(r) && r.WriteRead?
    ensures var q, n := EncodeRequest(slave, r), |r.values|;
            && |q| == 11 + 2 * n
            && Numbers(q[..11]) == [Value(slave), 23, r.addr / 256, r.addr % 256, r.nb / 256, r.nb % 256,
                                    r.writeAddr / 256, r.writeAddr % 256, n / 256, n % 256, 2 * n]
            && forall i :: 0 <= i < n ==> 256 * Value(q[11 + 2 * i]) + Value(q[12 + 2 * i]) == r.values[i]
  {
    hide Basis, B, Hi, Lo, Value, RegisterBytes;
    var q, n := EncodeRequest(slave, r), |r.values|;
    assert Value(0x17) == 23 by { FunctionNumbers(r); }
    BasisNumbers(slave, 0x17, r.addr, r.nb);
    TailNumbers(r.writeAddr, n, 2 * n);
    var head, tail := Basis(slave, 0x17, r.addr, r.nb), [Hi(r.writeAddr), Lo(r.writeAddr), Hi(n), Lo(n), B(2 * n)];
    assert |head| == 6 by { BasisLength(slave, 0x17, r.addr, r.nb); }
    NumbersConcat(head, tail);
    assert q == (head + tail) + RegisterBytes(r.values);
    assert q[..11] == head + tail;
    forall i | 0 <= i < n ensures 256 * Value(q[11 + 2 * i]) + Value(q[12 + 2 * i]) == r.values[i] {
      assert q[11 + 2 * i] == RegisterBytes(r.values)[2 * i] && q[12 + 2 * i] == RegisterBytes(r.values)[2 * i + 1];
      RegistersAsNumbers(r.values, i);
    }
  }

  lemma BasisLength(slave: byte, fc: byte, x: word, y: word)
    ensures |Basis(slave, fc, x, y)| == 6
  {
  }

  /** An exception repeats the function code with its highest bit set. */
  lemma ExceptionAnswer(slave: byte, r: Request, code: nat)
    requires Sendable(r) && code < 256
    ensures Numbers(EncodeAnswer(slave, r, Exception(code))) == [Value(slave), Value(FunctionCode(r)) + 128, code]
  {
    FunctionNumbers(r);
    ValueOfByte(code);
    ValueOfByte((FunctionCode(r) as int) + 128);
    hide B, FunctionCode;
  }

  lemma BitsAnswer(slave: byte, r: Request, bits: seq<bool>)
    requires Sendable(r) && Matches(r, Bits(bits))
    ensures var p, n := EncodeAnswer(slave, r, Bits(bits)), |bits|;
            && |p| == 3 + (n + 7) / 8
            && Numbers(p[..3]) == [Value(slave), Value(FunctionCode(r)), (n + 7) / 8]
            && forall i :: 0 <= i < n ==> (Digit(Value(p[3 + i / 8]), i % 8) <==> bits[i])
  {
    var p, n := EncodeAnswer(slave, r, Bits(bits)), |bits|;
    ValueOfByte(ByteCount(n));
    hide B, Value, Digit, Pack, FunctionCode;
    forall i | 0 <= i < n ensures Digit(Value(p[3 + i / 8]), i % 8) <==> bits[i] {
      assert p[3 + i / 8] == Pack(bits)[i / 8];
      PackedDigits(bits, i / 8, i % 8);
    }
  }

  lemma ValuesAnswer(slave: byte, r: Request, vs: seq<word>)
    requires Sendable(r) && Matches(r, Values(vs))
    ensures var p, n := EncodeAnswer(slave, r, Values(vs)), |vs|;
            && |p| == 3 + 2 * n
            && Numbers(p[..3]) == [Value(slave), Value(FunctionCode(r)), 2 * n]
            && forall i :: 0 <= i < n ==> 256 * Value(p[3 + 2 * i]) + Value(p[4 + 2 * i]) == vs[i]
  {
    var p, n := EncodeAnswer(slave, r, Values(vs)), |vs|;
    ValueOfByte(2 * n);
    hide B, Value, RegisterBytes, FunctionCode;
    forall i | 0 <= i < n ensures 256 * Value(p[3 + 2 * i]) + Value(p[4 + 2 * i]) == vs[i] {
      assert p[3 + 2 * i] == RegisterBytes(vs)[2 * i] && p[4 + 2 * i] == RegisterBytes(vs)[2 * i + 1];
      RegistersAsNumbers(vs, i);
    }
  }

  /** A write is answered with its own bytes, or their first six where it carries data. */
  lemma DoneAnswer(slave: byte, r: Request)
    requires Sendable(r) && Matches(r, Done)
    ensures var p, q := EncodeAnswer(slave, r, Done), EncodeRequest(slave, r);
            p == if r.WriteBits? || r.WriteRegisters? then q[..6] else q
  {
  }

  // What the server makes of requests the client does not send: any complete body.

  /** The word at position i of a body. */
  function NumberAt(q: seq<byte>, i: nat): nat
    requires i + 1 < |q|
  {
    256 * Value(q[i]) + Value(q[i + 1])
  }

  lemma WordIsNumber(q: seq<byte>, i: nat)
    requires i + 1 < |q|
    ensures At(q, i) == NumberAt(q, i)
  {
  }

  /** No table is changed, and the reply is the exception with that code. */
  predicate RefusedWith(s: Served, t: Tables, q: seq<byte>, code: nat)
    requires |q| >= 2
  {
    s.Reply? && s.tables == t && Numbers(s.body) == [Value(q[0]), (Value(q[1]) + 128) % 256, code]
  }

  lemma RefuseIsRefused(t: Tables, q: seq<byte>, code: nat)
    requires |q| >= 2 && code < 256
    ensures RefusedWith(Refuse(t, q, code), t, q, code)
  {
    ValueOfByte(code);
    ValueOfByte(((q[1] as int) + 128) % 256);
    hide B;
  }

  predicate Outside(start: nat, size: nat, addr: nat, nb: nat) { addr < start || addr + nb > start + size }

  lemma ReadsRefused(t: Tables, version: seq<byte>, q: seq<byte>)
    requires Complete(q, Indication) && |version| <= 100 && 1 <= Value(q[1]) <= 4
    ensures |q| == 6
    ensures var s, fc, addr, nb := Serve(t, version, q), Value(q[1]), NumberAt(q, 2), NumberAt(q, 4);
            var limit := if fc <= 2 then 2000 else 125;
            var (start, size) := if fc == 1 then (t.startBits, |t.bits|) else if fc == 2 then (t.startInputBits, |t.inputBits|)
                                 else if fc == 3 then (t.startRegisters, |t.registers|)
                                 else (t.startInputRegisters, |t.inputRegisters|);
            && (nb == 0 || nb > limit ==> RefusedWith(s, t, q, 3))
            && (1 <= nb <= limit && Outside(start, size, addr, nb) ==> RefusedWith(s, t, q, 2))
  {
    hide Value, B, Pack, RegisterBytes, Word, ExceptionCode, RefusedWith, Refusal;
    FunctionCodeBytes(q[1]);
    WordIsNumber(q, 2);
    WordIsNumber(q, 4);
    RefuseIsRefused(t, q, 2);
    RefuseIsRefused(t, q, 3);
  }

  /** The function codes as bytes and as numbers. */
  lemma FunctionCodeBytes(b: byte)
    ensures Value(b) == b as int
    ensures b == 1 <==> Value(b) == 1
    ensures b == 2 <==> Value(b) == 2
    ensures b == 3 <==> Value(b) == 3
    ensures b == 4 <==> Value(b) == 4
    ensures b == 5 <==> Value(b) == 5
    ensures b == 6 <==> Value(b) == 6
    ensures b == 7 <==> Value(b) == 7
    ensures b == 15 <==> Value(b) == 15
    ensures b == 16 <==> Value(b) == 16
    ensures b == 17 <==> Value(b) == 17
    ensures b == 22 <==> Value(b) == 22
    ensures b == 23 <==> Value(b) == 23
  {
  }

  /** One coil takes 0xFF00 and 0, and no other value; the address is tested first. */
  lemma WriteBitServed(t: Tables, version: seq<byte>, q: seq<byte>)
    requires Complete(q, Indication) && |version| <= 100 && Value(q[1]) == 5
    ensures |q| == 6
    ensures var s, addr, data := Serve(t, version, q), NumberAt(q, 2), NumberAt(q, 4);
            if Outside(t.startBits, |t.bits|, addr, 1) then RefusedWith(s, t, q, 2)
            else if data != 65280 && data != 0 then RefusedWith(s, t, q, 3)
            else s == Reply(t.(bits := t.bits[addr - t.startBits := data == 65280]), q)
  {
    hide Value, B, Word, RefusedWith, Refuse;
    FunctionCodeBytes(q[1]);
    WordIsNumber(q, 2);
    WordIsNumber(q, 4);
    RefuseIsRefused(t, q, 2);
    RefuseIsRefused(t, q, 3);
  }

  lemma WriteRegisterServed(t: Tables, version: seq<byte>, q: seq<byte>)
    requires Complete(q, Indication) && |version| <= 100 && Value(q[1]) == 6
    ensures |q| == 6
    ensures var s, addr, data := Serve(t, version, q), NumberAt(q, 2), NumberAt(q, 4);
            if Outside(t.startRegisters, |t.registers|, addr, 1) then RefusedWith(s, t, q, 2)
            else data < 0x1_0000 && s == Reply(t.(registers := t.registers[addr - t.startRegisters := data]), q)
  {
    hide Value, B, Word, RefusedWith, Refuse;
    FunctionCodeBytes(q[1]);
    WordIsNumber(q, 2);
    WordIsNumber(q, 4);
    RefuseIsRefused(t, q, 2);
  }

  /** The bits that packed bytes from a position on hold, as binary digits. */
  function DigitsFrom(q: seq<byte>, from: nat, nb: nat): (bits: seq<bool>)
    requires |q| >= from && 8 * (|q| - from) >= nb
    ensures |bits| == nb
  {
    seq(nb, i requires 0 <= i < nb => Digit(Value(q[from + i / 8]), i % 8))
  }

  lemma UnpackIsDigits(q: seq<byte>, from: nat, nb: nat)
    requires |q| >= from && 8 * (|q| - from) >= nb
    ensures Unpack(q[from..], nb) == DigitsFrom(q, from, nb)
  {
    hide Unpack, Digit, Value;
    forall i | 0 <= i < nb ensures Unpack(q[from..], nb)[i] <==> Digit(Value(q[from + i / 8]), i % 8) {
      UnpackedDigits(q[from..], nb, i);
    }
  }

  lemma SplicedIsReplaced<T>(s: seq<T>, at: nat, vs: seq<T>)
    requires at + |vs| <= |s|
    ensures Replaced(s, Spliced(s, at, vs), at, vs)
  {
  }

  /** Several coils: the count has its limits, and the bytes must hold them; only their digits are used. */
  lemma WriteBitsServed(t: Tables, version: seq<byte>, q: seq<byte>)
    requires Complete(q, Indication) && |version| <= 100 && Value(q[1]) == 15
    ensures |q| >= 7 && |q| == 7 + Value(q[6])
    ensures var s, addr, nb := Serve(t, version, q), NumberAt(q, 2), NumberAt(q, 4);
            if nb == 0 || nb > 1968 || 8 * Value(q[6]) < nb then RefusedWith(s, t, q, 3)
            else if Outside(t.startBits, |t.bits|, addr, nb) then RefusedWith(s, t, q, 2)
            else
              && s.Reply? && s.body == q[..6] && s.tables == t.(bits := s.tables.bits)
              && Replaced(t.bits, s.tables.bits, addr - t.startBits, DigitsFrom(q, 7, nb))
  {
    hide Value, NumberAt, B, Word, At, RefusedWith, Refuse, Unpack, DigitsFrom, Replaced, Spliced;
    FunctionCodeBytes(q[1]);
    assert |q| >= 7 && |q| == 7 + q[6] as int;
    FunctionCodeBytes(q[6]);
    WordIsNumber(q, 2);
    WordIsNumber(q, 4);
    RefuseIsRefused(t, q, 2);
    RefuseIsRefused(t, q, 3);
    var at, nb := NumberAt(q, 2) - t.startBits, NumberAt(q, 4);
    if 8 * Value(q[6]) >= nb && 0 <= at && at + nb <= |t.bits| {
      UnpackIsDigits(q, 7, nb);
      SplicedIsReplaced(t.bits, at, DigitsFrom(q, 7, nb));
    }
  }

  /** The registers at .. at + nb are the words of q from a position on, and all others as they were. */
  predicate TakenFrom(s: seq<word>, r: seq<word>, at: int, nb: nat, q: seq<byte>, from: nat) {
    && |r| == |s| && 0 <= at && at + nb <= |s| && |q| == from + 2 * nb
    && (forall i :: 0 <= i < nb ==> r[at + i] == NumberAt(q, from + 2 * i))
    && (forall j :: 0 <= j < |s| && (j < at || at + nb <= j) ==> r[j] == s[j])
  }

  lemma RegistersAreNumbers(q: seq<byte>, from: nat)
    requires from <= |q|
    ensures forall i :: 0 <= i < (|q| - from) / 2 ==> Registers(q[from..])[i] == NumberAt(q, from + 2 * i)
  {
    hide Word, NumberAt;
    forall i | 0 <= i < (|q| - from) / 2 ensures Registers(q[from..])[i] == NumberAt(q, from + 2 * i) {
      WordIsNumber(q, from + 2 * i);
    }
  }

  lemma SplicedIsTaken(s: seq<word>, at: nat, nb: nat, q: seq<byte>, from: nat)
    requires at + nb <= |s| && |q| == from + 2 * nb
    ensures TakenFrom(s, Spliced(s, at, Registers(q[from..])), at, nb, q, from)
  {
    hide Registers, NumberAt;
    RegistersAreNumbers(q, from);
  }

  lemma WriteRegistersServed(t: Tables, version: seq<byte>, q: seq<byte>)
    requires Complete(q, Indication) && |version| <= 100 && Value(q[1]) == 16
    ensures |q| >= 7
    ensures var s, addr, nb := Serve(t, version, q), NumberAt(q, 2), NumberAt(q, 4);
            if nb == 0 || nb > 123 || Value(q[6]) != 2 * nb then RefusedWith(s, t, q, 3)
            else if Outside(t.startRegisters, |t.registers|, addr, nb) then RefusedWith(s, t, q, 2)
            else
              && s.Reply? && s.body == q[..6] && s.tables == t.(registers := s.tables.registers)
              && TakenFrom(t.registers, s.tables.registers, addr - t.startRegisters, nb, q, 7)
  {
    hide Value, NumberAt, B, Word, At, RefusedWith, Refuse, Registers, TakenFrom, Spliced;
    FunctionCodeBytes(q[1]);
    assert |q| >= 7 && |q| == 7 + q[6] as int;
    FunctionCodeBytes(q[6]);
    WordIsNumber(q, 2);
    WordIsNumber(q, 4);
    RefuseIsRefused(t, q, 2);
    RefuseIsRefused(t, q, 3);
    var at, nb := NumberAt(q, 2) - t.startRegisters, NumberAt(q, 4);
    if 0 <= at && at + nb <= |t.registers| && |q| == 7 + 2 * nb {
      SplicedIsTaken(t.registers, at, nb, q, 7);
    }
  }

  lemma MaskWriteServed(t: Tables, version: seq<byte>, q: seq<byte>)
    requires Complete(q, Indication) && |version| <= 100 && Value(q[1]) == 22
    ensures |q| == 8
    ensures var s, addr, a, o := Serve(t, version, q), NumberAt(q, 2), NumberAt(q, 4), NumberAt(q, 6);
            var i := addr - t.startRegisters;
            if Outside(t.startRegisters, |t.registers|, addr, 1) then RefusedWith(s, t, q, 2)
            else
              && s.Reply? && s.body == q && s.tables == t.(registers := s.tables.registers)
              && |s.tables.registers| == |t.registers|
              && (forall j :: 0 <= j < |t.registers| && j != i ==> s.tables.registers[j] == t.registers[j])
              && (forall k :: 0 <= k < 16 ==>
                    (Digit(s.tables.registers[i], k) <==> if Digit(a, k) then Digit(t.registers[i], k) else Digit(o, k)))
  {
    hide Value, NumberAt, B, Word, At, RefusedWith, Refuse, Masked, Digit;
    FunctionCodeBytes(q[1]);
    WordIsNumber(q, 2);
    WordIsNumber(q, 4);
    WordIsNumber(q, 6);
    RefuseIsRefused(t, q, 2);
    var i, a, o := NumberAt(q, 2) - t.startRegisters, NumberAt(q, 4), NumberAt(q, 6);
    if 0 <= i < |t.registers| {
      forall k | 0 <= k < 16
        ensures Digit(Masked(t.registers[i], a, o), k) <==> if Digit(a, k) then Digit(t.registers[i], k) else Digit(o, k)
      {
        MaskedDigits(t.registers[i], a, o, k);
      }
    }
  }

  /** The written registers are in the table before any is read; a write below the table is not refused. */
  lemma WriteReadServed(t: Tables, version: seq<byte>, q: seq<byte>)
    requires Complete(q, Indication) && |version| <= 100 && Value(q[1]) == 23
    ensures |q| >= 11
    ensures var s, addr, nb, writeAddr, writeNb := Serve(t, version, q), NumberAt(q, 2), NumberAt(q, 4), NumberAt(q, 6), NumberAt(q, 8);
            var end := t.startRegisters + |t.registers|;
            if writeNb == 0 || writeNb > 121 || nb == 0 || nb > 125 || Value(q[10]) != 2 * writeNb then RefusedWith(s, t, q, 3)
            else if addr < t.startRegisters || addr + nb > end || writeAddr + writeNb > end then RefusedWith(s, t, q, 2)
            else if writeAddr < t.startRegisters then s == Fault
            else
              && s.Reply? && s.tables == t.(registers := s.tables.registers)
              && TakenFrom(t.registers, s.tables.registers, writeAddr - t.startRegisters, writeNb, q, 11)
              && |s.body| == 3 + 2 * nb && Numbers(s.body[..3]) == [Value(q[0]), 23, 2 * nb]
              && forall i :: 0 <= i < nb ==> NumberAt(s.body, 3 + 2 * i) == s.tables.registers[addr - t.startRegisters + i]
  {
    hide Value, NumberAt, B, Word, At, RefusedWith, Refuse, Registers, TakenFrom, Spliced, RegisterBytes;
    FunctionCodeBytes(q[1]);
    assert |q| >= 11 && |q| == 11 + q[10] as int;
    FunctionCodeBytes(q[10]);
    WordIsNumber(q, 2);
    WordIsNumber(q, 4);
    WordIsNumber(q, 6);
    WordIsNumber(q, 8);
    RefuseIsRefused(t, q, 2);
    RefuseIsRefused(t, q, 3);
    var m, nb, at, writeNb := NumberAt(q, 2) - t.startRegisters, NumberAt(q, 4), NumberAt(q, 6) - t.startRegisters, NumberAt(q, 8);
    if 0 <= at && at + writeNb <= |t.registers| && |q| == 11 + 2 * writeNb && 0 <= m && m + nb <= |t.registers| && nb <= 125 {
      SplicedIsTaken(t.registers, at, writeNb, q, 11);
      RegistersBody(q[0], q[1], Spliced(t.registers, at, Registers(q[11..])), m, nb);
    }
  }

  /** A reply with registers m .. m + nb of a table. */
  lemma RegistersBody(slave: byte, fc: byte, tab: seq<word>, m: nat, nb: nat)
    requires m + nb <= |tab| && nb < 128
    ensures var body := [slave, fc, B(2 * nb)] + RegisterBytes(tab[m..m + nb]);
            && |body| == 3 + 2 * nb && Numbers(body[..3]) == [Value(slave), Value(fc), 2 * nb]
            && forall i :: 0 <= i < nb ==> NumberAt(body, 3 + 2 * i) == tab[m + i]
  {
    ValueOfByte(2 * nb);
    hide B, Value, RegisterBytes;
    var vs := tab[m..m + nb];
    var body := [slave, fc, B(2 * nb)] + RegisterBytes(vs);
    forall i | 0 <= i < nb ensures NumberAt(body, 3 + 2 * i) == tab[m + i] {
      assert body[3 + 2 * i] == RegisterBytes(vs)[2 * i] && body[4 + 2 * i] == RegisterBytes(vs)[2 * i + 1];
      RegistersAsNumbers(vs, i);
    }
  }

  /** The identification: its length, 180, running, the letters L, M and B, and the version. */
  predicate IdBody(body: seq<byte>, slave: byte, version: seq<byte>) {
    && |body| == 8 + |version| && body[8..] == version
    && Numbers(body[..8]) == [Value(slave), 17, 5 + |version|, 180, 255, 76, 77, 66]
  }

  lemma IdBodySent(slave: byte, version: seq<byte>)
    requires |version| <= 100
    ensures IdBody([slave, 0x11, B(5 + |version|)] + [180, 0xFF, 0x4C, 0x4D, 0x42] + version, slave, version)
  {
    hide B, Value, Numbers;
    var head := [slave, 0x11, B(5 + |version|)] + [180, 0xFF, 0x4C, 0x4D, 0x42];
    IdHead(slave, |version|);
    assert |head| == 8 && (head + version)[..8] == head && (head + version)[8..] == version;
  }

  lemma IdHead(slave: byte, n: nat)
    requires n <= 100
    ensures Numbers([slave, 0x11, B(5 + n)] + [180, 0xFF, 0x4C, 0x4D, 0x42]) == [Value(slave), 17, 5 + n, 180, 255, 76, 77, 66]
  {
    hide B, Value, Numbers;
    ValueOfByte(5 + n);
    IdBytes();
    NumbersOfHead(slave, 0x11, B(5 + n));
    NumbersConcat([slave, 0x11, B(5 + n)], [180, 0xFF, 0x4C, 0x4D, 0x42]);
  }

  lemma NumbersOfHead(a: byte, b: byte, c: byte)
    ensures Numbers([a, b, c]) == [Value(a), Value(b), Value(c)]
  {
    hide Value;
  }

  lemma IdBytes()
    ensures Value(0x11) == 17
    ensures Numbers([180, 0xFF, 0x4C, 0x4D, 0x42]) == [180, 255, 76, 77, 66]
  {
  }

  /** Function codes the server does not know are refused; one is passed over in silence. */
  lemma OtherServed(t: Tables, version: seq<byte>, q: seq<byte>)
    requires Complete(q, Indication) && |version| <= 100
    ensures var s, fc := Serve(t, version, q), Value(q[1]);
            && (fc == 7 ==> s == Silent)
            && (fc == 17 ==> s.Reply? && s.tables == t && IdBody(s.body, q[0], version))
            && (!(1 <= fc <= 7) && !(15 <= fc <= 17) && fc != 22 && fc != 23 ==> RefusedWith(s, t, q, 1))
  {
    hide Value, B, RefusedWith, Refuse, IdBody;
    hide ServeReadBits, ServeReadRegisters, ServeWriteBit, ServeWriteRegister, ServeWriteBits, ServeWriteRegisters;
    hide ServeMaskWrite, ServeWriteRead;
    FunctionCodeBytes(q[1]);
    RefuseIsRefused(t, q, 1);
    if q[1] == 0x11 {
      IdBodySent(q[0], version);
      var id: seq<byte> := [180, 0xFF, 0x4C, 0x4D, 0x42];
      assert [q[0], q[1], B(5 + |version|)] + (id + version) == [q[0], q[1], B(5 + |version|)] + id + version;
    }
  }

  // What the client makes of a reply, any bytes with their CRC.

  /** A reply of n bytes is of the length the request calls for, and counts what was asked. */
  predicate Fitting(fc: nat, nb: nat, n: nat, count: nat, repeated: nat) {
    if fc == 1 || fc == 2 then n == 5 + (nb + 7) / 8 && count == (nb + 7) / 8
    else if fc == 3 || fc == 4 || fc == 23 then n == 5 + 2 * nb && count / 2 == nb
    else if fc == 15 || fc == 16 then n == 8 && repeated == nb
    else if fc == 22 then n == 10
    else if fc == 7 then n == 6
    else fc == 17 || n == 8
  }

  /** Another slave: 273. An exception: 256 and its code. A malformed one: 270. Anything else: 269. */
  function ErrorNumber(n: nat, q0: nat, qfc: nat, p0: nat, pfc: nat, p2: nat): int {
    if p0 != q0 && q0 != 0 then 273
    else if pfc < 128 then 269
    else if n == 5 && pfc == qfc + 128 && p2 < 12 then 256 + p2
    else 270
  }

  lemma EighthsRoundedUp(nb: nat)
    ensures nb / 8 + (if nb % 8 != 0 then 1 else 0) == (nb + 7) / 8
  {
  }

  lemma VerdictIff(n: nat, q0: nat, qfc: nat, nb: nat, p0: nat, pfc: nat, p2: nat, repeated: nat)
    ensures var (rc, error) := Verdict(n, q0, qfc, nb, p0, pfc, p2, repeated);
            && (rc >= 0 <==> (p0 == q0 || q0 == 0) && pfc == qfc < 128 && Fitting(qfc, nb, n, p2, repeated))
            && (rc < 0 ==> rc == -1 && error == ErrorNumber(n, q0, qfc, p0, pfc, p2))
  {
    EighthsRoundedUp(nb);
  }

  /** A reply is taken exactly when it is the slave's, repeats the function code, and fits the request. */
  lemma ConfirmIff(q: seq<byte>, p: seq<byte>)
    requires |q| >= 6 && |p| >= 5
    ensures var (rc, error) := Confirm(q, p);
            && (rc >= 0 <==>
                && (Value(p[0]) == Value(q[0]) || Value(q[0]) == 0) && Value(p[1]) == Value(q[1]) < 128
                && Fitting(Value(q[1]), NumberAt(q, 4), |p|, Value(p[2]), if |p| >= 6 then NumberAt(p, 4) else 0))
            && (rc < 0 ==>
                rc == -1 && error == ErrorNumber(|p|, Value(q[0]), Value(q[1]), Value(p[0]), Value(p[1]), Value(p[2])))
  {
    hide Value, At, NumberAt, Verdict, Fitting, ErrorNumber;
    WordIsNumber(q, 4);
    if |p| >= 6 {
      WordIsNumber(p, 4);
    }
    FunctionCodeBytes(q[0]);
    FunctionCodeBytes(q[1]);
    FunctionCodeBytes(p[0]);
    FunctionCodeBytes(p[1]);
    FunctionCodeBytes(p[2]);
    VerdictIff(|p|, Value(q[0]), Value(q[1]), NumberAt(q, 4), Value(p[0]), Value(p[1]), Value(p[2]),
      if |p| >= 6 then NumberAt(p, 4) else 0);
  }
}
