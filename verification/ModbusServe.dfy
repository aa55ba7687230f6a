/** `modbus_reply` as a function from a request body, any bytes of the announced length, to its reply. */
module ModbusServe {
  import opened Bytes
  import opened ModbusData
  import opened ModbusProtocol

  datatype Direction = Indication | Confirmation

  /** `compute_meta_length_after_function`. */
  function MetaLength(fc: int, d: Direction): int {
    if d == Indication then
      if fc <= 0x06 then 4
      else if fc == 0x0F || fc == 0x10 then 5
      else if fc == 0x16 then 6
      else if fc == 0x17 then 9
      else 0
    else
      if fc == 0x05 || fc == 0x06 || fc == 0x0F || fc == 0x10 then 4
      else if fc == 0x16 then 6
      else 1
  }

  /** The byte that announces how much data follows, if there is one. */
  function CountAt(fc: int, d: Direction): int {
    if d == Indication then
      if fc == 0x0F || fc == 0x10 then 6 else if fc == 0x17 then 10 else -1
    else
      if fc <= 0x04 || fc == 0x11 || fc == 0x17 || fc == 0x15 then 2 else -1
  }

  /** A body of exactly the length its own header announces. */
  predicate Complete(q: seq<byte>, d: Direction) {
    && |q| >= 2
    && var fc := q[1] as int;
       |q| == 2 + MetaLength(fc, d) + (if CountAt(fc, d) < 0 then 0 else if CountAt(fc, d) < |q| then q[CountAt(fc, d)] as int else 0)
  }

  function At(q: seq<byte>, i: nat): word
    requires i + 1 < |q|
  {
    Word(q[i], q[i + 1])
  }

  datatype Served =
    | Reply(tables: Tables, body: seq<byte>)
    | Silent                // no reply is sent
    | Fault                 // the source stores outside its table

  function Refusal(q: seq<byte>, code: nat): seq<byte>
    requires |q| >= 2 && code < 256
  {
    [q[0], ExceptionCode(q[1]), B(code)]
  }

  function Refuse(t: Tables, q: seq<byte>, code: nat): Served
    requires |q| >= 2 && code < 256
  {
    Reply(t, Refusal(q, code))
  }

  function BitsReply(start: nat, tab: seq<bool>, q: seq<byte>): seq<byte>
    requires |q| == 6
  {
    var nb, m := At(q, 4), At(q, 2) - start;
    if nb < 1 || MAX_READ_BITS < nb then Refusal(q, ILLEGAL_DATA_VALUE)
    else if m < 0 || m + nb > |tab| then Refusal(q, ILLEGAL_DATA_ADDRESS)
    else [q[0], q[1], B(ByteCount(nb))] + Pack(tab[m..m + nb])
  }

  function ServeReadBits(t: Tables, q: seq<byte>): Served
    requires |q| == 6
  {
    if q[1] == 0x02 then Reply(t, BitsReply(t.startInputBits, t.inputBits, q))
    else Reply(t, BitsReply(t.startBits, t.bits, q))
  }

  function RegistersReply(start: nat, tab: seq<word>, q: seq<byte>): seq<byte>
    requires |q| == 6
  {
    var nb, m := At(q, 4), At(q, 2) - start;
    if nb < 1 || MAX_READ_REGISTERS < nb then Refusal(q, ILLEGAL_DATA_VALUE)
    else if m < 0 || m + nb > |tab| then Refusal(q, ILLEGAL_DATA_ADDRESS)
    else [q[0], q[1], B(2 * nb)] + RegisterBytes(tab[m..m + nb])
  }

  function ServeReadRegisters(t: Tables, q: seq<byte>): Served
    requires |q| == 6
  {
    if q[1] == 0x04 then Reply(t, RegistersReply(t.startInputRegisters, t.inputRegisters, q))
    else Reply(t, RegistersReply(t.startRegisters, t.registers, q))
  }

  function ServeWriteBit(t: Tables, q: seq<byte>): Served
    requires |q| == 6
  {
    var data, m := At(q, 4), At(q, 2) - t.startBits;
    if m < 0 || m >= |t.bits| then Refuse(t, q, ILLEGAL_DATA_ADDRESS)
    else if data == COIL_ON || data == 0 then Reply(t.(bits := t.bits[m := data != 0]), q)
    else Refuse(t, q, ILLEGAL_DATA_VALUE)
  }

  function ServeWriteRegister(t: Tables, q: seq<byte>): Served
    requires |q| == 6
  {
    var data, m := At(q, 4), At(q, 2) - t.startRegisters;
    if m < 0 || m >= |t.registers| then Refuse(t, q, ILLEGAL_DATA_ADDRESS)
    else Reply(t.(registers := t.registers[m := data]), q)
  }

  function ServeWriteBits(t: Tables, q: seq<byte>): Served
    requires |q| >= 7 && |q| == 7 + q[6] as int
  {
    var nb, m := At(q, 4), At(q, 2) - t.startBits;
    if nb < 1 || MAX_WRITE_BITS < nb || q[6] as int * 8 < nb then Refuse(t, q, ILLEGAL_DATA_VALUE)
    else if m < 0 || m + nb > |t.bits| then Refuse(t, q, ILLEGAL_DATA_ADDRESS)
    else Reply(t.(bits := Spliced(t.bits, m, Unpack(q[7..], nb))), q[..6])
  }

  function ServeWriteRegisters(t: Tables, q: seq<byte>): Served
    requires |q| >= 7 && |q| == 7 + q[6] as int
  {
    var nb, m := At(q, 4), At(q, 2) - t.startRegisters;
    if nb < 1 || MAX_WRITE_REGISTERS < nb || q[6] as int != nb * 2 then Refuse(t, q, ILLEGAL_DATA_VALUE)
    else if m < 0 || m + nb > |t.registers| then Refuse(t, q, ILLEGAL_DATA_ADDRESS)
    else Reply(t.(registers := Spliced(t.registers, m, Registers(q[7..]))), q[..6])
  }

  function ServeMaskWrite(t: Tables, q: seq<byte>): Served
    requires |q| == 8
  {
    var m := At(q, 2) - t.startRegisters;
    if m < 0 || m >= |t.registers| then Refuse(t, q, ILLEGAL_DATA_ADDRESS)
    else Reply(t.(registers := t.registers[m := Masked(t.registers[m], At(q, 4), At(q, 6))]), q)
  }

  /** The write address is compared with the end of the table, but not with its start. */
  function ServeWriteRead(t: Tables, q: seq<byte>): Served
    requires |q| >= 11 && |q| == 11 + q[10] as int
  {
    var nb, nbWrite := At(q, 4), At(q, 8);
    var m, mWrite := At(q, 2) - t.startRegisters, At(q, 6) - t.startRegisters;
    if nbWrite < 1 || MAX_WR_WRITE_REGISTERS < nbWrite || nb < 1 || MAX_WR_READ_REGISTERS < nb || q[10] as int != nbWrite * 2
    then Refuse(t, q, ILLEGAL_DATA_VALUE)
    else if m < 0 || m + nb > |t.registers| || mWrite + nbWrite > |t.registers| then Refuse(t, q, ILLEGAL_DATA_ADDRESS)
    else if mWrite < 0 then Fault
    else
      var written := Spliced(t.registers, mWrite, Registers(q[11..]));
      Reply(t.(registers := written), [q[0], q[1], B(2 * nb)] + RegisterBytes(written[m..m + nb]))
  }

  /** The reply to a report-slave-id request: 180, running, and the library's version string. */
  function ServeReportId(t: Tables, version: seq<byte>, q: seq<byte>): Served
    requires |q| >= 2 && |version| <= 100
  {
    var id := [180, 0xFF, 0x4C, 0x4D, 0x42] + version;
    Reply(t, [q[0], q[1], B(|id|)] + id)
  }

  function Serve(t: Tables, version: seq<byte>, q: seq<byte>): Served
    requires Complete(q, Indication) && |version| <= 100
  {
    var fc := q[1];
    if fc == 0x01 || fc == 0x02 then ServeReadBits(t, q)
    else if fc == 0x03 || fc == 0x04 then ServeReadRegisters(t, q)
    else if fc == 0x05 then ServeWriteBit(t, q)
    else if fc == 0x06 then ServeWriteRegister(t, q)
    else if fc == 0x07 then Silent
    else if fc == 0x0F then ServeWriteBits(t, q)
    else if fc == 0x10 then ServeWriteRegisters(t, q)
    else if fc == 0x11 then ServeReportId(t, version, q)
    else if fc == 0x16 then ServeMaskWrite(t, q)
    else if fc == 0x17 then ServeWriteRead(t, q)
    else Refuse(t, q, ILLEGAL_FUNCTION)
  }

  // The bytes of a request say what the client meant.

  /** The one request on which server and direct operation part: its write starts below the table. */
  predicate StoresBelowTable(t: Tables, r: Request) {
    && r.WriteRead?
    && 1 <= |r.values| <= MAX_WR_WRITE_REGISTERS && 1 <= r.nb <= MAX_WR_READ_REGISTERS
    && InTable(t.startRegisters, |t.registers|, r.addr, r.nb)
    && r.writeAddr < t.startRegisters
    && r.writeAddr - t.startRegisters + |r.values| <= |t.registers|
  }

  predicate Faithful(t: Tables, version: seq<byte>, slave: byte, r: Request)
    requires Sendable(r) && |version| <= 100
  {
    var q := EncodeRequest(slave, r);
    && Complete(q, Indication)
    && Serve(t, version, q) ==
       if StoresBelowTable(t, r) then Fault
       else
         ExecuteMatches(t, r);
         Reply(Execute(t, r).0, EncodeAnswer(slave, r, Execute(t, r).1))
  }

  lemma BasisFields(q: seq<byte>, slave: byte, fc: byte, x: word, y: word)
    requires |q| >= 6 && q[..6] == Basis(slave, fc, x, y)
    ensures q[0] == slave && q[1] == fc && At(q, 2) == x && At(q, 4) == y
  {
    var b := Basis(slave, fc, x, y);
    assert forall i :: 0 <= i < 6 ==> q[i] == q[..6][i] == b[i];
    WordRoundTrip(x, 0, 0);
    WordRoundTrip(y, 0, 0);
    hide Word, Hi, Lo;
  }

  /** The fields of a request to read. */
  predicate ReadBody(q: seq<byte>, slave: byte, fc: byte, addr: word, nb: word) {
    |q| == 6 && q[0] == slave && q[1] == fc && At(q, 2) == addr && At(q, 4) == nb
  }

  lemma ReadFields(q: seq<byte>, slave: byte, fc: byte, addr: word, nb: word)
    requires q == Basis(slave, fc, addr, nb)
    ensures ReadBody(q, slave, fc, addr, nb)
  {
    hide Word, Hi, Lo;
    assert q[..6] == q;
    BasisFields(q, slave, fc, addr, nb);
  }

  lemma ReadBitsServed(t: Tables, slave: byte, r: Request, q: seq<byte>)
    requires Sendable(r) && r.ReadBits? && ReadBody(q, slave, FunctionCode(r), r.addr, r.nb)
    ensures Matches(r, Execute(t, r).1)
    ensures ServeReadBits(t, q) == Reply(Execute(t, r).0, EncodeAnswer(slave, r, Execute(t, r).1))
  {
    hide B, Word, At, Pack;
    ExecuteMatches(t, r);
  }

  lemma ReadRegistersServed(t: Tables, slave: byte, r: Request, q: seq<byte>)
    requires Sendable(r) && r.ReadRegisters? && ReadBody(q, slave, FunctionCode(r), r.addr, r.nb)
    ensures Matches(r, Execute(t, r).1)
    ensures ServeReadRegisters(t, q) == Reply(Execute(t, r).0, EncodeAnswer(slave, r, Execute(t, r).1))
  {
    hide B, Word, At, RegisterBytes;
    ExecuteMatches(t, r);
  }

  lemma ReadBitsRequest(t: Tables, version: seq<byte>, slave: byte, r: Request)
    requires |version| <= 100 && Sendable(r) && r.ReadBits?
    ensures Faithful(t, version, slave, r)
  {
    hide Hi, Lo, At, EncodeAnswer, Execute;
    hide ServeReadBits, ServeReadRegisters, ServeWriteBit, ServeWriteRegister, ServeWriteBits, ServeWriteRegisters;
    hide ServeMaskWrite, ServeWriteRead, ServeReportId;
    ReadFields(EncodeRequest(slave, r), slave, FunctionCode(r), r.addr, r.nb);
    ReadBitsServed(t, slave, r, EncodeRequest(slave, r));
  }

  lemma ReadRegistersRequest(t: Tables, version: seq<byte>, slave: byte, r: Request)
    requires |version| <= 100 && Sendable(r) && r.ReadRegisters?
    ensures Faithful(t, version, slave, r)
  {
    hide Hi, Lo, At, EncodeAnswer, Execute;
    hide ServeReadBits, ServeReadRegisters, ServeWriteBit, ServeWriteRegister, ServeWriteBits, ServeWriteRegisters;
    hide ServeMaskWrite, ServeWriteRead, ServeReportId;
    ReadFields(EncodeRequest(slave, r), slave, FunctionCode(r), r.addr, r.nb);
    ReadRegistersServed(t, slave, r, EncodeRequest(slave, r));
  }

  lemma WriteBitRequest(t: Tables, version: seq<byte>, slave: byte, r: Request)
    requires |version| <= 100 && Sendable(r) && r.WriteBit?
    ensures Faithful(t, version, slave, r)
  {
    hide BitsReply, RegistersReply;
    hide Word, Hi, Lo, B, At, Pack, Unpack, Registers, RegisterBytes, Masked, Spliced;
    hide ServeReadBits, ServeReadRegisters, ServeWriteRegister, ServeWriteBits, ServeWriteRegisters, ServeMaskWrite, ServeWriteRead, ServeReportId;
    var q := EncodeRequest(slave, r);
    assert q[..6] == q;
    BasisFields(q, slave, FunctionCode(r), r.addr, if r.on then COIL_ON else 0);
  }

  lemma WriteRegisterRequest(t: Tables, version: seq<byte>, slave: byte, r: Request)
    requires |version| <= 100 && Sendable(r) && r.WriteRegister?
    ensures Faithful(t, version, slave, r)
  {
    hide BitsReply, RegistersReply;
    hide Word, Hi, Lo, B, At, Pack, Unpack, Registers, RegisterBytes, Masked, Spliced;
    hide ServeReadBits, ServeReadRegisters, ServeWriteBit, ServeWriteBits, ServeWriteRegisters, ServeMaskWrite, ServeWriteRead, ServeReportId;
    var q := EncodeRequest(slave, r);
    assert q[..6] == q;
    BasisFields(q, slave, FunctionCode(r), r.addr, r.value);
  }

  lemma WriteBitsRequest(t: Tables, version: seq<byte>, slave: byte, r: Request)
    requires |version| <= 100 && Sendable(r) && r.WriteBits?
    ensures Faithful(t, version, slave, r)
  {
    hide BitsReply, RegistersReply;
    hide Word, Hi, Lo, B, At, Pack, Unpack, Registers, RegisterBytes, Masked, Spliced;
    hide ServeReadBits, ServeReadRegisters, ServeWriteBit, ServeWriteRegister, ServeWriteRegisters, ServeMaskWrite, ServeWriteRead, ServeReportId;
    var q := EncodeRequest(slave, r);
    var n := |r.bits|;
    assert q[..6] == Basis(slave, 0x0F, r.addr, n);
    BasisFields(q, slave, 0x0F, r.addr, n);
    NumberOfByte(ByteCount(n));
    assert q[7..] == Pack(r.bits);
    PackRoundTrip(r.bits);
  }

  lemma WriteRegistersRequest(t: Tables, version: seq<byte>, slave: byte, r: Request)
    requires |version| <= 100 && Sendable(r) && r.WriteRegisters?
    ensures Faithful(t, version, slave, r)
  {
    hide BitsReply, RegistersReply;
    hide Word, Hi, Lo, B, At, Pack, Unpack, Registers, RegisterBytes, Masked, Spliced;
    hide ServeReadBits, ServeReadRegisters, ServeWriteBit, ServeWriteRegister, ServeWriteBits, ServeMaskWrite, ServeWriteRead, ServeReportId;
    var q := EncodeRequest(slave, r);
    var n := |r.values|;
    assert q[..6] == Basis(slave, 0x10, r.addr, n);
    BasisFields(q, slave, 0x10, r.addr, n);
    NumberOfByte(2 * n);
    assert q[7..] == RegisterBytes(r.values);
    RegistersRoundTrip(r.values);
  }

  lemma MaskWriteRequest(t: Tables, version: seq<byte>, slave: byte, r: Request)
    requires |version| <= 100 && Sendable(r) && r.MaskWrite?
    ensures Faithful(t, version, slave, r)
  {
    hide BitsReply, RegistersReply;
    hide Word, Hi, Lo, B, Pack, Unpack, Registers, RegisterBytes, Masked, Spliced;
    hide ServeReadBits, ServeReadRegisters, ServeWriteBit, ServeWriteRegister, ServeWriteBits, ServeWriteRegisters, ServeWriteRead, ServeReportId;
    var q := EncodeRequest(slave, r);
    assert q[..6] == Basis(slave, 0x16, r.addr, r.andMask);
    BasisFields(q, slave, 0x16, r.addr, r.andMask);
    WordRoundTrip(r.orMask, 0, 0);
  }

  predicate WriteReadBody(q: seq<byte>, slave: byte, r: Request)
    requires r.WriteRead? && Sendable(r)
  {
    && |q| == 11 + 2 * |r.values|
    && q[0] == slave && q[1] == 0x17
    && At(q, 2) == r.addr && At(q, 4) == r.nb && At(q, 6) == r.writeAddr && At(q, 8) == |r.values|
    && q[10] as int == 2 * |r.values| && Registers(q[11..]) == r.values
  }

  lemma WriteReadFields(slave: byte, r: Request)
    requires Sendable(r) && r.WriteRead?
    ensures WriteReadBody(EncodeRequest(slave, r), slave, r)
  {
    hide Word, Hi, Lo, B, Registers, RegisterBytes;
    var q := EncodeRequest(slave, r);
    var n := |r.values|;
    assert q[..6] == Basis(slave, 0x17, r.addr, r.nb);
    BasisFields(q, slave, 0x17, r.addr, r.nb);
    WordRoundTrip(r.writeAddr, 0, 0);
    WordRoundTrip(n, 0, 0);
    NumberOfByte(2 * n);
    assert q[11..] == RegisterBytes(r.values);
    RegistersRoundTrip(r.values);
  }

  lemma WriteReadServed(t: Tables, slave: byte, r: Request, q: seq<byte>)
    requires Sendable(r) && r.WriteRead? && WriteReadBody(q, slave, r)
    ensures Matches(r, Execute(t, r).1)
    ensures ServeWriteRead(t, q) ==
            if StoresBelowTable(t, r) then Fault else Reply(Execute(t, r).0, EncodeAnswer(slave, r, Execute(t, r).1))
  {
    hide Word, Hi, Lo, B, At, Registers, RegisterBytes, Spliced;
    ExecuteMatches(t, r);
  }

  lemma WriteReadRequest(t: Tables, version: seq<byte>, slave: byte, r: Request)
    requires |version| <= 100 && Sendable(r) && r.WriteRead?
    ensures Faithful(t, version, slave, r)
  {
    hide Word, Hi, Lo, B, Pack, Registers, RegisterBytes, EncodeRequest, EncodeAnswer, Execute, StoresBelowTable;
    hide ServeReadBits, ServeReadRegisters, ServeWriteBit, ServeWriteRegister, ServeWriteBits, ServeWriteRegisters;
    hide ServeMaskWrite, ServeWriteRead, ServeReportId;
    WriteReadFields(slave, r);
    WriteReadServed(t, slave, r, EncodeRequest(slave, r));
  }

  /** The server does what a direct operation would, except for a write-and-read below its table. */
  lemma ServerIsFaithful(t: Tables, version: seq<byte>, slave: byte, r: Request)
    requires |version| <= 100 && Sendable(r)
    ensures Faithful(t, version, slave, r)
  {
    hide Faithful;
    match r
    case ReadBits(_, _, _) => ReadBitsRequest(t, version, slave, r);
    case ReadRegisters(_, _, _) => ReadRegistersRequest(t, version, slave, r);
    case WriteBit(_, _) => WriteBitRequest(t, version, slave, r);
    case WriteRegister(_, _) => WriteRegisterRequest(t, version, slave, r);
    case WriteBits(_, _) => WriteBitsRequest(t, version, slave, r);
    case WriteRegisters(_, _) => WriteRegistersRequest(t, version, slave, r);
    case MaskWrite(_, _, _) => MaskWriteRequest(t, version, slave, r);
    case WriteRead(_, _, _, _) => WriteReadRequest(t, version, slave, r);
  }
}
