/**
 The Modbus requests the client can make, their effect on the tables as a direct operation, and
 their frames. Addresses and limits are those of `modbus.h`.
 */
module ModbusProtocol {
  import opened Bytes
  import opened ModbusData

  const MAX_READ_BITS := 2000
  const MAX_WRITE_BITS := 1968
  const MAX_READ_REGISTERS := 125
  const MAX_WRITE_REGISTERS := 123
  const MAX_WR_WRITE_REGISTERS := 121
  const MAX_WR_READ_REGISTERS := 125
  const ILLEGAL_FUNCTION := 1
  const ILLEGAL_DATA_ADDRESS := 2
  const ILLEGAL_DATA_VALUE := 3

  datatype Request =
    | ReadBits(input: bool, addr: word, nb: word)
    | ReadRegisters(input: bool, addr: word, nb: word)
    | WriteBit(addr: word, on: bool)
    | WriteRegister(addr: word, value: word)
    | WriteBits(addr: word, bits: seq<bool>)
    | WriteRegisters(addr: word, values: seq<word>)
    | MaskWrite(addr: word, andMask: word, orMask: word)
    | WriteRead(writeAddr: word, values: seq<word>, addr: word, nb: word)

  datatype Answer =
    | Bits(bits: seq<bool>)
    | Values(values: seq<word>)
    | Done
    | Exception(code: nat)

  datatype Tables = Tables(
    startBits: nat, bits: seq<bool>,
    startInputBits: nat, inputBits: seq<bool>,
    startRegisters: nat, registers: seq<word>,
    startInputRegisters: nat, inputRegisters: seq<word>)

  // The operations themselves.

  predicate InTable(start: nat, size: nat, addr: int, nb: int) {
    start <= addr && addr - start + nb <= size
  }

  function MaskByte(d: byte, a: byte, o: byte): byte { (d & a) | (o & !a) }

  /** (d AND a) OR (o AND NOT a), on 16 bits. */
  function Masked(d: word, a: word, o: word): word {
    Word(MaskByte(Hi(d), Hi(a), Hi(o)), MaskByte(Lo(d), Lo(a), Lo(o)))
  }

  /** The effect of a request on the tables, and its answer; a write-and-read writes first. */
  function Execute(t: Tables, r: Request): (Tables, Answer) {
    match r
    case ReadBits(input, addr, nb) =>
      var (start, tab) := if input then (t.startInputBits, t.inputBits) else (t.startBits, t.bits);
      if nb < 1 || nb > MAX_READ_BITS then (t, Exception(ILLEGAL_DATA_VALUE))
      else if !InTable(start, |tab|, addr, nb) then (t, Exception(ILLEGAL_DATA_ADDRESS))
      else (t, Bits(tab[addr - start..addr - start + nb]))
    case ReadRegisters(input, addr, nb) =>
      var (start, tab) := if input then (t.startInputRegisters, t.inputRegisters) else (t.startRegisters, t.registers);
      if nb < 1 || nb > MAX_READ_REGISTERS then (t, Exception(ILLEGAL_DATA_VALUE))
      else if !InTable(start, |tab|, addr, nb) then (t, Exception(ILLEGAL_DATA_ADDRESS))
      else (t, Values(tab[addr - start..addr - start + nb]))
    case WriteBit(addr, on) =>
      if !InTable(t.startBits, |t.bits|, addr, 1) then (t, Exception(ILLEGAL_DATA_ADDRESS))
      else (t.(bits := t.bits[addr - t.startBits := on]), Done)
    case WriteRegister(addr, value) =>
      if !InTable(t.startRegisters, |t.registers|, addr, 1) then (t, Exception(ILLEGAL_DATA_ADDRESS))
      else (t.(registers := t.registers[addr - t.startRegisters := value]), Done)
    case WriteBits(addr, bits) =>
      if |bits| < 1 || |bits| > MAX_WRITE_BITS then (t, Exception(ILLEGAL_DATA_VALUE))
      else if !InTable(t.startBits, |t.bits|, addr, |bits|) then (t, Exception(ILLEGAL_DATA_ADDRESS))
      else (t.(bits := Spliced(t.bits, addr - t.startBits, bits)), Done)
    case WriteRegisters(addr, values) =>
      if |values| < 1 || |values| > MAX_WRITE_REGISTERS then (t, Exception(ILLEGAL_DATA_VALUE))
      else if !InTable(t.startRegisters, |t.registers|, addr, |values|) then (t, Exception(ILLEGAL_DATA_ADDRESS))
      else (t.(registers := Spliced(t.registers, addr - t.startRegisters, values)), Done)
    case MaskWrite(addr, a, o) =>
      if !InTable(t.startRegisters, |t.registers|, addr, 1) then (t, Exception(ILLEGAL_DATA_ADDRESS))
      else
        var i := addr - t.startRegisters;
        (t.(registers := t.registers[i := Masked(t.registers[i], a, o)]), Done)
    case WriteRead(writeAddr, values, addr, nb) =>
      if |values| < 1 || |values| > MAX_WR_WRITE_REGISTERS || nb < 1 || nb > MAX_WR_READ_REGISTERS
      then (t, Exception(ILLEGAL_DATA_VALUE))
      else if !InTable(t.startRegisters, |t.registers|, addr, nb)
           || !InTable(t.startRegisters, |t.registers|, writeAddr, |values|)
      then (t, Exception(ILLEGAL_DATA_ADDRESS))
      else
        var written := Spliced(t.registers, writeAddr - t.startRegisters, values);
        (t.(registers := written), Values(written[addr - t.startRegisters..addr - t.startRegisters + nb]))
  }

  // Frames, without their CRC.

  function FunctionCode(r: Request): byte {
    match r
    case ReadBits(input, _, _) => if input then 0x02 else 0x01
    case ReadRegisters(input, _, _) => if input then 0x04 else 0x03
    case WriteBit(_, _) => 0x05
    case WriteRegister(_, _) => 0x06
    case WriteBits(_, _) => 0x0F
    case WriteRegisters(_, _) => 0x10
    case MaskWrite(_, _, _) => 0x16
    case WriteRead(_, _, _, _) => 0x17
  }

  /** The limits the client checks before it sends anything. */
  predicate Sendable(r: Request) {
    match r
    case ReadBits(_, _, nb) => nb <= MAX_READ_BITS
    case ReadRegisters(_, _, nb) => nb <= MAX_READ_REGISTERS
    case WriteBits(_, bits) => |bits| <= MAX_WRITE_BITS
    case WriteRegisters(_, values) => |values| <= MAX_WRITE_REGISTERS
    case WriteRead(_, values, _, nb) => |values| <= MAX_WR_WRITE_REGISTERS && nb <= MAX_WR_READ_REGISTERS
    case _ => true
  }

  /** Slave, function and two words: `_modbus_rtu_build_request_basis`. */
  function Basis(slave: byte, fc: byte, x: word, y: word): seq<byte> {
    [slave, fc, Hi(x), Lo(x), Hi(y), Lo(y)]
  }

  const COIL_ON: word := 0xFF00

  function EncodeRequest(slave: byte, r: Request): seq<byte>
    requires Sendable(r)
  {
    var fc := FunctionCode(r);
    match r
    case ReadBits(_, addr, nb) => Basis(slave, fc, addr, nb)
    case ReadRegisters(_, addr, nb) => Basis(slave, fc, addr, nb)
    case WriteBit(addr, on) => Basis(slave, fc, addr, if on then COIL_ON else 0)
    case WriteRegister(addr, value) => Basis(slave, fc, addr, value)
    case WriteBits(addr, bits) => Basis(slave, fc, addr, |bits|) + [B(ByteCount(|bits|))] + Pack(bits)
    case WriteRegisters(addr, values) =>
      Basis(slave, fc, addr, |values|) + [B(2 * |values|)] + RegisterBytes(values)
    case MaskWrite(addr, a, o) => Basis(slave, fc, addr, a) + [Hi(o), Lo(o)]
    case WriteRead(writeAddr, values, addr, nb) =>
      Basis(slave, fc, addr, nb) + [Hi(writeAddr), Lo(writeAddr), Hi(|values|), Lo(|values|), B(2 * |values|)]
      + RegisterBytes(values)
  }

  function ExceptionCode(fc: byte): byte { B(((fc as int) + 0x80) % 256) }

  /** An answer the client can be given for the request. */
  predicate Matches(r: Request, a: Answer) {
    match a
    case Exception(code) => code < 256
    case Bits(bits) => r.ReadBits? && |bits| == r.nb && 1 <= r.nb <= MAX_READ_BITS
    case Values(vs) => (r.ReadRegisters? || r.WriteRead?) && |vs| == r.nb && 1 <= r.nb <= MAX_READ_REGISTERS
    case Done => !r.ReadBits? && !r.ReadRegisters? && !r.WriteRead?
  }

  function EncodeAnswer(slave: byte, r: Request, a: Answer): seq<byte>
    requires Sendable(r) && Matches(r, a)
  {
    var fc := FunctionCode(r);
    match a
    case Exception(code) => [slave, ExceptionCode(fc), B(code)]
    case Bits(bits) => [slave, fc, B(ByteCount(|bits|))] + Pack(bits)
    case Values(vs) => [slave, fc, B(2 * |vs|)] + RegisterBytes(vs)
    case Done => if r.WriteBits? || r.WriteRegisters? then EncodeRequest(slave, r)[..6] else EncodeRequest(slave, r)
  }

  /** A direct operation always has an answer that can be encoded. */
  lemma ExecuteMatches(t: Tables, r: Request)
    requires Sendable(r)
    ensures Matches(r, Execute(t, r).1)
  {
  }

  /** A request that is refused changes no table. */
  lemma RefusedChangesNothing(t: Tables, r: Request)
    ensures Execute(t, r).1.Exception? ==> Execute(t, r).0 == t
    ensures Execute(t, r).0.(bits := t.bits, registers := t.registers) == t
    ensures |Execute(t, r).0.bits| == |t.bits| && |Execute(t, r).0.registers| == |t.registers|
  {
  }
}
