/** The client node, and both nodes on a lossless line: each call is the direct operation. */
module ModbusClient {
  import opened Bytes
  import opened ModbusData
  import opened ModbusProtocol
  import opened ModbusServe
  import opened ModbusWire
  import opened ModbusServer
  import opened Digits
  import ModbusMeaning

  lemma WordsOf(q: seq<byte>, p: seq<byte>)
    requires |q| >= 6
    ensures At(q, 4) == Word(q[4], q[5])
    ensures Repeated(p) == if |p| >= 6 then Word(p[4], p[5]) else 0
  {
  }

  class Client {
    const slave: byte
    const req: array<byte>
    const rsp: array<byte>
    var errno: int

    ghost predicate Valid() {
      && req.Length == rsp.Length == MAX_MESSAGE
      && req != rsp
      && 1 <= slave as int <= 247
    }

    /** The nodes share nothing but the line. */
    ghost predicate Separate(server: Server) {
      && Valid() && server.slave == slave
      && req != server.req && req != server.rsp && req != server.tabBits && req != server.tabInputBits
      && rsp != server.req && rsp != server.rsp && rsp != server.tabBits && rsp != server.tabInputBits
      && (req as object) != server.tabRegisters && (req as object) != server.tabInputRegisters
      && (rsp as object) != server.tabRegisters && (rsp as object) != server.tabInputRegisters
    }

    constructor (slave: byte)
      requires 1 <= slave as int <= 247
      ensures Valid() && this.slave == slave && fresh(req) && fresh(rsp)
    {
      this.slave := slave;
      req, rsp := new byte[MAX_MESSAGE](_ => 0), new byte[MAX_MESSAGE](_ => 0);
      errno := 0;
    }

    /** `_modbus_rtu_build_request_basis`. */
    method BuildBasis(fc: byte, addr: word, nb: word) returns (len: nat)
      requires Valid()
      modifies req
      ensures len == 6 && req[..6] == Basis(slave, fc, addr, nb)
    {
      hide Hi, Lo;
      req[0], req[1], req[2], req[3], req[4], req[5] := slave, fc, Hi(addr), Lo(addr), Hi(nb), Lo(nb);
      len := 6;
    }

    /** `check_confirmation` on the received reply of n bytes. */
    method CheckConfirmation(n: nat) returns (rc: int)
      requires Valid() && 5 <= n <= MAX_ADU
      modifies this
      ensures rc == Confirm(req[..6], rsp[..n]).0
      ensures rc == -1 ==> errno == Confirm(req[..6], rsp[..n]).1
    {
      hide Word, At, Repeated;
      WordsOf(req[..6], rsp[..n]);
      var nb, repeated := Word(req[4], req[5]), if n >= 6 then Word(rsp[4], rsp[5]) else 0;
      rc := Judge(n, req[0] as int, req[1] as int, nb, rsp[0] as int, rsp[1] as int, rsp[2] as int, repeated);
    }

    method Judge(n: int, q0: int, qfc: int, nb: int, p0: int, pfc: int, p2: int, repeated: int) returns (rc: int)
      requires 0 <= p2 && 0 <= repeated
      modifies this
      ensures rc == Verdict(n, q0, qfc, nb, p0, pfc, p2, repeated).0
      ensures rc == -1 ==> errno == Verdict(n, q0, qfc, nb, p0, pfc, p2, repeated).1
    {
      hide ResponseLength, Asked, Given;
      if q0 != p0 && q0 != 0 {
        errno := EMBBADSLAVE;
        return -1;
      }
      var computed := ResponseLength(qfc, nb);
      if pfc >= 0x80 {
        if n == 1 + 2 + CHECKSUM && qfc == pfc - 0x80 {
          errno := if p2 < EXCEPTION_MAX then ENOBASE + p2 else EMBBADEXC;
          return -1;
        } else {
          errno := EMBBADEXC;
          return -1;
        }
      }
      if n == computed || computed == -1 {
        if pfc != qfc {
          errno := EMBBADDATA;
          return -1;
        }
        if pfc == 0x11 {
          return p2;
        }
        if Asked(pfc, nb) == Given(pfc, p2, repeated) {
          rc := Given(pfc, p2, repeated);
        } else {
          errno := EMBBADDATA;
          rc := -1;
        }
      } else {
        errno := EMBBADDATA;
        rc := -1;
      }
    }

    /** The request in `req` has been sent, answered by the server as a direct operation, and judged. */
    ghost predicate Transacted(r: Request, a: Answer, rc: int)
      requires Sendable(r) && Matches(r, a)
      reads this, rsp
    {
      && Valid()
      && (if a.Exception? then rc == -1 && errno == ENOBASE + a.code else rc == Counted(r))
      && |EncodeAnswer(slave, r, a)| <= MAX_ADU
      && rsp[..|EncodeAnswer(slave, r, a)|] == EncodeAnswer(slave, r, a)
    }

    /** Receiving the server's answer into `rsp`, and judging it. */
    method ReceiveAnswer(sent: seq<byte>, ghost r: Request, ghost a: Answer) returns (rc: int)
      requires Valid() && Sendable(r) && Matches(r, a) && (a.Exception? ==> a.code < EXCEPTION_MAX)
      requires req[..6] == EncodeRequest(slave, r)[..6]
      requires |EncodeAnswer(slave, r, a)| <= MAX_ADU - CHECKSUM && sent == Frame(EncodeAnswer(slave, r, a))
      modifies this, rsp
      ensures Transacted(r, a, rc)
    {
      hide EncodeRequest, EncodeAnswer, Receive, Confirm, Accepted, Complete;
      ghost var p := EncodeAnswer(slave, r, a);
      AnswerIsComplete(slave, r, a);
      FrameIsAccepted(slave, p, Confirmation);
      Put(rsp, 0, sent);
      assert rsp[..|sent|] == rsp[0..0 + |sent|] == sent;
      assert rsp[..][..|sent|] == sent;
      ReceiveTakesAccepted(slave as int, rsp[..], sent, Confirmation);
      rc := ReceiveMsg(slave as int, rsp, |sent|, Confirmation);
      assert rsp[..|p|] == sent[..|p|] == p;
      if rc == -1 {
        return -1;
      }
      RequestFits(slave, r);
      AnswerConfirms(slave, r, a);
      ConfirmHead(EncodeRequest(slave, r), sent);
      rc := CheckConfirmation(rc);
    }

    /** Send, let the server answer, receive, check: the tail of every client call. */
    method Transact(server: Server, len: nat, ghost r: Request) returns (rc: int)
      requires Separate(server) && server.Valid() && Sendable(r)
      requires len <= MAX_ADU - CHECKSUM && req[..len] == EncodeRequest(slave, r)
      requires !StoresBelowTable(server.State(), r)
      modifies this, req, rsp, server.req, server.rsp, server.tabBits, server.tabRegisters
      ensures server.Valid() && server.State() == old(Execute(server.State(), r).0)
      ensures Matches(r, old(Execute(server.State(), r).1))
      ensures Transacted(r, old(Execute(server.State(), r).1), rc)
    {
      hide EncodeRequest, EncodeAnswer, Execute, Taken, Frame, Matches, Transacted, StoresBelowTable;
      hide AreCells, Coils;
      ghost var t := server.State();
      ghost var body, a := EncodeRequest(slave, r), Execute(t, r).1;
      ExecuteMatches(t, r);
      ExceptionCodes(t, r);
      RequestFits(slave, r);
      var frame := SendMsg(req, len);
      assert server.State() == t;
      RequestArrives(t, server.version, slave, r);
      var sent := server.OnFrame(frame);
      AnswerIsComplete(slave, r, a);
      FrameFields(body);
      assert forall i :: 0 <= i < 6 ==> req[i] == frame[i] == body[i];
      label Answered:
      rc := ReceiveAnswer(sent, r, a);
      assert server.State() == old@Answered(server.State());
    }

    // The calls.

    /** The head of the received body, and the values in it. */
    lemma AnswerInRsp(r: Request, a: Answer, rc: int)
      requires Sendable(r) && Matches(r, a) && Transacted(r, a, rc)
      ensures a.Bits? ==> rc == ByteCount(r.nb) && Unpack(rsp[3..3 + rc], r.nb) == a.bits
      ensures a.Values? ==> rc == r.nb && Registers(rsp[3..3 + 2 * rc]) == a.values
    {
      hide EncodeAnswer, Unpack, Registers, ByteCount;
      AnswerValues(slave, r, a);
      var p := EncodeAnswer(slave, r, a);
      if a.Bits? {
        assert rsp[3..3 + rc] == p[3..];
      }
      if a.Values? {
        assert rsp[3..3 + 2 * rc] == p[3..];
      }
    }

    /** `modbus_read_bits` and `modbus_read_input_bits`. */
    method ReadBits(server: Server, input: bool, addr: word, nb: word, dest: array<byte>) returns (rc: int)
      requires Separate(server) && server.Valid() && dest.Length >= nb
      requires dest != req && dest != rsp && dest != server.req && dest != server.rsp
      requires dest != server.tabBits && dest != server.tabInputBits
      requires (dest as object) != server.tabRegisters && (dest as object) != server.tabInputRegisters
      modifies this, req, rsp, server.req, server.rsp, server.tabBits, server.tabRegisters, dest
      ensures server.Valid() && server.State() == old(server.State())
      ensures var a := old(Execute(server.State(), Request.ReadBits(input, addr, nb)).1);
              if nb > MAX_READ_BITS then rc == -1 && errno == EMBMDATA && dest[..] == old(dest[..])
              else if a.Exception? then rc == -1 && errno == ENOBASE + a.code && dest[..] == old(dest[..])
              else a.Bits? && rc == nb && Coils(dest[..nb]) == a.bits && AreCells(dest[..nb]) && dest[nb..] == old(dest[nb..])
    {
      if nb > MAX_READ_BITS {
        errno := EMBMDATA;
        return -1;
      }
      ghost var r := Request.ReadBits(input, addr, nb);
      ghost var a := Execute(server.State(), r).1;
      hide Execute, EncodeAnswer, Transacted, Coils, AreCells, Unpack;
      var fc: byte := if input then 0x02 else 0x01;
      var len := BuildBasis(fc, addr, nb);
      assert server.State() == old(server.State());
      rc := Transact(server, len, r);
      AnswerInRsp(r, a, rc);
      if rc == -1 {
        return -1;
      }
      UnpackBits(dest, rc, nb);
      rc := nb;
    }

    /** The loop that spreads the bits of the reply over the destination. */
    method UnpackBits(dest: array<byte>, rc: nat, nb: nat)
      requires Valid() && dest != req && dest != rsp && nb <= dest.Length && nb <= 8 * rc && 3 + rc <= MAX_MESSAGE
      modifies dest
      ensures Coils(dest[..nb]) == Unpack(rsp[3..3 + rc], nb) && AreCells(dest[..nb]) && dest[nb..] == old(dest[nb..])
    {
      hide And, Shl, Bit;
      var pos, i := 0, 0;
      while i < rc
        invariant 0 <= i <= rc && pos == if 8 * i < nb then 8 * i else nb
        invariant forall j :: 0 <= j < pos ==> dest[j] == Cell(Bit(rsp[3 + j / 8], j % 8))
        invariant forall j :: nb <= j < dest.Length ==> dest[j] == old(dest[j])
      {
        pos := UnpackByte(dest, rsp[3 + i], 8 * i, pos, nb);
        i := i + 1;
      }
      assert forall j :: 0 <= j < nb ==> (dest[j] != 0) == Bit(rsp[3..3 + rc][j / 8], j % 8);
    }

    /** One byte of the reply. */
    method UnpackByte(dest: array<byte>, temp: byte, base: nat, from: nat, nb: nat) returns (pos: nat)
      requires nb <= dest.Length && base % 8 == 0 && from == if base < nb then base else nb
      modifies dest
      ensures pos == if base + 8 < nb then base + 8 else nb
      ensures forall j :: base <= j < pos ==> dest[j] == Cell(Bit(temp, j % 8))
      ensures forall j :: 0 <= j < dest.Length && !(base <= j < pos) ==> dest[j] == old(dest[j])
    {
      pos := from;
      var bit: byte := 1;
      ghost var k := 0;
      ShlOnes();
      hide Shl, And;
      while bit != 0 && pos < nb
        invariant 0 <= k <= 8 && pos == (if base < nb then base else nb) + k && pos <= nb
        invariant bit == if k < 8 then Shl(1, k) else 0
        invariant forall j :: base <= j < pos ==> dest[j] == Cell(Bit(temp, j % 8))
        invariant forall j :: 0 <= j < dest.Length && !(base <= j < pos) ==> dest[j] == old(dest[j])
        decreases nb - pos
      {
        dest[pos] := if And(temp, bit) != 0 then 1 else 0;
        ShlStep(k);
        pos, bit, k := pos + 1, bit << 1, k + 1;
      }
    }

    /** `modbus_read_registers` and `modbus_read_input_registers`. */
    method ReadRegisters(server: Server, input: bool, addr: word, nb: word, dest: array<word>) returns (rc: int)
      requires Separate(server) && server.Valid() && dest.Length >= nb && Apart(server, dest)
      modifies this, req, rsp, server.req, server.rsp, server.tabBits, server.tabRegisters, dest
      ensures server.Valid() && server.State() == old(server.State())
      ensures var a := old(Execute(server.State(), Request.ReadRegisters(input, addr, nb)).1);
              if nb > MAX_READ_REGISTERS then rc == -1 && errno == EMBMDATA && dest[..] == old(dest[..])
              else if a.Exception? then rc == -1 && errno == ENOBASE + a.code && dest[..] == old(dest[..])
              else a.Values? && rc == nb && dest[..] == a.values + old(dest[nb..])
    {
      if nb > MAX_READ_REGISTERS {
        errno := EMBMDATA;
        return -1;
      }
      ghost var r := Request.ReadRegisters(input, addr, nb);
      ghost var a := Execute(server.State(), r).1;
      hide Execute, EncodeAnswer, Transacted, Coils, AreCells, Registers;
      var fc: byte := if input then 0x04 else 0x03;
      var len := BuildBasis(fc, addr, nb);
      assert server.State() == old(server.State());
      rc := Transact(server, len, r);
      AnswerInRsp(r, a, rc);
      if rc == -1 {
        return -1;
      }
      label Received:
      TakeRegisters(dest, rc);
      assert server.State() == old@Received(server.State());
    }

    /** The destination is no part of either node. */
    ghost predicate Apart(server: Server, dest: array<word>) {
      && dest != server.tabRegisters && dest != server.tabInputRegisters
      && (req as object) != dest && (rsp as object) != dest
      && (server.req as object) != dest && (server.rsp as object) != dest
      && (server.tabBits as object) != dest && (server.tabInputBits as object) != dest
    }

    /** The loop that takes the registers of the reply into the destination. */
    method TakeRegisters(dest: array<word>, rc: nat)
      requires Valid() && rc <= dest.Length && 3 + 2 * rc <= MAX_MESSAGE && (rsp as object) != dest
      modifies dest
      ensures dest[..] == Registers(rsp[3..3 + 2 * rc]) + old(dest[rc..])
    {
      hide Word;
      var i := 0;
      while i < rc
        invariant 0 <= i <= rc
        invariant forall j :: 0 <= j < i ==> dest[j] == Word(rsp[3 + 2 * j], rsp[3 + 2 * j + 1])
        invariant forall j :: rc <= j < dest.Length ==> dest[j] == old(dest[j])
      {
        dest[i] := Word(rsp[3 + 2 * i], rsp[3 + 2 * i + 1]);
        i := i + 1;
      }
    }

    /** What a write call reports. */
    ghost predicate Reported(r: Request, a: Answer, rc: int)
      reads this
    {
      if a.Exception? then rc == -1 && errno == ENOBASE + a.code else rc == Counted(r)
    }

    /** `modbus_write_bit`. */
    method WriteBit(server: Server, addr: word, status: bool) returns (rc: int)
      requires Separate(server) && server.Valid()
      modifies this, req, rsp, server.req, server.rsp, server.tabBits, server.tabRegisters
      ensures server.Valid() && server.State() == old(Execute(server.State(), Request.WriteBit(addr, status)).0)
      ensures Reported(Request.WriteBit(addr, status), old(Execute(server.State(), Request.WriteBit(addr, status)).1), rc)
    {
      ghost var r := Request.WriteBit(addr, status);
      hide Execute, EncodeAnswer, Coils, AreCells;
      var len := BuildBasis(0x05, addr, if status then COIL_ON else 0);
      assert server.State() == old(server.State());
      rc := Transact(server, len, r);
    }

    /** `modbus_write_register`. */
    method WriteRegister(server: Server, addr: word, value: word) returns (rc: int)
      requires Separate(server) && server.Valid()
      modifies this, req, rsp, server.req, server.rsp, server.tabBits, server.tabRegisters
      ensures server.Valid() && server.State() == old(Execute(server.State(), Request.WriteRegister(addr, value)).0)
      ensures Reported(Request.WriteRegister(addr, value), old(Execute(server.State(), Request.WriteRegister(addr, value)).1), rc)
    {
      ghost var r := Request.WriteRegister(addr, value);
      hide Execute, EncodeAnswer, Coils, AreCells;
      var len := BuildBasis(0x06, addr, value);
      assert server.State() == old(server.State());
      rc := Transact(server, len, r);
    }

    /** `modbus_write_bits`. */
    method WriteBits(server: Server, addr: word, nb: word, src: array<byte>) returns (rc: int)
      requires Separate(server) && server.Valid() && src.Length >= nb && src != req
      modifies this, req, rsp, server.req, server.rsp, server.tabBits, server.tabRegisters
      ensures server.Valid()
      ensures nb > MAX_WRITE_BITS ==> rc == -1 && errno == EMBMDATA && server.State() == old(server.State())
      ensures nb <= MAX_WRITE_BITS ==>
                var r := Request.WriteBits(addr, old(Coils(src[..nb])));
                && server.State() == old(Execute(server.State(), r).0)
                && Reported(r, old(Execute(server.State(), r).1), rc)
    {
      if nb > MAX_WRITE_BITS {
        errno := EMBMDATA;
        return -1;
      }
      ghost var r := Request.WriteBits(addr, Coils(src[..nb]));
      hide Execute, EncodeAnswer, Coils, AreCells, Pack;
      var len := BuildBasis(0x0F, addr, nb);
      ByteCountAsWritten(nb);
      req[len] := B(nb / 8 + if nb % 8 != 0 then 1 else 0);
      len := len + 1;
      assert req[..6] == Basis(slave, 0x0F, addr, nb) && req[..7] == req[..6] + [req[6]];
      label Headed:
      len := PackBits(src, nb);
      assert server.State() == old(server.State());
      assert req[..len] == EncodeRequest(slave, r) by { hide Basis, B; }
      rc := Transact(server, len, r);
    }

    /** The loop that gathers the source's cells into the bytes of the request. */
    method PackBits(src: array<byte>, nb: nat) returns (len: nat)
      requires Valid() && src != req && nb <= src.Length && nb <= MAX_WRITE_BITS
      modifies req
      ensures len == 7 + ByteCount(nb) && req[..len] == old(req[..7]) + Pack(Coils(src[..nb]))
    {
      hide Coils, ByteOf;
      ghost var bits := Coils(src[..nb]);
      len := 7;
      var pos, i := 0, 0;
      while i < ByteCount(nb)
        invariant 0 <= i <= ByteCount(nb) && len == 7 + i && pos == if 8 * i < nb then 8 * i else nb
        invariant forall j :: 0 <= j < 7 ==> req[j] == old(req[j])
        invariant forall j :: 0 <= j < i ==> req[7 + j] == ByteOf(Group(bits, j))
      {
        pos := PackByte(src, len, pos, nb, bits, i);
        len, i := len + 1, i + 1;
      }
    }

    /** One byte of the request, from its lowest bit. */
    method PackByte(src: array<byte>, len: nat, from: nat, nb: nat, ghost bits: seq<bool>, ghost i: nat) returns (pos: nat)
      requires Valid() && src != req && nb <= src.Length && len < req.Length && bits == Coils(src[..nb])
      requires 8 * i < nb && from == 8 * i
      modifies req
      ensures pos == if from + 8 < nb then from + 8 else nb
      ensures req[len] == ByteOf(Group(bits, i))
      ensures forall j :: 0 <= j < req.Length && j != len ==> req[j] == old(req[j])
    {
      pos := from;
      var bit: byte := 1;
      ghost var k := 0;
      ShlOnes();
      ByteOfNothing();
      hide Shl, And, Or, ByteOf;
      req[len] := 0;
      assert bits[from..from] == [];
      while bit != 0 && pos < nb
        invariant 0 <= k <= 8 && pos == from + k && pos <= nb
        invariant bit == if k < 8 then Shl(1, k) else 0
        invariant req[len] == ByteOf(bits[from..from + k])
        invariant forall j :: 0 <= j < req.Length && j != len ==> req[j] == old(req[j])
        decreases nb - pos
      {
        assert bits[pos] == (src[pos] != 0);
        PutBit(bits, from, k);
        ShlStep(k);
        if src[pos] != 0 {
          req[len] := Or(req[len], bit);
        } else {
          req[len] := And(req[len], Not(bit));
        }
        pos, bit, k := pos + 1, bit << 1, k + 1;
      }
      assert Group(bits, i) == bits[from..from + k];
    }

    /** `modbus_write_registers`. */
    method WriteRegisters(server: Server, addr: word, nb: word, src: seq<word>) returns (rc: int)
      requires Separate(server) && server.Valid() && |src| >= nb
      modifies this, req, rsp, server.req, server.rsp, server.tabBits, server.tabRegisters
      ensures server.Valid()
      ensures nb > MAX_WRITE_REGISTERS ==> rc == -1 && errno == EMBMDATA && server.State() == old(server.State())
      ensures nb <= MAX_WRITE_REGISTERS ==>
                var r := Request.WriteRegisters(addr, src[..nb]);
                && server.State() == old(Execute(server.State(), r).0)
                && Reported(r, old(Execute(server.State(), r).1), rc)
    {
      if nb > MAX_WRITE_REGISTERS {
        errno := EMBMDATA;
        return -1;
      }
      ghost var r := Request.WriteRegisters(addr, src[..nb]);
      hide Execute, EncodeAnswer, Coils, AreCells, RegisterBytes;
      var len := BuildBasis(0x10, addr, nb);
      req[len] := B(2 * nb);
      len := len + 1;
      assert req[..6] == Basis(slave, 0x10, addr, nb) && req[..7] == req[..6] + [req[6]];
      len := AppendRegisters(src, nb, len);
      assert server.State() == old(server.State());
      assert req[..len] == EncodeRequest(slave, r) by { hide Basis, B; }
      rc := Transact(server, len, r);
    }

    /** The loop that appends registers to a request. */
    method AppendRegisters(src: seq<word>, nb: nat, from: nat) returns (len: nat)
      requires Valid() && nb <= |src| && from + 2 * nb <= MAX_MESSAGE
      modifies req
      ensures len == from + 2 * nb && req[..len] == old(req[..from]) + RegisterBytes(src[..nb])
    {
      hide Hi, Lo, RegisterBytes;
      NoRegisters();
      len := from;
      var i := 0;
      while i < nb
        invariant 0 <= i <= nb && len == from + 2 * i
        invariant req[..len] == old(req[..from]) + RegisterBytes(src[..i])
      {
        RegisterBytesSnoc(src[..i], src[i]);
        assert src[..i] + [src[i]] == src[..i + 1];
        req[len], req[len + 1] := Hi(src[i]), Lo(src[i]);
        len, i := len + 2, i + 1;
        assert req[..len] == req[..len - 2] + [req[len - 2], req[len - 1]];
      }
    }

    /** `modbus_mask_write_register`. */
    method MaskWrite(server: Server, addr: word, andMask: word, orMask: word) returns (rc: int)
      requires Separate(server) && server.Valid()
      modifies this, req, rsp, server.req, server.rsp, server.tabBits, server.tabRegisters
      ensures server.Valid() && server.State() == old(Execute(server.State(), Request.MaskWrite(addr, andMask, orMask)).0)
      ensures Reported(Request.MaskWrite(addr, andMask, orMask), old(Execute(server.State(), Request.MaskWrite(addr, andMask, orMask)).1), rc)
      ensures MaskStored(old(server.State()), server.State(), addr, andMask, orMask, rc)
      ensures rc == -1 ==> errno == 0x102
    {
      ghost var r, t := Request.MaskWrite(addr, andMask, orMask), server.State();
      hide Execute, EncodeRequest, EncodeAnswer, Coils, AreCells, MaskStored;
      var len := BuildMaskWrite(addr, andMask, orMask);
      assert server.State() == t;
      rc := Transact(server, len, r);
      MaskIsStored(t, addr, andMask, orMask);
    }

    /** The masks replace the count of the basis. */
    method BuildMaskWrite(addr: word, andMask: word, orMask: word) returns (len: nat)
      requires Valid()
      modifies req
      ensures len == 8 && req[..len] == EncodeRequest(slave, Request.MaskWrite(addr, andMask, orMask))
    {
      hide Hi, Lo;
      len := BuildBasis(0x16, addr, 0);
      len := len - 2;
      req[len], req[len + 1], req[len + 2], req[len + 3] := Hi(andMask), Lo(andMask), Hi(orMask), Lo(orMask);
      len := len + 4;
    }

    /** `modbus_write_and_read_registers`, with its write not below the server's table. */
    method WriteAndRead(server: Server, writeAddr: word, writeNb: word, src: seq<word>, addr: word, nb: word, dest: array<word>)
      returns (rc: int)
      requires Separate(server) && server.Valid() && |src| >= writeNb && dest.Length >= nb && Apart(server, dest)
      requires writeAddr >= server.startRegisters
      modifies this, req, rsp, server.req, server.rsp, server.tabBits, server.tabRegisters, dest
      ensures server.Valid()
      ensures writeNb > MAX_WR_WRITE_REGISTERS || nb > MAX_WR_READ_REGISTERS ==>
                rc == -1 && errno == EMBMDATA && server.State() == old(server.State()) && dest[..] == old(dest[..])
      ensures writeNb <= MAX_WR_WRITE_REGISTERS && nb <= MAX_WR_READ_REGISTERS ==>
                var e := old(Execute(server.State(), Request.WriteRead(writeAddr, src[..writeNb], addr, nb)));
                && server.State() == e.0
                && if e.1.Exception? then rc == -1 && errno == ENOBASE + e.1.code && dest[..] == old(dest[..])
                   else e.1.Values? && rc == nb && dest[..] == e.1.values + old(dest[nb..])
    {
      if writeNb > MAX_WR_WRITE_REGISTERS {
        errno := EMBMDATA;
        return -1;
      }
      if nb > MAX_WR_READ_REGISTERS {
        errno := EMBMDATA;
        return -1;
      }
      ghost var r := Request.WriteRead(writeAddr, src[..writeNb], addr, nb);
      ghost var a := Execute(server.State(), r).1;
      hide Execute, EncodeRequest, EncodeAnswer, Transacted, Coils, AreCells, Registers, RegisterBytes;
      var len := BuildWriteRead(r, writeAddr, writeNb, src, addr, nb);
      assert server.State() == old(server.State());
      rc := Transact(server, len, r);
      AnswerInRsp(r, a, rc);
      if rc == -1 {
        return -1;
      }
      label Received:
      TakeRegisters(dest, rc);
      assert server.State() == old@Received(server.State());
    }

    method BuildWriteRead(ghost r: Request, writeAddr: word, writeNb: word, src: seq<word>, addr: word, nb: word) returns (len: nat)
      requires Valid() && |src| >= writeNb && writeNb <= MAX_WR_WRITE_REGISTERS && nb <= MAX_WR_READ_REGISTERS
      requires r == Request.WriteRead(writeAddr, src[..writeNb], addr, nb)
      modifies req
      ensures len == 11 + 2 * writeNb && req[..len] == EncodeRequest(slave, r)
    {
      hide RegisterBytes, Hi, Lo, B;
      len := BuildBasis(0x17, addr, nb);
      req[len], req[len + 1], req[len + 2], req[len + 3] := Hi(writeAddr), Lo(writeAddr), Hi(writeNb), Lo(writeNb);
      req[len + 4] := B(2 * writeNb);
      len := len + 5;
      assert req[..6] == Basis(slave, 0x17, addr, nb);
      assert req[..11] == req[..6] + [req[6], req[7], req[8], req[9], req[10]];
      len := AppendRegisters(src, writeNb, len);
    }
  }

  /**
   What a masked write leaves, bit by bit: the old bit where the AND mask has a one, the OR mask's
   where it has a zero; no other register changes, and none at all for an address outside the table.
   */
  ghost predicate MaskStored(t: Tables, u: Tables, addr: word, andMask: word, orMask: word, rc: int) {
    var i := addr - t.startRegisters;
    if 0 <= i < |t.registers| then
      && rc == 1 && u == t.(registers := u.registers) && |u.registers| == |t.registers|
      && (forall j :: 0 <= j < |t.registers| && j != i ==> u.registers[j] == t.registers[j])
      && forall k :: 0 <= k < 16 ==>
           (Digit(u.registers[i], k) <==> if Digit(andMask, k) then Digit(t.registers[i], k) else Digit(orMask, k))
    else rc == -1 && u == t
  }

  lemma MaskIsStored(t: Tables, addr: word, andMask: word, orMask: word)
    ensures var r := Request.MaskWrite(addr, andMask, orMask);
            var (u, a) := Execute(t, r);
            MaskStored(t, u, addr, andMask, orMask, if a.Exception? then -1 else Counted(r))
    ensures Execute(t, Request.MaskWrite(addr, andMask, orMask)).1.Exception? ==>
              Execute(t, Request.MaskWrite(addr, andMask, orMask)).1.code == 2
  {
    hide Masked, Digit;
    ModbusMeaning.MaskWriteMeaning(t, addr, andMask, orMask);
  }

  lemma ShlStep(k: nat)
    requires k < 8
    ensures Shl(1, k) << 1 == if k < 7 then Shl(1, k + 1) else 0
  {
    ShlOnes();
    hide Shl;
  }

  function Not(b: byte): byte { !b }

  /** Setting or clearing bit k of a byte that has the bits below it. */
  lemma PutBit(bits: seq<bool>, at: nat, k: nat)
    requires k < 8 && at + k < |bits|
    ensures ByteOf(bits[at..at + k + 1]) ==
            if bits[at + k] then Or(ByteOf(bits[at..at + k]), Shl(1, k)) else And(ByteOf(bits[at..at + k]), Not(Shl(1, k)))
  {
    var below := bits[at..at + k];
    assert bits[at..at + k + 1][..k] == below;
    BitsOfByte(below, k);
    ShlZero(k);
    RawClear(ByteOf(below), Shl(1, k));
    hide And, Or, Shl, Not;
  }

  lemma RawClear(b: byte, m: byte)
    ensures And(b, m) == 0 ==> And(b, Not(m)) == b
    ensures Or(b, 0) == b
  {
  }

  /** Only the head of the request matters to the verdict. */
  lemma ConfirmHead(q: seq<byte>, p: seq<byte>)
    requires |q| >= 6 && |p| >= 5
    ensures Confirm(q[..6], p) == Confirm(q, p)
  {
    hide Verdict, Word;
    assert q[..6][4] == q[4] && q[..6][5] == q[5];
  }

  /** A request frame is taken, and served as a direct operation. */
  lemma RequestArrives(t: Tables, version: seq<byte>, slave: byte, r: Request)
    requires Sendable(r) && |version| <= 100 && !StoresBelowTable(t, r)
    ensures var frame := Frame(EncodeRequest(slave, r));
            && 0 < |frame| <= MAX_ADU && frame[0] == slave
            && Matches(r, Execute(t, r).1)
            && Taken(slave, t, version, frame) == Reply(Execute(t, r).0, EncodeAnswer(slave, r, Execute(t, r).1))
  {
    hide EncodeRequest, EncodeAnswer, Execute, Accepted, Serve, Matches, StoresBelowTable;
    RequestFits(slave, r);
    ExecuteMatches(t, r);
    ServerIsFaithful(t, version, slave, r);
    FrameIsAccepted(slave, EncodeRequest(slave, r), Indication);
    FrameFields(EncodeRequest(slave, r));
    assert Frame(EncodeRequest(slave, r))[..|EncodeRequest(slave, r)|] == EncodeRequest(slave, r);
  }

  lemma ExceptionCodes(t: Tables, r: Request)
    ensures Execute(t, r).1.Exception? ==> Execute(t, r).1.code < EXCEPTION_MAX
  {
  }
}
