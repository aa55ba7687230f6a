/** The server node: `modbus_reply` over its buffers and tables, in place. */
module ModbusServer {
  import opened Bytes
  import opened ModbusData
  import opened ModbusProtocol
  import opened ModbusServe
  import opened ModbusWire
  import opened FrameErrors
  import Crc16
  import CrcEngines
  import Words16

  /** What a table of bit cells says. */
  function Coils(cells: seq<byte>): (bits: seq<bool>)
    ensures |bits| == |cells|
  {
    seq(|cells|, i requires 0 <= i < |cells| => cells[i] != 0)
  }

  predicate AreCells(cells: seq<byte>) {
    forall i :: 0 <= i < |cells| ==> cells[i] == 0 || cells[i] == 1
  }

  /** The first bytes of a packing, and the byte that is being filled. */
  function Packed(bits: seq<bool>, full: nat): (b: seq<byte>)
    requires full <= ByteCount(|bits|)
    ensures |b| == full
  {
    Pack(bits)[..full]
  }

  function Filling(bits: seq<bool>, full: nat, shift: nat): byte
    requires 8 * full + shift <= |bits|
  {
    ByteOf(bits[8 * full..8 * full + shift])
  }

  lemma FillingStarts(bits: seq<bool>, full: nat)
    requires 8 * full <= |bits|
    ensures Filling(bits, full, 0) == 0
  {
    assert bits[8 * full..8 * full] == [];
  }

  lemma FillingGrows(bits: seq<bool>, full: nat, shift: nat, cell: byte)
    requires 8 * full + shift < |bits| && (cell == 0 || cell == 1) && (cell != 0) == bits[8 * full + shift]
    ensures Filling(bits, full, shift + 1) == Or(Filling(bits, full, shift), Shl(cell, shift))
  {
    hide Or, Shl, ByteOf;
    AppendBit(bits, 8 * full, shift, cell);
  }

  /** A byte is finished when it has eight bits, or the bits end. */
  lemma PackedGrows(bits: seq<bool>, full: nat, shift: nat)
    requires 0 < shift <= 8 && 8 * full + shift <= |bits| && (shift == 8 || 8 * full + shift == |bits|)
    ensures full + 1 <= ByteCount(|bits|)
    ensures Packed(bits, full + 1) == Packed(bits, full) + [Filling(bits, full, shift)]
  {
    hide ByteOf;
    assert Group(bits, full) == bits[8 * full..8 * full + shift];
  }

  lemma PackedAll(bits: seq<bool>)
    ensures Packed(bits, ByteCount(|bits|)) == Pack(bits) && Packed(bits, 0) == []
  {
    hide Pack;
  }

  lemma CellAt(cells: seq<byte>, a: nat, n: nat, k: nat)
    requires a + n <= |cells| && k < n && AreCells(cells)
    ensures (cells[a + k] == 0 || cells[a + k] == 1) && (cells[a + k] != 0) == Coils(cells)[a..a + n][k]
  {
  }

  /** `response_io_status`: cells become bits, eight to a byte, lowest first. */
  method ResponseIoStatus(tab: array<byte>, address: nat, nb: nat, rsp: array<byte>, offset: nat) returns (end: nat)
    requires address + nb <= tab.Length && AreCells(tab[..]) && tab != rsp
    requires offset + ByteCount(nb) <= rsp.Length
    modifies rsp
    ensures end == offset + ByteCount(nb)
    ensures rsp[..end] == old(rsp[..offset]) + Pack(Coils(tab[..])[address..address + nb])
  {
    hide Or, Shl, Packed, Filling, Coils, AreCells, Pack;
    ghost var bits := Coils(tab[..])[address..address + nb];
    ghost var full := 0;
    var shift := 0;
    var oneByte: byte := 0;
    end := offset;
    FillingStarts(bits, 0);
    PackedAll(bits);
    var i := address;
    while i < address + nb
      invariant address <= i <= address + nb && 0 <= shift < 8 && 0 <= full
      invariant 8 * full + shift == i - address && end == offset + full <= rsp.Length && full <= ByteCount(nb)
      invariant rsp[..end] == old(rsp[..offset]) + Packed(bits, full)
      invariant oneByte == Filling(bits, full, shift)
    {
      CellAt(tab[..], address, nb, i - address);
      FillingGrows(bits, full, shift, tab[i]);
      oneByte := Or(oneByte, Shl(tab[i], shift));
      if shift == 7 {
        PackedGrows(bits, full, 8);
        FillingStarts(bits, full + 1);
        rsp[end] := oneByte;
        assert rsp[..end + 1] == rsp[..end] + [oneByte];
        end, oneByte, shift, full := end + 1, 0, 0, full + 1;
      } else {
        shift := shift + 1;
      }
      i := i + 1;
    }
    if shift != 0 {
      PackedGrows(bits, full, shift);
      rsp[end] := oneByte;
      assert rsp[..end + 1] == rsp[..end] + [oneByte];
      end, full := end + 1, full + 1;
    }
    assert full == ByteCount(nb);
  }

  lemma ByteOfNothing()
    ensures ByteOf([]) == 0
  {
  }

  lemma AppendBit(bits: seq<bool>, at: nat, n: nat, cell: byte)
    requires at + n < |bits| && (cell == 0 || cell == 1) && (cell != 0) == bits[at + n]
    ensures ByteOf(bits[at..at + n + 1]) == Or(ByteOf(bits[at..at + n]), Shl(cell, n))
  {
    hide Or, Shl;
    CellOf(cell);
    assert bits[at..at + n + 1][..n] == bits[at..at + n];
  }

  lemma CellOf(c: byte)
    ensures c == 0 || c == 1 ==> Cell(c != 0) == c
  {
  }

  lemma UnpackAt(bytes: seq<byte>, nb: nat, k: nat, shift: nat)
    requires nb <= 8 * |bytes| && k < nb && shift == k % 8
    ensures k / 8 < |bytes| && Unpack(bytes, nb)[k] == (And(bytes[k / 8], Shl(1, shift)) != 0)
    ensures (shift + 1) % 8 == (k + 1) % 8
  {
    hide And, Shl;
  }

  /** Cells written one by one are the table with the bits in place of what was there. */
  lemma CellsSpliced(before: seq<byte>, after: seq<byte>, idx: nat, bits: seq<bool>)
    requires idx + |bits| <= |before| == |after| && AreCells(before)
    requires forall k :: 0 <= k < |before| && !(idx <= k < idx + |bits|) ==> after[k] == before[k]
    requires forall k :: idx <= k < idx + |bits| ==> after[k] == Cell(bits[k - idx])
    ensures AreCells(after) && Coils(after) == Spliced(Coils(before), idx, bits)
  {
  }

  /** `modbus_set_bits_from_bytes`. */
  method SetBitsFromBytes(dest: array<byte>, idx: nat, nb: nat, bytes: seq<byte>)
    requires idx + nb <= dest.Length && nb <= 8 * |bytes| && AreCells(dest[..])
    modifies dest
    ensures AreCells(dest[..])
    ensures Coils(dest[..]) == Spliced(Coils(old(dest[..])), idx, Unpack(bytes, nb))
  {
    hide And, Shl, Unpack, Coils, AreCells, Spliced;
    ghost var bits := Unpack(bytes, nb);
    var i, shift := idx, 0;
    while i < idx + nb
      invariant idx <= i <= idx + nb && shift == (i - idx) % 8
      invariant forall k :: 0 <= k < dest.Length && !(idx <= k < i) ==> dest[k] == old(dest[k])
      invariant forall k :: idx <= k < i ==> dest[k] == Cell(bits[k - idx])
    {
      UnpackAt(bytes, nb, i - idx, shift);
      dest[i] := if And(bytes[(i - idx) / 8], Shl(1, shift)) != 0 then 1 else 0;
      shift := (shift + 1) % 8;
      i := i + 1;
    }
    CellsSpliced(old(dest[..]), dest[..], idx, bits);
  }

  /** `_modbus_rtu_send_msg_pre` and the send: the message with its CRC. */
  method SendMsg(msg: array<byte>, n: nat) returns (sent: seq<byte>)
    requires n + CHECKSUM <= msg.Length
    modifies msg
    ensures sent == Frame(old(msg[..n])) && msg[..n + CHECKSUM] == sent
  {
    hide Words16.Join;
    var hi, lo := CrcEngines.RtuCrc16(msg[..n]);
    msg[n], msg[n + 1] := hi, lo;
    sent := msg[..n + 2];
    hide CrcEngines.WireCrc;
    assert sent == old(msg[..n]) + [hi, lo];
  }

  /** `_modbus_rtu_check_integrity`. */
  method CheckMsg(slave: int, msg: array<byte>, n: nat) returns (rc: int)
    requires 2 <= n <= msg.Length
    ensures rc == CheckIntegrity(slave, msg[..n])
  {
    hide CrcEngines.WireCrc, Words16.Join, CheckIntegrity;
    ghost var m := msg[..n];
    var hi, lo := CrcEngines.RtuCrc16(msg[..n - 2]);
    assert m[..n - 2] == msg[..n - 2] && m[n - 2] == msg[n - 2] && m[n - 1] == msg[n - 1] && m[0] == msg[0];
    IntegrityByBytes(slave, m, hi, lo);
    if msg[0] as int != slave && msg[0] != 0 {
      return 0;
    }
    rc := if hi == msg[n - 2] && lo == msg[n - 1] then n else -1;
  }

  lemma IntegrityByBytes(slave: int, m: seq<byte>, hi: byte, lo: byte)
    requires |m| >= 2 && [hi, lo] == CrcEngines.WireCrc(m[..|m| - 2])
    ensures CheckIntegrity(slave, m) ==
            if m[0] as int != slave && m[0] != 0 then 0 else if hi == m[|m| - 2] && lo == m[|m| - 1] then |m| else -1
  {
    hide CrcEngines.WireCrc;
    assert m[|m| - 2..] == [m[|m| - 2], m[|m| - 1]];
    assert [hi, lo][0] == hi && [hi, lo][1] == lo;
  }

  /** `_modbus_receive_msg`, once rc bytes have been received into the buffer. */
  method ReceiveMsg(slave: int, msg: array<byte>, rc: int, d: Direction) returns (n: int)
    requires msg.Length == MAX_MESSAGE && rc <= MAX_ADU
    ensures n == Receive(slave, msg[..], rc, d)
  {
    hide CheckIntegrity, MetaLength, CountAt;
    CountInBuffer(msg[1] as int, d);
    var fc := msg[1] as int;
    var length := (if CountAt(fc, d) < 0 then 0 else msg[CountAt(fc, d)] as int) + CHECKSUM;
    var lengthToRead := 1 + 1 + MetaLength(fc, d) + length;
    if rc <= 0 || rc != lengthToRead {
      return -1;
    }
    assert msg[..][..rc] == msg[..rc];
    n := CheckMsg(slave, msg, rc);
  }

  lemma CountInBuffer(fc: int, d: Direction)
    ensures CountAt(fc, d) <= 10
    ensures fc >= 0 ==> MetaLength(fc, d) >= 0
  {
  }

  /** What becomes of a frame: one that is not accepted is passed over in silence. */
  function Taken(slave: byte, t: Tables, version: seq<byte>, frame: seq<byte>): Served
    requires |version| <= 100
  {
    if Accepted(slave as int, frame, Indication) then Serve(t, version, frame[..|frame| - 2]) else Silent
  }

  /** A frame for another slave, or with a wrong CRC, is not taken. */
  lemma NotTaken(slave: byte, t: Tables, version: seq<byte>, frame: seq<byte>)
    requires |version| <= 100
    ensures frame == [] || (frame[0] != slave && frame[0] != 0) || Crc16.Crc(0xFFFF, frame) != 0 ==>
              Taken(slave, t, version, frame) == Silent
  {
    hide Serve, Complete, Frame, Crc16.Crc;
    AcceptedIff(slave as int, frame, Indication);
    if frame != [] && frame[0] as int == slave as int {
      SameNumber(frame[0], slave);
    }
  }

  class Server {
    const slave: byte
    /** The library version, as report-slave-id quotes it. */
    const version: seq<byte>
    const req: array<byte>
    const rsp: array<byte>
    const startBits: nat
    const tabBits: array<byte>
    const startInputBits: nat
    const tabInputBits: array<byte>
    const startRegisters: nat
    const tabRegisters: array<word>
    const startInputRegisters: nat
    const tabInputRegisters: array<word>

    ghost predicate Valid()
      reads tabBits, tabInputBits
    {
      && |version| <= 100
      && req.Length == rsp.Length == MAX_MESSAGE
      && req != rsp && req != tabBits && req != tabInputBits && rsp != tabBits && rsp != tabInputBits
      && tabBits != tabInputBits && tabRegisters != tabInputRegisters
      && (rsp as object) != tabRegisters && (rsp as object) != tabInputRegisters
      && (tabBits as object) != tabRegisters && (tabBits as object) != tabInputRegisters
      && (tabInputBits as object) != tabRegisters
      && (req as object) != tabRegisters && (req as object) != tabInputRegisters
      && AreCells(tabBits[..]) && AreCells(tabInputBits[..])
    }

    ghost function State(): Tables
      reads tabBits, tabInputBits, tabRegisters, tabInputRegisters
    {
      Tables.Tables(startBits, Coils(tabBits[..]), startInputBits, Coils(tabInputBits[..]),
                    startRegisters, tabRegisters[..], startInputRegisters, tabInputRegisters[..])
    }

    constructor (slave: byte, version: seq<byte>, starts: (nat, nat, nat, nat), nbBits: nat, nbInputBits: nat,
                 nbRegisters: nat, nbInputRegisters: nat)
      requires |version| <= 100
      ensures Valid() && this.slave == slave && this.version == version
      ensures State() == Tables.Tables(
                            starts.0, seq(nbBits, _ => false), starts.1, seq(nbInputBits, _ => false),
                            starts.2, seq(nbRegisters, _ => 0), starts.3, seq(nbInputRegisters, _ => 0))
    {
      this.slave, this.version := slave, version;
      req, rsp := new byte[MAX_MESSAGE](_ => 0), new byte[MAX_MESSAGE](_ => 0);
      startBits, startInputBits, startRegisters, startInputRegisters := starts.0, starts.1, starts.2, starts.3;
      tabBits, tabInputBits := new byte[nbBits](_ => 0), new byte[nbInputBits](_ => 0);
      tabRegisters, tabInputRegisters := new word[nbRegisters](_ => 0), new word[nbInputRegisters](_ => 0);
    }

    /** The server after a reply: its tables, and the body at the head of `rsp`. */
    ghost predicate Did(s: Served, len: nat)
      reads this, tabBits, tabInputBits, tabRegisters, tabInputRegisters, rsp
    {
      Valid() && s.Reply? && State() == s.tables && len <= rsp.Length && rsp[..len] == s.body
    }

    /** `response_exception`. */
    method ResponseException(fc: byte, code: nat) returns (len: nat)
      requires req.Length == rsp.Length == MAX_MESSAGE && rsp != req && code < 256
      modifies rsp
      ensures len == 3 && rsp[..3] == [req[0], ExceptionCode(fc), B(code)]
    {
      hide B, ExceptionCode;
      rsp[0], rsp[1], rsp[2] := req[0], ExceptionCode(fc), B(code);
      len := 3;
    }

    /** Nothing but the message buffers has changed. */
    twostate lemma Untouched()
      requires old(Valid())
      requires unchanged(tabBits) && unchanged(tabInputBits) && unchanged(tabRegisters) && unchanged(tabInputRegisters)
      ensures Valid() && State() == old(State())
    {
      assert tabBits[..] == old(tabBits[..]) && tabInputBits[..] == old(tabInputBits[..]);
      assert tabRegisters[..] == old(tabRegisters[..]) && tabInputRegisters[..] == old(tabInputRegisters[..]);
    }

    /** The body of the cases that read bits, from one of the two tables. */
    method ReplyBits(start: nat, tab: array<byte>) returns (len: nat)
      requires req.Length == rsp.Length == MAX_MESSAGE && rsp != req && rsp != tab && AreCells(tab[..])
      modifies rsp
      ensures len <= rsp.Length && rsp[..len] == BitsReply(start, Coils(tab[..]), req[..6])
    {
      hide B, Word, At, Pack, AreCells, ExceptionCode, Coils;
      HeadWords(req[..], 6);
      assert req[..][..6] == req[..6];
      var nb := Word(req[4], req[5]);
      var m := Word(req[2], req[3]) - start;
      if nb < 1 || MAX_READ_BITS < nb {
        len := ResponseException(req[1], ILLEGAL_DATA_VALUE);
      } else if m < 0 || m + nb > tab.Length {
        len := ResponseException(req[1], ILLEGAL_DATA_ADDRESS);
      } else {
        len := PutBits(tab, m, nb);
      }
    }

    /** The head of a reply with bits, and the bits. */
    method PutBits(tab: array<byte>, m: nat, nb: nat) returns (len: nat)
      requires req.Length == rsp.Length == MAX_MESSAGE && rsp != req && rsp != tab && AreCells(tab[..])
      requires m + nb <= tab.Length && nb <= MAX_READ_BITS
      modifies rsp
      ensures len <= rsp.Length && rsp[..len] == [req[0], req[1], B(ByteCount(nb))] + Pack(Coils(tab[..])[m..m + nb])
    {
      hide B, Pack, AreCells, Coils;
      var count := nb / 8 + (if nb % 8 != 0 then 1 else 0);
      ByteCountAsWritten(nb);
      rsp[0], rsp[1], rsp[2] := req[0], req[1], B(count);
      len := ResponseIoStatus(tab, m, nb, rsp, 3);
    }

    method ReplyReadBits() returns (len: nat)
      requires Valid()
      modifies rsp
      ensures Did(ServeReadBits(old(State()), req[..6]), len)
    {
      hide Coils, AreCells, BitsReply;
      if req[1] == 0x02 {
        len := ReplyBits(startInputBits, tabInputBits);
      } else {
        len := ReplyBits(startBits, tabBits);
      }
      Untouched();
    }

    /** The body of the cases that read registers. */
    method ReplyRegisters(start: nat, tab: array<word>) returns (len: nat)
      requires req.Length == rsp.Length == MAX_MESSAGE && rsp != req && (rsp as object) != tab
      modifies rsp
      ensures len <= rsp.Length && rsp[..len] == RegistersReply(start, tab[..], req[..6])
    {
      hide B, Word, At, RegisterBytes, ExceptionCode;
      HeadWords(req[..], 6);
      assert req[..][..6] == req[..6];
      var nb := Word(req[4], req[5]);
      var m := Word(req[2], req[3]) - start;
      if nb < 1 || MAX_READ_REGISTERS < nb {
        len := ResponseException(req[1], ILLEGAL_DATA_VALUE);
      } else if m < 0 || m + nb > tab.Length {
        len := ResponseException(req[1], ILLEGAL_DATA_ADDRESS);
      } else {
        len := PutHeadAndRegisters(tab, m, nb);
      }
    }

    /** The head of a reply with registers, and the registers. */
    method PutHeadAndRegisters(tab: array<word>, m: nat, nb: nat) returns (len: nat)
      requires req.Length == rsp.Length == MAX_MESSAGE && rsp != req && (rsp as object) != tab
      requires m + nb <= tab.Length && nb <= MAX_READ_REGISTERS
      modifies rsp
      ensures len <= rsp.Length && rsp[..len] == [req[0], req[1], B(2 * nb)] + RegisterBytes(tab[..][m..m + nb])
    {
      hide B, RegisterBytes;
      rsp[0], rsp[1], rsp[2] := req[0], req[1], B(2 * nb);
      len := PutRegisters(tab, m, nb);
      assert tab[..][m..m + nb] == tab[m..m + nb];
    }

    method ReplyReadRegisters() returns (len: nat)
      requires Valid()
      modifies rsp
      ensures Did(ServeReadRegisters(old(State()), req[..6]), len)
    {
      hide Coils, AreCells, RegistersReply;
      if req[1] == 0x04 {
        len := ReplyRegisters(startInputRegisters, tabInputRegisters);
      } else {
        len := ReplyRegisters(startRegisters, tabRegisters);
      }
      Untouched();
    }

    /** The loop that appends registers to a reply. */
    method PutRegisters(tab: array<word>, m: nat, nb: nat) returns (len: nat)
      requires rsp.Length == MAX_MESSAGE && m + nb <= tab.Length && 3 + 2 * nb <= MAX_MESSAGE && (rsp as object) != tab
      modifies rsp
      ensures len == 3 + 2 * nb && rsp[..len] == old(rsp[..3]) + RegisterBytes(tab[m..m + nb])
    {
      hide Hi, Lo, RegisterBytes;
      len := 3;
      var i := m;
      NoRegisters();
      while i < m + nb
        invariant m <= i <= m + nb && len == 3 + 2 * (i - m)
        invariant rsp[..len] == old(rsp[..3]) + RegisterBytes(tab[m..i])
      {
        RegisterBytesSnoc(tab[m..i], tab[i]);
        assert tab[m..i] + [tab[i]] == tab[m..i + 1];
        rsp[len] := Hi(tab[i]);
        rsp[len + 1] := Lo(tab[i]);
        len, i := len + 2, i + 1;
        assert rsp[..len] == rsp[..len - 2] + [rsp[len - 2], rsp[len - 1]];
      }
    }

    /** The tables after a change to one of them. */
    twostate lemma BitsChanged(bits: seq<bool>)
      requires old(Valid())
      requires unchanged(tabInputBits) && unchanged(tabRegisters) && unchanged(tabInputRegisters)
      requires AreCells(tabBits[..]) && Coils(tabBits[..]) == bits
      ensures Valid() && State() == old(State()).(bits := bits)
    {
      assert tabInputBits[..] == old(tabInputBits[..]);
      assert tabRegisters[..] == old(tabRegisters[..]) && tabInputRegisters[..] == old(tabInputRegisters[..]);
    }

    twostate lemma RegistersChanged(registers: seq<word>)
      requires old(Valid())
      requires unchanged(tabBits) && unchanged(tabInputBits) && unchanged(tabInputRegisters)
      requires tabRegisters[..] == registers
      ensures Valid() && State() == old(State()).(registers := registers)
    {
      assert tabBits[..] == old(tabBits[..]) && tabInputBits[..] == old(tabInputBits[..]);
      assert tabInputRegisters[..] == old(tabInputRegisters[..]);
    }

    /** The reply that repeats the head of the request. */
    method Echo(n: nat) returns (len: nat)
      requires req.Length == rsp.Length == MAX_MESSAGE && rsp != req && n <= MAX_MESSAGE
      modifies rsp
      ensures len == n && rsp[..len] == req[..n]
    {
      Put(rsp, 0, req[..n]);
      assert rsp[..n] == rsp[0..0 + n];
      len := n;
    }

    method ReplyWriteBit() returns (len: nat)
      requires Valid()
      modifies rsp, tabBits
      ensures Did(ServeWriteBit(old(State()), req[..6]), len)
    {
      hide B, Word, At, ExceptionCode, Coils, AreCells;
      HeadWords(req[..], 6);
      assert req[..][..6] == req[..6];
      var m := Word(req[2], req[3]) - startBits;
      if m < 0 || m >= tabBits.Length {
        len := ResponseException(req[1], ILLEGAL_DATA_ADDRESS);
        Untouched();
      } else {
        var data := Word(req[4], req[5]);
        if data == 0xFF00 || data == 0x0 {
          OneCoil(tabBits[..], m, data != 0);
          tabBits[m] := if data != 0 then 1 else 0;
          len := Echo(6);
          BitsChanged(Coils(old(tabBits[..]))[m := data != 0]);
        } else {
          len := ResponseException(req[1], ILLEGAL_DATA_VALUE);
          Untouched();
        }
      }
    }

    method ReplyWriteRegister() returns (len: nat)
      requires Valid()
      modifies rsp, tabRegisters
      ensures Did(ServeWriteRegister(old(State()), req[..6]), len)
    {
      hide B, Word, At, ExceptionCode, Coils, AreCells;
      HeadWords(req[..], 6);
      assert req[..][..6] == req[..6];
      var m := Word(req[2], req[3]) - startRegisters;
      if m < 0 || m >= tabRegisters.Length {
        len := ResponseException(req[1], ILLEGAL_DATA_ADDRESS);
        Untouched();
      } else {
        var data := Word(req[4], req[5]);
        tabRegisters[m] := data;
        len := Echo(6);
        RegistersChanged(old(tabRegisters[..])[m := data]);
      }
    }

    /** A refusal: the tables stay as they are. */
    method RefuseRequest(n: nat, code: nat) returns (len: nat)
      requires Valid() && 2 <= n <= MAX_MESSAGE && code < 256
      modifies rsp
      ensures Did(Refuse(old(State()), req[..n], code), len)
    {
      hide B, ExceptionCode, State;
      len := ResponseException(req[1], code);
      Untouched();
    }

    method StoreBits(m: nat, nb: nat, n: nat) returns (len: nat)
      requires Valid() && 7 <= n <= MAX_ADU && m + nb <= tabBits.Length && nb <= 8 * (n - 7)
      modifies rsp, tabBits
      ensures var t := old(State());
              Did(Reply(t.(bits := Spliced(t.bits, m, Unpack(req[7..n], nb))), req[..6]), len)
    {
      hide Coils, AreCells, Unpack, Spliced;
      SetBitsFromBytes(tabBits, m, nb, req[7..n]);
      len := Echo(6);
      BitsChanged(Spliced(Coils(old(tabBits[..])), m, Unpack(req[7..n], nb)));
    }

    method ReplyWriteBits(n: nat) returns (len: nat)
      requires Valid() && 7 <= n <= MAX_ADU && n == 7 + req[6] as int
      modifies rsp, tabBits
      ensures Did(ServeWriteBits(old(State()), req[..n]), len)
    {
      hide B, Word, At, Coils, AreCells, Unpack, Spliced, Did, Refuse;
      HeadWords(req[..], n);
      assert req[..][..n] == req[..n] && req[..n][..6] == req[..6];
      var nb := Word(req[4], req[5]);
      var nbBits := req[6] as int;
      var m := Word(req[2], req[3]) - startBits;
      if nb < 1 || MAX_WRITE_BITS < nb || nbBits * 8 < nb {
        len := RefuseRequest(n, ILLEGAL_DATA_VALUE);
      } else if m < 0 || m + nb > tabBits.Length {
        len := RefuseRequest(n, ILLEGAL_DATA_ADDRESS);
      } else {
        len := StoreBits(m, nb, n);
      }
    }

    /** The loop that stores the registers of a request, from byte `from` on. */
    method StoreRegisters(m: nat, nb: nat, from: nat)
      requires Valid() && m + nb <= tabRegisters.Length && from + 2 * nb <= MAX_MESSAGE
      modifies tabRegisters
      ensures tabRegisters[..] == Spliced(old(tabRegisters[..]), m, Registers(req[from..from + 2 * nb]))
    {
      hide Word, Coils, AreCells;
      var i, j := m, from;
      while i < m + nb
        invariant m <= i <= m + nb && j == from + 2 * (i - m)
        invariant forall k :: 0 <= k < tabRegisters.Length && !(m <= k < i) ==> tabRegisters[k] == old(tabRegisters[k])
        invariant forall k :: m <= k < i ==> tabRegisters[k] == Word(req[from + 2 * (k - m)], req[from + 2 * (k - m) + 1])
      {
        tabRegisters[i] := Word(req[j], req[j + 1]);
        i, j := i + 1, j + 2;
      }
    }

    method StoreAndEcho(m: nat, nb: nat, n: nat) returns (len: nat)
      requires Valid() && n == 7 + 2 * nb <= MAX_ADU && m + nb <= tabRegisters.Length
      modifies rsp, tabRegisters
      ensures var t := old(State());
              Did(Reply(t.(registers := Spliced(t.registers, m, Registers(req[7..n]))), req[..6]), len)
    {
      hide Coils, AreCells, Registers, Spliced;
      StoreRegisters(m, nb, 7);
      len := Echo(6);
      RegistersChanged(Spliced(old(tabRegisters[..]), m, Registers(req[7..n])));
    }

    method ReplyWriteRegisters(n: nat) returns (len: nat)
      requires Valid() && 7 <= n <= MAX_ADU && n == 7 + req[6] as int
      modifies rsp, tabRegisters
      ensures Did(ServeWriteRegisters(old(State()), req[..n]), len)
    {
      hide B, Word, At, Coils, AreCells, Registers, Spliced, Did, Refuse, ServeWriteRegisters;
      HeadWords(req[..], n);
      assert req[..][..n] == req[..n] && req[..n][..6] == req[..6];
      var nb := Word(req[4], req[5]);
      var nbBytes := req[6] as int;
      var m := Word(req[2], req[3]) - startRegisters;
      ServeWriteRegistersCases(State(), req[..n], nb, m);
      if nb < 1 || MAX_WRITE_REGISTERS < nb || nbBytes != nb * 2 {
        len := RefuseRequest(n, ILLEGAL_DATA_VALUE);
      } else if m < 0 || m + nb > tabRegisters.Length {
        len := RefuseRequest(n, ILLEGAL_DATA_ADDRESS);
      } else {
        len := StoreAndEcho(m, nb, n);
      }
    }

    method ReplyMaskWrite() returns (len: nat)
      requires Valid()
      modifies rsp, tabRegisters
      ensures Did(ServeMaskWrite(old(State()), req[..8]), len)
    {
      hide B, Word, ExceptionCode, Coils, AreCells, Masked;
      var m := Word(req[2], req[3]) - startRegisters;
      if m < 0 || m >= tabRegisters.Length {
        len := ResponseException(req[1], ILLEGAL_DATA_ADDRESS);
        Untouched();
      } else {
        var data := tabRegisters[m];
        var andMask, orMask := Word(req[4], req[5]), Word(req[6], req[7]);
        tabRegisters[m] := Masked(data, andMask, orMask);
        len := Echo(8);
        RegistersChanged(old(tabRegisters[..])[m := Masked(data, andMask, orMask)]);
      }
    }

    method StoreAndRead(mWrite: nat, nbWrite: nat, m: nat, nb: nat, n: nat) returns (len: nat)
      requires Valid() && n == 11 + 2 * nbWrite <= MAX_ADU && mWrite + nbWrite <= tabRegisters.Length
      requires m + nb <= tabRegisters.Length && nb <= MAX_READ_REGISTERS
      modifies rsp, tabRegisters
      ensures var t := old(State());
              var written := Spliced(t.registers, mWrite, Registers(req[11..n]));
              Did(Reply(t.(registers := written), [req[0], req[1], B(2 * nb)] + RegisterBytes(written[m..m + nb])), len)
    {
      hide B, Coils, AreCells, Registers, RegisterBytes, Spliced;
      rsp[0], rsp[1], rsp[2] := req[0], req[1], B(2 * nb);
      StoreRegisters(mWrite, nbWrite, 11);
      len := PutRegisters(tabRegisters, m, nb);
      assert tabRegisters[..][m..m + nb] == tabRegisters[m..m + nb];
      RegistersChanged(Spliced(old(tabRegisters[..]), mWrite, Registers(req[11..n])));
    }

    /** Writes first, then reads. A write address below the table is the caller's to exclude. */
    method ReplyWriteRead(n: nat) returns (len: nat)
      requires Valid() && 11 <= n <= MAX_ADU && n == 11 + req[10] as int
      requires !ServeWriteRead(State(), req[..n]).Fault?
      modifies rsp, tabRegisters
      ensures Did(ServeWriteRead(old(State()), req[..n]), len)
    {
      hide B, Word, Coils, AreCells, Registers, RegisterBytes, Spliced, Did, Refuse;
      ghost var q := req[..n];
      assert q[11..] == req[11..n];
      var nb, nbWrite, nbWriteBytes := Word(req[4], req[5]), Word(req[8], req[9]), req[10] as int;
      var m, mWrite := Word(req[2], req[3]) - startRegisters, Word(req[6], req[7]) - startRegisters;
      if nbWrite < 1 || MAX_WR_WRITE_REGISTERS < nbWrite || nb < 1 || MAX_WR_READ_REGISTERS < nb || nbWriteBytes != nbWrite * 2 {
        len := RefuseRequest(n, ILLEGAL_DATA_VALUE);
      } else if m < 0 || m + nb > tabRegisters.Length || m < 0 || mWrite + nbWrite > tabRegisters.Length {
        len := RefuseRequest(n, ILLEGAL_DATA_ADDRESS);
      } else {
        len := StoreAndRead(mWrite, nbWrite, m, nb, n);
      }
    }

    method ReplyReportId(n: nat) returns (len: nat)
      requires Valid() && 2 <= n <= MAX_ADU
      modifies rsp
      ensures Did(ServeReportId(old(State()), version, req[..n]), len)
    {
      hide State;
      len := PutReportId();
      Untouched();
    }

    method PutReportId() returns (len: nat)
      requires req.Length == rsp.Length == MAX_MESSAGE && rsp != req && |version| <= 100
      modifies rsp
      ensures len <= rsp.Length
      ensures rsp[..len] == [req[0], req[1], B(5 + |version|)] + ([180, 0xFF, 0x4C, 0x4D, 0x42] + version)
    {
      hide B;
      rsp[0], rsp[1] := req[0], req[1];
      var bytePos := 2;
      rsp[3], rsp[4] := 180, 0xFF;
      Put(rsp, 5, [0x4C, 0x4D, 0x42] + version);
      len := 5 + 3 + |version|;
      rsp[bytePos] := B(len - bytePos - 1);
    }

    /** What `modbus_reply` has done, and sent, for a request. */
    ghost predicate Replied(s: Served, t: Tables, sent: seq<byte>, broadcast: bool)
      reads this, tabBits, tabInputBits, tabRegisters, tabInputRegisters
    {
      && Valid()
      && match s
         case Reply(tables, body) => State() == tables && sent == if broadcast then [] else Frame(body)
         case Silent => State() == t && sent == []
         case Fault => false
    }

    /** The case distinction of `modbus_reply`. */
    method Dispatch(n: nat) returns (len: int)
      requires Valid() && 2 <= n <= MAX_ADU - CHECKSUM && Complete(req[..n], Indication)
      requires !Serve(State(), version, req[..n]).Fault?
      modifies rsp, tabBits, tabRegisters
      ensures var s := Serve(old(State()), version, req[..n]);
              if s.Silent? then len == -1 && Valid() && State() == old(State())
              else s.Reply? && 0 <= len && Did(s, len)
    {
      hide ServeReadBits, ServeReadRegisters, ServeWriteBit, ServeWriteRegister, ServeWriteBits, ServeWriteRegisters;
      hide ServeMaskWrite, ServeWriteRead, ServeReportId, Refuse, State, AreCells;
      var fc := req[1];
      CompleteLength(req[..n]);
      if fc == 0x01 || fc == 0x02 {
        len := ReplyReadBits();
      } else if fc == 0x03 || fc == 0x04 {
        len := ReplyReadRegisters();
      } else if fc == 0x05 {
        len := ReplyWriteBit();
      } else if fc == 0x06 {
        len := ReplyWriteRegister();
      } else if fc == 0x0F {
        len := ReplyWriteBits(n);
      } else if fc == 0x10 {
        len := ReplyWriteRegisters(n);
      } else if fc == 0x11 {
        len := ReplyReportId(n);
      } else if fc == 0x07 {
        len := -1;
      } else if fc == 0x16 {
        len := ReplyMaskWrite();
      } else if fc == 0x17 {
        len := ReplyWriteRead(n);
      } else {
        len := RefuseRequest(n, ILLEGAL_FUNCTION);
      }
    }

    /** `modbus_reply`, of the request that was received as reqLength bytes including its CRC. */
    method ModbusReply(reqLength: nat) returns (sent: seq<byte>)
      requires Valid() && 4 <= reqLength <= MAX_ADU && Complete(req[..reqLength - 2], Indication)
      requires !Serve(State(), version, req[..reqLength - 2]).Fault?
      modifies rsp, tabBits, tabRegisters
      ensures Replied(Serve(old(State()), version, req[..reqLength - 2]), old(State()), sent, req[0] == 0)
      ensures req[..] == old(req[..])
    {
      var n := reqLength - CHECKSUM;
      ServeFits(State(), version, req[..n]);
      hide Serve, Complete, Frame, State, AreCells;
      var len := Dispatch(n);
      if len < 0 {
        return [];
      }
      label Ready:
      if req[0] == 0 {
        return [];
      }
      sent := SendMsg(rsp, len);
      Untouched@Ready();
    }

    /** The server loop: receive, and answer what was taken. */
    method OnFrame(frame: seq<byte>) returns (sent: seq<byte>)
      requires Valid() && |frame| <= MAX_ADU && !Taken(slave, State(), version, frame).Fault?
      modifies req, rsp, tabBits, tabRegisters
      ensures Valid()
      ensures Replied(Taken(slave, old(State()), version, frame), old(State()), sent, frame != [] && frame[0] == 0)
      ensures frame != [] && frame[0] == 0 ==> sent == []
      ensures frame == [] || (frame[0] != slave && frame[0] != 0) || Crc16.Crc(0xFFFF, frame) != 0 ==>
                sent == [] && State() == old(State())
    {
      hide Serve, Complete, Frame, State, AreCells, Receive, Replied, Crc16.Crc;
      NotTaken(slave, old(State()), version, frame);
      label Arrived:
      Put(req, 0, frame);
      assert req[..|frame|] == req[0..0 + |frame|] == frame;
      Untouched@Arrived();
      ReceiveTakesAccepted(slave as int, req[..], frame, Indication);
      assert req[..][..|frame|] == frame;
      var n := ReceiveMsg(slave as int, req, |frame|, Indication);
      sent := [];
      if n > 0 {
        assert req[..n - 2] == frame[..n - 2] && req[0] == frame[0];
        sent := ModbusReply(n);
      } else {
        SilenceIsReplied(frame != [] && frame[0] == 0);
      }
      ReplyIsValid(Taken(slave, old(State()), version, frame), old(State()), sent, frame != [] && frame[0] == 0);
    }

    lemma SilenceIsReplied(broadcast: bool)
      requires Valid()
      ensures Replied(Silent, State(), [], broadcast)
    {
    }

    lemma ReplyIsValid(s: Served, t: Tables, sent: seq<byte>, broadcast: bool)
      requires Replied(s, t, sent, broadcast)
      ensures Valid()
      ensures broadcast ==> sent == []
      ensures s.Silent? ==> sent == [] && State() == t
    {
    }
  }

  /** Every reply, to any complete request, fits a frame. */
  lemma ServeFits(t: Tables, version: seq<byte>, q: seq<byte>)
    requires |version| <= 100 && Complete(q, Indication)
    ensures Serve(t, version, q).Reply? ==> |Frame(Serve(t, version, q).body)| <= MAX_ADU
  {
    hide B, ExceptionCode, Word, Masked, Pack, Unpack, Registers, RegisterBytes, Spliced, CrcEngines.WireCrc;
    CompleteLength(q);
  }

  lemma ServeWriteRegistersCases(t: Tables, q: seq<byte>, nb: word, m: int)
    requires |q| >= 7 && |q| == 7 + q[6] as int && nb == At(q, 4) && m == At(q, 2) - t.startRegisters
    ensures ServeWriteRegisters(t, q) ==
            if nb < 1 || MAX_WRITE_REGISTERS < nb || q[6] as int != nb * 2 then Refuse(t, q, ILLEGAL_DATA_VALUE)
            else if m < 0 || m + nb > |t.registers| then Refuse(t, q, ILLEGAL_DATA_ADDRESS)
            else Reply(t.(registers := Spliced(t.registers, m, Registers(q[7..]))), q[..6])
  {
    hide At, Refuse, Registers, Spliced;
  }

  /** The words at the head of a request. */
  lemma HeadWords(req: seq<byte>, n: nat)
    requires 6 <= n <= |req|
    ensures At(req[..n], 2) == Word(req[2], req[3]) && At(req[..n], 4) == Word(req[4], req[5])
    ensures req[..n][0] == req[0] && req[..n][1] == req[1]
    ensures n >= 7 ==> req[..n][6] == req[6] && req[..n][7..] == req[7..n]
  {
    hide Word;
  }

  /** The lengths of complete requests, by function code. */
  lemma CompleteLength(q: seq<byte>)
    requires Complete(q, Indication)
    ensures q[1] == 0x01 || q[1] == 0x02 || q[1] == 0x03 || q[1] == 0x04 || q[1] == 0x05 || q[1] == 0x06 ==> |q| == 6
    ensures q[1] == 0x0F || q[1] == 0x10 ==> |q| >= 7 && |q| == 7 + q[6] as int
    ensures q[1] == 0x16 ==> |q| == 8
    ensures q[1] == 0x17 ==> |q| >= 11 && |q| == 11 + q[10] as int
  {
  }

  lemma OneCoil(cells: seq<byte>, m: nat, bit: bool)
    requires m < |cells| && AreCells(cells)
    ensures var c := cells[m := if bit then 1 else 0];
            AreCells(c) && Coils(c) == Coils(cells)[m := bit]
  {
  }

  lemma NoRegisters()
    ensures RegisterBytes([]) == []
  {
  }
}
