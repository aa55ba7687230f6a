/** RTU frames: what is sent, how the receiver measures it, and how the client judges a reply. */
module ModbusWire {
  import opened Bytes
  import opened ModbusData
  import opened ModbusProtocol
  import opened ModbusServe
  import CrcEngines

  const MAX_ADU := 256
  /** Size of the `req` and `rsp` buffers. */
  const MAX_MESSAGE := 260
  const CHECKSUM := 2
  const ENOBASE := 0x100
  const EXCEPTION_MAX := 12
  const EMBBADDATA := ENOBASE + 13
  const EMBBADEXC := ENOBASE + 14
  const EMBMDATA := ENOBASE + 16
  const EMBBADSLAVE := ENOBASE + 17

  function Frame(body: seq<byte>): (f: seq<byte>)
    ensures |f| == |body| + CHECKSUM
  {
    body + CrcEngines.WireCrc(body)
  }

  /** `compute_data_length_after_meta`: the announced data, and the checksum. */
  function DataLength(msg: seq<byte>, d: Direction): int
    requires |msg| == MAX_MESSAGE
  {
    (if CountAt(msg[1] as int, d) < 0 then 0 else msg[CountAt(msg[1] as int, d)] as int) + CHECKSUM
  }

  /** `_modbus_rtu_check_integrity`: the length, 0 for another slave's message, -1 for a bad CRC. */
  function CheckIntegrity(slave: int, msg: seq<byte>): int
    requires |msg| >= CHECKSUM
  {
    if msg[0] as int != slave && msg[0] != 0 then 0
    else if CrcEngines.WireCrc(msg[..|msg| - 2]) == msg[|msg| - 2..] then |msg|
    else -1
  }

  /** `_modbus_receive_msg`, given the buffer after rc bytes were received into it (-1 on timeout). */
  function Receive(slave: int, buffer: seq<byte>, rc: int, d: Direction): int
    requires |buffer| == MAX_MESSAGE && rc <= MAX_ADU
  {
    var expected := 2 + MetaLength(buffer[1] as int, d) + DataLength(buffer, d);
    if rc <= 0 || rc != expected then -1 else CheckIntegrity(slave, buffer[..rc])
  }

  /** `compute_response_length_from_request`; -1 where the reply announces its own length. */
  function ResponseLength(fc: int, nb: int): int {
    if fc == 0x11 then -1
    else
      1 + CHECKSUM +
      (if fc == 0x01 || fc == 0x02 then 2 + nb / 8 + (if nb % 8 != 0 then 1 else 0)
       else if fc == 0x17 || fc == 0x03 || fc == 0x04 then 2 + 2 * nb
       else if fc == 0x07 then 3
       else if fc == 0x16 then 7
       else 5)
  }

  /** The number of values a request asked for, as the reply to it would count them. */
  function Asked(fc: int, nb: int): int {
    if fc == 0x01 || fc == 0x02 then nb / 8 + (if nb % 8 != 0 then 1 else 0)
    else if fc == 0x17 || fc == 0x03 || fc == 0x04 || fc == 0x0F || fc == 0x10 then nb
    else 1
  }

  /** The number of values a reply announces, from its byte count or from the number it repeats. */
  function Given(fc: int, byteCount: int, repeated: int): (n: int)
    ensures byteCount >= 0 && repeated >= 0 ==> n >= 0
  {
    if fc == 0x01 || fc == 0x02 then byteCount
    else if fc == 0x17 || fc == 0x03 || fc == 0x04 then byteCount / 2
    else if fc == 0x0F || fc == 0x10 then repeated
    else 1
  }

  /** The second word of a reply that has one. */
  function Repeated(p: seq<byte>): (n: int)
    ensures n >= 0
  {
    if |p| >= 6 then At(p, 4) else 0
  }

  /** The verdict on a reply of n bytes, from the header bytes and counts of request and reply. */
  function Verdict(n: int, q0: int, qfc: int, nb: int, p0: int, pfc: int, p2: int, repeated: int): (int, int) {
    var length := ResponseLength(qfc, nb);
    if q0 != p0 && q0 != 0 then (-1, EMBBADSLAVE)
    else if pfc >= 0x80 then
      if n == 1 + 2 + CHECKSUM && qfc == pfc - 0x80 && p2 < EXCEPTION_MAX then (-1, ENOBASE + p2) else (-1, EMBBADEXC)
    else if n == length || length == -1 then
      if pfc != qfc then (-1, EMBBADDATA)
      else if pfc == 0x11 then (p2, 0)
      else if Asked(pfc, nb) == Given(pfc, p2, repeated) then (Given(pfc, p2, repeated), 0)
      else (-1, EMBBADDATA)
    else (-1, EMBBADDATA)
  }

  /** `check_confirmation`: a number of values, or -1 and an error number. */
  function Confirm(q: seq<byte>, p: seq<byte>): (int, int)
    requires |q| >= 6 && |p| >= 5
  {
    Verdict(|p|, q[0] as int, q[1] as int, At(q, 4), p[0] as int, p[1] as int, p[2] as int, Repeated(p))
  }

  /** What `check_confirmation` counts for a request that was carried out. */
  function Counted(r: Request): int {
    match r
    case ReadBits(_, _, nb) => ByteCount(nb)
    case ReadRegisters(_, _, nb) => nb
    case WriteBits(_, bits) => |bits|
    case WriteRegisters(_, values) => |values|
    case WriteRead(_, _, _, nb) => nb
    case _ => 1
  }

  // Lengths.

  lemma RequestFits(slave: byte, r: Request)
    requires Sendable(r)
    ensures 6 <= |EncodeRequest(slave, r)| && |Frame(EncodeRequest(slave, r))| <= MAX_ADU
    ensures EncodeRequest(slave, r)[0] == slave && EncodeRequest(slave, r)[1] == FunctionCode(r)
  {
    hide Hi, Lo, B, Pack, RegisterBytes;
  }

  lemma ExceptionByte(r: Request)
    ensures ExceptionCode(FunctionCode(r)) as int == FunctionCode(r) as int + 0x80
    ensures 1 <= FunctionCode(r) as int <= 0x17
  {
    var fc := FunctionCode(r);
    assert fc as int <= 0x17;
    NumberOfByte((fc as int) + 0x80);
  }

  /** Every answer has exactly the length its receiver computes from it, and fits a frame. */
  lemma AnswerIsComplete(slave: byte, r: Request, a: Answer)
    requires Sendable(r) && Matches(r, a)
    ensures var p := EncodeAnswer(slave, r, a);
            && Complete(p, Confirmation) && |Frame(p)| <= MAX_ADU && |p| >= 3 && p[0] == slave
            && p[1] == if a.Exception? then ExceptionCode(FunctionCode(r)) else FunctionCode(r)
  {
    hide Hi, Lo, B, Pack, RegisterBytes, ExceptionCode;
    ExceptionByte(r);
    match a
    case Exception(_) =>
    case Bits(bits) => NumberOfByte(ByteCount(|bits|));
    case Values(vs) => NumberOfByte(2 * |vs|);
    case Done =>
  }

  /** A frame a node takes: complete, for it or for all, with the right CRC. */
  predicate Accepted(slave: int, frame: seq<byte>, d: Direction) {
    && 4 <= |frame| <= MAX_ADU
    && (frame[0] as int == slave || frame[0] == 0)
    && Complete(frame[..|frame| - 2], d)
    && frame == Frame(frame[..|frame| - 2])
  }

  lemma CompleteIsExpected(buffer: seq<byte>, rc: int, d: Direction)
    requires |buffer| == MAX_MESSAGE && 0 < rc <= MAX_ADU
    ensures rc == 2 + MetaLength(buffer[1] as int, d) + DataLength(buffer, d) <==>
            4 <= rc && Complete(buffer[..rc - 2], d)
  {
  }

  /** The receiver takes exactly those frames, with their full length, whatever is left in its buffer behind them. */
  lemma ReceiveTakesAccepted(slave: int, buffer: seq<byte>, frame: seq<byte>, d: Direction)
    requires |buffer| == MAX_MESSAGE && |frame| <= MAX_ADU && buffer[..|frame|] == frame
    ensures Receive(slave, buffer, |frame|, d) > 0 <==> Accepted(slave, frame, d)
    ensures Receive(slave, buffer, |frame|, d) > 0 ==> Receive(slave, buffer, |frame|, d) == |frame|
  {
    hide MetaLength, CountAt, DataLength, Complete, CrcEngines.WireCrc;
    if |frame| > 0 {
      CompleteIsExpected(buffer, |frame|, d);
      if |frame| >= 4 {
        assert buffer[..|frame| - 2] == frame[..|frame| - 2];
        SealedFrame(frame);
      }
    }
  }

  lemma SealedFrame(frame: seq<byte>)
    requires |frame| >= 2
    ensures frame == Frame(frame[..|frame| - 2]) <==> CrcEngines.WireCrc(frame[..|frame| - 2]) == frame[|frame| - 2..]
  {
    hide CrcEngines.WireCrc;
    assert frame == frame[..|frame| - 2] + frame[|frame| - 2..];
    var body := frame[..|frame| - 2];
    assert Frame(body)[|frame| - 2..] == CrcEngines.WireCrc(body);
  }

  lemma FrameIsAccepted(slave: byte, body: seq<byte>, d: Direction)
    requires Complete(body, d) && body[0] == slave && |Frame(body)| <= MAX_ADU
    ensures Accepted(slave as int, Frame(body), d)
  {
    hide CrcEngines.WireCrc;
    assert Frame(body)[..|body|] == body;
  }

  // The client's verdict.

  lemma RequestFields(slave: byte, r: Request)
    requires Sendable(r)
    ensures var q := EncodeRequest(slave, r);
            && |q| >= 6
            && (r.ReadBits? || r.ReadRegisters? || r.WriteRead? ==> At(q, 4) == r.nb)
            && (r.WriteBits? ==> At(q, 4) == |r.bits|)
            && (r.WriteRegisters? ==> At(q, 4) == |r.values|)
  {
    hide Word, Hi, Lo, B, Pack, RegisterBytes;
    match r
    case ReadBits(_, _, nb) => WordRoundTrip(nb, 0, 0);
    case ReadRegisters(_, _, nb) => WordRoundTrip(nb, 0, 0);
    case WriteBits(_, bits) => WordRoundTrip(|bits|, 0, 0);
    case WriteRegisters(_, values) => WordRoundTrip(|values|, 0, 0);
    case WriteRead(_, _, _, nb) => WordRoundTrip(nb, 0, 0);
    case _ =>
  }

  lemma FrameFields(p: seq<byte>)
    ensures |Frame(p)| == |p| + 2
    ensures forall i :: 0 <= i < |p| ==> Frame(p)[i] == p[i]
  {
    hide CrcEngines.WireCrc;
  }

  lemma ExceptionConfirms(slave: byte, r: Request, code: nat)
    requires Sendable(r) && code < EXCEPTION_MAX
    ensures Confirm(EncodeRequest(slave, r), Frame(EncodeAnswer(slave, r, Exception(code)))) == (-1, ENOBASE + code)
  {
    hide Frame, EncodeRequest, FunctionCode, ExceptionCode, B, Confirm;
    RequestFits(slave, r);
    ExceptionByte(r);
    NumberOfByte(code);
    FrameFields(EncodeAnswer(slave, r, Exception(code)));
    ExceptionDecides(EncodeRequest(slave, r), Frame(EncodeAnswer(slave, r, Exception(code))), code);
  }

  lemma ExceptionDecides(q: seq<byte>, p: seq<byte>, code: nat)
    requires |q| >= 6 && |p| == 5 && q[0] == p[0] && p[1] as int == q[1] as int + 0x80 && p[2] as int == code < EXCEPTION_MAX
    ensures Confirm(q, p) == (-1, ENOBASE + code)
  {
    hide ResponseLength, Asked, Given, Repeated, At;
  }

  /** The function code as a number. */
  function Fc(r: Request): int {
    match r
    case ReadBits(input, _, _) => if input then 2 else 1
    case ReadRegisters(input, _, _) => if input then 4 else 3
    case WriteBit(_, _) => 5
    case WriteRegister(_, _) => 6
    case WriteBits(_, _) => 15
    case WriteRegisters(_, _) => 16
    case MaskWrite(_, _, _) => 22
    case WriteRead(_, _, _, _) => 23
  }

  lemma FcIsCode(r: Request)
    ensures FunctionCode(r) as int == Fc(r)
  {
  }

  /** A reply from the right slave, with the right function and the right length, is judged by its count. */
  lemma CountDecides(q: seq<byte>, p: seq<byte>, fc: int, nb: int, count: int)
    requires |q| >= 6 && |p| >= 5 && q[0] == p[0] && q[1] == p[1] && p[1] as int == fc < 0x80 && fc != 0x11
    requires nb == At(q, 4) && |p| == ResponseLength(fc, nb)
    requires Asked(fc, nb) == Given(fc, p[2] as int, Repeated(p)) == count
    ensures Confirm(q, p) == (count, 0)
  {
    hide ResponseLength, Asked, Given, Repeated, At;
  }

  lemma BitsFields(slave: byte, r: Request, bits: seq<bool>)
    requires Sendable(r) && Matches(r, Bits(bits))
    ensures var p := Frame(EncodeAnswer(slave, r, Bits(bits)));
            |p| == 5 + ByteCount(r.nb) && p[0] == slave && p[1] == FunctionCode(r) && p[2] as int == ByteCount(r.nb)
  {
    hide B, Pack, CrcEngines.WireCrc;
    NumberOfByte(ByteCount(|bits|));
  }

  lemma BitsConfirm(slave: byte, r: Request, bits: seq<bool>)
    requires Sendable(r) && Matches(r, Bits(bits))
    ensures Confirm(EncodeRequest(slave, r), Frame(EncodeAnswer(slave, r, Bits(bits)))) == (Counted(r), 0)
  {
    hide Frame, EncodeRequest, EncodeAnswer, Word, At, Confirm, FunctionCode;
    RequestFields(slave, r);
    RequestFits(slave, r);
    BitsFields(slave, r, bits);
    FcIsCode(r);
    CountDecides(EncodeRequest(slave, r), Frame(EncodeAnswer(slave, r, Bits(bits))), Fc(r), r.nb, Counted(r));
  }

  lemma ValuesFields(slave: byte, r: Request, vs: seq<word>)
    requires Sendable(r) && Matches(r, Values(vs))
    ensures var p := Frame(EncodeAnswer(slave, r, Values(vs)));
            |p| == 5 + 2 * r.nb && p[0] == slave && p[1] == FunctionCode(r) && p[2] as int == 2 * r.nb
  {
    hide B, RegisterBytes, CrcEngines.WireCrc;
    NumberOfByte(2 * |vs|);
  }

  lemma ValuesConfirm(slave: byte, r: Request, vs: seq<word>)
    requires Sendable(r) && Matches(r, Values(vs))
    ensures Confirm(EncodeRequest(slave, r), Frame(EncodeAnswer(slave, r, Values(vs)))) == (Counted(r), 0)
  {
    hide Frame, EncodeRequest, EncodeAnswer, Word, At, Confirm, FunctionCode;
    RequestFields(slave, r);
    RequestFits(slave, r);
    ValuesFields(slave, r, vs);
    FcIsCode(r);
    CountDecides(EncodeRequest(slave, r), Frame(EncodeAnswer(slave, r, Values(vs))), Fc(r), r.nb, Counted(r));
  }

  lemma DoneConfirms(slave: byte, r: Request)
    requires Sendable(r) && Matches(r, Done)
    ensures Confirm(EncodeRequest(slave, r), Frame(EncodeAnswer(slave, r, Done))) == (Counted(r), 0)
  {
    var q, p := EncodeRequest(slave, r), EncodeAnswer(slave, r, Done);
    RequestFields(slave, r);
    RequestFits(slave, r);
    FrameFields(p);
    DoneLength(slave, r);
    FcIsCode(r);
    hide Frame, EncodeRequest, EncodeAnswer, Word, Confirm, FunctionCode;
    assert forall i :: 0 <= i < 6 ==> Frame(p)[i] == p[..6][i] == q[..6][i] == q[i];
    assert Repeated(Frame(p)) == At(q, 4);
    hide At, Repeated;
    CountDecides(q, Frame(p), Fc(r), At(q, 4), Counted(r));
  }

  lemma DoneLength(slave: byte, r: Request)
    requires Sendable(r) && Matches(r, Done)
    ensures |EncodeAnswer(slave, r, Done)| == if r.MaskWrite? then 8 else 6
    ensures EncodeAnswer(slave, r, Done)[..6] == EncodeRequest(slave, r)[..6]
  {
    hide Hi, Lo, B, Pack, RegisterBytes;
  }

  /** The answer to a request confirms it; an exception is reported as the matching error. */
  lemma AnswerConfirms(slave: byte, r: Request, a: Answer)
    requires Sendable(r) && Matches(r, a)
    requires a.Exception? ==> a.code < EXCEPTION_MAX
    ensures 6 <= |EncodeRequest(slave, r)| && 5 <= |Frame(EncodeAnswer(slave, r, a))|
    ensures Confirm(EncodeRequest(slave, r), Frame(EncodeAnswer(slave, r, a))) ==
            if a.Exception? then (-1, ENOBASE + a.code) else (Counted(r), 0)
  {
    hide Confirm, EncodeRequest, EncodeAnswer, Complete, Frame;
    RequestFits(slave, r);
    AnswerIsComplete(slave, r, a);
    FrameFields(EncodeAnswer(slave, r, a));
    match a
    case Exception(code) => ExceptionConfirms(slave, r, code);
    case Bits(bits) => BitsConfirm(slave, r, bits);
    case Values(vs) => ValuesConfirm(slave, r, vs);
    case Done => DoneConfirms(slave, r);
  }

  // The values the client takes out of a reply.

  lemma AnswerValues(slave: byte, r: Request, a: Answer)
    requires Sendable(r) && Matches(r, a)
    ensures var p := EncodeAnswer(slave, r, a);
            && |p| >= 3
            && (a.Bits? ==> |p| == 3 + ByteCount(r.nb) && Unpack(p[3..], r.nb) == a.bits)
            && (a.Values? ==> |p| == 3 + 2 * r.nb && Registers(p[3..]) == a.values)
  {
    hide Hi, Lo, B, Word, Bit, ByteOf, Pack, Unpack, Registers, RegisterBytes;
    var p := EncodeAnswer(slave, r, a);
    match a
    case Bits(bits) =>
      assert p[3..] == Pack(bits);
      PackRoundTrip(bits);
    case Values(vs) =>
      assert p[3..] == RegisterBytes(vs);
      RegistersRoundTrip(vs);
    case _ =>
  }
}
