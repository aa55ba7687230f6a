/** Which frames a node takes, as bytes, and that it takes no damaged one. */
module FrameErrors {
  import opened Bytes
  import opened ModbusServe
  import opened ModbusWire
  import opened CrcEngines
  import Words16
  import Crc16
  import CrcErrors

  /** The length of a body, without its CRC, by its function code and the count in it. */
  lemma CompleteIff(q: seq<byte>, d: Direction)
    requires |q| >= 2
    ensures var fc := Value(q[1]);
            Complete(q, d) <==>
            if d == Indication then
              if fc <= 6 then |q| == 6
              else if fc == 15 || fc == 16 then |q| >= 7 && |q| == 7 + Value(q[6])
              else if fc == 22 then |q| == 8
              else if fc == 23 then |q| >= 11 && |q| == 11 + Value(q[10])
              else |q| == 2
            else
              if fc == 5 || fc == 6 || fc == 15 || fc == 16 then |q| == 6
              else if fc == 22 then |q| == 8
              else if fc <= 4 || fc == 17 || fc == 21 || fc == 23 then |q| >= 3 && |q| == 3 + Value(q[2])
              else |q| == 3
  {
    ValueAsInt(q[1]);
    if |q| > 2 {
      ValueAsInt(q[2]);
    }
    if |q| > 6 {
      ValueAsInt(q[6]);
    }
    if |q| > 10 {
      ValueAsInt(q[10]);
    }
    hide Value;
  }

  lemma ValueAsInt(b: byte)
    ensures Value(b) == b as int
  {
  }

  /** Taken exactly when complete, for this node or for all, and with nothing left of the CRC over all its bytes. */
  lemma AcceptedIff(slave: int, frame: seq<byte>, d: Direction)
    ensures Accepted(slave, frame, d) <==>
            && 4 <= |frame| <= 256 && (Value(frame[0]) == slave || Value(frame[0]) == 0)
            && Complete(frame[..|frame| - 2], d) && Crc16.Crc(0xFFFF, frame) == 0
  {
    hide Crc16.Crc, Words16.Lo, Words16.Hi, Words16.Join, Value, Complete;
    if |frame| >= 2 {
      FirstByte(frame[0]);
      SealedFrame(frame);
      var m, lo, hi := frame[..|frame| - 2], frame[|frame| - 2], frame[|frame| - 1];
      assert frame == m + [lo, hi] && frame[|frame| - 2..] == [lo, hi];
      Crc16.ResidueZero(INIT, m, lo, hi);
      Words16.SplitJoin(Crc16.Crc(INIT, m), hi, lo);
    }
  }

  lemma FirstByte(b: byte)
    ensures Value(b) == b as int && (b == 0 <==> Value(b) == 0)
  {
  }

  /** A frame that a node takes, with up to 16 consecutive bits wrong, or any odd number of bits, is not taken. */
  lemma WrongBitsIgnored(slave: int, frame: seq<byte>, bad: seq<byte>, d: Direction, p: nat)
    requires Accepted(slave, frame, d) && |bad| == |frame|
    requires var e := CrcErrors.Diff(CrcErrors.Bits(frame), CrcErrors.Bits(bad));
             CrcErrors.BurstAt(e, p) || CrcErrors.Ones(e) % 2 == 1
    ensures !Accepted(slave, bad, d)
  {
    hide Crc16.Crc, Accepted, CrcErrors.Bits, CrcErrors.BurstAt, CrcErrors.Ones, CrcErrors.Diff;
    AcceptedIff(slave, frame, d);
    AcceptedIff(slave, bad, d);
    if CrcErrors.BurstAt(CrcErrors.Diff(CrcErrors.Bits(frame), CrcErrors.Bits(bad)), p) {
      CrcErrors.BurstDetected(INIT, frame, bad, p);
    } else {
      CrcErrors.OddErrorsDetected(INIT, frame, bad);
    }
  }

  /** Nor is it with one wrong byte, whichever it is. */
  lemma WrongByteIgnored(slave: int, frame: seq<byte>, d: Direction, k: nat, x: byte)
    requires Accepted(slave, frame, d) && k < |frame| && x != frame[k]
    ensures !Accepted(slave, frame[k := x], d)
  {
    hide Crc16.Crc, Accepted, Complete, Value;
    AcceptedIff(slave, frame, d);
    AcceptedIff(slave, frame[k := x], d);
    CrcErrors.OneByteDetected(INIT, frame[..k], frame[k], x, frame[k + 1..]);
    assert frame == frame[..k] + [frame[k]] + frame[k + 1..];
    assert frame[k := x] == frame[..k] + [x] + frame[k + 1..];
  }
}
