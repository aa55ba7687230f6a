/** The two table-driven engines, against the bitwise definition. */
module CrcEngines {
  import opened Words16
  import opened Crc16
  import opened Crc16Tables

  const INIT: bv16 := 0xFFFF

  /** One round of either engine. */
  lemma TableRound(c: bv16, b: byte)
    ensures Update(c, b) == Xor(Wide(Hi(c)), CrcModBus(Mix(Lo(c), b)))
    ensures Lo(Update(c, b)) == Mix(Hi(c), TableCrcHi(Mix(Lo(c), b)))
    ensures Hi(Update(c, b)) == TableCrcLo(Mix(Lo(c), b))
  {
    var x := Xor(c, Wide(b));
    MixByte(c, b);
    hide BitSteps, Xor, Wide, Lo, Hi, CrcModBus, TableCrcHi, TableCrcLo;
    TableForm(x);
    TableEntry(Lo(c) ^ b);
    var t := BitSteps(Wide(Lo(c) ^ b), 8);
    BytesXor(Wide(Hi(c)), t);
    HalvesOfByte(Hi(c), Hi(t));
  }

  lemma MixByte(c: bv16, b: byte)
    ensures Lo(Xor(c, Wide(b))) == Lo(c) ^ b
    ensures Hi(Xor(c, Wide(b))) == Hi(c)
  {
    RawMix(c, b);
  }

  lemma RawMix(c: bv16, b: byte)
    ensures ((c ^ (b as bv16)) & 0xFF) as bv8 == ((c & 0xFF) as bv8) ^ b
    ensures ((c ^ (b as bv16)) >> 8) as bv8 == (c >> 8) as bv8
  {
  }

  lemma HalvesOfByte(b: byte, t: byte)
    ensures Lo(Wide(b)) == b && Hi(Wide(b)) ^ t == t
  {
    RawHalves(b, t);
  }

  lemma RawHalves(b: byte, t: byte)
    ensures ((b as bv16) & 0xFF) as bv8 == b
    ensures (((b as bv16) >> 8) as bv8) ^ t == t
  {
  }

  /**
   `crc16Calc` with `crcModBus`. The loop body runs before its length is tested, so the caller
   must pass at least one byte.
   */
  method Crc16Calc(src: seq<byte>) returns (crc: bv16)
    requires src != []
    ensures crc == Crc(INIT, src)
  {
    hide BitSteps, Xor, Wide, Lo, Hi, Mix, Update, CrcModBus;
    crc := INIT;
    var len := |src|;
    var more := true;
    while more
      invariant 0 <= len <= |src|
      invariant more <==> len > 0
      invariant crc == Crc(INIT, src[..|src| - len])
      decreases len
    {
      var done := |src| - len;
      var b := src[done];
      TableRound(crc, b);
      assert src[..done + 1][..done] == src[..done];
      crc := Xor(Wide(Hi(crc)), CrcModBus(Mix(Lo(crc), b)));
      len := len - 1;
      more := len != 0;
    }
    assert src[..|src|] == src;
  }

  /** What the client and server compare: the CRC with its low byte first. */
  function WireCrc(m: seq<byte>): (w: seq<byte>)
    ensures |w| == 2
  {
    [Lo(Crc(INIT, m)), Hi(Crc(INIT, m))]
  }

  lemma InitBytes()
    ensures Lo(INIT) == 0xFF && Hi(INIT) == 0xFF
  {
  }

  /** `crc16` of the RTU backend: its two bytes are those of the CRC, exchanged. */
  method RtuCrc16(buffer: seq<byte>) returns (hi: byte, lo: byte)
    ensures [hi, lo] == WireCrc(buffer)
    ensures Join(lo, hi) == Crc(INIT, buffer)
  {
    InitBytes();
    hide BitSteps, Xor, Wide, Lo, Hi, Join, Mix, Update, TableCrcHi, TableCrcLo;
    hi, lo := 0xFF, 0xFF;
    ghost var c := INIT;
    var n := 0;
    while n < |buffer|
      invariant 0 <= n <= |buffer|
      invariant c == Crc(INIT, buffer[..n])
      invariant hi == Lo(c) && lo == Hi(c)
    {
      assert buffer[..n + 1][..n] == buffer[..n];
      TableRound(c, buffer[n]);
      var i := Mix(hi, buffer[n]);
      c := Update(c, buffer[n]);
      hi := Mix(lo, TableCrcHi(i));
      lo := TableCrcLo(i);
      n := n + 1;
    }
    assert buffer[..|buffer|] == buffer;
    SplitJoin(c, lo, hi);
  }
}
