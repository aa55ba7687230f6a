/**
 The lookup tables of `crc.c` and `modbus-rtu.c`, eight entries a row as `crcModBus` is laid out,
 and the proof that every entry is what the bitwise definition gives.
 */
module Crc16Tables {
  import opened Words16
  import opened Crc16

  /** Rows of `crcModBus.table`. */
  function CrcModBusRow(r: byte): (row: seq<bv16>)
    requires r < 32
    ensures |row| == 8
  {
    if r < 8 then CrcModBusRows0(r) else if r < 16 then CrcModBusRows8(r) else if r < 24 then CrcModBusRows16(r) else CrcModBusRows24(r)
  }

  function CrcModBusRows0(r: byte): (row: seq<bv16>)
    requires r < 8
    ensures |row| == 8
  {
    match r
    case 0 => [0x0000, 0xC0C1, 0xC181, 0x0140, 0xC301, 0x03C0, 0x0280, 0xC241]
    case 1 => [0xC601, 0x06C0, 0x0780, 0xC741, 0x0500, 0xC5C1, 0xC481, 0x0440]
    case 2 => [0xCC01, 0x0CC0, 0x0D80, 0xCD41, 0x0F00, 0xCFC1, 0xCE81, 0x0E40]
    case 3 => [0x0A00, 0xCAC1, 0xCB81, 0x0B40, 0xC901, 0x09C0, 0x0880, 0xC841]
    case 4 => [0xD801, 0x18C0, 0x1980, 0xD941, 0x1B00, 0xDBC1, 0xDA81, 0x1A40]
    case 5 => [0x1E00, 0xDEC1, 0xDF81, 0x1F40, 0xDD01, 0x1DC0, 0x1C80, 0xDC41]
    case 6 => [0x1400, 0xD4C1, 0xD581, 0x1540, 0xD701, 0x17C0, 0x1680, 0xD641]
    case _ => [0xD201, 0x12C0, 0x1380, 0xD341, 0x1100, 0xD1C1, 0xD081, 0x1040]
  }

  function CrcModBusRows8(r: byte): (row: seq<bv16>)
    requires 8 <= r < 16
    ensures |row| == 8
  {
    match r
    case 8 => [0xF001, 0x30C0, 0x3180, 0xF141, 0x3300, 0xF3C1, 0xF281, 0x3240]
    case 9 => [0x3600, 0xF6C1, 0xF781, 0x3740, 0xF501, 0x35C0, 0x3480, 0xF441]
    case 10 => [0x3C00, 0xFCC1, 0xFD81, 0x3D40, 0xFF01, 0x3FC0, 0x3E80, 0xFE41]
    case 11 => [0xFA01, 0x3AC0, 0x3B80, 0xFB41, 0x3900, 0xF9C1, 0xF881, 0x3840]
    case 12 => [0x2800, 0xE8C1, 0xE981, 0x2940, 0xEB01, 0x2BC0, 0x2A80, 0xEA41]
    case 13 => [0xEE01, 0x2EC0, 0x2F80, 0xEF41, 0x2D00, 0xEDC1, 0xEC81, 0x2C40]
    case 14 => [0xE401, 0x24C0, 0x2580, 0xE541, 0x2700, 0xE7C1, 0xE681, 0x2640]
    case _ => [0x2200, 0xE2C1, 0xE381, 0x2340, 0xE101, 0x21C0, 0x2080, 0xE041]
  }

  function CrcModBusRows16(r: byte): (row: seq<bv16>)
    requires 16 <= r < 24
    ensures |row| == 8
  {
    match r
    case 16 => [0xA001, 0x60C0, 0x6180, 0xA141, 0x6300, 0xA3C1, 0xA281, 0x6240]
    case 17 => [0x6600, 0xA6C1, 0xA781, 0x6740, 0xA501, 0x65C0, 0x6480, 0xA441]
    case 18 => [0x6C00, 0xACC1, 0xAD81, 0x6D40, 0xAF01, 0x6FC0, 0x6E80, 0xAE41]
    case 19 => [0xAA01, 0x6AC0, 0x6B80, 0xAB41, 0x6900, 0xA9C1, 0xA881, 0x6840]
    case 20 => [0x7800, 0xB8C1, 0xB981, 0x7940, 0xBB01, 0x7BC0, 0x7A80, 0xBA41]
    case 21 => [0xBE01, 0x7EC0, 0x7F80, 0xBF41, 0x7D00, 0xBDC1, 0xBC81, 0x7C40]
    case 22 => [0xB401, 0x74C0, 0x7580, 0xB541, 0x7700, 0xB7C1, 0xB681, 0x7640]
    case _ => [0x7200, 0xB2C1, 0xB381, 0x7340, 0xB101, 0x71C0, 0x7080, 0xB041]
  }

  function CrcModBusRows24(r: byte): (row: seq<bv16>)
    requires 24 <= r < 32
    ensures |row| == 8
  {
    match r
    case 24 => [0x5000, 0x90C1, 0x9181, 0x5140, 0x9301, 0x53C0, 0x5280, 0x9241]
    case 25 => [0x9601, 0x56C0, 0x5780, 0x9741, 0x5500, 0x95C1, 0x9481, 0x5440]
    case 26 => [0x9C01, 0x5CC0, 0x5D80, 0x9D41, 0x5F00, 0x9FC1, 0x9E81, 0x5E40]
    case 27 => [0x5A00, 0x9AC1, 0x9B81, 0x5B40, 0x9901, 0x59C0, 0x5880, 0x9841]
    case 28 => [0x8801, 0x48C0, 0x4980, 0x8941, 0x4B00, 0x8BC1, 0x8A81, 0x4A40]
    case 29 => [0x4E00, 0x8EC1, 0x8F81, 0x4F40, 0x8D01, 0x4DC0, 0x4C80, 0x8C41]
    case 30 => [0x4400, 0x84C1, 0x8581, 0x4540, 0x8701, 0x47C0, 0x4680, 0x8641]
    case _ => [0x8201, 0x42C0, 0x4380, 0x8341, 0x4100, 0x81C1, 0x8081, 0x4040]
  }

  /** Rows of `table_crc_hi`. */
  function CrcHiRow(r: byte): (row: seq<byte>)
    requires r < 32
    ensures |row| == 8
  {
    if r < 8 then CrcHiRows0(r) else if r < 16 then CrcHiRows8(r) else if r < 24 then CrcHiRows16(r) else CrcHiRows24(r)
  }

  function CrcHiRows0(r: byte): (row: seq<byte>)
    requires r < 8
    ensures |row| == 8
  {
    match r
    case 0 => [0x00, 0xC1, 0x81, 0x40, 0x01, 0xC0, 0x80, 0x41]
    case 1 => [0x01, 0xC0, 0x80, 0x41, 0x00, 0xC1, 0x81, 0x40]
    case 2 => [0x01, 0xC0, 0x80, 0x41, 0x00, 0xC1, 0x81, 0x40]
    case 3 => [0x00, 0xC1, 0x81, 0x40, 0x01, 0xC0, 0x80, 0x41]
    case 4 => [0x01, 0xC0, 0x80, 0x41, 0x00, 0xC1, 0x81, 0x40]
    case 5 => [0x00, 0xC1, 0x81, 0x40, 0x01, 0xC0, 0x80, 0x41]
    case 6 => [0x00, 0xC1, 0x81, 0x40, 0x01, 0xC0, 0x80, 0x41]
    case _ => [0x01, 0xC0, 0x80, 0x41, 0x00, 0xC1, 0x81, 0x40]
  }

  function CrcHiRows8(r: byte): (row: seq<byte>)
    requires 8 <= r < 16
    ensures |row| == 8
  {
    match r
    case 8 => [0x01, 0xC0, 0x80, 0x41, 0x00, 0xC1, 0x81, 0x40]
    case 9 => [0x00, 0xC1, 0x81, 0x40, 0x01, 0xC0, 0x80, 0x41]
    case 10 => [0x00, 0xC1, 0x81, 0x40, 0x01, 0xC0, 0x80, 0x41]
    case 11 => [0x01, 0xC0, 0x80, 0x41, 0x00, 0xC1, 0x81, 0x40]
    case 12 => [0x00, 0xC1, 0x81, 0x40, 0x01, 0xC0, 0x80, 0x41]
    case 13 => [0x01, 0xC0, 0x80, 0x41, 0x00, 0xC1, 0x81, 0x40]
    case 14 => [0x01, 0xC0, 0x80, 0x41, 0x00, 0xC1, 0x81, 0x40]
    case _ => [0x00, 0xC1, 0x81, 0x40, 0x01, 0xC0, 0x80, 0x41]
  }

  function CrcHiRows16(r: byte): (row: seq<byte>)
    requires 16 <= r < 24
    ensures |row| == 8
  {
    match r
    case 16 => [0x01, 0xC0, 0x80, 0x41, 0x00, 0xC1, 0x81, 0x40]
    case 17 => [0x00, 0xC1, 0x81, 0x40, 0x01, 0xC0, 0x80, 0x41]
    case 18 => [0x00, 0xC1, 0x81, 0x40, 0x01, 0xC0, 0x80, 0x41]
    case 19 => [0x01, 0xC0, 0x80, 0x41, 0x00, 0xC1, 0x81, 0x40]
    case 20 => [0x00, 0xC1, 0x81, 0x40, 0x01, 0xC0, 0x80, 0x41]
    case 21 => [0x01, 0xC0, 0x80, 0x41, 0x00, 0xC1, 0x81, 0x40]
    case 22 => [0x01, 0xC0, 0x80, 0x41, 0x00, 0xC1, 0x81, 0x40]
    case _ => [0x00, 0xC1, 0x81, 0x40, 0x01, 0xC0, 0x80, 0x41]
  }

  function CrcHiRows24(r: byte): (row: seq<byte>)
    requires 24 <= r < 32
    ensures |row| == 8
  {
    match r
    case 24 => [0x00, 0xC1, 0x81, 0x40, 0x01, 0xC0, 0x80, 0x41]
    case 25 => [0x01, 0xC0, 0x80, 0x41, 0x00, 0xC1, 0x81, 0x40]
    case 26 => [0x01, 0xC0, 0x80, 0x41, 0x00, 0xC1, 0x81, 0x40]
    case 27 => [0x00, 0xC1, 0x81, 0x40, 0x01, 0xC0, 0x80, 0x41]
    case 28 => [0x01, 0xC0, 0x80, 0x41, 0x00, 0xC1, 0x81, 0x40]
    case 29 => [0x00, 0xC1, 0x81, 0x40, 0x01, 0xC0, 0x80, 0x41]
    case 30 => [0x00, 0xC1, 0x81, 0x40, 0x01, 0xC0, 0x80, 0x41]
    case _ => [0x01, 0xC0, 0x80, 0x41, 0x00, 0xC1, 0x81, 0x40]
  }

  /** Rows of `table_crc_lo`. */
  function CrcLoRow(r: byte): (row: seq<byte>)
    requires r < 32
    ensures |row| == 8
  {
    if r < 8 then CrcLoRows0(r) else if r < 16 then CrcLoRows8(r) else if r < 24 then CrcLoRows16(r) else CrcLoRows24(r)
  }

  function CrcLoRows0(r: byte): (row: seq<byte>)
    requires r < 8
    ensures |row| == 8
  {
    match r
    case 0 => [0x00, 0xC0, 0xC1, 0x01, 0xC3, 0x03, 0x02, 0xC2]
    case 1 => [0xC6, 0x06, 0x07, 0xC7, 0x05, 0xC5, 0xC4, 0x04]
    case 2 => [0xCC, 0x0C, 0x0D, 0xCD, 0x0F, 0xCF, 0xCE, 0x0E]
    case 3 => [0x0A, 0xCA, 0xCB, 0x0B, 0xC9, 0x09, 0x08, 0xC8]
    case 4 => [0xD8, 0x18, 0x19, 0xD9, 0x1B, 0xDB, 0xDA, 0x1A]
    case 5 => [0x1E, 0xDE, 0xDF, 0x1F, 0xDD, 0x1D, 0x1C, 0xDC]
    case 6 => [0x14, 0xD4, 0xD5, 0x15, 0xD7, 0x17, 0x16, 0xD6]
    case _ => [0xD2, 0x12, 0x13, 0xD3, 0x11, 0xD1, 0xD0, 0x10]
  }

  function CrcLoRows8(r: byte): (row: seq<byte>)
    requires 8 <= r < 16
    ensures |row| == 8
  {
    match r
    case 8 => [0xF0, 0x30, 0x31, 0xF1, 0x33, 0xF3, 0xF2, 0x32]
    case 9 => [0x36, 0xF6, 0xF7, 0x37, 0xF5, 0x35, 0x34, 0xF4]
    case 10 => [0x3C, 0xFC, 0xFD, 0x3D, 0xFF, 0x3F, 0x3E, 0xFE]
    case 11 => [0xFA, 0x3A, 0x3B, 0xFB, 0x39, 0xF9, 0xF8, 0x38]
    case 12 => [0x28, 0xE8, 0xE9, 0x29, 0xEB, 0x2B, 0x2A, 0xEA]
    case 13 => [0xEE, 0x2E, 0x2F, 0xEF, 0x2D, 0xED, 0xEC, 0x2C]
    case 14 => [0xE4, 0x24, 0x25, 0xE5, 0x27, 0xE7, 0xE6, 0x26]
    case _ => [0x22, 0xE2, 0xE3, 0x23, 0xE1, 0x21, 0x20, 0xE0]
  }

  function CrcLoRows16(r: byte): (row: seq<byte>)
    requires 16 <= r < 24
    ensures |row| == 8
  {
    match r
    case 16 => [0xA0, 0x60, 0x61, 0xA1, 0x63, 0xA3, 0xA2, 0x62]
    case 17 => [0x66, 0xA6, 0xA7, 0x67, 0xA5, 0x65, 0x64, 0xA4]
    case 18 => [0x6C, 0xAC, 0xAD, 0x6D, 0xAF, 0x6F, 0x6E, 0xAE]
    case 19 => [0xAA, 0x6A, 0x6B, 0xAB, 0x69, 0xA9, 0xA8, 0x68]
    case 20 => [0x78, 0xB8, 0xB9, 0x79, 0xBB, 0x7B, 0x7A, 0xBA]
    case 21 => [0xBE, 0x7E, 0x7F, 0xBF, 0x7D, 0xBD, 0xBC, 0x7C]
    case 22 => [0xB4, 0x74, 0x75, 0xB5, 0x77, 0xB7, 0xB6, 0x76]
    case _ => [0x72, 0xB2, 0xB3, 0x73, 0xB1, 0x71, 0x70, 0xB0]
  }

  function CrcLoRows24(r: byte): (row: seq<byte>)
    requires 24 <= r < 32
    ensures |row| == 8
  {
    match r
    case 24 => [0x50, 0x90, 0x91, 0x51, 0x93, 0x53, 0x52, 0x92]
    case 25 => [0x96, 0x56, 0x57, 0x97, 0x55, 0x95, 0x94, 0x54]
    case 26 => [0x9C, 0x5C, 0x5D, 0x9D, 0x5F, 0x9F, 0x9E, 0x5E]
    case 27 => [0x5A, 0x9A, 0x9B, 0x5B, 0x99, 0x59, 0x58, 0x98]
    case 28 => [0x88, 0x48, 0x49, 0x89, 0x4B, 0x8B, 0x8A, 0x4A]
    case 29 => [0x4E, 0x8E, 0x8F, 0x4F, 0x8D, 0x4D, 0x4C, 0x8C]
    case 30 => [0x44, 0x84, 0x85, 0x45, 0x87, 0x47, 0x46, 0x86]
    case _ => [0x82, 0x42, 0x43, 0x83, 0x41, 0x81, 0x80, 0x40]
  }

  function CrcModBus(i: byte): bv16 { CrcModBusRow(i >> 3)[(i & 7) as int] }

  function TableCrcHi(i: byte): byte { CrcHiRow(i >> 3)[(i & 7) as int] }

  function TableCrcLo(i: byte): byte { CrcLoRow(i >> 3)[(i & 7) as int] }

  // Every row is its first entry combined with the first row of the table.

  predicate RowOf(row: seq<bv16>, h: bv16) {
    && |row| == 8
    && row[0] == h && row[1] == Xor(h, 0xC0C1) && row[2] == Xor(h, 0xC181) && row[3] == Xor(h, 0x0140)
    && row[4] == Xor(h, 0xC301) && row[5] == Xor(h, 0x03C0) && row[6] == Xor(h, 0x0280) && row[7] == Xor(h, 0xC241)
  }

  predicate HiRowOf(row: seq<byte>, h: byte) {
    && |row| == 8
    && row[0] == h && row[1] == h ^ 0xC1 && row[2] == h ^ 0x81 && row[3] == h ^ 0x40
    && row[4] == h ^ 0x01 && row[5] == h ^ 0xC0 && row[6] == h ^ 0x80 && row[7] == h ^ 0x41
  }

  predicate LoRowOf(row: seq<byte>, h: byte) {
    && |row| == 8
    && row[0] == h && row[1] == h ^ 0xC0 && row[2] == h ^ 0xC1 && row[3] == h ^ 0x01
    && row[4] == h ^ 0xC3 && row[5] == h ^ 0x03 && row[6] == h ^ 0x02 && row[7] == h ^ 0xC2
  }

  /** Row r starts with the CRC h of the byte 8 * r, in all three tables. */
  predicate RowStartsWith(r: byte, h: bv16)
    requires r < 32
  {
    && BitSteps(Wide(r << 3), 8) == h
    && RowOf(CrcModBusRow(r), h)
    && HiRowOf(CrcHiRow(r), (h & 0xFF) as bv8)
    && LoRowOf(CrcLoRow(r), (h >> 8) as bv8)
  }

  lemma Rows0To3()
    ensures RowStartsWith(0, 0x0000)
    ensures RowStartsWith(1, 0xC601)
    ensures RowStartsWith(2, 0xCC01)
    ensures RowStartsWith(3, 0x0A00)
  {
  }

  lemma Rows4To7()
    ensures RowStartsWith(4, 0xD801)
    ensures RowStartsWith(5, 0x1E00)
    ensures RowStartsWith(6, 0x1400)
    ensures RowStartsWith(7, 0xD201)
  {
  }

  lemma Rows8To11()
    ensures RowStartsWith(8, 0xF001)
    ensures RowStartsWith(9, 0x3600)
    ensures RowStartsWith(10, 0x3C00)
    ensures RowStartsWith(11, 0xFA01)
  {
  }

  lemma Rows12To15()
    ensures RowStartsWith(12, 0x2800)
    ensures RowStartsWith(13, 0xEE01)
    ensures RowStartsWith(14, 0xE401)
    ensures RowStartsWith(15, 0x2200)
  {
  }

  lemma Rows16To19()
    ensures RowStartsWith(16, 0xA001)
    ensures RowStartsWith(17, 0x6600)
    ensures RowStartsWith(18, 0x6C00)
    ensures RowStartsWith(19, 0xAA01)
  {
  }

  lemma Rows20To23()
    ensures RowStartsWith(20, 0x7800)
    ensures RowStartsWith(21, 0xBE01)
    ensures RowStartsWith(22, 0xB401)
    ensures RowStartsWith(23, 0x7200)
  {
  }

  lemma Rows24To27()
    ensures RowStartsWith(24, 0x5000)
    ensures RowStartsWith(25, 0x9601)
    ensures RowStartsWith(26, 0x9C01)
    ensures RowStartsWith(27, 0x5A00)
  {
  }

  lemma Rows28To31()
    ensures RowStartsWith(28, 0x8801)
    ensures RowStartsWith(29, 0x4E00)
    ensures RowStartsWith(30, 0x4400)
    ensures RowStartsWith(31, 0x8201)
  {
  }

  predicate RowRight(r: byte)
    requires r < 32
  {
    RowStartsWith(r, BitSteps(Wide(r << 3), 8))
  }

  lemma AllRowsRight(r: byte)
    requires r < 32
    ensures RowRight(r)
  {
    hide BitSteps, RowOf, HiRowOf, LoRowOf, CrcModBusRow, CrcHiRow, CrcLoRow, Wide;
    Rows0To3();
    assert RowRight(0);
    assert RowRight(1);
    assert RowRight(2);
    assert RowRight(3);
    Rows4To7();
    assert RowRight(4);
    assert RowRight(5);
    assert RowRight(6);
    assert RowRight(7);
    Rows8To11();
    assert RowRight(8);
    assert RowRight(9);
    assert RowRight(10);
    assert RowRight(11);
    Rows12To15();
    assert RowRight(12);
    assert RowRight(13);
    assert RowRight(14);
    assert RowRight(15);
    Rows16To19();
    assert RowRight(16);
    assert RowRight(17);
    assert RowRight(18);
    assert RowRight(19);
    Rows20To23();
    assert RowRight(20);
    assert RowRight(21);
    assert RowRight(22);
    assert RowRight(23);
    Rows24To27();
    assert RowRight(24);
    assert RowRight(25);
    assert RowRight(26);
    assert RowRight(27);
    Rows28To31();
    assert RowRight(28);
    assert RowRight(29);
    assert RowRight(30);
    assert RowRight(31);
  }

  // The first row, and with it every entry.

  function FirstRow(k: byte): bv16
    requires k < 8
  {
    match k
    case 0 => 0x0000
    case 1 => 0xC0C1
    case 2 => 0xC181
    case 3 => 0x0140
    case 4 => 0xC301
    case 5 => 0x03C0
    case 6 => 0x0280
    case _ => 0xC241
  }

  predicate FirstRowRightAt(k: byte)
    requires k < 8
  {
    BitSteps(Wide(k), 8) == FirstRow(k)
  }

  lemma FirstRowRight(k: byte)
    requires k < 8
    ensures FirstRowRightAt(k)
  {
    assert FirstRowRightAt(0) && FirstRowRightAt(1) && FirstRowRightAt(2) && FirstRowRightAt(3);
    assert FirstRowRightAt(4) && FirstRowRightAt(5) && FirstRowRightAt(6) && FirstRowRightAt(7);
    hide FirstRowRightAt;
    SmallByte(k);
  }

  lemma SmallByte(k: byte)
    requires k < 8
    ensures k == 0 || k == 1 || k == 2 || k == 3 || k == 4 || k == 5 || k == 6 || k == 7
  {
  }

  predicate RowEntryAt(row: seq<bv16>, h: bv16, k: byte)
    requires |row| == 8 && k < 8
  {
    row[k as int] == Xor(h, FirstRow(k))
  }

  lemma RowEntry(row: seq<bv16>, h: bv16, k: byte)
    requires RowOf(row, h) && k < 8
    ensures RowEntryAt(row, h, k)
  {
    XorLaws(h, 0, 0);
    hide Xor;
    assert RowEntryAt(row, h, 0) && RowEntryAt(row, h, 1) && RowEntryAt(row, h, 2) && RowEntryAt(row, h, 3);
    assert RowEntryAt(row, h, 4) && RowEntryAt(row, h, 5) && RowEntryAt(row, h, 6) && RowEntryAt(row, h, 7);
    hide RowEntryAt;
    SmallByte(k);
  }

  lemma HiRowEntry(row: seq<byte>, h: byte, k: byte)
    requires HiRowOf(row, h) && k < 8
    ensures row[k as int] == h ^ Lo(FirstRow(k))
  {
    RawByteZero(h);
    SmallByte(k);
  }

  lemma LoRowEntry(row: seq<byte>, h: byte, k: byte)
    requires LoRowOf(row, h) && k < 8
    ensures row[k as int] == h ^ Hi(FirstRow(k))
  {
    RawByteZero(h);
    SmallByte(k);
  }

  lemma RawByteZero(b: byte)
    ensures b ^ 0 == b
  {
  }

  lemma RawIndex(i: byte)
    ensures (((i >> 3) << 3) as bv16) ^ ((i & 7) as bv16) == (i as bv16)
    ensures i >> 3 < 32 && i & 7 < 8
  {
  }

  lemma IndexSplit(i: byte)
    ensures Xor(Wide((i >> 3) << 3), Wide(i & 7)) == Wide(i)
    ensures i >> 3 < 32 && i & 7 < 8
  {
    RawIndex(i);
  }

  lemma EntryFromRows(i: byte, h: bv16)
    requires (i >> 3) < 32 && (i & 7) < 8
    requires RowOf(CrcModBusRow(i >> 3), h) && HiRowOf(CrcHiRow(i >> 3), Lo(h)) && LoRowOf(CrcLoRow(i >> 3), Hi(h))
    ensures CrcModBus(i) == Xor(h, FirstRow(i & 7))
    ensures TableCrcHi(i) == Lo(Xor(h, FirstRow(i & 7)))
    ensures TableCrcLo(i) == Hi(Xor(h, FirstRow(i & 7)))
  {
    hide Lo, Hi, Xor, CrcModBusRow, CrcHiRow, CrcLoRow, RowOf, HiRowOf, LoRowOf, FirstRow;
    RowEntry(CrcModBusRow(i >> 3), h, i & 7);
    HiRowEntry(CrcHiRow(i >> 3), Lo(h), i & 7);
    LoRowEntry(CrcLoRow(i >> 3), Hi(h), i & 7);
    BytesXor(h, FirstRow(i & 7));
  }

  /** Every table entry is the bitwise CRC step of its index; the split tables hold its two halves. */
  lemma TableEntry(i: byte)
    ensures CrcModBus(i) == BitSteps(Wide(i), 8)
    ensures TableCrcHi(i) == Lo(BitSteps(Wide(i), 8))
    ensures TableCrcLo(i) == Hi(BitSteps(Wide(i), 8))
  {
    IndexSplit(i);
    hide BitSteps, CrcModBusRow, CrcHiRow, CrcLoRow, Xor, Wide, RowOf, HiRowOf, LoRowOf, FirstRow;
    hide CrcModBus, TableCrcHi, TableCrcLo;
    AllRowsRight(i >> 3);
    FirstRowRight(i & 7);
    EntryFromRows(i, BitSteps(Wide((i >> 3) << 3), 8));
    StepsXor(Wide((i >> 3) << 3), Wide(i & 7), 8);
  }
}
