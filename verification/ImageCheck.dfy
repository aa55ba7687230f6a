/** The image check and the release comparison of `boot.cpp`, byte by byte, and what the check rejects. */
module ImageCheck {
  import opened Flash
  import opened Image
  import Bytes
  import Words32
  import Crc32
  import CrcUnit

  /** Byte k of a word, counted from the lowest. */
  function Byte0(c: bv32): byte { (c & 0xFF) as bv8 }

  function Byte1(c: bv32): byte { ((c >> 8) & 0xFF) as bv8 }

  function Byte2(c: bv32): byte { ((c >> 16) & 0xFF) as bv8 }

  function Byte3(c: bv32): byte { (c >> 24) as bv8 }

  /** The four bytes of a word in memory, lowest first. */
  function LittleEndian(c: bv32): (b: seq<byte>)
    ensures |b| == 4
  {
    [Byte0(c), Byte1(c), Byte2(c), Byte3(c)]
  }

  lemma RawBytes(b0: byte, b1: byte, b2: byte, b3: byte, c: bv32)
    ensures (b0 as bv32) ^ (((b1 as bv32) ^ (((b2 as bv32) ^ ((b3 as bv32) << 8)) << 8)) << 8) == c <==>
            b0 == (c & 0xFF) as bv8 && b1 == ((c >> 8) & 0xFF) as bv8 && b2 == ((c >> 16) & 0xFF) as bv8 && b3 == (c >> 24) as bv8
  {
  }

  lemma WordByBytes(b0: byte, b1: byte, b2: byte, b3: byte, c: bv32)
    ensures Words32.Word(b0, b1, b2, b3) == c <==> b0 == Byte0(c) && b1 == Byte1(c) && b2 == Byte2(c) && b3 == Byte3(c)
  {
    WordUnfolds(b0, b1, b2, b3);
    hide Words32.Word;
    RawBytes(b0, b1, b2, b3, c);
  }

  lemma WordUnfolds(b0: byte, b1: byte, b2: byte, b3: byte)
    ensures Words32.Word(b0, b1, b2, b3) ==
            (b0 as bv32) ^ (((b1 as bv32) ^ (((b2 as bv32) ^ ((b3 as bv32) << 8)) << 8)) << 8)
  {
  }

  lemma SameBytes(a: bv32, b: bv32)
    ensures LittleEndian(a) == LittleEndian(b) ==> a == b
  {
    hide Byte0, Byte1, Byte2, Byte3, Words32.Word;
    var m, n := LittleEndian(a), LittleEndian(b);
    if m == n {
      assert m[0] == n[0] && m[1] == n[1] && m[2] == n[2] && m[3] == n[3];
      WordByBytes(m[0], m[1], m[2], m[3], a);
      WordByBytes(m[0], m[1], m[2], m[3], b);
    }
  }

  /** The stored CRC is c exactly when the first four bytes are those of c. */
  lemma StoredCrcInMemory(img: seq<byte>, c: bv32)
    requires |img| >= HEADER_SIZE
    ensures StoredCrc(img) == c <==> img[0..4] == LittleEndian(c)
  {
    hide Words32.Word, Byte0, Byte1, Byte2, Byte3;
    WordByBytes(img[0], img[1], img[2], img[3], c);
    assert img[0..4] == [img[0], img[1], img[2], img[3]];
    var m := LittleEndian(c);
    assert m[0] == Byte0(c) && m[1] == Byte1(c) && m[2] == Byte2(c) && m[3] == Byte3(c);
    if StoredCrc(img) == c {
      assert img[0..4] == m;
    }
  }

  /**
   An image passes exactly when it carries the magic bytes and a size, and its first four bytes are
   the CRC-32 of eight zero bytes followed by the rest of it.
   */
  lemma PassesIff(img: seq<byte>, bound: nat)
    requires HEADER_SIZE <= |img| && bound <= |img| && WellSized(img, bound)
    ensures var n := (img[4] as int) + 0x100 * (img[5] as int) + 0x1_0000 * (img[6] as int) + 0x100_0000 * (img[7] as int);
            Check(img, bound) <==>
            && img[8..12] == [0x87, 0x25, 0x23, 0x36] && n != 0
            && 28 <= n <= bound && img[0..4] == LittleEndian(Crc32.Crc([0, 0, 0, 0, 0, 0, 0, 0] + img[8..n]))
  {
    hide LittleEndian, Crc32.Crc, Words32.Word;
    assert img[8..12] == [img[8], img[9], img[10], img[11]];
    if HasMagic(img) && Size(img) != 0 {
      StoredCrcInMemory(img, ImageCrc(img, Size(img)));
    }
  }

  // What the check rejects.

  lemma UpdateInjective(c: bv32, x: byte, y: byte)
    requires Crc32.Update(c, x) == Crc32.Update(c, y)
    ensures x == y
  {
    hide Crc32.BitSteps;
    Crc32.StepsInjective(Words32.Xor(c, Words32.Wide(x)), Words32.Xor(c, Words32.Wide(y)), 8);
    RawWideXor(c, x, y);
  }

  lemma RawWideXor(c: bv32, x: byte, y: byte)
    ensures c ^ (x as bv32) == c ^ (y as bv32) ==> x == y
  {
  }

  /** One wrong byte changes the CRC-32 of a message of any length. */
  lemma OneByteDetected(pre: seq<byte>, x: byte, y: byte, post: seq<byte>)
    requires x != y
    ensures Crc32.Crc(pre + [x] + post) != Crc32.Crc(pre + [y] + post)
  {
    hide Crc32.Update, Words32.Not, Crc32.State;
    if Crc32.Crc(pre + [x] + post) == Crc32.Crc(pre + [y] + post) {
      var c := Crc32.State(Crc32.INIT, pre);
      Fed(pre, x, post);
      Fed(pre, y, post);
      CrcUnit.NotInjective(Crc32.State(Crc32.Update(c, x), post), Crc32.State(Crc32.Update(c, y), post));
      CrcUnit.StateInjective(Crc32.Update(c, x), Crc32.Update(c, y), post);
      UpdateInjective(c, x, y);
      assert false;
    }
  }

  lemma Fed(pre: seq<byte>, x: byte, post: seq<byte>)
    ensures Crc32.State(Crc32.INIT, pre + [x] + post) ==
            Crc32.State(Crc32.Update(Crc32.State(Crc32.INIT, pre), x), post)
  {
    hide Crc32.Update, Crc32.State;
    CrcUnit.StateConcat(Crc32.INIT, pre + [x], post);
    CrcUnit.StateConcat(Crc32.INIT, pre, [x]);
    CrcUnit.StateOne(Crc32.State(Crc32.INIT, pre), x);
  }

  /** What the CRC covers: eight zero bytes, and the image from its ninth byte on. */
  function Covered(img: seq<byte>, n: nat): seq<byte>
    requires 8 <= n <= |img|
  {
    [0, 0, 0, 0, 0, 0, 0, 0] + img[8..n]
  }

  lemma WrongCoveredByte(img: seq<byte>, n: nat, k: nat, x: byte)
    requires 12 <= k < n <= |img| && x != img[k]
    ensures LittleEndian(Crc32.Crc(Covered(img[k := x], n))) != LittleEndian(Crc32.Crc(Covered(img, n)))
  {
    hide Crc32.Crc, LittleEndian;
    var zeros: seq<byte> := [0, 0, 0, 0, 0, 0, 0, 0];
    var pre, post := zeros + img[8..k], img[k + 1..n];
    OneByteDetected(pre, img[k], x, post);
    assert Covered(img, n) == pre + [img[k]] + post;
    assert Covered(img[k := x], n) == pre + [x] + post;
    SameBytes(Crc32.Crc(Covered(img, n)), Crc32.Crc(Covered(img[k := x], n)));
  }

  /** An image that passes no longer does with one byte changed, anywhere within its size but in the size field. */
  lemma WrongByteFails(img: seq<byte>, bound: nat, k: nat, x: byte)
    requires HEADER_SIZE <= |img| && bound <= |img| && WellSized(img, bound) && Check(img, bound)
    requires k < Size(img) && !(4 <= k < 8) && x != img[k]
    ensures var bad := img[k := x];
            Size(bad) == Size(img) && WellSized(bad, bound) && !Check(bad, bound)
  {
    hide LittleEndian, Crc32.Crc, Words32.Word;
    var bad, n := img[k := x], Size(img);
    if k < 4 || 12 <= k {
      assert HasMagic(bad) && Size(bad) == n;
      StoredCrcInMemory(img, ImageCrc(img, n));
      StoredCrcInMemory(bad, ImageCrc(bad, n));
      if k < 4 {
        WrongStoredByte(img, n, k, x);
      } else {
        assert bad[0..4] == img[0..4];
        WrongCoveredByte(img, n, k, x);
      }
    }
  }

  lemma WrongStoredByte(img: seq<byte>, n: nat, k: nat, x: byte)
    requires k < 4 && 8 <= n <= |img| && x != img[k]
    ensures Covered(img[k := x], n) == Covered(img, n) && img[k := x][0..4] != img[0..4]
  {
    assert img[k := x][8..n] == img[8..n];
    assert img[k := x][0..4][k] == x && img[0..4][k] == img[k];
  }

  // The release of an image.

  lemma SameValues(a: byte, b: byte)
    ensures Bytes.Value(a) == Bytes.Value(b) <==> a == b
  {
    Bytes.ByteOfNumber(a);
    if a as int == b as int {
      Bytes.SameNumber(a, b);
    }
  }

  /** The number of four bytes, as a header field has it. */
  function Number(b0: byte, b1: byte, b2: byte, b3: byte): int {
    Bytes.Value(b0) + 0x100 * Bytes.Value(b1) + 0x1_0000 * Bytes.Value(b2) + 0x100_0000 * Bytes.Value(b3)
  }

  lemma NumbersOfBytes(a0: byte, a1: byte, a2: byte, a3: byte, b0: byte, b1: byte, b2: byte, b3: byte)
    ensures Number(a0, a1, a2, a3) == Number(b0, b1, b2, b3) <==> a0 == b0 && a1 == b1 && a2 == b2 && a3 == b3
  {
    hide Bytes.Value;
    SameValues(a0, b0);
    SameValues(a1, b1);
    SameValues(a2, b2);
    SameValues(b0, a0);
    SameValues(b1, a1);
    SameValues(b2, a2);
    SameValues(a3, b3);
    if Number(a0, a1, a2, a3) == Number(b0, b1, b2, b3) {
      var a23, b23 := Bytes.Value(a2) + 0x100 * Bytes.Value(a3), Bytes.Value(b2) + 0x100 * Bytes.Value(b3);
      LowDigit(Bytes.Value(a0), Bytes.Value(b0), Bytes.Value(a1) + 0x100 * a23, Bytes.Value(b1) + 0x100 * b23);
      LowDigit(Bytes.Value(a1), Bytes.Value(b1), a23, b23);
      LowDigit(Bytes.Value(a2), Bytes.Value(b2), Bytes.Value(a3), Bytes.Value(b3));
    }
  }

  lemma LowDigit(a: int, b: int, x: int, y: int)
    requires 0 <= a < 256 && 0 <= b < 256 && a + 0x100 * x == b + 0x100 * y
    ensures a == b && x == y
  {
  }

  lemma FieldDigits(a: seq<byte>, b: seq<byte>, at: nat)
    requires at + 4 <= |a| && at + 4 <= |b|
    ensures Field(a, at) == Field(b, at) <==>
            a[at] == b[at] && a[at + 1] == b[at + 1] && a[at + 2] == b[at + 2] && a[at + 3] == b[at + 3]
  {
    assert Field(a, at) == Number(a[at], a[at + 1], a[at + 2], a[at + 3]);
    assert Field(b, at) == Number(b[at], b[at + 1], b[at + 2], b[at + 3]);
    hide Field, Number;
    NumbersOfBytes(a[at], a[at + 1], a[at + 2], a[at + 3], b[at], b[at + 1], b[at + 2], b[at + 3]);
  }

  /** A header field is the number of its four bytes, and determines them. */
  lemma FieldIsBytes(a: seq<byte>, b: seq<byte>, at: nat)
    requires at + 4 <= |a| && at + 4 <= |b|
    ensures Field(a, at) == Field(b, at) <==> a[at..at + 4] == b[at..at + 4]
  {
    hide Field;
    FieldDigits(a, b, at);
    FourElements(a[at..at + 4], b[at..at + 4]);
  }

  lemma FourElements(x: seq<byte>, y: seq<byte>)
    requires |x| == |y| == 4
    ensures x == y <==> x[0] == y[0] && x[1] == y[1] && x[2] == y[2] && x[3] == y[3]
  {
  }

  /** Two images are of one release exactly when their CRC and their three version numbers agree. */
  lemma SameReleaseIff(a: seq<byte>, b: seq<byte>)
    requires |a| >= HEADER_SIZE && |b| >= HEADER_SIZE
    ensures SameRelease(a, b) <==>
            && Field(a, 0) == Field(b, 0) && Field(a, 12) == Field(b, 12)
            && Field(a, 16) == Field(b, 16) && Field(a, 20) == Field(b, 20)
  {
    hide Field;
    FieldIsBytes(a, b, 0);
    FieldIsBytes(a, b, 12);
    FieldIsBytes(a, b, 16);
    FieldIsBytes(a, b, 20);
    assert a[12..24] == a[12..16] + a[16..20] + a[20..24] && b[12..24] == b[12..16] + b[16..20] + b[20..24];
    if SameRelease(a, b) {
      assert a[12..16] == a[12..24][0..4] && a[16..20] == a[12..24][4..8] && a[20..24] == a[12..24][8..12];
      assert b[12..16] == b[12..24][0..4] && b[16..20] == b[12..24][4..8] && b[20..24] == b[12..24][8..12];
    }
  }
}
