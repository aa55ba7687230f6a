/** Firmware images: the header of `imageheader.h` and the check of `boot.cpp`. */
module Image {
  import opened Flash
  import Words32
  import Crc32

  const HEADER_SIZE: nat := 28
  const SKIP: nat := 8
  /** A 32-bit header field, as a number. */
  function Field(img: seq<byte>, at: nat): nat
    requires at + 4 <= |img|
  {
    (img[at] as int) + 0x100 * (img[at + 1] as int) + 0x1_0000 * (img[at + 2] as int) + 0x100_0000 * (img[at + 3] as int)
  }

  /** The magic 0x36232587, as its bytes lie in memory. */
  predicate HasMagic(img: seq<byte>)
    requires |img| >= HEADER_SIZE
  {
    img[8] == 0x87 && img[9] == 0x25 && img[10] == 0x23 && img[11] == 0x36
  }

  function Size(img: seq<byte>): nat
    requires |img| >= HEADER_SIZE
  {
    Field(img, 4)
  }

  function ExeOffset(img: seq<byte>): nat
    requires |img| >= HEADER_SIZE
  {
    Field(img, 24)
  }

  function ZeroSkip(): seq<byte> {
    [0, 0, 0, 0, 0, 0, 0, 0]
  }

  /** The CRC that the first n bytes should carry: CRC and size fields count as zero. */
  function ImageCrc(img: seq<byte>, n: nat): bv32
    requires SKIP <= n <= |img|
  {
    Crc32.Crc(ZeroSkip() + img[SKIP..n])
  }

  function StoredCrc(img: seq<byte>): bv32
    requires |img| >= HEADER_SIZE
  {
    Words32.Word(img[0], img[1], img[2], img[3])
  }

  /** If the header claims to be an image, its size field is usable: header included, within bound. */
  predicate WellSized(img: seq<byte>, bound: nat)
    requires |img| >= HEADER_SIZE
  {
    HasMagic(img) && Size(img) != 0 ==> HEADER_SIZE <= Size(img) <= bound
  }

  /** `checkProgram`, of an image that may be at most `bound` bytes long. */
  predicate Check(img: seq<byte>, bound: nat)
    requires HEADER_SIZE <= |img| && bound <= |img| && WellSized(img, bound)
  {
    HasMagic(img) && Size(img) != 0 && StoredCrc(img) == ImageCrc(img, Size(img))
  }

  /** The comparison with which `main` of `boot.cpp` decides whether two good images differ. */
  predicate SameRelease(a: seq<byte>, b: seq<byte>)
    requires |a| >= HEADER_SIZE && |b| >= HEADER_SIZE
  {
    a[0..4] == b[0..4] && a[12..24] == b[12..24]
  }

  /** The check looks at nothing beyond the image's own size. */
  lemma CheckReadsOnlyTheImage(a: seq<byte>, b: seq<byte>, bound: nat)
    requires HEADER_SIZE <= |a| && bound <= |a| && WellSized(a, bound)
    requires Check(a, bound)
    requires HEADER_SIZE <= |b| && bound <= |b| && b[..Size(a)] == a[..Size(a)]
    ensures Size(b) == Size(a) && WellSized(b, bound) && Check(b, bound)
    ensures SameRelease(b, a) && ExeOffset(a) == ExeOffset(b)
  {
    hide Crc32.Crc;
    var n := Size(a);
    var p := a[..n];
    assert forall i :: 0 <= i < n ==> a[i] == p[i] == b[i];
    assert a[SKIP..n] == b[SKIP..n];
    assert a[0..4] == b[0..4] && a[12..24] == b[12..24];
  }
}
