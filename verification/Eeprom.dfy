/** The 24AA08 EEPROM and its driver: pages, blocks, and when a write lands where it should. */
module Eeprom {
  import opened Bytes

  const BYTES_IN_BLOCK := 256   // `BYTESINPAGE` in the driver
  const BYTES_IN_PAGE := 16     // `BYTESINBLOCK` in the driver
  const SIZE := 1024

  predicate SamePage(a: nat, j: nat) { j / BYTES_IN_PAGE == a / BYTES_IN_PAGE }

  /** How many bytes after the one at a, the one at j of the same page is written. */
  function Ahead(a: nat, j: nat): int { if j >= a then j - a else j - a + BYTES_IN_PAGE }

  /** The device stores a page write at its address, wrapping inside the 16-byte page. */
  function PageWrite(mem: seq<byte>, a: nat, data: seq<byte>): (r: seq<byte>)
    requires a < |mem| && |data| <= BYTES_IN_PAGE
    ensures |r| == |mem|
  {
    seq(|mem|, j requires 0 <= j < |mem| => if SamePage(a, j) && 0 <= Ahead(a, j) < |data| then data[Ahead(a, j)] else mem[j])
  }

  /** How much the driver sends in its next transfer. */
  function Piece(dst: nat, len: nat): (n: nat)
    ensures n <= BYTES_IN_PAGE && n <= len
    ensures len > 0 ==> n > 0
  {
    var room := BYTES_IN_BLOCK - dst % BYTES_IN_BLOCK;
    var canWrite := if room >= BYTES_IN_PAGE then BYTES_IN_PAGE else room;
    if len <= canWrite then len else canWrite
  }

  /** The memory after all transfers of a write. */
  function Written(mem: seq<byte>, dst: nat, data: seq<byte>): (r: seq<byte>)
    requires dst + |data| <= |mem|
    ensures |r| == |mem|
    decreases |data|
  {
    if data == [] then mem else
      var n := Piece(dst, |data|);
      Written(PageWrite(mem, dst, data[..n]), dst + n, data[n..])
  }

  // The driver does not shorten its first transfer to the end of the page it starts in.

  /** Page-aligned, or in the last page of a block, or within one page. */
  predicate StaysInPages(dst: nat, len: nat) {
    dst % BYTES_IN_PAGE == 0 || dst % BYTES_IN_BLOCK > 240 || dst % BYTES_IN_PAGE + len <= BYTES_IN_PAGE
  }

  lemma PageWriteInPage(mem: seq<byte>, a: nat, data: seq<byte>)
    requires a + |data| <= |mem| && a % BYTES_IN_PAGE + |data| <= BYTES_IN_PAGE && a < |mem|
    ensures PageWrite(mem, a, data) == Spliced(mem, a, data)
  {
    forall j | 0 <= j < |mem| ensures PageWrite(mem, a, data)[j] == Spliced(mem, a, data)[j] {
    }
  }

  lemma {:induction false} WriteIsExact(mem: seq<byte>, dst: nat, data: seq<byte>)
    requires dst + |data| <= |mem| && StaysInPages(dst, |data|)
    ensures Written(mem, dst, data) == Spliced(mem, dst, data)
    decreases |data|
  {
    hide PageWrite, Spliced;
    if data == [] {
      SplicedNothing(mem, dst);
    } else {
      var n := Piece(dst, |data|);
      PieceInPage(dst, |data|);
      PageWriteInPage(mem, dst, data[..n]);
      WriteIsExact(PageWrite(mem, dst, data[..n]), dst + n, data[n..]);
      SplicedTwice(mem, dst, data[..n], data[n..]);
      assert data[..n] + data[n..] == data;
    }
  }

  lemma PieceInPage(dst: nat, len: nat)
    requires StaysInPages(dst, len) && len > 0
    ensures dst % BYTES_IN_PAGE + Piece(dst, len) <= BYTES_IN_PAGE
    ensures Piece(dst, len) < len ==> (dst + Piece(dst, len)) % BYTES_IN_PAGE == 0
  {
  }

  /** Transfers change no page below the one they start in. */
  lemma {:induction false} LowerPagesKept(mem: seq<byte>, dst: nat, data: seq<byte>, j: nat)
    requires dst + |data| <= |mem| && j < |mem| && j / BYTES_IN_PAGE < dst / BYTES_IN_PAGE
    ensures Written(mem, dst, data)[j] == mem[j]
    decreases |data|
  {
    if data != [] {
      var n := Piece(dst, |data|);
      LowerPagesKept(PageWrite(mem, dst, data[..n]), dst + n, data[n..], j);
    }
  }

  lemma FirstPieceWraps(dst: nat, len: nat)
    requires !StaysInPages(dst, len)
    ensures var k := dst % BYTES_IN_PAGE;
            && 0 < k <= dst && BYTES_IN_PAGE - k < Piece(dst, len) <= len
            && SamePage(dst, dst - k) && Ahead(dst, dst - k) == BYTES_IN_PAGE - k
            && (dst - k) / BYTES_IN_PAGE < (dst + Piece(dst, len)) / BYTES_IN_PAGE
  {
  }

  /** Otherwise a byte that was not to be written, the first of the page, is overwritten. */
  lemma WriteWrapsBack(mem: seq<byte>, dst: nat, data: seq<byte>)
    requires dst + |data| <= |mem| && !StaysInPages(dst, |data|)
    ensures var k := dst % BYTES_IN_PAGE;
            0 < k <= dst && BYTES_IN_PAGE - k < |data| && Written(mem, dst, data)[dst - k] == data[BYTES_IN_PAGE - k]
  {
    hide Piece, SamePage, Ahead, StaysInPages, Written, PageWrite;
    var k, n := dst % BYTES_IN_PAGE, Piece(dst, |data|);
    FirstPieceWraps(dst, |data|);
    WrittenFirst(mem, dst, data);
    PageWriteAt(mem, dst, data[..n], dst - k);
    if n < |data| {
      LowerPagesKept(PageWrite(mem, dst, data[..n]), dst + n, data[n..], dst - k);
    }
  }

  lemma WrittenFirst(mem: seq<byte>, dst: nat, data: seq<byte>)
    requires dst + |data| <= |mem| && data != []
    ensures var n := Piece(dst, |data|);
            var one := PageWrite(mem, dst, data[..n]);
            Written(mem, dst, data) == if n == |data| then one else Written(one, dst + n, data[n..])
  {
    hide PageWrite;
  }

  lemma PageWriteAt(mem: seq<byte>, a: nat, data: seq<byte>, j: nat)
    requires a < |mem| && j < |mem| && |data| <= BYTES_IN_PAGE && SamePage(a, j) && 0 <= Ahead(a, j) < |data|
    ensures PageWrite(mem, a, data)[j] == data[Ahead(a, j)]
  {
    hide SamePage, Ahead;
  }

  /** A write from dst of len bytes changes exactly [dst, dst + len), whatever the bytes and the memory. */
  ghost predicate AlwaysExact(dst: nat, len: nat) {
    forall mem: seq<byte>, data: seq<byte> :: |mem| == SIZE && |data| == len && dst + len <= SIZE ==>
      Written(mem, dst, data) == Spliced(mem, dst, data)
  }

  lemma WriteExactIff(dst: nat, len: nat)
    requires dst + len <= SIZE
    ensures AlwaysExact(dst, len) <==> StaysInPages(dst, len)
  {
    if StaysInPages(dst, len) {
      forall mem: seq<byte>, data: seq<byte> | |mem| == SIZE && |data| == len
        ensures Written(mem, dst, data) == Spliced(mem, dst, data)
      {
        WriteIsExact(mem, dst, data);
      }
    } else {
      var mem, data := seq(SIZE, _ => 0xFF as byte), seq(len, _ => 0 as byte);
      WriteWrapsBack(mem, dst, data);
      assert Spliced(mem, dst, data)[dst - dst % BYTES_IN_PAGE] == 0xFF;
      assert Written(mem, dst, data) != Spliced(mem, dst, data);
    }
  }

  /** The address byte of a transfer: control code, block, direction. */
  function DevAddr(block: nat, rw: nat): byte
    requires block < 8 && rw < 2
  {
    B(0xA0 + 2 * block + rw)
  }

  /** The block a device takes from the address byte. */
  function BlockOf(devAddr: byte): nat
    requires devAddr as int >= 0xA0
  {
    ((devAddr as int) - 0xA0) / 2
  }

  lemma BlockRoundTrip(block: nat, rw: nat)
    requires block < 8 && rw < 2
    ensures DevAddr(block, rw) as int >= 0xA0 && BlockOf(DevAddr(block, rw)) == block
  {
    NumberOfByte(0xA0 + 2 * block + rw);
  }

  lemma NothingStored(mem: seq<byte>, a: nat)
    requires a < |mem|
    ensures PageWrite(mem, a, []) == mem
  {
  }

  /** Where the i-th byte of a page write goes. */
  function Place(a: nat, i: nat): (at: int)
    ensures 0 <= at
  {
    a - a % BYTES_IN_PAGE + (a + i) % BYTES_IN_PAGE
  }

  lemma PlaceIsAhead(a: nat, i: nat, j: nat)
    requires i < BYTES_IN_PAGE
    ensures SamePage(a, j) && Ahead(a, j) == i <==> j == Place(a, i)
  {
    var o := a % BYTES_IN_PAGE;
    assert (a + i) % BYTES_IN_PAGE == if o + i < BYTES_IN_PAGE then o + i else o + i - BYTES_IN_PAGE;
  }

  lemma StoreOne(mem: seq<byte>, a: nat, data: seq<byte>, i: nat)
    requires a < |mem| && |mem| % BYTES_IN_PAGE == 0 && i < |data| <= BYTES_IN_PAGE
    ensures Place(a, i) < |mem|
    ensures PageWrite(mem, a, data[..i + 1]) == PageWrite(mem, a, data[..i])[Place(a, i) := data[i]]
  {
    PlaceIsAhead(a, i, Place(a, i));
    PageInMemory(a, Place(a, i), |mem|);
    hide SamePage, Ahead, Place;
    var one, all := PageWrite(mem, a, data[..i])[Place(a, i) := data[i]], PageWrite(mem, a, data[..i + 1]);
    forall j | 0 <= j < |mem| ensures all[j] == one[j] {
      PlaceIsAhead(a, i, j);
    }
  }

  lemma PageInMemory(a: nat, j: nat, n: nat)
    requires SamePage(a, j) && a < n && n % BYTES_IN_PAGE == 0
    ensures j < n
  {
  }

  /** The device on its bus. A transfer may be refused at any time, and then stores nothing. */
  class Device {
    const mem: array<byte>
    var pointer: nat

    ghost predicate Valid()
      reads this
    {
      mem.Length == SIZE && pointer < SIZE
    }

    constructor (contents: seq<byte>)
      requires |contents| == SIZE
      ensures Valid() && mem[..] == contents && fresh(mem)
    {
      mem, pointer := new byte[SIZE](i requires 0 <= i < SIZE => contents[i]), 0;
    }

    /** An address byte, the address in the block, and up to a page of data. */
    method Write(devAddr: byte, frame: seq<byte>) returns (ok: bool)
      requires Valid() && devAddr as int >= 0xA0 && BlockOf(devAddr) < 4 && 1 <= |frame| <= 1 + BYTES_IN_PAGE
      modifies this, mem
      ensures Valid()
      ensures ok ==> pointer == BYTES_IN_BLOCK * BlockOf(devAddr) + frame[0] as int
      ensures mem[..] == if ok then PageWrite(old(mem[..]), BYTES_IN_BLOCK * BlockOf(devAddr) + frame[0] as int, frame[1..]) else old(mem[..])
    {
      ok := *;
      if !ok {
        return;
      }
      pointer := BYTES_IN_BLOCK * BlockOf(devAddr) + frame[0] as int;
      Store(pointer, frame[1..]);
    }

    /** The data goes into one page. */
    method Store(a: nat, data: seq<byte>)
      requires a < mem.Length && |data| <= BYTES_IN_PAGE && mem.Length % BYTES_IN_PAGE == 0
      modifies mem
      ensures mem[..] == PageWrite(old(mem[..]), a, data)
    {
      hide PageWrite;
      ghost var was := mem[..];
      var page, i := a - a % BYTES_IN_PAGE, 0;
      NothingStored(was, a);
      assert data[..0] == [];
      while i < |data|
        invariant 0 <= i <= |data|
        invariant mem[..] == PageWrite(was, a, data[..i])
      {
        StoreOne(was, a, data, i);
        mem[page + (a + i) % BYTES_IN_PAGE] := data[i];
        i := i + 1;
      }
      assert data[..i] == data;
    }

    /** Sequential read from the pointer on. */
    method Read(dst: array<byte>, len: nat) returns (ok: bool)
      requires Valid() && len <= dst.Length && pointer + len <= SIZE && dst != mem
      modifies dst
      ensures ok ==> dst[..len] == mem[pointer..pointer + len]
      ensures dst[len..] == old(dst[len..])
    {
      ok := *;
      if ok {
        Put(dst, 0, mem[pointer..pointer + len]);
      }
    }
  }

  /** `Eep24AA`. */
  class Driver {
    const device: Device

    constructor (device: Device)
      ensures this.device == device
    {
      this.device := device;
    }

    method Write(dst0: nat, src: seq<byte>) returns (ok: bool)
      requires device.Valid() && dst0 + |src| <= SIZE
      modifies device, device.mem
      ensures device.Valid()
      ensures ok ==> device.mem[..] == Written(old(device.mem[..]), dst0, src)
      ensures src == [] ==> !ok && device.mem[..] == old(device.mem[..])
      ensures !ok && StaysInPages(dst0, |src|) ==>
                exists n :: 0 <= n <= |src| && device.mem[..] == Spliced(old(device.mem[..]), dst0, src[..n])
    {
      hide PageWrite, Spliced;
      ghost var was := device.mem[..];
      SplicedNothing(was, dst0);
      assert src[..0] == [];
      if src == [] {
        return false;
      }
      var dst, data := dst0, src;
      while data != []
        invariant device.Valid() && dst0 <= dst && dst + |data| == dst0 + |src| && data == src[dst - dst0..]
        invariant Written(device.mem[..], dst, data) == Written(was, dst0, src)
        invariant StaysInPages(dst0, |src|) ==> StaysInPages(dst, |data|)
        invariant StaysInPages(dst0, |src|) ==> device.mem[..] == Spliced(was, dst0, src[..dst - dst0])
        decreases |data|
      {
        var n := Piece(dst, |data|);
        ok := Send(dst, data[..n]);
        if !ok {
          return;
        }
        if StaysInPages(dst0, |src|) {
          PieceInPage(dst, |data|);
          PageWriteInPage(Spliced(was, dst0, src[..dst - dst0]), dst, data[..n]);
          SplicedTwice(was, dst0, src[..dst - dst0], data[..n]);
          assert src[..dst - dst0] + data[..n] == src[..dst + n - dst0];
        }
        dst, data := dst + n, data[n..];
      }
      ok := true;
    }

    /** One transfer: block and address in the block, then the data. */
    method Send(dst: nat, data: seq<byte>) returns (ok: bool)
      requires device.Valid() && dst < SIZE && |data| <= BYTES_IN_PAGE
      modifies device, device.mem
      ensures device.Valid()
      ensures ok ==> device.pointer == dst
      ensures device.mem[..] == if ok then PageWrite(old(device.mem[..]), dst, data) else old(device.mem[..])
    {
      hide PageWrite, B, DevAddr, BlockOf;
      var block, adrInBlock := dst / BYTES_IN_BLOCK, dst % BYTES_IN_BLOCK;
      BlockRoundTrip(block, 0);
      NumberOfByte(adrInBlock);
      var frame := [B(adrInBlock)] + data;
      assert frame[1..] == data;
      ok := device.Write(DevAddr(block, 0), frame);
    }

    method Read(dst: array<byte>, src: nat, len: nat) returns (ok: bool)
      requires device.Valid() && src < SIZE && src + len <= SIZE && len <= dst.Length && dst != device.mem
      modifies device, device.mem, dst
      ensures device.Valid() && device.mem[..] == old(device.mem[..])
      ensures len == 0 ==> !ok
      ensures ok ==> dst[..len] == device.mem[src..src + len]
      ensures dst[len..] == old(dst[len..])
    {
      if len == 0 {
        return false;
      }
      NothingStored(device.mem[..], src);
      ok := Send(src, []);
      if ok {
        ok := device.Read(dst, len);
      }
    }
  }
}
