/** On-chip flash of the STM32F407 (1 MB) and the driver `flash.c`. Addresses are offsets from 0x08000000. */
module Flash {
  type byte = bv8

  const CAPACITY: int := 0x10_0000
  const PAGE: int := 0x2_0000
  const BLANK: byte := 0xFF

  // The device: four sectors of 16K, one of 64K, seven of 128K.

  function SectorStart(n: int): int {
    if n <= 4 then n * 0x4000 else (n - 4) * 0x2_0000
  }

  function SectorEnd(n: int): int {
    SectorStart(n + 1)
  }

  /** The sector number `flash_erasePage` computes from an address. */
  function SectorNumber(addr: int): int
    requires 0 <= addr < CAPACITY
  {
    if addr <= 0xFFFF then addr / 0x4000
    else if 0x1_0000 <= addr <= 0x1_FFFF then 4
    else 5 + (addr - 0x2_0000) / 0x2_0000
  }

  /** The sector that `flash_erasePage` selects is the one holding the address. */
  lemma SectorHoldsAddress(addr: int)
    requires 0 <= addr < CAPACITY
    ensures 0 <= SectorNumber(addr) <= 11
    ensures SectorStart(SectorNumber(addr)) <= addr < SectorEnd(SectorNumber(addr))
    ensures 0x2_0000 <= addr && addr % PAGE == 0 ==>
              SectorStart(SectorNumber(addr)) == addr && SectorEnd(SectorNumber(addr)) == addr + PAGE
  {
  }

  function Erased(f: seq<byte>, a: int, b: int): (r: seq<byte>)
    requires 0 <= a <= b <= |f|
    ensures |r| == |f|
  {
    seq(|f|, i requires 0 <= i < |f| => if a <= i < b then BLANK else f[i])
  }

  /** Programming a byte can only clear bits. */
  function Programmed(f: seq<byte>, a: int, b: byte): seq<byte>
    requires 0 <= a < |f|
  {
    f[a := f[a] & b]
  }

  function ProgrammedAll(f: seq<byte>, a: int, data: seq<byte>): (r: seq<byte>)
    requires 0 <= a && a + |data| <= |f|
    ensures |r| == |f|
  {
    seq(|f|, i requires 0 <= i < |f| => if a <= i < a + |data| then f[i] & data[i - a] else f[i])
  }

  lemma ProgramBlank(b: byte)
    ensures BLANK & b == b
    ensures b & b == b
  {
  }

  class Memory {
    const cells: array<byte>

    constructor ()
      ensures cells.Length == CAPACITY && fresh(cells)
    {
      cells := new byte[CAPACITY];
    }

    /** `flash_erasePage`. */
    method ErasePage(addr: int)
      requires cells.Length == CAPACITY && 0 <= addr < CAPACITY
      modifies cells
      ensures var n := SectorNumber(addr);
              && 0 <= SectorStart(n) <= SectorEnd(n) <= CAPACITY
              && cells[..] == Erased(old(cells[..]), SectorStart(n), SectorEnd(n))
    {
      SectorHoldsAddress(addr);
      var n := SectorNumber(addr);
      var i := SectorStart(n);
      while i < SectorEnd(n)
        invariant SectorStart(n) <= i <= SectorEnd(n)
        invariant forall k :: SectorStart(n) <= k < i ==> cells[k] == BLANK
        invariant forall k :: 0 <= k < CAPACITY && !(SectorStart(n) <= k < i) ==> cells[k] == old(cells[k])
      {
        cells[i] := BLANK;
        i := i + 1;
      }
    }

    /** `flash_write` from a buffer in RAM. */
    method Write(dst: int, src: seq<byte>)
      requires cells.Length == CAPACITY && 0 <= dst && dst + |src| <= CAPACITY
      modifies cells
      ensures cells[..] == ProgrammedAll(old(cells[..]), dst, src)
    {
      var rd, wr := 0, dst;
      while wr < dst + |src|
        invariant 0 <= rd <= |src| && wr == dst + rd
        invariant forall k :: dst <= k < wr ==> cells[k] == old(cells[k]) & src[k - dst]
        invariant forall k :: 0 <= k < CAPACITY && !(dst <= k < wr) ==> cells[k] == old(cells[k])
      {
        cells[wr] := cells[wr] & src[rd];
        rd, wr := rd + 1, wr + 1;
      }
    }
  }
}
