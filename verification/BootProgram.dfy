/** `boot.cpp` itself: its loops over the flash, proved to perform the machine's boot. */
module BootProgram {
  import opened Flash
  import opened Image
  import opened BootMachine
  import opened BootSafety
  import opened BootConvergence
  import Words32
  import Crc32
  import CrcUnit

  datatype Outcome = Executes(exe: nat) | LoopsForever

  function PcOf(o: Outcome): Pc {
    match o
    case Executes(exe) => Running(exe)
    case LoopsForever => Halted
  }

  lemma BootUnfolds(l: Layout, s: State)
    requires l.Valid() && Invariant(l, s) && Stage(s.pc) != 0
    ensures Invariant(l, Next(l, s)) && Boot(l, s) == Boot(l, Next(l, s))
  {
    NextKeeps(l, s);
  }

  /** The two chained calls of `checkProgram` compute the image CRC. */
  lemma ChainedCrc(img: seq<byte>, n: nat, r: bv32)
    requires HEADER_SIZE <= n <= |img|
    requires Words32.Rbit(r) == Crc32.State(Crc32.INIT, ZeroSkip())
    ensures CrcUnit.Posix(r, img[SKIP..n]) == ImageCrc(img, n)
  {
    CrcUnit.PosixChained(r, ZeroSkip(), img[SKIP..n]);
  }

  class Bootloader {
    const layout: Layout
    const flash: Memory
    const unit: CrcUnit.Unit

    ghost predicate Valid()
      reads flash.cells
    {
      && layout.Valid()
      && flash.cells.Length == CAPACITY
      && Readable(layout, flash.cells[..])
    }

    constructor (layout: Layout, flash: Memory, unit: CrcUnit.Unit)
      ensures this.layout == layout && this.flash == flash && this.unit == unit
    {
      this.layout, this.flash, this.unit := layout, flash, unit;
    }

    /** The two calls with which `checkProgram` computes the CRC of n bytes of an image. */
    method ImageCrcAt(addr: nat, n: nat) returns (crc: bv32)
      requires flash.cells.Length == CAPACITY && HEADER_SIZE <= n && addr + n <= CAPACITY
      modifies unit
      ensures crc == ImageCrc(flash.cells[addr..addr + n], n)
    {
      CrcUnit.RbitZero();
      hide Words32.Rbit, Crc32.State, Crc32.Crc, CrcUnit.Posix;
      crc := unit.Crc32Posix(ZeroSkip(), true);
      ghost var r, img := unit.dr, flash.cells[addr..addr + n];
      ChainedCrc(img, n, r);
      assert flash.cells[addr + SKIP..addr + n] == img[SKIP..n];
      crc := unit.Crc32Posix(flash.cells[addr + SKIP..addr + n], false);
    }

    /** `checkProgram`, of the region from `addr` to `end`. */
    method CheckProgram(addr: nat, end: nat) returns (ok: bool)
      requires flash.cells.Length == CAPACITY
      requires addr + PAGE <= end <= CAPACITY && layout.Bound() <= end - addr
      requires WellSized(flash.cells[addr..end], layout.Bound())
      modifies unit
      ensures ok == Check(flash.cells[addr..end], layout.Bound())
    {
      hide Words32.Word, ImageCrc;
      var header := flash.cells[addr..addr + HEADER_SIZE];
      ghost var img := flash.cells[addr..end];
      assert img[..HEADER_SIZE] == header;
      HeaderOnly(img, header);
      if !HasMagic(header) {
        return false;
      }
      var size := Size(header);
      if size == 0 {
        return false;
      }
      var crc := ImageCrcAt(addr, size);
      assert flash.cells[addr..addr + size] == img[..size];
      PrefixCrc(img, size);
      ok := StoredCrc(header) == crc;
    }

    /** Flash and machine agree, and the machine is on a boot that began with flash f. */
    ghost predicate Tracks(f: seq<byte>, s: State)
      reads flash.cells
    {
      && layout.Valid() && flash.cells.Length == CAPACITY
      && |f| == CAPACITY && Readable(layout, f)
      && s.flash == flash.cells[..]
      && Invariant(layout, s)
      && Boot(layout, State(f, Start)) == Boot(layout, s)
    }

    /** The loop that erases main. */
    method EraseMainPages(ghost f: seq<byte>, ghost s: State) returns (ghost t: State)
      requires Tracks(f, s) && s.pc == EraseMain(0)
      modifies flash.cells
      ensures Tracks(f, t) && t.pc == EraseMain(layout.mainPages)
    {
      hide Invariant, Boot, Readable, Next, Erased;
      t := s;
      ghost var k := 0;
      var p := layout.Main();
      while p < layout.Storage()
        invariant 0 <= k <= layout.mainPages && p == layout.Main() + k * PAGE
        invariant Tracks(f, t) && t.pc == EraseMain(k)
      {
        EraseMainStep(layout, t);
        BootUnfolds(layout, t);
        SectorHoldsAddress(p);
        flash.ErasePage(p);
        t := Next(layout, t);
        p, k := p + PAGE, k + 1;
      }
    }

    /** The store in the loop of `flash_write`: the hardware only clears bits. */
    method ProgramByte(wr: nat, b: byte)
      requires flash.cells.Length == CAPACITY && wr < CAPACITY
      modifies flash.cells
      ensures flash.cells[..] == Programmed(old(flash.cells[..]), wr, b)
    {
      flash.cells[wr] := flash.cells[wr] & b;
    }

    /** `flash_write` from storage to main. */
    method CopyImage(ghost f: seq<byte>, ghost s: State, num: nat) returns (ghost t: State)
      requires Tracks(f, s) && s.pc == Program(0, num)
      modifies flash.cells
      ensures Tracks(f, t) && t.pc == Program(num, num)
    {
      ProgramRange(layout, s);
      hide Invariant, Boot, Readable, Next;
      t := s;
      var m := flash.cells;
      var rd, wr := layout.Storage(), layout.Main();
      while wr < layout.Main() + num
        invariant layout.Main() <= wr <= layout.Main() + num && rd - layout.Storage() == wr - layout.Main()
        invariant Tracks(f, t) && t.pc == Program(wr - layout.Main(), num)
      {
        ProgramStep(layout, t);
        BootUnfolds(layout, t);
        ProgramByte(wr, m[rd]);
        t := Next(layout, t);
        wr, rd := wr + 1, rd + 1;
      }
    }

    /** The loop that erases the storage. */
    method EraseStoragePages(ghost f: seq<byte>, ghost s: State) returns (ghost t: State)
      requires Tracks(f, s) && s.pc == EraseStorage(0)
      modifies flash.cells
      ensures Tracks(f, t) && t.pc == EraseStorage(layout.storagePages)
    {
      hide Invariant, Boot, Readable, Next, Erased;
      t := s;
      ghost var k := 0;
      var p := layout.Storage();
      while p < layout.End()
        invariant 0 <= k <= layout.storagePages && p == layout.Storage() + k * PAGE
        invariant Tracks(f, t) && t.pc == EraseStorage(k)
      {
        EraseStorageStep(layout, t);
        BootUnfolds(layout, t);
        SectorHoldsAddress(p);
        flash.ErasePage(p);
        t := Next(layout, t);
        p, k := p + PAGE, k + 1;
      }
    }

    /** Whether the main region holds a good image. */
    method MainPasses() returns (ok: bool)
      requires Valid()
      modifies unit
      ensures ok == MainGood(layout, flash.cells[..])
    {
      hide Check, WellSized;
      assert flash.cells[..][layout.Main()..layout.Storage()] == flash.cells[layout.Main()..layout.Storage()];
      ok := CheckProgram(layout.Main(), layout.Storage());
    }

    method StoragePasses() returns (ok: bool)
      requires Valid()
      modifies unit
      ensures ok == StorageGood(layout, flash.cells[..])
    {
      hide Check, WellSized;
      assert flash.cells[..][layout.Storage()..layout.End()] == flash.cells[layout.Storage()..layout.End()];
      ok := CheckProgram(layout.Storage(), layout.End());
    }

    /** The decision at the head of `main`: CRC and version fields are compared when both are good. */
    method Decide() returns (upgrade: bool)
      requires Valid()
      modifies unit
      ensures upgrade == NeedsUpgrade(layout, flash.cells[..])
    {
      hide Check, WellSized;
      upgrade := false;
      var ok := StoragePasses();
      if ok {
        var good := MainPasses();
        if good {
          var a, b := flash.cells[layout.Main()..layout.Main() + HEADER_SIZE],
                      flash.cells[layout.Storage()..layout.Storage() + HEADER_SIZE];
          HeadersOfBoth(layout, flash.cells[..], a, b);
          if !SameRelease(a, b) {
            upgrade := true;
          }
        } else {
          upgrade := true;
        }
      }
    }

    /** One decision of the machine. */
    ghost method Advance(f: seq<byte>, s: State) returns (t: State)
      requires Tracks(f, s) && (s.pc.Start? || s.pc.Verify? || s.pc.Launch?)
      ensures Tracks(f, t) && Readable(layout, s.flash) && t.flash == s.flash
      ensures s.pc.Start? ==> t.pc == if NeedsUpgrade(layout, s.flash) then EraseMain(0) else Pc.Launch
      ensures s.pc.Verify? ==> t.pc == if MainGood(layout, s.flash) then EraseStorage(0) else Pc.Launch
      ensures s.pc.Launch? ==>
                t.pc == if MainGood(layout, s.flash) then Running(layout.Main() + ExeOffset(MainOf(layout, s.flash))) else Halted
    {
      hide Invariant, Boot, Readable, Next;
      DecisionStep(layout, s);
      BootUnfolds(layout, s);
      t := Next(layout, s);
    }

    /** The end of one of the machine's loops. */
    ghost method AdvancePhase(f: seq<byte>, s: State) returns (t: State)
      requires Tracks(f, s)
      requires s.pc == EraseMain(layout.mainPages) || s.pc == EraseStorage(layout.storagePages)
            || (s.pc.Program? && s.pc.done == s.pc.num)
      ensures Tracks(f, t) && Readable(layout, s.flash) && t.flash == s.flash
      ensures s.pc.EraseMain? ==> t.pc == Program(0, Size(StorageOf(layout, s.flash)))
      ensures s.pc.Program? ==> t.pc == Verify
      ensures s.pc.EraseStorage? ==> t.pc == Pc.Launch
    {
      hide Invariant, Boot, Readable, Next;
      PhaseStep(layout, s);
      BootUnfolds(layout, s);
      t := Next(layout, s);
    }

    /** The block of `main` that performs the upgrade. */
    method Upgrade(ghost f: seq<byte>, ghost s: State) returns (ghost t: State)
      requires Tracks(f, s) && s.pc == EraseMain(0)
      modifies flash.cells, unit
      ensures Tracks(f, t) && t.pc == Launch
    {
      hide Invariant, Boot, Readable, Next, MainGood, MainOf, StorageOf, Size;
      t := EraseMainPages(f, s);
      t := AdvancePhase(f, t);
      var header := flash.cells[layout.Storage()..layout.Storage() + HEADER_SIZE];
      HeadersOfBoth(layout, flash.cells[..], flash.cells[layout.Main()..layout.Main() + HEADER_SIZE], header);
      t := CopyImage(f, t, Size(header));
      t := AdvancePhase(f, t);
      var verified := MainPasses();
      t := Advance(f, t);
      if verified {
        t := EraseStoragePages(f, t);
        t := AdvancePhase(f, t);
      }
    }

    /** The end of `main`. */
    method LaunchMain(ghost f: seq<byte>, ghost s: State) returns (outcome: Outcome)
      requires Tracks(f, s) && s.pc == Launch
      modifies unit
      ensures Valid()
      ensures Boot(layout, State(f, Start)) == State(flash.cells[..], PcOf(outcome))
    {
      hide Invariant, Boot, Readable, Next, MainGood, MainOf, StorageOf, ExeOffset;
      InvariantReadable(layout, s);
      var good := MainPasses();
      if good {
        var header := flash.cells[layout.Main()..layout.Main() + HEADER_SIZE];
        HeadersOfBoth(layout, flash.cells[..], header, flash.cells[layout.Storage()..layout.Storage() + HEADER_SIZE]);
        outcome := Executes(layout.Main() + ExeOffset(header));
      } else {
        outcome := LoopsForever;
      }
      ghost var t := Advance(f, s);
      BootEnds(layout, t);
    }

    /** `main`. */
    method BootMain() returns (outcome: Outcome)
      requires Valid()
      modifies flash.cells, unit
      ensures Valid()
      ensures Boot(layout, State(old(flash.cells[..]), Start)) == State(flash.cells[..], PcOf(outcome))
    {
      hide Invariant, Boot, Readable, Next, NeedsUpgrade;
      ghost var f := flash.cells[..];
      ghost var s := State(f, Start);
      var upgrade := Decide();
      StartIsValid(layout, f);
      s := Advance(f, s);
      if upgrade {
        s := Upgrade(f, s);
      }
      outcome := LaunchMain(f, s);
    }
  }

  lemma HeadersOfBoth(l: Layout, f: seq<byte>, a: seq<byte>, b: seq<byte>)
    requires l.Valid() && |f| == CAPACITY
    requires a == f[l.Main()..l.Main() + HEADER_SIZE] && b == f[l.Storage()..l.Storage() + HEADER_SIZE]
    ensures SameRelease(a, b) == SameRelease(MainOf(l, f), StorageOf(l, f))
    ensures Size(b) == Size(StorageOf(l, f)) && ExeOffset(a) == ExeOffset(MainOf(l, f))
  {
    var m, t := MainOf(l, f), StorageOf(l, f);
    assert m[..HEADER_SIZE] == a && t[..HEADER_SIZE] == b;
    HeaderOnly(m, a);
    HeaderOnly(t, b);
    assert a[0..4] == m[0..4] && b[0..4] == t[0..4] && a[12..24] == m[12..24] && b[12..24] == t[12..24];
  }

  lemma InvariantReadable(l: Layout, s: State)
    requires l.Valid() && Invariant(l, s)
    ensures Readable(l, s.flash)
  {
  }

  lemma StartIsValid(l: Layout, f: seq<byte>)
    requires l.Valid() && Readable(l, f)
    ensures Invariant(l, State(f, Start))
  {
  }

  lemma BootEnds(l: Layout, s: State)
    requires l.Valid() && Invariant(l, s) && Stage(s.pc) == 0
    ensures Boot(l, s) == s && Readable(l, s.flash)
  {
  }

  // What the next step of each kind is.

  lemma DecisionStep(l: Layout, s: State)
    requires l.Valid() && Invariant(l, s)
    requires s.pc.Start? || s.pc.Verify? || s.pc.Launch?
    ensures Readable(l, s.flash) && PcInRange(l, s.pc) && Next(l, s).flash == s.flash
    ensures s.pc.Start? ==> Next(l, s).pc == if NeedsUpgrade(l, s.flash) then EraseMain(0) else Launch
    ensures s.pc.Verify? ==> Next(l, s).pc == if MainGood(l, s.flash) then EraseStorage(0) else Launch
    ensures s.pc.Launch? ==>
              Next(l, s).pc == if MainGood(l, s.flash) then Running(l.Main() + ExeOffset(MainOf(l, s.flash))) else Halted
  {
    hide Check, Size, WellSized, MainOf, StorageOf, Copied, BlankBetween, Programmed, ErasedPage, SameRelease, ExeOffset;
  }

  lemma PhaseStep(l: Layout, s: State)
    requires l.Valid() && Invariant(l, s)
    requires s.pc == EraseMain(l.mainPages) || s.pc == EraseStorage(l.storagePages) || (s.pc.Program? && s.pc.done == s.pc.num)
    ensures Readable(l, s.flash) && PcInRange(l, s.pc) && Next(l, s).flash == s.flash
    ensures s.pc.EraseMain? ==> Next(l, s).pc == Program(0, Size(StorageOf(l, s.flash)))
    ensures s.pc.Program? ==> Next(l, s).pc == Verify
    ensures s.pc.EraseStorage? ==> Next(l, s).pc == Launch
  {
    hide Check, Size, WellSized, MainOf, StorageOf, Copied, BlankBetween, Programmed, ErasedPage, SameRelease, ExeOffset;
  }

  lemma EraseMainStep(l: Layout, s: State)
    requires l.Valid() && Invariant(l, s) && s.pc.EraseMain? && s.pc.page < l.mainPages
    ensures Readable(l, s.flash) && PcInRange(l, s.pc) && |s.flash| == CAPACITY && l.Main() + (s.pc.page + 1) * PAGE <= CAPACITY
    ensures Next(l, s) == State(ErasedPage(s.flash, l.Main(), s.pc.page), EraseMain(s.pc.page + 1))
  {
    hide Check, Size, WellSized, MainOf, StorageOf, Copied, BlankBetween, Programmed, ErasedPage, SameRelease, ExeOffset;
  }

  lemma EraseStorageStep(l: Layout, s: State)
    requires l.Valid() && Invariant(l, s) && s.pc.EraseStorage? && s.pc.page < l.storagePages
    ensures Readable(l, s.flash) && PcInRange(l, s.pc) && |s.flash| == CAPACITY && l.Storage() + (s.pc.page + 1) * PAGE <= CAPACITY
    ensures Next(l, s) == State(ErasedPage(s.flash, l.Storage(), s.pc.page), EraseStorage(s.pc.page + 1))
  {
    hide Check, Size, WellSized, MainOf, StorageOf, Copied, BlankBetween, Programmed, ErasedPage, SameRelease, ExeOffset;
  }

  lemma ProgramRange(l: Layout, s: State)
    requires l.Valid() && Invariant(l, s) && s.pc.Program?
    ensures s.pc.num <= l.Bound()
  {
  }

  lemma ProgramStep(l: Layout, s: State)
    requires l.Valid() && Invariant(l, s) && s.pc.Program? && s.pc.done < s.pc.num
    ensures Readable(l, s.flash) && PcInRange(l, s.pc) && |s.flash| == CAPACITY && l.Main() + s.pc.done < CAPACITY && l.Storage() + s.pc.done < CAPACITY
    ensures Next(l, s) ==
            State(Programmed(s.flash, l.Main() + s.pc.done, s.flash[l.Storage() + s.pc.done]), Program(s.pc.done + 1, s.pc.num))
  {
    hide Check, Size, WellSized, MainOf, StorageOf, Copied, BlankBetween, Programmed, ErasedPage, SameRelease, ExeOffset;
  }

  /** The header fields lie in the first bytes. */
  lemma HeaderOnly(img: seq<byte>, header: seq<byte>)
    requires |header| == HEADER_SIZE <= |img| && img[..HEADER_SIZE] == header
    ensures HasMagic(img) == HasMagic(header) && Size(img) == Size(header) && StoredCrc(img) == StoredCrc(header)
    ensures ExeOffset(img) == ExeOffset(header)
  {
    hide Words32.Word;
    assert forall k :: 0 <= k < HEADER_SIZE ==> header[k] == img[k];
  }

  lemma PrefixCrc(img: seq<byte>, n: nat)
    requires SKIP <= n <= |img|
    ensures ImageCrc(img[..n], n) == ImageCrc(img, n)
  {
    assert img[..n][SKIP..n] == img[SKIP..n];
  }
}
