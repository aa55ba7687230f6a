/** What every run of the bootloader keeps. */
module BootSafety {
  import opened Flash
  import opened Image
  import opened BootMachine
  import opened ImageCheck
  import Crc32

  predicate BlankBetween(f: seq<byte>, a: int, b: int) {
    0 <= a && b <= |f| && forall k :: a <= k < b ==> f[k] == BLANK
  }

  /** The first n bytes of the storage region are also in the main region. */
  predicate Copied(l: Layout, f: seq<byte>, n: nat)
    requires l.Valid() && |f| == CAPACITY && n <= l.Bound()
  {
    forall a :: l.Main() <= a < l.Main() + n ==> f[a] == f[a - l.Main() + l.Storage()]
  }

  predicate Invariant(l: Layout, s: State)
    requires l.Valid()
  {
    var f := s.flash;
    && Readable(l, f)
    && match s.pc
       case EraseMain(k) =>
         k <= l.mainPages && StorageGood(l, f) && BlankBetween(f, l.Main(), l.Main() + k * PAGE)
       case Program(i, n) =>
         && StorageGood(l, f) && n == Size(StorageOf(l, f)) && i <= n <= l.Bound()
         && Copied(l, f, i) && BlankBetween(f, l.Main() + i, l.Storage())
       case Verify =>
         var n := Size(StorageOf(l, f));
         StorageGood(l, f) && n <= l.Bound() && Copied(l, f, n) && BlankBetween(f, l.Main() + n, l.Storage())
       case EraseStorage(k) =>
         k <= l.storagePages && MainGood(l, f) && BlankBetween(f, l.Storage(), l.Storage() + k * PAGE)
       case Running(exe) => MainGood(l, f) && exe == l.Main() + ExeOffset(MainOf(l, f))
       case _ => true
  }

  /** At least one bootable image. */
  predicate Bootable(l: Layout, f: seq<byte>)
    requires l.Valid() && Readable(l, f)
  {
    MainGood(l, f) || StorageGood(l, f)
  }

  // Flash contents, without looking into images.

  lemma StorageUntouched(l: Layout, f: seq<byte>, g: seq<byte>)
    requires l.Valid() && |f| == |g| == CAPACITY
    requires forall a :: l.Storage() <= a < l.End() ==> g[a] == f[a]
    ensures StorageOf(l, g) == StorageOf(l, f)
  {
  }

  lemma MainUntouched(l: Layout, f: seq<byte>, g: seq<byte>)
    requires l.Valid() && |f| == |g| == CAPACITY
    requires forall a :: l.Main() <= a < l.Storage() ==> g[a] == f[a]
    ensures MainOf(l, g) == MainOf(l, f)
  {
  }

  lemma ErasingMain(l: Layout, f: seq<byte>, k: nat)
    requires l.Valid() && |f| == CAPACITY && k < l.mainPages
    requires BlankBetween(f, l.Main(), l.Main() + k * PAGE)
    ensures var g := ErasedPage(f, l.Main(), k);
            && BlankBetween(g, l.Main(), l.Main() + (k + 1) * PAGE)
            && StorageOf(l, g) == StorageOf(l, f)
            && MainOf(l, g)[11] == BLANK
  {
    var g := ErasedPage(f, l.Main(), k);
    StorageUntouched(l, f, g);
    assert MainOf(l, g)[11] == g[l.Main() + 11];
  }

  lemma ErasingStorage(l: Layout, f: seq<byte>, k: nat)
    requires l.Valid() && |f| == CAPACITY && k < l.storagePages
    requires BlankBetween(f, l.Storage(), l.Storage() + k * PAGE)
    ensures var g := ErasedPage(f, l.Storage(), k);
            && BlankBetween(g, l.Storage(), l.Storage() + (k + 1) * PAGE)
            && MainOf(l, g) == MainOf(l, f)
            && StorageOf(l, g)[11] == BLANK
  {
    var g := ErasedPage(f, l.Storage(), k);
    MainUntouched(l, f, g);
    assert StorageOf(l, g)[11] == g[l.Storage() + 11];
  }

  lemma Programming(l: Layout, f: seq<byte>, i: nat, n: nat)
    requires l.Valid() && |f| == CAPACITY && i < n <= l.Bound()
    requires Copied(l, f, i) && BlankBetween(f, l.Main() + i, l.Storage())
    ensures var g := Programmed(f, l.Main() + i, f[l.Storage() + i]);
            && Copied(l, g, i + 1) && BlankBetween(g, l.Main() + i + 1, l.Storage())
            && StorageOf(l, g) == StorageOf(l, f)
  {
    var g := Programmed(f, l.Main() + i, f[l.Storage() + i]);
    ProgramBlank(f[l.Storage() + i]);
    StorageUntouched(l, f, g);
  }

  lemma CopiedPrefix(l: Layout, f: seq<byte>, n: nat)
    requires l.Valid() && |f| == CAPACITY && n <= l.Bound() && Copied(l, f, n)
    ensures MainOf(l, f)[..n] == StorageOf(l, f)[..n]
  {
    assert forall k :: 0 <= k < n ==> MainOf(l, f)[k] == f[l.Main() + k] == StorageOf(l, f)[k];
  }

  // Images.

  /** A blank last magic byte leaves no image. */
  lemma NoMagic(img: seq<byte>, bound: nat)
    requires |img| >= HEADER_SIZE && img[11] == BLANK
    ensures !HasMagic(img) && WellSized(img, bound)
    ensures bound <= |img| ==> !Check(img, bound)
  {
  }

  lemma GoodSize(img: seq<byte>, bound: nat)
    requires |img| >= HEADER_SIZE && WellSized(img, bound) && bound <= |img|
    requires Check(img, bound)
    ensures HEADER_SIZE <= Size(img) <= bound && HasMagic(img)
  {
  }

  lemma CopyIsGood(l: Layout, f: seq<byte>)
    requires l.Valid() && Readable(l, f) && StorageGood(l, f)
    requires Size(StorageOf(l, f)) <= l.Bound() && Copied(l, f, Size(StorageOf(l, f)))
    ensures MainGood(l, f) && SameRelease(MainOf(l, f), StorageOf(l, f))
    ensures Size(MainOf(l, f)) == Size(StorageOf(l, f))
    ensures ExeOffset(MainOf(l, f)) == ExeOffset(StorageOf(l, f))
  {
    hide Check, Size, WellSized, SameRelease, ExeOffset, MainOf, StorageOf, Copied;
    CopiedPrefix(l, f, Size(StorageOf(l, f)));
    CheckReadsOnlyTheImage(StorageOf(l, f), MainOf(l, f), l.Bound());
  }

  /** While main is being rewritten its header is either incomplete or that of the new image. */
  lemma PartialIsReadable(m: seq<byte>, t: seq<byte>, i: nat, bound: nat)
    requires HEADER_SIZE <= |m| && HEADER_SIZE <= |t| && WellSized(t, bound)
    requires HasMagic(t) && i <= Size(t) <= bound && HEADER_SIZE <= Size(t)
    requires i <= |m| && i <= |t| && m[..i] == t[..i]
    requires i <= 11 ==> m[11] == BLANK
    ensures WellSized(m, bound)
  {
    if i <= 11 {
      NoMagic(m, bound);
    } else {
      assert forall k :: 0 <= k < i ==> m[k] == m[..i][k] == t[k];
    }
  }

  // Steps.

  lemma EraseMainKeeps(l: Layout, s: State)
    requires l.Valid() && Invariant(l, s) && s.pc.EraseMain?
    ensures Invariant(l, Next(l, s))
    ensures StorageOf(l, Next(l, s).flash) == StorageOf(l, s.flash)
  {
    hide Check, Size, WellSized, MainOf, StorageOf, BlankBetween, ErasedPage, Programmed;
    var f := s.flash;
    if s.pc.page < l.mainPages {
      ErasingMain(l, f, s.pc.page);
      NoMagic(MainOf(l, Next(l, s).flash), l.Bound());
    } else {
      assert l.Main() + s.pc.page * PAGE == l.Storage();
      GoodSize(StorageOf(l, f), l.Bound());
      assert Copied(l, f, 0);
    }
  }

  lemma ProgramKeeps(l: Layout, s: State)
    requires l.Valid() && Invariant(l, s) && s.pc.Program?
    ensures Invariant(l, Next(l, s))
    ensures StorageOf(l, Next(l, s).flash) == StorageOf(l, s.flash)
  {
    hide Check, Size, WellSized, HasMagic, MainOf, StorageOf, ErasedPage, Programmed, Copied;
    var f, g := s.flash, Next(l, s).flash;
    var i := s.pc.done;
    if i < s.pc.num {
      Programming(l, f, i, s.pc.num);
      GoodSize(StorageOf(l, f), l.Bound());
      CopiedPrefix(l, g, i + 1);
      MainByte(l, g, 11);
      PartialIsReadable(MainOf(l, g), StorageOf(l, g), i + 1, l.Bound());
    }
  }

  lemma MainByte(l: Layout, f: seq<byte>, k: nat)
    requires l.Valid() && |f| == CAPACITY && k < l.mainPages * PAGE
    ensures MainOf(l, f)[k] == f[l.Main() + k]
  {
  }

  lemma EraseStorageKeeps(l: Layout, s: State)
    requires l.Valid() && Invariant(l, s) && s.pc.EraseStorage?
    ensures Invariant(l, Next(l, s))
    ensures MainOf(l, Next(l, s).flash) == MainOf(l, s.flash)
  {
    hide Check, Size, WellSized, MainOf, StorageOf, BlankBetween, ErasedPage, Programmed;
    if s.pc.page < l.storagePages {
      ErasingStorage(l, s.flash, s.pc.page);
      NoMagic(StorageOf(l, Next(l, s).flash), l.Bound());
    }
  }

  lemma NextKeeps(l: Layout, s: State)
    requires l.Valid() && Invariant(l, s)
    ensures Invariant(l, Next(l, s))
    ensures Bootable(l, s.flash) ==> Bootable(l, Next(l, s).flash)
  {
    hide Check, Size, WellSized, SameRelease, ExeOffset, MainOf, StorageOf, BlankBetween, Copied, Programmed, ErasedPage;
    match s.pc
    case EraseMain(_) => EraseMainKeeps(l, s);
    case Program(_, _) => ProgramKeeps(l, s);
    case EraseStorage(_) => EraseStorageKeeps(l, s);
    case _ =>
      assert BlankBetween(s.flash, l.Main(), l.Main() + 0 * PAGE) && BlankBetween(s.flash, l.Storage(), l.Storage() + 0 * PAGE)
        by { NothingIsBlank(s.flash, l.Main()); NothingIsBlank(s.flash, l.Storage()); }
  }

  lemma NothingIsBlank(f: seq<byte>, a: nat)
    requires a <= |f|
    ensures BlankBetween(f, a, a)
  {
  }

  /** A step cut short by a power failure. */
  lemma TornKeeps(l: Layout, s: State, t: State)
    requires l.Valid() && Invariant(l, s) && Torn(l, s, t)
    ensures Invariant(l, t)
    ensures Bootable(l, s.flash) ==> Bootable(l, t.flash)
  {
    hide Check, Size, WellSized, ExeOffset, MainOf, StorageOf, BlankBetween, Copied;
    if s.pc.EraseStorage? {
      MainUntouched(l, s.flash, t.flash);
    } else {
      StorageUntouched(l, s.flash, t.flash);
      if !s.pc.EraseMain? && !s.pc.Program? {
        MainUntouched(l, s.flash, t.flash);
      }
    }
  }

  lemma StepKeeps(l: Layout, s: State, t: State)
    requires l.Valid() && Invariant(l, s) && Step(l, s, t)
    ensures Invariant(l, t)
    ensures Bootable(l, s.flash) ==> Bootable(l, t.flash)
  {
    hide Check, Size, WellSized, ExeOffset, MainOf, StorageOf, BlankBetween, Copied, SameRelease;
    if Torn(l, s, t) {
      TornKeeps(l, s, t);
    } else if Upload(l, s, t) {
      MainUntouched(l, s.flash, t.flash);
    } else {
      NextKeeps(l, s);
    }
  }

  // Whole runs.

  lemma {:induction false} RunInvariant(l: Layout, run: seq<State>, i: nat)
    requires l.Valid() && IsRun(l, run) && i < |run|
    ensures Invariant(l, run[i])
  {
    if i > 0 {
      RunInvariant(l, run, i - 1);
      StepKeeps(l, run[i - 1], run[i]);
    }
  }

  /** Once there is a good image there is always one, whenever the power fails. */
  lemma {:induction false} AlwaysBootable(l: Layout, run: seq<State>, i: nat, j: nat)
    requires l.Valid() && IsRun(l, run) && i <= j < |run|
    ensures Readable(l, run[i].flash) && Readable(l, run[j].flash)
    ensures Bootable(l, run[i].flash) ==> Bootable(l, run[j].flash)
    decreases j
  {
    RunInvariant(l, run, i);
    if i < j {
      AlwaysBootable(l, run, i, j - 1);
      RunInvariant(l, run, j - 1);
      StepKeeps(l, run[j - 1], run[j]);
    }
  }

  /**
   Control is only ever given to a main image whose bytes are right: the magic, a size within main,
   and in front the CRC-32 of eight zero bytes and the rest; it starts at the offset in its header.
   */
  lemma OnlyGoodImagesRun(l: Layout, run: seq<State>, i: nat)
    requires l.Valid() && IsRun(l, run) && i < |run| && run[i].pc.Running?
    ensures Readable(l, run[i].flash) && MainGood(l, run[i].flash)
    ensures var m := run[i].flash[l.Main()..l.Storage()];
            var n := (m[4] as int) + 0x100 * (m[5] as int) + 0x1_0000 * (m[6] as int) + 0x100_0000 * (m[7] as int);
            && m[8..12] == [0x87, 0x25, 0x23, 0x36]
            && 28 <= n <= l.Bound()
            && m[0..4] == LittleEndian(Crc32.Crc([0, 0, 0, 0, 0, 0, 0, 0] + m[8..n]))
            && run[i].pc.exe == l.Main() + (m[24] as int) + 0x100 * (m[25] as int) + 0x1_0000 * (m[26] as int) + 0x100_0000 * (m[27] as int)
  {
    hide IsRun, Check, WellSized, LittleEndian, Crc32.Crc, StorageOf, BlankBetween, Copied;
    RunInvariant(l, run, i);
    PassesIff(MainOf(l, run[i].flash), l.Bound());
  }

  /** While the storage is being erased, and while the firmware runs and receives, main is left alone. */
  lemma MainSpared(l: Layout, s: State, t: State)
    requires l.Valid() && Invariant(l, s) && Step(l, s, t) && (s.pc.EraseStorage? || s.pc.Running?)
    ensures Invariant(l, t) && MainGood(l, s.flash) && MainOf(l, t.flash) == MainOf(l, s.flash)
  {
    StepKeeps(l, s, t);
    hide Check, Size, WellSized, ExeOffset, MainOf, StorageOf, BlankBetween, Copied, SameRelease, ErasedPage, Programmed;
    if Torn(l, s, t) || Upload(l, s, t) {
      MainUntouched(l, s.flash, t.flash);
    } else if s.pc.EraseStorage? {
      EraseStorageKeeps(l, s);
    }
  }

  /** In all other stages the storage is left alone, and main is only touched when the storage is good. */
  lemma StorageSpared(l: Layout, s: State, t: State)
    requires l.Valid() && Invariant(l, s) && Step(l, s, t) && !s.pc.EraseStorage? && !s.pc.Running?
    ensures Invariant(l, t) && StorageOf(l, t.flash) == StorageOf(l, s.flash)
    ensures MainOf(l, t.flash) != MainOf(l, s.flash) ==> StorageGood(l, s.flash)
  {
    StepKeeps(l, s, t);
    hide Check, Size, WellSized, ExeOffset, MainOf, StorageOf, BlankBetween, Copied, SameRelease, ErasedPage, Programmed;
    if Torn(l, s, t) {
      StorageUntouched(l, s.flash, t.flash);
      if !s.pc.EraseMain? && !s.pc.Program? {
        MainUntouched(l, s.flash, t.flash);
      }
    } else if s.pc.EraseMain? {
      EraseMainKeeps(l, s);
    } else if s.pc.Program? {
      ProgramKeeps(l, s);
    }
  }

  /** The bootloader destroys the storage only while main passes the check, and main only while storage does. */
  lemma NeverBothAtRisk(l: Layout, run: seq<State>, i: nat)
    requires l.Valid() && IsRun(l, run) && i + 1 < |run|
    ensures Readable(l, run[i].flash) && Readable(l, run[i + 1].flash)
    ensures StorageOf(l, run[i + 1].flash) != StorageOf(l, run[i].flash) ==>
              MainGood(l, run[i].flash) && MainOf(l, run[i + 1].flash) == MainOf(l, run[i].flash)
    ensures MainOf(l, run[i + 1].flash) != MainOf(l, run[i].flash) ==>
              StorageGood(l, run[i].flash) && StorageOf(l, run[i + 1].flash) == StorageOf(l, run[i].flash)
  {
    RunInvariant(l, run, i);
    hide MainOf, StorageOf, MainGood, StorageGood, Step;
    if run[i].pc.EraseStorage? || run[i].pc.Running? {
      MainSpared(l, run[i], run[i + 1]);
    } else {
      StorageSpared(l, run[i], run[i + 1]);
    }
  }
}
