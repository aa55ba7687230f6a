/**
 The bootloader as a state machine over flash. A step is one erase, one byte programmed, or one
 decision; power may fail between steps, or in the middle of an erase or of a byte.
 */
module BootMachine {
  import opened Flash
  import opened Image

  /** Where the linker script puts the two regions: whole 128K pages, main first. */
  datatype Layout = Layout(firstPage: nat, mainPages: nat, storagePages: nat) {
    predicate Valid() {
      && 1 <= firstPage && 1 <= mainPages && 1 <= storagePages
      && (firstPage + mainPages + storagePages) * PAGE <= CAPACITY
    }

    function Main(): nat { firstPage * PAGE }

    function Storage(): nat { (firstPage + mainPages) * PAGE }

    function End(): nat { (firstPage + mainPages + storagePages) * PAGE }

    /** The largest image that fits both regions. */
    function Bound(): nat {
      if mainPages < storagePages then mainPages * PAGE else storagePages * PAGE
    }
  }

  /** memory.ld: main at 0x08020000, storage at 0x08080000, 384K each. */
  const NUCCI: Layout := Layout(1, 3, 3)

  datatype Pc =
    | Start
    | EraseMain(page: nat)
    | Program(done: nat, num: nat)
    | Verify
    | EraseStorage(page: nat)
    | Launch
    | Running(exe: nat)
    | Halted

  datatype State = State(flash: seq<byte>, pc: Pc)

  function MainOf(l: Layout, f: seq<byte>): (r: seq<byte>)
    requires l.Valid() && |f| == CAPACITY
    ensures |r| == l.mainPages * PAGE >= l.Bound() >= PAGE
  {
    f[l.Main()..l.Storage()]
  }

  function StorageOf(l: Layout, f: seq<byte>): (r: seq<byte>)
    requires l.Valid() && |f| == CAPACITY
    ensures |r| == l.storagePages * PAGE >= l.Bound() >= PAGE
  {
    f[l.Storage()..l.End()]
  }

  /** Both headers can be followed: what every image written to the device must satisfy. */
  predicate Readable(l: Layout, f: seq<byte>)
    requires l.Valid()
  {
    && |f| == CAPACITY
    && WellSized(MainOf(l, f), l.Bound())
    && WellSized(StorageOf(l, f), l.Bound())
  }

  predicate MainGood(l: Layout, f: seq<byte>)
    requires l.Valid() && Readable(l, f)
  {
    Check(MainOf(l, f), l.Bound())
  }

  predicate StorageGood(l: Layout, f: seq<byte>)
    requires l.Valid() && Readable(l, f)
  {
    Check(StorageOf(l, f), l.Bound())
  }

  predicate NeedsUpgrade(l: Layout, f: seq<byte>)
    requires l.Valid() && Readable(l, f)
  {
    StorageGood(l, f) && (MainGood(l, f) ==> !SameRelease(MainOf(l, f), StorageOf(l, f)))
  }

  /** The flash after page k of those from `from` is erased. */
  function ErasedPage(f: seq<byte>, from: nat, k: nat): (r: seq<byte>)
    requires from + (k + 1) * PAGE <= |f|
    ensures |r| == |f|
  {
    Erased(f, from + k * PAGE, from + (k + 1) * PAGE)
  }

  predicate PcInRange(l: Layout, pc: Pc) {
    match pc
    case EraseMain(k) => k <= l.mainPages
    case EraseStorage(k) => k <= l.storagePages
    case Program(i, n) => n <= l.Bound()
    case _ => true
  }

  /** What the bootloader does next when the power stays on. */
  function Next(l: Layout, s: State): (t: State)
    requires l.Valid() && Readable(l, s.flash) && PcInRange(l, s.pc)
    ensures |t.flash| == CAPACITY
  {
    var f := s.flash;
    match s.pc
    case Start =>
      s.(pc := if NeedsUpgrade(l, f) then EraseMain(0) else Launch)
    case EraseMain(k) =>
      if k < l.mainPages then State(ErasedPage(f, l.Main(), k), EraseMain(k + 1))
      else s.(pc := Program(0, Size(StorageOf(l, f))))
    case Program(i, n) =>
      if i < n then State(Programmed(f, l.Main() + i, f[l.Storage() + i]), Program(i + 1, n))
      else s.(pc := Verify)
    case Verify =>
      s.(pc := if MainGood(l, f) then EraseStorage(0) else Launch)
    case EraseStorage(k) =>
      if k < l.storagePages then State(ErasedPage(f, l.Storage(), k), EraseStorage(k + 1))
      else s.(pc := Launch)
    case Launch =>
      s.(pc := if MainGood(l, f) then Running(l.Main() + ExeOffset(MainOf(l, f))) else Halted)
    case Running(_) => s
    case Halted => s
  }

  /** The flash cells the current step is changing. */
  predicate InWork(l: Layout, pc: Pc, a: int) {
    match pc
    case EraseMain(k) => k < l.mainPages && l.Main() + k * PAGE <= a < l.Main() + (k + 1) * PAGE
    case EraseStorage(k) => k < l.storagePages && l.Storage() + k * PAGE <= a < l.Storage() + (k + 1) * PAGE
    case Program(i, n) => i < n && a == l.Main() + i
    case _ => false
  }

  /** Power fails between two steps. */
  predicate Crash(s: State, t: State) {
    t == State(s.flash, Start)
  }

  /** Power fails during a step: the cells being changed may then hold anything readable. */
  predicate Torn(l: Layout, s: State, t: State)
    requires l.Valid()
  {
    && t.pc == Start
    && |t.flash| == |s.flash|
    && (forall a :: 0 <= a < |s.flash| && !InWork(l, s.pc, a) ==> t.flash[a] == s.flash[a])
    && Readable(l, t.flash)
  }

  /** The running program owns the storage region and may leave any readable content there. */
  predicate Upload(l: Layout, s: State, t: State)
    requires l.Valid()
  {
    && s.pc.Running?
    && t.pc == s.pc
    && |t.flash| == |s.flash|
    && (forall a :: 0 <= a < |s.flash| && !(l.Storage() <= a < l.End()) ==> t.flash[a] == s.flash[a])
    && Readable(l, t.flash)
  }

  predicate PlainStep(l: Layout, s: State, t: State)
    requires l.Valid()
  {
    Readable(l, s.flash) && PcInRange(l, s.pc) && (t == Next(l, s) || Crash(s, t))
  }

  predicate Step(l: Layout, s: State, t: State)
    requires l.Valid()
  {
    PlainStep(l, s, t) || Torn(l, s, t) || Upload(l, s, t)
  }

  predicate Initial(l: Layout, s: State)
    requires l.Valid()
  {
    s.pc == Start && Readable(l, s.flash)
  }

  /** Any sequence of boots, power failures and uploads. */
  predicate IsRun(l: Layout, run: seq<State>)
    requires l.Valid()
  {
    && run != [] && Initial(l, run[0])
    && forall i :: 0 <= i < |run| - 1 ==> Step(l, run[i], run[i + 1])
  }

  /** Boots and power failures between steps only. */
  predicate IsPlainRun(l: Layout, run: seq<State>)
    requires l.Valid()
  {
    && run != [] && Initial(l, run[0])
    && forall i :: 0 <= i < |run| - 1 ==> PlainStep(l, run[i], run[i + 1])
  }
}
