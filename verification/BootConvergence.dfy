/** Where the bootloader ends up: one undisturbed boot, and any number of disturbed ones. */
module BootConvergence {
  import opened Flash
  import opened Image
  import opened BootMachine
  import opened ImageCheck
  import opened BootSafety

  function Stage(pc: Pc): nat {
    match pc
    case Start => 6
    case EraseMain(_) => 5
    case Program(_, _) => 4
    case Verify => 3
    case EraseStorage(_) => 2
    case Launch => 1
    case _ => 0
  }

  function Remaining(l: Layout, pc: Pc): int {
    match pc
    case EraseMain(k) => l.mainPages - k
    case Program(i, n) => n - i
    case EraseStorage(k) => l.storagePages - k
    case _ => 0
  }

  /** An undisturbed boot: it always ends, in a running program or halted. */
  function Boot(l: Layout, s: State): (t: State)
    requires l.Valid() && Invariant(l, s)
    ensures Invariant(l, t) && Stage(t.pc) == 0
    decreases Stage(s.pc), Remaining(l, s.pc)
  {
    NextKeeps(l, s);
    if Stage(s.pc) == 0 then s else Boot(l, Next(l, s))
  }

  /** The flash after a completed upgrade: the image in main, everything else in both regions blank. */
  function Upgraded(l: Layout, f: seq<byte>): (g: seq<byte>)
    requires l.Valid() && |f| == CAPACITY
    requires Size(StorageOf(l, f)) <= l.Bound()
    ensures |g| == CAPACITY
  {
    var n := Size(StorageOf(l, f));
    seq(CAPACITY, a requires 0 <= a < CAPACITY =>
      if l.Main() <= a < l.Main() + n then f[a - l.Main() + l.Storage()]
      else if l.Main() <= a < l.End() then BLANK
      else f[a])
  }

  predicate SameOutside(l: Layout, f: seq<byte>, g: seq<byte>) {
    |f| == |g| && forall a :: 0 <= a < |f| && !(l.Main() <= a < l.End()) ==> g[a] == f[a]
  }

  /** Main holds the n bytes that f has in its storage region, and is blank after them. */
  predicate Holds(l: Layout, f: seq<byte>, g: seq<byte>, n: nat)
    requires l.Valid() && |f| == |g| == CAPACITY && n <= l.Bound()
  {
    && (forall a :: l.Main() <= a < l.Main() + n ==> g[a] == f[a - l.Main() + l.Storage()])
    && BlankBetween(g, l.Main() + n, l.Storage())
  }

  /** An undisturbed upgrade from flash f, part of the way through. */
  predicate OnTheWay(l: Layout, f: seq<byte>, s: State)
    requires l.Valid() && |f| == CAPACITY && Size(StorageOf(l, f)) <= l.Bound()
    requires Readable(l, s.flash)
  {
    var g := s.flash;
    && SameOutside(l, f, g)
    && match s.pc
       case EraseMain(_) => StorageOf(l, g) == StorageOf(l, f)
       case Program(_, _) => StorageOf(l, g) == StorageOf(l, f)
       case Verify => StorageOf(l, g) == StorageOf(l, f)
       case EraseStorage(_) => Holds(l, f, g, Size(StorageOf(l, f)))
       case Launch => g == Upgraded(l, f) && MainGood(l, g)
       case Running(_) => g == Upgraded(l, f)
       case _ => false
  }

  lemma VerifiedHolds(l: Layout, f: seq<byte>, g: seq<byte>, n: nat)
    requires l.Valid() && |f| == |g| == CAPACITY && n <= l.Bound()
    requires StorageOf(l, g) == StorageOf(l, f)
    requires Copied(l, g, n) && BlankBetween(g, l.Main() + n, l.Storage())
    ensures Holds(l, f, g, n)
  {
    forall a | l.Main() <= a < l.Main() + n ensures g[a] == f[a - l.Main() + l.Storage()] {
      var k := a - l.Main();
      assert g[a] == g[k + l.Storage()] == StorageOf(l, g)[k] == f[k + l.Storage()];
    }
  }

  lemma ErasedIsUpgraded(l: Layout, f: seq<byte>, g: seq<byte>)
    requires l.Valid() && |f| == |g| == CAPACITY && Size(StorageOf(l, f)) <= l.Bound()
    requires SameOutside(l, f, g) && Holds(l, f, g, Size(StorageOf(l, f)))
    requires BlankBetween(g, l.Storage(), l.End())
    ensures g == Upgraded(l, f)
  {
    hide Size, StorageOf;
  }

  lemma ErasingKeepsHolds(l: Layout, f: seq<byte>, g: seq<byte>, n: nat, k: nat)
    requires l.Valid() && |f| == |g| == CAPACITY && n <= l.Bound() && k < l.storagePages
    requires Holds(l, f, g, n) && SameOutside(l, f, g)
    ensures var h := ErasedPage(g, l.Storage(), k);
            Holds(l, f, h, n) && SameOutside(l, f, h)
  {
  }

  lemma ErasingMainKeepsOutside(l: Layout, f: seq<byte>, g: seq<byte>, k: nat)
    requires l.Valid() && |f| == |g| == CAPACITY && k < l.mainPages && SameOutside(l, f, g)
    ensures SameOutside(l, f, ErasedPage(g, l.Main(), k))
  {
  }

  lemma NextOnTheWay(l: Layout, f: seq<byte>, s: State)
    requires l.Valid() && |f| == CAPACITY && Size(StorageOf(l, f)) <= l.Bound()
    requires Invariant(l, s) && OnTheWay(l, f, s)
    ensures Invariant(l, Next(l, s)) && OnTheWay(l, f, Next(l, s))
  {
    hide Check, Size, WellSized, SameRelease, ExeOffset, MainOf, StorageOf, BlankBetween, Copied, ErasedPage;
    hide SameOutside, Holds, Upgraded;
    var g := s.flash;
    NextKeeps(l, s);
    match s.pc
    case EraseMain(k) =>
      EraseMainKeeps(l, s);
      if k < l.mainPages {
        ErasingMainKeepsOutside(l, f, g, k);
      }
    case Program(i, n) =>
      ProgramKeeps(l, s);
      if i < n {
        ProgrammingKeepsOutside(l, f, g, i, g[l.Storage() + i]);
      }
    case Verify =>
      CopyIsGood(l, g);
      VerifiedHolds(l, f, g, Size(StorageOf(l, f)));
    case EraseStorage(k) =>
      if k < l.storagePages {
        ErasingKeepsHolds(l, f, g, Size(StorageOf(l, f)), k);
      } else {
        assert l.Storage() + k * PAGE == l.End();
        ErasedIsUpgraded(l, f, g);
      }
    case _ =>
  }

  lemma ProgrammingKeepsOutside(l: Layout, f: seq<byte>, g: seq<byte>, i: nat, b: byte)
    requires l.Valid() && |f| == |g| == CAPACITY && i < l.Bound() && SameOutside(l, f, g)
    ensures SameOutside(l, f, Programmed(g, l.Main() + i, b))
  {
  }

  lemma {:induction false} BootOnTheWay(l: Layout, f: seq<byte>, s: State)
    requires l.Valid() && |f| == CAPACITY && Size(StorageOf(l, f)) <= l.Bound()
    requires Invariant(l, s) && OnTheWay(l, f, s)
    ensures Boot(l, s).flash == Upgraded(l, f) && Boot(l, s).pc.Running?
    decreases Stage(s.pc), Remaining(l, s.pc)
  {
    hide Check, Size, WellSized, SameRelease, ExeOffset, MainOf, StorageOf, BlankBetween, Copied, ErasedPage;
    hide SameOutside, Holds, Upgraded;
    if Stage(s.pc) != 0 {
      NextOnTheWay(l, f, s);
      NextKeeps(l, s);
      BootOnTheWay(l, f, Next(l, s));
    }
  }

  /** An undisturbed boot that decides to upgrade leaves exactly the new image, blank flash, and runs it. */
  lemma BootUpgrades(l: Layout, f: seq<byte>)
    requires l.Valid() && Readable(l, f) && NeedsUpgrade(l, f)
    ensures Size(StorageOf(l, f)) <= l.Bound()
    ensures Boot(l, State(f, Start)) == State(Upgraded(l, f), Running(l.Main() + ExeOffset(StorageOf(l, f))))
  {
    hide Check, Size, WellSized, SameRelease, ExeOffset, MainOf, StorageOf, BlankBetween, Upgraded;
    var s := State(f, Start);
    NextKeeps(l, s);
    GoodSize(StorageOf(l, f), l.Bound());
    BootOnTheWay(l, f, Next(l, s));
    EntryOfUpgraded(l, f);
  }

  lemma UpgradedMain(l: Layout, f: seq<byte>, n: nat)
    requires l.Valid() && |f| == CAPACITY && n == Size(StorageOf(l, f)) <= l.Bound()
    ensures MainOf(l, Upgraded(l, f))[..n] == StorageOf(l, f)[..n]
  {
    hide Size;
    var m, t := MainOf(l, Upgraded(l, f)), StorageOf(l, f);
    forall k | 0 <= k < n ensures m[k] == t[k] {
      assert m[k] == Upgraded(l, f)[l.Main() + k];
    }
  }

  lemma EntryOfUpgraded(l: Layout, f: seq<byte>)
    requires l.Valid() && |f| == CAPACITY
    requires HEADER_SIZE <= Size(StorageOf(l, f)) <= l.Bound()
    ensures ExeOffset(MainOf(l, Upgraded(l, f))) == ExeOffset(StorageOf(l, f))
  {
    hide MainOf, StorageOf, Upgraded, Size;
    UpgradedMain(l, f, Size(StorageOf(l, f)));
    SameField(MainOf(l, Upgraded(l, f)), StorageOf(l, f), 24, Size(StorageOf(l, f)));
  }

  lemma SameField(a: seq<byte>, b: seq<byte>, at: nat, n: nat)
    requires at + 4 <= n <= |a| && n <= |b| && a[..n] == b[..n]
    ensures Field(a, at) == Field(b, at)
  {
    assert forall k :: 0 <= k < n ==> a[k] == a[..n][k] == b[k];
  }

  /** A boot that does not upgrade changes no flash. */
  lemma BootWithoutUpgrade(l: Layout, f: seq<byte>)
    requires l.Valid() && Readable(l, f) && !NeedsUpgrade(l, f)
    ensures Boot(l, State(f, Start)).flash == f
    ensures Boot(l, State(f, Start)).pc.Running? <==> MainGood(l, f)
  {
    hide Check, WellSized, SameRelease, MainOf, StorageOf;
    var s := State(f, Start);
    NextKeeps(l, s);
    NextKeeps(l, Next(l, s));
    assert Boot(l, s) == Boot(l, Next(l, s)) == Boot(l, Next(l, Next(l, s)));
  }

  /**
   With two good images the header decides: a boot leaves the flash alone exactly when CRC and
   version numbers agree; otherwise the stored image ends in main.
   */
  lemma HeaderDecides(l: Layout, f: seq<byte>)
    requires l.Valid() && Readable(l, f) && MainGood(l, f) && StorageGood(l, f)
    ensures var m, s, g := MainOf(l, f), StorageOf(l, f), Boot(l, State(f, Start)).flash;
            && (g == f <==> && Field(m, 0) == Field(s, 0) && Field(m, 12) == Field(s, 12)
                            && Field(m, 16) == Field(s, 16) && Field(m, 20) == Field(s, 20))
            && |g| == CAPACITY && Size(s) <= l.Bound()
            && (g != f ==> MainOf(l, g)[..Size(s)] == s[..Size(s)])
  {
    hide Check, Field, Size, WellSized, MainOf, StorageOf, Upgraded, Boot;
    var m, s := MainOf(l, f), StorageOf(l, f);
    SameReleaseIff(m, s);
    GoodSize(s, l.Bound());
    if SameRelease(m, s) {
      BootWithoutUpgrade(l, f);
    } else {
      BootUpgrades(l, f);
      UpgradedMain(l, f, Size(s));
      HeadersDiffer(m, MainOf(l, Upgraded(l, f)), s, Size(s));
    }
  }

  /**
   A program is started exactly when either image is good, at the entry point in main's header. A bad
   image in storage changes nothing, and a good one replaces a bad main.
   */
  lemma BootOutcome(l: Layout, f: seq<byte>)
    requires l.Valid() && Readable(l, f)
    ensures var s, b := StorageOf(l, f), Boot(l, State(f, Start));
            && (if MainGood(l, f) || StorageGood(l, f) then b.pc == Running(l.Main() + Field(MainOf(l, b.flash), 24)) else b.pc == Halted)
            && (!StorageGood(l, f) ==> b.flash == f)
            && (StorageGood(l, f) && !MainGood(l, f) ==> Size(s) <= l.Bound() && MainOf(l, b.flash)[..Size(s)] == s[..Size(s)])
  {
    hide Check, Field, Size, WellSized, SameRelease, MainOf, StorageOf, Upgraded, Boot;
    if NeedsUpgrade(l, f) {
      BootUpgrades(l, f);
      GoodSize(StorageOf(l, f), l.Bound());
      UpgradedMain(l, f, Size(StorageOf(l, f)));
      EntryOfUpgraded(l, f);
    } else {
      BootWithoutUpgrade(l, f);
      if MainGood(l, f) {
        QuietBoot(l, f);
      }
    }
  }

  lemma HeadersDiffer(m: seq<byte>, u: seq<byte>, s: seq<byte>, n: nat)
    requires HEADER_SIZE <= n <= |u| && n <= |s| && u[..n] == s[..n] && HEADER_SIZE <= |m|
    requires !SameRelease(m, s)
    ensures m != u
  {
    assert forall k :: 0 <= k < n ==> u[k] == u[..n][k] == s[..n][k] == s[k];
    assert u[0..4] == s[0..4] && u[12..24] == s[12..24];
  }

  /** The boot after an upgrade finds nothing to do. */
  lemma SecondBootIsQuiet(l: Layout, f: seq<byte>)
    requires l.Valid() && Readable(l, f) && NeedsUpgrade(l, f)
    ensures var g := Boot(l, State(f, Start)).flash;
            && Readable(l, g) && !NeedsUpgrade(l, g)
            && Boot(l, State(g, Start)) == Boot(l, State(f, Start))
  {
    var b := Boot(l, State(f, Start));
    var g := b.flash;
    BootUpgrades(l, f);
    UpgradedStorage(l, f);
    hide Check, Size, WellSized, SameRelease, ExeOffset, MainOf, StorageOf, Upgraded;
    NoMagic(StorageOf(l, g), l.Bound());
    assert Invariant(l, b);
    assert Invariant(l, State(g, Start));
    BootWithoutUpgrade(l, g);
    QuietBoot(l, g);
  }

  lemma UpgradedStorage(l: Layout, f: seq<byte>)
    requires l.Valid() && |f| == CAPACITY && Size(StorageOf(l, f)) <= l.Bound()
    ensures StorageOf(l, Upgraded(l, f))[11] == BLANK
  {
    hide Size;
    var a := l.Storage() + 11;
    assert l.Main() + Size(StorageOf(l, f)) <= l.Storage() && a < l.End();
    assert Upgraded(l, f)[a] == BLANK;
    assert StorageOf(l, Upgraded(l, f))[11] == Upgraded(l, f)[a];
  }

  lemma QuietBoot(l: Layout, g: seq<byte>)
    requires l.Valid() && Readable(l, g) && !NeedsUpgrade(l, g) && MainGood(l, g)
    ensures Boot(l, State(g, Start)) == State(g, Running(l.Main() + ExeOffset(MainOf(l, g))))
  {
    hide Check, WellSized, SameRelease, MainOf, StorageOf;
    var s := State(g, Start);
    NextKeeps(l, s);
    NextKeeps(l, Next(l, s));
    assert Boot(l, s) == Boot(l, Next(l, s)) == Boot(l, Next(l, Next(l, s)));
  }

  // Power failures during an upgrade delay it but do not lose it.

  /** While the storage still holds image t, or main has taken its place. */
  predicate Underway(l: Layout, t: seq<byte>, s: State)
    requires l.Valid() && Readable(l, s.flash) && |t| >= HEADER_SIZE
  {
    var f := s.flash;
    var kept := StorageOf(l, f) == t;
    var delivered := MainGood(l, f) && SameRelease(MainOf(l, f), t);
    var gone := StorageOf(l, f)[11] == BLANK;
    match s.pc
    case Start => kept || (delivered && gone)
    case EraseMain(_) => kept
    case Program(_, _) => kept
    case Verify => kept
    case EraseStorage(k) => delivered && (if k == 0 then kept else gone)
    case Launch => delivered && (kept || gone)
    case Running(_) => delivered && (kept || gone)
    case Halted => false
  }

  lemma PlainStepUnderway(l: Layout, t: seq<byte>, s: State, u: State)
    requires l.Valid() && Invariant(l, s) && PlainStep(l, s, u)
    requires |t| >= HEADER_SIZE && WellSized(t, l.Bound()) && l.Bound() <= |t| && Check(t, l.Bound())
    requires Underway(l, t, s)
    ensures Invariant(l, u) && Underway(l, t, u)
  {
    hide Check, Size, WellSized, SameRelease, ExeOffset, MainOf, StorageOf, BlankBetween, Copied, ErasedPage, Programmed;
    NextKeeps(l, s);
    if u == Next(l, s) {
      match s.pc
      case Start =>
        if StorageOf(l, s.flash)[11] == BLANK {
          NoMagic(StorageOf(l, s.flash), l.Bound());
        }
      case EraseMain(_) => EraseMainKeeps(l, s);
      case Program(_, _) => ProgramKeeps(l, s);
      case Verify => CopyIsGood(l, s.flash);
      case EraseStorage(k) =>
        EraseStorageKeeps(l, s);
        if k < l.storagePages {
          ErasingStorage(l, s.flash, k);
        }
      case _ =>
    }
  }

  lemma {:induction false} PlainRunUnderway(l: Layout, run: seq<State>, i: nat)
    requires l.Valid() && IsPlainRun(l, run) && i < |run|
    requires StorageGood(l, run[0].flash)
    ensures Invariant(l, run[i]) && Underway(l, StorageOf(l, run[0].flash), run[i])
  {
    if i > 0 {
      PlainRunUnderway(l, run, i - 1);
      PlainStepUnderway(l, StorageOf(l, run[0].flash), run[i - 1], run[i]);
    }
  }

  /**
   With a good image in storage, however often the power fails, the bootloader never halts, and
   whatever program it finally starts passes the check and has that image's CRC and version.
   */
  lemma UpgradeIsNotLost(l: Layout, run: seq<State>, i: nat)
    requires l.Valid() && IsPlainRun(l, run) && i < |run|
    requires StorageGood(l, run[0].flash)
    ensures !run[i].pc.Halted?
    ensures Readable(l, run[i].flash)
    ensures run[i].pc.Running? ==>
              var m, s := MainOf(l, run[i].flash), StorageOf(l, run[0].flash);
              && MainGood(l, run[i].flash)
              && Field(m, 0) == Field(s, 0) && Field(m, 12) == Field(s, 12)
              && Field(m, 16) == Field(s, 16) && Field(m, 20) == Field(s, 20)
  {
    PlainRunUnderway(l, run, i);
    hide Check, Field, WellSized;
    SameReleaseIff(MainOf(l, run[i].flash), StorageOf(l, run[0].flash));
  }
}
