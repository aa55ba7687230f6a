/** Firmware upload: the sender's records and the receiver's flash writes. */
module Upload {
  import opened Flash
  import opened Image
  import opened BootMachine
  import opened BootSafety
  import opened BootConvergence

  const RECORD: nat := 128

  datatype Record = Record(number: nat, data: seq<byte>)

  /** `updateFw`: the image in slices of 128 bytes, the last one shorter. */
  method SplitIntoRecords(image: seq<byte>) returns (records: seq<Record>)
    ensures records == RecordsOf(image)
  {
    records := [];
    var offset := 0;
    while offset < |image|
      invariant offset % RECORD == 0 && offset / RECORD == |records|
      invariant offset < |image| + RECORD
      invariant records == RecordsOf(image)[..|records|] && |records| <= |RecordsOf(image)|
    {
      var bytesToWrite := if |image| - offset >= RECORD then RECORD else |image| - offset;
      records := records + [Record(offset / RECORD, image[offset..offset + bytesToWrite])];
      offset := offset + RECORD;
    }
  }

  function SliceEnd(image: seq<byte>, k: nat): nat {
    if (k + 1) * RECORD <= |image| then (k + 1) * RECORD else |image|
  }

  function RecordsOf(image: seq<byte>): seq<Record> {
    seq((|image| + RECORD - 1) / RECORD, k requires 0 <= k < (|image| + RECORD - 1) / RECORD =>
      Record(k, image[k * RECORD..SliceEnd(image, k)]))
  }

  /** The storage region after a record that fits it is programmed. */
  function Apply(store: seq<byte>, r: Record): (s: seq<byte>)
    requires r.number * RECORD + |r.data| <= |store|
    ensures |s| == |store|
  {
    ProgrammedAll(store, r.number * RECORD, r.data)
  }

  predicate Fits(store: seq<byte>, r: Record) {
    r.number * RECORD + |r.data| <= |store|
  }

  function ApplyAll(store: seq<byte>, rs: seq<Record>): (s: seq<byte>)
    requires forall r :: r in rs ==> Fits(store, r)
    ensures |s| == |store|
  {
    if rs == [] then store
    else
      var q, r := rs[..|rs| - 1], rs[|rs| - 1];
      assert r in rs && forall x :: x in q ==> x in rs;
      assert Fits(store, r);
      Apply(ApplyAll(store, q), r)
  }

  /** An image in a blank region of the given size. */
  function Padded(image: seq<byte>, size: nat): (p: seq<byte>)
    requires |image| <= size
    ensures |p| == size
  {
    image + seq(size - |image|, _ => BLANK)
  }

  function BlankRegion(size: nat): (p: seq<byte>)
    ensures |p| == size
  {
    seq(size, _ => BLANK)
  }

  /** Every byte of s is either still blank or already that of the target. */
  predicate Toward(s: seq<byte>, target: seq<byte>) {
    |s| == |target| && forall a :: 0 <= a < |s| ==> s[a] == BLANK || s[a] == target[a]
  }

  predicate Reached(s: seq<byte>, target: seq<byte>, r: Record) {
    |s| == |target| && Fits(s, r) && forall a :: r.number * RECORD <= a < r.number * RECORD + |r.data| ==> s[a] == target[a]
  }

  lemma RecordMatches(image: seq<byte>, size: nat, r: Record)
    requires |image| <= size && r in RecordsOf(image)
    ensures Fits(Padded(image, size), r)
    ensures forall a :: r.number * RECORD <= a < r.number * RECORD + |r.data| ==>
              Padded(image, size)[a] == r.data[a - r.number * RECORD]
  {
  }

  lemma ApplyStep(s: seq<byte>, target: seq<byte>, r: Record)
    requires Toward(s, target) && Fits(s, r)
    requires forall a :: r.number * RECORD <= a < r.number * RECORD + |r.data| ==> target[a] == r.data[a - r.number * RECORD]
    ensures Toward(Apply(s, r), target) && Reached(Apply(s, r), target, r)
    ensures forall q: Record :: Reached(s, target, q) ==> Reached(Apply(s, r), target, q)
  {
    forall a | r.number * RECORD <= a < r.number * RECORD + |r.data| ensures Apply(s, r)[a] == target[a] {
      ProgramBlank(target[a]);
    }
  }

  lemma {:induction false} ApplyAllReaches(image: seq<byte>, size: nat, rs: seq<Record>)
    requires |image| <= size && forall r :: r in rs ==> r in RecordsOf(image)
    ensures forall r :: r in rs ==> Fits(BlankRegion(size), r)
    ensures Toward(ApplyAll(BlankRegion(size), rs), Padded(image, size))
    ensures forall r :: r in rs ==> Reached(ApplyAll(BlankRegion(size), rs), Padded(image, size), r)
    decreases |rs|
  {
    hide RecordsOf, Apply;
    forall r | r in rs ensures Fits(BlankRegion(size), r) {
      RecordMatches(image, size, r);
    }
    if rs != [] {
      var q, r := rs[..|rs| - 1], rs[|rs| - 1];
      ApplyAllReaches(image, size, q);
      RecordMatches(image, size, r);
      ApplyStep(ApplyAll(BlankRegion(size), q), Padded(image, size), r);
    }
  }

  /** Every byte of the image is in one of its records. */
  lemma RecordsCover(image: seq<byte>, a: nat)
    requires a < |image|
    ensures a / RECORD < |RecordsOf(image)|
    ensures var r := RecordsOf(image)[a / RECORD];
            r.number == a / RECORD && r.number * RECORD <= a < r.number * RECORD + |r.data|
  {
  }

  /** In whatever order and however often the records arrive, the storage ends as the image, then blank. */
  lemma AnyOrderAnyRepeats(image: seq<byte>, size: nat, rs: seq<Record>)
    requires |image| <= size
    requires forall r :: r in rs <==> r in RecordsOf(image)
    ensures forall r :: r in rs ==> Fits(BlankRegion(size), r)
    ensures ApplyAll(BlankRegion(size), rs) == Padded(image, size)
  {
    ApplyAllReaches(image, size, rs);
    var s, p := ApplyAll(BlankRegion(size), rs), Padded(image, size);
    forall a | 0 <= a < size ensures s[a] == p[a] {
      if a < |image| {
        RecordsCover(image, a);
        var r := RecordsOf(image)[a / RECORD];
        assert r in rs;
        assert Reached(s, p, r);
      } else {
        assert s[a] == BLANK || s[a] == p[a];
      }
    }
  }

  // The receiver.

  datatype Reply = Accepted | Invalid

  class Receiver {
    const layout: Layout
    const flash: Memory

    ghost predicate Valid() {
      layout.Valid() && flash.cells.Length == CAPACITY
    }

    constructor (layout: Layout, flash: Memory)
      ensures this.layout == layout && this.flash == flash
    {
      this.layout, this.flash := layout, flash;
    }

    /** `eMBFileRecordCB`: `len` counts registers, of which a record buffer holds 64. */
    method FileRecord(buffer: seq<byte>, file: int, record: nat, len: nat, write: bool) returns (reply: Reply)
      requires Valid()
      requires 2 * len <= RECORD && |buffer| == 2 * len
      modifies flash.cells
      ensures flash.cells.Length == CAPACITY
      ensures reply == Accepted <==> file == 1 && record * RECORD < layout.End() - layout.Storage()
      ensures reply == Accepted ==> record * RECORD + 2 * len <= layout.End() - layout.Storage()
      ensures flash.cells[..] == if reply == Accepted && write
                                 then ProgrammedAll(old(flash.cells[..]), layout.Storage() + record * RECORD, buffer)
                                 else old(flash.cells[..])
    {
      var offset := record * RECORD;
      var size := layout.storagePages * PAGE;
      if file != 1 {
        return Invalid;
      }
      if offset >= size {
        return Invalid;
      }
      WholeRecords(layout, record);
      if write {
        var m := [];
        var i := 0;
        while i < len
          invariant 0 <= i <= len && m == buffer[..2 * i]
        {
          m := m + [buffer[2 * i], buffer[2 * i + 1]];
          i := i + 1;
        }
        assert m == buffer;
        flash.Write(layout.Storage() + offset, m);
      }
      return Accepted;
    }

    /** The erase loop of `xMBTCPPortInit`: only pages with a programmed word are erased. */
    method EraseStorage()
      requires Valid()
      modifies flash.cells
      ensures StorageOf(layout, flash.cells[..]) == BlankRegion(layout.storagePages * PAGE)
      ensures forall a :: 0 <= a < CAPACITY && !(layout.Storage() <= a < layout.End()) ==>
                flash.cells[a] == old(flash.cells[a])
    {
      var p := layout.Storage();
      ghost var k := 0;
      while p < layout.End()
        invariant 0 <= k <= layout.storagePages && p == layout.Storage() + k * PAGE
        invariant forall a :: layout.Storage() <= a < p ==> flash.cells[a] == BLANK
        invariant forall a :: 0 <= a < CAPACITY && !(layout.Storage() <= a < p) ==> flash.cells[a] == old(flash.cells[a])
      {
        var blank := PageIsBlank(p);
        if !blank {
          SectorHoldsAddress(p);
          ghost var before := flash.cells[..];
          flash.ErasePage(p);
          assert flash.cells[..] == Erased(before, p, p + PAGE);
          assert forall a :: 0 <= a < CAPACITY ==> flash.cells[a] == Erased(before, p, p + PAGE)[a];
        }
        p, k := p + PAGE, k + 1;
      }
      assert p == layout.End();
    }

    /** The inner loop: it stops at the first word that is not all ones. */
    method PageIsBlank(p: nat) returns (blank: bool)
      requires Valid() && p + PAGE <= CAPACITY
      ensures blank <==> forall a :: p <= a < p + PAGE ==> flash.cells[a] == BLANK
    {
      var i := 0;
      while i < PAGE / 4
        invariant 0 <= i <= PAGE / 4
        invariant forall a :: p <= a < p + 4 * i ==> flash.cells[a] == BLANK
      {
        var m := flash.cells;
        var w := p + 4 * i;
        if m[w] != BLANK || m[w + 1] != BLANK || m[w + 2] != BLANK || m[w + 3] != BLANK {
          return false;
        }
        i := i + 1;
      }
      return true;
    }

    /** All records of an image, delivered in some order with repeats. */
    method ReceiveAll(image: seq<byte>, rs: seq<Record>)
      requires Valid()
      requires |image| % 2 == 0 && |image| <= layout.storagePages * PAGE
      requires forall r :: r in rs <==> r in RecordsOf(image)
      requires StorageOf(layout, flash.cells[..]) == BlankRegion(layout.storagePages * PAGE)
      modifies flash.cells
      ensures StorageOf(layout, flash.cells[..]) == Padded(image, layout.storagePages * PAGE)
      ensures MainOf(layout, flash.cells[..]) == MainOf(layout, old(flash.cells[..]))
    {
      var size := layout.storagePages * PAGE;
      AnyOrderAnyRepeats(image, size, rs);
      hide StorageOf, MainOf, RecordsOf, Padded, BlankRegion, Apply, ProgrammedAll;
      var i := 0;
      assert rs[..0] == [];
      while i < |rs|
        invariant 0 <= i <= |rs|
        invariant forall r :: r in rs[..i] ==> Fits(BlankRegion(size), r)
        invariant StorageOf(layout, flash.cells[..]) == ApplyAll(BlankRegion(size), rs[..i])
        invariant MainOf(layout, flash.cells[..]) == MainOf(layout, old(flash.cells[..]))
      {
        var r := rs[i];
        EvenRecords(image, r);
        ApplyAllLast(BlankRegion(size), rs, i);
        ReceiveOne(r);
        i := i + 1;
      }
      assert rs[..|rs|] == rs;
    }

    /** One record, accepted and programmed. */
    method ReceiveOne(r: Record)
      requires Valid() && 2 * (|r.data| / 2) == |r.data| && 0 < |r.data| <= RECORD
      requires Fits(StorageOf(layout, flash.cells[..]), r)
      modifies flash.cells
      ensures StorageOf(layout, flash.cells[..]) == old(Apply(StorageOf(layout, flash.cells[..]), r))
      ensures MainOf(layout, flash.cells[..]) == MainOf(layout, old(flash.cells[..]))
    {
      hide MainOf, Apply, ProgrammedAll;
      ghost var before := flash.cells[..];
      var reply := FileRecord(r.data, 1, r.number, |r.data| / 2, true);
      OneRecord(layout, before, flash.cells[..], r);
    }
  }

  lemma ApplyAllLast(store: seq<byte>, rs: seq<Record>, i: nat)
    requires i < |rs| && forall r :: r in rs ==> Fits(store, r)
    ensures forall r :: r in rs[..i + 1] ==> Fits(store, r)
    ensures rs[i] in rs && Fits(store, rs[i])
    ensures ApplyAll(store, rs[..i + 1]) == Apply(ApplyAll(store, rs[..i]), rs[i])
  {
    hide Apply, Fits;
    assert forall r :: r in rs[..i + 1] ==> r in rs;
    assert rs[..i + 1][..i] == rs[..i] && rs[..i + 1][i] == rs[i];
  }

  lemma WholeRecords(l: Layout, record: nat)
    requires l.Valid() && record * RECORD < l.storagePages * PAGE
    ensures (record + 1) * RECORD <= l.storagePages * PAGE
  {
    assert PAGE == 1024 * RECORD;
  }

  lemma EvenRecords(image: seq<byte>, r: Record)
    requires |image| % 2 == 0 && r in RecordsOf(image)
    ensures 2 * (|r.data| / 2) == |r.data| <= RECORD
    ensures |r.data| > 0
  {
    var k :| 0 <= k < |RecordsOf(image)| && r == RecordsOf(image)[k];
    SliceLength(image, k);
    hide SliceEnd;
  }

  lemma SliceLength(image: seq<byte>, k: nat)
    requires |image| % 2 == 0 && k < (|image| + RECORD - 1) / RECORD
    ensures var n := SliceEnd(image, k) - k * RECORD;
            0 < n <= RECORD && 2 * (n / 2) == n
  {
    var n, h := SliceEnd(image, k) - k * RECORD, if (k + 1) * RECORD <= |image| then RECORD / 2 else |image| / 2 - k * 64;
    assert |image| == 2 * (|image| / 2);
    assert n == 2 * h;
    HalfOfDouble(h);
  }

  lemma HalfOfDouble(h: int)
    ensures 2 * h / 2 == h
  {
  }

  lemma OneRecord(l: Layout, f: seq<byte>, g: seq<byte>, r: Record)
    requires l.Valid() && |f| == CAPACITY
    requires r.number * RECORD + |r.data| <= l.End() - l.Storage()
    requires g == ProgrammedAll(f, l.Storage() + r.number * RECORD, r.data)
    ensures StorageOf(l, g) == Apply(StorageOf(l, f), r)
    ensures MainOf(l, g) == MainOf(l, f)
  {
  }

  /**
   From an upload to the next boot: if the storage holds a good image that differs from what runs,
   one undisturbed boot moves it to main, byte for byte, leaves everything else blank and starts
   it; the boot after that changes nothing.
   */
  lemma UploadThenBoot(l: Layout, f: seq<byte>, image: seq<byte>)
    requires l.Valid() && Readable(l, f) && NeedsUpgrade(l, f)
    requires |image| <= l.storagePages * PAGE && StorageOf(l, f) == Padded(image, l.storagePages * PAGE)
    ensures var n := Size(StorageOf(l, f));
            var b := Boot(l, State(f, Start));
            && n <= l.Bound()
            && MainOf(l, b.flash)[..n] == Padded(image, l.storagePages * PAGE)[..n]
            && StorageOf(l, b.flash) == BlankRegion(l.storagePages * PAGE)
            && b.pc.Running?
            && Boot(l, State(b.flash, Start)) == b
  {
    hide Check, Size, WellSized, SameRelease, ExeOffset, Padded, Boot, NeedsUpgrade;
    BootUpgrades(l, f);
    SecondBootIsQuiet(l, f);
    UpgradedMain(l, f, Size(StorageOf(l, f)));
    UpgradedRegion(l, f);
  }

  lemma UpgradedRegion(l: Layout, f: seq<byte>)
    requires l.Valid() && |f| == CAPACITY && Size(StorageOf(l, f)) <= l.Bound()
    ensures StorageOf(l, Upgraded(l, f)) == BlankRegion(l.storagePages * PAGE)
  {
    hide Size;
    assert l.Main() + Size(StorageOf(l, f)) <= l.Storage();
  }
}
