/** The parameter objects and the array of them, as the program updates them in place. */
module ParamSystem {
  import opened Bytes
  import opened ParamBytes
  import opened Params
  import opened CrcEngines
  import Words16
  import Crc16

  /** `Val<T>` for an integer type T of `size` bytes. */
  class Val {
    const handler: Handler
    var val: int

    constructor (handler: Handler)
      ensures this.handler == handler && val == handler.def
    {
      this.handler := handler;
      val := handler.def;
    }

    ghost function Now(): Param
      reads this
    {
      Param(handler, val)
    }

    /** The copy of the value into a buffer. */
    method Serialize(dst: array<byte>, at: nat)
      requires at + handler.size <= dst.Length
      modifies dst
      ensures dst[..at] == old(dst[..at]) && dst[at..at + handler.size] == Encode(val, handler.size)
      ensures dst[at + handler.size..] == old(dst[at + handler.size..])
      ensures dst[..at + handler.size] == old(dst[..at]) + Encode(val, handler.size)
    {
      Put(dst, at, Encode(val, handler.size));
    }

    /** A value out of range is refused. */
    method Deserialize(src: seq<byte>) returns (ok: bool)
      requires |src| == handler.size
      modifies this
      ensures ok == InRange(handler, Decode(src, handler.signed))
      ensures ok <==> handler.min <= Decode(src, handler.signed) <= handler.max
      ensures val == if ok then Decode(src, handler.signed) else old(val)
      ensures Now() == Loaded(old(Now()), src)
    {
      var v := Decode(src, handler.signed);
      if v > handler.max || v < handler.min {
        return false;
      }
      val := v;
      ok := true;
    }

    /** `stepsize`: by so many steps, up to the nearest end of the range. */
    method StepSize(step: int, stepsize: int)
      requires InRange(handler, val) && stepsize >= 0
      requires Fits(stepsize * Magnitude(step), handler.size, handler.signed)
      requires Fits(handler.max - handler.min, handler.size, handler.signed)
      modifies this
      ensures val == Saturated(handler, old(val) + step * stepsize)
      ensures handler.min <= val <= handler.max
      ensures val == old(val) + step * stepsize
              || val == handler.min > old(val) + step * stepsize || val == handler.max < old(val) + step * stepsize
    {
      hide Fits;
      var result := stepsize * Magnitude(step);
      SignedProduct(step, stepsize);
      if step < 0 {
        val := if result > val - handler.min then handler.min else val - result;
      } else {
        val := if result > handler.max - val then handler.max else val + result;
      }
    }
  }

  function Magnitude(x: int): int { if x < 0 then -x else x }

  /** The value of the range nearest to v. */
  function Saturated(h: Handler, v: int): int { if v < h.min then h.min else if v > h.max then h.max else v }

  lemma SignedProduct(step: int, stepsize: int)
    requires stepsize >= 0
    ensures step * stepsize == if step < 0 then -(stepsize * Magnitude(step)) else stepsize * Magnitude(step)
    ensures stepsize * Magnitude(step) >= 0
  {
  }

  ghost function Snapshot(vs: seq<Val>): (ps: seq<Param>)
    reads vs
    ensures |ps| == |vs|
  {
    seq(|vs|, i requires 0 <= i < |vs| reads vs => vs[i].Now())
  }

  /** The index of the first parameter at the address. */
  function Lookup(ps: seq<Param>, address: int): (i: nat)
    ensures i <= |ps|
  {
    if ps == [] || ps[0].h.addr == address then 0 else 1 + Lookup(ps[1..], address)
  }

  /** It is at the address, and none before it is; without one, it is the number of parameters. */
  lemma {:induction false} LookupIsFirst(ps: seq<Param>, address: int)
    ensures var i := Lookup(ps, address);
            && (i < |ps| ==> ps[i].h.addr == address)
            && (forall j :: 0 <= j < i ==> ps[j].h.addr != address)
            && (i == |ps| <==> forall j :: 0 <= j < |ps| ==> ps[j].h.addr != address)
  {
    if ps != [] && ps[0].h.addr != address {
      LookupIsFirst(ps[1..], address);
      assert forall j :: 1 <= j < |ps| ==> ps[j] == ps[1..][j - 1];
    }
  }

  class System {
    const valuearray: seq<Val>
    var currentIndex: nat

    ghost predicate Valid()
      reads valuearray
    {
      && (forall i, j :: 0 <= i < j < |valuearray| ==> valuearray[i] != valuearray[j])
      && Legal(Table())
    }

    ghost function Table(): (ps: seq<Param>)
      reads valuearray
    {
      Snapshot(valuearray)
    }

    constructor (valuearray: seq<Val>)
      requires forall i, j :: 0 <= i < j < |valuearray| ==> valuearray[i] != valuearray[j]
      requires Legal(Snapshot(valuearray))
      ensures Valid() && this.valuearray == valuearray
    {
      this.valuearray, currentIndex := valuearray, 0;
    }

    /** `getbyaddress`: the first parameter at the address, remembered by its index. */
    method GetByAddress(address: int) returns (p: Val?)
      modifies this
      ensures currentIndex == Lookup(Table(), address)
      ensures if currentIndex < |valuearray| then p == valuearray[currentIndex] else p == null
      ensures p != null ==> p.handler.addr == address
      ensures p == null <==> forall j :: 0 <= j < |valuearray| ==> valuearray[j].handler.addr != address
      ensures forall j :: 0 <= j < currentIndex ==> valuearray[j].handler.addr != address
    {
      currentIndex := 0;
      while currentIndex < |valuearray|
        invariant currentIndex <= |valuearray|
        invariant forall j :: 0 <= j < currentIndex ==> valuearray[j].handler.addr != address
        invariant Lookup(Table(), address) == currentIndex + Lookup(Table()[currentIndex..], address)
      {
        if address == valuearray[currentIndex].handler.addr {
          return valuearray[currentIndex];
        }
        currentIndex := currentIndex + 1;
      }
      p := null;
    }

    /** `getNext`. */
    method GetNext() returns (p: Val?)
      modifies this
      ensures currentIndex == old(currentIndex) + 1
      ensures if currentIndex < |valuearray| then p == valuearray[currentIndex] else p == null
    {
      currentIndex := currentIndex + 1;
      p := if currentIndex >= |valuearray| then null else valuearray[currentIndex];
    }

    /** `getSerialSize`. */
    method GetSerialSize(save: Save) returns (size: nat)
      ensures size == |Blob(Table(), save)|
    {
      size := 0;
      var i := 0;
      while i < |valuearray|
        invariant 0 <= i <= |valuearray|
        invariant size == |Payload(Table()[..i], save)|
      {
        PayloadLast(Table(), i, save);
        if save == valuearray[i].handler.save {
          size := size + valuearray[i].handler.size;
        }
        i := i + 1;
      }
      assert Table()[..i] == Table();
      size := size + 2 + 2;
    }

    /** `serialize`. */
    method Serialize(save: Save, dst: array<byte>)
      requires dst.Length >= |Blob(Table(), save)|
      modifies dst
      ensures dst[..|Blob(Table(), save)|] == Blob(Table(), save)
      ensures dst[|Blob(Table(), save)|..] == old(dst[|Blob(Table(), save)|..])
    {
      hide Payload, Crc16.Crc, Words16.Lo, Words16.Hi, Snapshot;
      ghost var ps := Table();
      var at := SerializeAll(save, dst);
      var crc := Crc16Calc(dst[..at]);
      label Sealing:
      Put(dst, at, [Words16.Lo(crc), Words16.Hi(crc)]);
      assert Table() == ps;
      assert WireCrc(MAGIC + Payload(ps, save)) == [Words16.Lo(crc), Words16.Hi(crc)];
      assert dst[..at + 2] == Blob(ps, save);
      assert dst[at + 2..] == old@Sealing(dst[at..])[2..];
    }

    /** The magic number, and the loop over the parameters. */
    method SerializeAll(save: Save, dst: array<byte>) returns (at: nat)
      requires dst.Length >= 2 + |Payload(Table(), save)|
      modifies dst
      ensures at == 2 + |Payload(Table(), save)| && dst[..at] == MAGIC + Payload(Table(), save)
      ensures dst[at..] == old(dst[at..])
    {
      hide Part, Payload;
      ghost var ps := Table();
      Put(dst, 0, MAGIC);
      at := 2;
      var i := 0;
      NothingWritten(save);
      while i < |valuearray|
        invariant 0 <= i <= |valuearray| && Table() == ps
        invariant at == 2 + |Payload(ps[..i], save)| <= 2 + |Payload(ps, save)|
        invariant dst[..at] == MAGIC + Payload(ps[..i], save)
        invariant dst[at..] == old(dst[at..])
      {
        PayloadLast(ps, i, save);
        PayloadPrefix(ps, i + 1, save);
        at := SerializeOne(i, save, dst, at);
        i := i + 1;
      }
      assert ps[..i] == ps;
    }

    method SerializeOne(i: nat, save: Save, dst: array<byte>, at: nat) returns (end: nat)
      requires i < |valuearray| && at + |Part(Table()[i], save)| <= dst.Length
      modifies dst
      ensures end == at + |Part(Table()[i], save)| && dst[..end] == old(dst[..at]) + Part(Table()[i], save)
      ensures forall k :: end <= k < dst.Length ==> dst[k] == old(dst[k])
    {
      hide Encode;
      end := at;
      if save == valuearray[i].handler.save {
        valuearray[i].Serialize(dst, at);
        end := end + valuearray[i].handler.size;
      }
    }

    /** `deserialize`. */
    method Deserialize(save: Save, src: seq<byte>) returns (ok: bool)
      requires Valid() && |src| == |Blob(Table(), save)|
      modifies valuearray
      ensures Valid()
      ensures (ok, Table()) == Deserialized(old(Table()), save, src)
    {
      hide Encode, WireCrc, Part, Loaded;
      if src[..2] != MAGIC {
        return false;
      }
      var crc := Crc16Calc(src);
      if crc != 0 {
        return false;
      }
      RestoreAll(save, src[2..]);
      ok := true;
    }

    /** The loop over the parameters: each takes its bytes from behind those of the others. */
    method RestoreAll(save: Save, src: seq<byte>)
      requires Valid() && |src| >= |Payload(Table(), save)|
      modifies valuearray
      ensures Valid() && Table() == Restored(old(Table()), save, src)
    {
      hide Payload, Restored, Legal, Snapshot, RestoredUpTo;
      ghost var ps := Table();
      var at, i := 0, 0;
      NothingRestored(save, src);
      assert RestoredUpTo(ps, 0, save, src) by { StartsUnrestored(ps, save, src); }
      while i < |valuearray|
        invariant 0 <= i <= |valuearray| && |src| >= |Payload(ps[..i], save)| == at
        invariant RestoredUpTo(ps, i, save, src)
      {
        at := RestoreNext(ps, i, save, src, at);
        i := i + 1;
      }
      AllRestored(ps, save, src);
      RestoredLegal(ps, save, src);
    }

    /** The first i parameters are restored, the others as they were. */
    ghost predicate RestoredUpTo(ps: seq<Param>, i: nat, save: Save, src: seq<byte>)
      reads valuearray
    {
      i <= |ps| == |valuearray| && |src| >= |Payload(ps[..i], save)| && Table() == Restored(ps[..i], save, src) + ps[i..]
    }

    lemma StartsUnrestored(ps: seq<Param>, save: Save, src: seq<byte>)
      requires Table() == ps
      ensures RestoredUpTo(ps, 0, save, src)
    {
      NothingRestored(save, src);
      hide Snapshot;
      assert ps[..0] == [] && ps[0..] == ps;
    }

    lemma AllRestored(ps: seq<Param>, save: Save, src: seq<byte>)
      requires RestoredUpTo(ps, |valuearray|, save, src)
      ensures |src| >= |Payload(ps, save)| && Table() == Restored(ps, save, src)
    {
      hide Snapshot, Restored, Payload;
      assert ps[..|ps|] == ps && ps[|ps|..] == [];
    }

    method RestoreNext(ghost ps: seq<Param>, i: nat, save: Save, src: seq<byte>, at: nat) returns (end: nat)
      requires i < |valuearray| && |src| >= |Payload(ps, save)| && RestoredUpTo(ps, i, save, src)
      requires at == |Payload(ps[..i], save)|
      requires forall j, k :: 0 <= j < k < |valuearray| ==> valuearray[j] != valuearray[k]
      modifies valuearray
      ensures |src| >= |Payload(ps[..i + 1], save)| == end && RestoredUpTo(ps, i + 1, save, src)
    {
      hide LoadedFrom, Next, Restored, Payload, Snapshot;
      RestoredLast(ps, i, save, src);
      Advance(Restored(ps[..i], save, src), ps, i);
      end := LoadOne(i, save, src, at);
    }

    method LoadOne(i: nat, save: Save, src: seq<byte>, at: nat) returns (end: nat)
      requires i < |valuearray|
      requires Next(Table()[i], save, at) <= |src|
      requires forall j, k :: 0 <= j < k < |valuearray| ==> valuearray[j] != valuearray[k]
      modifies valuearray[i]
      ensures end == Next(old(Table()[i]), save, at)
      ensures Table() == old(Table())[i := LoadedFrom(old(Table()[i]), save, src, at)]
    {
      hide Loaded;
      end := at;
      if save == valuearray[i].handler.save {
        var _ := valuearray[i].Deserialize(src[at..at + valuearray[i].handler.size]);
        end := end + valuearray[i].handler.size;
      }
    }
  }

  /** Putting the next element of the new table in place. */
  lemma Advance<T>(done: seq<T>, all: seq<T>, i: nat)
    requires |done| == i < |all|
    ensures (done + all[i..])[i] == all[i]
    ensures forall x :: (done + all[i..])[i := x] == done + [x] + all[i + 1..]
  {
  }

  function Next(p: Param, save: Save, at: nat): nat {
    if p.h.save == save then at + p.h.size else at
  }

  function LoadedFrom(p: Param, save: Save, src: seq<byte>, at: nat): Param
    requires Next(p, save, at) <= |src|
  {
    if p.h.save == save then Loaded(p, src[at..at + p.h.size]) else p
  }

  lemma NothingWritten(save: Save)
    ensures Payload([], save) == []
  {
  }

  lemma NothingRestored(save: Save, src: seq<byte>)
    ensures Payload([], save) == [] && Restored([], save, src) == []
  {
  }

  lemma RestoredLast(ps: seq<Param>, i: nat, save: Save, src: seq<byte>)
    requires i < |ps| && |src| >= |Payload(ps, save)|
    ensures var at := |Payload(ps[..i], save)|;
            && |src| >= |Payload(ps[..i + 1], save)| == Next(ps[i], save, at)
            && Restored(ps[..i + 1], save, src) == Restored(ps[..i], save, src) + [LoadedFrom(ps[i], save, src, at)]
  {
    hide Loaded;
    PayloadLast(ps, i, save);
    PayloadPrefix(ps, i + 1, save);
    assert ps[..i + 1][..i] == ps[..i];
  }

  /** What is restored has the same handlers, and values of their types. */
  lemma {:induction false} RestoredLegal(ps: seq<Param>, save: Save, src: seq<byte>)
    requires Legal(ps) && |src| >= |Payload(ps, save)|
    ensures Legal(Restored(ps, save, src)) && SameHandlers(ps, Restored(ps, save, src))
  {
    hide Encode, Decode, WellTyped, Fits, Loaded;
    if ps != [] {
      var n := |ps| - 1;
      RestoredLegal(ps[..n], save, src);
      var at := |Payload(ps[..n], save)|;
      if ps[n].h.save == save {
        LoadedLegal(ps[n], src[at..at + ps[n].h.size]);
      }
    }
  }

  lemma LoadedLegal(p: Param, b: seq<byte>)
    requires WellTyped(p.h) && Fits(p.val, p.h.size, p.h.signed) && |b| == p.h.size
    ensures Loaded(p, b).h == p.h && Fits(Loaded(p, b).val, p.h.size, p.h.signed)
    ensures InRange(p.h, p.val) ==> InRange(p.h, Loaded(p, b).val)
  {
    BytesRoundTrip(b, p.h.signed);
    hide Decode, Fits;
  }

  /** What the first parameters contribute comes first. */
  lemma {:induction false} PayloadPrefix(ps: seq<Param>, i: nat, save: Save)
    requires i <= |ps|
    ensures Payload(ps[..i], save) <= Payload(ps, save)
  {
    if i == |ps| {
      assert ps[..i] == ps;
    } else {
      var n := |ps| - 1;
      PayloadPrefix(ps[..n], i, save);
      assert ps[..n][..i] == ps[..i];
    }
  }

  lemma PayloadLast(ps: seq<Param>, i: nat, save: Save)
    requires i < |ps|
    ensures Payload(ps[..i + 1], save) == Payload(ps[..i], save) + Part(ps[i], save)
  {
    assert ps[..i + 1][..i] == ps[..i];
  }
}
