/** Parameter sets as sealed blobs: what is written, what is accepted, what is restored. */
module Params {
  import opened Bytes
  import opened ParamBytes
  import Words16
  import Crc16
  import CrcErrors
  import opened CrcEngines

  datatype Save = NotSave | SaveSys | SaveUse

  datatype Handler = Handler(addr: word, size: nat, signed: bool, min: int, max: int, def: int, save: Save)

  datatype Param = Param(h: Handler, val: int)

  predicate WellTyped(h: Handler) {
    && (h.size == 1 || h.size == 2 || h.size == 4 || h.size == 8)
    && Fits(h.min, h.size, h.signed) && Fits(h.max, h.size, h.signed) && Fits(h.def, h.size, h.signed)
  }

  predicate InRange(h: Handler, v: int) { h.min <= v <= h.max }

  predicate Legal(ps: seq<Param>) {
    forall i :: 0 <= i < |ps| ==> WellTyped(ps[i].h) && Fits(ps[i].val, ps[i].h.size, ps[i].h.signed)
  }

  const MAGIC: seq<byte> := [0x05, 0x28]

  // Writing.

  /** What a parameter contributes to the blob of `save`. */
  function Part(p: Param, save: Save): seq<byte> {
    if p.h.save == save then Encode(p.val, p.h.size) else []
  }

  function Payload(ps: seq<Param>, save: Save): seq<byte> {
    if ps == [] then [] else Payload(ps[..|ps| - 1], save) + Part(ps[|ps| - 1], save)
  }

  /** Closed by its own CRC. */
  function Sealed(m: seq<byte>): seq<byte> { m + WireCrc(m) }

  function Blob(ps: seq<Param>, save: Save): seq<byte> { Sealed(MAGIC + Payload(ps, save)) }

  // Reading.

  predicate Accepts(b: seq<byte>) {
    |b| >= 2 && b[..2] == MAGIC && Crc16.Crc(INIT, b) == 0
  }

  /** A parameter after its bytes were read: out of range, they are ignored. */
  function Loaded(p: Param, b: seq<byte>): Param {
    var v := Decode(b, p.h.signed);
    if InRange(p.h, v) then p.(val := v) else p
  }

  function Restored(ps: seq<Param>, save: Save, src: seq<byte>): (qs: seq<Param>)
    requires |src| >= |Payload(ps, save)|
    ensures |qs| == |ps|
  {
    if ps == [] then [] else
      var init, last := ps[..|ps| - 1], ps[|ps| - 1];
      var at := |Payload(init, save)|;
      Restored(init, save, src) + [if last.h.save == save then Loaded(last, src[at..at + last.h.size]) else last]
  }

  function Deserialized(ps: seq<Param>, save: Save, b: seq<byte>): (bool, seq<Param>)
    requires |b| == |Blob(ps, save)|
  {
    if Accepts(b) then (true, Restored(ps, save, b[2..])) else (false, ps)
  }

  // What was written is read back.

  predicate SameHandlers(ps: seq<Param>, qs: seq<Param>) {
    |ps| == |qs| && forall i :: 0 <= i < |ps| ==> ps[i].h == qs[i].h
  }

  /** q, with the saved value of p where that is in range. */
  function Taken(p: Param, q: Param, save: Save): Param {
    if q.h.save == save && InRange(q.h, p.val) then p else q
  }

  function Merged(ps: seq<Param>, qs: seq<Param>, save: Save): seq<Param>
    requires |ps| == |qs|
  {
    seq(|qs|, i requires 0 <= i < |qs| => Taken(ps[i], qs[i], save))
  }

  lemma {:induction false} SameSizes(ps: seq<Param>, qs: seq<Param>, save: Save)
    requires SameHandlers(ps, qs)
    ensures |Payload(ps, save)| == |Payload(qs, save)|
  {
    if ps != [] {
      SameSizes(ps[..|ps| - 1], qs[..|qs| - 1], save);
    }
  }

  lemma Prefixes(ps: seq<Param>, qs: seq<Param>, n: nat)
    requires SameHandlers(ps, qs) && n <= |ps|
    ensures |ps| == |qs| && SameHandlers(ps[..n], qs[..n])
    ensures Legal(ps) ==> Legal(ps[..n])
  {
    hide WellTyped, Fits;
  }

  lemma {:induction false} PayloadRestores(ps: seq<Param>, qs: seq<Param>, save: Save, src: seq<byte>)
    requires Legal(ps) && SameHandlers(ps, qs) && Payload(ps, save) <= src
    ensures |src| >= |Payload(qs, save)|
    ensures |ps| == |qs| && Restored(qs, save, src) == Merged(ps, qs, save)
  {
    SameSizes(ps, qs, save);
    if ps == [] {
      assert Restored(qs, save, src) == [];
    } else {
      hide Payload, Restored, Merged, Legal, SameHandlers, Taken;
      var n := |ps| - 1;
      Prefixes(ps, qs, n);
      RestoresLast(ps, qs, save, src);
      PayloadRestores(ps[..n], qs[..n], save, src);
      MergedLast(ps, qs, save);
    }
  }

  lemma MergedLast(ps: seq<Param>, qs: seq<Param>, save: Save)
    requires |ps| == |qs| > 0
    ensures var n := |ps| - 1;
            Merged(ps, qs, save) == Merged(ps[..n], qs[..n], save) + [Taken(ps[n], qs[n], save)]
  {
    hide Taken;
  }

  /** The last parameter finds its bytes behind those of the others. */
  lemma RestoresLast(ps: seq<Param>, qs: seq<Param>, save: Save, src: seq<byte>)
    requires Legal(ps) && SameHandlers(ps, qs) && ps != [] && Payload(ps, save) <= src
    ensures var n := |ps| - 1;
            && Payload(ps[..n], save) <= src
            && |src| >= |Payload(qs, save)| && |src| >= |Payload(qs[..n], save)|
            && Restored(qs, save, src) == Restored(qs[..n], save, src) + [Taken(ps[n], qs[n], save)]
  {
    hide Part, Taken, Loaded, WellTyped, Fits;
    var n := |ps| - 1;
    SameSizes(ps, qs, save);
    SameSizes(ps[..n], qs[..n], save);
    PartLoads(ps[n], qs[n], save);
    var at := |Payload(ps[..n], save)|;
    assert src[at..at + |Part(ps[n], save)|] == Part(ps[n], save);
  }

  lemma PartLoads(p: Param, q: Param, save: Save)
    requires p.h == q.h && WellTyped(p.h) && Fits(p.val, p.h.size, p.h.signed)
    ensures Taken(p, q, save) == if q.h.save == save then Loaded(q, Part(p, save)) else q
    ensures |Part(p, save)| == if q.h.save == save then q.h.size else 0
  {
    ValueRoundTrip(p.val, p.h.size, p.h.signed);
    hide Encode, Decode, Fits;
  }

  lemma SealedIsAccepted(m: seq<byte>)
    requires |m| >= 2 && m[..2] == MAGIC
    ensures Accepts(Sealed(m))
  {
    hide Crc16.BitSteps, Words16.Lo, Words16.Hi, Words16.Join;
    var c := Crc16.Crc(INIT, m);
    var lo, hi := Words16.Lo(c), Words16.Hi(c);
    Words16.SplitJoin(c, hi, lo);
    Crc16.ResidueZero(INIT, m, lo, hi);
    assert Sealed(m) == m + [lo, hi];
    assert Sealed(m)[..2] == m[..2];
  }

  /** An unmodified blob is accepted, and restores every saved value that is in range, whatever is in memory. */
  lemma BlobRoundTrip(ps: seq<Param>, qs: seq<Param>, save: Save)
    requires Legal(ps) && SameHandlers(ps, qs)
    ensures |Blob(ps, save)| == |Blob(qs, save)|
    ensures Deserialized(qs, save, Blob(ps, save)) == (true, Merged(ps, qs, save))
  {
    hide WireCrc, Accepts, Restored, Payload, Legal, Merged;
    var m := MAGIC + Payload(ps, save);
    SealedIsAccepted(m);
    SameSizes(ps, qs, save);
    assert Blob(ps, save)[2..] == Payload(ps, save) + WireCrc(m);
    PayloadRestores(ps, qs, save, Blob(ps, save)[2..]);
  }

  // The layout of a blob, and what is accepted.

  /** The bytes that the first m parameters take in the blob of `save`. */
  function SavedBefore(ps: seq<Param>, m: nat, save: Save): nat
    requires m <= |ps|
  {
    if m == 0 then 0 else SavedBefore(ps, m - 1, save) + if ps[m - 1].h.save == save then ps[m - 1].h.size else 0
  }

  lemma {:induction false} PayloadLayout(ps: seq<Param>, m: nat, save: Save)
    requires m <= |ps|
    ensures |Payload(ps[..m], save)| == SavedBefore(ps, m, save)
    ensures forall k :: 0 <= k < m && ps[k].h.save == save ==> HoldsValue(Payload(ps[..m], save), ps, k, save)
  {
    hide Encode;
    if m > 0 {
      PayloadLayout(ps, m - 1, save);
      assert ps[..m][..m - 1] == ps[..m - 1];
      var before := Payload(ps[..m - 1], save);
      assert Payload(ps[..m], save) == before + Part(ps[m - 1], save);
      forall k | 0 <= k < m && ps[k].h.save == save ensures HoldsValue(Payload(ps[..m], save), ps, k, save) {
        if k < m - 1 {
          assert HoldsValue(before, ps, k, save);
          StillHolds(before, Part(ps[m - 1], save), ps, k, save);
        }
      }
    }
  }

  /** The value of parameter k lies behind those of the parameters before it. */
  predicate HoldsValue(b: seq<byte>, ps: seq<Param>, k: nat, save: Save)
    requires k < |ps|
  {
    var at := SavedBefore(ps, k, save);
    at + ps[k].h.size <= |b| && b[at..at + ps[k].h.size] == Encode(ps[k].val, ps[k].h.size)
  }

  lemma StillHolds(b: seq<byte>, more: seq<byte>, ps: seq<Param>, k: nat, save: Save)
    requires k < |ps| && HoldsValue(b, ps, k, save)
    ensures HoldsValue(b + more, ps, k, save)
  {
    hide SavedBefore, Encode;
  }

  /** 5, 40, every saved value in the order of the parameters, and the CRC. */
  lemma BlobLayout(ps: seq<Param>, save: Save)
    ensures |Blob(ps, save)| == 4 + SavedBefore(ps, |ps|, save)
    ensures Value(Blob(ps, save)[0]) == 5 && Value(Blob(ps, save)[1]) == 40
    ensures forall k :: 0 <= k < |ps| && ps[k].h.save == save ==> HoldsValue(Blob(ps, save)[2..], ps, k, save)
    ensures var n := |Blob(ps, save)|; Blob(ps, save)[n - 2..] == WireCrc(Blob(ps, save)[..n - 2])
  {
    hide SavedBefore, Payload, HoldsValue, WireCrc;
    PayloadLayout(ps, |ps|, save);
    assert ps[..|ps|] == ps;
    var m := Payload(ps, save);
    assert Blob(ps, save)[2..] == m + WireCrc(MAGIC + m);
    forall k | 0 <= k < |ps| && ps[k].h.save == save ensures HoldsValue(Blob(ps, save)[2..], ps, k, save) {
      StillHolds(m, WireCrc(MAGIC + m), ps, k, save);
    }
    assert Blob(ps, save)[..2 + |m|] == MAGIC + m;
  }

  /** Accepted exactly when the first two bytes are 5 and 40, and the last two the CRC of all before them. */
  lemma AcceptsIff(b: seq<byte>)
    requires |b| >= 4
    ensures Accepts(b) <==> b[0] == 0x05 && b[1] == 0x28 && b[|b| - 2..] == WireCrc(b[..|b| - 2])
  {
    hide Crc16.BitSteps, Crc16.Crc, Words16.Lo, Words16.Hi, Words16.Join;
    var m, lo, hi := b[..|b| - 2], b[|b| - 2], b[|b| - 1];
    assert b == m + [lo, hi] && b[|b| - 2..] == [lo, hi];
    Crc16.ResidueZero(INIT, m, lo, hi);
    var c := Crc16.Crc(INIT, m);
    Words16.SplitJoin(c, hi, lo);
  }

  // A damaged blob is refused, and changes nothing.

  /** One wrong byte, anywhere in a blob of any length. */
  lemma WrongByteRefused(ps: seq<Param>, qs: seq<Param>, save: Save, k: nat, x: byte)
    requires SameHandlers(ps, qs)
    requires k < |Blob(ps, save)| && x != Blob(ps, save)[k]
    ensures |Blob(ps, save)| == |Blob(qs, save)|
    ensures Deserialized(qs, save, Blob(ps, save)[k := x]) == (false, qs)
  {
    hide WireCrc, Crc16.Crc, Restored, Payload, CrcErrors.Bits, Words16.Hi, Words16.Lo;
    SameSizes(ps, qs, save);
    var b := Blob(ps, save);
    SealedIsAccepted(MAGIC + Payload(ps, save));
    CrcErrors.OneByteDetected(INIT, b[..k], b[k], x, b[k + 1..]);
    assert b == b[..k] + [b[k]] + b[k + 1..];
    assert b[k := x] == b[..k] + [x] + b[k + 1..];
  }

  /** Errors confined to 16 consecutive bits, or an odd number of wrong bits. */
  lemma WrongBitsRefused(ps: seq<Param>, qs: seq<Param>, save: Save, d: seq<byte>, p: nat)
    requires SameHandlers(ps, qs) && |d| == |Blob(ps, save)|
    requires var e := CrcErrors.Diff(CrcErrors.Bits(Blob(ps, save)), CrcErrors.Bits(d));
             CrcErrors.BurstAt(e, p) || CrcErrors.Ones(e) % 2 == 1
    ensures |Blob(ps, save)| == |Blob(qs, save)|
    ensures Deserialized(qs, save, d) == (false, qs)
  {
    hide WireCrc, Crc16.Crc, Restored, Payload, CrcErrors.Bits, CrcErrors.BurstAt, CrcErrors.Ones, CrcErrors.Diff;
    hide Words16.Hi, Words16.Lo;
    SameSizes(ps, qs, save);
    SealedIsAccepted(MAGIC + Payload(ps, save));
    var b := Blob(ps, save);
    if CrcErrors.BurstAt(CrcErrors.Diff(CrcErrors.Bits(b), CrcErrors.Bits(d)), p) {
      CrcErrors.BurstDetected(INIT, b, d, p);
    } else {
      CrcErrors.OddErrorsDetected(INIT, b, d);
    }
  }
}
