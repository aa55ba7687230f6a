/** The Ethernet transmit ring, shared by the driver and the DMA engine: OWN bits say whose turn it is. */
module EthRing {
  const TX_BUF_SIZE := 1524
  const TBS1 := 0x2000          // the size field has 13 bits

  datatype Desc = Desc(own: bool, first: bool, last: bool, size: nat, next: nat)

  /** What the DMA engine takes out of a descriptor. */
  datatype Segment = Segment(size: nat, first: bool, last: bool)

  /** `sent` is what the engine has put on the wire. */
  datatype Ring = Ring(descs: seq<Desc>, toSet: nat, dma: nat, sent: seq<Segment>)

  function Taken(d: Desc): Segment { Segment(d.size, d.first, d.last) }

  function NextOf(n: nat, i: nat): (j: nat)
    ensures n > 0 ==> j < n
  {
    if i + 1 < n then i + 1 else 0
  }

  predicate Chained(r: Ring) {
    && r.toSet < |r.descs| && r.dma < |r.descs|
    && forall i :: 0 <= i < |r.descs| ==> r.descs[i].next == NextOf(|r.descs|, i)
  }

  // Steps.

  function BufCount(length: nat): nat {
    if length > TX_BUF_SIZE then length / TX_BUF_SIZE + (if length % TX_BUF_SIZE != 0 then 1 else 0) else 1
  }

  /** The size of segment i of a frame in count segments. */
  function SegmentSize(i: nat, count: nat, length: nat): nat
    requires count == BufCount(length)
  {
    (if i + 1 == count then length - (count - 1) * TX_BUF_SIZE else TX_BUF_SIZE) % TBS1
  }

  /** A descriptor handed over with segment i; flags are only ever set. */
  function Given(d: Desc, i: nat, count: nat, length: nat): Desc
    requires count == BufCount(length)
  {
    d.(own := true, first := d.first || i == 0, last := d.last || i + 1 == count, size := SegmentSize(i, count, length))
  }

  /** Handing over segments i to count, from descriptor p on. */
  function Fill(descs: seq<Desc>, p: nat, i: nat, length: nat): (r: (seq<Desc>, nat))
    requires p < |descs| && i <= BufCount(length)
    requires forall j :: 0 <= j < |descs| ==> descs[j].next == NextOf(|descs|, j)
    ensures |r.0| == |descs| && r.1 < |descs|
    ensures forall j :: 0 <= j < |descs| ==> r.0[j].next == NextOf(|descs|, j)
    decreases BufCount(length) - i
  {
    if i == BufCount(length) then (descs, p)
    else
      assert descs[p].next == NextOf(|descs|, p) < |descs|;
      assert i + 1 <= BufCount(length);
      Fill(descs[p := Given(descs[p], i, BufCount(length), length)], descs[p].next, i + 1, length)
  }

  /** `ETH_Prepare_Transmit_Descriptors`. */
  function Prepare(r: Ring, length: nat): (res: (bool, Ring))
    requires Chained(r)
    ensures Chained(res.1) && |res.1.descs| == |r.descs|
  {
    if r.descs[r.toSet].own then (false, r)
    else
      var (descs, p) := Fill(r.descs, r.toSet, 0, length);
      (true, r.(descs := descs, toSet := p))
  }

  /** The engine finishes the descriptor it is at; without one of its own it waits. */
  function Complete(r: Ring): (r': Ring)
    requires Chained(r)
    ensures Chained(r') && |r'.descs| == |r.descs|
  {
    var d := r.descs[r.dma];
    if !d.own then r
    else r.(descs := r.descs[r.dma := d.(own := false)], dma := d.next, sent := r.sent + [Taken(d)])
  }

  // The ring as a queue.

  /** The descriptor k places after the engine's. */
  function At(r: Ring, k: nat): nat
    requires r.dma < |r.descs|
  {
    if r.dma + k < |r.descs| then r.dma + k else r.dma + k - |r.descs|
  }

  /** The engine owns exactly the k descriptors from its own on, up to the driver's. */
  predicate Arc(r: Ring, k: nat) {
    && Chained(r) && k <= |r.descs| && r.toSet == At(r, k)
    && forall j :: 0 <= j < |r.descs| ==> (r.descs[At(r, j)].own <==> j < k)
  }

  function Pending(r: Ring, k: nat): (q: seq<Segment>)
    requires r.dma < |r.descs| && k <= |r.descs|
    ensures |q| == k
  {
    seq(k, j requires 0 <= j < k => Taken(r.descs[At(r, j)]))
  }

  /** The sizes a frame is split into. */
  function Split(length: nat): (s: seq<nat>)
    ensures |s| == BufCount(length)
  {
    seq(BufCount(length), i requires 0 <= i < BufCount(length) => SegmentSize(i, BufCount(length), length))
  }

  function Sum(s: seq<nat>): nat { if s == [] then 0 else s[0] + Sum(s[1..]) }

  /** A frame length is 16 bits wide. */
  predicate FrameLength(length: nat) { length < 0x1_0000 }

  /** No segment is empty or longer than a buffer, and together they are the frame. */
  lemma SplitIsExact(length: nat)
    requires 1 <= length
    ensures forall i :: 0 <= i < |Split(length)| ==> 1 <= Split(length)[i] <= TX_BUF_SIZE
    ensures Sum(Split(length)) == length
    ensures |Split(length)| == (length + 1523) / 1524
    ensures forall i :: 0 <= i < |Split(length)| - 1 ==> Split(length)[i] == 1524
  {
    SplitFrom(length, 0);
    assert Split(length)[0..] == Split(length);
  }

  lemma {:induction false} SplitFrom(length: nat, i: nat)
    requires 1 <= length && i < BufCount(length)
    ensures Sum(Split(length)[i..]) == length - i * TX_BUF_SIZE
    ensures forall j :: i <= j < BufCount(length) ==> 1 <= Split(length)[j] <= TX_BUF_SIZE
    decreases BufCount(length) - i
  {
    if i + 1 < BufCount(length) {
      SplitFrom(length, i + 1);
      assert Split(length)[i..][1..] == Split(length)[i + 1..];
    } else {
      assert Split(length)[i..] == [Split(length)[i]];
    }
  }

  // Handing over, seen from the queue.

  /** What filling leaves alone, and what it writes: the descriptor j places after the engine's. */
  lemma {:induction false} FillWrites(r: Ring, k: nat, i: nat, length: nat, j: nat)
    requires Chained(r) && r.toSet == At(r, k) && i <= BufCount(length) && k + BufCount(length) - i <= |r.descs|
    requires j < |r.descs|
    ensures var (descs, p) := Fill(r.descs, r.toSet, i, length);
            && p == At(r, k + BufCount(length) - i)
            && descs[At(r, j)] == if k <= j < k + BufCount(length) - i
                                  then Given(r.descs[At(r, j)], j - k + i, BufCount(length), length)
                                  else r.descs[At(r, j)]
    decreases BufCount(length) - i
  {
    hide SegmentSize, BufCount;
    var count := BufCount(length);
    if i < count {
      var d := r.descs[r.toSet];
      var one := r.(descs := r.descs[r.toSet := Given(d, i, count, length)], toSet := d.next);
      assert At(one, j) == At(r, j);
      FillWrites(one, k + 1, i + 1, length, j);
    }
  }

  /** The i-th free descriptor, when the engine owns k. */
  function Free(r: Ring, k: nat, i: nat): Desc
    requires r.dma < |r.descs| && k + i < |r.descs|
  {
    r.descs[At(r, k + i)]
  }

  /** The segments a frame adds: its sizes, and flags on top of those its descriptors still carry. */
  function Added(r: Ring, k: nat, length: nat): (q: seq<Segment>)
    requires r.dma < |r.descs| && k + BufCount(length) <= |r.descs|
    ensures |q| == BufCount(length)
  {
    seq(BufCount(length), i requires 0 <= i < BufCount(length) =>
      Taken(Given(Free(r, k, i), i, BufCount(length), length)))
  }

  /** With room for it, a frame joins the end of the queue; with none at all it is refused and nothing changes. */
  lemma PrepareQueues(r: Ring, k: nat, length: nat)
    requires Arc(r, k) && (k == |r.descs| || k + BufCount(length) <= |r.descs|)
    ensures var (ok, r') := Prepare(r, length);
            if k == |r.descs| then !ok && r' == r
            else
              && ok && Arc(r', k + BufCount(length)) && r'.sent == r.sent
              && Pending(r', k + BufCount(length)) == Pending(r, k) + Added(r, k, length)
  {
    hide BufCount, SegmentSize, Fill;
    if k == |r.descs| {
      assert At(r, 0) == At(r, k) && r.descs[At(r, 0)].own;
    }
    if k < |r.descs| {
      var r' := Prepare(r, length).1;
      forall j | 0 <= j < |r.descs|
        ensures At(r', j) == At(r, j) && r'.toSet == At(r, k + BufCount(length))
        ensures r'.descs[At(r', j)] == if k <= j < k + BufCount(length) then Given(r.descs[At(r, j)], j - k, BufCount(length), length) else r.descs[At(r, j)]
      {
        FillWrites(r, k, 0, length, j);
      }
    }
  }

  /** The engine takes the head of the queue, if there is one. */
  lemma CompleteDequeues(r: Ring, k: nat)
    requires Arc(r, k)
    ensures var r' := Complete(r);
            if k == 0 then r' == r
            else Arc(r', k - 1) && r'.sent == r.sent + [Pending(r, k)[0]] && Pending(r', k - 1) == Pending(r, k)[1..]
  {
    assert At(r, 0) == r.dma;
    var n, r' := |r.descs|, Complete(r);
    if k > 0 {
      forall j | 0 <= j < n - 1 ensures At(r', j) == At(r, j + 1) && r'.descs[At(r', j)] == r.descs[At(r, j + 1)] {
      }
      assert At(r', n - 1) == r.dma;
    }
  }

  function Sizes(q: seq<Segment>): (s: seq<nat>)
    ensures |s| == |q|
  {
    seq(|q|, i requires 0 <= i < |q| => q[i].size)
  }

  lemma AddedSizes(r: Ring, k: nat, length: nat)
    requires r.dma < |r.descs| && k + BufCount(length) <= |r.descs|
    ensures Sizes(Added(r, k, length)) == Split(length)
  {
    hide BufCount, SegmentSize, Free;
    forall i | 0 <= i < BufCount(length) ensures Sizes(Added(r, k, length))[i] == Split(length)[i] {
    }
  }

  /** The ring is a queue of segments with these sizes. */
  predicate Holds(r: Ring, k: nat, sizes: seq<nat>) {
    Arc(r, k) && Sizes(Pending(r, k)) == sizes
  }

  /**
   Only the first descriptor is tested. An accepted frame joins the queue exactly when as many
   descriptors are free as it needs; otherwise it runs over descriptors that are still to be sent.
   */
  lemma PrepareExactIff(r: Ring, k: nat, length: nat)
    requires Arc(r, k) && k < |r.descs|
    ensures Prepare(r, length).0
    ensures (exists k' :: Holds(Prepare(r, length).1, k', Sizes(Pending(r, k)) + Split(length)))
            <==> k + BufCount(length) <= |r.descs|
  {
    assert !r.descs[At(r, k)].own;
    if k + BufCount(length) <= |r.descs| {
      PrepareQueues(r, k, length);
      AddedSizes(r, k, length);
      hide Prepare, Added, BufCount, Split;
      var r', k' := Prepare(r, length).1, k + BufCount(length);
      assert Sizes(Pending(r', k')) == Sizes(Pending(r, k)) + Sizes(Added(r, k, length));
      assert Holds(r', k', Sizes(Pending(r, k)) + Split(length));
    }
  }

  // Frame marks.

  /** The flags say where the frame starts and ends. */
  predicate WellMarked(q: seq<Segment>) {
    forall i :: 0 <= i < |q| ==> (q[i].first <==> i == 0) && (q[i].last <==> i == |q| - 1)
  }

  /** A frame in one segment is always marked right; a longer one, exactly when its descriptors carry no flags left from before. */
  lemma MarkedIff(r: Ring, k: nat, length: nat)
    requires r.dma < |r.descs| && k + BufCount(length) <= |r.descs|
    ensures BufCount(length) == 1 ==> WellMarked(Added(r, k, length))
    ensures WellMarked(Added(r, k, length)) <==>
            forall i :: 0 <= i < BufCount(length) ==>
              (i > 0 ==> !Free(r, k, i).first) && (i < BufCount(length) - 1 ==> !Free(r, k, i).last)
  {
    hide BufCount, SegmentSize, Free;
    var q, count := Added(r, k, length), BufCount(length);
    forall i | 0 <= i < count
      ensures q[i].first == (Free(r, k, i).first || i == 0) && q[i].last == (Free(r, k, i).last || i + 1 == count)
    {
    }
  }
}
