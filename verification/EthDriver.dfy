/** The transmit driver and the DMA engine on their shared table, and every interleaving of the two. */
module EthDriver {
  import opened EthRing

  /** The table after `ETH_DMATxDescChainInit`; the size fields are whatever they were. */
  function Initial(sizes: seq<nat>): (r: Ring)
    requires sizes != []
    ensures Arc(r, 0)
  {
    Ring.Ring(seq(|sizes|, i requires 0 <= i < |sizes| => Desc(false, false, false, sizes[i], NextOf(|sizes|, i))), 0, 0, [])
  }

  class Driver {
    const descTab: array<Desc>
    var descToSet: nat
    /** The engine's own cursor, and what it has sent. */
    var engine: nat
    ghost var sent: seq<Segment>

    ghost function State(): Ring
      reads this, descTab
    {
      Ring.Ring(descTab[..], descToSet, engine, sent)
    }

    ghost predicate Valid()
      reads this, descTab
    {
      Chained(State())
    }

    /** `ETH_DMATxDescChainInit`. */
    constructor (descTab: array<Desc>)
      requires descTab.Length > 0
      modifies descTab
      ensures this.descTab == descTab && Valid()
      ensures State() == Initial(old(seq(descTab.Length, i requires 0 <= i < descTab.Length reads descTab => descTab[i].size)))
    {
      this.descTab, descToSet, engine, sent := descTab, 0, 0, [];
      new;
      var n := descTab.Length;
      var i := 0;
      while i < n
        invariant 0 <= i <= n && descToSet == engine == 0 && sent == []
        invariant forall j :: 0 <= j < i ==> descTab[j] == Desc(false, false, false, old(descTab[j].size), NextOf(n, j))
        invariant forall j :: i <= j < n ==> descTab[j] == old(descTab[j])
      {
        descTab[i] := descTab[i].(own := false, first := false, last := false, next := if i < n - 1 then i + 1 else 0);
        i := i + 1;
      }
    }

    /** `ETH_Prepare_Transmit_Descriptors`. */
    method PrepareTransmitDescriptors(frameLength: nat) returns (ok: bool)
      requires Valid() && FrameLength(frameLength)
      modifies this, descTab
      ensures Valid() && (ok, State()) == old(Prepare(State(), frameLength))
    {
      hide Fill;
      if descTab[descToSet].own {
        return false;
      }
      ghost var all := Fill(descTab[..], descToSet, 0, frameLength);
      var bufCount := 1;
      if frameLength > TX_BUF_SIZE {
        bufCount := frameLength / TX_BUF_SIZE;
        if frameLength % TX_BUF_SIZE != 0 {
          bufCount := bufCount + 1;
        }
      }
      assert bufCount == BufCount(frameLength);
      if bufCount == 1 {
        FillStep(descTab[..], descToSet, 0, frameLength);
        FillStep(descTab[..][descToSet := Given(descTab[descToSet], 0, 1, frameLength)], descTab[descToSet].next, 1, frameLength);
        descTab[descToSet] := descTab[descToSet].(first := true, last := true, size := frameLength % TBS1, own := true);
        descToSet := descTab[descToSet].next;
      } else {
        var next: nat, i: nat := descToSet, 0;
        while i < bufCount
          invariant 0 <= i <= bufCount && next < descTab.Length && (i == 0 ==> next == descToSet)
          invariant Chained(State()) && unchanged(this)
          invariant all == Fill(descTab[..], next, i, frameLength)
        {
          FillStep(descTab[..], next, i, frameLength);
          ghost var was := descTab[..];
          var d := descTab[next];
          if i == 0 {
            d := d.(first := true);
          }
          d := d.(size := TX_BUF_SIZE % TBS1);
          if i == bufCount - 1 {
            var size := frameLength - (bufCount - 1) * TX_BUF_SIZE;
            d := d.(last := true, size := size % TBS1);
          }
          descTab[next] := d.(own := true);
          assert descTab[..] == was[next := Given(was[next], i, bufCount, frameLength)];
          next := descTab[next].next;
          i := i + 1;
        }
        FillStep(descTab[..], next, i, frameLength);
        descToSet := next;
      }
      ok := true;
    }

    /** The engine: the descriptor it is at, if it owns it, goes on the wire and back to the driver. */
    method Transmit()
      requires Valid()
      modifies this, descTab
      ensures Valid() && State() == old(Complete(State()))
    {
      var d := descTab[engine];
      if d.own {
        sent := sent + [Taken(d)];
        descTab[engine] := d.(own := false);
        engine := d.next;
      }
    }
  }

  lemma FillStep(descs: seq<Desc>, p: nat, i: nat, length: nat)
    requires p < |descs| && i <= BufCount(length)
    requires forall j :: 0 <= j < |descs| ==> descs[j].next == NextOf(|descs|, j)
    ensures Fill(descs, p, i, length) ==
            if i == BufCount(length) then (descs, p)
            else Fill(descs[p := Given(descs[p], i, BufCount(length), length)], descs[p].next, i + 1, length)
  {
  }

  // Every interleaving.

  datatype Event = Submit(length: nat) | Transmitted

  function Step(r: Ring, e: Event): (r': Ring)
    requires Chained(r)
    ensures Chained(r') && |r'.descs| == |r.descs|
  {
    match e
    case Submit(length) => Prepare(r, length).1
    case Transmitted => Complete(r)
  }

  function Run(r: Ring, es: seq<Event>): (r': Ring)
    requires Chained(r)
    ensures Chained(r') && |r'.descs| == |r.descs|
  {
    if es == [] then r else Step(Run(r, es[..|es| - 1]), es[|es| - 1])
  }

  /** The frames taken from the driver's caller, in order. */
  function Accepted(r: Ring, es: seq<Event>): seq<nat>
    requires Chained(r)
  {
    if es == [] then []
    else Accepted(r, es[..|es| - 1]) + Admitted(Run(r, es[..|es| - 1]), es[|es| - 1])
  }

  function Admitted(r: Ring, e: Event): seq<nat>
    requires Chained(r)
  {
    if e.Submit? && Prepare(r, e.length).0 then [e.length] else []
  }

  function SplitAll(lengths: seq<nat>): seq<nat> {
    if lengths == [] then [] else SplitAll(lengths[..|lengths| - 1]) + Split(lengths[|lengths| - 1])
  }

  /** Full, or with room for the whole frame. */
  ghost predicate HasRoom(r: Ring, length: nat) {
    exists k: nat :: Arc(r, k) && (k == |r.descs| || k + BufCount(length) <= |r.descs|)
  }

  ghost predicate Roomy(r: Ring, es: seq<Event>)
    requires Chained(r)
  {
    es == [] || (Roomy(r, es[..|es| - 1]) && (es[|es| - 1].Submit? ==> HasRoom(Run(r, es[..|es| - 1]), es[|es| - 1].length)))
  }

  lemma ArcUnique(r: Ring, k: nat, l: nat)
    requires Arc(r, k) && Arc(r, l)
    ensures k == l
  {
    assert k < |r.descs| ==> !r.descs[At(r, k)].own;
    assert l < |r.descs| ==> !r.descs[At(r, l)].own;
  }

  lemma ArcBounds(r: Ring, k: nat)
    requires Arc(r, k)
    ensures Chained(r) && k <= |r.descs| && r.dma < |r.descs|
  {
  }

  /** The engine owns k descriptors, and all the segments ever handed over are those of these frames. */
  predicate Queued(r: Ring, k: nat, lengths: seq<nat>) {
    Arc(r, k) && Sizes(r.sent + Pending(r, k)) == SplitAll(lengths)
  }

  /**
   In every interleaving the engine owns one arc of descriptors, and what it has sent and what it
   still owns are, in order, exactly the segments of the frames that were accepted.
   */
  lemma {:induction false} RingIsQueue(r: Ring, es: seq<Event>) returns (k: nat)
    requires Arc(r, 0) && r.sent == [] && Roomy(r, es)
    ensures Queued(Run(r, es), k, Accepted(r, es))
  {
    hide Step, Queued, Arc, HasRoom, Admitted, Chained;
    ArcBounds(r, 0);
    if es == [] {
      k := 0;
      EmptyQueued(r);
    } else {
      var n := |es| - 1;
      k := RingIsQueue(r, es[..n]);
      k := StepQueues(Run(r, es[..n]), k, es[n], Accepted(r, es[..n]));
    }
  }

  lemma EmptyQueued(r: Ring)
    requires Arc(r, 0) && r.sent == []
    ensures Queued(r, 0, [])
  {
    assert Pending(r, 0) == [];
  }

  lemma StepQueues(r: Ring, k: nat, e: Event, lengths: seq<nat>) returns (k': nat)
    requires Queued(r, k, lengths) && (e.Submit? ==> HasRoom(r, e.length))
    ensures Chained(r) && Queued(Step(r, e), k', lengths + Admitted(r, e))
  {
    hide Prepare, Complete, Split, BufCount, Pending, Arc, HasRoom, Sizes, Chained;
    ArcBounds(r, k);
    match e
    case Submit(length) =>
      k' := SubmitQueues(r, k, length, SplitAll(lengths));
      assert (lengths + [length])[..|lengths|] == lengths;
      assert lengths + [] == lengths;
    case Transmitted =>
      k' := TransmitQueues(r, k);
      assert lengths + [] == lengths;
  }

  lemma SubmitQueues(r: Ring, k: nat, length: nat, sizes: seq<nat>) returns (k': nat)
    requires Arc(r, k) && Sizes(r.sent + Pending(r, k)) == sizes && HasRoom(r, length)
    ensures var (ok, r') := Prepare(r, length);
            && Arc(r', k') && k' == (if ok then k + BufCount(length) else k)
            && Sizes(r'.sent + Pending(r', k')) == if ok then sizes + Split(length) else sizes
  {
    hide Prepare, Split, BufCount, Added, Pending, Arc, At;
    var l: nat :| Arc(r, l) && (l == |r.descs| || l + BufCount(length) <= |r.descs|);
    ArcUnique(r, k, l);
    ArcBounds(r, k);
    PrepareQueues(r, k, length);
    k' := if k == |r.descs| then k else k + BufCount(length);
    if k < |r.descs| {
      AddedSizes(r, k, length);
      var r' := Prepare(r, length).1;
      assert r'.sent + Pending(r', k') == (r.sent + Pending(r, k)) + Added(r, k, length);
    }
  }

  lemma TransmitQueues(r: Ring, k: nat) returns (k': nat)
    requires Arc(r, k)
    ensures Arc(Complete(r), k') && Complete(r).sent + Pending(Complete(r), k') == r.sent + Pending(r, k)
  {
    hide Complete, Pending, Arc, At;
    ArcBounds(r, k);
    CompleteDequeues(r, k);
    k' := if k == 0 then 0 else k - 1;
  }

  // Frames that fit one buffer, as all Ethernet frames do.

  predicate Short(es: seq<Event>) {
    forall i :: 0 <= i < |es| && es[i].Submit? ==> es[i].length <= TX_BUF_SIZE
  }

  function Whole(lengths: seq<nat>): (q: seq<Segment>)
    ensures |q| == |lengths|
  {
    seq(|lengths|, i requires 0 <= i < |lengths| => Segment(lengths[i], true, true))
  }

  lemma AddedWhole(r: Ring, k: nat, length: nat)
    requires r.dma < |r.descs| && k < |r.descs| && length <= TX_BUF_SIZE
    ensures BufCount(length) == 1 && Added(r, k, length) == [Segment(length, true, true)]
  {
  }

  /** They leave in the order of their submission, each in one descriptor with both marks. */
  lemma {:induction false} WholeFramesInOrder(r: Ring, es: seq<Event>) returns (k: nat)
    requires Arc(r, 0) && r.sent == [] && Short(es)
    ensures Arc(Run(r, es), k)
    ensures Run(r, es).sent + Pending(Run(r, es), k) == Whole(Accepted(r, es))
  {
    ArcBounds(r, 0);
    if es == [] {
      k := 0;
      assert Pending(r, 0) == [];
    } else {
      hide Step, Arc, Pending, Admitted, Whole;
      var n := |es| - 1;
      k := WholeFramesInOrder(r, es[..n]);
      ArcBounds(Run(r, es[..n]), k);
      k := WholeStep(Run(r, es[..n]), k, es[n], Accepted(r, es[..n]));
    }
  }

  lemma WholeStep(r: Ring, k: nat, e: Event, lengths: seq<nat>) returns (k': nat)
    requires Arc(r, k) && r.sent + Pending(r, k) == Whole(lengths) && (e.Submit? ==> e.length <= TX_BUF_SIZE)
    ensures Arc(Step(r, e), k') && Step(r, e).sent + Pending(Step(r, e), k') == Whole(lengths + Admitted(r, e))
  {
    hide Prepare, Complete, Pending, Arc, Added, BufCount, Chained;
    ArcBounds(r, k);
    match e
    case Submit(length) =>
      if k < |r.descs| {
        AddedWhole(r, k, length);
        PrepareQueues(r, k, length);
        k' := k + 1;
        ArcBounds(Step(r, e), k');
        assert Step(r, e).sent + Pending(Step(r, e), k') == (r.sent + Pending(r, k)) + [Segment(length, true, true)];
        assert Whole(lengths + [length]) == Whole(lengths) + [Segment(length, true, true)];
      } else {
        PrepareQueues(r, k, length);
        k' := k;
        assert lengths + [] == lengths;
      }
    case Transmitted =>
      k' := TransmitQueues(r, k);
      assert lengths + [] == lengths;
  }

  /** A frame is refused exactly when the engine owns every descriptor. */
  lemma FreeMeansAccepted(r: Ring, k: nat)
    requires Arc(r, k)
    ensures Chained(r)
    ensures forall length: nat :: Prepare(r, length).0 <==> k < |r.descs|
  {
    hide Fill;
    if k < |r.descs| {
      assert !r.descs[At(r, k)].own;
    } else {
      assert At(r, 0) == At(r, k) && r.descs[At(r, 0)].own;
    }
  }
}
