/**
 The log ring of `write.c`: tasks append, the UART takes contiguous runs and frees them as soon as
 it starts on them. Every interleaving of writes, transmitted bytes and interrupts.
 */
module LogRing {
  import opened Bytes

  const BUFFER_LEN := 4096
  /** `bffEnd` - `buffer`: the last byte of the buffer is never used. */
  const N := 4095

  /**
   The UART sends buffer[next..end] while `running`; `line` is what it has sent. The read position
   has moved past that run when it was started.
   */
  datatype Log = Log(buffer: seq<byte>, wr: nat, rd: nat, running: bool, next: nat, end: nat, line: seq<byte>)

  function Advance(a: nat, n: nat): (r: nat)
    requires a < N && n <= N
    ensures r < N
  {
    if a + n < N then a + n else a + n - N
  }

  /** The number of steps from a to b. */
  function Distance(a: nat, b: nat): (d: nat)
    requires a < N && b < N
    ensures d < N
  {
    if a <= b then b - a else b - a + N
  }

  function Pending(s: Log): nat
    requires s.rd < N && s.wr < N
  {
    Distance(s.rd, s.wr)
  }

  function Flight(s: Log): nat
    requires s.next <= s.end
  {
    s.end - s.next
  }

  /** The bytes of n positions from a on. */
  function Read(buffer: seq<byte>, a: nat, n: nat): (r: seq<byte>)
    requires |buffer| == BUFFER_LEN && a < N && n <= N
    ensures |r| == n
  {
    seq(n, i requires 0 <= i < n => buffer[Advance(a, i)])
  }

  /** The buffer with data written from position a on. */
  function Overlay(buffer: seq<byte>, a: nat, data: seq<byte>): (r: seq<byte>)
    requires |buffer| == BUFFER_LEN && a < N && |data| <= N
    ensures |r| == BUFFER_LEN
  {
    seq(BUFFER_LEN, j requires 0 <= j < BUFFER_LEN =>
      if j < N && Distance(a, j) < |data| then data[Distance(a, j)] else buffer[j])
  }

  predicate WellFormed(s: Log) {
    && |s.buffer| == BUFFER_LEN && s.wr < N && s.rd < N && s.next <= s.end <= N
  }

  /** When nothing is running nothing is left to send; a run ends where the reading goes on. */
  predicate Good(s: Log) {
    && WellFormed(s)
    && Flight(s) + Pending(s) <= N
    && (if s.running then s.rd == if s.end == N then 0 else s.end else s.rd == s.wr && s.next == s.end)
  }

  /** All bytes ever written: sent, on their way, and waiting. */
  function Stream(s: Log): seq<byte>
    requires WellFormed(s)
  {
    s.line + s.buffer[s.next..s.end] + Read(s.buffer, s.rd, Pending(s))
  }

  // Steps.

  /** Starting the next run, if the UART is free. */
  function Start(s: Log): (r: Log)
    requires WellFormed(s)
    ensures WellFormed(r)
  {
    if s.running then s
    else if s.rd < s.wr then s.(running := true, next := s.rd, end := s.wr, rd := s.wr)
    else if s.rd > s.wr then s.(running := true, next := s.rd, end := N, rd := 0)
    else s
  }

  /** `_write`, when the bytes fit. */
  function Write(s: Log, data: seq<byte>): (r: Log)
    requires WellFormed(s) && |data| <= N
    ensures WellFormed(r)
  {
    Start(s.(buffer := Overlay(s.buffer, s.wr, data), wr := Advance(s.wr, |data|)))
  }

  /** The UART sends a byte, as it finds it in the buffer now. */
  function Send(s: Log): (r: Log)
    requires WellFormed(s)
    ensures WellFormed(r)
  {
    if s.running && s.next < s.end then s.(line := s.line + [s.buffer[s.next]], next := s.next + 1) else s
  }

  /** The end-of-transfer interrupt, and `txHandler`. */
  function Interrupt(s: Log): (r: Log)
    requires WellFormed(s)
    ensures WellFormed(r)
  {
    if s.running && s.next == s.end then Start(s.(running := false)) else s
  }

  /** The bytes fit, and do not reach what is still being sent. */
  predicate Headroom(s: Log, n: nat)
    requires WellFormed(s)
  {
    Pending(s) + n < N && Flight(s) + Pending(s) + n <= N
  }

  // Every step keeps the stream.

  lemma OverlayThenRead(buffer: seq<byte>, a: nat, n: nat, data: seq<byte>)
    requires |buffer| == BUFFER_LEN && a < N && n + |data| <= N
    ensures Advance(a, n) < N
    ensures Read(Overlay(buffer, Advance(a, n), data), a, n + |data|) == Read(buffer, a, n) + data
  {
    var w := Advance(a, n);
    forall i | 0 <= i < n + |data|
      ensures Read(Overlay(buffer, w, data), a, n + |data|)[i] == (Read(buffer, a, n) + data)[i]
    {
      var j := Advance(a, i);
      if i < n {
        assert Distance(w, j) == N - n + i;
      } else if i - n < N {
        assert Distance(w, j) == i - n;
      }
    }
  }

  lemma FlightUntouched(s: Log, data: seq<byte>)
    requires Good(s) && Headroom(s, |data|)
    ensures Overlay(s.buffer, s.wr, data)[s.next..s.end] == s.buffer[s.next..s.end]
  {
    forall j | s.next <= j < s.end ensures Overlay(s.buffer, s.wr, data)[j] == s.buffer[j] {
      assert s.running && Distance(s.wr, j) == N - Pending(s) - (s.end - j);
    }
  }

  lemma StartKeeps(s: Log)
    requires WellFormed(s) && !s.running && s.next == s.end
    ensures Good(Start(s)) && Stream(Start(s)) == Stream(s)
  {
    var r := Start(s);
    if s.rd < s.wr {
      assert Read(s.buffer, s.rd, Pending(s)) == s.buffer[s.rd..s.wr];
    } else if s.rd > s.wr {
      assert Read(s.buffer, s.rd, Pending(s)) == s.buffer[s.rd..N] + Read(s.buffer, 0, s.wr);
    }
  }

  lemma WriteKeeps(s: Log, data: seq<byte>)
    requires Good(s) && Headroom(s, |data|)
    ensures Good(Write(s, data)) && Stream(Write(s, data)) == Stream(s) + data
  {
    hide Overlay, Read;
    var t := s.(buffer := Overlay(s.buffer, s.wr, data), wr := Advance(s.wr, |data|));
    Appended(s, data, t);
    if !s.running {
      StartKeeps(t);
    }
  }

  /** The bytes in the ring, before a run is started. */
  lemma Appended(s: Log, data: seq<byte>, t: Log)
    requires Good(s) && Headroom(s, |data|)
    requires t == s.(buffer := Overlay(s.buffer, s.wr, data), wr := Advance(s.wr, |data|))
    ensures WellFormed(t) && Pending(t) == Pending(s) + |data| && Stream(t) == Stream(s) + data
  {
    hide Overlay, Read;
    Positions(s, |data|);
    OverlayThenRead(s.buffer, s.rd, Pending(s), data);
    FlightUntouched(s, data);
    var head := s.line + s.buffer[s.next..s.end];
    assert head + (Read(s.buffer, s.rd, Pending(s)) + data) == head + Read(s.buffer, s.rd, Pending(s)) + data;
  }

  lemma Positions(s: Log, n: nat)
    requires WellFormed(s) && Pending(s) + n < N
    ensures s.wr == Advance(s.rd, Pending(s)) && Distance(s.rd, Advance(s.wr, n)) == Pending(s) + n
  {
  }

  lemma SendKeeps(s: Log)
    requires Good(s)
    ensures Good(Send(s)) && Stream(Send(s)) == Stream(s)
  {
    if s.running && s.next < s.end {
      assert s.buffer[s.next..s.end] == [s.buffer[s.next]] + s.buffer[s.next + 1..s.end];
    }
  }

  lemma InterruptKeeps(s: Log)
    requires Good(s)
    ensures Good(Interrupt(s)) && Stream(Interrupt(s)) == Stream(s)
  {
    if s.running && s.next == s.end {
      StartKeeps(s.(running := false));
    }
  }

  // Every interleaving.

  datatype Event = Wrote(data: seq<byte>) | Sent | Interrupted

  function Step(s: Log, e: Event): (r: Log)
    requires WellFormed(s) && (e.Wrote? ==> |e.data| <= N)
    ensures WellFormed(r)
  {
    match e
    case Wrote(data) => Write(s, data)
    case Sent => Send(s)
    case Interrupted => Interrupt(s)
  }

  /** Every write, when it comes, has headroom. */
  predicate Roomy(s: Log, es: seq<Event>)
    requires WellFormed(s)
    decreases |es|
  {
    es == [] ||
    ((es[0].Wrote? ==> |es[0].data| <= N && Headroom(s, |es[0].data|)) && Roomy(Step(s, es[0]), es[1..]))
  }

  function Run(s: Log, es: seq<Event>): (r: Log)
    requires WellFormed(s) && Roomy(s, es)
    ensures WellFormed(r)
    decreases |es|
  {
    if es == [] then s else Run(Step(s, es[0]), es[1..])
  }

  function Written(es: seq<Event>): seq<byte> {
    if es == [] then [] else (if es[0].Wrote? then es[0].data else []) + Written(es[1..])
  }

  /** In every interleaving, what was sent, is being sent and waits is what was written, in order. */
  lemma {:induction false} NothingLost(s: Log, es: seq<Event>)
    requires Good(s) && Roomy(s, es)
    ensures Good(Run(s, es)) && Stream(Run(s, es)) == Stream(s) + Written(es)
    decreases |es|
  {
    hide Stream, Headroom, Write, Send, Interrupt;
    if es == [] {
      assert Stream(s) + [] == Stream(s);
    } else {
      match es[0] {
        case Wrote(data) => WriteKeeps(s, data);
        case Sent => SendKeeps(s);
        case Interrupted => InterruptKeeps(s);
      }
      var put := if es[0].Wrote? then es[0].data else [];
      assert Stream(Step(s, es[0])) == Stream(s) + put;
      NothingLost(Step(s, es[0]), es[1..]);
      assert Stream(s) + put + Written(es[1..]) == Stream(s) + (put + Written(es[1..]));
    }
  }

  /** The UART alone, until it has nothing more to do. */
  function Drained(s: Log): (r: Log)
    requires Good(s)
    decreases Flight(s) + Pending(s), if s.running then 1 else 0, Pending(s)
  {
    if !s.running then s
    else if s.next < s.end then SendKeeps(s); Drained(Send(s))
    else InterruptKeeps(s); Drained(Interrupt(s))
  }

  /** Left alone, the UART sends everything. */
  lemma {:induction false} EverythingIsSent(s: Log)
    requires Good(s)
    ensures Drained(s).line == Stream(s)
    decreases Flight(s) + Pending(s), if s.running then 1 else 0, Pending(s)
  {
    hide Stream;
    if !s.running {
      IdleIsSent(s);
    } else if s.next < s.end {
      SendKeeps(s);
      EverythingIsSent(Send(s));
    } else {
      InterruptKeeps(s);
      EverythingIsSent(Interrupt(s));
    }
  }

  lemma IdleIsSent(s: Log)
    requires Good(s) && !s.running
    ensures s.line == Stream(s)
  {
  }

  // The headroom is exactly what is needed.

  /** Without it, the next byte to be sent is overwritten by a new one. */
  lemma FlightOverwritten(s: Log, data: seq<byte>)
    requires Good(s) && Pending(s) + |data| < N && Flight(s) + Pending(s) + |data| > N
    ensures s.running && s.next < s.end
    ensures Stream(Write(s, data))[|s.line|] == data[N - Pending(s) - Flight(s)]
    ensures Stream(s)[|s.line|] == s.buffer[s.next]
  {
    assert Distance(s.wr, s.next) == N - Pending(s) - Flight(s);
  }

  /** A write of n bytes that itself fits is kept, whatever the bytes, exactly when it ends before the run being sent. */
  lemma HeadroomIff(s: Log, n: nat)
    requires Good(s) && Pending(s) + n < N
    ensures (forall data: seq<byte> :: |data| == n ==> Stream(Write(s, data)) == Stream(s) + data) <==> Headroom(s, n)
  {
    if Headroom(s, n) {
      forall data: seq<byte> | |data| == n ensures Stream(Write(s, data)) == Stream(s) + data {
        WriteKeeps(s, data);
      }
    } else {
      var other: byte := if s.buffer[s.next] == 0 then 1 else 0;
      var data := seq(n, _ => other);
      FlightOverwritten(s, data);
      assert Stream(Write(s, data)) != Stream(s) + data by {
        assert (Stream(s) + data)[|s.line|] == Stream(s)[|s.line|];
      }
    }
  }
}
