/** `_write` and `txHandler` over the ring in place, and when the loop of `_write` ends. */
module LogWriter {
  import opened Bytes
  import opened LogRing

  /** How many bytes a pass of the loop moves: one too many is thought free when the reader is not ahead. */
  function PassSize(rd: nat, wr: nat, n: nat): (k: nat)
    requires rd < N && wr < N
    ensures k <= n && wr + k <= N
  {
    var room := if rd > wr then rd - wr - 1 else BUFFER_LEN - (wr - rd + 1);
    var toEnd := if room < N - wr then room else N - wr;
    if toEnd < n then toEnd else n
  }

  function Wrapped(a: nat): nat { if a == N then 0 else a }

  /** The write position and the bytes left after k passes. */
  function Passes(rd: nat, wr: nat, n: nat, k: nat): (r: (nat, nat))
    requires rd < N && wr < N
    ensures r.0 < N
    decreases k
  {
    if k == 0 || n == 0 then (wr, n)
    else Passes(rd, Wrapped(wr + PassSize(rd, wr, n)), n - PassSize(rd, wr, n), k - 1)
  }

  lemma TwoPasses(rd: nat, wr: nat, n: nat)
    requires rd < N && wr < N && Distance(rd, wr) + n < N
    ensures Passes(rd, wr, n, 2) == (Advance(wr, n), 0)
  {
    var k := PassSize(rd, wr, n);
    assert Passes(rd, wr, n, 2) == if n == 0 then (wr, n) else Passes(rd, Wrapped(wr + k), n - k, 1);
  }

  lemma {:induction false} NeverEnds(rd: nat, wr: nat, n: nat, k: nat)
    requires 0 < rd < N && wr < N && n > 0 && Distance(rd, wr) + n >= N
    ensures Passes(rd, wr, n, k).1 > 0
    decreases k
  {
    if k > 0 {
      var m := PassSize(rd, wr, n);
      NeverEnds(rd, Wrapped(wr + m), n - m, k - 1);
    }
  }

  lemma {:induction false} EndsFromStart(wr: nat, n: nat) returns (k: nat)
    requires wr < N
    ensures Passes(0, wr, n, k).1 == 0
    decreases n
  {
    if n == 0 {
      k := 0;
    } else {
      var m := PassSize(0, wr, n);
      k := EndsFromStart(Wrapped(wr + m), n - m);
      k := k + 1;
    }
  }

  /** The loop ends when the bytes fit, or the reader is at the start of the buffer; in all other cases it never does. */
  lemma LoopEndsIff(rd: nat, wr: nat, n: nat)
    requires rd < N && wr < N
    ensures (exists k :: Passes(rd, wr, n, k).1 == 0) <==> (n == 0 || Distance(rd, wr) + n < N || rd == 0)
  {
    if n == 0 {
      assert Passes(rd, wr, n, 0).1 == 0;
    } else if Distance(rd, wr) + n < N {
      TwoPasses(rd, wr, n);
    } else if rd == 0 {
      var k := EndsFromStart(wr, n);
    } else {
      forall k: nat ensures Passes(rd, wr, n, k).1 > 0 {
        NeverEnds(rd, wr, n, k);
      }
    }
  }

  /** It ends with all the bytes waiting exactly when they fit: N bytes look like none. */
  lemma AllWaitingIff(rd: nat, wr: nat, n: nat)
    requires rd < N && wr < N
    ensures (exists k :: Passes(rd, wr, n, k).1 == 0 && Distance(rd, Passes(rd, wr, n, k).0) == Distance(rd, wr) + n)
            <==> Distance(rd, wr) + n < N
  {
    if Distance(rd, wr) + n < N {
      TwoPasses(rd, wr, n);
      assert Passes(rd, wr, n, 2).1 == 0;
    }
  }

  lemma OverlayTwice(buffer: seq<byte>, a: nat, x: seq<byte>, y: seq<byte>)
    requires |buffer| == BUFFER_LEN && a < N && |x| + |y| <= N
    ensures Overlay(Overlay(buffer, a, x), Advance(a, |x|), y) == Overlay(buffer, a, x + y)
  {
    var b := Advance(a, |x|);
    forall j | 0 <= j < N ensures Overlay(Overlay(buffer, a, x), b, y)[j] == Overlay(buffer, a, x + y)[j] {
      if Distance(a, j) >= |x| {
        assert Distance(b, j) == Distance(a, j) - |x|;
      } else {
        assert Distance(b, j) == Distance(a, j) + N - |x|;
      }
    }
  }

  lemma OverlayNothing(buffer: seq<byte>, a: nat)
    requires |buffer| == BUFFER_LEN && a < N
    ensures Overlay(buffer, a, []) == buffer
  {
  }

  class Logger {
    const buffer: array<byte>
    var wr: nat
    var rd: nat
    var running: bool
    var next: nat
    var end: nat
    var line: seq<byte>

    ghost function State(): Log
      reads this, buffer
    {
      Log.Log(buffer[..], wr, rd, running, next, end, line)
    }

    ghost predicate Valid()
      reads this, buffer
    {
      buffer.Length == BUFFER_LEN && WellFormed(State())
    }

    constructor ()
      ensures Valid() && Good(State()) && Stream(State()) == [] && fresh(buffer)
    {
      buffer := new byte[BUFFER_LEN](_ => 0);
      wr, rd, running, next, end, line := 0, 0, false, 0, 0, [];
    }

    /** `uart_write`. */
    method UartWrite(src: nat, len: nat)
      requires src + len <= N
      modifies this
      ensures running && next == src && end == src + len
      ensures wr == old(wr) && rd == old(rd) && line == old(line)
    {
      running, next, end := true, src, src + len;
    }

    /** What `_write` and `txHandler` share: the next run, if the UART is free. */
    method StartRun()
      requires Valid()
      modifies this
      ensures Valid() && State() == old(Start(State()))
    {
      if !running {
        if rd < wr {
          UartWrite(rd, wr - rd);
          rd := wr;
        }
        if rd > wr {
          UartWrite(rd, N - rd);
          rd := 0;
        }
      }
    }

    /** `txHandler`, called when the UART has finished. */
    method TxInterrupt()
      requires Valid()
      modifies this
      ensures Valid() && State() == old(Interrupt(State()))
    {
      if running && next == end {
        running := false;
        StartRun();
      }
    }

    /** The UART's own step. */
    method UartSend()
      requires Valid()
      modifies this
      ensures Valid() && State() == old(Send(State()))
    {
      if running && next < end {
        line := line + [buffer[next]];
        next := next + 1;
      }
    }

    /** The inner loop: bytes to the write position, which does not pass the end of the buffer. */
    method CopyRun(data: seq<byte>)
      requires Valid() && wr + |data| <= N
      modifies this`wr, buffer
      ensures wr == old(wr) + |data| && buffer[..] == Overlay(old(buffer[..]), old(wr), data)
    {
      var i := 0;
      while i < |data|
        invariant 0 <= i <= |data| && wr == old(wr) + i
        invariant forall j :: 0 <= j < BUFFER_LEN && !(old(wr) <= j < wr) ==> buffer[j] == old(buffer[j])
        invariant forall j :: old(wr) <= j < wr ==> buffer[j] == data[j - old(wr)]
      {
        buffer[wr] := data[i];
        wr := wr + 1;
        i := i + 1;
      }
    }

    /** `_write`, for bytes that fit: all are taken, in at most two passes. */
    method Write(data: seq<byte>) returns (numBytesWritten: nat, passes: nat)
      requires Valid() && Pending(State()) + |data| < N
      modifies this, buffer
      ensures Valid() && State() == old(LogRing.Write(State(), data))
      ensures numBytesWritten == |data| && 1 <= passes <= 2
    {
      hide Overlay, Passes, PassSize, Advance;
      ghost var was := State();
      numBytesWritten, passes := 0, 0;
      TwoPasses(rd, wr, |data|);
      NothingWritten(was, data);
      var more := true;
      while more
        invariant Valid() && Written(was, data, numBytesWritten)
        invariant 0 <= passes <= 2 && (passes == 0 ==> more) && (more <==> passes == 0 || numBytesWritten < |data|)
        invariant Passes(rd, wr, |data| - numBytesWritten, 2 - passes) == (Advance(was.wr, |data|), 0)
        decreases 2 - passes, more
      {
        PassesUnfold(rd, wr, |data| - numBytesWritten, 2 - passes);
        var n := PassSize(rd, wr, |data| - numBytesWritten);
        Pass(was, data, numBytesWritten, n);
        numBytesWritten := numBytesWritten + n;
        passes := passes + 1;
        more := numBytesWritten != |data|;
        PassesUnfold(rd, wr, |data| - numBytesWritten, 2 - passes);
      }
      assert data[..numBytesWritten] == data;
      StartRun();
    }

    /** So many bytes of the data have been put into the ring, and nothing else has changed. */
    ghost predicate Written(was: Log, data: seq<byte>, n: nat)
      requires WellFormed(was) && |data| <= N
      reads this, buffer
    {
      n <= |data| && State() == was.(wr := Advance(was.wr, n), buffer := Overlay(was.buffer, was.wr, data[..n]))
    }

    lemma NothingWritten(was: Log, data: seq<byte>)
      requires WellFormed(was) && |data| <= N && State() == was
      ensures Written(was, data, 0)
    {
      OverlayNothing(was.buffer, was.wr);
      assert data[..0] == [];
    }

    /** One pass, and the wrap at the end of the buffer. */
    method Pass(ghost was: Log, data: seq<byte>, done: nat, n: nat)
      requires Valid() && WellFormed(was) && |data| <= N && Written(was, data, done)
      requires done + n <= |data| && wr + n <= N
      modifies this`wr, buffer
      ensures Valid() && Written(was, data, done + n) && wr == Wrapped(old(wr) + n)
    {
      hide Overlay;
      var piece := data[done..done + n];
      OverlayTwice(was.buffer, was.wr, data[..done], piece);
      assert data[..done] + piece == data[..done + n];
      CopyRun(piece);
      if wr == N {
        wr := 0;
      }
    }
  }

  lemma PassesUnfold(rd: nat, wr: nat, n: nat, k: nat)
    requires rd < N && wr < N
    ensures Passes(rd, wr, n, k) ==
            if k == 0 || n == 0 then (wr, n) else Passes(rd, Wrapped(wr + PassSize(rd, wr, n)), n - PassSize(rd, wr, n), k - 1)
  {
  }
}
