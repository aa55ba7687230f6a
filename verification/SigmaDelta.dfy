/** The sigma-delta modulator of the high-voltage converter: bounded, and exact on average. */
module SigmaDelta {
  const STEP := 64              // 1 << 6
  const MAX_VAL := 120
  const MAX_IN := 7680          // MAX_VAL * STEP
  const MAX_ACC := 7743         // MAX_IN + STEP - 1

  /** Shifting right by 6 divides by 64, rounding down. */
  function Output(acc: int): (y: int)
    ensures 0 <= y <= MAX_VAL
  {
    var y := acc / STEP;
    if y < 0 then 0 else if y > MAX_VAL then MAX_VAL else y
  }

  function Next(acc: int, x: int): int { acc + x - Output(acc) * STEP }

  function Outputs(acc: int, xs: seq<int>): (ys: seq<int>)
    ensures |ys| == |xs|
    decreases |xs|
  {
    if xs == [] then [] else [Output(acc)] + Outputs(Next(acc, xs[0]), xs[1..])
  }

  function Final(acc: int, xs: seq<int>): int
    decreases |xs|
  {
    if xs == [] then acc else Final(Next(acc, xs[0]), xs[1..])
  }

  function Sum(s: seq<int>): int { if s == [] then 0 else s[0] + Sum(s[1..]) }

  predicate Allowed(xs: seq<int>) { forall i :: 0 <= i < |xs| ==> 0 <= xs[i] <= MAX_IN }

  /** Nothing is lost: what has not been put out is in the accumulator. This holds for all inputs. */
  lemma {:induction false} Conserved(acc: int, xs: seq<int>)
    ensures STEP * Sum(Outputs(acc, xs)) == Sum(xs) + acc - Final(acc, xs)
    decreases |xs|
  {
    if xs != [] {
      Conserved(Next(acc, xs[0]), xs[1..]);
      assert Outputs(acc, xs)[1..] == Outputs(Next(acc, xs[0]), xs[1..]);
      hide Output;
    }
  }

  lemma {:induction false} AccumulatorBounded(acc: int, xs: seq<int>)
    requires 0 <= acc <= MAX_ACC && Allowed(xs)
    ensures 0 <= Final(acc, xs) <= MAX_ACC
    decreases |xs|
  {
    if xs != [] {
      InputAllowedIff(xs[0]);
      AccumulatorBounded(Next(acc, xs[0]), xs[1..]);
    }
  }

  /** From reset, over any allowed input of any length, the total output is off by less than one full input. */
  lemma ExactOnAverage(xs: seq<int>)
    requires Allowed(xs)
    ensures 0 <= Sum(xs) - STEP * Sum(Outputs(0, xs)) <= MAX_ACC
    ensures forall i :: 0 <= i < |xs| ==> 0 <= Outputs(0, xs)[i] <= MAX_VAL
  {
    Conserved(0, xs);
    AccumulatorBounded(0, xs);
    OutputsBounded(0, xs);
  }

  lemma {:induction false} OutputsBounded(acc: int, xs: seq<int>)
    ensures forall i :: 0 <= i < |xs| ==> 0 <= Outputs(acc, xs)[i] <= MAX_VAL
    decreases |xs|
  {
    if xs != [] {
      OutputsBounded(Next(acc, xs[0]), xs[1..]);
      hide Output;
      assert Outputs(acc, xs)[1..] == Outputs(Next(acc, xs[0]), xs[1..]);
    }
  }

  /** The bound on the accumulator survives an input exactly when the input is in range. */
  lemma InputAllowedIff(x: int)
    ensures (forall acc :: 0 <= acc <= MAX_ACC ==> 0 <= Next(acc, x) <= MAX_ACC) <==> 0 <= x <= MAX_IN
  {
    assert Next(0, x) == x && Next(STEP - 1, x) == x + STEP - 1;
  }

  /** Once in range, the next output is the input divided by 64, or one more. */
  lemma OutputFollowsInput(acc: int, x: int)
    requires 0 <= acc <= MAX_ACC && 0 <= x <= MAX_IN
    ensures x / STEP <= Output(Next(acc, x)) <= x / STEP + 1
  {
    InputAllowedIff(x);
  }

  /** Above the range the accumulator grows with every input, without bound. */
  lemma {:induction false} GrowsAboveRange(acc: int, x: int, n: nat)
    requires acc >= MAX_IN && x > MAX_IN
    ensures Final(acc, seq(n, _ => x)) == acc + n * (x - MAX_IN)
    decreases n
  {
    if n > 0 {
      assert seq(n, _ => x)[1..] == seq(n - 1, _ => x);
      GrowsAboveRange(Next(acc, x), x, n - 1);
      assert n * (x - MAX_IN) == (n - 1) * (x - MAX_IN) + (x - MAX_IN);
    }
  }

  class Modulator {
    var acc: int

    constructor ()
      ensures acc == 0
    {
      acc := 0;
    }

    method Modulate(x: int) returns (y: int)
      modifies this
      ensures y == Output(old(acc)) && acc == Next(old(acc), x)
    {
      y := acc / STEP;
      if y < 0 {
        y := 0;
      }
      if y > MAX_VAL {
        y := MAX_VAL;
      }
      acc := acc + x - y * STEP;
    }

    /** The interrupt handler's use of it, call after call. */
    method Run(xs: seq<int>) returns (ys: seq<int>)
      modifies this
      ensures ys == Outputs(old(acc), xs) && acc == Final(old(acc), xs)
      ensures old(acc) == 0 && Allowed(xs) ==> 0 <= Sum(xs) - STEP * Sum(ys) == acc <= MAX_ACC
    {
      ys := [];
      var i := 0;
      while i < |xs|
        invariant 0 <= i <= |xs|
        invariant Outputs(old(acc), xs) == ys + Outputs(acc, xs[i..])
        invariant Final(old(acc), xs) == Final(acc, xs[i..])
      {
        assert xs[i..][1..] == xs[i + 1..];
        var y := Modulate(xs[i]);
        ys := ys + [y];
        i := i + 1;
      }
      Conserved(old(acc), xs);
      if old(acc) == 0 && Allowed(xs) {
        AccumulatorBounded(0, xs);
      }
    }
  }
}
