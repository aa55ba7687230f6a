/** Parameter values as the bytes that are copied: lowest first, two's complement when signed. */
module ParamBytes {
  import opened Bytes

  /** 256 to the n. */
  function Pow(n: nat): (p: int)
    ensures p >= 1
  {
    if n == 0 then 1 else 256 * Pow(n - 1)
  }

  function Encode(v: int, n: nat): (b: seq<byte>)
    ensures |b| == n
    decreases n
  {
    if n == 0 then [] else [B(v % 256)] + Encode(v / 256, n - 1)
  }

  function Unsigned(b: seq<byte>): (u: int)
    ensures 0 <= u < Pow(|b|)
  {
    if b == [] then 0 else ByteOfNumber(b[0]); b[0] as int + 256 * Unsigned(b[1..])
  }

  function Decode(b: seq<byte>, signed: bool): int {
    var u := Unsigned(b);
    if signed && 2 * u >= Pow(|b|) then u - Pow(|b|) else u
  }

  /** A value of an n-byte integer type. */
  predicate Fits(v: int, n: nat, signed: bool) {
    if signed then -Pow(n) <= 2 * v < Pow(n) else 0 <= v < Pow(n)
  }

  lemma {:induction false} EncodeWraps(v: int, n: nat)
    ensures Encode(v + Pow(n), n) == Encode(v, n)
    decreases n
  {
    hide B;
    if n > 0 {
      EncodeWraps(v / 256, n - 1);
    }
  }

  lemma {:induction false} UnsignedOfEncode(v: int, n: nat)
    requires 0 <= v < Pow(n)
    ensures Unsigned(Encode(v, n)) == v
    decreases n
  {
    if n > 0 {
      NumberOfByte(v % 256);
      UnsignedOfEncode(v / 256, n - 1);
      hide B;
      assert Encode(v, n)[1..] == Encode(v / 256, n - 1);
    }
  }

  lemma {:induction false} EncodeOfUnsigned(b: seq<byte>)
    ensures Encode(Unsigned(b), |b|) == b
  {
    if b != [] {
      ByteOfNumber(b[0]);
      EncodeOfUnsigned(b[1..]);
      hide B;
      var u := Unsigned(b);
      assert u % 256 == b[0] as int && u / 256 == Unsigned(b[1..]);
    }
  }

  lemma ValueRoundTrip(v: int, n: nat, signed: bool)
    requires n > 0 && Fits(v, n, signed)
    ensures Decode(Encode(v, n), signed) == v
  {
    if v >= 0 {
      UnsignedOfEncode(v, n);
    } else {
      EncodeWraps(v, n);
      UnsignedOfEncode(v + Pow(n), n);
    }
  }

  lemma BytesRoundTrip(b: seq<byte>, signed: bool)
    ensures Encode(Decode(b, signed), |b|) == b
    ensures |b| > 0 ==> Fits(Decode(b, signed), |b|, signed)
  {
    hide Encode, Unsigned, Pow;
    EncodeOfUnsigned(b);
    EncodeWraps(Unsigned(b) - Pow(|b|), |b|);
  }

  /** v / (256 p) in two steps. */
  lemma DividesTwice(v: int, p: int)
    requires p >= 1
    ensures v / 256 / p == v / (256 * p)
  {
    var q, r := v / 256 / p, v / 256 % p;
    assert v == 256 * (p * q + r) + v % 256;
    assert 256 * (p * q + r) == (256 * p) * q + 256 * r;
    QuotientIs(v, 256 * p, q, 256 * r + v % 256);
  }

  lemma QuotientIs(v: int, d: int, q: int, r: int)
    requires 0 <= r < d && v == d * q + r
    ensures v / d == q
  {
    var x := v / d;
    MultiplesApart(d, x, q);
    MultiplesApart(d, q, x);
  }

  lemma MultiplesApart(d: int, x: int, y: int)
    requires d > 0
    ensures x < y ==> d * x + d <= d * y
  {
    if x < y {
      assert d * (x + 1) <= d * y;
    }
  }

  /** Byte k of a value is its k-th base-256 digit, the lowest first. */
  lemma {:induction false} EncodeDigit(v: int, n: nat, k: nat)
    requires k < n
    ensures Value(Encode(v, n)[k]) == v / Pow(k) % 256
    decreases n
  {
    hide Value, B;
    if k == 0 {
      ValueOfByte(v % 256);
    } else {
      EncodeDigit(v / 256, n - 1, k - 1);
      DividesTwice(v, Pow(k - 1));
    }
  }
}
