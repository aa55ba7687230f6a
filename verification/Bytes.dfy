/** Bytes and 16-bit words as numbers. */
module Bytes {
  type byte = bv8
  type word = x: int | 0 <= x < 0x1_0000

  /** The n-th byte. */
  function B(n: int): byte
    requires 0 <= n < 256
    decreases n
  {
    if n == 0 then 0 else B(n - 1) + 1
  }

  function Hi(w: word): byte { B(w / 256) }

  function Lo(w: word): byte { B(w % 256) }

  function Word(h: byte, l: byte): word { 256 * (h as int) + (l as int) }

  lemma {:induction false} NumberOfByte(n: int)
    requires 0 <= n < 256
    ensures B(n) as int == n
    decreases n
  {
    if n > 0 {
      NumberOfByte(n - 1);
      Successor(B(n - 1));
    }
  }

  lemma Successor(b: byte)
    requires b as int < 255
    ensures (b + 1) as int == b as int + 1
  {
  }

  lemma ByteOfNumber(b: byte)
    ensures 0 <= b as int < 256
    ensures B(b as int) == b
  {
    NumberOfByte(b as int);
    SameNumber(B(b as int), b);
  }

  /** The number of a byte. */
  function Value(b: byte): (n: nat)
    ensures n < 256
  {
    ByteOfNumber(b);
    b as int
  }

  lemma ValueOfByte(n: nat)
    requires n < 256
    ensures Value(B(n)) == n
  {
    NumberOfByte(n);
    hide B;
  }

  lemma SameNumber(a: byte, b: byte)
    requires a as int == b as int
    ensures a == b
  {
  }

  lemma WordRoundTrip(w: word, h: byte, l: byte)
    ensures Word(Hi(w), Lo(w)) == w
    ensures Hi(Word(h, l)) == h && Lo(Word(h, l)) == l
  {
    NumberOfByte(w / 256);
    NumberOfByte(w % 256);
    ByteOfNumber(h);
    ByteOfNumber(l);
    hide B;
    assert Word(h, l) / 256 == h as int && Word(h, l) % 256 == l as int;
  }

  /** Powers of two. */
  function Pow2(n: nat): (p: int)
    ensures p >= 1
  {
    if n == 0 then 1 else 2 * Pow2(n - 1)
  }

  lemma Doubles(q: nat, n: nat)
    ensures n == 0 ==> q * Pow2(n) == q
    ensures n > 0 ==> q * Pow2(n) == 2 * (q * Pow2(n - 1)) && q * Pow2(n - 1) >= 0
  {
    if n > 0 {
      assert q * (2 * Pow2(n - 1)) == 2 * (q * Pow2(n - 1));
    }
  }

  lemma Associates<T>(a: seq<T>, b: seq<T>, c: seq<T>)
    ensures (a + b) + c == a + (b + c)
  {
  }

  /** s with vs in place of what was there. */
  function Spliced<T>(s: seq<T>, at: nat, vs: seq<T>): (r: seq<T>)
    requires at + |vs| <= |s|
    ensures |r| == |s|
  {
    s[..at] + vs + s[at + |vs|..]
  }

  lemma SplicedTwice<T>(s: seq<T>, at: nat, x: seq<T>, y: seq<T>)
    requires at + |x| + |y| <= |s|
    ensures Spliced(Spliced(s, at, x), at + |x|, y) == Spliced(s, at, x + y)
  {
  }

  lemma SplicedNothing<T>(s: seq<T>, at: nat)
    requires at <= |s|
    ensures Spliced(s, at, []) == s
  {
  }

  /** Copying bytes into a buffer. */
  method Put(dst: array<byte>, at: nat, data: seq<byte>)
    requires at + |data| <= dst.Length
    modifies dst
    ensures dst[..at] == old(dst[..at]) && dst[at..at + |data|] == data
    ensures dst[at + |data|..] == old(dst[at + |data|..])
    ensures dst[..at + |data|] == old(dst[..at]) + data
  {
    var i := 0;
    while i < |data|
      invariant 0 <= i <= |data|
      invariant forall k :: 0 <= k < i ==> dst[at + k] == data[k]
      invariant forall k :: 0 <= k < dst.Length && !(at <= k < at + i) ==> dst[k] == old(dst[k])
    {
      dst[at + i] := data[i];
      i := i + 1;
    }
  }
}
