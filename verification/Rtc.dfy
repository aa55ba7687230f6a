/** The calendar registers of the RTC: what is set is read back, and converted to the same seconds. */
module Rtc {
  import opened Bytes
  import opened Calendar

  // Words of 32 bits as numbers.

  function Word32(x: int): (w: nat)
    ensures w < UINT32
  {
    x % UINT32
  }

  /** Bitwise or. */
  function Or(a: nat, b: nat): (c: nat)
    decreases a + b
  {
    if a == 0 && b == 0 then 0
    else 2 * Or(a / 2, b / 2) + if a % 2 == 1 || b % 2 == 1 then 1 else 0
  }

  lemma {:induction false} OrOfDisjoint(q: nat, b: nat, n: nat)
    requires b < Pow2(n)
    ensures q * Pow2(n) >= 0
    ensures Or(q * Pow2(n), b) == q * Pow2(n) + b && Or(b, q * Pow2(n)) == q * Pow2(n) + b
    decreases n
  {
    Doubles(q, n);
    if n == 0 {
      OrZero(q);
    } else {
      OrOfDisjoint(q, b / 2, n - 1);
      OrOfEven(q * Pow2(n - 1), b);
      hide Or;
    }
  }

  lemma OrOfEven(h: nat, b: nat)
    ensures Or(2 * h, b) == 2 * Or(h, b / 2) + b % 2 && Or(b, 2 * h) == 2 * Or(b / 2, h) + b % 2
  {
    assert 2 * h / 2 == h && 2 * h % 2 == 0;
  }

  lemma {:induction false} OrZero(a: nat)
    ensures Or(a, 0) == a && Or(0, a) == a
    decreases a
  {
    if a > 0 {
      OrZero(a / 2);
    }
  }

  lemma Powers()
    ensures Pow2(4) == 16 && Pow2(8) == 256 && Pow2(16) == 65536
  {
    assert Pow2(2) == 4;
    assert Pow2(6) == 64;
    assert Pow2(10) == 1024 && Pow2(12) == 4096 && Pow2(14) == 16384;
  }

  // Setting.

  function BinToBcd(x: nat): nat { Or(Word32(x / 10 * 16), x % 10) }

  /** The time and date registers, fields at bits 0, 8 and 16. */
  function TimeRegister(t: Tm): nat {
    Or(Or(BinToBcd(Word32(t.sec)), Word32(BinToBcd(Word32(t.min)) * 256)), Word32(BinToBcd(Word32(t.hour)) * 65536))
  }

  function DateRegister(t: Tm): nat {
    Or(Or(BinToBcd(Word32(t.mday)), Word32(BinToBcd(Word32(t.mon + 1)) * 256)),
       Word32(BinToBcd(Word32(t.year - 100)) * 65536))
  }

  /** The ranges `rtc_setTime` tests: upper ends only, but for the year. */
  predicate Accepts(t: Tm) {
    t.sec <= 59 && t.min <= 59 && t.hour <= 23 && t.mday <= 31 && t.mon <= 12 && 100 <= t.year <= 200
  }

  // Reading.

  function Decoded(tr: nat, dr: nat): Tm {
    Tm(tr % 16 + tr / 16 % 8 * 10,
       tr / 256 % 16 + tr / 4096 % 8 * 10,
       tr / 65536 % 16 + tr / 1048576 % 4 * 10,
       dr % 16 + dr / 16 % 4 * 10,
       dr / 256 % 16 + dr / 4096 % 2 * 10 - 1,
       dr / 65536 % 16 + dr / 1048576 % 16 * 10 + 100)
  }

  lemma SmallWord(x: int)
    requires 0 <= x < UINT32
    ensures Word32(x) == x
  {
  }

  lemma BcdDigits(v: int)
    requires 0 <= v <= 100
    ensures BinToBcd(Word32(v)) == 16 * (v / 10) + v % 10
    ensures 0 <= v / 10 <= 10 && 0 <= v % 10 < 10 && v == v / 10 * 10 + v % 10
  {
    hide Or, Pow2, Word32;
    Powers();
    SmallWord(v);
    SmallWord(v / 10 * 16);
    OrOfDisjoint(v / 10, v % 10, 4);
  }

  /** Three bytes, put together. */
  lemma OrOfThree(a: nat, b: nat, c: nat)
    requires a < 256 && b < 256 && c < 256
    ensures Or(Or(a, Word32(b * 256)), Word32(c * 65536)) == a + 256 * b + 65536 * c
  {
    hide Or, Pow2, Word32;
    Powers();
    SmallWord(b * 256);
    SmallWord(c * 65536);
    OrOfDisjoint(b, a, 8);
    OrOfDisjoint(c, a + 256 * b, 16);
  }

  predicate Digit(d: int) { 0 <= d < 16 }

  lemma LowDigit(x: int, k: int, d: int)
    requires x == 16 * k + d && Digit(d)
    ensures x / 16 == k && x % 16 == d
    ensures d < 8 ==> x % 8 == d
    ensures d < 4 ==> x % 4 == d
    ensures d < 2 ==> x % 2 == d
  {
    Remainder16(x, k, d);
    Remainder8(x, 2 * k, d);
    Remainder4(x, 4 * k, d);
    Remainder2(x, 8 * k, d);
  }

  lemma Remainder16(x: int, k: int, d: int)
    ensures x == 16 * k + d && 0 <= d < 16 ==> x / 16 == k && x % 16 == d
  {
  }

  lemma Remainder8(x: int, k: int, d: int)
    ensures x == 8 * k + d && 0 <= d < 8 ==> x % 8 == d
  {
  }

  lemma Remainder4(x: int, k: int, d: int)
    ensures x == 4 * k + d && 0 <= d < 4 ==> x % 4 == d
  {
  }

  lemma Remainder2(x: int, k: int, d: int)
    ensures x == 2 * k + d && 0 <= d < 2 ==> x % 2 == d
  {
  }

  lemma Shifted(w: nat)
    ensures w / 16 / 16 == w / 256 && w / 256 / 16 == w / 4096
    ensures w / 4096 / 16 == w / 65536 && w / 65536 / 16 == w / 1048576
  {
  }

  /** Six digits come apart again. */
  lemma DigitsOf(w: nat, d0: int, d1: int, d2: int, d3: int, d4: int, d5: int)
    requires Digit(d0) && Digit(d1) && Digit(d2) && Digit(d3) && Digit(d4) && Digit(d5)
    requires w == d0 + 16 * d1 + 256 * (d2 + 16 * d3) + 65536 * (d4 + 16 * d5)
    ensures w % 16 == d0 && w / 256 % 16 == d2 && w / 65536 % 16 == d4 && w / 1048576 % 16 == d5
    ensures d1 < 8 ==> w / 16 % 8 == d1
    ensures d1 < 4 ==> w / 16 % 4 == d1
    ensures d3 < 8 ==> w / 4096 % 8 == d3
    ensures d3 < 2 ==> w / 4096 % 2 == d3
    ensures d5 < 4 ==> w / 1048576 % 4 == d5
  {
    Shifted(w);
    var w5 := d5;
    var w4 := 16 * w5 + d4;
    var w3 := 16 * w4 + d3;
    var w2 := 16 * w3 + d2;
    var w1 := 16 * w2 + d1;
    LowDigit(w, w1, d0);
    LowDigit(w1, w2, d1);
    LowDigit(w2, w3, d2);
    LowDigit(w3, w4, d3);
    LowDigit(w4, w5, d4);
    LowDigit(w5, 0, d5);
  }

  predicate NotBelow(t: Tm) {
    0 <= t.sec && 0 <= t.min && 0 <= t.hour && 0 <= t.mday && -1 <= t.mon
  }

  /** The decimal digits of the fields, four bits each. */
  lemma RegisterDigits(t: Tm)
    requires Accepts(t) && NotBelow(t)
    ensures TimeRegister(t) ==
            t.sec % 10 + 0x10 * (t.sec / 10) + 0x100 * (t.min % 10) + 0x1000 * (t.min / 10)
            + 0x1_0000 * (t.hour % 10) + 0x10_0000 * (t.hour / 10)
    ensures var mon, year := t.mon + 1, t.year - 100;
            DateRegister(t) ==
            t.mday % 10 + 0x10 * (t.mday / 10) + 0x100 * (mon % 10) + 0x1000 * (mon / 10)
            + 0x1_0000 * (year % 10) + 0x10_0000 * (year / 10)
  {
    hide BinToBcd, Or, Word32;
    var mon, year := t.mon + 1, t.year - 100;
    BcdDigits(t.sec);
    BcdDigits(t.min);
    BcdDigits(t.hour);
    BcdDigits(t.mday);
    BcdDigits(mon);
    BcdDigits(year);
    OrOfThree(BinToBcd(Word32(t.sec)), BinToBcd(Word32(t.min)), BinToBcd(Word32(t.hour)));
    OrOfThree(BinToBcd(Word32(t.mday)), BinToBcd(Word32(mon)), BinToBcd(Word32(year)));
  }

  lemma TimeReadBack(t: Tm)
    requires Accepts(t) && NotBelow(t)
    ensures var w := TimeRegister(t);
            && w % 16 + w / 16 % 8 * 10 == t.sec
            && w / 256 % 16 + w / 4096 % 8 * 10 == t.min
            && w / 65536 % 16 + w / 1048576 % 4 * 10 == t.hour
  {
    hide TimeRegister, DateRegister;
    RegisterDigits(t);
    DigitsOf(TimeRegister(t), t.sec % 10, t.sec / 10, t.min % 10, t.min / 10, t.hour % 10, t.hour / 10);
  }

  lemma DateReadBack(t: Tm)
    requires Accepts(t) && NotBelow(t)
    ensures var w := DateRegister(t);
            && w % 16 + w / 16 % 4 * 10 == t.mday
            && w / 256 % 16 + w / 4096 % 2 * 10 - 1 == t.mon
            && w / 65536 % 16 + w / 1048576 % 16 * 10 + 100 == t.year
  {
    hide TimeRegister, DateRegister;
    RegisterDigits(t);
    var mon, year := t.mon + 1, t.year - 100;
    DigitsOf(DateRegister(t), t.mday % 10, t.mday / 10, mon % 10, mon / 10, year % 10, year / 10);
  }

  /** What was accepted is read back exactly when no field lies below its range, which is not tested. */
  lemma ReadBackIff(t: Tm)
    requires Accepts(t)
    ensures Decoded(TimeRegister(t), DateRegister(t)) == t <==> NotBelow(t)
  {
    hide TimeRegister, DateRegister;
    if NotBelow(t) {
      TimeReadBack(t);
      DateReadBack(t);
    } else {
      DecodedNotBelow(TimeRegister(t), DateRegister(t));
    }
  }

  lemma DecodedNotBelow(tr: nat, dr: nat)
    ensures NotBelow(Decoded(tr, dr))
  {
  }

  // Conversion to seconds by summing.

  /** `tmToUnixTime`: the day count and its seconds are 32 bits wide. */
  function UnixTime(t: Tm): int
    requires t.mon <= 12
  {
    var year := (t.year + 1900) % 0x1_0000;
    if year < EPOCH_YEAR then 0
    else
      var days := Word32(YearsSum(year) + MonthsSum(IsLeap(year), if t.mon < 0 then 0 else t.mon) + t.mday - 1);
      Word32(days * SECONDS_PER_DAY) + t.hour * 3600 + t.min * 60 + t.sec
  }

  method TmToUnixTime(t: Tm) returns (seconds: int)
    requires t.mon <= 12
    ensures seconds == UnixTime(t)
  {
    hide Word32, IsLeap;
    var days := 0;
    var year := (t.year + 1900) % 0x1_0000;
    if year < EPOCH_YEAR {
      return 0;
    }
    var i := EPOCH_YEAR;
    while i < year
      invariant EPOCH_YEAR <= i <= year && days == YearsSum(i)
    {
      days := days + DaysInYear(i);
      i := i + 1;
    }
    i := 0;
    while i < t.mon
      invariant 0 <= i && (i <= t.mon || i == 0) && days == YearsSum(year) + MonthsSum(IsLeap(year), i)
    {
      days := days + DaysInMonth(IsLeap(year), i);
      i := i + 1;
    }
    days := Word32(days + t.mday - 1);
    seconds := Word32(days * SECONDS_PER_DAY);
    seconds := seconds + t.hour * 3600;
    seconds := seconds + t.min * 60;
    seconds := seconds + t.sec;
  }

  lemma {:induction false} YearsSumBound(year: int)
    requires year >= EPOCH_YEAR
    ensures 0 <= YearsSum(year) <= 366 * (year - EPOCH_YEAR)
    decreases year
  {
    if year > EPOCH_YEAR {
      YearsSumBound(year - 1);
    }
  }

  lemma EpochDayBound(t: Tm)
    requires Valid(t)
    ensures 0 <= EpochDay(t) < 366 * (t.year + 1901 - EPOCH_YEAR)
  {
    var year := t.year + 1900;
    DayOfDate(t);
    NotNegative(t);
    YearsSumBound(year);
    YearHasItsMonths(year);
    hide EpochDay, IsLeap, DaysInMonth;
    MonthsInOrder(IsLeap(year), t.mon, 12);
  }

  /** Summing and closed form agree exactly until the seconds of the day count leave 32 bits. */
  lemma UnixTimeIsTimegmIff(t: Tm)
    requires Valid(t) && t.year + 1900 < 0x1_0000
    ensures UnixTime(t) == Timegm(t) <==> SECONDS_PER_DAY * EpochDay(t) < UINT32
  {
    hide EpochDay, YearsSum, MonthsSum, IsLeap, DaysInMonth, Word32;
    EpochDayBound(t);
    DayOfDate(t);
    SmallWord(EpochDay(t));
    WrapsIff(EpochDay(t) * SECONDS_PER_DAY);
    YearFits(t.year + 1900);
  }

  lemma WrapsIff(a: int)
    requires a >= 0
    ensures Word32(a) == a <==> a < UINT32
  {
  }

  lemma YearFits(year: int)
    requires 0 <= year < 0x1_0000
    ensures year % 0x1_0000 == year
  {
  }

  /** The clock on its registers. */
  class Clock {
    var tr: nat
    var dr: nat
    /** RTC clock and oscillator are running. */
    var ready: bool

    constructor ()
      ensures !ready
    {
      tr, dr, ready := 0, 0x250101, false;
    }

    /** `rtc_setTime`. */
    method SetTime(t: Tm) returns (ok: bool)
      modifies this
      ensures ready == old(ready) && ok == (ready && Accepts(t))
      ensures Valid(t) ==> (ok <==> ready && 2000 <= t.year + 1900 <= 2100)
      ensures (tr, dr) == if ok then (TimeRegister(t), DateRegister(t)) else old((tr, dr))
    {
      hide BinToBcd, Or;
      if Valid(t) {
        AcceptedYears(t);
      }
      hide Valid;
      if !ready {
        return false;
      }
      if t.sec > 59 || t.min > 59 || t.hour > 23 || t.mday > 31 || t.mon > 12 || t.year < 100 || t.year > 200 {
        return false;
      }
      OrZero(BinToBcd(Word32(t.sec)));
      OrZero(BinToBcd(Word32(t.mday)));
      var rtctr, rtcdr := 0, 0;
      rtctr := Or(rtctr, BinToBcd(Word32(t.sec)));
      rtctr := Or(rtctr, Word32(BinToBcd(Word32(t.min)) * 256));
      rtctr := Or(rtctr, Word32(BinToBcd(Word32(t.hour)) * 65536));
      rtcdr := Or(rtcdr, BinToBcd(Word32(t.mday)));
      rtcdr := Or(rtcdr, Word32(BinToBcd(Word32(t.mon + 1)) * 256));
      rtcdr := Or(rtcdr, Word32(BinToBcd(Word32(t.year - 100)) * 65536));
      tr, dr := rtctr, rtcdr;
      ok := true;
    }

    /** `time`. */
    method Time() returns (unixTime: int)
      requires Decoded(tr, dr).mon <= 12
      ensures unixTime == UnixTime(Decoded(tr, dr))
    {
      var t := Tm(tr % 16 + tr / 16 % 8 * 10, tr / 256 % 16 + tr / 4096 % 8 * 10, tr / 65536 % 16 + tr / 1048576 % 4 * 10,
                  dr % 16 + dr / 16 % 4 * 10, dr / 256 % 16 + dr / 4096 % 2 * 10 - 1, dr / 65536 % 16 + dr / 1048576 % 16 * 10 + 100);
      unixTime := TmToUnixTime(t);
    }
  }

  /** Of the valid dates, those of 2000 to 2100 are accepted. */
  lemma AcceptedYears(t: Tm)
    requires Valid(t)
    ensures Accepts(t) <==> 2000 <= t.year + 1900 <= 2100
  {
  }

  /** Setting any valid date the clock accepts, 2000 to 2100, and asking for the time gives its seconds. */
  lemma SetThenTime(t: Tm)
    requires Valid(t) && Accepts(t)
    ensures Decoded(TimeRegister(t), DateRegister(t)) == t
    ensures UnixTime(t) == Timegm(t)
  {
    ReadBackIff(t);
    EpochDayBound(t);
    UnixTimeIsTimegmIff(t);
  }
}
