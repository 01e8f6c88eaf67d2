/**
 * Decimal digits and the proleptic Gregorian calendar of Python's `datetime` module,
 * which bounds years by `MINYEAR` and `MAXYEAR`.
 */
module Calendar {

  predicate IsDigit(c: char) { '0' <= c <= '9' }

  predicate AllDigits(t: string) { forall k :: 0 <= k < |t| ==> IsDigit(t[k]) }

  function DigitChar(n: nat): (c: char)
    requires n < 10
    ensures IsDigit(c)
  {
    ('0' as int + n) as char
  }

  function DigitValue(c: char): (n: nat)
    requires IsDigit(c)
    ensures n < 10 && DigitChar(n) == c
  {
    c as int - '0' as int
  }

  /** The number a string of decimal digits denotes, most significant digit first. */
  function DigitsValue(t: string): nat
    requires AllDigits(t)
  {
    if t == [] then 0 else DigitsValue(t[..|t| - 1]) * 10 + DigitValue(t[|t| - 1])
  }

  /** `n` written with exactly two digits, zero-padded (`%02d`). */
  function Pad2(n: nat): string
    requires n < 100
  {
    [DigitChar(n / 10), DigitChar(n % 10)]
  }

  /** `n` written with exactly four digits, zero-padded (`%04d`). */
  function Pad4(n: nat): string
    requires n < 10000
  {
    Pad2(n / 100) + Pad2(n % 100)
  }

  lemma DigitsValue1(c: char)
    requires IsDigit(c)
    ensures AllDigits([c]) && DigitsValue([c]) == DigitValue(c)
  {
    assert [c][..0] == [];
  }

  lemma DigitsValue2(t: string)
    requires |t| == 2 && AllDigits(t)
    ensures DigitsValue(t) == DigitValue(t[0]) * 10 + DigitValue(t[1])
  {
    assert t[..1][..0] == [] && t[..1][0] == t[0];
    assert DigitsValue(t[..1]) == DigitValue(t[0]);
  }

  /** Two digits read back are the number written, and conversely. */
  lemma Pad2RoundTrip(n: nat, t: string)
    requires n < 100
    ensures AllDigits(Pad2(n)) && DigitsValue(Pad2(n)) == n
    ensures |t| == 2 && AllDigits(t) ==> DigitsValue(t) < 100 && Pad2(DigitsValue(t)) == t
  {
    DigitsValue2(Pad2(n));
    if |t| == 2 && AllDigits(t) {
      DigitsValue2(t);
      var a, b := DigitValue(t[0]), DigitValue(t[1]);
      assert (a * 10 + b) / 10 == a && (a * 10 + b) % 10 == b;
    }
  }

  lemma DigitsValueAppend(t: string, u: string)
    requires AllDigits(t) && |u| == 2 && AllDigits(u)
    ensures AllDigits(t + u) && DigitsValue(t + u) == DigitsValue(t) * 100 + DigitsValue(u)
  {
    var tu := t + u;
    assert tu[..|tu| - 1] == t + [u[0]] && (t + [u[0]])[..|t|] == t;
    DigitsValue2(u);
  }

  /** Four digits read back are the number written, and conversely. */
  lemma Pad4RoundTrip(n: nat, t: string)
    requires n < 10000
    ensures AllDigits(Pad4(n)) && DigitsValue(Pad4(n)) == n
    ensures |t| == 4 && AllDigits(t) ==> DigitsValue(t) < 10000 && Pad4(DigitsValue(t)) == t
  {
    Pad2RoundTrip(n / 100, []);
    Pad2RoundTrip(n % 100, []);
    DigitsValueAppend(Pad2(n / 100), Pad2(n % 100));
    if |t| == 4 && AllDigits(t) {
      var hi, lo := t[..2], t[2..];
      assert t == hi + lo;
      DigitsValueAppend(hi, lo);
      Pad2RoundTrip(0, hi);
      Pad2RoundTrip(0, lo);
      var v := DigitsValue(hi) * 100 + DigitsValue(lo);
      assert v / 100 == DigitsValue(hi) && v % 100 == DigitsValue(lo);
    }
  }

  const MINYEAR: int := 1
  const MAXYEAR: int := 9999

  /** Gregorian leap years: every fourth year, except centuries not divisible by 400. */
  predicate IsLeapYear(y: int)
  {
    y % 4 == 0 && (y % 100 != 0 || y % 400 == 0)
  }

  function DaysInMonth(y: int, m: int): (n: int)
    requires 1 <= m <= 12
    ensures 28 <= n <= 31
    ensures n == 29 <==> m == 2 && IsLeapYear(y)
  {
    if m == 2 then (if IsLeapYear(y) then 29 else 28)
    else if m == 4 || m == 6 || m == 9 || m == 11 then 30
    else 31
  }

  /** The days of year `y` before the first of month `m`; month 13 stands for the end of the year. */
  function DaysBeforeMonth(y: int, m: int): (n: int)
    requires 1 <= m <= 13
    ensures 28 * (m - 1) <= n <= 31 * (m - 1)
  {
    if m == 1 then 0 else DaysBeforeMonth(y, m - 1) + DaysInMonth(y, m - 1)
  }

  /** The twelve month lengths add up to 365 days, or 366 in a leap year. */
  lemma YearLength(y: int)
    ensures DaysBeforeMonth(y, 13) == if IsLeapYear(y) then 366 else 365
  {
    var feb := DaysInMonth(y, 2);
    assert DaysBeforeMonth(y, 3) == 31 + feb;
    assert DaysBeforeMonth(y, 5) == 92 + feb;
    assert DaysBeforeMonth(y, 7) == 153 + feb;
    assert DaysBeforeMonth(y, 9) == 215 + feb;
    assert DaysBeforeMonth(y, 11) == 276 + feb;
  }

  datatype Date = Date(year: int, month: int, day: int)

  /** The dates `datetime.date(year, month, day)` accepts without raising `ValueError`. */
  predicate IsCalendarDate(d: Date)
  {
    MINYEAR <= d.year <= MAXYEAR && 1 <= d.month <= 12 && 1 <= d.day <= DaysInMonth(d.year, d.month)
  }
}
