/**
 * Calendar dates as pandas builds them with `pd.to_datetime(..., errors='coerce')`
 * and prints them with `strftime("%Y-%m-%d")`.
 */
module Calendar {
  import opened Optional
  import opened Order

  datatype Date = Date(year: int, month: int, day: int)

  /** Gregorian leap years: every fourth year, except centuries not divisible by 400. */
  predicate IsLeapYear(y: int)
  {
    y % 4 == 0 && (y % 100 != 0 || y % 400 == 0)
  }

  function DaysInMonth(y: int, m: int): (n: int)
    requires 1 <= m <= 12
    ensures 28 <= n <= 31
    ensures n == 29 <==> m == 2 && IsLeapYear(y)
  {
    if m == 2 then (if IsLeapYear(y) then 29 else 28)
    else if m == 4 || m == 6 || m == 9 || m == 11 then 30
    else 31
  }

  /** The (year, month, day) triple names a day of the proleptic Gregorian calendar. */
  predicate IsCalendarDate(d: Date)
  {
    1 <= d.month <= 12 && 1 <= d.day <= DaysInMonth(d.year, d.month)
  }

  /** Chronological order of days. */
  predicate Before(a: Date, b: Date)
  {
    a.year < b.year || (a.year == b.year && (a.month < b.month || (a.month == b.month && a.day < b.day)))
  }

  /**
   * pandas timestamps count nanoseconds in 64 bits: from 1677-09-21 00:12:43
   * to 2262-04-11 23:47:16. A date at midnight is representable from the
   * first full day to the last.
   */
  const FirstTimestampDay := Date(1677, 9, 22)
  const LastTimestampDay := Date(2262, 4, 11)

  predicate IsTimestampDate(d: Date)
  {
    IsCalendarDate(d) && !Before(d, FirstTimestampDay) && !Before(LastTimestampDay, d)
  }

  type TimestampDate = d: Date | IsTimestampDate(d) witness Date(2000, 1, 1)

  /**
   * Assembling a date with `errors='coerce'`: an impossible or unrepresentable
   * date becomes missing (NaT) instead of raising.
   */
  function ToDatetime(year: int, month: int, day: int): (r: Option<TimestampDate>)
    ensures r.Some? <==>
              && IsCalendarDate(Date(year, month, day))
              && !Before(Date(year, month, day), FirstTimestampDay)
              && !Before(LastTimestampDay, Date(year, month, day))
    ensures r.Some? ==> r.value == Date(year, month, day)
  {
    var d := Date(year, month, day);
    if IsTimestampDate(d) then Some(d) else None
  }

  lemma LeapDay(y: int)
    requires 1678 <= y <= 2261
    ensures ToDatetime(y, 2, 29).Some? <==> IsLeapYear(y)
  {
  }

  function DigitChar(n: int): (c: char)
    requires 0 <= n < 10
  {
    ((('0' as int) + n) as char)
  }

  function Pow10(w: nat): (p: nat)
    ensures p >= 1
  {
    if w == 0 then 1 else 10 * Pow10(w - 1)
  }

  /** The last `width` decimal digits of `n`, zero-padded on the left. */
  function Digits(n: nat, width: nat): (s: string)
    ensures |s| == width
    decreases width
  {
    if width == 0 then [] else Digits(n / 10, width - 1) + [DigitChar(n % 10)]
  }

  /** Zero-padded numbers of one width compare as strings the way they compare as numbers. */
  lemma {:induction false} DigitsOrder(a: nat, b: nat, width: nat)
    requires a < Pow10(width) && b < Pow10(width)
    ensures StrLess(Digits(a, width), Digits(b, width)) <==> a < b
    ensures Digits(a, width) == Digits(b, width) <==> a == b
    decreases width
  {
    if width == 0 {
    } else {
      var p := Pow10(width - 1);
      assert a == 10 * (a / 10) + a % 10 && b == 10 * (b / 10) + b % 10;
      assert a / 10 < p && b / 10 < p;
      DigitsOrder(a / 10, b / 10, width - 1);
      var ca, cb := DigitChar(a % 10), DigitChar(b % 10);
      StrLessAppend(Digits(a / 10, width - 1), [ca], Digits(b / 10, width - 1), [cb]);
      assert StrLess([ca], [cb]) <==> a % 10 < b % 10 by {
        assert [ca][1..] == [] && [cb][1..] == [];
      }
      var da, db := Digits(a, width), Digits(b, width);
      assert da == db <==> a / 10 == b / 10 && a % 10 == b % 10 by {
        if da == db {
          assert da[..width - 1] == Digits(a / 10, width - 1);
          assert db[..width - 1] == Digits(b / 10, width - 1);
          assert da[width - 1] == ca && db[width - 1] == cb;
        }
      }
    }
  }

  /** `strftime("%Y-%m-%d")`; every representable year has four digits. */
  function FormatDate(d: TimestampDate): (s: string)
    ensures |s| == 10 && s[4] == '-' && s[7] == '-'
  {
    Digits(d.year, 4) + ("-" + (Digits(d.month, 2) + ("-" + Digits(d.day, 2))))
  }

  /**
   * Sorting the formatted strings sorts the dates: the string order of
   * `YYYY-MM-DD` is the chronological order, and distinct days print differently.
   */
  lemma FormatDateOrder(a: TimestampDate, b: TimestampDate)
    ensures StrLess(FormatDate(a), FormatDate(b)) <==> Before(a, b)
    ensures FormatDate(a) == FormatDate(b) <==> a == b
  {
    assert Pow10(2) == 100 && Pow10(4) == 10000;
    DigitsOrder(a.year, b.year, 4);
    DigitsOrder(a.month, b.month, 2);
    DigitsOrder(a.day, b.day, 2);
    var ya, yb := Digits(a.year, 4), Digits(b.year, 4);
    var ma, mb := Digits(a.month, 2), Digits(b.month, 2);
    var da, db := Digits(a.day, 2), Digits(b.day, 2);
    var ta, tb := "-" + da, "-" + db;
    var ra, rb := ma + ta, mb + tb;
    var sa, sb := "-" + ra, "-" + rb;
    StrLessAppend("-", da, "-", db);
    StrLessAppend(ma, ta, mb, tb);
    StrLessAppend("-", ra, "-", rb);
    StrLessAppend(ya, sa, yb, sb);
    EqualPieces(ya, sa, yb, sb);
    EqualPieces(ma, ta, mb, tb);
    EqualPieces("-", ra, "-", rb);
    EqualPieces("-", da, "-", db);
  }

  lemma EqualPieces(x1: string, x2: string, y1: string, y2: string)
    requires |x1| == |y1|
    ensures x1 + x2 == y1 + y2 <==> x1 == y1 && x2 == y2
  {
    if x1 + x2 == y1 + y2 {
      assert x1 == (x1 + x2)[..|x1|] && y1 == (y1 + y2)[..|y1|];
      assert x2 == (x1 + x2)[|x1|..] && y2 == (y1 + y2)[|y1|..];
    }
  }
}
