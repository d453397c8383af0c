/**
 * The normaliser every callback repeats: map month names to numbers, drop
 * rows with a missing required column, and rebuild the `Date` column.
 */
module Records {
  import opened Optional
  import opened Seqs
  import opened Calendar

  /**
   * One row of the crash table as the CSV reader delivers it; `None` is a
   * missing cell. `Month` holds an English month name.
   */
  datatype RawRow = RawRow(
    year: Option<int>,
    month: Option<string>,
    day: Option<int>,
    latitude: Option<real>,
    longitude: Option<real>,
    fatalities: Option<int>,
    operator: Option<string>,
    aircraft: Option<string>,
    location: Option<string>,
    country: Option<string>)

  /** A normalised row. `date` is missing when (year, month, day) is not a real day. */
  datatype Record = Record(
    year: int,
    month: int,
    day: int,
    date: Option<TimestampDate>,
    latitude: real,
    longitude: real,
    fatalities: int,
    operator: Option<string>,
    aircraft: Option<string>,
    location: Option<string>,
    country: Option<string>)

  const MonthNames: seq<string> := [
    "January", "February", "March", "April", "May", "June",
    "July", "August", "September", "October", "November", "December"]

  /** `Series.map(month_map)`: a name outside the table becomes missing. */
  function MonthNumber(name: string): (m: Option<int>)
    ensures m.Some? <==> name in MonthNames
    ensures m.Some? ==> 1 <= m.value <= 12 && MonthNames[m.value - 1] == name
  {
    if name == "January" then Some(1)
    else if name == "February" then Some(2)
    else if name == "March" then Some(3)
    else if name == "April" then Some(4)
    else if name == "May" then Some(5)
    else if name == "June" then Some(6)
    else if name == "July" then Some(7)
    else if name == "August" then Some(8)
    else if name == "September" then Some(9)
    else if name == "October" then Some(10)
    else if name == "November" then Some(11)
    else if name == "December" then Some(12)
    else None
  }

  /** Each of the twelve names maps to its position in the year. */
  lemma MonthNumberOfName(i: int)
    requires 0 <= i < 12
    ensures MonthNumber(MonthNames[i]) == Some(i + 1)
  {
    var m := MonthNumber(MonthNames[i]);
    assert MonthNames[i] in MonthNames;
    assert MonthNames[m.value - 1] == MonthNames[i];
    MonthNamesDistinct(m.value - 1, i);
  }

  lemma MonthNamesDistinct(i: int, j: int)
    requires 0 <= i < 12 && 0 <= j < 12 && MonthNames[i] == MonthNames[j]
    ensures i == j
  {
  }

  /**
   * `dropna(subset=['Year', 'Month', 'Day', 'Latitude', 'Longitude', 'Fatalities_air'])`
   * after the month mapping; the country view adds 'Country/Region'.
   */
  predicate Usable(row: RawRow, requireCountry: bool)
  {
    && row.year.Some?
    && row.month.Some? && MonthNumber(row.month.value).Some?
    && row.day.Some?
    && row.latitude.Some? && row.longitude.Some?
    && row.fatalities.Some?
    && (requireCountry ==> row.country.Some?)
  }

  /** The per-row column rewrites of a usable row: month number and `Date`. */
  function ToRecord(row: RawRow): (r: Record)
    requires Usable(row, false)
    ensures r.year == row.year.value && r.day == row.day.value
    ensures Some(r.month) == MonthNumber(row.month.value)
    ensures r.fatalities == row.fatalities.value
    ensures r.date.Some? <==> IsTimestampDate(Date(r.year, r.month, r.day))
    ensures r.date.Some? ==> r.date.value == Date(r.year, r.month, r.day)
    ensures r.operator == row.operator && r.aircraft == row.aircraft
    ensures r.location == row.location && r.country == row.country
  {
    var month := MonthNumber(row.month.value).value;
    Record(row.year.value, month, row.day.value,
           ToDatetime(row.year.value, month, row.day.value),
           row.latitude.value, row.longitude.value, row.fatalities.value,
           row.operator, row.aircraft, row.location, row.country)
  }

  /**
   * The normalised frame: the usable rows, converted, in input order. A row
   * whose date is impossible is kept with a missing `date`.
   */
  function Normalize(rows: seq<RawRow>, requireCountry: bool): (rs: seq<Record>)
    ensures |rs| <= |rows|
    ensures forall row :: row in rows && Usable(row, requireCountry) ==> ToRecord(row) in rs
    ensures forall r :: r in rs ==> exists row :: row in rows && Usable(row, requireCountry) && ToRecord(row) == r
    decreases |rows|
  {
    if rows == [] then []
    else
      var rest := Normalize(rows[1..], requireCountry);
      assert forall row :: row in rows ==> row == rows[0] || row in rows[1..];
      (if Usable(rows[0], requireCountry) then [ToRecord(rows[0])] else []) + rest
  }

  ghost function UsableRows(rows: seq<RawRow>, requireCountry: bool): (kept: seq<RawRow>)
    ensures forall row :: row in kept <==> row in rows && Usable(row, requireCountry)
    ensures forall i :: 0 <= i < |kept| ==> Usable(kept[i], requireCountry)
  {
    Keep(rows, row => Usable(row, requireCountry))
  }

  /** Each row converted on its own, in order. */
  function ToRecords(rows: seq<RawRow>): (rs: seq<Record>)
    requires forall i :: 0 <= i < |rows| ==> Usable(rows[i], false)
    ensures |rs| == |rows|
    ensures forall i :: 0 <= i < |rows| ==> rs[i] == ToRecord(rows[i])
  {
    if rows == [] then [] else [ToRecord(rows[0])] + ToRecords(rows[1..])
  }

  /**
   * Normalisation keeps exactly the usable rows, as an order-preserving
   * subsequence, and converts each of them in place.
   */
  lemma {:induction false} NormalizeKeepsUsableInOrder(rows: seq<RawRow>, requireCountry: bool)
    ensures IsSubsequence(UsableRows(rows, requireCountry), rows)
    ensures Normalize(rows, requireCountry) == ToRecords(UsableRows(rows, requireCountry))
    decreases |rows|
  {
    KeepIsSubsequence(rows, row => Usable(row, requireCountry));
    if rows != [] {
      NormalizeKeepsUsableInOrder(rows[1..], requireCountry);
      var kept, restKept := UsableRows(rows, requireCountry), UsableRows(rows[1..], requireCountry);
      if Usable(rows[0], requireCountry) {
        assert kept == [rows[0]] + restKept;
        assert kept[1..] == restKept;
      } else {
        assert kept == restKept;
      }
    }
  }

  predicate HasCountry(r: Record)
  {
    r.country.Some?
  }

  /** The country view's stricter `dropna` equals masking the shared frame on `Country/Region`. */
  lemma {:induction false} NormalizeWithCountry(rows: seq<RawRow>)
    ensures Normalize(rows, true) == Keep(Normalize(rows, false), HasCountry)
    decreases |rows|
  {
    if rows != [] {
      NormalizeWithCountry(rows[1..]);
      var head := if Usable(rows[0], false) then [ToRecord(rows[0])] else [];
      KeepAppend(head, Normalize(rows[1..], false), HasCountry);
    }
  }

  /** A crash counts in `"Aircraft": "count"` when its Aircraft cell is not missing. */
  function Crash(r: Record): (n: nat)
    ensures n <= 1
    ensures n == 1 <==> r.aircraft.Some?
  {
    if r.aircraft.Some? then 1 else 0
  }

  /** `Series.sum()` of `Fatalities_air`; 0 on an empty frame. */
  function SumFatalities(rs: seq<Record>): int
    decreases |rs|
  {
    if rs == [] then 0 else rs[0].fatalities + SumFatalities(rs[1..])
  }

  /** `Series.count()` of `Aircraft`: the rows whose Aircraft is present. */
  function CountAircraft(rs: seq<Record>): (n: nat)
    ensures n <= |rs|
    ensures n == |rs| <==> forall r :: r in rs ==> r.aircraft.Some?
    decreases |rs|
  {
    if rs == [] then 0
    else
      assert forall r :: r in rs ==> r == rs[0] || r in rs[1..];
      Crash(rs[0]) + CountAircraft(rs[1..])
  }

  lemma {:induction false} SumAppend(a: seq<Record>, b: seq<Record>)
    ensures SumFatalities(a + b) == SumFatalities(a) + SumFatalities(b)
    ensures CountAircraft(a + b) == CountAircraft(a) + CountAircraft(b)
    decreases |a|
  {
    if a == [] {
      assert a + b == b;
    } else {
      assert (a + b)[0] == a[0] && (a + b)[1..] == a[1..] + b;
      SumAppend(a[1..], b);
    }
  }

  /** Splitting rows by a mask splits both totals. */
  lemma {:induction false} SumPartition(rs: seq<Record>, p: Record -> bool, notP: Record -> bool)
    requires forall r :: notP(r) == !p(r)
    ensures SumFatalities(Keep(rs, p)) + SumFatalities(Keep(rs, notP)) == SumFatalities(rs)
    ensures CountAircraft(Keep(rs, p)) + CountAircraft(Keep(rs, notP)) == CountAircraft(rs)
    decreases |rs|
  {
    if rs != [] {
      SumPartition(rs[1..], p, notP);
      var hp := if p(rs[0]) then [rs[0]] else [];
      var hn := if notP(rs[0]) then [rs[0]] else [];
      SumAppend(hp, Keep(rs[1..], p));
      SumAppend(hn, Keep(rs[1..], notP));
    }
  }

  /** When no row exceeds `bound`, the total is at most `|rs|` times `bound`. */
  lemma {:induction false} SumAtMost(rs: seq<Record>, bound: int)
    requires forall r :: r in rs ==> r.fatalities <= bound
    ensures SumFatalities(rs) <= |rs| * bound
    decreases |rs|
  {
    if rs != [] {
      var n := |rs| - 1;
      assert rs[0] in rs;
      assert forall r :: r in rs[1..] ==> r in rs;
      SumAtMost(rs[1..], bound);
      MultiplySuccessor(n, bound);
    }
  }

  lemma MultiplySuccessor(n: int, b: int)
    ensures (n + 1) * b == n * b + b
  {
  }

  lemma {:induction false} SumNonNegative(rs: seq<Record>)
    requires forall r :: r in rs ==> r.fatalities >= 0
    ensures SumFatalities(rs) >= 0
    decreases |rs|
  {
    if rs != [] {
      assert rs[0] in rs;
      assert forall r :: r in rs[1..] ==> r in rs;
      SumNonNegative(rs[1..]);
    }
  }
}
