/**
 * The "Recent Crashes" table: dates printed as `YYYY-MM-DD`, rows sorted by
 * that string in descending order (missing dates last), first twenty kept,
 * five columns shown.
 */
module Recent {
  import opened Optional
  import opened Order
  import opened Calendar
  import opened Records

  /** One table row: Date, Operator, Aircraft, Location, Fatalities_air. */
  datatype RecentRow = RecentRow(
    date: Option<string>,
    operator: Option<string>,
    aircraft: Option<string>,
    location: Option<string>,
    fatalities: int)

  const RecentLimit := 20

  /** `strftime` leaves a missing date missing. */
  function Project(r: Record): (row: RecentRow)
    ensures row.date.Some? <==> r.date.Some?
    ensures r.date.Some? ==> row.date == Some(FormatDate(r.date.value))
    ensures row.operator == r.operator && row.aircraft == r.aircraft
    ensures row.location == r.location && row.fatalities == r.fatalities
  {
    var date := match r.date case Some(d) => Some(FormatDate(d)) case None => None;
    RecentRow(date, r.operator, r.aircraft, r.location, r.fatalities)
  }

  function Projections(rs: seq<Record>): (rows: seq<RecentRow>)
    ensures |rows| == |rs|
    ensures forall i :: 0 <= i < |rs| ==> rows[i] == Project(rs[i])
    decreases |rs|
  {
    if rs == [] then [] else [Project(rs[0])] + Projections(rs[1..])
  }

  /**
   * `x` may precede `y` in a descending sort on the date string with
   * `na_position='last'`.
   */
  predicate AtLeastAsRecent(x: RecentRow, y: RecentRow)
  {
    y.date.None? || (x.date.Some? && !StrLess(x.date.value, y.date.value))
  }

  ghost predicate NewestFirst(rows: seq<RecentRow>)
  {
    forall i, j :: 0 <= i < j < |rows| ==> AtLeastAsRecent(rows[i], rows[j])
  }

  lemma AtLeastAsRecentTotal(x: RecentRow, y: RecentRow)
    ensures AtLeastAsRecent(x, y) || AtLeastAsRecent(y, x)
  {
    if x.date.Some? && y.date.Some? && StrLess(x.date.value, y.date.value) && StrLess(y.date.value, x.date.value) {
      StrLessTransitive(x.date.value, y.date.value, x.date.value);
      StrLessIrreflexive(x.date.value);
    }
  }

  lemma AtLeastAsRecentTransitive(x: RecentRow, y: RecentRow, z: RecentRow)
    requires AtLeastAsRecent(x, y) && AtLeastAsRecent(y, z)
    ensures AtLeastAsRecent(x, z)
  {
    if z.date.Some? && StrLess(x.date.value, z.date.value) {
      var a, b, c := x.date.value, y.date.value, z.date.value;
      if a == b {
      } else if b == c {
      } else {
        StrLessTotal(a, b);
        StrLessTotal(b, c);
        StrLessTransitive(b, a, c);
      }
    }
  }

  function InsertByDate(x: RecentRow, rows: seq<RecentRow>): seq<RecentRow>
    decreases |rows|
  {
    if rows == [] || AtLeastAsRecent(x, rows[0]) then [x] + rows
    else [rows[0]] + InsertByDate(x, rows[1..])
  }

  lemma {:induction false} InsertByDateCorrect(x: RecentRow, rows: seq<RecentRow>)
    requires NewestFirst(rows)
    ensures NewestFirst(InsertByDate(x, rows))
    ensures multiset(InsertByDate(x, rows)) == multiset(rows) + multiset{x}
    decreases |rows|
  {
    if rows == [] || AtLeastAsRecent(x, rows[0]) {
      var s := [x] + rows;
      forall i, j | 0 <= i < j < |s| ensures AtLeastAsRecent(s[i], s[j]) {
        if i == 0 && j > 1 {
          AtLeastAsRecentTransitive(x, rows[0], rows[j - 1]);
        }
      }
    } else {
      var rest := InsertByDate(x, rows[1..]);
      InsertByDateCorrect(x, rows[1..]);
      AtLeastAsRecentTotal(x, rows[0]);
      assert rows == [rows[0]] + rows[1..];
      var s := [rows[0]] + rest;
      forall i, j | 0 <= i < j < |s| ensures AtLeastAsRecent(s[i], s[j]) {
        if i == 0 {
          assert s[j] in multiset(rest);
          if s[j] != x {
            assert s[j] in multiset(rows[1..]);
            var k :| 0 <= k < |rows[1..]| && rows[1..][k] == s[j];
            assert rows[k + 1] == s[j];
          }
        }
      }
    }
  }

  /**
   * An insertion sort that yields one of the orders `sort_values(by="Date",
   * ascending=False)` may produce: newest first, missing dates last, a
   * permutation of its input.
   */
  function SortNewestFirst(rows: seq<RecentRow>): (sorted: seq<RecentRow>)
    ensures NewestFirst(sorted)
    ensures multiset(sorted) == multiset(rows)
    decreases |rows|
  {
    if rows == [] then []
    else
      var rest := SortNewestFirst(rows[1..]);
      InsertByDateCorrect(rows[0], rest);
      assert rows == [rows[0]] + rows[1..];
      InsertByDate(rows[0], rest)
  }

  /**
   * The table: at most twenty of the filtered rows, newest first, and no row
   * left out is newer than a row shown.
   */
  function RecentCrashes(filtered: seq<Record>): (table: seq<RecentRow>)
    ensures |table| == if |filtered| < RecentLimit then |filtered| else RecentLimit
    ensures NewestFirst(table)
    ensures multiset(table) <= multiset(Projections(filtered))
    ensures forall x, y :: x in table && y in multiset(Projections(filtered)) - multiset(table) ==> AtLeastAsRecent(x, y)
  {
    var sorted := SortNewestFirst(Projections(filtered));
    var n := if |sorted| < RecentLimit then |sorted| else RecentLimit;
    HeadIsNewest(sorted, n);
    sorted[..n]
  }

  /** Cutting a newest-first list leaves no row newer than the kept prefix. */
  lemma HeadIsNewest(sorted: seq<RecentRow>, n: nat)
    requires NewestFirst(sorted) && n <= |sorted|
    ensures NewestFirst(sorted[..n])
    ensures multiset(sorted[..n]) <= multiset(sorted)
    ensures multiset(sorted) - multiset(sorted[..n]) == multiset(sorted[n..])
    ensures forall x, y :: x in sorted[..n] && y in multiset(sorted[n..]) ==> AtLeastAsRecent(x, y)
  {
    assert sorted == sorted[..n] + sorted[n..];
    assert multiset(sorted) == multiset(sorted[..n]) + multiset(sorted[n..]);
    forall x, y | x in sorted[..n] && y in multiset(sorted[n..])
      ensures AtLeastAsRecent(x, y)
    {
      var i :| 0 <= i < n && sorted[..n][i] == x;
      var j :| 0 <= j < |sorted[n..]| && sorted[n..][j] == y;
      assert sorted[i] == x && sorted[n + j] == y;
    }
  }

  /** Every table row shows one of the filtered crashes. */
  lemma RecentRowsComeFromFiltered(filtered: seq<Record>, x: RecentRow)
    requires x in RecentCrashes(filtered)
    ensures exists r :: r in filtered && Project(r) == x
  {
    var ps := Projections(filtered);
    assert x in multiset(ps);
    var i :| 0 <= i < |ps| && ps[i] == x;
    assert filtered[i] in filtered;
  }

  /** For dated rows the string order is the calendar order. */
  lemma NewestFirstIsChronological(r1: Record, r2: Record)
    requires r1.date.Some? && r2.date.Some?
    ensures AtLeastAsRecent(Project(r1), Project(r2)) <==> !Before(r1.date.value, r2.date.value)
  {
    FormatDateOrder(r1.date.value, r2.date.value);
  }

  /** A row whose date is missing never precedes a dated row. */
  lemma MissingDatesLast(x: RecentRow, y: RecentRow)
    requires x.date.None? && y.date.Some?
    ensures !AtLeastAsRecent(x, y) && AtLeastAsRecent(y, x)
  {
  }
}
