/** Worked examples of the dashboard's edge cases, checked by the verifier. */
module Examples {
  import opened Optional
  import opened Records
  import opened Filtering
  import opened Kpis
  import opened Grouping
  import opened Dashboard
  import opened Recent

  function Row(year: int, month: string, day: int, fatalities: int, country: string): RawRow
  {
    RawRow(Some(year), Some(month), Some(day), Some(0.0), Some(0.0), Some(fatalities),
           None, Some("DC-3"), None, Some(country))
  }

  /**
   * Three crashes in 1999, 2000 and 2001 with 10, 20 and 30 deaths in
   * countries A, B and A, filtered to the years 2000..2001.
   */
  const ExampleRows := [Row(1999, "January", 1, 10, "A"), Row(2000, "January", 1, 20, "B"), Row(2001, "January", 1, 30, "A")]
  const ExampleFilter := FilterParams((2000, 2001), [], (0, 100))

  /** A 1 January row in the timestamp range is usable and gets its date. */
  lemma NewYearsDay(year: int, fatalities: int, country: string)
    requires 1678 <= year <= 2261
    ensures Usable(Row(year, "January", 1, fatalities, country), false)
    ensures ToRecord(Row(year, "January", 1, fatalities, country)).date == Some(Calendar.Date(year, 1, 1))
  {
    assert MonthNumber("January") == Some(1);
  }

  lemma ExampleNormalized()
    ensures Normalize(ExampleRows, false) == [ToRecord(ExampleRows[0]), ToRecord(ExampleRows[1]), ToRecord(ExampleRows[2])]
  {
    NewYearsDay(1999, 10, "A");
    NewYearsDay(2000, 20, "B");
    NewYearsDay(2001, 30, "A");
    ThreeUsable(ExampleRows[0], ExampleRows[1], ExampleRows[2]);
  }

  lemma ThreeUsable(a: RawRow, b: RawRow, c: RawRow)
    requires Usable(a, false) && Usable(b, false) && Usable(c, false)
    ensures Normalize([a, b, c], false) == [ToRecord(a), ToRecord(b), ToRecord(c)]
  {
    assert Normalize([c], false) == [ToRecord(c)] by {
      assert [c][1..] == [];
    }
    assert Normalize([b, c], false) == [ToRecord(b), ToRecord(c)] by {
      assert [b, c][1..] == [c];
    }
    assert [a, b, c][1..] == [b, c];
  }

  lemma ExampleFiltered()
    ensures MapPoints(ExampleRows, ExampleFilter) == [ToRecord(ExampleRows[1]), ToRecord(ExampleRows[2])]
  {
    var rows := ExampleRows;
    ExampleNormalized();
    ThreeYears(ToRecord(rows[0]), ToRecord(rows[1]), ToRecord(rows[2]));
  }

  /** The year range 2000..2001 drops the 1999 crash and keeps the other two. */
  lemma ThreeYears(r0: Record, r1: Record, r2: Record)
    requires r0.year == 1999 && r1.year == 2000 && r2.year == 2001
    requires 0 <= r1.fatalities <= 100 && 0 <= r2.fatalities <= 100
    ensures Filter([r0, r1, r2], ExampleFilter) == [r1, r2]
  {
    var ranges := r => InRanges(r, ExampleFilter);
    assert Seqs.Keep([r2], ranges) == [r2] by {
      assert [r2][1..] == [];
    }
    assert Seqs.Keep([r1, r2], ranges) == [r1, r2] by {
      assert [r1, r2][1..] == [r2];
    }
    assert [r0, r1, r2][1..] == [r1, r2];
  }

  /** The cards read 2 crashes, 50 deaths, 25 per crash, worst 30. */
  lemma ExampleKpis()
    ensures ComputeKpis(MapPoints(ExampleRows, ExampleFilter)) == Kpis(2, 50, 25.0, 30)
  {
    ExampleFiltered();
    TwoCrashKpis(ToRecord(ExampleRows[1]), ToRecord(ExampleRows[2]));
  }

  lemma TwoCrashKpis(r1: Record, r2: Record)
    requires r1.fatalities == 20 && r2.fatalities == 30
    ensures ComputeKpis([r1, r2]) == Kpis(2, 50, 25.0, 30)
  {
    var points := [r1, r2];
    assert SumFatalities([r2]) == 30 by {
      assert [r2][1..] == [];
    }
    assert SumFatalities(points) == 50 by {
      assert points[1..] == [r2];
    }
    var k := ComputeKpis(points);
    assert k.worstCrash == 30 by {
      assert r1 in points && r2 in points;
      assert forall r :: r in points ==> r == r1 || r == r2;
    }
    assert k.avgFatalities == 25.0 by {
      assert k.avgFatalities * 2.0 == 50.0;
    }
  }

  /** One trend point per year, ascending. */
  lemma ExampleYearly()
    ensures YearlyTrend(ExampleRows, ExampleFilter) == [Group(2000, 1, 20), Group(2001, 1, 30)]
  {
    ExampleFiltered();
    TwoYears(ToRecord(ExampleRows[1]), ToRecord(ExampleRows[2]));
  }

  lemma TwoYears(r1: Record, r2: Record)
    requires r1.year == 2000 && r1.fatalities == 20 && r1.aircraft.Some?
    requires r2.year == 2001 && r2.fatalities == 30 && r2.aircraft.Some?
    ensures GroupBy([r1, r2], YearKey, Order.IntLess) == [Group(2000, 1, 20), Group(2001, 1, 30)]
  {
    var g := Group(2001, 1, 30);
    assert GroupBy([r2], YearKey, Order.IntLess) == [g] by {
      assert [r2][1..] == [];
    }
    assert [r1, r2][1..] == [r2];
    assert GroupBy([r1, r2], YearKey, Order.IntLess) == AddRow([g], 2000, r1, Order.IntLess);
  }

  /** Countries A and B in name order; each has one crash. */
  lemma ExampleCountries()
    ensures CountryTotals(ExampleRows, ExampleFilter) == [Group("A", 1, 30), Group("B", 1, 20)]
  {
    ExampleFiltered();
    TwoCountries(ToRecord(ExampleRows[1]), ToRecord(ExampleRows[2]));
  }

  lemma TwoCountries(r1: Record, r2: Record)
    requires r1.country == Some("B") && r1.fatalities == 20 && r1.aircraft.Some?
    requires r2.country == Some("A") && r2.fatalities == 30 && r2.aircraft.Some?
    ensures GroupBy(Seqs.Keep([r1, r2], HasCountry), CountryKey, Order.StrLess) == [Group("A", 1, 30), Group("B", 1, 20)]
  {
    Seqs.KeepAll([r1, r2], HasCountry);
    assert GroupBy([r2], CountryKey, Order.StrLess) == [Group("A", 1, 30)] by {
      assert [r2][1..] == [];
    }
    assert !Order.StrLess("B", "A");
    assert "A" != "B";
    var ga := Group("A", 1, 30);
    assert AddRow([ga], "B", r1, Order.StrLess) == [ga] + AddRow([], "B", r1, Order.StrLess) by {
      assert [ga][1..] == [];
    }
    assert [r1, r2][1..] == [r2];
    assert GroupBy([r1, r2], CountryKey, Order.StrLess) == AddRow([ga], "B", r1, Order.StrLess);
  }

  /** The table lists the 2001 crash before the 2000 one. */
  lemma ExampleRecent()
    ensures var points := MapPoints(ExampleRows, ExampleFilter);
            && |points| == 2 && points[0].year == 2000 && points[1].year == 2001
            && RecentCrashes(points) == [Project(points[1]), Project(points[0])]
  {
    ExampleFiltered();
    NewYearsDay(2000, 20, "B");
    NewYearsDay(2001, 30, "A");
    TwoDatedRows(ToRecord(ExampleRows[1]), ToRecord(ExampleRows[2]));
  }

  lemma TwoDatedRows(r1: Record, r2: Record)
    requires r1.date.Some? && r2.date.Some? && Calendar.Before(r1.date.value, r2.date.value)
    ensures RecentCrashes([r1, r2]) == [Project(r2), Project(r1)]
  {
    NewestFirstIsChronological(r1, r2);
    var p1, p2 := Project(r1), Project(r2);
    assert !AtLeastAsRecent(p1, p2);
    assert Projections([r1, r2]) == [p1, p2] by {
      assert [r1, r2][1..] == [r2] && [r2][1..] == [];
    }
    SortTwo(p1, p2);
  }

  lemma SortTwo(p1: RecentRow, p2: RecentRow)
    requires !AtLeastAsRecent(p1, p2)
    ensures SortNewestFirst([p1, p2]) == [p2, p1]
  {
    assert SortNewestFirst([p2]) == [p2] by {
      assert [p2][1..] == [];
    }
    assert [p1, p2][1..] == [p2];
    assert InsertByDate(p1, [p2]) == [p2] + InsertByDate(p1, []);
  }

  /**
   * 29 February 2001 does not exist: the row stays, with a missing date, and
   * still counts on the cards and in the trend.
   */
  lemma ImpossibleDateStillCounts()
    ensures var rows := [Row(2001, "February", 29, 3, "A")];
            var p := FilterParams((2001, 2001), [], (0, 10));
            && |MapPoints(rows, p)| == 1
            && MapPoints(rows, p)[0].date.None?
            && ComputeKpis(MapPoints(rows, p)).totalCrashes == 1
            && YearlyTrend(rows, p) == [Group(2001, 1, 3)]
  {
    var rows := [Row(2001, "February", 29, 3, "A")];
    var p := FilterParams((2001, 2001), [], (0, 10));
    assert MonthNumber("February") == Some(2);
    var r := ToRecord(rows[0]);
    assert r.date.None? by {
      assert !Calendar.IsLeapYear(2001);
    }
    assert Normalize(rows, false) == [r] by {
      assert rows[1..] == [];
    }
    assert MapPoints(rows, p) == [r] by {
      assert [r][1..] == [];
    }
    assert [r][1..] == [];
  }
}
