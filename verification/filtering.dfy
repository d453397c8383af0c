/** The three-way filter every callback applies to the normalised frame. */
module Filtering {
  import opened Optional
  import opened Seqs
  import opened Records

  /**
   * The widget values: the two range sliders (inclusive bounds) and the
   * operator dropdown. A dropdown value of `None` and an empty selection are
   * both the empty sequence: neither constrains the operator.
   */
  datatype FilterParams = FilterParams(yearRange: (int, int), operators: seq<string>, fatalitiesRange: (int, int))

  /** The sliders' initial values: years 2000..2023, fatalities 0..300, no operator. */
  const InitialFilter := FilterParams((2000, 2023), [], (0, 300))

  predicate InRanges(r: Record, p: FilterParams)
  {
    && p.yearRange.0 <= r.year <= p.yearRange.1
    && p.fatalitiesRange.0 <= r.fatalities <= p.fatalitiesRange.1
  }

  /** `Series.isin(selected_operators)`: a missing operator is never selected. */
  predicate OperatorSelected(r: Record, operators: seq<string>)
  {
    r.operator.Some? && r.operator.value in operators
  }

  /** The whole predicate a row must satisfy to be shown. */
  predicate Passes(r: Record, p: FilterParams)
  {
    InRanges(r, p) && (|p.operators| == 0 || OperatorSelected(r, p.operators))
  }

  /** The range mask, then the operator mask when operators are selected. */
  function Filter(rs: seq<Record>, p: FilterParams): (out: seq<Record>)
    ensures |out| <= |rs|
    ensures forall r :: r in out <==> r in rs && Passes(r, p)
  {
    var inRange := Keep(rs, r => InRanges(r, p));
    if |p.operators| > 0 then Keep(inRange, r => OperatorSelected(r, p.operators)) else inRange
  }

  /** The two masks amount to one mask with `Passes`, so the result keeps input order. */
  lemma FilterIsOneMask(rs: seq<Record>, p: FilterParams)
    ensures Filter(rs, p) == Keep(rs, r => Passes(r, p))
    ensures IsSubsequence(Filter(rs, p), rs)
  {
    var ranges := r => InRanges(r, p);
    var passes := r => Passes(r, p);
    if |p.operators| > 0 {
      KeepKeep(rs, ranges, r => OperatorSelected(r, p.operators), passes);
    } else {
      KeepExtensional(rs, ranges, passes);
    }
    KeepIsSubsequence(rs, passes);
  }

  /** Filtering commutes with any other row mask, such as the country view's `dropna`. */
  lemma FilterCommutes(rs: seq<Record>, p: FilterParams, q: Record -> bool)
    ensures Filter(Keep(rs, q), p) == Keep(Filter(rs, p), q)
  {
    var ranges := r => InRanges(r, p);
    KeepCommutes(rs, q, ranges);
    if |p.operators| > 0 {
      var ops := r => OperatorSelected(r, p.operators);
      KeepCommutes(Keep(rs, ranges), q, ops);
    }
  }

  /** The filter never looks at `Date`: a row with an impossible date is filtered like any other. */
  lemma {:induction false} FilterIgnoresDate(rs: seq<Record>, p: FilterParams, i: int, d: Option<Calendar.TimestampDate>)
    requires 0 <= i < |rs|
    ensures |Filter(rs[i := rs[i].(date := d)], p)| == |Filter(rs, p)|
  {
    var x := rs[i].(date := d);
    assert Passes(x, p) == Passes(rs[i], p) by {
      assert x.year == rs[i].year && x.fatalities == rs[i].fatalities && x.operator == rs[i].operator;
    }
    FilterIsOneMask(rs, p);
    FilterIsOneMask(rs[i := x], p);
    KeepPointUpdate(rs, r => Passes(r, p), i, x);
  }

  lemma {:induction false} KeepPointUpdate(rs: seq<Record>, q: Record -> bool, i: int, x: Record)
    requires 0 <= i < |rs| && q(x) == q(rs[i])
    ensures |Keep(rs[i := x], q)| == |Keep(rs, q)|
    decreases |rs|
  {
    var ys := rs[i := x];
    if i == 0 {
      assert ys[1..] == rs[1..];
    } else {
      assert ys[0] == rs[0] && ys[1..] == rs[1..][i - 1 := x];
      KeepPointUpdate(rs[1..], q, i - 1, x);
    }
  }
}
