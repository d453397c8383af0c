/** The four summary cards above the map. */
module Kpis {
  import opened Order
  import opened Records

  /**
   * Total crashes, total fatalities, average fatalities per crash and the
   * worst crash. The average is the exact quotient (the cards round it to
   * one decimal).
   */
  datatype Kpis = Kpis(totalCrashes: nat, totalFatalities: int, avgFatalities: real, worstCrash: int)

  /** The Fatalities_air column of the filtered frame. */
  function FatalityValues(rs: seq<Record>): (fs: seq<int>)
    ensures |fs| == |rs|
    ensures forall i :: 0 <= i < |rs| ==> fs[i] == rs[i].fatalities
  {
    seq(|rs|, i requires 0 <= i < |rs| => rs[i].fatalities)
  }

  /** `int(Fatalities_air.max())`, used only when the frame is not empty. */
  function WorstCrash(rs: seq<Record>): (w: int)
    requires |rs| > 0
    ensures exists r :: r in rs && r.fatalities == w
    ensures forall r :: r in rs ==> r.fatalities <= w
  {
    var fs := FatalityValues(rs);
    var w := MaxOf(fs);
    assert forall r :: r in rs ==> r.fatalities in fs by {
      forall r | r in rs ensures r.fatalities in fs {
        var j :| 0 <= j < |rs| && rs[j] == r;
        assert fs[j] == r.fatalities;
      }
    }
    assert exists r :: r in rs && r.fatalities == w by {
      var j :| 0 <= j < |fs| && fs[j] == w;
      assert rs[j] in rs;
    }
    w
  }

  /** The KPI block; an empty selection shows zeros and never divides. */
  function ComputeKpis(filtered: seq<Record>): (k: Kpis)
    ensures k.totalCrashes == |filtered|
    ensures k.totalFatalities == SumFatalities(filtered)
    ensures |filtered| == 0 ==> k.avgFatalities == 0.0 && k.worstCrash == 0
    ensures |filtered| > 0 ==> IsMean(k.avgFatalities, k.totalFatalities, |filtered|)
    ensures |filtered| > 0 ==>
              && (exists r :: r in filtered && r.fatalities == k.worstCrash)
              && (forall r :: r in filtered ==> r.fatalities <= k.worstCrash)
    ensures k.avgFatalities <= k.worstCrash as real
  {
    var n := |filtered|;
    var total := SumFatalities(filtered);
    if n == 0 then Kpis(0, total, 0.0, 0)
    else
      var worst := WorstCrash(filtered);
      AverageAtMostWorst(filtered);
      Kpis(n, total, Average(total, n), worst)
  }

  /** `avg` is the mean of `n` values that sum to `total`. */
  predicate IsMean(avg: real, total: int, n: nat)
  {
    avg * (n as real) == total as real
  }

  /** The mean of `n` values summing to `total`, as an exact real. */
  function Average(total: int, n: nat): (avg: real)
    requires n > 0
    ensures IsMean(avg, total, n)
  {
    total as real / n as real
  }

  /** No crash is below the average: the mean never exceeds the maximum. */
  lemma AverageAtMostWorst(rs: seq<Record>)
    requires |rs| > 0
    ensures Average(SumFatalities(rs), |rs|) <= WorstCrash(rs) as real
  {
    SumAtMost(rs, WorstCrash(rs));
    AverageAtMost(SumFatalities(rs), |rs|, WorstCrash(rs));
  }

  lemma AverageAtMost(total: int, n: nat, bound: int)
    requires n > 0 && total <= n * bound
    ensures Average(total, n) <= bound as real
  {
    var avg := Average(total, n);
    assert avg * (n as real) == total as real;
    assert (n * bound) as real == (n as real) * (bound as real);
    if avg > bound as real {
      assert avg * (n as real) > (bound as real) * (n as real);
    }
  }
}
