/**
 * The filter widgets built once at start-up from the module-level frame:
 * the operator dropdown's options and the two range sliders. That frame only
 * drops rows missing Latitude, Longitude, Year or Fatalities_air; months are
 * not mapped there.
 */
module Layout {
  import opened Optional
  import opened Seqs
  import opened Order
  import opened Records

  /** `df.dropna(subset=['Latitude', 'Longitude', 'Year', 'Fatalities_air'])` at start-up. */
  predicate OnStartupFrame(row: RawRow)
  {
    row.latitude.Some? && row.longitude.Some? && row.year.Some? && row.fatalities.Some?
  }

  function StartupFrame(rows: seq<RawRow>): (frame: seq<RawRow>)
    ensures forall row :: row in frame <==> row in rows && OnStartupFrame(row)
    ensures forall i :: 0 <= i < |frame| ==> OnStartupFrame(frame[i])
  {
    Keep(rows, OnStartupFrame)
  }

  /** `Operator.dropna()`. */
  function PresentOperators(rows: seq<RawRow>): (ops: seq<string>)
    ensures forall s :: s in ops <==> exists row :: row in rows && row.operator == Some(s)
    decreases |rows|
  {
    if rows == [] then []
    else
      var rest := PresentOperators(rows[1..]);
      assert forall row :: row in rows <==> row == rows[0] || row in rows[1..];
      (match rows[0].operator case Some(s) => [s] case None => []) + rest
  }

  /** `sorted(df['Operator'].dropna().unique())`. */
  function OperatorOptions(rows: seq<RawRow>): (options: seq<string>)
    ensures StrictlyAscending(options, StrLess)
    ensures forall s :: s in options <==> exists row :: row in rows && OnStartupFrame(row) && row.operator == Some(s)
  {
    StrLessIsStrictTotalOrder();
    SortedDistinct(PresentOperators(StartupFrame(rows)), StrLess)
  }

  /** The options hold no operator twice. */
  lemma OperatorOptionsDistinct(rows: seq<RawRow>, i: int, j: int)
    requires 0 <= i < j < |OperatorOptions(rows)|
    ensures OperatorOptions(rows)[i] != OperatorOptions(rows)[j]
  {
    var options := OperatorOptions(rows);
    StrLessIrreflexive(options[i]);
  }

  function Years(frame: seq<RawRow>): (ys: seq<int>)
    requires forall i :: 0 <= i < |frame| ==> frame[i].year.Some?
    ensures |ys| == |frame|
    ensures forall i :: 0 <= i < |frame| ==> ys[i] == frame[i].year.value
  {
    seq(|frame|, i requires 0 <= i < |frame| && frame[i].year.Some? => frame[i].year.value)
  }

  function FatalityCounts(frame: seq<RawRow>): (fs: seq<int>)
    requires forall i :: 0 <= i < |frame| ==> frame[i].fatalities.Some?
    ensures |fs| == |frame|
    ensures forall i :: 0 <= i < |frame| ==> fs[i] == frame[i].fatalities.value
  {
    seq(|frame|, i requires 0 <= i < |frame| && frame[i].fatalities.Some? => frame[i].fatalities.value)
  }

  /** `range(lo, hi + 1, 10)`: the years that get a label on the year slider. */
  function DecadeMarks(lo: int, hi: int): (marks: seq<int>)
    ensures |marks| == if lo > hi then 0 else (hi - lo) / 10 + 1
    ensures forall i :: 0 <= i < |marks| ==> marks[i] == lo + 10 * i
    decreases hi - lo
  {
    if lo > hi then [] else [lo] + DecadeMarks(lo + 10, hi)
  }

  /** The marks are exactly the years of the slider's range at a multiple of ten from its start. */
  lemma DecadeMarksExactly(lo: int, hi: int, y: int)
    ensures y in DecadeMarks(lo, hi) <==> lo <= y <= hi && (y - lo) % 10 == 0
  {
    var marks := DecadeMarks(lo, hi);
    if lo <= y <= hi && (y - lo) % 10 == 0 {
      var i := (y - lo) / 10;
      assert marks[i] == y;
    }
  }

  lemma DecadeMarksAscending(lo: int, hi: int)
    ensures StrictlyAscending(DecadeMarks(lo, hi), IntLess)
  {
  }

  /** A range slider: its bounds and the positions of its labels. */
  datatype Slider = Slider(min: int, max: int, marks: seq<int>)

  /**
   * The year slider spans the smallest to the largest Year with a mark every
   * ten years. On an empty frame `int(NaN)` raises: no slider.
   */
  function YearSlider(rows: seq<RawRow>): (slider: Option<Slider>)
    ensures slider.None? <==> forall row :: row in rows ==> !OnStartupFrame(row)
    ensures slider.Some? ==>
              && (forall row :: row in rows && OnStartupFrame(row) ==> slider.value.min <= row.year.value <= slider.value.max)
              && (exists row :: row in rows && OnStartupFrame(row) && row.year.value == slider.value.min)
              && (exists row :: row in rows && OnStartupFrame(row) && row.year.value == slider.value.max)
              && slider.value.marks == DecadeMarks(slider.value.min, slider.value.max)
  {
    var frame := StartupFrame(rows);
    if frame == [] then None
    else
      var ys := Years(frame);
      var lo, hi := MinOf(ys), MaxOf(ys);
      ColumnFacts(frame, ys, lo, hi);
      assert frame[0] in rows;
      Some(Slider(lo, hi, DecadeMarks(lo, hi)))
  }

  lemma ColumnFacts(frame: seq<RawRow>, ys: seq<int>, lo: int, hi: int)
    requires forall i :: 0 <= i < |frame| ==> frame[i].year.Some?
    requires ys == Years(frame)
    requires lo in ys && hi in ys && forall y :: y in ys ==> lo <= y <= hi
    ensures forall row :: row in frame ==> lo <= row.year.value <= hi
    ensures exists row :: row in frame && row.year.value == lo
    ensures exists row :: row in frame && row.year.value == hi
  {
    forall row | row in frame ensures lo <= row.year.value <= hi {
      var i :| 0 <= i < |frame| && frame[i] == row;
      assert ys[i] in ys;
    }
    var i :| 0 <= i < |ys| && ys[i] == lo;
    assert frame[i] in frame;
    var j :| 0 <= j < |ys| && ys[j] == hi;
    assert frame[j] in frame;
  }

  /** The fatalities slider spans the smallest to the largest Fatalities_air; no marks are set. */
  function FatalitiesSlider(rows: seq<RawRow>): (bounds: Option<(int, int)>)
    ensures bounds.None? <==> forall row :: row in rows ==> !OnStartupFrame(row)
    ensures bounds.Some? ==>
              && (forall row :: row in rows && OnStartupFrame(row) ==> bounds.value.0 <= row.fatalities.value <= bounds.value.1)
              && (exists row :: row in rows && OnStartupFrame(row) && row.fatalities.value == bounds.value.0)
              && (exists row :: row in rows && OnStartupFrame(row) && row.fatalities.value == bounds.value.1)
  {
    var frame := StartupFrame(rows);
    if frame == [] then None
    else
      var fs := FatalityCounts(frame);
      var lo, hi := MinOf(fs), MaxOf(fs);
      assert forall row :: row in frame ==> lo <= row.fatalities.value <= hi by {
        forall row | row in frame ensures lo <= row.fatalities.value <= hi {
          var i :| 0 <= i < |frame| && frame[i] == row;
          assert fs[i] in fs;
        }
      }
      assert exists row :: row in frame && row.fatalities.value == lo by {
        var i :| 0 <= i < |fs| && fs[i] == lo;
        assert frame[i] in frame;
      }
      assert exists row :: row in frame && row.fatalities.value == hi by {
        var i :| 0 <= i < |fs| && fs[i] == hi;
        assert frame[i] in frame;
      }
      assert frame[0] in rows;
      Some((lo, hi))
  }
}
