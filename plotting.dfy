/**
 * Series preparation of the chart helpers: which rows a chart is built
 * from, in which order, and the year-over-year growth values. A figure is
 * represented by the data handed to the chart library, not by its styling.
 */
module Plotting {

  import opened Options
  import opened Json
  import opened Tidy

  const TotalAssets: string := "Total Assets"
  const TotalLiabilities: string := "Total Liabilities"

  datatype Point = Point(year: int, value: real)

  /** One named bar series of a grouped bar chart. */
  datatype Trace = Trace(name: string, points: seq<Point>)

  /** A percentage change; a zero prior value makes it an infinity in floating point. */
  datatype Growth = Percent(pct: real) | PlusInfinity | MinusInfinity

  datatype GrowthPoint = GrowthPoint(year: int, growth: Growth)

  datatype Figure =
    | LineChart(points: seq<Point>, title: JsonValue)
    | BarChart(points: seq<Point>, title: JsonValue)
    | GroupedBars(traces: seq<Trace>)
    | GrowthBars(growth: seq<GrowthPoint>, title: JsonValue)

  /** `df[df['metric'] == metric]`: the rows of one metric, in their original order. */
  function MetricRows(df: seq<Row>, metric: string): (r: seq<Row>)
    ensures forall i :: 0 <= i < |r| ==> r[i].metric == metric
    ensures forall x :: x in r <==> x in df && x.metric == metric
    ensures r == [] <==> !HasMetric(df, metric)
  {
    if df == [] then []
    else
      var rest := MetricRows(df[1..], metric);
      assert forall x :: x in df <==> x == df[0] || x in df[1..];
      assert HasMetric(df, metric) <==> df[0].metric == metric || HasMetric(df[1..], metric) by {
        if HasMetric(df[1..], metric) {
          var i :| 0 <= i < |df[1..]| && df[1..][i].metric == metric;
          assert df[i + 1].metric == metric;
        }
        if HasMetric(df, metric) && df[0].metric != metric {
          var i :| 0 <= i < |df| && df[i].metric == metric;
          assert df[1..][i - 1].metric == metric;
        }
      }
      if df[0].metric == metric then [df[0]] + rest else rest
  }

  predicate YearSorted(s: seq<Row>)
  {
    forall i, j :: 0 <= i < j < |s| ==> s[i].year <= s[j].year
  }

  /** Places `x` before the first row whose year is not smaller, so equal years keep their order. */
  function InsertByYear(x: Row, s: seq<Row>): (r: seq<Row>)
    requires YearSorted(s)
    ensures YearSorted(r)
    ensures multiset(r) == multiset(s) + multiset{x}
    ensures |r| == |s| + 1
  {
    if s == [] || x.year <= s[0].year then
      assert forall i :: 0 <= i < |s| ==> s[0].year <= s[i].year;
      YearSortedCons(x, s);
      [x] + s
    else
      var rest := InsertByYear(x, s[1..]);
      assert s == [s[0]] + s[1..];
      InsertByYearBound(x, s, rest);
      YearSortedCons(s[0], rest);
      [s[0]] + rest
  }

  /** A row no later than every row of a year-ordered list can go in front of it. */
  lemma YearSortedCons(h: Row, t: seq<Row>)
    requires YearSorted(t)
    requires forall i :: 0 <= i < |t| ==> h.year <= t[i].year
    ensures YearSorted([h] + t)
  {
    forall i, j | 0 <= i < j < |[h] + t|
      ensures ([h] + t)[i].year <= ([h] + t)[j].year
    {
      assert ([h] + t)[j] == t[j - 1];
      if i > 0 {
        assert ([h] + t)[i] == t[i - 1];
      }
    }
  }

  /** Every row of `rest` (the tail with `x` inserted) comes no earlier than the head of `s`. */
  lemma InsertByYearBound(x: Row, s: seq<Row>, rest: seq<Row>)
    requires YearSorted(s) && s != [] && s[0].year < x.year
    requires multiset(rest) == multiset(s[1..]) + multiset{x}
    ensures forall i :: 0 <= i < |rest| ==> s[0].year <= rest[i].year
  {
    forall i | 0 <= i < |rest|
      ensures s[0].year <= rest[i].year
    {
      assert rest[i] in multiset(rest);
      if rest[i] != x {
        assert rest[i] in multiset(s[1..]);
        var k :| 0 <= k < |s[1..]| && s[1..][k] == rest[i];
        assert s[k + 1] == rest[i];
      }
    }
  }

  /** `sort_values('year')`, as a stable insertion sort. */
  function SortByYear(s: seq<Row>): (r: seq<Row>)
    ensures YearSorted(r)
    ensures multiset(r) == multiset(s)
    ensures |r| == |s|
  {
    if s == [] then []
    else
      assert s == [s[0]] + s[1..];
      InsertByYear(s[0], SortByYear(s[1..]))
  }

  /** The (year, value) columns of some rows, i.e. the x and y data of a chart. */
  function Points(rows: seq<Row>): seq<Point>
  {
    seq(|rows|, i requires 0 <= i < |rows| => Point(rows[i].year, rows[i].value))
  }

  /** `df[df['metric'] == metric].sort_values('year')`: what a line, bar or growth chart plots. */
  function Series(df: seq<Row>, metric: string): seq<Row>
  {
    SortByYear(MetricRows(df, metric))
  }

  /** `pct_change() * 100` for one pair of consecutive values; 0/0 is NaN and is dropped. */
  function Change(prior: real, current: real): Option<Growth>
  {
    if prior != 0.0 then Some(Percent((current / prior - 1.0) * 100.0))
    else if current > 0.0 then Some(PlusInfinity)
    else if current < 0.0 then Some(MinusInfinity)
    else None
  }

  /** The growth column after `dropna`: one point per year after the first whose change is defined. */
  function YearOverYear(s: seq<Row>): (r: seq<GrowthPoint>)
    ensures |r| <= if |s| == 0 then 0 else |s| - 1
    decreases |s|
  {
    if |s| < 2 then []
    else
      var head := match Change(s[0].value, s[1].value)
        case Some(g) => [GrowthPoint(s[1].year, g)]
        case None => [];
      head + YearOverYear(s[1..])
  }

  /** `create_growth_chart`: the growth bars of one metric, or None when no growth point remains. */
  function GrowthChart(df: seq<Row>, metric: string, title: JsonValue): Option<Figure>
  {
    var growth := YearOverYear(Series(df, metric));
    if growth == [] then None else Some(GrowthBars(growth, title))
  }

  /** `create_asset_liability_chart`: sort by year, then one bar series per fixed metric that has rows. */
  function AssetLiabilityChart(df: seq<Row>): Figure
  {
    var sorted := SortByYear(df);
    var assets := Points(MetricRows(sorted, TotalAssets));
    var liabilities := Points(MetricRows(sorted, TotalLiabilities));
    GroupedBars((if assets == [] then [] else [Trace(TotalAssets, assets)])
              + (if liabilities == [] then [] else [Trace(TotalLiabilities, liabilities)]))
  }

  // ----- Properties of the growth series -----

  /** Fewer than two rows of the metric leave no growth point, so no figure. */
  lemma GrowthNeedsTwoYears(df: seq<Row>, metric: string, title: JsonValue)
    requires |MetricRows(df, metric)| < 2
    ensures GrowthChart(df, metric, title) == None
  {
  }

  /** With no zero prior value, every year after the first gets exactly its percentage change. */
  lemma {:induction false} YearOverYearNonzero(s: seq<Row>)
    requires forall i :: 0 <= i < |s| - 1 ==> s[i].value != 0.0
    ensures |YearOverYear(s)| == if |s| == 0 then 0 else |s| - 1
    ensures forall i :: 0 <= i < |YearOverYear(s)| ==>
      YearOverYear(s)[i] == GrowthPoint(s[i + 1].year, Percent((s[i + 1].value / s[i].value - 1.0) * 100.0))
    decreases |s|
  {
    if |s| >= 2 {
      YearOverYearNonzero(s[1..]);
      var r := YearOverYear(s);
      assert r == [GrowthPoint(s[1].year, Percent((s[1].value / s[0].value - 1.0) * 100.0))] + YearOverYear(s[1..]);
    }
  }

  /** Every growth point sits at one of the sorted years after the first, whatever the values. */
  lemma {:induction false} YearOverYearYears(s: seq<Row>)
    ensures forall p :: p in YearOverYear(s) ==> exists j :: 1 <= j < |s| && p.year == s[j].year
    decreases |s|
  {
    if |s| >= 2 {
      YearOverYearYears(s[1..]);
      forall p | p in YearOverYear(s)
        ensures exists j :: 1 <= j < |s| && p.year == s[j].year
      {
        if p in YearOverYear(s[1..]) {
          var j :| 1 <= j < |s[1..]| && p.year == s[1..][j].year;
          assert p.year == s[j + 1].year;
        } else {
          assert p.year == s[1].year;
        }
      }
    }
  }

  /**
   * The growth chart of a metric whose sorted values have no zero prior:
   * n - 1 bars for n >= 2 values, bar i at the (i+1)-th year with
   * (v[i+1] / v[i] - 1) * 100.
   */
  lemma GrowthChartValues(df: seq<Row>, metric: string, title: JsonValue)
    requires |Series(df, metric)| >= 2
    requires forall i :: 0 <= i < |Series(df, metric)| - 1 ==> Series(df, metric)[i].value != 0.0
    ensures GrowthChart(df, metric, title).Some?
    ensures var s, g := Series(df, metric), GrowthChart(df, metric, title).value.growth;
      && |g| == |s| - 1
      && forall i :: 0 <= i < |g| ==>
           g[i] == GrowthPoint(s[i + 1].year, Percent((s[i + 1].value / s[i].value - 1.0) * 100.0))
  {
    YearOverYearNonzero(Series(df, metric));
  }

  /** Two years, 100 then 120: one bar, +20 at the later year. */
  lemma GrowthExample(title: JsonValue)
    ensures GrowthChart([Row(2022, "Revenue from Operations", 100.0), Row(2023, "Revenue from Operations", 120.0)],
                        "Revenue from Operations", title)
         == Some(GrowthBars([GrowthPoint(2023, Percent(20.0))], title))
  {
    var df := [Row(2022, "Revenue from Operations", 100.0), Row(2023, "Revenue from Operations", 120.0)];
    assert MetricRows(df[1..], "Revenue from Operations") == df[1..];
    assert MetricRows(df, "Revenue from Operations") == df;
    assert SortByYear(df[1..]) == df[1..];
    assert Series(df, "Revenue from Operations") == df;
    assert YearOverYear(df[1..]) == [];
    assert (120.0 / 100.0 - 1.0) * 100.0 == 20.0;
    assert YearOverYear(df) == [GrowthPoint(2023, Percent(20.0))];
  }

  // ----- Filtering and sorting commute (the asset/liability chart sorts before it filters) -----

  lemma {:induction false} MetricRowsSorted(s: seq<Row>, metric: string)
    requires YearSorted(s)
    ensures YearSorted(MetricRows(s, metric))
  {
    if s != [] {
      MetricRowsSorted(s[1..], metric);
      var rest := MetricRows(s[1..], metric);
      forall i | 0 <= i < |rest|
        ensures s[0].year <= rest[i].year
      {
        assert rest[i] in s[1..];
      }
    }
  }

  /** The head case of MetricRowsInsert: `x` goes in front of `s`. */
  lemma MetricRowsInsertFront(x: Row, s: seq<Row>, metric: string)
    requires YearSorted(s) && YearSorted(MetricRows(s, metric))
    requires s == [] || x.year <= s[0].year
    ensures MetricRows([x] + s, metric)
         == if x.metric == metric then InsertByYear(x, MetricRows(s, metric)) else MetricRows(s, metric)
  {
    var xs := [x] + s;
    assert xs[0] == x && xs[1..] == s;
    var fs := MetricRows(s, metric);
    if x.metric == metric && fs != [] {
      assert fs[0] in s;
      assert s[0].year <= fs[0].year;
    }
  }

  /** The step case of MetricRowsInsert: `x` goes after the head of `s`. */
  lemma MetricRowsInsertStep(x: Row, s: seq<Row>, rest: seq<Row>, metric: string)
    requires s != [] && s[0].year < x.year
    requires YearSorted(MetricRows(s, metric)) && YearSorted(MetricRows(s[1..], metric))
    requires MetricRows(rest, metric)
          == if x.metric == metric then InsertByYear(x, MetricRows(s[1..], metric)) else MetricRows(s[1..], metric)
    ensures MetricRows([s[0]] + rest, metric)
         == if x.metric == metric then InsertByYear(x, MetricRows(s, metric)) else MetricRows(s, metric)
  {
    var ys := [s[0]] + rest;
    assert ys[0] == s[0] && ys[1..] == rest;
    var ft := MetricRows(s[1..], metric);
    if s[0].metric == metric {
      assert MetricRows(ys, metric) == [s[0]] + MetricRows(rest, metric);
      assert MetricRows(s, metric) == [s[0]] + ft;
      if x.metric == metric {
        InsertByYearStep(x, s[0], ft);
      }
    } else {
      assert MetricRows(ys, metric) == MetricRows(rest, metric);
      assert MetricRows(s, metric) == ft;
    }
  }

  /** A row later than the head is inserted into the tail. */
  lemma InsertByYearStep(x: Row, h: Row, t: seq<Row>)
    requires YearSorted([h] + t) && YearSorted(t) && h.year < x.year
    ensures InsertByYear(x, [h] + t) == [h] + InsertByYear(x, t)
  {
    var s := [h] + t;
    assert s[0] == h && s[1..] == t;
  }

  lemma {:induction false} MetricRowsInsert(x: Row, s: seq<Row>, metric: string)
    requires YearSorted(s)
    ensures YearSorted(MetricRows(s, metric))
    ensures MetricRows(InsertByYear(x, s), metric)
         == if x.metric == metric then InsertByYear(x, MetricRows(s, metric)) else MetricRows(s, metric)
    decreases |s|
  {
    MetricRowsSorted(s, metric);
    if s == [] || x.year <= s[0].year {
      MetricRowsInsertFront(x, s, metric);
    } else {
      MetricRowsInsert(x, s[1..], metric);
      MetricRowsInsertStep(x, s, InsertByYear(x, s[1..]), metric);
    }
  }

  lemma {:induction false} MetricRowsSortByYear(df: seq<Row>, metric: string)
    ensures MetricRows(SortByYear(df), metric) == SortByYear(MetricRows(df, metric))
  {
    if df != [] {
      MetricRowsSortByYear(df[1..], metric);
      MetricRowsInsert(df[0], SortByYear(df[1..]), metric);
      if df[0].metric == metric {
        var fs := [df[0]] + MetricRows(df[1..], metric);
        assert fs[0] == df[0] && fs[1..] == MetricRows(df[1..], metric);
      }
    }
  }

  /**
   * The asset/liability figure holds a "Total Assets" bar series exactly when
   * the dataset has that metric, then a "Total Liabilities" series exactly
   * when it has that one; each is that metric's rows sorted by year, the same
   * series a line chart of the metric would plot. The figure exists always.
   */
  lemma AssetLiabilityTraces(df: seq<Row>)
    ensures AssetLiabilityChart(df)
         == GroupedBars((if HasMetric(df, TotalAssets) then [Trace(TotalAssets, Points(Series(df, TotalAssets)))] else [])
                      + (if HasMetric(df, TotalLiabilities) then [Trace(TotalLiabilities, Points(Series(df, TotalLiabilities)))] else []))
  {
    MetricRowsSortByYear(df, TotalAssets);
    MetricRowsSortByYear(df, TotalLiabilities);
  }

  /** The points of some rows are the (year, value) pairs of exactly those rows, in order. */
  lemma PointsMembers(rows: seq<Row>)
    ensures forall p :: p in Points(rows) <==> exists row :: row in rows && p == Point(row.year, row.value)
  {
    forall p | p in Points(rows)
      ensures exists row :: row in rows && p == Point(row.year, row.value)
    {
      var k :| 0 <= k < |Points(rows)| && Points(rows)[k] == p;
      assert rows[k] in rows;
    }
    forall row | row in rows
      ensures Point(row.year, row.value) in Points(rows)
    {
      var k :| 0 <= k < |rows| && rows[k] == row;
      assert Points(rows)[k] == Point(row.year, row.value);
    }
  }

  /** A series holds exactly the rows of its metric. */
  lemma SeriesMembers(df: seq<Row>, metric: string)
    ensures forall row :: row in Series(df, metric) <==> row in df && row.metric == metric
  {
    var s, m := Series(df, metric), MetricRows(df, metric);
    assert forall row :: row in s <==> row in multiset(s);
    assert forall row :: row in m <==> row in multiset(m);
  }

  /**
   * A line or bar chart of one metric plots exactly that metric's rows, as
   * (year, value) points in year order.
   */
  lemma SeriesPoints(df: seq<Row>, metric: string)
    ensures forall p :: p in Points(Series(df, metric)) <==>
      exists row :: row in df && row.metric == metric && p == Point(row.year, row.value)
    ensures forall i, j :: 0 <= i < j < |Points(Series(df, metric))| ==>
      Points(Series(df, metric))[i].year <= Points(Series(df, metric))[j].year
  {
    PointsMembers(Series(df, metric));
    SeriesMembers(df, metric);
  }

}
