/**
 * The tidy dataset the dashboard builds from the store's query: one row per
 * (year, metric) with its numeric value, the columns `year`, `metric` and
 * `value` of the pandas frame handed to the chat and the charts.
 */
module Tidy {

  datatype Row = Row(year: int, metric: string, value: real)

  /** `metric in df['metric'].unique()`. */
  predicate HasMetric(df: seq<Row>, metric: string)
  {
    exists i :: 0 <= i < |df| && df[i].metric == metric
  }

}
