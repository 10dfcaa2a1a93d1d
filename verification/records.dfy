/**
 * The rows served by the remote sheet. Only the columns the page reads are kept;
 * `rank` is the row's rank after `parseInt`, with None standing for NaN, and
 * `meaning` is None when the column is absent.
 */
module Records {
  import opened Wrappers

  datatype Record = Record(name: string, year: string, rank: Option<int>, meaning: Option<string>)

  /** The fixed x-axis of the chart: ten consecutive years, whatever the data covers. */
  const AllYears: seq<string> :=
    ["2014", "2015", "2016", "2017", "2018", "2019", "2020", "2021", "2022", "2023"]

  /** Some row carries the name `n`. */
  ghost predicate HasName(rows: seq<Record>, n: string) {
    exists i :: 0 <= i < |rows| && rows[i].name == n
  }
}
