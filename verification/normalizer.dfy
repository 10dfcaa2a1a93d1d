/**
 * The bar chart of `displayGraph` (names.js): the rows of one name become one bar
 * per year of the fixed axis, taller for better (smaller) ranks, or the terminal
 * "no ranking data" state when no row carries a positive rank.
 */
module Normalizer {
  import opened Wrappers
  import opened Records

  /**
   * One column of the chart: the year caption, the common left offset of the bar and
   * its caption, the bar height in pixels, the rank printed on the bar (None when the
   * bar is empty) and the top-ten highlight.
   */
  datatype Bar = Bar(year: string, left: int, height: int, text: Option<int>, popular: bool)

  datatype Chart = NoData | Bars(bars: seq<Bar>)

  const LeftMargin: int := 10
  const Stride: int := 60
  const FullHeight: int := 180
  const TiedHeight: int := 80
  const PopularCutoff: int := 10
  const NoRankingText: string := "This name has no ranking data."

  /** A parsed rank that counts as ranked: a number above zero (NaN never does). */
  predicate Ranked(o: Option<int>) {
    o.Some? && o.value > 0
  }

  /** `rankValue || 0`: NaN and a missing entry both read as 0. */
  function RankOrZero(o: Option<int>): int {
    match o
    case None => 0
    case Some(v) => v
  }

  /** Row `k` is the last row for year `y`. */
  ghost predicate IsLast(rows: seq<Record>, k: int, y: string) {
    0 <= k < |rows| && rows[k].year == y && forall j :: k < j < |rows| ==> rows[j].year != y
  }

  /** Some row carries a positive parsed rank, so the chart is drawn. */
  ghost predicate HasRanking(rows: seq<Record>) {
    exists k :: 0 <= k < |rows| && Ranked(rows[k].rank)
  }

  /**
   * The rank the chart shows for year `y`, found by scanning the rows from the end:
   * that of the last row for `y`, with NaN read as 0, or 0 when no row has year `y`.
   */
  ghost function ShownRank(rows: seq<Record>, y: string): int
    decreases |rows|
  {
    if |rows| == 0 then 0
    else if rows[|rows| - 1].year == y then RankOrZero(rows[|rows| - 1].rank)
    else ShownRank(rows[..|rows| - 1], y)
  }

  /** `lo` is the smallest positive parsed rank among the rows. */
  ghost predicate LeastRank(rows: seq<Record>, lo: int) {
    && lo > 0
    && (exists k :: 0 <= k < |rows| && rows[k].rank == Some(lo))
    && forall k :: 0 <= k < |rows| && Ranked(rows[k].rank) ==> lo <= rows[k].rank.value
  }

  /** `hi` is the largest positive parsed rank among the rows. */
  ghost predicate GreatestRank(rows: seq<Record>, hi: int) {
    && hi > 0
    && (exists k :: 0 <= k < |rows| && rows[k].rank == Some(hi))
    && forall k :: 0 <= k < |rows| && Ranked(rows[k].rank) ==> rows[k].rank.value <= hi
  }

  /** The `yearToRank` dictionary: rows are assigned in order, so a later row for a year wins. */
  function YearToRank(rows: seq<Record>): (m: map<string, Option<int>>)
    ensures forall y :: y in m <==> exists k :: 0 <= k < |rows| && rows[k].year == y
    ensures forall k :: 0 <= k < |rows| && IsLast(rows, k, rows[k].year) ==> m[rows[k].year] == rows[k].rank
    decreases |rows|
  {
    if |rows| == 0 then map[]
    else
      var m := YearToRank(rows[..|rows| - 1]);
      YearToRankStep(rows, m);
      m[rows[|rows| - 1].year := rows[|rows| - 1].rank]
  }

  /** Assigning the last row on top of the dictionary of the rows before it. */
  lemma YearToRankStep(rows: seq<Record>, m: map<string, Option<int>>)
    requires |rows| > 0
    requires var prefix := rows[..|rows| - 1];
      && (forall y :: y in m <==> exists k :: 0 <= k < |prefix| && prefix[k].year == y)
      && (forall k :: 0 <= k < |prefix| && IsLast(prefix, k, prefix[k].year) ==> m[prefix[k].year] == prefix[k].rank)
    ensures var r := m[rows[|rows| - 1].year := rows[|rows| - 1].rank];
      && (forall y :: y in r <==> exists k :: 0 <= k < |rows| && rows[k].year == y)
      && (forall k :: 0 <= k < |rows| && IsLast(rows, k, rows[k].year) ==> r[rows[k].year] == rows[k].rank)
  {
    var n := |rows| - 1;
    var prefix, last := rows[..n], rows[n];
    var r := m[last.year := last.rank];
    forall y
      ensures y in r <==> exists k :: 0 <= k < |rows| && rows[k].year == y
    {
      YearKeyStep(rows, m, y);
    }
    forall k | 0 <= k < |rows| && IsLast(rows, k, rows[k].year)
      ensures r[rows[k].year] == rows[k].rank
    {
      if k < n {
        LastInPrefix(rows, k);
      }
    }
  }

  lemma YearKeyStep(rows: seq<Record>, m: map<string, Option<int>>, y: string)
    requires |rows| > 0
    requires var prefix := rows[..|rows| - 1];
      forall y :: y in m <==> exists k :: 0 <= k < |prefix| && prefix[k].year == y
    ensures y in m || y == rows[|rows| - 1].year <==> exists k :: 0 <= k < |rows| && rows[k].year == y
  {
    var n := |rows| - 1;
    var prefix := rows[..n];
    if y in m {
      var k :| 0 <= k < |prefix| && prefix[k].year == y;
      assert rows[k] == prefix[k];
    }
    if y != rows[n].year && exists k :: 0 <= k < |rows| && rows[k].year == y {
      var k :| 0 <= k < |rows| && rows[k].year == y;
      assert k < n && prefix[k] == rows[k];
    }
  }

  /** The last row of a year before the final row is also the last row of that year in the prefix. */
  lemma LastInPrefix(rows: seq<Record>, k: int)
    requires 0 <= k < |rows| - 1 && IsLast(rows, k, rows[k].year)
    ensures rows[k].year != rows[|rows| - 1].year
    ensures IsLast(rows[..|rows| - 1], k, rows[..|rows| - 1][k].year)
  {
    var prefix := rows[..|rows| - 1];
    assert prefix[k] == rows[k];
    assert forall j :: k < j < |prefix| ==> prefix[j] == rows[j];
  }

  /** `yearToRank[year] || 0` */
  function LookupRank(m: map<string, Option<int>>, y: string): int {
    if y in m then RankOrZero(m[y]) else 0
  }

  /** `rankings.map(item => parseInt(item.rank)).filter(rank => rank > 0)` */
  function PositiveRanks(rows: seq<Record>): (ranks: seq<int>)
    ensures forall r :: r in ranks <==> exists k :: 0 <= k < |rows| && rows[k].rank == Some(r) && r > 0
    decreases |rows|
  {
    if |rows| == 0 then []
    else
      var prefix := rows[..|rows| - 1];
      var rest := PositiveRanks(prefix);
      assert forall k :: 0 <= k < |prefix| ==> prefix[k] == rows[k];
      match rows[|rows| - 1].rank
      case Some(r) => if r > 0 then rest + [r] else rest
      case None => rest
  }

  /** `Math.min(...s)` */
  function MinOf(s: seq<int>): (lo: int)
    requires |s| > 0
    ensures lo in s
    ensures forall x :: x in s ==> lo <= x
    decreases |s|
  {
    if |s| == 1 then s[0]
    else
      var t := MinOf(s[1..]);
      assert s == [s[0]] + s[1..];
      if s[0] <= t then s[0] else t
  }

  /** `Math.max(...s)` */
  function MaxOf(s: seq<int>): (hi: int)
    requires |s| > 0
    ensures hi in s
    ensures forall x :: x in s ==> x <= hi
    decreases |s|
  {
    if |s| == 1 then s[0]
    else
      var t := MaxOf(s[1..]);
      assert s == [s[0]] + s[1..];
      if s[0] >= t then s[0] else t
  }

  /**
   * The bar height for a year whose rank reads `rank`, given the extreme ranks.
   * `Math.floor(((hi - rank) / (hi - lo)) * 180)` is taken as exact floor division.
   */
  function BarHeight(rank: int, lo: int, hi: int): int
    requires lo <= hi
  {
    if rank == 0 then 0
    else if lo == hi then TiedHeight
    else Scale(hi - rank, hi - lo)
  }

  /** `Math.floor((n / d) * 180)` in exact arithmetic. */
  function Scale(n: int, d: int): int
    requires d > 0
  {
    n * FullHeight / d
  }

  /** The bar and caption drawn for axis position `i`. */
  function MakeBar(i: int, rank: int, lo: int, hi: int): Bar
    requires 0 <= i < |AllYears|
    requires lo <= hi
  {
    var h := BarHeight(rank, lo, hi);
    Bar(AllYears[i], LeftMargin + Stride * i, h, if h > 0 then Some(rank) else None, 0 < rank <= PopularCutoff)
  }


  /**
   * What bar `i` of the axis looks like for a year whose rank reads `rank`, when `lo`
   * and `hi` are the least and greatest positive ranks.
   */
  ghost predicate DrawnAs(b: Bar, i: int, rank: int, lo: int, hi: int) {
    && 0 <= i < |AllYears|
    && b.year == AllYears[i]
    && b.left == LeftMargin + Stride * i
    && (rank == 0 ==> b.height == 0)
    && (rank != 0 && lo == hi ==> b.height == TiedHeight)
    && (rank != 0 && lo < hi ==> b.height == (hi - rank) * FullHeight / (hi - lo))
    && (b.text.Some? <==> b.height > 0)
    && (b.text.Some? ==> b.text.value == rank)
    && (b.popular <==> 0 < rank <= PopularCutoff)
  }

  /**
   * `displayGraph` without the DOM: "no ranking data" when no row has a positive rank,
   * otherwise one bar per axis year, drawn from the rank that year shows.
   */
  function Normalize(rows: seq<Record>): (chart: Chart)
    ensures chart.NoData? <==> !HasRanking(rows)
    ensures chart.Bars? ==> |chart.bars| == |AllYears|
    ensures chart.Bars? ==> forall lo, hi :: LeastRank(rows, lo) && GreatestRank(rows, hi) ==>
              forall i :: 0 <= i < |AllYears| ==> DrawnAs(chart.bars[i], i, ShownRank(rows, AllYears[i]), lo, hi)
  {
    var ranks := PositiveRanks(rows);
    if |ranks| == 0 then
      assert forall k :: 0 <= k < |rows| && Ranked(rows[k].rank) ==> rows[k].rank.value in ranks;
      NoData
    else
      var lo := MinOf(ranks);
      var hi := MaxOf(ranks);
      var m := YearToRank(rows);
      assert HasRanking(rows) by {
        assert ranks[0] in ranks;
      }
      BarsAreDrawn(rows);
      Bars(seq(|AllYears|, i requires 0 <= i < |AllYears| => MakeBar(i, LookupRank(m, AllYears[i]), lo, hi)))
  }

  /** The bars `Normalize` builds from the dictionary are drawn from the shown ranks. */
  lemma BarsAreDrawn(rows: seq<Record>)
    requires |PositiveRanks(rows)| > 0
    ensures var ranks := PositiveRanks(rows);
      forall lo, hi, i :: LeastRank(rows, lo) && GreatestRank(rows, hi) && 0 <= i < |AllYears| ==>
        DrawnAs(MakeBar(i, LookupRank(YearToRank(rows), AllYears[i]), MinOf(ranks), MaxOf(ranks)),
                i, ShownRank(rows, AllYears[i]), lo, hi)
  {
    var ranks := PositiveRanks(rows);
    forall lo, hi, i | LeastRank(rows, lo) && GreatestRank(rows, hi) && 0 <= i < |AllYears|
      ensures DrawnAs(MakeBar(i, LookupRank(YearToRank(rows), AllYears[i]), MinOf(ranks), MaxOf(ranks)),
                      i, ShownRank(rows, AllYears[i]), lo, hi)
    {
      ExtremesAreMinMax(rows, lo, hi);
      LookupIsShownRank(rows, AllYears[i]);
    }
  }

  // ---- The dictionary lookup reads the last row of the year ----

  /** `yearToRank[y] || 0` agrees with scanning the rows from the end. */
  lemma {:induction false} LookupIsShownRank(rows: seq<Record>, y: string)
    ensures LookupRank(YearToRank(rows), y) == ShownRank(rows, y)
    decreases |rows|
  {
    if |rows| > 0 {
      LookupIsShownRank(rows[..|rows| - 1], y);
    }
  }

  /** The rank a year shows is that of its last row, NaN read as 0. */
  lemma {:induction false} ShownRankOfLast(rows: seq<Record>, k: int, y: string)
    requires IsLast(rows, k, y)
    ensures ShownRank(rows, y) == RankOrZero(rows[k].rank)
    decreases |rows|
  {
    var n := |rows| - 1;
    if k < n {
      var prefix := rows[..n];
      assert rows[n].year != y;
      assert prefix[k] == rows[k];
      assert forall j :: k < j < |prefix| ==> prefix[j] == rows[j];
      ShownRankOfLast(prefix, k, y);
    }
  }

  /** A year no row mentions shows rank 0. */
  lemma {:induction false} ShownRankOfMissing(rows: seq<Record>, y: string)
    requires forall j :: 0 <= j < |rows| ==> rows[j].year != y
    ensures ShownRank(rows, y) == 0
    decreases |rows|
  {
    if |rows| > 0 {
      var prefix := rows[..|rows| - 1];
      assert forall j :: 0 <= j < |prefix| ==> prefix[j] == rows[j];
      ShownRankOfMissing(prefix, y);
    }
  }

  /** Some row for year `y` exists, so a last one does. */
  lemma {:induction false} LastRecordFor(rows: seq<Record>, y: string) returns (k: int)
    requires exists i :: 0 <= i < |rows| && rows[i].year == y
    ensures IsLast(rows, k, y)
    decreases |rows|
  {
    var n := |rows| - 1;
    if rows[n].year == y {
      k := n;
    } else {
      var prefix := rows[..n];
      var i :| 0 <= i < |rows| && rows[i].year == y;
      assert prefix[i] == rows[i];
      k := LastRecordFor(prefix, y);
      assert forall j :: k < j < n ==> prefix[j] == rows[j];
    }
  }

  // ---- The extremes of the positive ranks ----

  lemma MinMaxAreExtremes(rows: seq<Record>)
    requires HasRanking(rows)
    ensures |PositiveRanks(rows)| > 0
    ensures LeastRank(rows, MinOf(PositiveRanks(rows)))
    ensures GreatestRank(rows, MaxOf(PositiveRanks(rows)))
  {
    var ranks := PositiveRanks(rows);
    var k :| 0 <= k < |rows| && Ranked(rows[k].rank);
    assert rows[k].rank.value in ranks;
    forall j | 0 <= j < |rows| && Ranked(rows[j].rank)
      ensures rows[j].rank.value in ranks
    {
    }
  }

  /** The least and greatest positive ranks are what `Math.min` and `Math.max` return. */
  lemma ExtremesAreMinMax(rows: seq<Record>, lo: int, hi: int)
    requires LeastRank(rows, lo) && GreatestRank(rows, hi)
    ensures |PositiveRanks(rows)| > 0
    ensures MinOf(PositiveRanks(rows)) == lo && MaxOf(PositiveRanks(rows)) == hi
  {
    var k :| 0 <= k < |rows| && rows[k].rank == Some(lo);
    assert Ranked(rows[k].rank);
    MinMaxAreExtremes(rows);
    var ranks := PositiveRanks(rows);
    assert lo in ranks;
    var k' :| 0 <= k' < |rows| && rows[k'].rank == Some(hi);
    assert hi in ranks;
    var a :| 0 <= a < |rows| && rows[a].rank == Some(MinOf(ranks)) && MinOf(ranks) > 0;
    var b :| 0 <= b < |rows| && rows[b].rank == Some(MaxOf(ranks)) && MaxOf(ranks) > 0;
    assert Ranked(rows[a].rank) && Ranked(rows[b].rank);
  }

  /** A drawn chart has a least and a greatest positive rank. */
  lemma ExtremesExist(rows: seq<Record>) returns (lo: int, hi: int)
    requires HasRanking(rows)
    ensures LeastRank(rows, lo) && GreatestRank(rows, hi) && lo <= hi
  {
    MinMaxAreExtremes(rows);
    lo, hi := MinOf(PositiveRanks(rows)), MaxOf(PositiveRanks(rows));
    assert lo in PositiveRanks(rows);
  }

  // ---- Arithmetic of the scaling ----

  lemma ScaleInRange(n: int, d: int)
    requires 0 <= n <= d && 0 < d
    ensures 0 <= Scale(n, d) <= FullHeight
  {
    var q := n * FullHeight / d;
    assert d * q <= n * FullHeight <= d * FullHeight;
  }

  lemma ScaleMonotone(n1: int, n2: int, d: int)
    requires 0 <= n1 <= n2 && 0 < d
    ensures Scale(n1, d) <= Scale(n2, d)
  {
    var a, b := n1 * FullHeight, n2 * FullHeight;
    var qa, qb := a / d, b / d;
    assert d * qa <= a <= b < d * (qb + 1);
  }

  lemma ScaleEnds(d: int)
    requires 0 < d
    ensures Scale(d, d) == FullHeight && Scale(0, d) == 0
  {
    var q, r := d * FullHeight / d, d * FullHeight % d;
    assert d * FullHeight == d * q + r && 0 <= r < d;
    assert d * (FullHeight - q) == r;
    assert q == FullHeight;
  }

  // ---- Properties of the chart, read through the rows ----

  /** The top-ten highlight depends on the rank of the year's last row alone, not on the height. */
  lemma PopularIff(rows: seq<Record>, i: int, k: int)
    requires HasRanking(rows)
    requires 0 <= i < |AllYears| && IsLast(rows, k, AllYears[i])
    ensures Normalize(rows).Bars?
    ensures Normalize(rows).bars[i].popular <==> 1 <= RankOrZero(rows[k].rank) <= PopularCutoff
  {
    var lo, hi := ExtremesExist(rows);
    ShownRankOfLast(rows, k, AllYears[i]);
  }

  /** A bar carries text exactly when it has height, and the text is the rank of the year's last row. */
  lemma TextIffHeight(rows: seq<Record>, i: int, k: int)
    requires HasRanking(rows)
    requires 0 <= i < |AllYears| && IsLast(rows, k, AllYears[i])
    ensures Normalize(rows).Bars?
    ensures Normalize(rows).bars[i].text.Some? <==> Normalize(rows).bars[i].height > 0
    ensures Normalize(rows).bars[i].text.Some? ==> Normalize(rows).bars[i].text.value == RankOrZero(rows[k].rank)
  {
    var lo, hi := ExtremesExist(rows);
    ShownRankOfLast(rows, k, AllYears[i]);
  }

  /** A year whose last row has rank 0 or NaN gets an empty bar with no text and no highlight. */
  lemma UnrankedYearEmpty(rows: seq<Record>, i: int, k: int)
    requires HasRanking(rows)
    requires 0 <= i < |AllYears| && IsLast(rows, k, AllYears[i]) && RankOrZero(rows[k].rank) == 0
    ensures Normalize(rows).Bars?
    ensures Normalize(rows).bars[i].height == 0
    ensures Normalize(rows).bars[i].text == None
    ensures !Normalize(rows).bars[i].popular
  {
    var lo, hi := ExtremesExist(rows);
    ShownRankOfLast(rows, k, AllYears[i]);
  }

  /** A year no row mentions gets an empty bar with no text and no highlight. */
  lemma MissingYearEmpty(rows: seq<Record>, i: int)
    requires HasRanking(rows)
    requires 0 <= i < |AllYears|
    requires forall j :: 0 <= j < |rows| ==> rows[j].year != AllYears[i]
    ensures Normalize(rows).Bars?
    ensures Normalize(rows).bars[i].height == 0
    ensures Normalize(rows).bars[i].text == None
    ensures !Normalize(rows).bars[i].popular
  {
    var lo, hi := ExtremesExist(rows);
    ShownRankOfMissing(rows, AllYears[i]);
  }

  /** When every positive rank is the same, each year with a non-zero rank gets the flat height. */
  lemma TiedRanksFlat(rows: seq<Record>, i: int, k: int, v: int)
    requires LeastRank(rows, v) && GreatestRank(rows, v)
    requires 0 <= i < |AllYears| && IsLast(rows, k, AllYears[i]) && RankOrZero(rows[k].rank) != 0
    ensures Normalize(rows).Bars?
    ensures Normalize(rows).bars[i].height == TiedHeight
    ensures Normalize(rows).bars[i].text == Some(RankOrZero(rows[k].rank))
  {
    var j :| 0 <= j < |rows| && rows[j].rank == Some(v);
    assert Ranked(rows[j].rank);
    ShownRankOfLast(rows, k, AllYears[i]);
  }

  /** Otherwise a ranked year's height is the floor of its scaled distance from the worst rank. */
  lemma ScaledHeight(rows: seq<Record>, i: int, k: int, lo: int, hi: int)
    requires LeastRank(rows, lo) && GreatestRank(rows, hi) && lo < hi
    requires 0 <= i < |AllYears| && IsLast(rows, k, AllYears[i]) && RankOrZero(rows[k].rank) != 0
    ensures Normalize(rows).Bars?
    ensures Normalize(rows).bars[i].height == (hi - RankOrZero(rows[k].rank)) * FullHeight / (hi - lo)
  {
    var j :| 0 <= j < |rows| && rows[j].rank == Some(lo);
    assert Ranked(rows[j].rank);
    ShownRankOfLast(rows, k, AllYears[i]);
  }

  /** The best rank of the sample draws a full-height bar labelled with that rank. */
  lemma BestRankFullHeight(rows: seq<Record>, i: int, k: int, lo: int, hi: int)
    requires LeastRank(rows, lo) && GreatestRank(rows, hi) && lo < hi
    requires 0 <= i < |AllYears| && IsLast(rows, k, AllYears[i]) && rows[k].rank == Some(lo)
    ensures Normalize(rows).Bars?
    ensures Normalize(rows).bars[i].height == FullHeight
    ensures Normalize(rows).bars[i].text == Some(lo)
  {
    assert Ranked(rows[k].rank);
    ShownRankOfLast(rows, k, AllYears[i]);
    ScaleEnds(hi - lo);
  }

  /** The worst rank of the sample draws an empty bar without text. */
  lemma WorstRankEmpty(rows: seq<Record>, i: int, k: int, lo: int, hi: int)
    requires LeastRank(rows, lo) && GreatestRank(rows, hi) && lo < hi
    requires 0 <= i < |AllYears| && IsLast(rows, k, AllYears[i]) && rows[k].rank == Some(hi)
    ensures Normalize(rows).Bars?
    ensures Normalize(rows).bars[i].height == 0
    ensures Normalize(rows).bars[i].text == None
  {
    assert Ranked(rows[k].rank);
    ShownRankOfLast(rows, k, AllYears[i]);
    ScaleEnds(hi - lo);
  }

  /** A drawn bar of a rank between the extremes, or of rank 0, has a height in [0, 180]. */
  lemma DrawnHeightInRange(b: Bar, i: int, rank: int, lo: int, hi: int)
    requires DrawnAs(b, i, rank, lo, hi)
    requires 0 < lo <= hi && (rank == 0 || lo <= rank <= hi)
    ensures 0 <= b.height <= FullHeight
  {
    if rank != 0 && lo < hi {
      ScaleInRange(hi - rank, hi - lo);
    }
  }

  /** Of two drawn bars with ranks between the extremes, the smaller rank is at least as tall. */
  lemma DrawnHeightAntitone(b1: Bar, i: int, r1: int, b2: Bar, j: int, r2: int, lo: int, hi: int)
    requires DrawnAs(b1, i, r1, lo, hi) && DrawnAs(b2, j, r2, lo, hi)
    requires 0 < lo <= r1 <= r2 <= hi
    ensures b1.height >= b2.height
  {
    if lo < hi {
      ScaleMonotone(hi - r2, hi - r1, hi - lo);
    }
  }

  /** With no negative parsed rank, every bar height lies in [0, 180]. */
  lemma HeightsBounded(rows: seq<Record>)
    requires forall k :: 0 <= k < |rows| && rows[k].rank.Some? ==> rows[k].rank.value >= 0
    requires HasRanking(rows)
    ensures Normalize(rows).Bars?
    ensures forall i :: 0 <= i < |Normalize(rows).bars| ==> 0 <= Normalize(rows).bars[i].height <= FullHeight
  {
    var lo, hi := ExtremesExist(rows);
    var bars := Normalize(rows).bars;
    forall i | 0 <= i < |bars|
      ensures 0 <= bars[i].height <= FullHeight
    {
      var y := AllYears[i];
      assert DrawnAs(bars[i], i, ShownRank(rows, y), lo, hi);
      if exists j :: 0 <= j < |rows| && rows[j].year == y {
        var k := LastRecordFor(rows, y);
        ShownRankOfLast(rows, k, y);
        assert rows[k].rank.Some? && rows[k].rank.value != 0 ==> Ranked(rows[k].rank);
      } else {
        ShownRankOfMissing(rows, y);
      }
      DrawnHeightInRange(bars[i], i, ShownRank(rows, y), lo, hi);
    }
  }

  /** A better (smaller) positive rank never gets a shorter bar. */
  lemma HeightAntitone(rows: seq<Record>, i: int, j: int, ki: int, kj: int)
    requires 0 <= i < |AllYears| && IsLast(rows, ki, AllYears[i])
    requires 0 <= j < |AllYears| && IsLast(rows, kj, AllYears[j])
    requires 0 < RankOrZero(rows[ki].rank) <= RankOrZero(rows[kj].rank)
    ensures Normalize(rows).Bars?
    ensures Normalize(rows).bars[i].height >= Normalize(rows).bars[j].height
  {
    assert Ranked(rows[ki].rank) && Ranked(rows[kj].rank);
    var lo, hi := ExtremesExist(rows);
    var bars := Normalize(rows).bars;
    ShownRankOfLast(rows, ki, AllYears[i]);
    ShownRankOfLast(rows, kj, AllYears[j]);
    assert DrawnAs(bars[i], i, RankOrZero(rows[ki].rank), lo, hi);
    assert DrawnAs(bars[j], j, RankOrZero(rows[kj].rank), lo, hi);
    DrawnHeightAntitone(bars[i], i, RankOrZero(rows[ki].rank), bars[j], j, RankOrZero(rows[kj].rank), lo, hi);
  }
}
