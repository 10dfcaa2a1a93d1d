/** Worked inputs for the normaliser: the ranks {5, 50}, a top-ten run, and a negative rank. */
module ChartExamples {
  import opened Wrappers
  import opened Records
  import opened Normalizer

  /** Rank 5 in 2014 and rank 50 in 2015. */
  const FiveAndFifty: seq<Record> :=
    [Record("Ava", "2014", Some(5), None), Record("Ava", "2015", Some(50), None)]

  /** The best rank fills the bar, the worst draws nothing, an absent year draws nothing. */
  lemma FiveAndFiftyBars()
    ensures Normalize(FiveAndFifty).Bars?
    ensures Normalize(FiveAndFifty).bars[0].height == 180 && Normalize(FiveAndFifty).bars[0].text == Some(5)
    ensures Normalize(FiveAndFifty).bars[1].height == 0 && Normalize(FiveAndFifty).bars[1].text == None
    ensures Normalize(FiveAndFifty).bars[2].height == 0 && Normalize(FiveAndFifty).bars[2].text == None
  {
    FiveAndFiftyFacts();
    BestRankFullHeight(FiveAndFifty, 0, 0, 5, 50);
    WorstRankEmpty(FiveAndFifty, 1, 1, 5, 50);
    MissingYearEmpty(FiveAndFifty, 2);
  }

  lemma FiveAndFiftyFacts()
    ensures LeastRank(FiveAndFifty, 5) && GreatestRank(FiveAndFifty, 50)
    ensures IsLast(FiveAndFifty, 0, AllYears[0]) && IsLast(FiveAndFifty, 1, AllYears[1])
    ensures FiveAndFifty[0].rank == Some(5) && FiveAndFifty[1].rank == Some(50)
    ensures HasRanking(FiveAndFifty)
    ensures forall j :: 0 <= j < |FiveAndFifty| ==> FiveAndFifty[j].year != AllYears[2]
  {
    var rows := FiveAndFifty;
    assert rows[0].rank == Some(5) && rows[1].rank == Some(50);
    assert Ranked(rows[0].rank);
  }

  /** Ranks 1, 2 and 3 in 2014 to 2016 and rank 11 in 2017. */
  const TopThreeThenEleven: seq<Record> :=
    [ Record("Liam", "2014", Some(1), None), Record("Liam", "2015", Some(2), None)
    , Record("Liam", "2016", Some(3), None), Record("Liam", "2017", Some(11), None) ]

  lemma TopTenFlags()
    ensures Normalize(TopThreeThenEleven).Bars?
    ensures Normalize(TopThreeThenEleven).bars[0].popular
    ensures Normalize(TopThreeThenEleven).bars[1].popular
    ensures Normalize(TopThreeThenEleven).bars[2].popular
    ensures !Normalize(TopThreeThenEleven).bars[3].popular
  {
    var rows := TopThreeThenEleven;
    assert Ranked(rows[0].rank);
    assert IsLast(rows, 0, AllYears[0]);
    assert IsLast(rows, 1, AllYears[1]);
    assert IsLast(rows, 2, AllYears[2]);
    assert IsLast(rows, 3, AllYears[3]);
    PopularIff(rows, 0, 0);
    PopularIff(rows, 1, 1);
    PopularIff(rows, 2, 2);
    PopularIff(rows, 3, 3);
  }

  /** Rank -5 in 2014 next to ranks 5 and 10: nothing rejects it. */
  const WithNegativeRank: seq<Record> :=
    [ Record("Mia", "2014", Some(-5), None), Record("Mia", "2015", Some(5), None)
    , Record("Mia", "2016", Some(10), None) ]

  /** A negative rank is drawn taller than the 180-pixel scale: (10 + 5) * 180 / 5. */
  lemma NegativeRankOverflows()
    ensures Normalize(WithNegativeRank).Bars?
    ensures Normalize(WithNegativeRank).bars[0].height == 540
  {
    NegativeRankFacts();
    ScaledHeight(WithNegativeRank, 0, 0, 5, 10);
    assert (10 - -5) * FullHeight / (10 - 5) == 540;
  }

  lemma NegativeRankFacts()
    ensures LeastRank(WithNegativeRank, 5) && GreatestRank(WithNegativeRank, 10)
    ensures IsLast(WithNegativeRank, 0, AllYears[0]) && WithNegativeRank[0].rank == Some(-5)
  {
    var rows := WithNegativeRank;
    assert rows[1].rank == Some(5) && rows[2].rank == Some(10);
    assert IsLast(rows, 0, AllYears[0]);
  }
}
