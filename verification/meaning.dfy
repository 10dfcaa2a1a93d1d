/** The origin/meaning line under the chart (names.js, `displayMeaning`). */
module Meaning {
  import opened Wrappers
  import opened Records

  const MeaningPrefix: string := "Origin/Meaning: "
  const MissingMeaning: string := "(Nothing for you here! Whoops!)"
  const Fallback: string := MeaningPrefix + MissingMeaning

  /** `data.length > 0 && data[0].meaning` is truthy: the first row has a non-empty meaning. */
  predicate HasMeaning(data: seq<Record>) {
    |data| > 0 && data[0].meaning.Some? && data[0].meaning.value != ""
  }

  function MeaningText(data: seq<Record>): (t: string)
    ensures MeaningPrefix <= t
    ensures HasMeaning(data) ==> t[|MeaningPrefix|..] == data[0].meaning.value
    ensures !HasMeaning(data) ==> t == Fallback
  {
    if HasMeaning(data) then MeaningPrefix + data[0].meaning.value else Fallback
  }

  /** Only the first row's meaning matters; the other rows are ignored. */
  lemma MeaningFromFirstRow(data: seq<Record>, other: seq<Record>)
    requires |data| > 0 && |other| > 0 && data[0].meaning == other[0].meaning
    ensures MeaningText(data) == MeaningText(other)
  {
  }

  /** Two present meanings are shown alike exactly when they are equal. */
  lemma MeaningInjective(d1: seq<Record>, d2: seq<Record>)
    requires HasMeaning(d1) && HasMeaning(d2)
    ensures MeaningText(d1) == MeaningText(d2) <==> d1[0].meaning == d2[0].meaning
  {
    if MeaningText(d1) == MeaningText(d2) {
      assert MeaningText(d1)[|MeaningPrefix|..] == MeaningText(d2)[|MeaningPrefix|..];
    }
  }

  /** A first row whose meaning is literally the placeholder text reads the same as no meaning. */
  lemma PlaceholderMeaningIndistinguishable(r: Record)
    requires r.meaning == Some(MissingMeaning)
    ensures MeaningText([r]) == MeaningText([])
  {
    assert HasMeaning([r]);
  }
}
