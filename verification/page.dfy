/**
 * The page as a value: what the selector, the chart area, the meaning line and the
 * error area hold, and how each event of names.js changes them. Network requests are
 * not performed here; a selection returns the name it would fetch.
 */
module Page {
  import opened Wrappers
  import opened Records
  import opened Lexicographic
  import opened Catalog
  import opened Dropdown
  import opened Normalizer
  import opened Meaning

  /** The chart container: emptied, holding the "no ranking data" text, or holding bars. */
  datatype Graph = Blank | Notice(message: string) | Drawn(bars: seq<Bar>)

  datatype View = View(options: seq<Choice>, enabled: bool, graph: Graph, meaning: string, error: string)

  /** A view after an event, with the name whose rows are requested, if any. */
  datatype Step = Step(view: View, request: Option<string>)

  function Render(chart: Chart): Graph {
    match chart
    case NoData => Notice(NoRankingText)
    case Bars(bars) => Drawn(bars)
  }

  /** The full dataset arrived: build the catalog, fill the selector and enable it. */
  function OnNamesLoaded(v: View, rows: seq<Record>): (r: View)
    ensures |r.options| >= 1 && r.options[0] == Prompt
    ensures forall k :: 1 <= k < |r.options| ==> r.options[k].text == r.options[k].value
    ensures forall p, q :: 1 <= p < q < |r.options| ==> Less(r.options[p].value, r.options[q].value)
    ensures forall n :: HasName(rows, n) <==> exists k :: 1 <= k < |r.options| && r.options[k].value == n
    ensures r.enabled
    ensures r.graph == v.graph && r.meaning == v.meaning && r.error == v.error
  {
    var names := BuildCatalog(rows);
    var opts := Options(names);
    assert forall p, q :: 1 <= p < q < |opts| ==> opts[p].value == names[p - 1] && opts[q].value == names[q - 1];
    forall n
      ensures HasName(rows, n) <==> exists k :: 1 <= k < |opts| && opts[k].value == n
    {
      if HasName(rows, n) {
        var i :| 0 <= i < |names| && names[i] == n;
        assert opts[i + 1].value == n;
      }
      if exists k :: 1 <= k < |opts| && opts[k].value == n {
        var k :| 1 <= k < |opts| && opts[k].value == n;
        assert names[k - 1] == n;
      }
    }
    v.(options := opts, enabled := true)
  }

  /** The rows of the selected name arrived: redraw the chart and the meaning line. */
  function OnDetailsLoaded(v: View, data: seq<Record>): (r: View)
    ensures !r.graph.Blank?
    ensures r.graph.Notice? <==> forall k :: 0 <= k < |data| ==> !Ranked(data[k].rank)
    ensures r.graph.Notice? ==> r.graph.message == NoRankingText
    ensures r.graph.Drawn? ==> r.graph.bars == Normalize(data).bars && |r.graph.bars| == |AllYears|
    ensures r.meaning == MeaningText(data)
    ensures r.options == v.options && r.enabled == v.enabled && r.error == v.error
  {
    v.(graph := Render(Normalize(data)), meaning := MeaningText(data))
  }

  /** The selector changed: a non-empty value is fetched, the empty value clears the output. */
  function OnChange(v: View, selected: string): (s: Step)
    ensures selected == "" ==> s.request == None
    ensures selected == "" ==> s.view.graph == Blank && s.view.meaning == "" && s.view.error == ""
    ensures selected == "" ==> s.view.options == v.options && s.view.enabled == v.enabled
    ensures selected != "" ==> s.request == Some(selected) && s.view == v
  {
    if selected != "" then Step(v, Some(selected))
    else Step(v.(graph := Blank, meaning := "", error := ""), None)
  }

  /** Picking the prompt clears the chart, meaning and error and requests nothing. */
  lemma PromptResets(v: View, names: seq<string>)
    ensures OnChange(v, Options(names)[0].value).request == None
    ensures OnChange(v, Options(names)[0].value).view == v.(graph := Blank, meaning := "", error := "")
  {
  }

  /** Picking a catalog entry with a non-empty name requests exactly that name, which is in the data. */
  lemma CatalogChoiceRequestsName(v: View, rows: seq<Record>, k: int)
    requires 1 <= k < |OnNamesLoaded(v, rows).options|
    requires OnNamesLoaded(v, rows).options[k].value != ""
    ensures var n := OnNamesLoaded(v, rows).options[k].value;
      && OnChange(OnNamesLoaded(v, rows), n).request == Some(n)
      && HasName(rows, n)
  {
  }

  /**
   * A row whose name is empty gives an option that behaves like the prompt: the empty
   * name sorts first, so it is the option right after the prompt, and picking it clears
   * the output instead of fetching.
   */
  lemma EmptyNameActsAsPrompt(v: View, rows: seq<Record>)
    requires HasName(rows, "")
    ensures var loaded := OnNamesLoaded(v, rows);
      && |loaded.options| >= 2
      && loaded.options[1].value == ""
      && OnChange(loaded, loaded.options[1].value) == Step(loaded.(graph := Blank, meaning := "", error := ""), None)
  {
    var loaded := OnNamesLoaded(v, rows);
    var k :| 1 <= k < |loaded.options| && loaded.options[k].value == "";
    assert !Less(loaded.options[1].value, "");
  }

  /** Clearing after a load leaves the same view as clearing before it. */
  lemma ResetDiscardsLoad(v: View, data: seq<Record>)
    ensures OnChange(OnDetailsLoaded(v, data), "").view == OnChange(v, "").view
  {
  }
}
