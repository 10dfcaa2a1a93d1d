/**
 * The `<option>` list of the name selector (names.js, `populateDropdown`):
 * an empty-valued prompt followed by one option per catalog name.
 */
module Dropdown {

  /** One `<option>`: its `value` attribute and its visible `text`. */
  datatype Choice = Choice(value: string, text: string)

  const PromptLabel: string := "Select a name..."
  const Prompt: Choice := Choice("", PromptLabel)

  function Options(names: seq<string>): (opts: seq<Choice>)
    ensures |opts| == |names| + 1
    ensures opts[0] == Prompt
    ensures forall i :: 0 <= i < |names| ==> opts[i + 1] == Choice(names[i], names[i])
    decreases |names|
  {
    if |names| == 0 then [Prompt]
    else
      var last := names[|names| - 1];
      Options(names[..|names| - 1]) + [Choice(last, last)]
  }

  /** The value of each option. */
  function Values(opts: seq<Choice>): seq<string> {
    seq(|opts|, i requires 0 <= i < |opts| => opts[i].value)
  }

  /** Reading the values back past the prompt gives the catalog unchanged. */
  lemma OptionsRoundTrip(names: seq<string>)
    ensures Values(Options(names)[1..]) == names
  {
    var opts := Options(names);
    assert forall i :: 0 <= i < |names| ==> Values(opts[1..])[i] == opts[i + 1].value;
  }
}
