/**
 * The chooser data both widgets display: the host's `SendableChooserData`,
 * reduced to the four values the widgets read, the keys that name them, and
 * the text of the "active option" tooltip.
 */
module Chooser {
  import opened Wrappers

  /** A snapshot of a chooser: its options, default, operator-selected and robot-confirmed options. */
  datatype ChooserData = ChooserData(options: seq<string>, defaultOption: string, selectedOption: string, activeOption: string) {

    /** `withSelectedOption(s)`: the same snapshot with a new selected option. */
    function WithSelectedOption(s: string): (r: ChooserData)
      ensures r.selectedOption == s
      ensures r.options == options && r.defaultOption == defaultOption && r.activeOption == activeOption
    {
      this.(selectedOption := s)
    }

    /** The confirmation the widgets draw: the robot runs exactly what the operator selected. */
    predicate Confirmed() {
      activeOption == selectedOption
    }
  }

  /** `OPTIONS_KEY`, `DEFAULT_OPTION_KEY`, `SELECTED_OPTION_KEY` and the active-option key. */
  datatype Key = OptionsKey | DefaultOptionKey | SelectedOptionKey | ActiveOptionKey

  const AllKeys: set<Key> := {OptionsKey, DefaultOptionKey, SelectedOptionKey, ActiveOptionKey}

  /** The value a key names in a snapshot. */
  function Field(d: ChooserData, k: Key): seq<string> {
    match k
    case OptionsKey => d.options
    case DefaultOptionKey => [d.defaultOption]
    case SelectedOptionKey => [d.selectedOption]
    case ActiveOptionKey => [d.activeOption]
  }

  /**
   * Reference definition of `current.changesFrom(previous)`: every key when
   * there is no previous snapshot, otherwise the keys whose values differ.
   */
  function ChangesFrom(previous: Option<ChooserData>, current: ChooserData): (changes: set<Key>)
    ensures changes <= AllKeys
    ensures previous.None? ==> changes == AllKeys
    ensures previous.Some? ==> forall k :: k in changes <==> Field(previous.value, k) != Field(current, k)
  {
    if previous.None? then AllKeys
    else
      var p := previous.value;
      (if p.options != current.options then {OptionsKey} else {})
      + (if p.defaultOption != current.defaultOption then {DefaultOptionKey} else {})
      + (if p.selectedOption != current.selectedOption then {SelectedOptionKey} else {})
      + (if p.activeOption != current.activeOption then {ActiveOptionKey} else {})
  }

  /** No key changes exactly when the two snapshots are equal. */
  lemma NoChangesIffEqual(p: ChooserData, c: ChooserData)
    ensures ChangesFrom(Some(p), c) == {} <==> p == c
  {
  }

  /**
   * A first observation reports every key as changed. This repeats the first
   * clause of `ChangesFrom`'s contract as a lemma of its own, for readers
   * looking for the property by name.
   */
  lemma FirstObservationChangesAll(c: ChooserData)
    ensures ChangesFrom(None, c) == AllKeys
  {
  }

  /** Selecting an option changes at most the selected-option key. */
  lemma WithSelectedOptionChanges(d: ChooserData, s: string)
    ensures ChangesFrom(Some(d), d.WithSelectedOption(s)) == (if s == d.selectedOption then {} else {SelectedOptionKey})
  {
  }

  const TooltipPrefix: string := "Active option: '"

  /** The text bound to the confirmation label's tooltip. */
  function ActiveTooltip(d: ChooserData): string {
    TooltipPrefix + d.activeOption + "'"
  }

  /** The tooltip quotes the active option in full: it can be read back from the text. */
  lemma TooltipQuotesActive(d: ChooserData)
    ensures |ActiveTooltip(d)| == |TooltipPrefix| + |d.activeOption| + 1
    ensures ActiveTooltip(d)[|TooltipPrefix|..|ActiveTooltip(d)| - 1] == d.activeOption
  {
  }
}
