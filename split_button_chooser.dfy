/**
 * The big split-button chooser widget: one toggle button per chooser option,
 * a button is selected by its text, pressing a button selects its option in
 * the chooser data, and a button that is deselected while no other button is
 * selected selects itself again.
 */
module SplitButtonChooser {
  import opened Wrappers
  import opened Chooser

  /** A toggle button: its text and whether it is selected. */
  datatype ToggleButton = ToggleButton(text: string, selected: bool)

  /** `createToggleButton(option)`: a new, unselected button labelled with the option. */
  function CreateToggleButton(option: string): (b: ToggleButton)
    ensures b.text == option && !b.selected
  {
    ToggleButton(option, false)
  }

  /** The buttons `setAll` installs for `options`: the options mapped through `createToggleButton`. */
  function CreateAll(options: seq<string>): (bs: seq<ToggleButton>)
    ensures |bs| == |options|
    ensures forall k :: 0 <= k < |bs| ==> bs[k] == CreateToggleButton(options[k])
  {
    if |options| == 0 then [] else [CreateToggleButton(options[0])] + CreateAll(options[1..])
  }

  /** The texts of the buttons, in order. */
  function Texts(bs: seq<ToggleButton>): seq<string> {
    if |bs| == 0 then [] else [bs[0].text] + Texts(bs[1..])
  }

  lemma {:induction false} TextsAt(bs: seq<ToggleButton>)
    ensures |Texts(bs)| == |bs|
    ensures forall k :: 0 <= k < |bs| ==> Texts(bs)[k] == bs[k].text
  {
    if |bs| > 0 {
      TextsAt(bs[1..]);
    }
  }

  /** Two button rows with the same texts, button by button, have the same texts. */
  lemma SameTexts(bs: seq<ToggleButton>, cs: seq<ToggleButton>)
    requires |bs| == |cs| && forall k :: 0 <= k < |bs| ==> bs[k].text == cs[k].text
    ensures Texts(bs) == Texts(cs)
  {
  }

  /** Rebuilding gives back the options as the button texts, with no button selected. */
  lemma CreateAllTexts(options: seq<string>)
    ensures Texts(CreateAll(options)) == options
    ensures NoneSelected(CreateAll(options))
  {
  }

  predicate NoneSelected(bs: seq<ToggleButton>) {
    forall k :: 0 <= k < |bs| ==> !bs[k].selected
  }

  /** `filter(text equals option).findFirst()`: the first button labelled `option`. */
  function FirstMatch(bs: seq<ToggleButton>, option: string): (r: Option<nat>)
    ensures r.Some? ==> r.value < |bs| && bs[r.value].text == option
    ensures r.Some? ==> forall j :: 0 <= j < r.value ==> bs[j].text != option
    ensures r.None? ==> forall j :: 0 <= j < |bs| ==> bs[j].text != option
  {
    if |bs| == 0 then None
    else if bs[0].text == option then Some(0)
    else match FirstMatch(bs[1..], option)
      case None => None
      case Some(k) => Some(k + 1)
  }

  /**
   * `setSelected(value)` on button `k`, followed by that button's selection
   * listener, which runs only when the value changed and selects the button
   * again when no button is left selected.
   */
  function AfterSetSelected(bs: seq<ToggleButton>, k: nat, value: bool): seq<ToggleButton>
    requires k < |bs|
  {
    if bs[k].selected == value then bs
    else
      var changed := bs[k := bs[k].(selected := value)];
      if NoneSelected(changed) then changed[k := changed[k].(selected := true)] else changed
  }

  /** `selectToggleButton(option)`: selects the first button labelled `option`, if any. */
  function SelectFirst(bs: seq<ToggleButton>, option: string): seq<ToggleButton> {
    match FirstMatch(bs, option)
    case None => bs
    case Some(k) => AfterSetSelected(bs, k, true)
  }

  /** The data listener: rebuild and reselect, then default, then selected. */
  function AfterData(bs: seq<ToggleButton>, changes: set<Key>, d: ChooserData): seq<ToggleButton> {
    var b1 := if OptionsKey in changes then SelectFirst(CreateAll(d.options), d.selectedOption) else bs;
    var b2 := if DefaultOptionKey in changes && NoneSelected(b1) then SelectFirst(b1, d.defaultOption) else b1;
    if SelectedOptionKey in changes then SelectFirst(b2, d.selectedOption) else b2
  }

  /**
   * The never-empty rule: only button `k` can change; if it is set to a value
   * it already has, nothing changes; otherwise it ends up selected exactly when
   * it was selected or no other button is selected; and a row with a selected
   * button keeps one.
   */
  lemma SetSelectedNeverEmpties(bs: seq<ToggleButton>, k: nat, value: bool)
    requires k < |bs|
    ensures var r := AfterSetSelected(bs, k, value);
      && |r| == |bs| && r[k].text == bs[k].text
      && (forall j :: 0 <= j < |bs| && j != k ==> r[j] == bs[j])
      && (bs[k].selected == value ==> r == bs)
      && (bs[k].selected != value ==> (r[k].selected <==> value || forall j :: 0 <= j < |bs| && j != k ==> !bs[j].selected))
      && (!NoneSelected(bs) ==> !NoneSelected(r))
  {
  }

  /** Deselecting the only selected button is undone by its listener. */
  lemma OnlySelectedStaysSelected(bs: seq<ToggleButton>, k: nat)
    requires k < |bs| && bs[k].selected
    requires forall j :: 0 <= j < |bs| && j != k ==> !bs[j].selected
    ensures AfterSetSelected(bs, k, false) == bs
  {
  }

  /**
   * Selecting by text sets `selected` on the first button with that text and
   * touches no other button; without such a button nothing changes.
   */
  lemma SelectFirstTouchesOnlyFirstMatch(bs: seq<ToggleButton>, option: string)
    ensures var r := SelectFirst(bs, option);
      && |r| == |bs| && Texts(r) == Texts(bs)
      && (FirstMatch(bs, option).None? ==> r == bs)
      && (FirstMatch(bs, option).Some? ==>
            var m := FirstMatch(bs, option).value;
            r[m].selected && forall j :: 0 <= j < |bs| && j != m ==> r[j] == bs[j])
  {
    var r := SelectFirst(bs, option);
    match FirstMatch(bs, option)
    case None =>
    case Some(m) =>
      SetSelectedNeverEmpties(bs, m, true);
      SameTexts(r, bs);
  }

  lemma SelectFirstTexts(bs: seq<ToggleButton>, option: string)
    ensures |SelectFirst(bs, option)| == |bs|
    ensures forall k :: 0 <= k < |bs| ==> SelectFirst(bs, option)[k].text == bs[k].text
  {
  }

  /** Position `j` holds the first occurrence of `o` in `s`. */
  predicate FirstOccurrence(s: seq<string>, j: nat, o: string) {
    j < |s| && s[j] == o && forall i :: 0 <= i < j ==> s[i] != o
  }

  /** Selecting an option on freshly created buttons selects exactly its first occurrence. */
  lemma SelectOnCreated(options: seq<string>, o: string)
    ensures var r := SelectFirst(CreateAll(options), o);
      && Texts(r) == options
      && forall j :: 0 <= j < |r| ==> (r[j].selected <==> FirstOccurrence(options, j, o))
  {
    var created := CreateAll(options);
    CreateAllTexts(options);
    SelectFirstTouchesOnlyFirstMatch(created, o);
  }

  /** Selecting the same option twice is the same as selecting it once. */
  lemma SelectFirstIdempotent(bs: seq<ToggleButton>, option: string)
    ensures SelectFirst(SelectFirst(bs, option), option) == SelectFirst(bs, option)
  {
    var r := SelectFirst(bs, option);
    SelectFirstTouchesOnlyFirstMatch(bs, option);
    SelectFirstTexts(bs, option);
    match FirstMatch(bs, option)
    case None =>
    case Some(m) =>
      assert FirstMatch(r, option) == Some(m);
  }

  /** Selecting an option that is among the options of fresh buttons leaves a button selected. */
  lemma SelectOnCreatedFinds(options: seq<string>, o: string)
    requires o in options
    ensures !NoneSelected(SelectFirst(CreateAll(options), o))
  {
    var created := CreateAll(options);
    var p :| 0 <= p < |options| && options[p] == o;
    assert created[p].text == o;
    SelectFirstTouchesOnlyFirstMatch(created, o);
  }

  /** After a rebuild that finds the selected option, that button stays the selection. */
  lemma RebuildFindsSelected(changes: set<Key>, d: ChooserData)
    requires OptionsKey in changes && d.selectedOption in d.options
    ensures AfterData([], changes, d) == SelectFirst(CreateAll(d.options), d.selectedOption)
  {
    SelectOnCreatedFinds(d.options, d.selectedOption);
    SelectFirstIdempotent(CreateAll(d.options), d.selectedOption);
  }

  /** After a rebuild that misses the selected option, only the default can be selected. */
  lemma RebuildMissesSelected(changes: set<Key>, d: ChooserData)
    requires OptionsKey in changes && d.selectedOption !in d.options
    ensures var created := CreateAll(d.options);
      AfterData([], changes, d) ==
        if DefaultOptionKey in changes then SelectFirst(created, d.defaultOption) else created
  {
    var created := CreateAll(d.options);
    CreateAllTexts(d.options);
    TextsAt(created);
    assert FirstMatch(created, d.selectedOption).None?;
    var b2 := if DefaultOptionKey in changes then SelectFirst(created, d.defaultOption) else created;
    SelectFirstTexts(created, d.defaultOption);
    assert FirstMatch(b2, d.selectedOption).None?;
  }

  /**
   * An options change replaces the buttons by one per option, in order; if
   * the selected option is among them, exactly the first button labelled
   * with it is selected afterwards; otherwise any selected button is the
   * first one labelled with the default option.
   */
  lemma OptionsChangeRebuilds(bs: seq<ToggleButton>, changes: set<Key>, d: ChooserData)
    requires OptionsKey in changes
    ensures var r := AfterData(bs, changes, d);
      && Texts(r) == d.options
      && (d.selectedOption in d.options ==>
            forall j :: 0 <= j < |r| ==> (r[j].selected <==> FirstOccurrence(d.options, j, d.selectedOption)))
      && (d.selectedOption !in d.options ==>
            forall j :: 0 <= j < |r| && r[j].selected ==> FirstOccurrence(d.options, j, d.defaultOption))
  {
    assert AfterData(bs, changes, d) == AfterData([], changes, d);
    if d.selectedOption in d.options {
      RebuildFindsSelected(changes, d);
      SelectOnCreated(d.options, d.selectedOption);
    } else {
      RebuildMissesSelected(changes, d);
      SelectOnCreated(d.options, d.defaultOption);
      CreateAllTexts(d.options);
    }
  }

  /**
   * Without an options or selected-key change, the default is applied exactly
   * when its key changed and no button is selected, whatever else changed.
   */
  lemma DefaultOnlyWhenNoneSelected(bs: seq<ToggleButton>, changes: set<Key>, d: ChooserData)
    requires OptionsKey !in changes && SelectedOptionKey !in changes
    ensures AfterData(bs, changes, d) ==
      if DefaultOptionKey in changes && NoneSelected(bs) then SelectFirst(bs, d.defaultOption) else bs
  {
  }

  /**
   * When the selected key changed and some button carries the selected
   * option, the first such button is selected afterwards.
   */
  lemma SelectedChangeSelects(bs: seq<ToggleButton>, changes: set<Key>, d: ChooserData, j: nat)
    requires SelectedOptionKey in changes
    requires var r := AfterData(bs, changes, d);
      j < |r| && r[j].text == d.selectedOption && forall i :: 0 <= i < j ==> r[i].text != d.selectedOption
    ensures AfterData(bs, changes, d)[j].selected
  {
    var b1 := if OptionsKey in changes then SelectFirst(CreateAll(d.options), d.selectedOption) else bs;
    var b2 := if DefaultOptionKey in changes && NoneSelected(b1) then SelectFirst(b1, d.defaultOption) else b1;
    SelectFirstTouchesOnlyFirstMatch(b2, d.selectedOption);
    SelectFirstTexts(b2, d.selectedOption);
    assert FirstMatch(b2, d.selectedOption) == Some(j);
  }

  /**
   * The widget. `data` is the chooser data it shows (`dataOrDefault`) and
   * `confirmation` the state of the confirmation label (`None` before the
   * first data change).
   */
  class Widget {
    var data: ChooserData
    var buttons: seq<ToggleButton>
    var confirmation: Option<bool>

    constructor (initial: ChooserData)
      ensures data == initial && buttons == [] && confirmation == None
    {
      data := initial;
      buttons := [];
      confirmation := None;
    }

    /** A change of button `k`'s selected property to `value`, and its listener. */
    method SetSelected(k: nat, value: bool)
      requires k < |buttons|
      modifies this
      ensures buttons == AfterSetSelected(old(buttons), k, value)
      ensures data == old(data) && confirmation == old(confirmation)
    {
      if buttons[k].selected != value {
        buttons := buttons[k := buttons[k].(selected := value)];
        if NoneSelected(buttons) {
          buttons := buttons[k := buttons[k].(selected := true)];
        }
      }
    }

    /** `selectToggleButton(option)`. */
    method SelectToggleButton(option: string)
      modifies this
      ensures buttons == SelectFirst(old(buttons), option)
      ensures data == old(data) && confirmation == old(confirmation)
    {
      var first := FirstMatch(buttons, option);
      if first.Some? {
        SetSelected(first.value, true);
      }
    }

    /**
     * The data listener, run after the widget's data became `newData`;
     * `changes` is `newData.changesFrom(old)`.
     */
    method OnDataChanged(changes: set<Key>, newData: ChooserData)
      modifies this
      ensures data == newData
      ensures buttons == AfterData(old(buttons), changes, newData)
      ensures confirmation == Some(newData.Confirmed())
    {
      data := newData;
      if OptionsKey in changes {
        var selectedOption := newData.selectedOption;
        buttons := CreateAll(newData.options);
        SelectToggleButton(selectedOption);
      }
      if DefaultOptionKey in changes && NoneSelected(buttons) {
        SelectToggleButton(newData.defaultOption);
      }
      if SelectedOptionKey in changes {
        SelectToggleButton(newData.selectedOption);
      }
      confirmation := Some(newData.activeOption == newData.selectedOption);
    }

    /** The action of button `k`: selects its option in the chooser data. */
    method OnAction(k: nat)
      requires k < |buttons|
      modifies this
      ensures data == old(data).WithSelectedOption(old(buttons)[k].text)
      ensures buttons == old(buttons) && confirmation == old(confirmation)
    {
      data := data.WithSelectedOption(buttons[k].text);
    }
  }
}
