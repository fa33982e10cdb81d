# Shuffleboard chooser widgets and grid points, modelled in Dafny

This project models the parts of the Shuffleboard example plugins that can be stated without
the GUI toolkit:

- **`GridPoint`** (`GridPoints` module, `grid_point.dfy`): an immutable grid coordinate whose
  fields are Java `int`s. The constructor throws `IllegalArgumentException` for a negative
  column (checked first) or row. `subtract` builds the clamped component-wise difference through
  that constructor. `toString` formats `GridPoint(col, row)`. The `Decimal` module
  (`decimal.dfy`) gives the `%d` text of integers and the parser that reads it back. Parsing is
  the partner that shows `toString` loses nothing.
- **Chooser data** (`Chooser` module, `chooser_data.dfy`): the host's `SendableChooserData`
  reduced to the record `(options, defaultOption, selectedOption, activeOption)`. It also holds
  the keys of its fields and `WithSelectedOption`. `ChangesFrom` is a field-by-field reference
  definition; the widgets take the host's change set as an unconstrained argument. The module
  also has the text of the "active option" tooltip.
- **Grid chooser** (`GridChooser` module, `grid_chooser.dfy`): the widget is a class. Its state
  is the chooser data, the list of grid children, the selected child (`selectedNode`), the
  confirmation label and the selected-option label. A child is a record
  `(index, friendlyName, col, row, highlighted)`, where `col` and `row` are the grid-pane
  position it was added at. `updateOptions` keeps the source's nested loops with the running
  counter. It appends the new children after the existing ones and never clears the list:
  option `n` goes to row `n / side`, column `n % side`, where `side` is the least `s` with
  `s * s >= len`. Selecting by name ends on the last child with that name. The default applies
  only while nothing is selected. The data listener handles options, then the default, then the
  selection, and always sets the confirmation to `active == selected`. The selected-node
  listener writes the selection back into the data. The icon table maps `index + 1` to a cube,
  cone or hybrid picture.
- **Split-button chooser** (`SplitButtonChooser` module, `split_button_chooser.dfy`): the
  widget is a class over a list of `(text, selected)` toggle buttons. An options change
  rebuilds one unselected button per option, in order, and then re-selects the selected option.
  `selectToggleButton` selects the first button with the given text. Each button's
  selected-property listener re-selects the button when no button would otherwise be selected.
  Pressing a button selects its option in the chooser data.

Each widget's state-changing methods are proved against pure functions of the old state
(`AfterOptions`, `AfterSelect`, `AfterDefault`, `AfterData`, `AfterSetSelected`, `SelectFirst`).
The properties the source promises are proved as lemmas about those functions. Two facts about
the code that the model keeps: an options change appends grid children and never removes the old
ones (`GridChooserWidget.java:172`), and, with nothing selected, the write-back listener throws a
`NullPointerException` when no child carries the default name (`GridChooserWidget.java:107`).

## Model

| member | source | states |
|---|---|---|
| `GridPoints.Make` | src/main/java/edu/wpi/first/shuffleboard/util/GridPoint.java:18-23 | construction succeeds exactly when column and row are non-negative, and then holds exactly the arguments; a negative column raises the column message (checked first), otherwise a negative row raises the row message |
| `GridPoints.MakeThenGet` | src/main/java/edu/wpi/first/shuffleboard/util/GridPoint.java:35-41 | the getters return exactly the values a successful construction was given |
| `GridPoints.GridPoint.GetCol` | src/main/java/edu/wpi/first/shuffleboard/util/GridPoint.java:35-37 | the column, together with the row, rebuilds the same point through the constructor |
| `GridPoints.GridPoint.GetRow` | src/main/java/edu/wpi/first/shuffleboard/util/GridPoint.java:39-41 | the row, together with the column, rebuilds the same point through the constructor |
| `GridPoints.GridPoint.Subtract` | src/main/java/edu/wpi/first/shuffleboard/util/GridPoint.java:31-33 | `subtract` never throws; each component is the difference when that is non-negative and 0 otherwise, and at most the receiver's; the `int` argument type of the constructor holds the differences |
| `GridPoints.SubtractIdentities` | src/main/java/edu/wpi/first/shuffleboard/util/GridPoint.java:32 | `a.subtract(a)` is the origin and `a.subtract(origin)` is `a` |
| `GridPoints.GridPoint.ToString` | src/main/java/edu/wpi/first/shuffleboard/util/GridPoint.java:43-45 | the text starts with `GridPoint(` and ends with `)`; `ParseToString` shows it determines the point |
| `GridPoints.ParseToString` | src/main/java/edu/wpi/first/shuffleboard/util/GridPoint.java:43-45 | the text `GridPoint(col, row)` reads back to the same point |
| `GridPoints.ToStringInjective` | src/main/java/edu/wpi/first/shuffleboard/util/GridPoint.java:43-45 | different points have different texts |
| `Decimal.NatToString` | src/main/java/edu/wpi/first/shuffleboard/util/GridPoint.java:44 | the `%d` text is a non-empty string of digits with no leading zero |
| `Decimal.IntToStringReadsBack` | src/main/java/edu/wpi/first/shuffleboard/util/GridPoint.java:19-20 | the text an `int` is concatenated as starts with '-' exactly for a negative value and the digits after it read back to the value's magnitude (the whole text for a non-negative value), so each exception message carries the rejected value |
| `Decimal.ParseNatToString` | src/main/java/edu/wpi/first/shuffleboard/util/GridPoint.java:44 | reading back the `%d` text of a number gives the number |
| `Decimal.NatToStringInjective` | src/main/java/edu/wpi/first/shuffleboard/util/GridPoint.java:44 | different numbers have different `%d` texts |
| `Chooser.ChooserData.WithSelectedOption` | example-plugins/caleb-plugin/src/main/java/com/calebli/shuffleboardplugin/widget/GridChooserWidget.java:98 | the snapshot's selected option is replaced and its other fields are kept |
| `Chooser.ChangesFrom` | example-plugins/caleb-plugin/src/main/java/com/calebli/shuffleboardplugin/widget/GridChooserWidget.java:77 | a first observation changes every key; otherwise a key is reported exactly when its field differs |
| `Chooser.NoChangesIffEqual` | example-plugins/caleb-plugin/src/main/java/com/calebli/shuffleboardplugin/widget/GridChooserWidget.java:77 | no key is reported exactly when the two snapshots are equal |
| `Chooser.FirstObservationChangesAll` | example-plugins/caleb-plugin/src/main/java/com/calebli/shuffleboardplugin/widget/GridChooserWidget.java:77 | with no previous snapshot all four keys are reported |
| `Chooser.WithSelectedOptionChanges` | example-plugins/caleb-plugin/src/main/java/com/calebli/shuffleboardplugin/widget/GridChooserWidget.java:105 | writing a selection back changes at most the selected-option key |
| `Chooser.TooltipQuotesActive` | example-plugins/caleb-plugin/src/main/java/com/calebli/shuffleboardplugin/widget/GridChooserWidget.java:89-92 | the tooltip is `Active option: '` + active option + `'`, and the active option can be read back from it |
| `GridChooser.GridChild.Select` | example-plugins/caleb-plugin/src/main/java/com/calebli/shuffleboardplugin/widget/GridChooserWidget.java:304-306 | shows the highlight and changes nothing else of the child |
| `GridChooser.GridChild.Deselect` | example-plugins/caleb-plugin/src/main/java/com/calebli/shuffleboardplugin/widget/GridChooserWidget.java:308-310 | hides the highlight and changes nothing else of the child |
| `GridChooser.Side` | example-plugins/caleb-plugin/src/main/java/com/calebli/shuffleboardplugin/widget/GridChooserWidget.java:157 | the grid side is the least `s` with `s * s >= len`, the integer ceiling of the square root |
| `GridChooser.BelowSide` | example-plugins/caleb-plugin/src/main/java/com/calebli/shuffleboardplugin/widget/GridChooserWidget.java:157-158 | the loop guard `i < sqrt(len)`, read as `i * i < len`, holds exactly for `i < side` |
| `GridChooser.PlacementIsRowMajor` | example-plugins/caleb-plugin/src/main/java/com/calebli/shuffleboardplugin/widget/GridChooserWidget.java:156-174 | one child per option; child `n` has index `n`, name `options[n]`, no highlight, lies inside the `side` by `side` grid, and `row * side + col == n` |
| `GridChooser.PlacementIsInjective` | example-plugins/caleb-plugin/src/main/java/com/calebli/shuffleboardplugin/widget/GridChooserWidget.java:173 | no two children of one options update share a grid position |
| `GridChooser.IconFor` | example-plugins/caleb-plugin/src/main/java/com/calebli/shuffleboardplugin/widget/GridChooserWidget.java:297-301 | for any index: a cube exactly at indices 4 and 7, a cone exactly at 3, 5, 6 and 8, the hybrid picture everywhere else |
| `GridChooser.NineOptionIcons` | example-plugins/caleb-plugin/src/main/java/com/calebli/shuffleboardplugin/widget/GridChooserWidget.java:297-301 | on the 3 by 3 grid, slots 1-3 (first row) are hybrid, slots 5 and 8 (middle column below) are cubes, slots 4, 6, 7 and 9 are cones |
| `GridChooser.LastNamed` | example-plugins/caleb-plugin/src/main/java/com/calebli/shuffleboardplugin/widget/GridChooserWidget.java:194-202 | the result is the last child among the first `k` with the name, or none when no such child exists |
| `GridChooser.PickHighlightsOnly` | example-plugins/caleb-plugin/src/main/java/com/calebli/shuffleboardplugin/widget/GridChooserWidget.java:166-170 | deselecting the old selection and selecting child `k` leaves `k` selected and the only highlighted child |
| `GridChooser.SelectsLastMatch` | example-plugins/caleb-plugin/src/main/java/com/calebli/shuffleboardplugin/widget/GridChooserWidget.java:193-203 | when children carry the name, the last of them becomes the selection and the only highlighted child; every displaced child loses its highlight; no child's index, name or position changes |
| `GridChooser.SelectWithoutMatchChangesNothing` | example-plugins/caleb-plugin/src/main/java/com/calebli/shuffleboardplugin/widget/GridChooserWidget.java:193-203 | when no child carries the name, selection and highlights are unchanged |
| `GridChooser.AfterOptionsWellFormed` | example-plugins/caleb-plugin/src/main/java/com/calebli/shuffleboardplugin/widget/GridChooserWidget.java:155-177 | appending the placed children, none highlighted, keeps "only the selected child is highlighted" |
| `GridChooser.AfterSelectWellFormed` | example-plugins/caleb-plugin/src/main/java/com/calebli/shuffleboardplugin/widget/GridChooserWidget.java:193-203 | selection by name keeps "only the selected child is highlighted" |
| `GridChooser.DefaultOnlyWhenUnselected` | example-plugins/caleb-plugin/src/main/java/com/calebli/shuffleboardplugin/widget/GridChooserWidget.java:179-191 | the default does nothing while a child is selected, and otherwise acts exactly as a selection by that name |
| `GridChooser.DataChangeOutcome` | example-plugins/caleb-plugin/src/main/java/com/calebli/shuffleboardplugin/widget/GridChooserWidget.java:76-88 | a data change keeps the view well-formed; the children are the old ones followed, when the options key changed, by one placed child per option; when the selected key changed and a child carries the selected name, the last such child is selected and alone highlighted |
| `GridChooser.NoChangeKeepsView` | example-plugins/caleb-plugin/src/main/java/com/calebli/shuffleboardplugin/widget/GridChooserWidget.java:78-86 | with no changed key the children and the selection are untouched |
| `GridChooser.Widget.UpdateOptions` | example-plugins/caleb-plugin/src/main/java/com/calebli/shuffleboardplugin/widget/GridChooserWidget.java:155-177 | the nested loops append exactly the placed children after the existing ones and change nothing else |
| `GridChooser.Widget.UpdateSelectedValue` | example-plugins/caleb-plugin/src/main/java/com/calebli/shuffleboardplugin/widget/GridChooserWidget.java:193-203 | the loop over the children ends in the state of a selection by name (last match) |
| `GridChooser.Widget.UpdateDefaultValue` | example-plugins/caleb-plugin/src/main/java/com/calebli/shuffleboardplugin/widget/GridChooserWidget.java:179-191 | the new state is that of applying the default |
| `GridChooser.Widget.Click` | example-plugins/caleb-plugin/src/main/java/com/calebli/shuffleboardplugin/widget/GridChooserWidget.java:165-171 | a click on child `k` makes `k` the selection and the only highlighted child, changing nothing else |
| `GridChooser.Widget.OnDataChanged` | example-plugins/caleb-plugin/src/main/java/com/calebli/shuffleboardplugin/widget/GridChooserWidget.java:76-88 | options, default and selection are handled in that order, each only when its key changed, and the confirmation becomes `active == selected` |
| `GridChooser.Widget.OnSelectedNodeChanged` | example-plugins/caleb-plugin/src/main/java/com/calebli/shuffleboardplugin/widget/GridChooserWidget.java:94-108 | a selected child's name is written into the data; with no selection the default is written and the selection moves, unhighlighted, to the last child with the default name; the label shows the selected name, or a NullPointerException is reported when nothing is selected |
| `SplitButtonChooser.CreateToggleButton` | example-plugins/custom-data-and-widget/src/main/java/com/calebli/shuffleboardplugin/widget/BigSplitButtonChooserWidget.java:78-79 | a new button is labelled with its option and starts unselected |
| `SplitButtonChooser.CreateAll` | example-plugins/custom-data-and-widget/src/main/java/com/calebli/shuffleboardplugin/widget/BigSplitButtonChooserWidget.java:55-57 | one new button per option, in option order |
| `SplitButtonChooser.CreateAllTexts` | example-plugins/custom-data-and-widget/src/main/java/com/calebli/shuffleboardplugin/widget/BigSplitButtonChooserWidget.java:55-57 | the texts of the rebuilt buttons are exactly the options, and none is selected |
| `SplitButtonChooser.TextsAt` | example-plugins/custom-data-and-widget/src/main/java/com/calebli/shuffleboardplugin/widget/BigSplitButtonChooserWidget.java:119 | the text list has one entry per button, the button's own text |
| `SplitButtonChooser.FirstMatch` | example-plugins/custom-data-and-widget/src/main/java/com/calebli/shuffleboardplugin/widget/BigSplitButtonChooserWidget.java:117-120 | the result is the first button with the text, or none when no button has it |
| `SplitButtonChooser.SelectFirstTouchesOnlyFirstMatch` | example-plugins/custom-data-and-widget/src/main/java/com/calebli/shuffleboardplugin/widget/BigSplitButtonChooserWidget.java:116-122 | the first button with the text ends selected; no other button is touched; nothing changes without a match |
| `SplitButtonChooser.SelectFirstIdempotent` | example-plugins/custom-data-and-widget/src/main/java/com/calebli/shuffleboardplugin/widget/BigSplitButtonChooserWidget.java:116-122 | selecting the same option a second time changes nothing |
| `SplitButtonChooser.RebuildFindsSelected` | example-plugins/custom-data-and-widget/src/main/java/com/calebli/shuffleboardplugin/widget/BigSplitButtonChooserWidget.java:53-68 | after new options that contain the selected option, the default and selected steps leave the rebuilt, reselected buttons as they are |
| `SplitButtonChooser.RebuildMissesSelected` | example-plugins/custom-data-and-widget/src/main/java/com/calebli/shuffleboardplugin/widget/BigSplitButtonChooserWidget.java:53-68 | after new options without the selected option, the buttons are the fresh ones with, when the default changed, the default selected |
| `SplitButtonChooser.SelectOnCreated` | example-plugins/custom-data-and-widget/src/main/java/com/calebli/shuffleboardplugin/widget/BigSplitButtonChooserWidget.java:54-58 | after a rebuild, re-selecting an option selects exactly its first occurrence |
| `SplitButtonChooser.OptionsChangeRebuilds` | example-plugins/custom-data-and-widget/src/main/java/com/calebli/shuffleboardplugin/widget/BigSplitButtonChooserWidget.java:53-68 | after a data change with new options the button texts are the options; if the selected option is among them exactly its first button is selected, otherwise only the default's first button can be |
| `SplitButtonChooser.DefaultOnlyWhenNoneSelected` | example-plugins/custom-data-and-widget/src/main/java/com/calebli/shuffleboardplugin/widget/BigSplitButtonChooserWidget.java:61-64 | for every change set without the options and selected keys: the default is selected exactly when its key changed and no button is selected; otherwise nothing changes |
| `SplitButtonChooser.SelectedChangeSelects` | example-plugins/custom-data-and-widget/src/main/java/com/calebli/shuffleboardplugin/widget/BigSplitButtonChooserWidget.java:66-68 | when the selected key changed, the first button with the selected option is selected afterwards |
| `SplitButtonChooser.SetSelectedNeverEmpties` | example-plugins/custom-data-and-widget/src/main/java/com/calebli/shuffleboardplugin/widget/BigSplitButtonChooserWidget.java:90-94 | only the changed button can change; it ends selected exactly when set so or no other button is selected; a row with a selected button keeps one |
| `SplitButtonChooser.OnlySelectedStaysSelected` | example-plugins/custom-data-and-widget/src/main/java/com/calebli/shuffleboardplugin/widget/BigSplitButtonChooserWidget.java:90-94 | deselecting the only selected button is undone |
| `SplitButtonChooser.Widget.SetSelected` | example-plugins/custom-data-and-widget/src/main/java/com/calebli/shuffleboardplugin/widget/BigSplitButtonChooserWidget.java:90-94 | a change of a button's selected property and its listener give the never-empty outcome |
| `SplitButtonChooser.Widget.SelectToggleButton` | example-plugins/custom-data-and-widget/src/main/java/com/calebli/shuffleboardplugin/widget/BigSplitButtonChooserWidget.java:116-122 | the buttons become the first-match selection of the old buttons |
| `SplitButtonChooser.Widget.OnDataChanged` | example-plugins/custom-data-and-widget/src/main/java/com/calebli/shuffleboardplugin/widget/BigSplitButtonChooserWidget.java:50-70 | rebuild and re-select, then default, then selected, each on its key; the confirmation becomes `active == selected` |
| `SplitButtonChooser.Widget.OnAction` | example-plugins/custom-data-and-widget/src/main/java/com/calebli/shuffleboardplugin/widget/BigSplitButtonChooserWidget.java:89 | pressing a button sets the data's selected option to the button's option and changes nothing else |

## Left out

- Image loading in `setImageView`: file and resource streams and the `IOException` fallback are I/O. Only the choice of picture (`IconFor`) is modelled.
- Layout sizing: the width and height bindings and the division by `Math.sqrt(len) - 1`, the 0.9 scale factors, the gaps and the button widths are toolkit `double` arithmetic.
- The selection colour properties, glyph fonts, pseudo-classes and style classes: the confirmation label is modelled as a boolean only.
- `getSettings` and `getView` only hand objects to the host.
- `GridChild.toString` is debugging text that no modelled code reads.
- `BigTextViewWidget.java` (a label update by type dispatch) and `GridChooserPlugin.java` (plugin registration) are not part of this model.
- `SendableChooserData` is not part of this model. Its `changesFrom` is taken as the `changes` argument of the data listeners. `ChangesFrom` is a field-by-field reference definition. `withSelectedOption` is a record update.
- Listener re-entry is not modelled. In the toolkit, `selectedNode.set` runs the selected-node listener at once, and `setData` runs the data listener. Each listener is its own method here, and the chain of listeners one click or data update sets off is not composed.
- The toggle group of the segmented button is not modelled. In the toolkit it deselects the previously selected button when another is selected. The source only calls `setSelected(true)`, so in the model several buttons can be selected at once. "No button selected" (`getSelectedToggle() == null`) is read as "no button in the list is selected".
- The `toggle` that a button press performs in the toolkit before its action runs is not modelled. `Widget.OnAction` is the action handler alone, and `Widget.SetSelected` is the selected-property listener.
- `GridChooser.Widget.UpdateOptions`: the guard `i < Math.sqrt(len)` is read as the integer condition `i * i < len`. These agree for every array length Java allows. Java's `int` counters are unbounded integers here, since no counter can exceed an array length.
- `GridPoints.GridPoint.ToString`: `String.format` is modelled with ASCII digits. It ignores locales that format digits differently.
- `GridChooser.Widget.OnSelectedNodeChanged` does not model a null `getData()`. The widget's data is always present in the model.
