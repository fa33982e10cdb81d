/**
 * The grid chooser widget: one cell ("grid child") per chooser option, laid
 * out row by row on a near-square grid, with at most one cell selected and
 * highlighted, and a confirmation flag that tells whether the robot's active
 * option is the selected one.
 */
module GridChooser {
  import opened Wrappers
  import opened Chooser

  /** The three pictures a cell can show. */
  datatype Icon = Cube | Cone | Hybrid

  /** The picture `setImageView` chooses: a fixed table keyed on the one-based slot `i + 1`. */
  function IconFor(i: int): (icon: Icon)
    ensures icon == Cube <==> i in {4, 7}
    ensures icon == Cone <==> i in {3, 5, 6, 8}
  {
    var slot := i + 1;
    if slot == 8 || slot == 5 then Cube
    else if slot == 4 || slot == 9 || slot == 6 || slot == 7 then Cone
    else Hybrid
  }

  /**
   * A grid child: its creation index, the option it stands for, the column
   * and row it was added to the grid pane at, and whether its highlight
   * rectangle is visible.
   */
  datatype GridChild = GridChild(index: nat, friendlyName: string, col: nat, row: nat, highlighted: bool) {

    /** `select()`: shows the highlight and touches nothing else. */
    function Select(): (c: GridChild)
      ensures c.highlighted && c.(highlighted := highlighted) == this
    {
      this.(highlighted := true)
    }

    /** `deselect()`: hides the highlight and touches nothing else. */
    function Deselect(): (c: GridChild)
      ensures !c.highlighted && c.(highlighted := highlighted) == this
    {
      this.(highlighted := false)
    }
  }

  function Square(t: nat): nat {
    t * t
  }

  /** The side of the grid for `len` options: the least `s` with `s * s >= len`. */
  function Side(len: nat): (s: nat)
    ensures Square(s) >= len
    ensures s == 0 || Square(s - 1) < len
    ensures len > 0 ==> s > 0
  {
    SideFrom(len, 0)
  }

  function SideFrom(len: nat, s: nat): (r: nat)
    requires s == 0 || Square(s - 1) < len
    ensures Square(r) >= len
    ensures r == 0 || Square(r - 1) < len
    ensures len > 0 ==> r > 0
    decreases len - s
  {
    if Square(s) >= len then s
    else
      assert s <= Square(s);
      SideFrom(len, s + 1)
  }

  lemma SquareMonotone(a: nat, b: nat)
    requires a <= b
    ensures Square(a) <= Square(b)
  {
  }

  /**
   * The loop guard `i < Math.sqrt(len)`, read on integers as `i * i < len`,
   * holds exactly for the indices below the side of the grid.
   */
  lemma {:induction false} BelowSide(len: nat, t: nat)
    ensures Square(t) < len <==> t < Side(len)
  {
    var s := Side(len);
    if t < s {
      SquareMonotone(t, s - 1);
    } else {
      SquareMonotone(s, t);
    }
  }

  lemma MultipleInsideUnit(d: int, side: int)
    requires 0 < side && -side < d * side < side
    ensures d == 0
  {
  }

  lemma RowMajor(side: nat, i: nat, j: nat)
    requires j < side
    ensures (i * side + j) / side == i && (i * side + j) % side == j
  {
    var n := i * side + j;
    var q, r := n / side, n % side;
    assert (q - i) * side == j - r;
    MultipleInsideUnit(q - i, side);
  }

  lemma RowBelowSide(n: nat, side: nat)
    requires n < side * side
    ensures side > 0 && n / side < side
  {
  }

  /** Where the loops of `updateOptions` put child `i * side + j`: column `j` of row `i`. */
  lemma PlacedAt(options: seq<string>, i: nat, j: nat)
    requires j < Side(|options|) && i * Side(|options|) + j < |options|
    ensures var n := i * Side(|options|) + j;
      Placed(options)[n] == GridChild(n, options[n], j, i, false)
  {
    RowMajor(Side(|options|), i, j);
  }

  lemma SideSquare(len: nat, i: nat, rowStart: nat)
    requires i == Side(len) && rowStart == i * Side(len)
    ensures len <= rowStart
  {
  }

  /** The children `updateOptions` adds for `options`, in the order it adds them. */
  function Placed(options: seq<string>): seq<GridChild> {
    var side := Side(|options|);
    seq(|options|, n requires 0 <= n < |options| => GridChild(n, options[n], n % side, n / side, false))
  }

  /**
   * Option `n` becomes child `n`, shown unhighlighted at column `n % side`
   * and row `n / side` of a `side` by `side` grid; reading the grid row by
   * row gives the options back in order.
   */
  lemma PlacementIsRowMajor(options: seq<string>)
    ensures var cs, side := Placed(options), Side(|options|);
      |cs| == |options| &&
      forall n :: 0 <= n < |cs| ==>
        && cs[n].index == n && cs[n].friendlyName == options[n] && !cs[n].highlighted
        && cs[n].col < side && cs[n].row < side
        && cs[n].row * side + cs[n].col == n
  {
    var cs, side := Placed(options), Side(|options|);
    forall n | 0 <= n < |cs|
      ensures cs[n].col < side && cs[n].row < side && cs[n].row * side + cs[n].col == n
    {
      RowBelowSide(n, side);
    }
  }

  /** No two options share a grid position. */
  lemma PlacementIsInjective(options: seq<string>)
    ensures var cs := Placed(options);
      forall a, b :: 0 <= a < b < |cs| ==> cs[a].col != cs[b].col || cs[a].row != cs[b].row
  {
  }

  /**
   * On the three-by-three grid of nine options the table reads as a picture:
   * the first row shows the hybrid icon, the middle column below it cubes,
   * and the remaining cells cones.
   */
  lemma NineOptionIcons(options: seq<string>)
    requires |options| == 9
    ensures var cs := Placed(options);
      forall n :: 0 <= n < 9 ==>
        IconFor(cs[n].index) == (if cs[n].row == 0 then Hybrid else if cs[n].col == 1 then Cube else Cone)
  {
  }

  /** What the widget shows: its children and the selected one (`selectedNode`), if any. */
  datatype GridView = GridView(children: seq<GridChild>, selected: Option<nat>)

  /** The selection refers to an existing child, and only the selected child can be highlighted. */
  predicate WellFormed(v: GridView) {
    && (v.selected.Some? ==> v.selected.value < |v.children|)
    && forall k :: 0 <= k < |v.children| && v.children[k].highlighted ==> v.selected == Some(k)
  }

  /** The children with every highlight hidden: what a child is, apart from its highlight. */
  function Unlit(cs: seq<GridChild>): seq<GridChild> {
    seq(|cs|, j requires 0 <= j < |cs| => cs[j].(highlighted := false))
  }

  /** The children with exactly child `m` highlighted. */
  function HighlightOnly(cs: seq<GridChild>, m: nat): seq<GridChild> {
    seq(|cs|, j requires 0 <= j < |cs| => cs[j].(highlighted := j == m))
  }

  /** The last of the first `k` children named `name`. */
  function LastNamed(cs: seq<GridChild>, name: string, k: nat): (r: Option<nat>)
    requires k <= |cs|
    ensures r.Some? ==> r.value < k && cs[r.value].friendlyName == name
    ensures r.Some? ==> forall j :: r.value < j < k ==> cs[j].friendlyName != name
    ensures r.None? ==> forall j :: 0 <= j < k ==> cs[j].friendlyName != name
  {
    if k == 0 then None
    else if cs[k - 1].friendlyName == name then Some(k - 1)
    else LastNamed(cs, name, k - 1)
  }

  /** One move of the selection: hide the old selection's highlight, select child `k`, show its highlight. */
  function Pick(v: GridView, k: nat): GridView
    requires k < |v.children|
    requires v.selected.Some? ==> v.selected.value < |v.children|
  {
    var cs := if v.selected.Some? then v.children[v.selected.value := v.children[v.selected.value].Deselect()] else v.children;
    GridView(cs[k := cs[k].Select()], Some(k))
  }

  /** From a well-formed view, a move leaves child `k` selected and the only one highlighted. */
  lemma PickHighlightsOnly(v: GridView, k: nat)
    requires WellFormed(v) && k < |v.children|
    ensures Pick(v, k) == GridView(HighlightOnly(v.children, k), Some(k))
    ensures WellFormed(Pick(v, k))
  {
  }

  /** Moving the highlight changes nothing but highlights. */
  lemma UnlitHighlightOnly(cs: seq<GridChild>, m: nat)
    ensures Unlit(HighlightOnly(cs, m)) == Unlit(cs)
  {
    assert |HighlightOnly(cs, m)| == |cs|;
    forall j | 0 <= j < |cs|
      ensures Unlit(HighlightOnly(cs, m))[j] == Unlit(cs)[j]
    {
    }
  }

  /** Highlights do not matter to which child ends up highlighted. */
  lemma HighlightOnlyIgnoresHighlights(cs: seq<GridChild>, ds: seq<GridChild>, m: nat)
    requires Unlit(cs) == Unlit(ds)
    ensures HighlightOnly(cs, m) == HighlightOnly(ds, m)
  {
    assert |cs| == |Unlit(cs)| == |ds|;
    forall j | 0 <= j < |cs|
      ensures HighlightOnly(cs, m)[j] == HighlightOnly(ds, m)[j]
    {
      assert Unlit(cs)[j] == Unlit(ds)[j];
    }
  }

  /** `updateOptions(options)`: appends the placed children; nothing is removed. */
  function AfterOptions(v: GridView, options: seq<string>): GridView {
    GridView(v.children + Placed(options), v.selected)
  }

  /** Adding the placed children, none of them highlighted, keeps a view well-formed. */
  lemma AfterOptionsWellFormed(v: GridView, options: seq<string>)
    requires WellFormed(v)
    ensures WellFormed(AfterOptions(v, options))
  {
    var r := AfterOptions(v, options);
    forall k | |v.children| <= k < |r.children|
      ensures !r.children[k].highlighted
    {
      assert r.children[k] == Placed(options)[k - |v.children|];
    }
  }

  /** `updateSelectedValue(name)`: the last child named `name` becomes the only highlighted, selected child. */
  function AfterSelect(v: GridView, name: string): GridView {
    match LastNamed(v.children, name, |v.children|)
    case None => v
    case Some(m) => GridView(HighlightOnly(v.children, m), Some(m))
  }

  /** `updateDefaultValue(name)`: as `updateSelectedValue`, but only while nothing is selected. */
  function AfterDefault(v: GridView, name: string): GridView {
    if v.selected.Some? then v else AfterSelect(v, name)
  }

  /** The data listener: options, then default, then selected, each only when its key changed. */
  function AfterData(v: GridView, changes: set<Key>, d: ChooserData): GridView {
    var v1 := if OptionsKey in changes then AfterOptions(v, d.options) else v;
    var v2 := if DefaultOptionKey in changes then AfterDefault(v1, d.defaultOption) else v1;
    if SelectedOptionKey in changes then AfterSelect(v2, d.selectedOption) else v2
  }

  /**
   * Selection by name: when some child is named `name`, the last such child
   * `m` becomes the selection and is then the only highlighted child, and
   * every child keeps its index, name and position.
   */
  lemma SelectsLastMatch(v: GridView, name: string, m: nat)
    requires WellFormed(v)
    requires m < |v.children| && v.children[m].friendlyName == name
    requires forall j :: m < j < |v.children| ==> v.children[j].friendlyName != name
    ensures var r := AfterSelect(v, name);
      && WellFormed(r)
      && r.selected == Some(m)
      && Unlit(r.children) == Unlit(v.children)
      && forall j :: 0 <= j < |r.children| ==> (r.children[j].highlighted <==> j == m)
  {
  }

  /** Selection by a name no child carries changes nothing. */
  lemma SelectWithoutMatchChangesNothing(v: GridView, name: string)
    requires forall j :: 0 <= j < |v.children| ==> v.children[j].friendlyName != name
    ensures AfterSelect(v, name) == v
  {
  }

  /** The default is ignored while a child is selected, and otherwise acts as a selection. */
  lemma DefaultOnlyWhenUnselected(v: GridView, name: string)
    ensures v.selected.Some? ==> AfterDefault(v, name) == v
    ensures v.selected.None? ==> AfterDefault(v, name) == AfterSelect(v, name)
  {
  }

  lemma AfterSelectWellFormed(v: GridView, name: string)
    requires WellFormed(v)
    ensures WellFormed(AfterSelect(v, name))
    ensures Unlit(AfterSelect(v, name).children) == Unlit(v.children)
  {
  }

  /**
   * A data change keeps the view well-formed; the children are the old ones
   * followed, when the options changed, by one placed child per option; and
   * when the selected option changed and some child carries its name, the
   * last such child is selected and the only one highlighted.
   */
  lemma DataChangeOutcome(v: GridView, changes: set<Key>, d: ChooserData)
    requires WellFormed(v)
    ensures var r := AfterData(v, changes, d);
      && WellFormed(r)
      && Unlit(r.children) == Unlit(v.children + (if OptionsKey in changes then Placed(d.options) else []))
      && (SelectedOptionKey in changes && LastNamed(r.children, d.selectedOption, |r.children|).Some? ==>
            && r.selected == LastNamed(r.children, d.selectedOption, |r.children|)
            && forall j :: 0 <= j < |r.children| ==> (r.children[j].highlighted <==> r.selected == Some(j)))
  {
    var v1 := if OptionsKey in changes then AfterOptions(v, d.options) else v;
    assert v1.children == v.children + (if OptionsKey in changes then Placed(d.options) else []);
    assert WellFormed(v1);
    var v2 := if DefaultOptionKey in changes then AfterDefault(v1, d.defaultOption) else v1;
    AfterSelectWellFormed(v1, d.defaultOption);
    assert WellFormed(v2) && Unlit(v2.children) == Unlit(v1.children);
    var r := AfterData(v, changes, d);
    AfterSelectWellFormed(v2, d.selectedOption);
    assert WellFormed(r) && Unlit(r.children) == Unlit(v2.children);
    if SelectedOptionKey in changes && LastNamed(r.children, d.selectedOption, |r.children|).Some? {
      var m := LastNamed(r.children, d.selectedOption, |r.children|).value;
      assert Unlit(r.children)[m] == Unlit(v2.children)[m];
      forall j | m < j < |v2.children|
        ensures v2.children[j].friendlyName != d.selectedOption
      {
        assert Unlit(r.children)[j] == Unlit(v2.children)[j];
      }
      SelectsLastMatch(v2, d.selectedOption, m);
    }
  }

  /** A data change with no changed key leaves the cells and the selection as they were. */
  lemma NoChangeKeepsView(v: GridView, d: ChooserData)
    ensures AfterData(v, {}, d) == v
  {
  }

  /**
   * The widget. `data` is the chooser data the widget shows (`dataOrDefault`),
   * `confirmation` the state of the confirmation label (`None` before the first
   * data change) and `selectedLabel` the text of the selected-option label.
   */
  class Widget {
    var data: ChooserData
    var children: seq<GridChild>
    var selectedNode: Option<nat>
    var confirmation: Option<bool>
    var selectedLabel: Option<string>

    ghost function View(): GridView
      reads this
    {
      GridView(children, selectedNode)
    }

    ghost predicate Valid()
      reads this
    {
      WellFormed(View())
    }

    constructor (initial: ChooserData)
      ensures Valid()
      ensures data == initial && children == [] && selectedNode == None
      ensures confirmation == None && selectedLabel == None
    {
      data := initial;
      children := [];
      selectedNode := None;
      confirmation := None;
      selectedLabel := None;
    }

    /** `updateOptions`: the nested loops with the running counter `n`. */
    method UpdateOptions(options: seq<string>)
      requires Valid()
      modifies this
      ensures Valid()
      ensures View() == AfterOptions(old(View()), options)
      ensures data == old(data) && confirmation == old(confirmation) && selectedLabel == old(selectedLabel)
    {
      ghost var side := Side(|options|);
      ghost var placed := Placed(options);
      ghost var rowStart := 0;
      var n := 0;
      var i := 0;
      while Square(i) < |options|
        invariant 0 <= i <= side && rowStart == i * side
        invariant n == if rowStart <= |options| then rowStart else |options|
        invariant children == old(children) + placed[..n]
        invariant selectedNode == old(selectedNode)
        invariant data == old(data) && confirmation == old(confirmation) && selectedLabel == old(selectedLabel)
        decreases side - i
      {
        BelowSide(|options|, i);
        var j := 0;
        while Square(j) < |options| && n < |options|
          invariant 0 <= j <= side
          invariant n == if rowStart + j <= |options| then rowStart + j else |options|
          invariant children == old(children) + placed[..n]
          invariant selectedNode == old(selectedNode)
          invariant data == old(data) && confirmation == old(confirmation) && selectedLabel == old(selectedLabel)
          decreases side - j
        {
          BelowSide(|options|, j);
          PlacedAt(options, i, j);
          assert placed[..n + 1] == placed[..n] + [placed[n]];
          children := children + [GridChild(n, options[n], j, i, false)];
          n := n + 1;
          j := j + 1;
        }
        BelowSide(|options|, j);
        assert rowStart + side == (i + 1) * side;
        rowStart := rowStart + side;
        i := i + 1;
      }
      BelowSide(|options|, i);
      SideSquare(|options|, i, rowStart);
      assert placed[..n] == placed;
      AfterOptionsWellFormed(old(View()), options);
    }

    /** `updateSelectedValue`: every child named `selectedValue`, in order, becomes the selection. */
    method UpdateSelectedValue(selectedValue: string)
      requires Valid()
      modifies this
      ensures Valid()
      ensures View() == AfterSelect(old(View()), selectedValue)
      ensures data == old(data) && confirmation == old(confirmation) && selectedLabel == old(selectedLabel)
    {
      ghost var v0 := View();
      var k := 0;
      while k < |children|
        invariant 0 <= k <= |children| == |v0.children|
        invariant Valid() && Unlit(children) == Unlit(v0.children)
        invariant View() == match LastNamed(v0.children, selectedValue, k)
                            case None => v0
                            case Some(m) => GridView(HighlightOnly(v0.children, m), Some(m))
        invariant data == old(data) && confirmation == old(confirmation) && selectedLabel == old(selectedLabel)
      {
        assert Unlit(children)[k] == Unlit(v0.children)[k];
        if children[k].friendlyName == selectedValue {
          ghost var before := View();
          PickHighlightsOnly(before, k);
          HighlightOnlyIgnoresHighlights(children, v0.children, k);
          UnlitHighlightOnly(v0.children, k);
          if selectedNode.Some? {
            children := children[selectedNode.value := children[selectedNode.value].Deselect()];
          }
          selectedNode := Some(k);
          children := children[k := children[k].Select()];
          assert View() == Pick(before, k);
        }
        k := k + 1;
      }
    }

    /** `updateDefaultValue`: the same search, only while nothing is selected. */
    method UpdateDefaultValue(defaultValue: string)
      requires Valid()
      modifies this
      ensures Valid()
      ensures View() == AfterDefault(old(View()), defaultValue)
      ensures data == old(data) && confirmation == old(confirmation) && selectedLabel == old(selectedLabel)
    {
      if selectedNode.None? {
        UpdateSelectedValue(defaultValue);
      }
    }

    /** The mouse-click handler of child `k`. */
    method Click(k: nat)
      requires Valid() && k < |children|
      modifies this
      ensures Valid()
      ensures View() == GridView(HighlightOnly(old(children), k), Some(k))
      ensures data == old(data) && confirmation == old(confirmation) && selectedLabel == old(selectedLabel)
    {
      PickHighlightsOnly(View(), k);
      if selectedNode.Some? {
        children := children[selectedNode.value := children[selectedNode.value].Deselect()];
      }
      selectedNode := Some(k);
      children := children[k := children[k].Select()];
    }

    /**
     * The data listener, run after the widget's data became `newData`;
     * `changes` is `newData.changesFrom(oldData)`.
     */
    method OnDataChanged(changes: set<Key>, newData: ChooserData)
      requires Valid()
      modifies this
      ensures Valid()
      ensures data == newData
      ensures View() == AfterData(old(View()), changes, newData)
      ensures confirmation == Some(newData.Confirmed())
      ensures selectedLabel == old(selectedLabel)
    {
      data := newData;
      if OptionsKey in changes {
        UpdateOptions(newData.options);
      }
      if DefaultOptionKey in changes {
        UpdateDefaultValue(newData.defaultOption);
      }
      if SelectedOptionKey in changes {
        UpdateSelectedValue(newData.selectedOption);
      }
      confirmation := Some(newData.activeOption == newData.selectedOption);
    }

    /**
     * The selected-node listener: writes the selection back into the data.
     * With no selection it selects the default option in the data and moves
     * the selection, without a highlight, to the last child carrying that
     * name. `thrown` is the NullPointerException raised when the label is
     * then updated with no child selected.
     */
    method OnSelectedNodeChanged() returns (thrown: bool)
      requires Valid()
      modifies this
      ensures Valid()
      ensures children == old(children) && confirmation == old(confirmation)
      ensures old(selectedNode).Some? ==>
        selectedNode == old(selectedNode) && data == old(data).WithSelectedOption(children[selectedNode.value].friendlyName)
      ensures old(selectedNode).None? ==>
        data == old(data).WithSelectedOption(old(data).defaultOption) &&
        selectedNode == LastNamed(children, old(data).defaultOption, |children|)
      ensures thrown <==> selectedNode.None?
      ensures selectedLabel == if thrown then old(selectedLabel) else Some(children[selectedNode.value].friendlyName)
    {
      if selectedNode.None? {
        var defaultOption := data.defaultOption;
        data := data.WithSelectedOption(defaultOption);
        var k := 0;
        while k < |children|
          invariant 0 <= k <= |children|
          invariant selectedNode == LastNamed(children, defaultOption, k)
          invariant children == old(children) && confirmation == old(confirmation) && selectedLabel == old(selectedLabel)
          invariant data == old(data).WithSelectedOption(defaultOption)
        {
          if children[k].friendlyName == defaultOption {
            selectedNode := Some(k);
          }
          k := k + 1;
        }
      } else {
        data := data.WithSelectedOption(children[selectedNode.value].friendlyName);
      }
      thrown := selectedNode.None?;
      if !thrown {
        selectedLabel := Some(children[selectedNode.value].friendlyName);
      }
    }
  }
}
