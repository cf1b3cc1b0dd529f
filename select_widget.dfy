/** The `Select` widget object: the option list it copies from the hidden
    native `<select>`, the label it shows, the rendered rows with their class
    lists, the open flag and the type-ahead buffer, all updated in place by
    `selectValue` and by the event handlers. Each handler is proved to follow
    `WidgetSpec.Step`, and to keep the label, the native flags and the row
    classes in step with the selection. */
module SelectWidget {
  import opened JsBuiltins
  import opened Options
  import opened WidgetSpec

  // Class names the widget puts on its rows.
  const OPTION_CLASS := "customSelect__option"
  /** The class set on the initially selected row when the rows are built. */
  const INITIAL_ACTIVE_CLASS := "select"
  /** The class `selectValue` removes from the old row and adds to the new one. */
  const ACTIVE_CLASS := "selected"

  /** A rendered `<li>` row: its `data-value` attribute, its text and its class list. */
  datatype Row = Row(dataValue: string, text: string, classes: set<string>)

  /** The row built for an option when the widget is set up. */
  function InitialRow(o: FormattedOption): (r: Row)
    ensures r.dataValue == o.value && r.text == o.labelText && OPTION_CLASS in r.classes
    ensures INITIAL_ACTIVE_CLASS in r.classes <==> o.selected
    ensures ACTIVE_CLASS !in r.classes
  {
    Row(o.value, o.labelText, {OPTION_CLASS} + (if o.selected then {INITIAL_ACTIVE_CLASS} else {}))
  }

  /** `querySelector('[data-value="value"]')` on the list: the first row tagged
      `value`, or -1 for `null`. */
  function RowIndex(rows: seq<Row>, value: string): (r: int)
    ensures -1 <= r < |rows|
    ensures r >= 0 ==> rows[r].dataValue == value && forall j :: 0 <= j < r ==> rows[j].dataValue != value
    ensures r < 0 ==> forall j :: 0 <= j < |rows| ==> rows[j].dataValue != value
  {
    RowIndexFromSpec(rows, value, 0);
    RowIndexFrom(rows, value, 0)
  }

  /** The scan behind `RowIndex`, from position `i` on. */
  function RowIndexFrom(rows: seq<Row>, value: string, i: nat): int
    requires i <= |rows|
    decreases |rows| - i
  {
    if i == |rows| then -1 else if rows[i].dataValue == value then i else RowIndexFrom(rows, value, i + 1)
  }

  /** What the scan from position `i` finds: the first hit at or after `i`, or -1. */
  lemma {:induction false} RowIndexFromSpec(rows: seq<Row>, value: string, i: nat)
    requires i <= |rows|
    decreases |rows| - i
    ensures var r := RowIndexFrom(rows, value, i);
      (r == -1 || i <= r < |rows|) &&
      (r >= 0 ==> rows[r].dataValue == value && forall j :: i <= j < r ==> rows[j].dataValue != value) &&
      (r == -1 ==> forall j :: i <= j < |rows| ==> rows[j].dataValue != value)
  {
    if i < |rows| && rows[i].dataValue != value {
      RowIndexFromSpec(rows, value, i + 1);
    }
  }

  /** Row `j` was rendered from option `j`. */
  predicate RowsAligned(rows: seq<Row>, options: seq<FormattedOption>) {
    |rows| == |options| &&
    forall j :: 0 <= j < |rows| ==> rows[j].dataValue == options[j].value && rows[j].text == options[j].labelText
  }

  /** Since row `j` is tagged with option `j`'s value, the row lookup finds the
      same position as the option lookup. */
  lemma RowIndexIsValueIndex(rows: seq<Row>, options: seq<FormattedOption>, value: string)
    requires RowsAligned(rows, options)
    ensures RowIndex(rows, value) == ValueIndex(options, value)
  {
    var r, v := RowIndex(rows, value), ValueIndex(options, value);
    if v >= 0 {
      assert rows[v].dataValue == value;
    }
    if r >= 0 {
      assert options[r].value == value;
    }
  }

  /** The two rows differ at most in whether they carry `ACTIVE_CLASS`. */
  predicate SameRowUpToActive(a: Row, b: Row) {
    a.dataValue == b.dataValue && a.text == b.text && a.classes - {ACTIVE_CLASS} == b.classes - {ACTIVE_CLASS}
  }

  /** The two row lists differ at most in which rows carry `ACTIVE_CLASS`. */
  predicate SameRowsUpToActive(a: seq<Row>, b: seq<Row>) {
    |a| == |b| && forall j :: 0 <= j < |a| ==> SameRowUpToActive(a[j], b[j])
  }

  /** Exactly row `k` carries `ACTIVE_CLASS`. */
  predicate OnlyActiveRow(rows: seq<Row>, k: int) {
    forall j :: 0 <= j < |rows| ==> (ACTIVE_CLASS in rows[j].classes <==> j == k)
  }

  /** No row but row `k` carries `ACTIVE_CLASS`. */
  predicate ActiveAtMost(rows: seq<Row>, k: int) {
    forall j :: 0 <= j < |rows| && ACTIVE_CLASS in rows[j].classes ==> j == k
  }

  /** What the widget keeps in step apart from the native elements: exactly one
      selected entry, the label of the selected
      entry on show, one row per entry, and no row marked `ACTIVE_CLASS` but
      the row of the selected value (the initially selected row carries
      `INITIAL_ACTIVE_CLASS` instead, so at first no row is marked). */
  predicate Consistent(options: seq<FormattedOption>, shownLabel: string, rows: seq<Row>) {
    SingleSelection(options) &&
    shownLabel == options[SelectedOptionIndex(options)].labelText &&
    RowsAligned(rows, options) &&
    ActiveAtMost(rows, ValueIndex(options, SelectedValue(options)))
  }

  /** `classList.remove(ACTIVE_CLASS)` on one row. */
  function Unmark(r: Row): (u: Row)
    ensures ACTIVE_CLASS !in u.classes && SameRowUpToActive(r, u)
  {
    var u := r.(classes := r.classes - {ACTIVE_CLASS});
    assert u.classes - {ACTIVE_CLASS} == r.classes - {ACTIVE_CLASS};
    u
  }

  /** `classList.add(ACTIVE_CLASS)` on one row. */
  function Mark(r: Row): (m: Row)
    ensures ACTIVE_CLASS in m.classes && SameRowUpToActive(r, m)
  {
    var m := r.(classes := r.classes + {ACTIVE_CLASS});
    assert m.classes - {ACTIVE_CLASS} == r.classes - {ACTIVE_CLASS};
    m
  }

  /** The rows after `selectValue(value)`: `ACTIVE_CLASS` is removed from the
      row of the selected value and added to the row of `value`. */
  function RowsAfterSelect(rows: seq<Row>, options: seq<FormattedOption>, value: string): (r: seq<Row>)
    requires RowsAligned(rows, options)
    requires SelectedOptionIndex(options) >= 0
    requires HasValue(options, value)
    ensures |r| == |rows| && ACTIVE_CLASS in r[ValueIndex(options, value)].classes
  {
    RowIndexIsValueIndex(rows, options, SelectedValue(options));
    RowIndexIsValueIndex(rows, options, value);
    var prevRow := RowIndex(rows, SelectedValue(options));
    var newRow := RowIndex(rows, value);
    var unmarked := rows[prevRow := Unmark(rows[prevRow])];
    unmarked[newRow := Mark(unmarked[newRow])]
  }

  /** `selectValue` on the rows: the row of `value`, and only that row, ends up
      marked, and no row changes otherwise. */
  lemma RowsAfterSelectMarksOne(rows: seq<Row>, options: seq<FormattedOption>, value: string)
    requires RowsAligned(rows, options)
    requires SingleSelection(options)
    requires HasValue(options, value)
    requires ActiveAtMost(rows, ValueIndex(options, SelectedValue(options)))
    ensures SameRowsUpToActive(rows, RowsAfterSelect(rows, options, value))
    ensures OnlyActiveRow(RowsAfterSelect(rows, options, value), ValueIndex(options, value))
  {
    var n := ValueIndex(options, value);
    RowIndexIsValueIndex(rows, options, SelectedValue(options));
    RowIndexIsValueIndex(rows, options, value);
    var prevRow := RowIndex(rows, SelectedValue(options));
    var rowsAfter := RowsAfterSelect(rows, options, value);
    forall j | 0 <= j < |rowsAfter|
      ensures SameRowUpToActive(rows[j], rowsAfter[j])
      ensures ACTIVE_CLASS in rowsAfter[j].classes <==> j == n
    {
      if j != n && j != prevRow {
        assert rowsAfter[j] == rows[j];
      }
    }
  }

  /** `selectValue` keeps the widget consistent: the new selection is the first
      entry holding `value`, its label is the one on show, and its row, and
      only its row, is marked, while no row changes otherwise. */
  lemma SelectValueKeepsConsistent(options: seq<FormattedOption>, shownLabel: string, rows: seq<Row>, value: string)
    requires Consistent(options, shownLabel, rows)
    requires HasValue(options, value)
    ensures var after := AfterSelectValue(options, value);
      var rowsAfter := RowsAfterSelect(rows, options, value);
      Consistent(after, after[ValueIndex(options, value)].labelText, rowsAfter) &&
      SelectedOptionIndex(after) == ValueIndex(options, value) &&
      SameRowsUpToActive(rows, rowsAfter) &&
      OnlyActiveRow(rowsAfter, ValueIndex(options, value))
  {
    var after := AfterSelectValue(options, value);
    var rowsAfter := RowsAfterSelect(rows, options, value);
    ValueIndexSameEntries(options, after, value);
    RowsAfterSelectMarksOne(rows, options, value);
    assert RowsAligned(rowsAfter, after) by {
      forall j | 0 <= j < |rowsAfter|
        ensures rowsAfter[j].dataValue == after[j].value && rowsAfter[j].text == after[j].labelText
      {
        assert SameRowUpToActive(rows[j], rowsAfter[j]);
      }
    }
  }

  /** The freshly built widget is consistent: the rows carry the initial
      classes only, so no row is marked `ACTIVE_CLASS` yet. */
  lemma InitialRowsConsistent(options: seq<FormattedOption>, shownLabel: string, rows: seq<Row>)
    requires SingleSelection(options)
    requires shownLabel == options[SelectedOptionIndex(options)].labelText
    requires |rows| == |options| && forall j :: 0 <= j < |rows| ==> rows[j] == InitialRow(options[j])
    ensures Consistent(options, shownLabel, rows)
    ensures forall j :: 0 <= j < |rows| ==> ACTIVE_CLASS !in rows[j].classes
  {
    forall j | 0 <= j < |rows|
      ensures ACTIVE_CLASS !in rows[j].classes
    {
      assert ACTIVE_CLASS != OPTION_CLASS && ACTIVE_CLASS != INITIAL_ACTIVE_CLASS;
    }
  }

  class Select {
    /** The `<option>` children of the native `<select>`, in document order. */
    const nativeOptions: seq<NativeOption>
    var options: seq<FormattedOption>
    /** The `innerText` of the label span. */
    var shownLabel: string
    var rows: seq<Row>
    /** Whether the options list carries the `show` class. */
    var show: bool
    /** The type-ahead buffer the keydown handler closes over. */
    var searchTerm: string

    /** Besides `Consistent`: entry `i` was formatted from the `i`-th native
        option, which are distinct objects, and mirrors its value, label and
        selected flag. */
    ghost predicate Valid()
      reads this, nativeOptions
    {
      Consistent(options, shownLabel, rows) &&
      (forall i, j :: 0 <= i < j < |nativeOptions| ==> nativeOptions[i] != nativeOptions[j]) &&
      |nativeOptions| == |options| &&
      forall i :: 0 <= i < |options| ==>
        nativeOptions[i].selected == options[i].selected &&
        nativeOptions[i].value == options[i].value &&
        nativeOptions[i].labelText == options[i].labelText
    }

    /** The state `WidgetSpec` speaks about. */
    function Abstract(): Widget
      reads this
    {
      Widget(options, show, searchTerm)
    }

    /** Exactly the selected option's row carries `ACTIVE_CLASS`. */
    predicate ActiveRowIsSelection()
      reads this
    {
      OnlyActiveRow(rows, SelectedOptionIndex(options))
    }

    /** `new Select(element)`, with `natives` the element's `<option>` children
        in document order. A single-choice `<select>` reports exactly one of
        them as selected. */
    constructor (natives: seq<NativeOption>)
      requires forall i, j :: 0 <= i < j < |natives| ==> natives[i] != natives[j]
      requires SingleSelection(GetFormattedOptions(natives))
      ensures Valid()
      ensures nativeOptions == natives
      ensures !show && searchTerm == ""
      ensures shownLabel == options[SelectedOptionIndex(options)].labelText
      ensures |rows| == |options| && forall j :: 0 <= j < |rows| ==> rows[j] == InitialRow(options[j])
    {
      nativeOptions := natives;
      options := GetFormattedOptions(natives);
      show := false;
      searchTerm := "";
      new;
      SetupCustomElement();
      InitialRowsConsistent(options, shownLabel, rows);
    }

    /** `setupCustomElement`: show the selected option's label and render one
        row per option. */
    method SetupCustomElement()
      requires SelectedOptionIndex(options) >= 0
      modifies this
      ensures options == old(options) && show == old(show) && searchTerm == old(searchTerm)
      ensures shownLabel == options[SelectedOptionIndex(options)].labelText
      ensures |rows| == |options| && forall j :: 0 <= j < |rows| ==> rows[j] == InitialRow(options[j])
    {
      shownLabel := options[SelectedOptionIndex(options)].labelText;
      var built: seq<Row> := [];
      for i := 0 to |options|
        invariant |built| == i
        invariant forall j :: 0 <= j < i ==> built[j] == InitialRow(options[j])
      {
        built := built + [InitialRow(options[i])];
      }
      rows := built;
    }

    /** `selectValue(value)`: unselect the current option (list entry, native
        element, row class), then select the first option with `value`, show
        its label and mark its row. */
    method SelectValue(value: string)
      requires Valid()
      requires HasValue(options, value)
      modifies this, nativeOptions
      ensures Valid()
      ensures options == AfterSelectValue(old(options), value)
      ensures rows == RowsAfterSelect(old(rows), old(options), value)
      ensures show == old(show) && searchTerm == old(searchTerm)
      ensures SelectedValue(options) == value
      ensures SameRowsUpToActive(old(rows), rows) && ActiveRowIsSelection()
    {
      var current, currentRows := options, rows;
      SelectValueKeepsConsistent(current, shownLabel, currentRows, value);
      var n := ValueIndex(current, value);
      var prev := SelectedOptionIndex(current);
      // The native flags: the previous option's off, the new option's on.
      nativeOptions[prev].selected := false;
      nativeOptions[n].selected := true;
      // The list entries and the row classes follow `AfterSelectValue` and
      // `RowsAfterSelect`; the label becomes the new entry's.
      options, shownLabel, rows :=
        AfterSelectValue(current, value), current[n].labelText, RowsAfterSelect(currentRows, current, value);
    }

    /** Click on the label: toggle `show` and re-apply the current selection. */
    method LabelClick()
      requires Valid()
      modifies this, nativeOptions
      ensures Valid()
      ensures Abstract() == Step(old(Abstract()), LabelClicked)
      ensures SameRowsUpToActive(old(rows), rows) && ActiveRowIsSelection()
    {
      assert Step(Abstract(), LabelClicked) ==
        Abstract().(show := !show, options := AfterSelectValue(options, options[SelectedOptionIndex(options)].value));
      show := !show;
      SelectValue(options[SelectedOptionIndex(options)].value);
    }

    /** Click on row `i`: select that row's option and close the list. */
    method RowClick(i: nat)
      requires Valid()
      requires i < |options|
      modifies this, nativeOptions
      ensures Valid()
      ensures Abstract() == Step(old(Abstract()), RowClicked(i))
      ensures SameRowsUpToActive(old(rows), rows) && ActiveRowIsSelection()
    {
      assert Step(Abstract(), RowClicked(i)) == Abstract().(options := AfterSelectValue(options, options[i].value), show := false);
      SelectValue(options[i].value);
      show := false;
    }

    /** The container loses focus: `show` is toggled, not cleared. */
    method Blur()
      requires Valid()
      modifies this
      ensures Valid()
      ensures Abstract() == Step(old(Abstract()), Blurred)
      ensures rows == old(rows) && shownLabel == old(shownLabel)
    {
      show := !show;
    }

    /** The keydown handler: one branch per `e.code`. */
    method KeyDown(e: KeyEvent)
      requires Valid()
      modifies this, nativeOptions
      ensures Valid()
      ensures Abstract() == Step(old(Abstract()), KeyPressed(e))
      ensures SameRowsUpToActive(old(rows), rows)
      ensures e.code == SPACE ==> ActiveRowIsSelection()
      ensures e.code == ARROW_UP ==>
        (old(SelectedOptionIndex(options)) == 0 ==> rows == old(rows) && shownLabel == old(shownLabel)) &&
        (old(SelectedOptionIndex(options)) > 0 ==> ActiveRowIsSelection())
      ensures e.code == ARROW_DOWN ==>
        (old(SelectedOptionIndex(options)) == |options| - 1 ==> rows == old(rows) && shownLabel == old(shownLabel)) &&
        (old(SelectedOptionIndex(options)) < |options| - 1 ==> ActiveRowIsSelection())
      ensures e.code == ENTER || e.code == ESCAPE ==> rows == old(rows) && shownLabel == old(shownLabel)
      ensures IsTypeAheadCode(e.code) ==>
        (FirstMatch(old(options), old(searchTerm) + e.key) < 0 ==> rows == old(rows) && shownLabel == old(shownLabel)) &&
        (FirstMatch(old(options), old(searchTerm) + e.key) >= 0 ==> ActiveRowIsSelection())
    {
      if e.code == SPACE {
        SpaceKey(e);
      } else if e.code == ARROW_UP {
        ArrowUpKey(e);
      } else if e.code == ARROW_DOWN {
        ArrowDownKey(e);
      } else if e.code == ENTER || e.code == ESCAPE {
        CloseKey(e);
      } else {
        TypeAheadKey(e);
      }
    }

    /** Space: toggle `show` and re-apply the current selection, as a label click does. */
    method SpaceKey(e: KeyEvent)
      requires e.code == SPACE
      requires Valid()
      modifies this, nativeOptions
      ensures Valid()
      ensures Abstract() == Step(old(Abstract()), KeyPressed(e))
      ensures SameRowsUpToActive(old(rows), rows)
      ensures ActiveRowIsSelection()
    {
      assert Step(Abstract(), KeyPressed(e)) ==
        Abstract().(show := !show, options := AfterSelectValue(options, options[SelectedOptionIndex(options)].value));
      show := !show;
      SelectValue(options[SelectedOptionIndex(options)].value);
    }

    /** ArrowUp: select the previous option; `options[i - 1]` is `undefined`
        at the first option, and nothing happens. */
    method ArrowUpKey(e: KeyEvent)
      requires e.code == ARROW_UP
      requires Valid()
      modifies this, nativeOptions
      ensures Valid()
      ensures Abstract() == Step(old(Abstract()), KeyPressed(e))
      ensures SameRowsUpToActive(old(rows), rows)
      ensures old(SelectedOptionIndex(options)) == 0 ==> rows == old(rows) && shownLabel == old(shownLabel)
      ensures old(SelectedOptionIndex(options)) > 0 ==> ActiveRowIsSelection()
    {
      var i := SelectedOptionIndex(options);
      if i - 1 >= 0 {
        assert Step(Abstract(), KeyPressed(e)) == Abstract().(options := AfterSelectValue(options, options[i - 1].value));
        SelectValue(options[i - 1].value);
      } else {
        assert Step(Abstract(), KeyPressed(e)) == Abstract();
      }
    }

    /** ArrowDown: select the next option; `options[i + 1]` is `undefined` at
        the last option, and nothing happens. */
    method ArrowDownKey(e: KeyEvent)
      requires e.code == ARROW_DOWN
      requires Valid()
      modifies this, nativeOptions
      ensures Valid()
      ensures Abstract() == Step(old(Abstract()), KeyPressed(e))
      ensures SameRowsUpToActive(old(rows), rows)
      ensures old(SelectedOptionIndex(options)) == |options| - 1 ==> rows == old(rows) && shownLabel == old(shownLabel)
      ensures old(SelectedOptionIndex(options)) < |options| - 1 ==> ActiveRowIsSelection()
    {
      var i := SelectedOptionIndex(options);
      if i + 1 < |options| {
        assert Step(Abstract(), KeyPressed(e)) == Abstract().(options := AfterSelectValue(options, options[i + 1].value));
        SelectValue(options[i + 1].value);
      } else {
        assert Step(Abstract(), KeyPressed(e)) == Abstract();
      }
    }

    /** Enter and Escape: close the list. */
    method CloseKey(e: KeyEvent)
      requires e.code == ENTER || e.code == ESCAPE
      requires Valid()
      modifies this
      ensures Valid()
      ensures Abstract() == Step(old(Abstract()), KeyPressed(e))
      ensures SameRowsUpToActive(old(rows), rows)
      ensures rows == old(rows) && shownLabel == old(shownLabel)
    {
      show := false;
    }

    /** Any other key: extend the search term and select the first option
        whose lower-cased label starts with it, if there is one. */
    method TypeAheadKey(e: KeyEvent)
      requires IsTypeAheadCode(e.code)
      requires Valid()
      modifies this, nativeOptions
      ensures Valid()
      ensures Abstract() == Step(old(Abstract()), KeyPressed(e))
      ensures SameRowsUpToActive(old(rows), rows)
      ensures FirstMatch(old(options), old(searchTerm) + e.key) < 0 ==> rows == old(rows) && shownLabel == old(shownLabel)
      ensures FirstMatch(old(options), old(searchTerm) + e.key) >= 0 ==> ActiveRowIsSelection()
    {
      var term := searchTerm + e.key;
      var searched := FirstMatch(options, term);
      if searched >= 0 {
        assert Step(Abstract(), KeyPressed(e)) ==
          Abstract().(options := AfterSelectValue(options, options[searched].value), searchTerm := term);
      } else {
        assert Step(Abstract(), KeyPressed(e)) == Abstract().(searchTerm := term);
      }
      searchTerm := term;
      if searched >= 0 {
        SelectValue(options[searched].value);
      }
    }

    /** The debounce timer fires: the search term is emptied. */
    method TimerFired()
      requires Valid()
      modifies this
      ensures Valid()
      ensures Abstract() == Step(old(Abstract()), TimerExpired)
      ensures rows == old(rows) && shownLabel == old(shownLabel)
    {
      searchTerm := "";
    }
  }
}
