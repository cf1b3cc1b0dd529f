/** The widget's state machine with the document tree abstracted away: the
    option list, the open/closed flag (the `show` class of the options list)
    and the type-ahead buffer, and one transition per event the widget
    listens to. */
module WidgetSpec {
  import opened JsBuiltins
  import opened Options

  // The `KeyboardEvent.code` values the keydown handler switches on.
  const SPACE := "Space"
  const ARROW_UP := "ArrowUp"
  const ARROW_DOWN := "ArrowDown"
  const ENTER := "Enter"
  const ESCAPE := "Escape"

  /** A keydown event: `code` names the physical key, `key` is the text it produces. */
  datatype KeyEvent = KeyEvent(code: string, key: string)

  /** The events the widget reacts to. `RowClicked(i)` is a click on the `i`-th
      row of the list; `TimerExpired` is the debounce timer's callback. */
  datatype Event = LabelClicked | RowClicked(row: nat) | Blurred | KeyPressed(e: KeyEvent) | TimerExpired

  datatype Widget = Widget(options: seq<FormattedOption>, show: bool, searchTerm: string)

  /** Every transition expects, and keeps, exactly one selected option. */
  predicate Inv(w: Widget) {
    SingleSelection(w.options)
  }

  /** A row click names a row that exists. */
  predicate Accepts(w: Widget, ev: Event) {
    ev.RowClicked? ==> ev.row < |w.options|
  }

  /** The codes that fall through to the `default:` branch, i.e. type-ahead. */
  predicate IsTypeAheadCode(code: string) {
    code != SPACE && code != ARROW_UP && code != ARROW_DOWN && code != ENTER && code != ESCAPE
  }

  function Sel(w: Widget): int {
    SelectedOptionIndex(w.options)
  }

  /** `selectValue(options[selectedOptionIndex].value)`: re-applies the current selection. */
  function Reapply(w: Widget): (r: Widget)
    requires Inv(w)
    ensures Inv(r) && SameEntries(w.options, r.options)
    ensures SelectedValue(r.options) == SelectedValue(w.options)
    ensures r.show == w.show && r.searchTerm == w.searchTerm
  {
    w.(options := AfterSelectValue(w.options, w.options[Sel(w)].value))
  }

  /** The type-ahead test: the lower-cased label starts with the search term. */
  predicate Matches(o: FormattedOption, term: string) {
    StartsWith(LowerCase(o.labelText), term)
  }

  /** Where `options.find(option => option.label.toLowerCase().startsWith(term))`
      stops: the first matching position, or -1. */
  function FirstMatch(options: seq<FormattedOption>, term: string): (r: int)
    ensures -1 <= r < |options|
    ensures r >= 0 ==> Matches(options[r], term) && forall j :: 0 <= j < r ==> !Matches(options[j], term)
    ensures r < 0 ==> forall j :: 0 <= j < |options| ==> !Matches(options[j], term)
  {
    FirstMatchFromSpec(options, term, 0);
    FirstMatchFrom(options, term, 0)
  }

  /** The scan behind `FirstMatch`, from position `i` on. */
  function FirstMatchFrom(options: seq<FormattedOption>, term: string, i: nat): int
    requires i <= |options|
    decreases |options| - i
  {
    if i == |options| then -1 else if Matches(options[i], term) then i else FirstMatchFrom(options, term, i + 1)
  }

  /** What the scan from position `i` finds: the first hit at or after `i`, or -1. */
  lemma {:induction false} FirstMatchFromSpec(options: seq<FormattedOption>, term: string, i: nat)
    requires i <= |options|
    decreases |options| - i
    ensures var r := FirstMatchFrom(options, term, i);
      (r == -1 || i <= r < |options|) &&
      (r >= 0 ==> Matches(options[r], term) && forall j :: i <= j < r ==> !Matches(options[j], term)) &&
      (r == -1 ==> forall j :: i <= j < |options| ==> !Matches(options[j], term))
  {
    if i < |options| && !Matches(options[i], term) {
      FirstMatchFromSpec(options, term, i + 1);
    }
  }

  /** The `default:` branch: append the key, select the first matching option if any. */
  function TypeAhead(w: Widget, key: string): (r: Widget)
    requires Inv(w)
    ensures Inv(r) && SameEntries(w.options, r.options)
    ensures r.searchTerm == w.searchTerm + key && r.show == w.show
    ensures FirstMatch(w.options, r.searchTerm) >= 0 ==>
      SelectedValue(r.options) == w.options[FirstMatch(w.options, r.searchTerm)].value
    ensures FirstMatch(w.options, r.searchTerm) < 0 ==> r.options == w.options
  {
    var term := w.searchTerm + key;
    var k := FirstMatch(w.options, term);
    if k >= 0 then
      assert HasValue(w.options, w.options[k].value);
      Widget(AfterSelectValue(w.options, w.options[k].value), w.show, term)
    else
      w.(searchTerm := term)
  }

  /** The keydown handler. */
  function KeyDown(w: Widget, e: KeyEvent): (r: Widget)
    requires Inv(w)
    ensures Inv(r) && SameEntries(w.options, r.options)
    ensures e.code != SPACE ==> r.show == (w.show && !(e.code == ENTER || e.code == ESCAPE))
    ensures r.searchTerm == if IsTypeAheadCode(e.code) then w.searchTerm + e.key else w.searchTerm
  {
    var i := Sel(w);
    if e.code == SPACE then
      Reapply(w.(show := !w.show))
    else if e.code == ARROW_UP then
      if i - 1 >= 0 then w.(options := AfterSelectValue(w.options, w.options[i - 1].value)) else w
    else if e.code == ARROW_DOWN then
      if i + 1 < |w.options| then w.(options := AfterSelectValue(w.options, w.options[i + 1].value)) else w
    else if e.code == ENTER || e.code == ESCAPE then
      w.(show := false)
    else
      TypeAhead(w, e.key)
  }

  /** One event, handled to completion. */
  function Step(w: Widget, ev: Event): (r: Widget)
    requires Inv(w) && Accepts(w, ev)
    ensures Inv(r)
    ensures SameEntries(w.options, r.options)
  {
    match ev
    case LabelClicked => Reapply(w.(show := !w.show))
    case RowClicked(i) => w.(options := AfterSelectValue(w.options, w.options[i].value), show := false)
    case Blurred => w.(show := !w.show)
    case KeyPressed(e) => KeyDown(w, e)
    case TimerExpired => w.(searchTerm := "")
  }

  /** A label click flips the open flag and re-applies the selection without
      changing the selected value; Space does exactly the same. */
  lemma LabelClickToggles(w: Widget, key: string)
    requires Inv(w)
    ensures var r := Step(w, LabelClicked);
      r.show == !w.show && r.searchTerm == w.searchTerm &&
      SelectedValue(r.options) == SelectedValue(w.options) &&
      (DistinctValues(w.options) ==> Sel(r) == Sel(w))
    ensures Step(w, KeyPressed(KeyEvent(SPACE, key))) == Step(w, LabelClicked)
  {
    if DistinctValues(w.options) {
      ValueIndexOfDistinct(w.options, Sel(w));
    }
  }

  /** ArrowUp moves the selection one option back and does nothing at the first option. */
  lemma ArrowUpStopsAtFirst(w: Widget, key: string)
    requires Inv(w)
    ensures var r := Step(w, KeyPressed(KeyEvent(ARROW_UP, key)));
      (Sel(w) == 0 ==> r == w) &&
      (Sel(w) > 0 ==>
        r.show == w.show && r.searchTerm == w.searchTerm &&
        SelectedValue(r.options) == w.options[Sel(w) - 1].value &&
        (DistinctValues(w.options) ==> Sel(r) == Sel(w) - 1))
  {
    if Sel(w) > 0 && DistinctValues(w.options) {
      ValueIndexOfDistinct(w.options, Sel(w) - 1);
    }
  }

  /** ArrowDown moves the selection one option forward and does nothing at the last option. */
  lemma ArrowDownStopsAtLast(w: Widget, key: string)
    requires Inv(w)
    ensures var r := Step(w, KeyPressed(KeyEvent(ARROW_DOWN, key)));
      (Sel(w) == |w.options| - 1 ==> r == w) &&
      (Sel(w) < |w.options| - 1 ==>
        r.show == w.show && r.searchTerm == w.searchTerm &&
        SelectedValue(r.options) == w.options[Sel(w) + 1].value &&
        (DistinctValues(w.options) ==> Sel(r) == Sel(w) + 1))
  {
    if Sel(w) < |w.options| - 1 && DistinctValues(w.options) {
      ValueIndexOfDistinct(w.options, Sel(w) + 1);
    }
  }

  /** Enter and Escape close the list, change nothing else, and a second press changes nothing. */
  lemma EnterEscapeClose(w: Widget, e: KeyEvent)
    requires Inv(w)
    requires e.code == ENTER || e.code == ESCAPE
    ensures Step(w, KeyPressed(e)) == w.(show := false)
    ensures Step(Step(w, KeyPressed(e)), KeyPressed(e)) == Step(w, KeyPressed(e))
  {
  }

  /** A row click selects that row's value and closes the list. */
  lemma RowClickSelectsAndCloses(w: Widget, i: nat)
    requires Inv(w)
    requires i < |w.options|
    ensures var r := Step(w, RowClicked(i));
      !r.show && r.searchTerm == w.searchTerm &&
      SelectedValue(r.options) == w.options[i].value &&
      (DistinctValues(w.options) ==> Sel(r) == i)
  {
    if DistinctValues(w.options) {
      ValueIndexOfDistinct(w.options, i);
    }
  }

  /** Blur flips the open flag (it does not force it off), so two blurs restore the state. */
  lemma BlurToggles(w: Widget)
    requires Inv(w)
    ensures Step(w, Blurred) == w.(show := !w.show)
    ensures Step(Step(w, Blurred), Blurred) == w
  {
  }

  /** The debounce timer only empties the search term. */
  lemma TimerOnlyClearsSearch(w: Widget)
    requires Inv(w)
    ensures Step(w, TimerExpired) == w.(searchTerm := "")
  {
  }

  /** Type-ahead with a match: the key is appended and the first option whose
      lower-cased label starts with the new term is selected. */
  lemma TypeAheadSelectsFirstMatch(w: Widget, e: KeyEvent, k: int)
    requires Inv(w)
    requires IsTypeAheadCode(e.code)
    requires 0 <= k < |w.options|
    requires Matches(w.options[k], w.searchTerm + e.key)
    requires forall j :: 0 <= j < k ==> !Matches(w.options[j], w.searchTerm + e.key)
    ensures var r := Step(w, KeyPressed(e));
      r.searchTerm == w.searchTerm + e.key && r.show == w.show &&
      SelectedValue(r.options) == w.options[k].value &&
      (DistinctValues(w.options) ==> Sel(r) == k)
  {
    if DistinctValues(w.options) {
      ValueIndexOfDistinct(w.options, k);
    }
  }

  /** Type-ahead without a match: only the search term grows. */
  lemma TypeAheadWithoutMatch(w: Widget, e: KeyEvent)
    requires Inv(w)
    requires IsTypeAheadCode(e.code)
    requires forall j :: 0 <= j < |w.options| ==> !Matches(w.options[j], w.searchTerm + e.key)
    ensures Step(w, KeyPressed(e)) == w.(searchTerm := w.searchTerm + e.key)
  {
  }

  /** The search term is not lower-cased, so once it holds an upper-case letter
      no label can match and the selection stays where it is. */
  lemma UpperCaseKeyNeverMatches(w: Widget, e: KeyEvent, i: int)
    requires Inv(w)
    requires IsTypeAheadCode(e.code)
    requires 0 <= i < |e.key| && IsUpperAscii(e.key[i])
    ensures Step(w, KeyPressed(e)) == w.(searchTerm := w.searchTerm + e.key)
  {
    var term := w.searchTerm + e.key;
    assert IsUpperAscii(term[|w.searchTerm| + i]);
    forall j | 0 <= j < |w.options|
      ensures !Matches(w.options[j], term)
    {
      var lowered := LowerCase(w.options[j].labelText);
      if |term| <= |lowered| {
        assert !IsUpperAscii(lowered[|w.searchTerm| + i]);
      }
    }
    TypeAheadWithoutMatch(w, e);
  }

  /** "Apple", "Banana" and "Cherry", with Banana selected. */
  function Fruits(): seq<FormattedOption> {
    [FormattedOption("apple", "Apple", false), FormattedOption("banana", "Banana", true),
     FormattedOption("cherry", "Cherry", false)]
  }

  /** Banana is the one selected fruit. */
  lemma FruitsSelectBanana()
    ensures SelectedOptionIndex(Fruits()) == 1 && SingleSelection(Fruits())
  {
    var f := Fruits();
    assert !f[0].selected && f[1].selected && !f[2].selected;
  }

  /** No fruit's lower-cased label starts with "bc". */
  lemma NoFruitStartsWithBC(term: string)
    requires term == "bc"
    ensures forall j :: 0 <= j < |Fruits()| ==> !Matches(Fruits()[j], term)
  {
    var f := Fruits();
    assert term[0] == 'b' && term[1] == 'c';
    forall j | 0 <= j < |f|
      ensures !Matches(f[j], term)
    {
      var lowered := LowerCase(f[j].labelText);
      if j == 0 {
        assert lowered[0] == 'a';
      } else if j == 1 {
        assert lowered[1] == 'a';
      } else {
        assert lowered[0] == 'c';
      }
    }
  }

  /** The buffer is matched as a whole: with Banana selected and "b" already
      typed, the key "c" makes the term "bc", which no label starts with, so
      the selection stays on Banana rather than moving to Cherry. */
  lemma BufferedKeysMatchTogether(w: Widget)
    requires w.options == Fruits() && w.searchTerm == "b"
    ensures Inv(w)
    ensures Step(w, KeyPressed(KeyEvent("KeyC", "c"))) == w.(searchTerm := "bc")
    ensures SelectedValue(Step(w, KeyPressed(KeyEvent("KeyC", "c"))).options) == "banana"
  {
    FruitsSelectBanana();
    var e := KeyEvent("KeyC", "c");
    var term := w.searchTerm + e.key;
    assert term == "bc" by {
      assert term[0] == 'b' && term[1] == 'c';
    }
    NoFruitStartsWithBC(term);
    assert IsTypeAheadCode(e.code) by {
      assert e.code[0] == 'K';
    }
    TypeAheadWithoutMatch(w, e);
  }
}
