/** The option list of the widget: the native `<option>` entries it mirrors,
    the formatted copies it keeps, the two selection getters and the effect of
    `selectValue` on the list. */
module Options {
  import opened JsBuiltins

  /** A native `<option>` element of the hidden `<select>`: its value and label
      never change here; its `selected` flag is written by the widget. */
  class NativeOption {
    const value: string
    const labelText: string
    var selected: bool

    constructor (value: string, labelText: string, selected: bool)
      ensures this.value == value && this.labelText == labelText && this.selected == selected
    {
      this.value := value;
      this.labelText := labelText;
      this.selected := selected;
    }
  }

  /** One entry of `Select.options`: a copy of the native entry's value, label
      and selected flag. Its back-reference `element` is kept by position: the
      widget holds the native entries in the same order (`Select.nativeOptions`). */
  datatype FormattedOption = FormattedOption(value: string, labelText: string, selected: bool)

  /** `getFormattedOptions`: one formatted entry per native entry, in document order. */
  function GetFormattedOptions(natives: seq<NativeOption>): (r: seq<FormattedOption>)
    reads natives
    ensures |r| == |natives|
    ensures forall i :: 0 <= i < |natives| ==>
      r[i].value == natives[i].value && r[i].labelText == natives[i].labelText &&
      r[i].selected == natives[i].selected
  {
    if natives == [] then []
    else [FormattedOption(natives[0].value, natives[0].labelText, natives[0].selected)] + GetFormattedOptions(natives[1..])
  }

  /** The scan behind `options.find(option => option.selected)`, from position
      `i` on. */
  function FindSelectedFrom(options: seq<FormattedOption>, i: nat): int
    requires i <= |options|
    decreases |options| - i
  {
    if i == |options| then -1 else if options[i].selected then i else FindSelectedFrom(options, i + 1)
  }

  /** What the scan from position `i` finds: the first selected entry at or
      after `i`, or -1. */
  lemma {:induction false} FindSelectedFromSpec(options: seq<FormattedOption>, i: nat)
    requires i <= |options|
    decreases |options| - i
    ensures var r := FindSelectedFrom(options, i);
      (r == -1 || i <= r < |options|) &&
      (r >= 0 ==> options[r].selected && forall j :: i <= j < r ==> !options[j].selected) &&
      (r == -1 ==> forall j :: i <= j < |options| ==> !options[j].selected)
  {
    if i < |options| && !options[i].selected {
      FindSelectedFromSpec(options, i + 1);
    }
  }

  /** The getter `selectedOption`: `options.find(option => option.selected)`. */
  function SelectedOption(options: seq<FormattedOption>): (r: Maybe<FormattedOption>)
    ensures r.Defined? ==> r.value in options && r.value.selected
  {
    FindSelectedFromSpec(options, 0);
    var k := FindSelectedFrom(options, 0);
    if k < 0 then Undefined else Defined(options[k])
  }

  /** `selectedOption` is `undefined` exactly when no entry is selected, and
      otherwise the first selected entry. */
  lemma SelectedOptionIsFirstSelected(options: seq<FormattedOption>)
    ensures SelectedOption(options).Undefined? <==> forall j :: 0 <= j < |options| ==> !options[j].selected
    ensures SelectedOption(options).Defined? ==>
      exists k :: 0 <= k < |options| && SelectedOption(options).value == options[k] &&
        options[k].selected && forall j :: 0 <= j < k ==> !options[j].selected
  {
    FindSelectedFromSpec(options, 0);
    var k := FindSelectedFrom(options, 0);
    if k >= 0 {
      assert SelectedOption(options).value == options[k];
    }
  }

  /** The getter `selectedOptionIndex`: `indexOf(selectedOption)`, which is the
      position of the first selected entry, or -1 when none is selected. */
  function SelectedOptionIndex(options: seq<FormattedOption>): (r: int)
    ensures -1 <= r < |options|
    ensures r >= 0 ==> options[r].selected && forall j :: 0 <= j < r ==> !options[j].selected
    ensures r < 0 ==> forall j :: 0 <= j < |options| ==> !options[j].selected
  {
    FindSelectedFromSpec(options, 0);
    IndexOfFindsFirst(options, SelectedOption(options));
    IndexOf(options, SelectedOption(options))
  }

  /** Exactly one entry is selected: the state every widget operation expects. */
  predicate SingleSelection(options: seq<FormattedOption>) {
    SelectedOptionIndex(options) >= 0 &&
    forall j :: 0 <= j < |options| && options[j].selected ==> j == SelectedOptionIndex(options)
  }

  function SelectedValue(options: seq<FormattedOption>): string
    requires SelectedOptionIndex(options) >= 0
  {
    options[SelectedOptionIndex(options)].value
  }

  predicate HasValue(options: seq<FormattedOption>, value: string) {
    exists i :: 0 <= i < |options| && options[i].value == value
  }

  predicate DistinctValues(options: seq<FormattedOption>) {
    forall i, j :: 0 <= i < j < |options| ==> options[i].value != options[j].value
  }

  /** Where `options.find(option => option.value === value)` stops: the first
      position holding `value`, or -1. */
  function ValueIndex(options: seq<FormattedOption>, value: string): (r: int)
    ensures -1 <= r < |options|
    ensures r >= 0 ==> options[r].value == value && forall j :: 0 <= j < r ==> options[j].value != value
    ensures r < 0 ==> forall j :: 0 <= j < |options| ==> options[j].value != value
  {
    ValueIndexFromSpec(options, value, 0);
    ValueIndexFrom(options, value, 0)
  }

  /** The scan behind `ValueIndex`, from position `i` on. */
  function ValueIndexFrom(options: seq<FormattedOption>, value: string, i: nat): int
    requires i <= |options|
    decreases |options| - i
  {
    if i == |options| then -1 else if options[i].value == value then i else ValueIndexFrom(options, value, i + 1)
  }

  /** What the scan from position `i` finds: the first entry holding `value`
      at or after `i`, or -1. */
  lemma {:induction false} ValueIndexFromSpec(options: seq<FormattedOption>, value: string, i: nat)
    requires i <= |options|
    decreases |options| - i
    ensures var r := ValueIndexFrom(options, value, i);
      (r == -1 || i <= r < |options|) &&
      (r >= 0 ==> options[r].value == value && forall j :: i <= j < r ==> options[j].value != value) &&
      (r == -1 ==> forall j :: i <= j < |options| ==> options[j].value != value)
  {
    if i < |options| && options[i].value != value {
      ValueIndexFromSpec(options, value, i + 1);
    }
  }

  /** With distinct values, looking an entry up by its own value finds that entry. */
  lemma ValueIndexOfDistinct(options: seq<FormattedOption>, k: int)
    requires DistinctValues(options)
    requires 0 <= k < |options|
    ensures ValueIndex(options, options[k].value) == k
  {
    var r := ValueIndex(options, options[k].value);
    assert options[k].value == options[k].value;
  }

  /** The two lists have the same entries, up to the `selected` flags. */
  predicate SameEntries(a: seq<FormattedOption>, b: seq<FormattedOption>) {
    |a| == |b| &&
    forall j :: 0 <= j < |a| ==> a[j].value == b[j].value && a[j].labelText == b[j].labelText
  }

  /** Looking an option up by value ignores the `selected` flags. */
  lemma ValueIndexSameEntries(a: seq<FormattedOption>, b: seq<FormattedOption>, value: string)
    requires SameEntries(a, b)
    ensures ValueIndex(a, value) == ValueIndex(b, value)
  {
    var ra, rb := ValueIndex(a, value), ValueIndex(b, value);
    if ra >= 0 {
      assert b[ra].value == value;
    }
    if rb >= 0 {
      assert a[rb].value == value;
    }
  }

  /** `selectValue(value)` on the option list: unselect the currently selected
      entry, then select the first entry whose value is `value`. */
  function AfterSelectValue(options: seq<FormattedOption>, value: string): (r: seq<FormattedOption>)
    requires SelectedOptionIndex(options) >= 0
    requires HasValue(options, value)
    ensures SameEntries(options, r)
    ensures SingleSelection(options) ==>
      SingleSelection(r) && SelectedOptionIndex(r) == ValueIndex(options, value) && SelectedValue(r) == value
  {
    var p := SelectedOptionIndex(options);
    var n := ValueIndex(options, value);
    var cleared := options[p := options[p].(selected := false)];
    cleared[n := cleared[n].(selected := true)]
  }

  /** `selectValue` changes the `selected` flags of the previously selected
      entry and of the new one, and no other entry. */
  lemma AfterSelectValueTouchesTwo(options: seq<FormattedOption>, value: string, j: int)
    requires SelectedOptionIndex(options) >= 0
    requires HasValue(options, value)
    requires 0 <= j < |options|
    requires j != SelectedOptionIndex(options) && j != ValueIndex(options, value)
    ensures AfterSelectValue(options, value)[j] == options[j]
  {
  }
}
