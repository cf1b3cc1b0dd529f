# select.js — a verified model of the custom select dropdown

`select.js` replaces a native `<select>` with a custom widget, which has:

- a label span showing the selected option's text;
- a `<ul>` of rows, one per `<option>`;
- keyboard and mouse handlers that keep both in step with the hidden native element.

This project models the widget's logic in Dafny and proves properties of that model.

The model has four modules:

- `JsBuiltins` holds the JavaScript built-ins the widget leans on, over sequences and strings:
  - `indexOf`, with `undefined` modelled by a `Maybe` type;
  - `String.prototype.startsWith`;
  - `toLowerCase`.
- `Options` holds:
  - the native `<option>` elements, as the class `NativeOption` with a mutable `selected` flag;
  - the formatted copies the widget keeps (`FormattedOption`);
  - `getFormattedOptions`;
  - the `selectedOption` and `selectedOptionIndex` getters;
  - the effect of `selectValue` on the option list, as pure functions.
- `WidgetSpec` is the widget as a state machine with the document tree abstracted away.
  - A state is the option list, the open flag (the `show` class on the list) and the type-ahead buffer `searchTerm`.
  - `Step` performs one transition per event: label click, row click, blur, keydown, and expiry of the debounce timer.
  - The open/close, navigation and type-ahead rules are proved as lemmas about `Step`.
- `SelectWidget` holds the widget object itself, `class Select`, updated in place. Its fields are:
  - the native options;
  - the formatted option list;
  - the label text on show;
  - the rendered rows, each with its `data-value`, text and class set;
  - the open flag;
  - the type-ahead buffer.

  `SelectValue` and each event handler are methods.
  - Each handler is proved to move the abstract state exactly as `WidgetSpec.Step` does.
  - Each handler keeps the class invariant `Valid`. It says that:
    - exactly one option is selected;
    - the label shows its text;
    - the native `selected` flags mirror the list's;
    - row `j` was rendered from option `j`;
    - no row but the selected value's row carries the `selected` class.
  - Each method states how the row classes change.

Two class names are in play:

- The rows are built with the class `select` on the initially selected option.
- `selectValue` removes and adds the class `selected`.

The model keeps both names, and `ACTIVE_CLASS` is `selected`. A freshly built widget therefore has no row marked `selected`. After the first selection exactly one row is marked, and the `select` class is never touched again.

## Model

| member | source | states |
|---|---|---|
| JsBuiltins.IndexOf | select.js:25 | a non-negative result is a position holding exactly the element looked for |
| JsBuiltins.IndexOfFindsFirst | select.js:25 | `indexOf` yields the first position holding the element; it yields -1 exactly for `undefined` or an element the array does not hold |
| JsBuiltins.IndexFromSpec | select.js:25 | the scan from position `i` returns the first position at or after `i` holding the element, or -1 when none does |
| JsBuiltins.LowerChar | select.js:128 | the lowered character is never an upper-case ASCII letter; other characters are unchanged; letters move by 32 code points |
| JsBuiltins.LowerCase | select.js:128 | `toLowerCase` keeps the length and lowers every character |
| JsBuiltins.StartsWith | select.js:128 | `startsWith` holds exactly when the prefix is no longer than the string and agrees with it position by position |
| Options.NativeOption.constructor | select.js:141-143 | a native `<option>` carries the value, label and selected flag that `getFormattedOptions` reads |
| Options.GetFormattedOptions | select.js:138-147 | one entry per native option, in the same order, each with that element's value, label and selected flag |
| Options.FindSelectedFromSpec | select.js:20 | the `find` scan from position `i` returns the first selected entry at or after `i`, or -1 when none is selected there |
| Options.SelectedOption | select.js:19-21 | a defined `selectedOption` is an entry of the list and is selected |
| Options.SelectedOptionIsFirstSelected | select.js:19-21 | `selectedOption` is `undefined` exactly when no entry is selected, and otherwise is the first selected entry |
| Options.SelectedOptionIndex | select.js:24-26 | `selectedOptionIndex` is the position of the first selected entry, or -1 when no entry is selected |
| Options.ValueIndex | select.js:31-33 | the `find` by value returns the first entry holding the value, or -1 when no entry holds it |
| Options.ValueIndexFromSpec | select.js:31-33 | the scan by value from position `i` returns the first entry at or after `i` holding the value, or -1 |
| Options.ValueIndexOfDistinct | select.js:31-33 | when the values are distinct, looking up entry `k`'s value finds entry `k` |
| Options.ValueIndexSameEntries | select.js:31-33 | the lookup by value ignores the `selected` flags |
| Options.AfterSelectValue | select.js:36-45 | `selectValue` keeps the entries' values and labels; from a single selection it leaves exactly one entry selected, namely the first entry holding the value, even when that entry was already selected |
| Options.AfterSelectValueTouchesTwo | select.js:36-45 | no entry other than the previously selected one and the new one changes |
| WidgetSpec.FirstMatch | select.js:127-129 | the type-ahead `find` returns the first option whose lower-cased label starts with the term, or -1 when none does |
| WidgetSpec.FirstMatchFromSpec | select.js:127-129 | the type-ahead scan from position `i` returns the first match at or after `i`, or -1 |
| WidgetSpec.Reapply | select.js:85 | re-applying the current selection (also select.js:102) keeps one option selected, keeps the selected value, values and labels, and touches neither the open flag nor the buffer |
| WidgetSpec.TypeAhead | select.js:120-132 | the `default:` branch keeps one option selected, appends the key to the buffer and keeps the open flag; with a match it selects the first match's value, and without one it leaves the options alone |
| WidgetSpec.KeyDown | select.js:98-134 | every key keeps one option selected and every value and label; keys other than Space keep the open flag, except Enter and Escape, which clear it; the `default:` keys append `e.key` to the buffer and all other keys leave it alone |
| WidgetSpec.Step | select.js:73-134 | every event keeps exactly one option selected and keeps every option's value and label |
| WidgetSpec.LabelClickToggles | select.js:83-86 | a label click flips the open flag and keeps the buffer and the selected value (with distinct values, the selected position too); Space (select.js:100-103) has exactly the same effect |
| WidgetSpec.ArrowUpStopsAtFirst | select.js:104-109 | ArrowUp at the first option changes nothing; elsewhere it selects the previous option's value (with distinct values, the previous position) and keeps the open flag and the buffer |
| WidgetSpec.ArrowDownStopsAtLast | select.js:110-115 | ArrowDown at the last option changes nothing; elsewhere it selects the next option's value (with distinct values, the next position) and keeps the open flag and the buffer |
| WidgetSpec.EnterEscapeClose | select.js:116-119 | Enter and Escape clear the open flag, change nothing else, and a second press changes nothing |
| WidgetSpec.RowClickSelectsAndCloses | select.js:73-76 | a click on row `i` selects that row's value (with distinct values, position `i`), closes the list and keeps the buffer |
| WidgetSpec.BlurToggles | select.js:89-91 | blur flips the open flag, so two blurs restore the state |
| WidgetSpec.TimerOnlyClearsSearch | select.js:123-125 | the debounce timer empties the buffer and changes nothing else |
| WidgetSpec.TypeAheadSelectsFirstMatch | select.js:120-132 | another key appends `e.key` to the buffer and selects the first option whose lower-cased label starts with the new buffer; the open flag is kept |
| WidgetSpec.TypeAheadWithoutMatch | select.js:120-132 | when no label matches the new buffer, only the buffer changes |
| WidgetSpec.UpperCaseKeyNeverMatches | select.js:122-128 | the buffer is not lower-cased, so a key text holding an upper-case letter matches no label and only the buffer changes |
| WidgetSpec.BufferedKeysMatchTogether | select.js:122-129 | with Apple, Banana and Cherry, Banana selected and "b" in the buffer, the key "c" makes the buffer "bc", which matches nothing, so Banana stays selected |
| SelectWidget.InitialRow | select.js:66-70 | a new row carries the option's value and label and the option class; it has `select` exactly when the option is selected, and never `selected` |
| SelectWidget.RowIndex | select.js:39-41 | the `[data-value=…]` lookup returns the first row tagged with the value, or -1 for `null` |
| SelectWidget.RowIndexFromSpec | select.js:39-41 | the row scan from position `i` returns the first row at or after `i` tagged with the value, or -1 |
| SelectWidget.RowIndexIsValueIndex | select.js:47-49 | as row `j` is tagged with option `j`'s value, the row lookup finds the option lookup's position |
| SelectWidget.Unmark | select.js:41 | `classList.remove("selected")` leaves the row without the class and otherwise unchanged |
| SelectWidget.Mark | select.js:50 | `classList.add("selected")` gives the row the class and leaves it otherwise unchanged |
| SelectWidget.RowsAfterSelect | select.js:39-50 | the rows after `selectValue(value)` are as many as before, and the row of `value` carries `selected` |
| SelectWidget.RowsAfterSelectMarksOne | select.js:39-50 | after `selectValue(v)`, the row of `v` is the only row with the `selected` class, and no row changes otherwise |
| SelectWidget.SelectValueKeepsConsistent | select.js:29-52 | `selectValue` keeps the widget consistent: the new selection is the first option with the value, its label is on show, and its row alone is marked |
| SelectWidget.InitialRowsConsistent | select.js:61-79 | the freshly rendered widget is consistent, and no row carries `selected` yet |
| SelectWidget.Select.constructor | select.js:4-16 | the widget copies the native options, starts closed with an empty buffer, shows the selected label, renders one initial row per option, and satisfies the invariant |
| SelectWidget.Select.SetupCustomElement | select.js:56-80 | the label shows the selected option's label, and row `j` is option `j`'s initial row: its value, its label, and the `select` class exactly when selected |
| SelectWidget.Select.SelectValue | select.js:29-52 | updates the list, the native flags, the label and the row classes in place: it keeps the invariant, selects `value`, marks exactly the selected row and keeps the open flag and the buffer |
| SelectWidget.Select.LabelClick | select.js:83-86 | moves the state as `Step` does for a label click, keeps the invariant, and leaves exactly the selected row marked |
| SelectWidget.Select.RowClick | select.js:73-76 | moves the state as `Step` does for a click on row `i`, keeps the invariant, and leaves exactly the selected row marked |
| SelectWidget.Select.Blur | select.js:89-91 | moves the state as `Step` does for blur; rows and label are untouched |
| SelectWidget.Select.KeyDown | select.js:98-134 | moves the state as `Step` does for the key and keeps the invariant; for each key, states when rows and label stay untouched (ArrowUp at the first option, ArrowDown at the last, Enter, Escape, type-ahead without a match) and when exactly the selected row ends up marked |
| SelectWidget.Select.SpaceKey | select.js:100-103 | Space moves the state as `Step` does and leaves exactly the selected row marked |
| SelectWidget.Select.ArrowUpKey | select.js:104-109 | ArrowUp moves the state as `Step` does; at the first option rows and label are untouched, elsewhere exactly the new selected row is marked |
| SelectWidget.Select.ArrowDownKey | select.js:110-115 | ArrowDown moves the state as `Step` does; at the last option rows and label are untouched, elsewhere exactly the new selected row is marked |
| SelectWidget.Select.CloseKey | select.js:116-119 | Enter and Escape move the state as `Step` does; rows and label are untouched |
| SelectWidget.Select.TypeAheadKey | select.js:120-132 | another key moves the state as `Step` does: the buffer grows and the first match, if any, is selected; without a match rows and label are untouched, with one exactly the new selected row is marked |
| SelectWidget.Select.TimerFired | select.js:123-125 | the timer callback moves the state as `Step` does; rows and label are untouched |

## Left out

- Creating and attaching the DOM nodes (select.js:7-15, 57-80) is not modelled: `createElement`, `append`, `after`, `style.display` and `tabIndex`. Only the label text and the rows' value, text and classes are kept.
- `addEventListener` wiring and the event loop are not modelled. Each handler is a method, and an event sequence is a sequence of calls.
- `scrollIntoView` (select.js:51) is a layout call with no state in the model.
- Timer scheduling (select.js:121-125) is not modelled. The timer's expiry is an explicit event (`TimerExpired`, `TimerFired`), and the host decides when it happens. The 500 ms delay and `clearTimeout` are not modelled.
- The `querySelector` attribute selector (select.js:40, 47-48) is modelled as a lookup of the first row by `data-value`. Selector escaping is not modelled. The code pastes the value into the selector unescaped. With a `"` or `\` in a value, `querySelector` may throw, or may find no row (then `classList` fails on `null`). It may also find another option's row, which then loses or gains `selected`.
- `toLowerCase` is modelled for ASCII letters only. Unicode and locale case mapping are not modelled.
- The browser's own single-choice behaviour is not modelled: setting one native option's `selected` does not clear the others. The widget clears the old option itself, and the model mirrors exactly the writes the code makes.
- The `element` back-reference of a formatted option is kept by position: entry `j` belongs to `Select.nativeOptions[j]`. Identity comparisons in `indexOf` are modelled as value comparisons of the formatted entries.
- SelectWidget.Select.SelectValue: the value must exist. With an unknown value the code first clears the old selection and then fails on `newSelectedOption.selected` (select.js:31-45). That partial update and the error are not modelled.
- Options.AfterSelectValue: the list must hold a selected entry. The code fails on `prevSelectedOption.selected` when none is selected (select.js:36-37). The invariant `Valid` keeps exactly one selected.
- Blur toggles the open flag, as the code does (select.js:89-91). A blur while the list is closed therefore opens it.
- A key pressed before the timer fires extends the buffer, and the whole buffer is matched. With "b" typed, "c" makes "bc", which no label starts with, so the selection stays on Banana (`WidgetSpec.BufferedKeysMatchTogether`).
- WidgetSpec.ArrowUpStopsAtFirst: with duplicate option values, the widget selects the first option holding the neighbour's value, which need not be the neighbour's position. Duplicates are allowed, and the position claims are stated under distinct values.
