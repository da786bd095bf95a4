# List manager: a Dafny model of the list-state engine

This project models the `ListManager` widget, a small editor for a list of short text labels. The model covers the part that holds and changes state. The manager owns an ordered list of items. `addItem` trims its input. It ignores empty input and rejects a value that equals a stored item once both are lower-cased. Otherwise it appends the value and a visual row whose remove button is bound to the new index. `removeItem` throws on an index outside the list. Otherwise it splices out the item and its row, then re-binds every remaining row's remove button to that row's current position. `getItems` returns a copy of the list. `clear` empties the list, or only reports that it was already empty. Every change, a rejected duplicate and a clear of an empty list are each reported as a toast of type success, danger or info. Blank input to `addItem` and every `getItems` call report nothing. A bad index to `removeItem` throws instead of showing a toast.

Files:

- `js_string.dfy` (module `JsString`): JavaScript's `trim` and `toLowerCase`. `Trim` strips exactly the code points ECMAScript counts as WhiteSpace or LineTerminator. `Lower` lower-cases ASCII letters.
- `list_rules.dfy` (module `ListRules`): the rules stated on values. It holds the invariant of the stored items (`WellFormed`) and the binding of rows to items (`BoundTo`). It holds the duplicate test (`IsDuplicate`, the `some` call) and the list after an add (`AfterAdd`) or a removal (`RemoveAt`, the `splice`). It also holds the outcomes and their toast types and texts, and the lemmas about all of these.
- `list_manager.dfy` (module `ListManager`): the class `ListManager`. It has three fields: `items`, `rows` (the visual list, one `Row(text, boundIndex)` per `<li>`) and `notices` (the outcomes shown so far). Its methods change these fields in place. `Valid()` is the object invariant: the items are well formed, and row k shows item k with its button bound to k.
- `list_scenarios.dfy` (module `ListScenarios`): whole sessions with one manager, driven only through the class contracts.

The toast rendering and the DOM are not modelled. A row keeps only its text and the index its button passes to `removeItem`. A toast is recorded as an `Outcome` value. `SeverityOf` gives its toast type: danger for a duplicate, info for clearing an empty list, success otherwise. `MessageOf` gives the message string passed to `showToast`.

`addItem` returns silently on blank input (src/ListManager.ts:122). The "Please enter a value." warning comes only from `handleAddItem` (src/ListManager.ts:112-114), which reads the input field from the DOM.

## Model

| member | source | states |
|---|---|---|
| `JsString.TrimStartShape` | src/ListManager.ts:121 | What is left after dropping leading white space is the longest suffix that does not start with white space; everything dropped is white space |
| `JsString.TrimEndShape` | src/ListManager.ts:121 | What is left after dropping trailing white space is the longest prefix that does not end with white space; everything dropped is white space |
| `JsString.TrimShape` | src/ListManager.ts:121-122 | Neither end of `trim()`'s result is white space, and the result is empty exactly when the input is all white space (the `if (!trimmed) return` test) |
| `JsString.TrimFixpoint` | src/ListManager.ts:121 | A string is its own trim exactly when it is empty or neither end is white space |
| `JsString.TrimIdempotent` | src/ListManager.ts:121 | Trimming an already-trimmed value changes nothing |
| `ListRules.SeverityOf` | src/ListManager.ts:126-164 | The toast type is danger exactly for a rejected duplicate, info exactly for clearing an empty list, and success exactly for every other outcome (an add, a removal, a clear); no outcome of these methods is a warning |
| `ListRules.MessageIdentifiesOutcome` | src/ListManager.ts:126-164 | The message strings `MessageOf` gives, the ones passed to `showToast`, tell the outcomes apart: two outcomes passing the same string are the same kind with the same value |
| `ListRules.MessageShape` | src/ListManager.ts:126-164 | Each value-carrying message string quotes its value at a fixed position ("Item \"…" for added and removed, "\"…" for already exists), and the kinds differ in their first character or in the word at the end |
| `ListRules.IsDuplicate` | src/ListManager.ts:124 | The `some` scan is true exactly when some stored item equals the value after lower-casing both |
| `ListRules.RemoveAt` | src/ListManager.ts:141 | `splice(i, 1)` shortens the list by one. Elements before `i` stay put, later ones move one place left, and the multiset loses exactly the element at `i` |
| `ListRules.StorableIsTrimmed` | src/ListManager.ts:121-122 | A storable value is exactly a non-empty string that is its own trim |
| `ListRules.AddPreservesWellFormed` | src/ListManager.ts:120-130 | If the stored items are non-empty, trimmed and distinct ignoring case, they still are after any `addItem` |
| `ListRules.AppendKeepsBound` | src/ListManager.ts:130-131 | Pushing an item and appending a row bound to `items.length - 1` keeps row k showing item k and bound to k |
| `ListRules.RemovePreservesWellFormed` | src/ListManager.ts:139-141 | Splicing out any valid index keeps the stored items non-empty, trimmed and distinct ignoring case |
| `ListRules.AddOutcomes` | src/ListManager.ts:120-130 | `addItem` either leaves the list unchanged or appends the trimmed input. It leaves the list unchanged exactly when the input is all white space or the trimmed input equals a stored item ignoring case |
| `ListRules.DuplicateRejected` | src/ListManager.ts:124-128 | A value equal to a stored item ignoring case is not added; the first spelling stays |
| `ListRules.AddIdempotent` | src/ListManager.ts:124-130 | Adding the same input twice gives the same list as adding it once |
| `ListRules.AddRemoveRoundTrip` | src/ListManager.ts:130-141 | When an add changed the list, it grew by one, and removing the last index gives back the list from before the add |
| `ListRules.AddsInOrder` | src/ListManager.ts:120-136 | Adding any inputs whose trimmed forms are non-empty and distinct ignoring case (among themselves and from what is stored) appends exactly those trimmed forms, in insertion order |
| `ListRules.AppendFresh` | src/ListManager.ts:121-130 | When stored items plus the trimmed new inputs are well formed, the first input's trimmed form is appended |
| `ListRules.AddThenRespelled` | src/ListManager.ts:121-128 | After a storable value, a second input whose trim matches it ignoring case stores nothing more |
| `ListRules.MilkScenario` | src/ListManager.ts:124-128 | Adding "Milk" and then "milk" leaves exactly ["Milk"] |
| `ListManager.ListManager.constructor` | src/ListManager.ts:31-40 | A new manager starts with no items, no rows and no outcomes, and satisfies the invariant |
| `ListManager.ListManager.AppendListItem` | src/ListManager.ts:197-211 | Appends one row showing the item, with its button bound to the given index; nothing else changes |
| `ListManager.ListManager.AddItem` | src/ListManager.ts:120-136 | Empty trimmed input changes nothing and reports nothing. A duplicate changes no items and no rows and reports "already exists" (danger). Otherwise it appends the trimmed value, a row bound to the old length, and an "added" outcome. The invariant is kept |
| `ListManager.ListManager.RemoveItem` | src/ListManager.ts:138-150 | Fails with `IndexOutOfRange`, changing nothing, exactly when the index is negative or past the end. Otherwise it splices out the item and reports its old name as removed. Every remaining row keeps its text and is bound to its new position. The invariant is kept |
| `ListManager.ListManager.RebindRemoveButtons` | src/ListManager.ts:145-148 | The `each` loop binds row k's button to k for every row and leaves each row's text, the items and the outcomes as they were |
| `ListManager.ListManager.GetItems` | src/ListManager.ts:152-154 | Returns a value equal to the stored items and changes no state |
| `ListManager.ListManager.Clear` | src/ListManager.ts:156-165 | Leaves no items and no rows. It reports "already empty" (info) when the list was empty, so a second call changes nothing, and "cleared" (success) otherwise |
| `ListScenarios.AddFresh` | src/ListManager.ts:120-132 | Adding an already-trimmed value that is not stored appends it, a row bound to the old length and an "added" outcome |
| `ListScenarios.RemoveMiddle` | src/ListManager.ts:138-150 | `removeItem(1)` on three items keeps the outer two, with the last row re-bound from 2 to 1, and reports the middle one removed |
| `ListScenarios.RemoveFirstOfTwo` | src/ListManager.ts:138-150 | `removeItem(0)` on two items keeps the second, re-bound to 0, and reports the first removed |
| `ListScenarios.AddThreeRemoveMiddle` | src/ListManager.ts:120-150 | A fresh manager given three distinct values and then `removeItem(1)` holds the first and third, rows bound to 0 and 1, and has reported three adds and one removal in that order |
| `ListScenarios.AddTwoRemoveFirst` | tests/ListManager.test.ts:40-49 | A fresh manager given two distinct values and then `removeItem(0)` holds only the second, in one row bound to 0 |
| `ListManager.ListManager.ClickRemove` | src/ListManager.ts:203-207 | A click on row k's remove button always succeeds. It removes the item at position k and reports the text row k showed, so a button never targets a stale index |

## Left out

- DOM construction and event wiring are not modelled: `renderUI`, `bindEvents`, the container lookup and its `CONTAINER_NOT_FOUND` throw (src/ListManager.ts:31-105). The constructor is modelled as "starts empty".
- `handleAddItem` is not modelled (src/ListManager.ts:107-118). It reads the input field from the DOM, throws `INPUT_NOT_FOUND`, and shows the "Please enter a value." warning. The `Warning` toast type exists in the model only to mirror the toast type set.
- `addItem`'s optional `input` argument is not modelled. Clearing and refocusing that field (src/ListManager.ts:133-135) is DOM work.
- Toast rendering is not modelled (src/ListManager.ts:167-194). This covers the markup, the `bootstrap.Toast` call, its 1500 ms delay, and the `console.error` used when the toast container is missing. Only the outcome log, its type and its message string are kept.
- The toast body is built as unescaped HTML: `showToast` puts the message inside an HTML template that jQuery parses (src/ListManager.ts:177-184). Item text containing markup or character entities is therefore rendered rather than shown as typed. Two different message strings can look the same on screen, and item text can inject HTML into the page. The model keeps the string passed to `showToast`, not what the browser displays. The `<li>` rows use `.text(item)` (src/ListManager.ts:201) and show the text as typed.
- Rows are a sequence of values. DOM element identity and event-handler objects are not modelled. So the model says which index each button passes, but not that jQuery unbinds the old handler.
- `JsString.Lower` handles ASCII letters only; JavaScript's `toLowerCase` applies full Unicode case mapping. Two items that differ only in non-ASCII letter case count as distinct in the model.
- `JsString.Trim` uses ECMAScript's WhiteSpace and LineTerminator code points, with the Zs category as of current Unicode. A future Unicode change to Zs is not tracked. JavaScript strings are UTF-16 code units and can hold lone surrogates; a Dafny `string` here is a sequence of Unicode scalar values and cannot. `Trim` agrees with `trim` on every well-formed string, since every code point it strips lies in the Basic Multilingual Plane outside the surrogate range.
- `ListManager.ListManager.RemoveItem` takes an unbounded integer index. TypeScript's `number` can also be fractional or NaN. NaN passes the range check, and `splice` then treats it as 0. Those inputs are not modelled.
- Item length is not bounded. `MAX_ITEM_LENGTH` (src/ListManager.ts:15) is only the input field's `maxlength` attribute (src/ListManager.ts:61), and `addItem` does not check the length of its argument.
- `src/main.ts` (start-up and the failure alert) and `jest.config.js` (test tooling) are not part of this model.
