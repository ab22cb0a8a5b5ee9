# lwc-lookup in Dafny

A model of the typeahead lookup of `lwc-lookup`, a Lightning Web Component. It has three parts:

- **Lookup** is the controller. It holds the typed text, the candidate records and the selection.
  It debounces searches, asks the record service for recent or matching records, and sorts a
  search answer by title (recent records are kept in the order they arrive). Arrow keys move a cursor (the active id) over the records; Enter selects the
  active record and Escape clears the selection.
- **Listbox** is the option list. It fans `selectItem()` out to its rows and re-emits a row's
  `selected` event so that it bubbles.
- **ListboxItem** is one option row. It shows the label and sub-label, and its classes include
  the focus class when the row is active. When it is active, or asked with its own Id, it emits
  `selected` carrying its record's Id.

Modules, one per concern:

| file | module | what |
|---|---|---|
| `strings.dfy` | `Strings` | `toLowerCase` (ASCII), the string `<`, `join(' ')` with its inverse `Split` |
| `records.dfy` | `Records` | records, `map(r => r.Id)`, `indexOf`, `find`, `flat()`, `sortAlpha` and the stable sort |
| `listbox_item.dfy` | `ListboxItem` | one row: labels, classes, `selectItem`, `clickRecord` |
| `listbox.dfy` | `Listbox` | the list: `selectItem` over all rows, `handleSelected` |
| `lookup_model.dfy` | `LookupModel` | the controller's state as a value, getters, one transition per handler and per asynchronous completion, the invariant and the properties |
| `lookup.dfy` | `Lookup` | the controller as a class; each method is proved to perform its `LookupModel` transition and to keep the invariant |

The controller's state also records what the browser and the record service hold for it:

- the next timer handle, and the set of timers that are pending (scheduled, neither fired nor
  cancelled);
- the number of `getRecords` and `getRecent` calls not yet answered;
- the log of dispatched requests and the log of emitted events.

An answer from the service arrives as a separate method call (`SearchSucceeded`, `SearchFailed`,
`RecentSucceeded`, `RecentFailed`). It can only be made while a request of that kind is in flight.
A firing debounce timer is `TimerFires(h)`, and `h` must be pending. Answers may arrive in any
order. The code has no staleness guard, so neither does the model. A late answer overwrites the
records, as it does in the component.

Main results:

- Every handler and every completion keeps the invariant `LookupModel.Inv`:
  - non-empty records come with their Ids;
  - the text is undefined only while a record is selected;
  - the only timer that can still fire is the one `delaySearch` holds.

  From this, at most one search timer is ever pending (`AtMostOnePendingTimer`).
- The sort is `Array.prototype.sort` with `sortAlpha`. It returns a permutation, ordered by
  lower-cased title, and it is stable. It throws when two or more records arrive and one lacks
  the title field.
- Enter stores the text and clears the error; `selectItem()` then selects exactly the active
  record when Ids are unique, and changes nothing when no record is active. Escape and clearing reset the selection and emit `selected` with the empty Id.
- Each class attribute, read back as class names, carries its marker class exactly when its
  condition holds (`Split(Join(cs)) == cs`).
- The arrow-key cursor steps are stated exactly, including the code's behaviour at both ends of
  the list.

## Model

| member | source | states |
|---|---|---|
| Strings.LowerChar | force-app/main/default/lwc/lookup/lookup.js:205-206 | `'A'..'Z'` become the letter at the same offset in `'a'..'z'`; every other character is kept |
| Strings.Lower | force-app/main/default/lwc/lookup/lookup.js:205-206 | `toLowerCase` keeps the length and lower-cases position by position |
| Strings.BelowIrreflexive | force-app/main/default/lwc/lookup/lookup.js:208-209 | no string is below itself under JavaScript's `<` on strings |
| Strings.BelowTransitive | force-app/main/default/lwc/lookup/lookup.js:208-209 | the string `<` is transitive |
| Strings.BelowAsymmetric | force-app/main/default/lwc/lookup/lookup.js:208-209 | `a < b` and `b < a` never both hold |
| Strings.BelowTotal | force-app/main/default/lwc/lookup/lookup.js:208-209 | of two different strings one is below the other, so `sortAlpha` returns 0 only on equal keys |
| Strings.Below | force-app/main/default/lwc/lookup/lookup.js:208-209 | JavaScript's `<` on strings; its order properties are the four lemmas above |
| Strings.Join | force-app/main/default/lwc/lookup/lookup.js:45 | `join(' ')`; `SplitJoin` states that `Split` undoes it |
| Strings.Split | force-app/main/default/lwc/lookup/lookup.js:45 | reading a class attribute back as names; inverse of `Join` by `SplitJoin` |
| Strings.SplitJoin | force-app/main/default/lwc/lookup/lookup.js:45 | splitting `classes.join(' ')` at spaces gives back the class list when no class contains a space |
| Records.Field | force-app/main/default/lwc/lookup/lookup.js:103 | `record[name]`: undefined exactly when the record has no such field, otherwise its value; the `Id` field is always present; also `label`/`subLabel` of listboxItem.js lines 15-16 |
| Records.At | force-app/main/default/lwc/lookup/lookup.js:171-180 | `recordIds[k]`: undefined exactly when `k` is outside the array, otherwise the element at `k` |
| Records.Ids | force-app/main/default/lwc/lookup/lookup.js:200-202 | `records.map(record => record.Id)`: same length, the Id at each position |
| Records.IndexOf | force-app/main/default/lwc/lookup/lookup.js:171 | `indexOf` is -1 exactly when absent; otherwise it is the first position holding the value |
| Records.FindById | force-app/main/default/lwc/lookup/lookup.js:102 | `find` is undefined exactly when no record has the Id; otherwise it is the record at the first position of that Id |
| Records.Flatten | force-app/main/default/lwc/lookup/lookup.js:114 | `flat()` holds exactly the records of the groups (membership; order and multiplicity are `FlattenAppend` and `FlattenSnoc`) |
| Records.FlattenAppend | force-app/main/default/lwc/lookup/lookup.js:114 | `flat()` of two runs of groups is the first run flattened followed by the second |
| Records.FlattenSnoc | force-app/main/default/lwc/lookup/lookup.js:114 | one more group appends its records whole and in order, each as often as it occurs |
| Records.SortAlpha | force-app/main/default/lwc/lookup/lookup.js:204-212 | returns -1, 0 or 1 as the lower-cased title of `a` is below, equal to or above that of `b`, each case both ways |
| Records.NotAfterTransitive | force-app/main/default/lwc/lookup/lookup.js:204-212 | "sortAlpha(a, b) <= 0" is transitive, so the comparator is consistent |
| Records.Insert | force-app/main/default/lwc/lookup/lookup.js:114 | inserting into the sorted prefix adds exactly the one record to the multiset |
| Records.InsertionSort | force-app/main/default/lwc/lookup/lookup.js:114 | the sort is a permutation of its input |
| Records.InsertSorted | force-app/main/default/lwc/lookup/lookup.js:114 | inserting into a sorted sequence keeps it sorted under `sortAlpha` |
| Records.BelowKeysDiffer | force-app/main/default/lwc/lookup/lookup.js:204-212 | two records in strict `sortAlpha` order never have the same lower-cased title |
| Records.InsertKeyFilter | force-app/main/default/lwc/lookup/lookup.js:114 | an inserted record goes ahead of the records already present with an equal key and leaves other keys untouched |
| Records.InsertionSortCorrect | force-app/main/default/lwc/lookup/lookup.js:114 | the result is sorted and stable: records with equal keys keep their input order |
| Records.SortRecords | force-app/main/default/lwc/lookup/lookup.js:114 | `sort(sortAlpha)` succeeds exactly when there are fewer than two records or all have the title; it then gives a sorted, stable permutation; otherwise it gives the TypeError of reading the missing title |
| ListboxItem.Label | force-app/main/default/lwc/listboxItem/listboxItem.js:15 | the label is the title field, undefined exactly when the record lacks it |
| ListboxItem.SubLabel | force-app/main/default/lwc/listboxItem/listboxItem.js:16 | the sub-label is the subtitle field, undefined exactly when the record lacks it |
| ListboxItem.IsActive | force-app/main/default/lwc/listboxItem/listboxItem.js:17 | `isActive`; its use is stated by `ItemClassList`, `ItemClassesFocus` and `SelectItem` |
| ListboxItem.ItemClassList | force-app/main/default/lwc/listboxItem/listboxItem.js:19-31 | the four base classes come first, in order; the focus class is present, as the fifth and last, exactly when the row is active, and otherwise there are exactly four |
| ListboxItem.ItemClassesFocus | force-app/main/default/lwc/listboxItem/listboxItem.js:19-31 | the class attribute, read back, is that list, so it has the focus class exactly when the row is active |
| ListboxItem.ItemClasses | force-app/main/default/lwc/listboxItem/listboxItem.js:19-31 | `itemClasses`; `ItemClassesFocus` states what it holds |
| ListboxItem.ClickRecord | force-app/main/default/lwc/listboxItem/listboxItem.js:33-38 | the `selected` event carries the record's Id and does not bubble |
| ListboxItem.SelectItem | force-app/main/default/lwc/listboxItem/listboxItem.js:10-13 | a row emits exactly when it is active or `currentId` is its Id, and then emits its own Id |
| Listbox.HandleSelected | force-app/main/default/lwc/listbox/listbox.js:16-22 | the list re-emits the row's detail unchanged, now bubbling |
| Listbox.SelectItem | force-app/main/default/lwc/listbox/listbox.js:10-14 | `selectItem()`: the Ids the rows emit in order; `SelectItemEmitsActiveRows` equates it with the reference filter `MatchingIds` |
| Listbox.SelectItemEmitsActiveRows | force-app/main/default/lwc/listbox/listbox.js:10-14 | the list emits the Ids of exactly the rows whose Id is the active id, in row order |
| Listbox.SelectItemEmitsRecordIds | force-app/main/default/lwc/listbox/listbox.js:10-14 | every emitted Id is the active id and the Id of one of the records |
| Listbox.EmittedPrefixIds | force-app/main/default/lwc/listbox/listbox.js:10-14 | after any number of rows have run, what they emitted are record Ids |
| Listbox.SelectItemNoMatch | force-app/main/default/lwc/listbox/listbox.js:10-14 | with no active row (no records, or an active id that is no record's Id) nothing is emitted |
| Listbox.SelectItemAtMostOne | force-app/main/default/lwc/listbox/listbox.js:10-14 | with unique Ids at most one row emits |
| Listbox.SelectItemActiveRow | force-app/main/default/lwc/listbox/listbox.js:10-14 | with unique Ids and the active id naming row `i`, exactly that row's Id is emitted |
| Listbox.MatchingIdsSnoc | force-app/main/default/lwc/listbox/listbox.js:10-14 | the reference list of active Ids extends record by record |
| Listbox.EmittedMatches | force-app/main/default/lwc/listbox/listbox.js:10-14 | the rows run so far emit exactly the reference list for their records |
| Listbox.MatchingIdsAreActive | force-app/main/default/lwc/listbox/listbox.js:10-14 | the reference list holds only the active id, and only when it is a record Id |
| Listbox.MatchingIdsNone | force-app/main/default/lwc/listbox/listbox.js:10-14 | no active record gives an empty reference list |
| Listbox.MatchingIdsAtMostOne | force-app/main/default/lwc/listbox/listbox.js:10-14 | unique Ids give at most one entry in the reference list |
| Listbox.MatchingIdsOne | force-app/main/default/lwc/listbox/listbox.js:10-14 | unique Ids and an active record `i` give exactly its Id |
| LookupModel.IsActionable | force-app/main/default/lwc/lookup/lookup.js:10 | `ACTIONABLE_KEYS.includes(event.code)` (line 83): true exactly for ArrowUp, ArrowDown, Enter and Escape |
| LookupModel.Initial | force-app/main/default/lwc/lookup/lookup.js:13-20 | the field initialisers: nothing selected, the list closed, no clear button, no error, no timer pending, nothing requested or emitted |
| LookupModel.IsReadOnly | force-app/main/default/lwc/lookup/lookup.js:33 | `isReadOnly`; used by `ContainerSelectionIffReadOnly`, `InputValueIffReadOnly`, `HandleSelectedSpec`, `ClearSelectionSpec` |
| LookupModel.ShowListbox | force-app/main/default/lwc/lookup/lookup.js:34 | `showListbox`; `ComboboxOpenIffListbox` and `HandleSelectedSpec` state its uses |
| LookupModel.ShowClear | force-app/main/default/lwc/lookup/lookup.js:35 | `showClear`; `HandleSelectedSpec` and `ClearSelectionSpec` state its value after selecting and clearing |
| LookupModel.HasError | force-app/main/default/lwc/lookup/lookup.js:36 | `hasError`; `KeyupShortInput`, `FailuresKeepRecords` and `ClearSelectionSpec` state its value |
| LookupModel.ContainerClasses | force-app/main/default/lwc/lookup/lookup.js:38-46 | `containerClasses`; `ContainerSelectionIffReadOnly` states what it holds |
| LookupModel.InputClasses | force-app/main/default/lwc/lookup/lookup.js:48-58 | `inputClasses`; `InputValueIffReadOnly` states what it holds |
| LookupModel.ComboboxClasses | force-app/main/default/lwc/lookup/lookup.js:60-70 | `comboboxClasses`; `ComboboxOpenIffListbox` states what it holds |
| LookupModel.GetSearcher | force-app/main/default/lwc/lookup/lookup.js:192-198 | `getSearcher()`; `TimerSearchesCurrentInput`, `KeyupEmptyInput` and `ClearSelectionSpec` state the searcher each request carries |
| LookupModel.Keyup | force-app/main/default/lwc/lookup/lookup.js:72-98 | `onKeyup`; its branches are stated by `KeyupLongInput`, `KeyupEmptyInput`, `KeyupShortInput`, `KeyupArrow`, `KeyupEnter`, `KeyupEscape`, and `KeyupInv` |
| LookupModel.NextActive | force-app/main/default/lwc/lookup/lookup.js:170-181 | the new active id is one of the Ids or undefined; its steps are `CycleFromUnknown`, `CycleStep`, `CycleAtRecordsLength` and `CycleForwardPastLast` |
| LookupModel.CycleActive | force-app/main/default/lwc/lookup/lookup.js:170-181 | only the active id changes, and it lands on one of the record Ids or becomes undefined |
| LookupModel.CycleOnKey | force-app/main/default/lwc/lookup/lookup.js:77-78 | an arrow key's `cycleActive`, or no change when `recordIds` is undefined; stated by `KeyupArrow` |
| LookupModel.ClearSelection | force-app/main/default/lwc/lookup/lookup.js:154-161 | `clearSelection()`; stated by `ClearSelectionSpec` and `ClearSelectionIdempotent` |
| LookupModel.FireSelected | force-app/main/default/lwc/lookup/lookup.js:163-168 | `fireSelected()`; its event is stated by `HandleSelectedSpec` and `ClearSelectionSpec` |
| LookupModel.RequestRecent | force-app/main/default/lwc/lookup/lookup.js:139-143 | `requestRecent()` up to dispatch; stated by `KeyupEmptyInput` and `ClearSelectionSpec` |
| LookupModel.Search | force-app/main/default/lwc/lookup/lookup.js:107-111 | `search()` up to dispatch; stated by `TimerSearchesCurrentInput` |
| LookupModel.DebounceSearch | force-app/main/default/lwc/lookup/lookup.js:131-137 | `debounceSearch()`; stated by `KeyupLongInput`, `DebounceSearchInv` and `AtMostOnePendingTimer` |
| LookupModel.TimerFires | force-app/main/default/lwc/lookup/lookup.js:134-136 | the timer's callback; stated by `TimerSearchesCurrentInput` and `TimerFiresInv` |
| LookupModel.SearchSucceeded | force-app/main/default/lwc/lookup/lookup.js:112-124 | the `then` continuation of `search()`; stated by `SearchSucceededReplaces`, `SearchSucceededUnsortable` and `SearchSucceededInv` |
| LookupModel.SearchFailed | force-app/main/default/lwc/lookup/lookup.js:125-128 | the `catch` continuation of `search()`; stated by `FailuresKeepRecords` |
| LookupModel.RecentSucceeded | force-app/main/default/lwc/lookup/lookup.js:144-147 | the `then` continuation of `requestRecent()`; stated by `CompletionsInv` |
| LookupModel.RecentFailed | force-app/main/default/lwc/lookup/lookup.js:148-151 | the `catch` continuation of `requestRecent()`; stated by `FailuresKeepRecords` |
| LookupModel.SetFocus | force-app/main/default/lwc/lookup/lookup.js:188-190 | `setFocus`; stated by `HandlersInv` and `Lookup.Lookup.SetFocus` |
| LookupModel.SelectItem | force-app/main/default/lwc/lookup/lookup.js:183-186 | the list's `selectItem()` with each re-emitted event handled; stated by `EnterWithoutActiveRecord` and `EnterSelectsActiveRecord` |
| LookupModel.AtMostOnePendingTimer | force-app/main/default/lwc/lookup/lookup.js:131-137 | under the invariant, at most one debounce timer is pending |
| LookupModel.ContainerClassList | force-app/main/default/lwc/lookup/lookup.js:38-46 | the container class comes first; the selection class is present exactly when a record is selected, and no other class is |
| LookupModel.InputClassList | force-app/main/default/lwc/lookup/lookup.js:48-58 | the two input classes come first; the value class is present exactly when a record is selected, and no other class is |
| LookupModel.ComboboxClassList | force-app/main/default/lwc/lookup/lookup.js:60-70 | the three combobox classes come first; the open class is present exactly when focused with records and no selection, and no other class is |
| LookupModel.ComboboxOpenIffListbox | force-app/main/default/lwc/lookup/lookup.js:60-70 | the `comboboxClasses` attribute has the open class exactly when `showListbox` holds |
| LookupModel.ContainerSelectionIffReadOnly | force-app/main/default/lwc/lookup/lookup.js:38-46 | the `containerClasses` attribute has the selection class exactly when `isReadOnly` holds |
| LookupModel.InputValueIffReadOnly | force-app/main/default/lwc/lookup/lookup.js:48-58 | the `inputClasses` attribute has the value class exactly when `isReadOnly` holds |
| LookupModel.HandleSelected | force-app/main/default/lwc/lookup/lookup.js:100-105 | handling a selection changes neither the records nor the active id |
| LookupModel.ApplySelections | force-app/main/default/lwc/lookup/lookup.js:183-186 | handling the re-emitted events one by one changes neither the records nor the active id |
| LookupModel.InitialInv | force-app/main/default/lwc/lookup/lookup.js:13-20 | the field initialisers satisfy the invariant |
| LookupModel.ApplySelectionsInv | force-app/main/default/lwc/lookup/lookup.js:183-186 | a run of selections keeps the invariant |
| LookupModel.KeyupInv | force-app/main/default/lwc/lookup/lookup.js:72-98 | every key press keeps the invariant |
| LookupModel.CycleOnKeyInv | force-app/main/default/lwc/lookup/lookup.js:170-181 | moving the cursor keeps the invariant |
| LookupModel.DebounceSearchInv | force-app/main/default/lwc/lookup/lookup.js:131-137 | rescheduling the search keeps the invariant: the old timer is cancelled and the new one is the only pending one |
| LookupModel.TimerFiresInv | force-app/main/default/lwc/lookup/lookup.js:134-136 | a timer firing keeps the invariant |
| LookupModel.SearchSucceededInv | force-app/main/default/lwc/lookup/lookup.js:111-124 | a search answer keeps the invariant |
| LookupModel.CompletionsInv | force-app/main/default/lwc/lookup/lookup.js:143-151 | the other service completions keep the invariant |
| LookupModel.HandlersInv | force-app/main/default/lwc/lookup/lookup.js:100-190 | `handleSelected` (100-105), `requestRecent` (139-143), `clearSelection` (154-161) and `setFocus` (188-190) keep the invariant |
| LookupModel.KeyupLongInput | force-app/main/default/lwc/lookup/lookup.js:87-88 | more than two characters: the whole new state is the old one with the text stored, the error cleared, the pending timer cancelled and exactly one new timer pending under a fresh handle; nothing is requested |
| LookupModel.KeyupEmptyInput | force-app/main/default/lwc/lookup/lookup.js:89-91 | empty text: the whole new state is the old one with the empty text stored, the error cleared, the records cleared at once (Ids, cursor and selection kept) and one request for recent records with the empty term in flight; nothing is toasted |
| LookupModel.KeyupShortInput | force-app/main/default/lwc/lookup/lookup.js:92-95 | one or two characters: the whole new state is the old one with the text stored and the minimum-length error set; no request, no new timer, and a pending timer is not cancelled |
| LookupModel.ShortInputKeepsTimer | force-app/main/default/lwc/lookup/lookup.js:92-95 | a debounce timer pending before a short keyup still fires: it sends `getRecords` with the short text and clears the minimum-length error |
| LookupModel.KeyupArrow | force-app/main/default/lwc/lookup/lookup.js:77-78 | an arrow key: the whole new state is the old one with the text stored, the error cleared and the cursor moved by `cycleActive`; with undefined Ids the cursor stays |
| LookupModel.KeyupEscape | force-app/main/default/lwc/lookup/lookup.js:80 | Escape is `clearSelection` after storing the text |
| LookupModel.TimerSearchesCurrentInput | force-app/main/default/lwc/lookup/lookup.js:133-136 | the firing timer dispatches `getRecords` with the text current when it fires |
| LookupModel.SearchSucceededReplaces | force-app/main/default/lwc/lookup/lookup.js:111-124 | a sortable answer replaces the records with a sorted, stable permutation, stores their Ids, keeps the error and toasts exactly when the answer is empty |
| LookupModel.SearchSucceededUnsortable | force-app/main/default/lwc/lookup/lookup.js:114 | two or more records, one without title: the TypeError is stored and records, Ids and events stay |
| LookupModel.FailuresKeepRecords | force-app/main/default/lwc/lookup/lookup.js:125-128 | a rejected request stores its error and keeps the records and their Ids |
| LookupModel.HandleSelectedSpec | force-app/main/default/lwc/lookup/lookup.js:100-105 | the first record with the Id is selected, its title becomes the text, one `selected` event carries the Id, the list closes and the field turns read-only |
| LookupModel.ClearSelectionSpec | force-app/main/default/lwc/lookup/lookup.js:154-161 | clearing resets selection, text and error, requests recent records once with the empty term and emits `selected` with the empty Id |
| LookupModel.ClearSelectionIdempotent | force-app/main/default/lwc/lookup/lookup.js:154-161 | clearing twice leaves the component's fields as clearing once |
| LookupModel.KeyupEnter | force-app/main/default/lwc/lookup/lookup.js:79 | Enter stores the text, clears the error and then runs `selectItem()` |
| LookupModel.EnterWithoutActiveRecord | force-app/main/default/lwc/lookup/lookup.js:183-186 | `selectItem()` with no active record (in particular with no records) changes nothing |
| LookupModel.EnterSelectsActiveRecord | force-app/main/default/lwc/lookup/lookup.js:183-186 | `selectItem()` with unique Ids and an active record is exactly `handleSelected` of that record |
| LookupModel.CycleFromUnknown | force-app/main/default/lwc/lookup/lookup.js:171-173 | from no active id, or one not among the Ids, the cursor goes to the first Id |
| LookupModel.CycleStep | force-app/main/default/lwc/lookup/lookup.js:170-181 | ArrowUp from the first Id wraps to the last; otherwise each arrow steps one Id; ArrowDown from the last Id gives undefined |
| LookupModel.CycleAtRecordsLength | force-app/main/default/lwc/lookup/lookup.js:172-173 | when the active id's position equals `records.length`, either arrow goes to the first Id |
| LookupModel.ArrowAfterEmptyInput | force-app/main/default/lwc/lookup/lookup.js:89-91 | after the text is emptied (records cleared, Ids kept), an arrow press from the first Id stays on the first Id |
| LookupModel.CycleForwardPastLast | force-app/main/default/lwc/lookup/lookup.js:170-181 | from the last Id, ArrowDown reaches the first Id only at the second press |
| LookupModel.IndexOfFirst | force-app/main/default/lwc/lookup/lookup.js:171 | `indexOf` of a value at its first position is that position |
| Lookup.Lookup.constructor | force-app/main/default/lwc/lookup/lookup.js:13-27 | the fields start at their initialisers, which satisfy the invariant |
| Lookup.Lookup.GetSearcher | force-app/main/default/lwc/lookup/lookup.js:192-198 | the searcher carries the current text, the object name and the two field names |
| Lookup.Lookup.GetRecordIds | force-app/main/default/lwc/lookup/lookup.js:200-202 | the Ids of the records, position by position |
| Lookup.Lookup.ConnectedCallback | force-app/main/default/lwc/lookup/lookup.js:29-31 | mounting requests recent records |
| Lookup.Lookup.OnKeyup | force-app/main/default/lwc/lookup/lookup.js:72-98 | performs the `Keyup` transition and keeps the invariant |
| Lookup.Lookup.HandleSelected | force-app/main/default/lwc/lookup/lookup.js:100-105 | performs the `HandleSelected` transition and keeps the invariant |
| Lookup.Lookup.Search | force-app/main/default/lwc/lookup/lookup.js:107-111 | clears the error and dispatches `getRecords` with the current searcher |
| Lookup.Lookup.SearchSucceeded | force-app/main/default/lwc/lookup/lookup.js:112-124 | performs the `SearchSucceeded` transition and keeps the invariant |
| Lookup.Lookup.ShowResults | force-app/main/default/lwc/lookup/lookup.js:114-123 | stores the sorted records and their Ids and toasts when there are none |
| Lookup.Lookup.SearchFailed | force-app/main/default/lwc/lookup/lookup.js:125-128 | stores the rejection's error and closes one search in flight |
| Lookup.Lookup.DebounceSearch | force-app/main/default/lwc/lookup/lookup.js:131-137 | cancels the timer `delaySearch` holds and schedules a new one under a fresh handle |
| Lookup.Lookup.TimerFires | force-app/main/default/lwc/lookup/lookup.js:134-136 | the pending timer runs `search()` and is no longer pending |
| Lookup.Lookup.RequestRecent | force-app/main/default/lwc/lookup/lookup.js:139-143 | clears the error and dispatches `getRecent` with the current searcher |
| Lookup.Lookup.RecentSucceeded | force-app/main/default/lwc/lookup/lookup.js:144-147 | stores the answer and its Ids |
| Lookup.Lookup.RecentFailed | force-app/main/default/lwc/lookup/lookup.js:148-151 | stores the rejection's error and closes one recent request in flight |
| Lookup.Lookup.ClearSelection | force-app/main/default/lwc/lookup/lookup.js:154-161 | performs the `ClearSelection` transition and keeps the invariant |
| Lookup.Lookup.FireSelected | force-app/main/default/lwc/lookup/lookup.js:163-168 | emits `selected` with the selected Id and nothing else |
| Lookup.Lookup.FireToast | force-app/main/default/lwc/lookup/lookup.js:214-217 | emits the toast and nothing else |
| Lookup.Lookup.CycleActive | force-app/main/default/lwc/lookup/lookup.js:170-181 | moves only the active id, to `NextActive` |
| Lookup.Lookup.SelectItem | force-app/main/default/lwc/lookup/lookup.js:183-186 | runs every row in order, handling each re-emitted event before the next row, and so performs the `SelectItem` transition |
| Lookup.Lookup.SelectRow | force-app/main/default/lwc/listboxItem/listboxItem.js:10-13 | one row's `selectItem()`: the Id it emits, if any, is handled by `handleSelected`; otherwise nothing changes |
| Lookup.Lookup.SetFocus | force-app/main/default/lwc/lookup/lookup.js:188-190 | `focused` becomes whether the event is a focus event |

## Left out

- The LWC runtime is not part of this model: rendering, `@track` reactivity, `iconName`, `fieldLabel` and the HTML templates.
- The templates are not part of this model. The lookup is assumed to bind the list to its `records`, `title`, `subtitle` (as the list's `context`) and `activeId`. The list is assumed to give each row its record, `title`, `context` (as `subtitle`) and `activeId`. `querySelector` is assumed to find that list.
- The getters `isReadOnly`, `showListbox`, `showClear` and `hasError` are functions of `LookupModel.State`, not members of the class.
- The Apex calls are modelled as a log of dispatched requests. Each answer is a later call to a completion method with the decoded value. `JSON.parse` is not modelled. A malformed answer makes `JSON.parse` throw, which reaches the `catch`, and that is the `SearchFailed` / `RecentFailed` path.
- Timing is left out: the 300 ms delay and the browser's timer queue. A timer firing is the explicit step `TimerFires`.
- `console.error` is left out.
- The toast is the event value `Toast(title, variant, message)`, not a `ShowToastEvent` object.
- An error object is reduced to its `message`. The TypeError's text is the wording V8 uses.
- `Strings.Lower`: lower-cases ASCII letters only. JavaScript's `toLowerCase` maps every Unicode upper-case letter.
- Strings are sequences of characters, not of UTF-16 code units, and field values are assumed to be strings. A non-string title would throw in `toLowerCase`, and that is not modelled.
- Every record is assumed to carry an `Id`.
- `Records.SortRecords` is a stable insertion sort. `Array.prototype.sort` is stable, so its result is the same. Which pairs the engine compares is not modelled, only the fact that the comparator throws on a record without the title once there are two records.
- `Lookup.Lookup.HandleSelected`: requires the event's Id to belong to one of the records. Otherwise the code throws on reading the title of an undefined record after setting `selected` and `record`, and that case is not modelled.
- `Lookup.Lookup.CycleActive`: requires `recordIds` to be defined. `OnKeyup` with an arrow key and undefined Ids models the TypeError that `indexOf` throws: no change beyond the text and the cleared error.
- `Lookup.Lookup.SelectRow` and `Lookup.Lookup.SelectItem`: the events are delivered synchronously, as `dispatchEvent` does. Each row's event is handled before the next row runs.
- `cycleActive` does not wrap forwards. ArrowDown from the last Id leaves no active id, and the next ArrowDown goes to the first Id (`CycleForwardPastLast`).
- The list calls each row's `selectItem()` with no argument. A row therefore emits only when it is the active row.
- `lookup.js` has no bound `value`, no lookup-by-id, no `required`/`readOnly` and no validity checks, so the model has none.
- The `@api` defaults of `title` and `subtitle` (`'Name'` and `'Id'`, lookup.js lines 26-27) are not modelled. The constructor takes both field names as parameters, and every property holds for any pair.
