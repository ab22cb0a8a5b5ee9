/** The lookup controller as a state machine over plain values: its fields, the browser
    and service state it interacts with (timers, requests in flight, dispatched requests
    and emitted events), the derived getters, and one transition per handler and per
    asynchronous completion. The `Lookup` class is proved to follow these transitions. */
module LookupModel {
  import opened Strings
  import opened Records
  import Listbox

  const ArrowUp := "ArrowUp"
  const ArrowDown := "ArrowDown"
  const EnterKey := "Enter"
  const EscapeKey := "Escape"

  /** `ACTIONABLE_KEYS`, the keys `onKeyup` dispatches to an action. */
  const ActionableKeys: seq<string> := [ArrowUp, ArrowDown, EnterKey, EscapeKey]

  /** `ACTIONABLE_KEYS.includes(event.code)` */
  predicate IsActionable(code: string): (b: bool)
    ensures b <==> code in ActionableKeys
  {
    code == ArrowUp || code == ArrowDown || code == EnterKey || code == EscapeKey
  }

  /** The error set while fewer than three characters are typed. */
  const MinLengthError := Error("Minimum 2 characters")

  /** The configured surface: target object and the title and subtitle field names. */
  datatype Config = Config(sobjectName: string, title: string, subtitle: string)

  /** The parameter bundle sent with every service request. */
  datatype Searcher = Searcher(searchTerm: Option<string>, objectName: string, fields: seq<string>)

  /** A dispatched call to the service: `getRecent` or `getRecords`. */
  datatype Request = GetRecent(searcher: Searcher) | GetRecords(searcher: Searcher)

  /** An event the lookup dispatches outward: `selected` or a toast. */
  datatype Event = Selected(detail: string) | Toast(title: string, variant: string, message: string)

  const NoRecordsToast := Toast("Info", "info", "No records found, please refine your search.")

  /** The component's fields, followed by what the browser and the service hold for it:
      the next timer handle, the timers scheduled and neither fired nor cancelled, the
      requests not yet answered, and the logs of requests dispatched and events emitted. */
  datatype State = State(
    inputValue: Option<string>,
    records: seq<Record>,
    focused: bool,
    selected: string,
    record: Option<Record>,
    error: Option<Error>,
    recordIds: Option<seq<string>>,
    activeId: Option<string>,
    delaySearch: Option<nat>,
    nextTimer: nat,
    pendingTimers: set<nat>,
    searchesInFlight: nat,
    recentsInFlight: nat,
    requests: seq<Request>,
    events: seq<Event>)

  /** The field initialisers; `record`, `error`, `recordIds` and `delaySearch` start undefined. */
  function Initial(): (s: State)
    ensures !IsReadOnly(s) && !ShowListbox(s) && !ShowClear(s) && HasError(s) == ""
    ensures s.pendingTimers == {} && s.requests == [] && s.events == []
  {
    State(Some(""), [], false, "", None, None, None, Some(""), None, 0, {}, 0, 0, [], [])
  }

  function TimerSet(handle: Option<nat>): set<nat>
  {
    if handle.Some? then {handle.value} else {}
  }

  /** What every handler keeps true: non-empty records come with their Ids; the input
      text is only undefined while a record is selected; the only timer that can still
      fire is the one `delaySearch` holds; handles are allocated afresh. */
  predicate Inv(s: State)
  {
    (s.records != [] ==> s.recordIds == Some(Ids(s.records))) &&
    (s.inputValue.None? ==> s.record.Some?) &&
    s.pendingTimers <= TimerSet(s.delaySearch) &&
    (s.delaySearch.Some? ==> s.delaySearch.value < s.nextTimer)
  }

  /** At most one search timer is ever pending. */
  lemma AtMostOnePendingTimer(s: State)
    requires Inv(s)
    ensures |s.pendingTimers| <= 1
  {
    if s.delaySearch.Some? {
      assert s.pendingTimers <= {s.delaySearch.value};
      if s.pendingTimers != {} {
        assert s.pendingTimers == {s.delaySearch.value};
      }
    }
  }

  // ---------------------------------------------------------------- getters

  predicate IsReadOnly(s: State) { s.record.Some? }

  predicate ShowListbox(s: State) { s.focused && |s.records| > 0 && s.record.None? }

  /** `record || (!record && inputValue.length > 0)`; the length is never read while the
      input text is undefined, because `Inv` puts a record beside it. */
  predicate ShowClear(s: State)
  {
    s.record.Some? || (s.record.None? && s.inputValue.Some? && |s.inputValue.value| > 0)
  }

  function HasError(s: State): string
  {
    if s.error.Some? then s.error.value.message else ""
  }

  const SelectionClass := "slds-has-selection"
  const InputValueClass := "slds-combobox__input-value"
  const OpenClass := "slds-is-open"

  /** The classes `containerClasses` pushes. */
  function ContainerClassList(s: State): (cs: seq<string>)
    ensures |cs| == (if s.record.Some? then 2 else 1) && cs[0] == "slds-combobox_container"
    ensures SelectionClass in cs <==> s.record.Some?
  {
    ["slds-combobox_container"] + (if IsReadOnly(s) then [SelectionClass] else [])
  }

  /** The classes `inputClasses` pushes. */
  function InputClassList(s: State): (cs: seq<string>)
    ensures |cs| == (if s.record.Some? then 3 else 2) && cs[..2] == ["slds-input", "slds-combobox__input"]
    ensures InputValueClass in cs <==> s.record.Some?
  {
    ["slds-input", "slds-combobox__input"] + (if IsReadOnly(s) then [InputValueClass] else [])
  }

  /** The classes `comboboxClasses` pushes. */
  function ComboboxClassList(s: State): (cs: seq<string>)
    ensures |cs| == (if ShowListbox(s) then 4 else 3)
    ensures cs[..3] == ["slds-combobox", "slds-dropdown-trigger", "slds-dropdown-trigger_click"]
    ensures OpenClass in cs <==> s.focused && |s.records| > 0 && s.record.None?
  {
    ["slds-combobox", "slds-dropdown-trigger", "slds-dropdown-trigger_click"] +
      (if ShowListbox(s) then [OpenClass] else [])
  }

  function ContainerClasses(s: State): string { Join(ContainerClassList(s)) }
  function InputClasses(s: State): string { Join(InputClassList(s)) }
  function ComboboxClasses(s: State): string { Join(ComboboxClassList(s)) }

  /** Read back as class names, the combobox is open exactly when the list is shown. */
  lemma ComboboxOpenIffListbox(s: State)
    ensures OpenClass in Split(ComboboxClasses(s)) <==> ShowListbox(s)
  {
    SplitJoin(ComboboxClassList(s));
  }

  /** The container carries its selection class exactly when a record is selected. */
  lemma ContainerSelectionIffReadOnly(s: State)
    ensures SelectionClass in Split(ContainerClasses(s)) <==> IsReadOnly(s)
  {
    SplitJoin(ContainerClassList(s));
  }

  /** The input carries its value class exactly when a record is selected. */
  lemma InputValueIffReadOnly(s: State)
    ensures InputValueClass in Split(InputClasses(s)) <==> IsReadOnly(s)
  {
    SplitJoin(InputClassList(s));
  }

  // ---------------------------------------------------------------- helpers

  /** `getSearcher()`, read at the moment the request is dispatched. */
  function GetSearcher(c: Config, s: State): Searcher
  {
    Searcher(s.inputValue, c.sobjectName, [c.title, c.subtitle])
  }

  /** The list the lookup renders, bound to its records, field names and active id. */
  function ListboxOf(c: Config, s: State): Listbox.Listbox
  {
    Listbox.Listbox(s.records, c.title, c.subtitle, s.activeId)
  }

  /** The fields of the component itself, leaving out the browser's and service's side. */
  predicate SameFields(a: State, b: State)
  {
    a.inputValue == b.inputValue && a.records == b.records && a.focused == b.focused &&
    a.selected == b.selected && a.record == b.record && a.error == b.error &&
    a.recordIds == b.recordIds && a.activeId == b.activeId && a.delaySearch == b.delaySearch
  }

  // ---------------------------------------------------------------- transitions

  /** `fireSelected()` */
  function FireSelected(s: State): State
  {
    s.(events := s.events + [Selected(s.selected)])
  }

  /** `requestRecent()` up to the dispatch of `getRecent`. */
  function RequestRecent(c: Config, s: State): State
  {
    s.(error := None, requests := s.requests + [GetRecent(GetSearcher(c, s))],
       recentsInFlight := s.recentsInFlight + 1)
  }

  /** `search()` up to the dispatch of `getRecords`. */
  function Search(c: Config, s: State): State
  {
    s.(error := None, requests := s.requests + [GetRecords(GetSearcher(c, s))],
       searchesInFlight := s.searchesInFlight + 1)
  }

  /** `debounceSearch()`: cancel the timer `delaySearch` holds, schedule a new one. */
  function DebounceSearch(s: State): State
  {
    var kept := if s.delaySearch.Some? then s.pendingTimers - {s.delaySearch.value} else s.pendingTimers;
    s.(pendingTimers := kept + {s.nextTimer}, delaySearch := Some(s.nextTimer), nextTimer := s.nextTimer + 1)
  }

  /** The id `cycleActive` moves the cursor to. `recordsLength` is `records.length`,
      which the code compares with a position in `recordIds`. */
  function NextActive(ids: seq<string>, recordsLength: nat, active: Option<string>, forwards: bool): (r: Option<string>)
    ensures r.Some? ==> r.value in ids
  {
    var i := if active.Some? then IndexOf(ids, active.value) else -1;
    if i == -1 || i == recordsLength then At(ids, 0)
    else if !forwards && i == 0 then At(ids, |ids| - 1)
    else if forwards then At(ids, i + 1)
    else At(ids, i - 1)
  }

  /** `cycleActive(forwards)`; `recordIds` must be defined. */
  function CycleActive(s: State, forwards: bool): (r: State)
    requires s.recordIds.Some?
    ensures r.activeId.Some? ==> r.activeId.value in s.recordIds.value
    ensures r == s.(activeId := r.activeId)
  {
    s.(activeId := NextActive(s.recordIds.value, |s.records|, s.activeId, forwards))
  }

  /** An arrow key: `cycleActive`, which throws a TypeError before changing anything
      while `recordIds` is still undefined. */
  function CycleOnKey(s: State, forwards: bool): State
  {
    if s.recordIds.Some? then CycleActive(s, forwards) else s
  }

  /** `handleSelected(event)` for an event whose detail is the Id of one of the records. */
  function HandleSelected(c: Config, s: State, id: string): (r: State)
    requires id in Ids(s.records)
    ensures r.records == s.records && r.activeId == s.activeId
  {
    var rec := FindById(s.records, id).value;
    FireSelected(s.(selected := id, record := Some(rec), inputValue := Field(rec, c.title)))
  }

  /** The lookup handling, one after the other, the `selected` events the list re-emits. */
  function ApplySelections(c: Config, s: State, ids: seq<string>): (r: State)
    requires forall x :: x in ids ==> x in Ids(s.records)
    ensures r.records == s.records && r.activeId == s.activeId
    decreases |ids|
  {
    if ids == [] then s
    else HandleSelected(c, ApplySelections(c, s, ids[..|ids| - 1]), ids[|ids| - 1])
  }

  /** Handling one more event extends the fold by one selection. */
  lemma ApplySelectionsStep(c: Config, s: State, ids: seq<string>, id: string)
    requires forall x :: x in ids ==> x in Ids(s.records)
    requires id in Ids(s.records)
    ensures ApplySelections(c, s, ids + [id]) == HandleSelected(c, ApplySelections(c, s, ids), id)
  {
    assert (ids + [id])[..|ids|] == ids;
  }

  /** `selectItem()` (Enter): the list asks every row to select itself, and each row that
      emits has its event handled by the lookup before the next row runs. */
  function SelectItem(c: Config, s: State): State
  {
    var ids := Listbox.SelectItem(ListboxOf(c, s));
    Listbox.SelectItemEmitsRecordIds(ListboxOf(c, s));
    ApplySelections(c, s, ids)
  }

  /** `clearSelection()` */
  function ClearSelection(c: Config, s: State): State
  {
    var cleared := s.(selected := "", record := None, inputValue := Some(""), error := None);
    FireSelected(RequestRecent(c, cleared))
  }

  /** `onKeyup(event)` with `event.code` and `event.target.value`. */
  function Keyup(c: Config, s: State, code: string, value: string): State
  {
    var s1 := s.(inputValue := Some(value), error := None);
    if code == ArrowUp then CycleOnKey(s1, false)
    else if code == ArrowDown then CycleOnKey(s1, true)
    else if code == EnterKey then SelectItem(c, s1)
    else if code == EscapeKey then ClearSelection(c, s1)
    else if |value| > 2 then DebounceSearch(s1)
    else if |value| == 0 then RequestRecent(c, s1.(records := []))
    else s1.(error := Some(MinLengthError))
  }

  /** `setFocus(event)` with `event.type`. */
  function SetFocus(s: State, eventType: string): State
  {
    s.(focused := eventType == "focus")
  }

  /** The debounce timer `h` fires and runs `search()`. */
  function TimerFires(c: Config, s: State, h: nat): State
    requires h in s.pendingTimers
  {
    Search(c, s.(pendingTimers := s.pendingTimers - {h}))
  }

  /** `getRecords` resolves with `groups` (the decoded JSON). A TypeError thrown while
      sorting lands in the `catch` continuation. */
  function SearchSucceeded(c: Config, s: State, groups: seq<seq<Record>>): State
    requires s.searchesInFlight > 0
  {
    var s0 := s.(searchesInFlight := s.searchesInFlight - 1);
    match SortRecords(Flatten(groups), c.title)
    case Err(e) => s0.(error := Some(e))
    case Ok(rs) =>
      var s1 := s0.(records := rs, recordIds := Some(Ids(rs)));
      if |rs| == 0 then s1.(events := s1.events + [NoRecordsToast]) else s1
  }

  /** The outcome of a search response, given the outcome of sorting it. */
  lemma SearchSucceededOutcome(c: Config, s: State, groups: seq<seq<Record>>, sorted: Result<seq<Record>>)
    requires s.searchesInFlight > 0 && sorted == SortRecords(Flatten(groups), c.title)
    ensures var s0 := s.(searchesInFlight := s.searchesInFlight - 1);
      SearchSucceeded(c, s, groups) ==
        if sorted.Err? then s0.(error := Some(sorted.error))
        else if |sorted.value| == 0 then
          s0.(records := [], recordIds := Some([]), events := s.events + [NoRecordsToast])
        else s0.(records := sorted.value, recordIds := Some(Ids(sorted.value)))
  {
  }

  /** `getRecords` rejects with `e`. */
  function SearchFailed(s: State, e: Error): State
    requires s.searchesInFlight > 0
  {
    s.(searchesInFlight := s.searchesInFlight - 1, error := Some(e))
  }

  /** `getRecent` resolves with `rs` (the decoded JSON). */
  function RecentSucceeded(s: State, rs: seq<Record>): State
    requires s.recentsInFlight > 0
  {
    s.(recentsInFlight := s.recentsInFlight - 1, records := rs, recordIds := Some(Ids(rs)))
  }

  /** `getRecent` rejects with `e`. */
  function RecentFailed(s: State, e: Error): State
    requires s.recentsInFlight > 0
  {
    s.(recentsInFlight := s.recentsInFlight - 1, error := Some(e))
  }

  // ---------------------------------------------------------------- the invariant

  lemma InitialInv()
    ensures Inv(Initial())
  {
  }

  lemma {:induction false} ApplySelectionsInv(c: Config, s: State, ids: seq<string>)
    requires Inv(s)
    requires forall x :: x in ids ==> x in Ids(s.records)
    ensures Inv(ApplySelections(c, s, ids))
  {
    if ids != [] {
      ApplySelectionsInv(c, s, ids[..|ids| - 1]);
    }
  }

  lemma KeyupInv(c: Config, s: State, code: string, value: string)
    requires Inv(s)
    ensures Inv(Keyup(c, s, code, value))
  {
    var s1 := s.(inputValue := Some(value), error := None);
    assert Inv(s1);
    if code == ArrowUp || code == ArrowDown {
      assert Keyup(c, s, code, value) == CycleOnKey(s1, code == ArrowDown);
      CycleOnKeyInv(s1, code == ArrowDown);
    } else if code == EnterKey {
      Listbox.SelectItemEmitsRecordIds(ListboxOf(c, s1));
      ApplySelectionsInv(c, s1, Listbox.SelectItem(ListboxOf(c, s1)));
    } else if code == EscapeKey {
      HandlersInv(c, s1, "", "");
    } else if |value| > 2 {
      assert Keyup(c, s, code, value) == DebounceSearch(s1);
      DebounceSearchInv(s1);
    }
  }

  lemma CycleOnKeyInv(s: State, forwards: bool)
    requires Inv(s)
    ensures Inv(CycleOnKey(s, forwards))
  {
  }

  lemma DebounceSearchInv(s: State)
    requires Inv(s)
    ensures Inv(DebounceSearch(s))
  {
  }

  lemma TimerFiresInv(c: Config, s: State, h: nat)
    requires Inv(s) && h in s.pendingTimers
    ensures Inv(TimerFires(c, s, h))
  {
  }

  lemma SearchSucceededInv(c: Config, s: State, groups: seq<seq<Record>>)
    requires Inv(s) && s.searchesInFlight > 0
    ensures Inv(SearchSucceeded(c, s, groups))
  {
    SearchSucceededOutcome(c, s, groups, SortRecords(Flatten(groups), c.title));
  }

  lemma CompletionsInv(c: Config, s: State, rs: seq<Record>, e: Error)
    requires Inv(s)
    ensures s.searchesInFlight > 0 ==> Inv(SearchFailed(s, e))
    ensures s.recentsInFlight > 0 ==> Inv(RecentSucceeded(s, rs)) && Inv(RecentFailed(s, e))
  {
  }

  lemma HandlersInv(c: Config, s: State, id: string, eventType: string)
    requires Inv(s)
    ensures id in Ids(s.records) ==> Inv(HandleSelected(c, s, id))
    ensures Inv(ClearSelection(c, s)) && Inv(SetFocus(s, eventType)) && Inv(RequestRecent(c, s))
  {
  }

  // ---------------------------------------------------------------- keyup

  /** More than two characters typed: the text is stored, the error cleared, the pending
      search timer (if any) cancelled and exactly one new one pending under a fresh handle;
      nothing else changes and nothing is requested yet. */
  lemma KeyupLongInput(c: Config, s: State, code: string, value: string)
    requires Inv(s) && !IsActionable(code) && |value| > 2
    ensures s.nextTimer !in s.pendingTimers
    ensures Keyup(c, s, code, value) ==
      s.(inputValue := Some(value), error := None, delaySearch := Some(s.nextTimer),
         pendingTimers := {s.nextTimer}, nextTimer := s.nextTimer + 1)
  {
    var kept := if s.delaySearch.Some? then s.pendingTimers - {s.delaySearch.value} else s.pendingTimers;
    assert kept == {};
  }

  /** The text emptied: the records are cleared at once (their Ids are kept) and one
      request for recent records goes out with the empty search term; nothing else changes. */
  lemma KeyupEmptyInput(c: Config, s: State, code: string)
    requires !IsActionable(code)
    ensures Keyup(c, s, code, "") ==
      s.(inputValue := Some(""), error := None, records := [],
         requests := s.requests + [GetRecent(Searcher(Some(""), c.sobjectName, [c.title, c.subtitle]))],
         recentsInFlight := s.recentsInFlight + 1)
  {
  }

  /** One or two characters: the text is stored and the minimum-length error set; nothing
      is requested, no timer is scheduled and a pending one is not cancelled. */
  lemma KeyupShortInput(c: Config, s: State, code: string, value: string)
    requires !IsActionable(code) && 1 <= |value| <= 2
    ensures HasError(Keyup(c, s, code, value)) == "Minimum 2 characters"
    ensures Keyup(c, s, code, value) == s.(inputValue := Some(value), error := Some(MinLengthError))
  {
  }

  /** A debounce timer pending before a one- or two-character keyup still fires afterwards:
      it searches with the short text and clears the minimum-length error. */
  lemma ShortInputKeepsTimer(c: Config, s: State, code: string, value: string, h: nat)
    requires !IsActionable(code) && 1 <= |value| <= 2 && h in s.pendingTimers
    ensures h in Keyup(c, s, code, value).pendingTimers
    ensures var r := TimerFires(c, Keyup(c, s, code, value), h);
      r.requests == s.requests + [GetRecords(Searcher(Some(value), c.sobjectName, [c.title, c.subtitle]))] &&
      r.error == None && HasError(r) == ""
  {
    KeyupShortInput(c, s, code, value);
  }

  /** An arrow key stores the text, clears the error and moves only the cursor; with
      undefined Ids the cursor stays. */
  lemma KeyupArrow(c: Config, s: State, value: string, forwards: bool)
    ensures Keyup(c, s, if forwards then ArrowDown else ArrowUp, value) ==
      s.(inputValue := Some(value), error := None,
         activeId := if s.recordIds.Some? then NextActive(s.recordIds.value, |s.records|, s.activeId, forwards)
                     else s.activeId)
  {
  }

  /** Escape is a clear, whatever was typed. */
  lemma KeyupEscape(c: Config, s: State, value: string)
    ensures Keyup(c, s, EscapeKey, value) == ClearSelection(c, s.(inputValue := Some(value)))
  {
  }

  // ---------------------------------------------------------------- timer and responses

  /** When the timer fires, the search uses the text current at that moment. */
  lemma TimerSearchesCurrentInput(c: Config, s: State, h: nat)
    requires h in s.pendingTimers
    ensures var r := TimerFires(c, s, h);
      r.requests == s.requests + [GetRecords(Searcher(s.inputValue, c.sobjectName, [c.title, c.subtitle]))] &&
      r.pendingTimers == s.pendingTimers - {h} && r.error == None && r.searchesInFlight == s.searchesInFlight + 1
  {
  }

  /** A response the comparator can sort replaces the records with a sorted, stable
      permutation of the flattened response, with their Ids in the same order, and
      toasts exactly when it is empty. */
  lemma SearchSucceededReplaces(c: Config, s: State, groups: seq<seq<Record>>)
    requires s.searchesInFlight > 0
    requires |Flatten(groups)| < 2 || AllTitled(Flatten(groups), c.title)
    ensures var r := SearchSucceeded(c, s, groups);
      multiset(r.records) == multiset(Flatten(groups)) &&
      Sorted(r.records, c.title) &&
      (forall k :: KeyFilter(r.records, c.title, k) == KeyFilter(Flatten(groups), c.title, k)) &&
      r.recordIds == Some(Ids(r.records)) && r.error == s.error &&
      r.events == s.events + (if r.records == [] then [NoRecordsToast] else []) &&
      (|r.events| == |s.events| + 1 <==> Flatten(groups) == [])
  {
  }

  /** Two or more records, one without the title field: `sortAlpha` throws, the error is
      stored and the records stay. */
  lemma SearchSucceededUnsortable(c: Config, s: State, groups: seq<seq<Record>>)
    requires s.searchesInFlight > 0
    requires |Flatten(groups)| >= 2 && !AllTitled(Flatten(groups), c.title)
    ensures var r := SearchSucceeded(c, s, groups);
      r.error == Some(TitleTypeError) && r.records == s.records && r.recordIds == s.recordIds &&
      r.events == s.events
  {
  }

  /** A failed request stores its error and leaves the records and their Ids alone. */
  lemma FailuresKeepRecords(s: State, e: Error)
    ensures s.searchesInFlight > 0 ==>
      var r := SearchFailed(s, e);
      r.records == s.records && r.recordIds == s.recordIds && HasError(r) == e.message
    ensures s.recentsInFlight > 0 ==>
      var r := RecentFailed(s, e);
      r.records == s.records && r.recordIds == s.recordIds && HasError(r) == e.message
  {
  }

  // ---------------------------------------------------------------- selection

  /** Selecting one of the records: the first record with that Id is selected, its title
      becomes the text, one `selected` event carries the Id, and the list closes. */
  lemma HandleSelectedSpec(c: Config, s: State, id: string)
    requires id in Ids(s.records)
    ensures var r := HandleSelected(c, s, id);
      var i := IndexOf(Ids(s.records), id);
      r.selected == id && 0 <= i && r.record == Some(s.records[i]) && Id(s.records[i]) == id &&
      r.inputValue == Field(s.records[i], c.title) &&
      r.events == s.events + [Selected(id)] &&
      !ShowListbox(r) && IsReadOnly(r) && ShowClear(r) &&
      r.records == s.records && r.requests == s.requests
  {
  }

  /** Clearing resets the selection, text and error, asks once for recent records with the
      empty term and emits one `selected` event with the empty Id. */
  lemma ClearSelectionSpec(c: Config, s: State)
    ensures var r := ClearSelection(c, s);
      r.selected == "" && r.record == None && r.inputValue == Some("") && r.error == None &&
      !IsReadOnly(r) && !ShowClear(r) && HasError(r) == "" &&
      r.requests == s.requests + [GetRecent(Searcher(Some(""), c.sobjectName, [c.title, c.subtitle]))] &&
      r.events == s.events + [Selected("")] &&
      r.records == s.records && r.recordIds == s.recordIds && r.activeId == s.activeId &&
      r.focused == s.focused && r.delaySearch == s.delaySearch && r.pendingTimers == s.pendingTimers
  {
  }

  /** Clearing twice leaves the component's fields as clearing once does. */
  lemma ClearSelectionIdempotent(c: Config, s: State)
    ensures SameFields(ClearSelection(c, ClearSelection(c, s)), ClearSelection(c, s))
  {
  }

  /** Enter stores the text, clears the error and runs the list's `selectItem()`. */
  lemma KeyupEnter(c: Config, s: State, value: string)
    ensures Keyup(c, s, EnterKey, value) == SelectItem(c, s.(inputValue := Some(value), error := None))
  {
  }

  /** `selectItem()` when the active id is no record's Id changes nothing. */
  lemma EnterWithoutActiveRecord(c: Config, s: State)
    requires forall i :: 0 <= i < |s.records| ==> Some(Id(s.records[i])) != s.activeId
    ensures SelectItem(c, s) == s
  {
    Listbox.SelectItemNoMatch(ListboxOf(c, s));
  }

  /** `selectItem()` when the active id is the Id of record `i` (Ids unique) selects that record. */
  lemma EnterSelectsActiveRecord(c: Config, s: State, i: nat)
    requires Listbox.UniqueIds(s.records)
    requires i < |s.records| && s.activeId == Some(Id(s.records[i]))
    ensures Id(s.records[i]) in Ids(s.records)
    ensures SelectItem(c, s) == HandleSelected(c, s, Id(s.records[i]))
  {
    var x := Id(s.records[i]);
    Listbox.SelectItemActiveRow(ListboxOf(c, s), i);
    assert Listbox.SelectItem(ListboxOf(c, s)) == [x];
    assert [x][..0] == [];
    assert ApplySelections(c, s, [x]) == HandleSelected(c, ApplySelections(c, s, []), x);
  }

  // ---------------------------------------------------------------- the cursor

  /** From an id that is not among the Ids (or none), the cursor goes to the first Id
      (undefined when there are none). */
  lemma CycleFromUnknown(ids: seq<string>, n: nat, active: Option<string>, forwards: bool)
    requires active.None? || active.value !in ids
    ensures NextActive(ids, n, active, forwards) == At(ids, 0)
  {
  }

  /** From the first occurrence of the active id at position `i` (and `i` is not the
      records' length): backwards from 0 to the last Id, otherwise one step in the
      direction asked; forwards from the last Id the cursor becomes undefined. */
  lemma CycleStep(ids: seq<string>, n: nat, i: nat, forwards: bool)
    requires i < |ids| && ids[i] !in ids[..i] && i != n
    ensures var r := NextActive(ids, n, Some(ids[i]), forwards);
      (!forwards && i == 0 ==> r == Some(ids[|ids| - 1])) &&
      (!forwards && i > 0 ==> r == Some(ids[i - 1])) &&
      (forwards && i + 1 < |ids| ==> r == Some(ids[i + 1])) &&
      (forwards && i + 1 == |ids| ==> r == None)
  {
    IndexOfFirst(ids, i);
  }

  /** Forwards from the last Id takes two presses to come back to the first. */
  lemma CycleForwardPastLast(ids: seq<string>, i: nat)
    requires i + 1 == |ids| && ids[i] !in ids[..i]
    ensures NextActive(ids, |ids|, Some(ids[i]), true) == None
    ensures NextActive(ids, |ids|, None, true) == Some(ids[0])
  {
    IndexOfFirst(ids, i);
  }

  /** When the active id sits at the position equal to `records.length` (the records were
      emptied while `recordIds` was kept), either arrow jumps to the first Id. */
  lemma CycleAtRecordsLength(ids: seq<string>, i: nat, forwards: bool)
    requires i < |ids| && ids[i] !in ids[..i]
    ensures NextActive(ids, i, Some(ids[i]), forwards) == Some(ids[0])
  {
    IndexOfFirst(ids, i);
  }

  /** Emptying the text clears the records but keeps their Ids, so an arrow press from the
      first Id stays on the first Id, whichever direction. */
  lemma ArrowAfterEmptyInput(c: Config, s: State, code: string, value: string, forwards: bool)
    requires !IsActionable(code)
    requires s.recordIds.Some? && |s.recordIds.value| > 0 && s.activeId == Some(s.recordIds.value[0])
    ensures var r := Keyup(c, Keyup(c, s, code, ""), if forwards then ArrowDown else ArrowUp, value);
      r.records == [] && r.activeId == Some(s.recordIds.value[0])
  {
    var ids := s.recordIds.value;
    assert ids[..0] == [];
    CycleAtRecordsLength(ids, 0, forwards);
  }

  lemma IndexOfFirst(ids: seq<string>, i: nat)
    requires i < |ids| && ids[i] !in ids[..i]
    ensures IndexOf(ids, ids[i]) == i
  {
    assert ids[i] in ids;
  }
}
