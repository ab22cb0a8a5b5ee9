/** The lookup component: a text input that searches candidate records as the user types,
    lets the keyboard move a cursor over them, and selects one. Each handler and each
    asynchronous completion is a method proved to follow its transition in `LookupModel`
    and to keep `LookupModel.Inv`. */
module Lookup {
  import opened Records
  import M = LookupModel
  import ListboxItem
  import Listbox

  class Lookup {
    const sobjectName: string
    const title: string
    const subtitle: string

    var inputValue: Option<string>
    var records: seq<Record>
    var focused: bool
    var selected: string
    var record: Option<Record>
    var error: Option<Error>
    var recordIds: Option<seq<string>>
    var activeId: Option<string>
    /** The handle of the last debounce timer scheduled. */
    var delaySearch: Option<nat>

    /** The browser's next timer handle. */
    var nextTimer: nat
    /** The timers scheduled and neither fired nor cancelled. */
    ghost var pendingTimers: set<nat>
    /** Service calls dispatched and not yet resolved or rejected. */
    ghost var searchesInFlight: nat
    ghost var recentsInFlight: nat
    /** Everything dispatched to the service and emitted to the page, in order. */
    ghost var requests: seq<M.Request>
    ghost var events: seq<M.Event>

    function Config(): M.Config
    {
      M.Config(sobjectName, title, subtitle)
    }

    ghost function State(): M.State
      reads this
    {
      M.State(inputValue, records, focused, selected, record, error, recordIds, activeId,
              delaySearch, nextTimer, pendingTimers, searchesInFlight, recentsInFlight, requests, events)
    }

    ghost predicate Valid()
      reads this
    {
      M.Inv(State())
    }

    constructor (sobjectName: string, title: string, subtitle: string)
      ensures Config() == M.Config(sobjectName, title, subtitle)
      ensures State() == M.Initial() && Valid()
    {
      this.sobjectName, this.title, this.subtitle := sobjectName, title, subtitle;
      inputValue, records, focused, selected := Some(""), [], false, "";
      record, error, recordIds, activeId, delaySearch := None, None, None, Some(""), None;
      nextTimer, pendingTimers := 0, {};
      searchesInFlight, recentsInFlight, requests, events := 0, 0, [], [];
    }

    /** `getSearcher()` */
    function GetSearcher(): (q: M.Searcher)
      reads this
      ensures q == M.GetSearcher(Config(), State())
    {
      M.Searcher(inputValue, sobjectName, [title, subtitle])
    }

    /** `getRecordIds()`: the records' Ids, position by position. */
    function GetRecordIds(): (ids: seq<string>)
      reads this
      ensures |ids| == |records|
      ensures forall i :: 0 <= i < |records| ==> ids[i] == records[i]["Id"]
    {
      Ids(records)
    }

    /** `connectedCallback()` */
    method ConnectedCallback()
      requires Valid()
      modifies this
      ensures Valid() && State() == M.RequestRecent(Config(), old(State()))
    {
      RequestRecent();
    }

    /** `onKeyup(event)` with `event.code` and `event.target.value`. */
    method OnKeyup(code: string, value: string)
      requires Valid()
      modifies this
      ensures Valid() && State() == M.Keyup(Config(), old(State()), code, value)
    {
      inputValue := Some(value);
      error := None;
      if code == M.ArrowUp {
        if recordIds.Some? {
          CycleActive(false);
        }
      } else if code == M.ArrowDown {
        if recordIds.Some? {
          CycleActive(true);
        }
      } else if code == M.EnterKey {
        SelectItem();
      } else if code == M.EscapeKey {
        ClearSelection();
      } else if |inputValue.value| > 2 {
        DebounceSearch();
      } else if |inputValue.value| == 0 {
        records := [];
        RequestRecent();
      } else {
        error := Some(M.MinLengthError);
      }
    }

    /** `handleSelected(event)` for a `selected` event whose detail is a record's Id. */
    method HandleSelected(id: string)
      requires Valid() && id in Ids(records)
      modifies this
      ensures Valid() && State() == M.HandleSelected(Config(), old(State()), id)
    {
      selected := id;
      record := FindById(records, selected);
      inputValue := Field(record.value, title);
      FireSelected();
    }

    /** `search()`: dispatches `getRecords`; its outcome arrives through
        `SearchSucceeded` or `SearchFailed`. */
    method Search()
      requires Valid()
      modifies this
      ensures Valid() && State() == M.Search(Config(), old(State()))
    {
      ghost var searcher := GetSearcher();
      error := None;
      requests := requests + [M.GetRecords(searcher)];
      searchesInFlight := searchesInFlight + 1;
    }

    /** The `then` continuation of `search()`, with the decoded response. */
    method SearchSucceeded(groups: seq<seq<Record>>)
      requires Valid() && searchesInFlight > 0
      modifies this
      ensures Valid() && State() == M.SearchSucceeded(Config(), old(State()), groups)
    {
      searchesInFlight := searchesInFlight - 1;
      var newData := Flatten(groups);
      var sorted := SortRecords(newData, title);
      M.SearchSucceededOutcome(Config(), old(State()), groups, sorted);
      if sorted.Err? {
        error := Some(sorted.error);
      } else {
        ShowResults(sorted.value);
      }
    }

    /** The rest of the `then` continuation once the response is sorted: store the
        records and their Ids, and toast when there are none. */
    method ShowResults(rs: seq<Record>)
      requires Valid()
      modifies this
      ensures Valid()
      ensures State() == old(State()).(records := rs, recordIds := Some(Ids(rs)),
        events := if rs == [] then old(events) + [M.NoRecordsToast] else old(events))
    {
      records := rs;
      recordIds := Some(GetRecordIds());
      if |records| == 0 {
        FireToast(M.NoRecordsToast);
      }
    }

    /** The `catch` continuation of `search()`. */
    method SearchFailed(e: Error)
      requires Valid() && searchesInFlight > 0
      modifies this
      ensures Valid() && State() == M.SearchFailed(old(State()), e)
    {
      searchesInFlight := searchesInFlight - 1;
      error := Some(e);
    }

    /** `debounceSearch()`: `clearTimeout(delaySearch)`, then `setTimeout(search)`. */
    method DebounceSearch()
      requires Valid()
      modifies this
      ensures Valid() && State() == M.DebounceSearch(old(State()))
    {
      if delaySearch.Some? {
        pendingTimers := pendingTimers - {delaySearch.value};
      }
      delaySearch := Some(nextTimer);
      pendingTimers := pendingTimers + {nextTimer};
      nextTimer := nextTimer + 1;
    }

    /** The browser runs the pending timer `h`. */
    method TimerFires(h: nat)
      requires Valid() && h in pendingTimers
      modifies this
      ensures Valid() && State() == M.TimerFires(Config(), old(State()), h)
    {
      pendingTimers := pendingTimers - {h};
      Search();
    }

    /** `requestRecent()`: dispatches `getRecent`; its outcome arrives through
        `RecentSucceeded` or `RecentFailed`. */
    method RequestRecent()
      requires Valid()
      modifies this
      ensures Valid() && State() == M.RequestRecent(Config(), old(State()))
    {
      ghost var searcher := GetSearcher();
      error := None;
      requests := requests + [M.GetRecent(searcher)];
      recentsInFlight := recentsInFlight + 1;
    }

    /** The `then` continuation of `requestRecent()`, with the decoded response. */
    method RecentSucceeded(data: seq<Record>)
      requires Valid() && recentsInFlight > 0
      modifies this
      ensures Valid() && State() == M.RecentSucceeded(old(State()), data)
    {
      recentsInFlight := recentsInFlight - 1;
      records := data;
      recordIds := Some(GetRecordIds());
    }

    /** The `catch` continuation of `requestRecent()`. */
    method RecentFailed(e: Error)
      requires Valid() && recentsInFlight > 0
      modifies this
      ensures Valid() && State() == M.RecentFailed(old(State()), e)
    {
      recentsInFlight := recentsInFlight - 1;
      error := Some(e);
    }

    /** `clearSelection()` */
    method ClearSelection()
      requires Valid()
      modifies this
      ensures Valid() && State() == M.ClearSelection(Config(), old(State()))
    {
      ghost var cleared := old(State()).(selected := "", record := None, inputValue := Some(""), error := None);
      selected := "";
      record := None;
      inputValue := Some("");
      error := None;
      assert State() == cleared;
      RequestRecent();
      assert State() == M.RequestRecent(Config(), cleared);
      FireSelected();
    }

    /** `fireSelected()` */
    method FireSelected()
      requires Valid()
      modifies this
      ensures Valid() && State() == M.FireSelected(old(State()))
    {
      events := events + [M.Selected(selected)];
    }

    /** `fireToast(notification)` */
    method FireToast(notification: M.Event)
      requires Valid()
      modifies this
      ensures Valid() && State() == old(State()).(events := old(events) + [notification])
    {
      events := events + [notification];
    }

    /** `cycleActive(forwards)`, once `recordIds` is defined. */
    method CycleActive(forwards: bool)
      requires Valid() && recordIds.Some?
      modifies this
      ensures Valid() && State() == M.CycleActive(old(State()), forwards)
    {
      var ids := recordIds.value;
      var currentIndex := if activeId.Some? then IndexOf(ids, activeId.value) else -1;
      if currentIndex == -1 || currentIndex == |records| {
        activeId := At(ids, 0);
      } else if !forwards && currentIndex == 0 {
        activeId := At(ids, |ids| - 1);
      } else if forwards {
        activeId := At(ids, currentIndex + 1);
      } else {
        activeId := At(ids, currentIndex - 1);
      }
    }

    /** `selectItem()`: the list runs `selectItem()` on each row in turn; an event a row
        emits is re-emitted by the list and handled here before the next row runs. */
    method SelectItem()
      requires Valid()
      modifies this
      ensures Valid() && State() == M.SelectItem(Config(), old(State()))
    {
      var listbox := Listbox.Listbox(records, title, subtitle, activeId);
      var rows := Listbox.Rows(listbox);
      ghost var s0 := State();
      ghost var done: seq<string> := [];
      for i := 0 to |rows|
        invariant done == Listbox.Emitted(rows[..i])
        invariant forall x :: x in done ==> x in Ids(s0.records)
        invariant Valid() && State() == M.ApplySelections(Config(), s0, done)
      {
        Listbox.EmittedPrefixIds(listbox, i + 1);
        Listbox.EmittedStep(rows, i);
        assert records == s0.records && rows[i].record == records[i];
        assert Ids(records)[i] == Id(rows[i].record);
        var emitted := SelectRow(rows[i]);
        if emitted.Some? {
          M.ApplySelectionsStep(Config(), s0, done, emitted.value);
          done := done + [emitted.value];
        }
      }
      assert rows[..|rows|] == rows;
    }

    /** One row running `selectItem()`: the event it emits, if any, is re-emitted by the
        list and handled here. Returns the Id handled. */
    method SelectRow(row: ListboxItem.Row) returns (handled: Option<string>)
      requires Valid()
      requires ListboxItem.IsActive(row) ==> Id(row.record) in Ids(records)
      modifies this
      ensures handled == (match ListboxItem.SelectItem(row, None)
                          case Some(e) => Some(e.detail)
                          case None => None)
      ensures Valid()
      ensures handled.Some? ==> State() == M.HandleSelected(Config(), old(State()), handled.value)
      ensures handled.None? ==> State() == old(State())
    {
      var emitted := ListboxItem.SelectItem(row, None);
      handled := None;
      if emitted.Some? {
        var forwarded := Listbox.HandleSelected(emitted.value);
        HandleSelected(forwarded.detail);
        handled := Some(forwarded.detail);
      }
    }

    /** `setFocus(event)` with `event.type`. */
    method SetFocus(eventType: string)
      requires Valid()
      modifies this
      ensures Valid() && State() == M.SetFocus(old(State()), eventType)
    {
      focused := eventType == "focus";
    }
  }
}
