/** The option list: renders one row per candidate record, fans `selectItem()` out to
    every row in order, and re-emits a row's `selected` event to the lookup. */
module Listbox {
  import opened Records
  import ListboxItem

  /** The list's inputs, all supplied by the lookup: the records, the title field name,
      the `context` field name that each row shows as its subtitle, and the active id. */
  datatype Listbox = Listbox(records: seq<Record>, title: string, context: string, activeId: Option<string>)

  /** The rendered rows, one per record, all sharing the list's field names and active id. */
  function Rows(lb: Listbox): seq<ListboxItem.Row>
  {
    seq(|lb.records|, i requires 0 <= i < |lb.records| =>
      ListboxItem.Row(lb.records[i], lb.title, lb.context, lb.activeId))
  }

  /** The details of the events emitted when each row, in order, runs `selectItem()`
      with no argument (`currentId` is undefined). */
  function Emitted(rows: seq<ListboxItem.Row>): seq<string>
  {
    if rows == [] then []
    else
      var last := rows[|rows| - 1];
      Emitted(rows[..|rows| - 1]) +
        match ListboxItem.SelectItem(last, None)
        case Some(e) => [e.detail]
        case None => []
  }

  /** Running one more row appends what that row emits. */
  lemma EmittedStep(rows: seq<ListboxItem.Row>, i: nat)
    requires i < |rows|
    ensures Emitted(rows[..i + 1]) == Emitted(rows[..i]) +
      match ListboxItem.SelectItem(rows[i], None)
      case Some(e) => [e.detail]
      case None => []
  {
    assert rows[..i + 1][..i] == rows[..i];
  }

  /** `selectItem()`: the Ids the rows emit, in row order. */
  function SelectItem(lb: Listbox): seq<string>
  {
    Emitted(Rows(lb))
  }

  /** `handleSelected`: the bubbling event re-emitted for a row's event. */
  function HandleSelected(child: SelectedEvent): (e: SelectedEvent)
    ensures e.detail == child.detail && e.bubbles
  {
    SelectedEvent(child.detail, true)
  }

  /** Reference: the Ids of the records whose Id is the active id, in order. */
  function MatchingIds(rs: seq<Record>, activeId: Option<string>): seq<string>
  {
    if rs == [] then []
    else (if Some(Id(rs[0])) == activeId then [Id(rs[0])] else []) + MatchingIds(rs[1..], activeId)
  }

  lemma {:induction false} MatchingIdsSnoc(rs: seq<Record>, r: Record, activeId: Option<string>)
    ensures MatchingIds(rs + [r], activeId)
         == MatchingIds(rs, activeId) + (if Some(Id(r)) == activeId then [Id(r)] else [])
  {
    if rs == [] {
      assert MatchingIds([r], activeId) == (if Some(Id(r)) == activeId then [Id(r)] else []) + MatchingIds([], activeId);
    } else {
      assert (rs + [r])[1..] == rs[1..] + [r];
      MatchingIdsSnoc(rs[1..], r, activeId);
    }
  }

  lemma {:induction false} EmittedMatches(lb: Listbox, n: nat)
    requires n <= |lb.records|
    ensures Emitted(Rows(lb)[..n]) == MatchingIds(lb.records[..n], lb.activeId)
  {
    if n > 0 {
      EmittedMatches(lb, n - 1);
      assert Rows(lb)[..n][..n - 1] == Rows(lb)[..n - 1];
      assert lb.records[..n] == lb.records[..n - 1] + [lb.records[n - 1]];
      MatchingIdsSnoc(lb.records[..n - 1], lb.records[n - 1], lb.activeId);
    }
  }

  /** The list emits exactly the Ids of the rows whose Id is the active id, in row order. */
  lemma SelectItemEmitsActiveRows(lb: Listbox)
    ensures SelectItem(lb) == MatchingIds(lb.records, lb.activeId)
  {
    EmittedMatches(lb, |lb.records|);
    assert Rows(lb)[..|lb.records|] == Rows(lb);
    assert lb.records[..|lb.records|] == lb.records;
  }

  lemma {:induction false} MatchingIdsAreActive(rs: seq<Record>, activeId: Option<string>)
    ensures forall x :: x in MatchingIds(rs, activeId) ==> Some(x) == activeId && x in Ids(rs)
  {
    if rs != [] {
      MatchingIdsAreActive(rs[1..], activeId);
      assert Ids(rs) == [Id(rs[0])] + Ids(rs[1..]);
    }
  }

  /** Every emitted Id is the active id and the Id of one of the records. */
  lemma SelectItemEmitsRecordIds(lb: Listbox)
    ensures forall x :: x in SelectItem(lb) ==> Some(x) == lb.activeId && x in Ids(lb.records)
  {
    SelectItemEmitsActiveRows(lb);
    MatchingIdsAreActive(lb.records, lb.activeId);
  }

  /** What the first `n` rows emit are Ids of the list's records. */
  lemma EmittedPrefixIds(lb: Listbox, n: nat)
    requires n <= |lb.records|
    ensures forall x :: x in Emitted(Rows(lb)[..n]) ==> x in Ids(lb.records)
  {
    EmittedMatches(lb, n);
    MatchingIdsAreActive(lb.records[..n], lb.activeId);
    forall x | x in Ids(lb.records[..n]) ensures x in Ids(lb.records) {
      var k :| 0 <= k < n && Ids(lb.records[..n])[k] == x;
      assert Ids(lb.records)[k] == x;
    }
  }

  lemma {:induction false} MatchingIdsNone(rs: seq<Record>, activeId: Option<string>)
    requires forall i :: 0 <= i < |rs| ==> Some(Id(rs[i])) != activeId
    ensures MatchingIds(rs, activeId) == []
  {
    if rs != [] {
      MatchingIdsNone(rs[1..], activeId);
    }
  }

  /** When the active id is no row's Id (empty, undefined, or no rows), nothing is emitted. */
  lemma SelectItemNoMatch(lb: Listbox)
    requires forall i :: 0 <= i < |lb.records| ==> Some(Id(lb.records[i])) != lb.activeId
    ensures SelectItem(lb) == []
  {
    SelectItemEmitsActiveRows(lb);
    MatchingIdsNone(lb.records, lb.activeId);
  }

  predicate UniqueIds(rs: seq<Record>)
  {
    forall i, j :: 0 <= i < j < |rs| ==> Id(rs[i]) != Id(rs[j])
  }

  /** With unique row Ids, at most one row emits. */
  lemma SelectItemAtMostOne(lb: Listbox)
    requires UniqueIds(lb.records)
    ensures |SelectItem(lb)| <= 1
  {
    SelectItemEmitsActiveRows(lb);
    MatchingIdsAtMostOne(lb.records, lb.activeId);
  }

  lemma {:induction false} MatchingIdsAtMostOne(rs: seq<Record>, activeId: Option<string>)
    requires UniqueIds(rs)
    ensures |MatchingIds(rs, activeId)| <= 1
  {
    if rs != [] {
      if Some(Id(rs[0])) == activeId {
        MatchingIdsNone(rs[1..], activeId);
      } else {
        MatchingIdsAtMostOne(rs[1..], activeId);
      }
    }
  }

  /** When the active id is the Id of the row at `i` and Ids are unique, exactly that Id is emitted. */
  lemma SelectItemActiveRow(lb: Listbox, i: nat)
    requires UniqueIds(lb.records)
    requires i < |lb.records| && lb.activeId == Some(Id(lb.records[i]))
    ensures SelectItem(lb) == [Id(lb.records[i])]
  {
    SelectItemEmitsActiveRows(lb);
    MatchingIdsOne(lb.records, i, lb.activeId);
  }

  lemma {:induction false} MatchingIdsOne(rs: seq<Record>, i: nat, activeId: Option<string>)
    requires UniqueIds(rs)
    requires i < |rs| && activeId == Some(Id(rs[i]))
    ensures MatchingIds(rs, activeId) == [Id(rs[i])]
  {
    if i == 0 {
      MatchingIdsNone(rs[1..], activeId);
    } else {
      MatchingIdsOne(rs[1..], i - 1, activeId);
    }
  }
}
