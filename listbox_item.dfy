/** One option row of the list: shows a record's title and subtitle, marks itself
    active when the list's active id is its record's Id, and emits a `selected`
    event carrying that Id when clicked or asked to select itself. */
module ListboxItem {
  import opened Strings
  import opened Records

  /** The row's inputs: its record, the configured field names and the active id. */
  datatype Row = Row(record: Record, title: string, subtitle: string, activeId: Option<string>)

  /** `label`: the record's title field (undefined when the record has none). */
  function Label(row: Row): (l: Option<string>)
    ensures l.Some? <==> row.title in row.record
    ensures l.Some? ==> l.value == row.record[row.title]
  {
    Field(row.record, row.title)
  }

  /** `subLabel`: the record's subtitle field (undefined when the record has none). */
  function SubLabel(row: Row): (l: Option<string>)
    ensures l.Some? <==> row.subtitle in row.record
    ensures l.Some? ==> l.value == row.record[row.subtitle]
  {
    Field(row.record, row.subtitle)
  }

  predicate IsActive(row: Row)
  {
    row.activeId == Some(Id(row.record))
  }

  const BaseItemClasses: seq<string> :=
    ["slds-media", "slds-listbox__option", "slds-listbox__option_entity", "slds-listbox__option_has-meta"]
  const FocusClass := "slds-has-focus"

  /** The classes pushed by `itemClasses`: the four base classes in order, then the
      focus class when and only when the row is active. */
  function ItemClassList(row: Row): (cs: seq<string>)
    ensures |cs| == (if row.activeId == Some(Id(row.record)) then 5 else 4) && cs[..4] == BaseItemClasses
    ensures FocusClass in cs <==> row.activeId == Some(Id(row.record))
  {
    BaseItemClasses + (if IsActive(row) then [FocusClass] else [])
  }

  /** `itemClasses`, the class attribute. */
  function ItemClasses(row: Row): string
  {
    Join(ItemClassList(row))
  }

  /** Read back as class names, the attribute starts with the base classes and holds the
      focus class exactly when the row is active. */
  lemma ItemClassesFocus(row: Row)
    ensures Split(ItemClasses(row)) == ItemClassList(row)
    ensures Split(ItemClasses(row))[..4] == BaseItemClasses
    ensures FocusClass in Split(ItemClasses(row)) <==> IsActive(row)
  {
    SplitJoin(ItemClassList(row));
  }

  /** `clickRecord`: the non-bubbling `selected` event with the record's Id. */
  function ClickRecord(row: Row): (e: SelectedEvent)
    ensures e.detail == row.record["Id"] && !e.bubbles
  {
    SelectedEvent(Id(row.record), false)
  }

  /** `selectItem(currentId)`: the event the row emits, if any. It emits exactly when the
      active id or the given id is the row's Id, and then it emits that Id. */
  function SelectItem(row: Row, currentId: Option<string>): (e: Option<SelectedEvent>)
    ensures e.Some? <==> row.activeId == Some(row.record["Id"]) || currentId == Some(row.record["Id"])
    ensures e.Some? ==> e.value.detail == row.record["Id"] && !e.value.bubbles
  {
    if IsActive(row) || currentId == Some(Id(row.record)) then Some(ClickRecord(row)) else None
  }
}
