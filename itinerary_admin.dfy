/**
  The admin itinerary page: the `itinerary_items` table, the page's loaded
  copy of it, one form shared by adding and editing, and the delete and
  reorder actions.
 */
module ItineraryAdmin {
  import opened Wrappers
  import opened Strings
  import opened Tables
  import opened Records

  /** The form's five text inputs. */
  datatype Form = Form(title: string, description: string, date: string, startTime: string, endTime: string)

  const EMPTY_FORM := Form("", "", "", "", "")

  /** `.order("sort_order").order("start_time")`: a null start time sorts last. */
  function ItineraryKey(item: ItineraryItem): SortKey {
    SortKey(item.sortOrder, item.fields.startTime)
  }

  /** What `loadItems` reads: the table's rows, reordered. */
  function LoadOrder(table: seq<ItineraryItem>): seq<ItineraryItem> {
    SortRows(table, ItineraryKey)
  }

  /** `loadItems` reads back exactly the table's rows. */
  lemma LoadOrderPermutation(table: seq<ItineraryItem>)
    ensures multiset(LoadOrder(table)) == multiset(table)
  {
    SortRowsPermutation(table, ItineraryKey);
  }

  /** `loadItems` lists the rows by sort order, ties by start time with null last. */
  lemma LoadOrderSorted(table: seq<ItineraryItem>)
    ensures var r := LoadOrder(table);
      forall i, j :: 0 <= i < j < |r| ==> KeyLe(ItineraryKey(r[i]), ItineraryKey(r[j]))
  {
    SortRowsSorted(table, ItineraryKey);
  }

  /**
    Start times are free text ordered as text, not as times of day: with
    equal sort orders, "10:00 AM" is listed before "9:00 AM".
   */
  lemma StartTimeOrderIsTextual(order: int)
    ensures KeyLe(SortKey(order, Some("10:00 AM")), SortKey(order, Some("9:00 AM")))
    ensures !KeyLe(SortKey(order, Some("9:00 AM")), SortKey(order, Some("10:00 AM")))
  {
    assert "10:00 AM"[0] == '1' && "9:00 AM"[0] == '9';
  }

  /**
    The columns a submit writes: title and description trimmed, an empty
    description, date or time stored as null (date and times are not trimmed).
   */
  function FieldsFromForm(f: Form): (r: ItineraryFields)
    ensures r.title == Trim(f.title)
    ensures r.description == TrimToNull(f.description)
    ensures r.date == NullIfEmpty(f.date) && r.startTime == NullIfEmpty(f.startTime)
    ensures r.endTime == NullIfEmpty(f.endTime)
  {
    ItineraryFields(Trim(f.title), TrimToNull(f.description),
                    NullIfEmpty(f.date), NullIfEmpty(f.startTime), NullIfEmpty(f.endTime))
  }

  /** What `startEdit` puts in the form: a null column shows as an empty input. */
  function FormOf(item: ItineraryItem): Form {
    Form(item.fields.title, EmptyIfNull(item.fields.description), EmptyIfNull(item.fields.date),
         EmptyIfNull(item.fields.startTime), EmptyIfNull(item.fields.endTime))
  }

  /** The shape of every row this page writes. */
  predicate StoredShape(f: ItineraryFields) {
    && IsTrimmed(f.title) && f.title != ""
    && (f.description.Some? ==> IsTrimmed(f.description.value) && f.description.value != "")
    && NoEmptyString(f.date) && NoEmptyString(f.startTime) && NoEmptyString(f.endTime)
  }

  /** A submit with a non-blank title writes a row of the stored shape. */
  lemma SubmittedShape(f: Form)
    requires !AllWhitespace(f.title)
    ensures StoredShape(FieldsFromForm(f))
  {
  }

  /** Opening a row in the form and submitting it unchanged keeps its date and times. */
  lemma EditKeepsDateAndTimes(item: ItineraryItem)
    requires NoEmptyString(item.fields.date) && NoEmptyString(item.fields.startTime)
    requires NoEmptyString(item.fields.endTime)
    ensures var r := FieldsFromForm(FormOf(item));
      r.date == item.fields.date && r.startTime == item.fields.startTime && r.endTime == item.fields.endTime
  {
    NullIfEmptyOfEmptyIfNull(item.fields.date);
    NullIfEmptyOfEmptyIfNull(item.fields.startTime);
    NullIfEmptyOfEmptyIfNull(item.fields.endTime);
  }

  /** Opening a row this page wrote and submitting it unchanged writes the same columns. */
  lemma EditRoundTrip(item: ItineraryItem)
    requires StoredShape(item.fields)
    ensures FieldsFromForm(FormOf(item)) == item.fields
  {
    TrimOfTrimmed(item.fields.title);
    if item.fields.description.Some? {
      TrimOfTrimmed(item.fields.description.value);
    }
    EditKeepsDateAndTimes(item);
  }

  /** Submitting a form, opening the result and submitting it again writes the same columns. */
  lemma ResubmitIsStable(f: Form, id: string, sortOrder: int, createdAt: string)
    requires !AllWhitespace(f.title)
    ensures var row := Row(id, sortOrder, createdAt, FieldsFromForm(f));
      FieldsFromForm(FormOf(row)) == row.fields
  {
    SubmittedShape(f);
    EditRoundTrip(Row(id, sortOrder, createdAt, FieldsFromForm(f)));
  }

  class ItineraryPage {
    /** The `itinerary_items` table. */
    var table: seq<ItineraryItem>
    /** The page's `items`, as last loaded. */
    var items: seq<ItineraryItem>
    var showForm: bool
    var editingId: Option<string>
    var form: Form

    ghost predicate Valid()
      reads this
    {
      DistinctIds(table) && items == LoadOrder(table)
    }

    /** The page once mounted: form closed and empty, the table loaded. */
    constructor (rows: seq<ItineraryItem>)
      requires DistinctIds(rows)
      ensures Valid() && table == rows
      ensures !showForm && editingId == None && form == EMPTY_FORM
    {
      table := rows;
      items := LoadOrder(rows);
      showForm := false;
      editingId := None;
      form := EMPTY_FORM;
    }

    /** The Add Item button. */
    method OpenForm()
      modifies this
      ensures showForm
      ensures table == old(table) && items == old(items)
      ensures editingId == old(editingId) && form == old(form)
    {
      showForm := true;
    }

    /** `resetForm`, also the Cancel button. */
    method ResetForm()
      modifies this
      ensures form == EMPTY_FORM && !showForm && editingId == None
      ensures table == old(table) && items == old(items)
    {
      form := EMPTY_FORM;
      showForm := false;
      editingId := None;
    }

    /**
      `handleSubmit`: nothing happens on a blank title; otherwise the row being
      edited gets the form's columns (its sort order kept), or a new row goes
      after all others, then the form is reset. The database picks `newId`
      and `createdAt` for an inserted row.
     */
    method HandleSubmit(newId: string, createdAt: string)
      requires Valid() && (!Truthy(editingId) ==> !HasId(table, newId))
      modifies this
      ensures Valid()
      ensures AllWhitespace(old(form.title)) ==>
        && table == old(table) && items == old(items)
        && form == old(form) && showForm == old(showForm) && editingId == old(editingId)
      ensures !AllWhitespace(old(form.title)) && Truthy(old(editingId)) ==>
        table == WithFields(old(table), old(editingId).value, FieldsFromForm(old(form)))
      ensures !AllWhitespace(old(form.title)) && !Truthy(old(editingId)) ==>
        table == old(table) + [Row(newId, NextSortOrder(old(table)), createdAt, FieldsFromForm(old(form)))]
      ensures !AllWhitespace(old(form.title)) ==> form == EMPTY_FORM && !showForm && editingId == None
    {
      if Trim(form.title) == "" {
        return;
      }
      WriteForm(newId, createdAt);
      ResetForm();
    }

    /** The update or insert of `handleSubmit`, followed by the reload. */
    method WriteForm(newId: string, createdAt: string)
      requires Valid() && (!Truthy(editingId) ==> !HasId(table, newId))
      modifies this
      ensures Valid()
      ensures Truthy(old(editingId)) ==>
        table == WithFields(old(table), old(editingId).value, FieldsFromForm(old(form)))
      ensures !Truthy(old(editingId)) ==>
        table == old(table) + [Row(newId, NextSortOrder(old(table)), createdAt, FieldsFromForm(old(form)))]
      ensures form == old(form) && editingId == old(editingId) && showForm == old(showForm)
    {
      if Truthy(editingId) {
        UpdateRow(editingId.value, FieldsFromForm(form));
      } else {
        var order := NextSortOrder(items);
        assert order == NextSortOrder(table) by {
          LoadOrderPermutation(table);
          MaxSortOrderPermutation(items, table);
        }
        var row := Row(newId, order, createdAt, FieldsFromForm(form));
        InsertRow(row);
      }
    }

    /** The update of `handleSubmit` followed by the reload. */
    method UpdateRow(id: string, fields: ItineraryFields)
      requires Valid()
      modifies this
      ensures Valid() && table == WithFields(old(table), id, fields)
      ensures showForm == old(showForm) && editingId == old(editingId) && form == old(form)
    {
      WithFieldsKeepsDistinct(table, id, fields);
      table := WithFields(table, id, fields);
      items := LoadOrder(table);
    }

    /** The insert of `handleSubmit` followed by the reload. */
    method InsertRow(row: ItineraryItem)
      requires Valid() && !HasId(table, row.id)
      modifies this
      ensures Valid() && table == old(table) + [row]
      ensures showForm == old(showForm) && editingId == old(editingId) && form == old(form)
    {
      AppendFreshKeepsDistinct(table, row);
      table := table + [row];
      items := LoadOrder(table);
    }

    /** `startEdit(item)`. */
    method StartEdit(item: ItineraryItem)
      modifies this
      ensures editingId == Some(item.id) && form == FormOf(item) && showForm
      ensures table == old(table) && items == old(items)
    {
      editingId := Some(item.id);
      form := FormOf(item);
      showForm := true;
    }

    /** `deleteItem(id)`. */
    method DeleteItem(id: string)
      requires Valid()
      modifies this
      ensures Valid()
      ensures table == DeleteById(old(table), id)
      ensures !HasId(old(table), id) ==> table == old(table)
      ensures forall k :: 0 <= k < |old(table)| && old(table)[k].id == id ==>
        table == old(table)[..k] + old(table)[k + 1..]
      ensures showForm == old(showForm) && editingId == old(editingId) && form == old(form)
    {
      DeleteKeepsDistinct(table, id);
      table := DeleteById(table, id);
      items := LoadOrder(table);
    }

    /**
      `moveItem(index, direction)`: at either end nothing happens; otherwise the
      row shown at `index` and its neighbour exchange sort orders.
     */
    method MoveItem(index: nat, direction: Direction)
      requires Valid() && index < |items|
      modifies this
      ensures Valid()
      ensures AtEnd(index, direction, |old(items)|) ==> table == old(table) && items == old(items)
      ensures !AtEnd(index, direction, |old(items)|) ==>
        var current := old(items)[index];
        var neighbour := old(items)[SwapIndex(index, direction)];
        && current.id != neighbour.id
        && ExchangedSortOrders(old(table), table, current, neighbour)
        && multiset(SortOrders(table)) == multiset(SortOrders(old(table)))
      ensures showForm == old(showForm) && editingId == old(editingId) && form == old(form)
    {
      if (direction == Up && index == 0) || (direction == Down && index == |items| - 1) {
        return;
      }
      var swapIndex := if direction == Up then index - 1 else index + 1;
      var current := items[index];
      var neighbour := items[swapIndex];
      LoadOrderPermutation(table);
      MoveExchangesTwoRows(table, items, index, swapIndex);
      table := SwapSortOrders(table, current, neighbour);
      items := LoadOrder(table);
    }
  }
}
