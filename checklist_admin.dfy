/**
  The admin checklist page: the `checklist_items` table, the page's loaded
  copy of it, and its add, delete, edit and reorder actions. Each action
  changes the table and then reloads the page's copy.
 */
module ChecklistAdmin {
  import opened Wrappers
  import opened Strings
  import opened Tables
  import opened Records

  /** `.order("sort_order")`. */
  function ChecklistKey(item: ChecklistItem): SortKey {
    SortKey(item.sortOrder, None)
  }

  /** What `loadItems` reads: the table's rows, reordered. */
  function LoadOrder(table: seq<ChecklistItem>): seq<ChecklistItem> {
    SortRows(table, ChecklistKey)
  }

  /** `loadItems` reads back exactly the table's rows. */
  lemma LoadOrderPermutation(table: seq<ChecklistItem>)
    ensures multiset(LoadOrder(table)) == multiset(table)
  {
    SortRowsPermutation(table, ChecklistKey);
  }

  /** `loadItems` lists the rows by ascending sort order. */
  lemma LoadOrderSorted(table: seq<ChecklistItem>)
    ensures var r := LoadOrder(table);
      forall i, j :: 0 <= i < j < |r| ==> r[i].sortOrder <= r[j].sortOrder
  {
    var r := LoadOrder(table);
    SortRowsSorted(table, ChecklistKey);
    assert forall i, j :: 0 <= i < j < |r| ==> KeyLe(ChecklistKey(r[i]), ChecklistKey(r[j]));
  }

  /** The columns an add or an edit writes: the title trimmed, the description trimmed or null. */
  function FieldsFrom(title: string, description: string): (f: ChecklistFields)
    ensures f.title == Trim(title) && IsTrimmed(f.title)
    ensures f.description == TrimToNull(description)
  {
    ChecklistFields(Trim(title), TrimToNull(description))
  }

  class ChecklistPage {
    /** The `checklist_items` table. */
    var table: seq<ChecklistItem>
    /** The page's `items`, as last loaded. */
    var items: seq<ChecklistItem>
    var newTitle: string
    var newDescription: string
    var editingId: Option<string>
    var editTitle: string
    var editDescription: string

    ghost predicate Valid()
      reads this
    {
      DistinctIds(table) && items == LoadOrder(table)
    }

    /** The page once mounted: empty inputs and the table loaded. */
    constructor (rows: seq<ChecklistItem>)
      requires DistinctIds(rows)
      ensures Valid() && table == rows
      ensures newTitle == "" && newDescription == "" && editingId == None
      ensures editTitle == "" && editDescription == ""
    {
      table := rows;
      items := LoadOrder(rows);
      newTitle, newDescription := "", "";
      editingId := None;
      editTitle, editDescription := "", "";
    }

    /** `addItem`; the database picks `newId` and `createdAt` for the inserted row. */
    method AddItem(newId: string, createdAt: string)
      requires Valid() && !HasId(table, newId)
      modifies this
      ensures Valid()
      ensures AllWhitespace(old(newTitle)) ==>
        table == old(table) && items == old(items)
        && newTitle == old(newTitle) && newDescription == old(newDescription)
      ensures !AllWhitespace(old(newTitle)) ==>
        && table == old(table) + [Row(newId, NextSortOrder(old(table)), createdAt,
                                      FieldsFrom(old(newTitle), old(newDescription)))]
        && newTitle == "" && newDescription == ""
      ensures editingId == old(editingId) && editTitle == old(editTitle)
      ensures editDescription == old(editDescription)
    {
      var title, description := newTitle, newDescription;
      if Trim(title) == "" {
        return;
      }
      var order := NextSortOrder(items);
      assert order == NextSortOrder(table) by {
        LoadOrderPermutation(table);
        MaxSortOrderPermutation(items, table);
      }
      newTitle, newDescription := "", "";
      InsertRow(Row(newId, order, createdAt, FieldsFrom(title, description)));
    }

    /** The insert of `addItem` followed by the reload. */
    method InsertRow(row: ChecklistItem)
      requires Valid() && !HasId(table, row.id)
      modifies this
      ensures Valid() && table == old(table) + [row]
      ensures newTitle == old(newTitle) && newDescription == old(newDescription)
      ensures editingId == old(editingId) && editTitle == old(editTitle)
      ensures editDescription == old(editDescription)
    {
      AppendFreshKeepsDistinct(table, row);
      table := table + [row];
      items := LoadOrder(table);
    }

    /** `deleteItem(id)`. */
    method DeleteItem(id: string)
      requires Valid()
      modifies this
      ensures Valid()
      ensures table == DeleteById(old(table), id)
      ensures !HasId(old(table), id) ==> table == old(table)
      ensures forall k :: 0 <= k < |old(table)| && old(table)[k].id == id ==>
        table == old(table)[..k] + old(table)[k + 1..]
      ensures newTitle == old(newTitle) && newDescription == old(newDescription)
      ensures editingId == old(editingId) && editTitle == old(editTitle)
      ensures editDescription == old(editDescription)
    {
      DeleteKeepsDistinct(table, id);
      table := DeleteById(table, id);
      items := LoadOrder(table);
    }

    /** `startEdit(item)`. */
    method StartEdit(item: ChecklistItem)
      modifies this
      ensures editingId == Some(item.id) && editTitle == item.fields.title
      ensures editDescription == EmptyIfNull(item.fields.description)
      ensures table == old(table) && items == old(items)
      ensures newTitle == old(newTitle) && newDescription == old(newDescription)
    {
      editingId := Some(item.id);
      editTitle := item.fields.title;
      editDescription := EmptyIfNull(item.fields.description);
    }

    /** The edit form's Cancel button. */
    method CancelEdit()
      modifies this
      ensures editingId == None
      ensures table == old(table) && items == old(items)
      ensures editTitle == old(editTitle) && editDescription == old(editDescription)
      ensures newTitle == old(newTitle) && newDescription == old(newDescription)
    {
      editingId := None;
    }

    /** `saveEdit`: only the title and description of the row being edited change. */
    method SaveEdit()
      requires Valid()
      modifies this
      ensures Valid()
      ensures !Truthy(old(editingId)) || AllWhitespace(old(editTitle)) ==>
        table == old(table) && items == old(items) && editingId == old(editingId)
      ensures Truthy(old(editingId)) && !AllWhitespace(old(editTitle)) ==>
        && table == WithFields(old(table), old(editingId).value, FieldsFrom(old(editTitle), old(editDescription)))
        && editingId == None
      ensures editTitle == old(editTitle) && editDescription == old(editDescription)
      ensures newTitle == old(newTitle) && newDescription == old(newDescription)
    {
      if !Truthy(editingId) || Trim(editTitle) == "" {
        return;
      }
      UpdateRow(editingId.value, FieldsFrom(editTitle, editDescription));
      editingId := None;
    }

    /** The update of `saveEdit` followed by the reload. */
    method UpdateRow(id: string, fields: ChecklistFields)
      requires Valid()
      modifies this
      ensures Valid() && table == WithFields(old(table), id, fields)
      ensures newTitle == old(newTitle) && newDescription == old(newDescription)
      ensures editingId == old(editingId) && editTitle == old(editTitle)
      ensures editDescription == old(editDescription)
    {
      WithFieldsKeepsDistinct(table, id, fields);
      table := WithFields(table, id, fields);
      items := LoadOrder(table);
    }

    /**
      `moveItem(index, direction)`: at either end nothing happens; otherwise the
      row shown at `index` and its neighbour exchange sort orders.
     */
    method MoveItem(index: nat, direction: Direction)
      requires Valid() && index < |items|
      modifies this
      ensures Valid()
      ensures AtEnd(index, direction, |old(items)|) ==> table == old(table) && items == old(items)
      ensures !AtEnd(index, direction, |old(items)|) ==>
        var current := old(items)[index];
        var neighbour := old(items)[SwapIndex(index, direction)];
        && current.id != neighbour.id
        && ExchangedSortOrders(old(table), table, current, neighbour)
        && multiset(SortOrders(table)) == multiset(SortOrders(old(table)))
      ensures newTitle == old(newTitle) && newDescription == old(newDescription)
      ensures editingId == old(editingId) && editTitle == old(editTitle)
      ensures editDescription == old(editDescription)
    {
      if (direction == Up && index == 0) || (direction == Down && index == |items| - 1) {
        return;
      }
      var swapIndex := if direction == Up then index - 1 else index + 1;
      var current := items[index];
      var neighbour := items[swapIndex];
      LoadOrderPermutation(table);
      MoveExchangesTwoRows(table, items, index, swapIndex);
      table := SwapSortOrders(table, current, neighbour);
      items := LoadOrder(table);
    }
  }
}
