/**
  The attendee's checklist on the dashboard: a map from item id to "done",
  seeded from the attendee's progress rows, the count and percentage shown
  in the progress bar, and the optimistic toggle that writes to
  `checklist_progress` and reverts the map when the write throws.
 */
module DashboardChecklist {
  import opened Wrappers
  import opened Records

  /** An item counts as done only when the map holds `true` for it; an absent key is falsy. */
  predicate IsCompleted(m: map<string, bool>, itemId: string) {
    itemId in m && m[itemId]
  }

  /** The item ids of the progress rows marked completed. */
  function CompletedItemIds(progress: seq<ChecklistProgress>): set<string> {
    set k | 0 <= k < |progress| && progress[k].completed :: progress[k].itemId
  }

  /** The keys whose value is `true`. */
  function DoneSet(m: map<string, bool>): set<string> {
    set k | k in m && m[k]
  }

  /** `completedCount`: the entries whose value is `true`. */
  function CompletedCount(m: map<string, bool>): (r: nat)
    ensures r <= |m|
  {
    SubsetCardinality(DoneSet(m), m.Keys);
    |DoneSet(m)|
  }

  lemma SubsetCardinality(a: set<string>, b: set<string>)
    requires a <= b
    ensures |a| <= |b|
  {
    assert b == a + (b - a);
  }

  /**
    `percentage`: 0 without items, else `100 * count / total` rounded to the
    nearest integer, halves upwards, as `Math.round` does.
   */
  function Percentage(count: nat, total: nat): (r: nat) {
    if total == 0 then 0 else (200 * count + total) / (2 * total)
  }

  /** The percentage is the nearest integer to `100 * count / total`, halves rounded up. */
  lemma PercentageRounds(count: nat, total: nat)
    requires total > 0
    ensures var p := Percentage(count, total);
      2 * total * p <= 200 * count + total < 2 * total * (p + 1)
  {
    var p := Percentage(count, total);
    var q := 200 * count + total;
    assert q == 2 * total * p + q % (2 * total);
  }

  /** With no more done items than items the percentage lies in 0..100: 0 with none done, 100 with all done. */
  lemma PercentageBounds(count: nat, total: nat)
    requires count <= total
    ensures Percentage(count, total) <= 100
    ensures count == 0 ==> Percentage(count, total) == 0
    ensures 0 < count == total ==> Percentage(count, total) == 100
  {
    if total > 0 {
      PercentageRounds(count, total);
      var p := Percentage(count, total);
      assert 2 * total * p <= 201 * total;
      if p > 100 {
        MulMonotone(2 * total, 101, p);
      }
      if count == total && p < 100 {
        MulMonotone(2 * total, p + 1, 100);
      }
    }
  }

  lemma MulMonotone(a: nat, b: nat, c: nat)
    requires b <= c
    ensures a * b <= a * c
  {
  }

  /** The ids of the listed items. */
  function ItemIds(items: seq<ChecklistItem>): set<string> {
    set k | 0 <= k < |items| :: items[k].id
  }

  lemma {:induction false} ItemIdsBound(items: seq<ChecklistItem>)
    ensures |ItemIds(items)| <= |items|
  {
    if items != [] {
      var init := items[..|items| - 1];
      ItemIdsBound(init);
      assert ItemIds(items) == ItemIds(init) + {items[|items| - 1].id} by {
        forall x | x in ItemIds(items) ensures x in ItemIds(init) + {items[|items| - 1].id} {
          var k :| 0 <= k < |items| && items[k].id == x;
          if k < |items| - 1 { assert init[k] == items[k]; }
        }
        forall x | x in ItemIds(init) ensures x in ItemIds(items) {
          var k :| 0 <= k < |init| && init[k].id == x;
          assert items[k] == init[k];
        }
      }
    }
  }

  /**
    When every done key is one of the listed items, the bar shows a
    percentage in 0..100; a done key for an unlisted item would count too.
   */
  lemma PercentageWithinItems(m: map<string, bool>, items: seq<ChecklistItem>)
    requires DoneSet(m) <= ItemIds(items)
    ensures CompletedCount(m) <= |items|
    ensures Percentage(CompletedCount(m), |items|) <= 100
  {
    SubsetCardinality(DoneSet(m), ItemIds(items));
    ItemIdsBound(items);
    PercentageBounds(CompletedCount(m), |items|);
  }

  /**
    The seeded map: `true` exactly for the item ids of completed progress rows,
    and no other key.
   */
  method InitialCompletedMap(progress: seq<ChecklistProgress>) returns (m: map<string, bool>)
    ensures m.Keys == CompletedItemIds(progress)
    ensures forall k | k in m :: m[k]
  {
    m := map[];
    var i := 0;
    while i < |progress|
      invariant 0 <= i <= |progress|
      invariant m.Keys == CompletedItemIds(progress[..i])
      invariant forall k | k in m :: m[k]
    {
      var p := progress[i];
      if p.completed {
        m := m[p.itemId := true];
      }
      CompletedItemIdsStep(progress, i);
      i := i + 1;
    }
    assert progress[..i] == progress;
  }

  lemma CompletedItemIdsStep(progress: seq<ChecklistProgress>, i: nat)
    requires i < |progress|
    ensures CompletedItemIds(progress[..i + 1]) ==
      CompletedItemIds(progress[..i]) + (if progress[i].completed then {progress[i].itemId} else {})
  {
    var a := progress[..i];
    var b := progress[..i + 1];
    assert forall k :: 0 <= k < i ==> b[k] == a[k];
    assert b[i] == progress[i];
    forall x | x in CompletedItemIds(b)
      ensures x in CompletedItemIds(a) + (if progress[i].completed then {progress[i].itemId} else {})
    {
      var k :| 0 <= k < |b| && b[k].completed && b[k].itemId == x;
      if k < i {
        assert x in CompletedItemIds(a);
      }
    }
    forall x | x in CompletedItemIds(a) ensures x in CompletedItemIds(b) {
      var k :| 0 <= k < |a| && a[k].completed && a[k].itemId == x;
      assert b[k] == a[k];
    }
  }

  /** The seeded map counts exactly the distinct completed items. */
  lemma InitialCount(m: map<string, bool>, progress: seq<ChecklistProgress>)
    requires m.Keys == CompletedItemIds(progress)
    requires forall k | k in m :: m[k]
    ensures CompletedCount(m) == |CompletedItemIds(progress)|
  {
    assert DoneSet(m) == m.Keys;
  }

  /** The optimistic update: the item's entry becomes the negation of its truthiness. */
  function Toggled(m: map<string, bool>, itemId: string): map<string, bool> {
    m[itemId := !IsCompleted(m, itemId)]
  }

  /** A toggle flips the item and leaves every other item as it was. */
  lemma ToggledFlips(m: map<string, bool>, itemId: string)
    ensures IsCompleted(Toggled(m, itemId), itemId) == !IsCompleted(m, itemId)
    ensures forall k :: k != itemId ==> IsCompleted(Toggled(m, itemId), k) == IsCompleted(m, k)
  {
  }

  /** Toggling twice gives back every item's state. */
  lemma ToggleTwice(m: map<string, bool>, itemId: string)
    ensures forall k :: IsCompleted(Toggled(Toggled(m, itemId), itemId), k) == IsCompleted(m, k)
  {
    ToggledFlips(m, itemId);
    ToggledFlips(Toggled(m, itemId), itemId);
  }

  /** A toggle removes a done item from the done keys, or adds one that was not done. */
  lemma ToggledDoneSet(m: map<string, bool>, itemId: string)
    ensures DoneSet(Toggled(m, itemId)) ==
      if IsCompleted(m, itemId) then DoneSet(m) - {itemId} else DoneSet(m) + {itemId}
  {
    var t := Toggled(m, itemId);
    forall k ensures k in DoneSet(t) <==> k in (if IsCompleted(m, itemId) then DoneSet(m) - {itemId} else DoneSet(m) + {itemId}) {
      if k != itemId {
        assert k in t <==> k in m;
        assert k in t ==> t[k] == m[k];
      }
    }
  }

  /** A toggle moves the count by exactly one, down for a done item and up otherwise. */
  lemma ToggleCount(m: map<string, bool>, itemId: string)
    ensures IsCompleted(m, itemId) ==> CompletedCount(Toggled(m, itemId)) == CompletedCount(m) - 1
    ensures !IsCompleted(m, itemId) ==> CompletedCount(Toggled(m, itemId)) == CompletedCount(m) + 1
  {
    ToggledDoneSet(m, itemId);
    if IsCompleted(m, itemId) {
      assert DoneSet(m) == (DoneSet(m) - {itemId}) + {itemId};
    }
  }

  /** The write `toggleItem` issues to `checklist_progress`. */
  datatype ProgressWrite =
    | DeleteProgress(userId: string, itemId: string)
    | UpsertProgress(userId: string, itemId: string, completed: bool, completedAt: string)

  /** The write for an item that was done (`wasCompleted`) or not. */
  function WriteFor(userId: string, itemId: string, wasCompleted: bool, completedAt: string): (w: ProgressWrite)
    ensures wasCompleted <==> w.DeleteProgress?
    ensures w.userId == userId && w.itemId == itemId
    ensures w.UpsertProgress? ==> w.completed
  {
    if wasCompleted then DeleteProgress(userId, itemId) else UpsertProgress(userId, itemId, true, completedAt)
  }

  class Checklist {
    const items: seq<ChecklistItem>
    const userId: string
    var completedMap: map<string, bool>
    /** The item whose toggle is in flight. */
    var loading: Option<string>
    /** The writes sent to `checklist_progress`, oldest first. */
    var writes: seq<ProgressWrite>

    /** The component as first rendered for `userId` with its `items` and `progress` rows. */
    constructor (items: seq<ChecklistItem>, progress: seq<ChecklistProgress>, userId: string)
      ensures this.items == items && this.userId == userId
      ensures completedMap.Keys == CompletedItemIds(progress)
      ensures forall k | k in completedMap :: completedMap[k]
      ensures loading == None && writes == []
    {
      this.items := items;
      this.userId := userId;
      var m := InitialCompletedMap(progress);
      completedMap := m;
      loading := None;
      writes := [];
    }

    function Count(): nat
      reads this
    {
      CompletedCount(completedMap)
    }

    function ShownPercentage(): nat
      reads this
    {
      Percentage(Count(), |items|)
    }

    /**
      `toggleItem(itemId)`: the write for the item's old state is issued; when
      it throws (`throws`), the entry is restored, which for an item that had
      no entry means the key is absent again. `loading` ends cleared.
      `completedAt` is the time of the call.
     */
    method ToggleItem(itemId: string, completedAt: string, throws: bool)
      modifies this
      ensures writes == old(writes) + [WriteFor(userId, itemId, IsCompleted(old(completedMap), itemId), completedAt)]
      ensures !throws ==> completedMap == Toggled(old(completedMap), itemId)
      ensures throws ==> completedMap == old(completedMap)
      ensures loading == None
    {
      var was: Option<bool> := if itemId in completedMap then Some(completedMap[itemId]) else None;
      var wasCompleted := was == Some(true);
      loading := Some(itemId);
      completedMap := completedMap[itemId := !wasCompleted];
      writes := writes + [WriteFor(userId, itemId, wasCompleted, completedAt)];
      if throws {
        completedMap := if was.Some? then completedMap[itemId := was.value] else completedMap - {itemId};
      }
      loading := None;
    }
  }
}
