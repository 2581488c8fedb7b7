/**
  The ordered admin tables `checklist_items` and `itinerary_items`: the columns
  they share, the table operations the admin pages issue (insert with the next
  sort order, update or delete by id, the two-row sort-order exchange of
  `moveItem`) and the order in which `loadItems` reads the rows back.
 */
module Tables {
  import opened Wrappers

  /** One row: the shared columns, and the table's own columns in `fields`. */
  datatype Row<D> = Row(id: string, sortOrder: int, createdAt: string, fields: D)

  predicate DistinctIds<D>(t: seq<Row<D>>) {
    forall i, j :: 0 <= i < j < |t| ==> t[i].id != t[j].id
  }

  predicate HasId<D>(t: seq<Row<D>>, id: string) {
    exists i :: 0 <= i < |t| && t[i].id == id
  }

  function SortOrders<D>(t: seq<Row<D>>): (r: seq<int>)
    ensures |r| == |t| && forall k :: 0 <= k < |t| ==> r[k] == t[k].sortOrder
  {
    seq(|t|, k requires 0 <= k < |t| => t[k].sortOrder)
  }

  // ---------------------------------------------------------------------------
  // The sort order of an appended row

  /** `Math.max(...items.map(i => i.sort_order))`, and -1 for no items. */
  /** The largest sort order among `t[i..]`. */
  function MaxFrom<D>(t: seq<Row<D>>, i: nat): (m: int)
    requires i < |t|
    ensures forall k :: i <= k < |t| ==> t[k].sortOrder <= m
    ensures exists k :: i <= k < |t| && m == t[k].sortOrder
    decreases |t| - i
  {
    if i == |t| - 1 then t[i].sortOrder
    else
      var m := MaxFrom(t, i + 1);
      if t[i].sortOrder >= m then t[i].sortOrder else m
  }

  function MaxSortOrder<D>(t: seq<Row<D>>): (m: int)
    ensures t == [] ==> m == -1
    ensures forall i :: 0 <= i < |t| ==> t[i].sortOrder <= m
    ensures t != [] ==> exists i :: 0 <= i < |t| && m == t[i].sortOrder
  {
    if t == [] then -1 else MaxFrom(t, 0)
  }

  /** `maxOrder + 1`: the sort order given to an appended row. */
  function NextSortOrder<D>(t: seq<Row<D>>): (r: int)
  {
    MaxSortOrder(t) + 1
  }

  /**
    The appended row goes after every row: its sort order is 0 on an empty
    table, and otherwise one more than some row's and more than every row's.
   */
  lemma NextSortOrderAfterAll<D>(t: seq<Row<D>>)
    ensures t == [] ==> NextSortOrder(t) == 0
    ensures forall i :: 0 <= i < |t| ==> t[i].sortOrder < NextSortOrder(t)
    ensures t != [] ==> exists i :: 0 <= i < |t| && NextSortOrder(t) == t[i].sortOrder + 1
  {
    if t != [] {
      var i :| 0 <= i < |t| && MaxSortOrder(t) == t[i].sortOrder;
      assert NextSortOrder(t) == t[i].sortOrder + 1;
    }
  }

  /** The maximum depends only on which rows there are, not on their order. */
  lemma MaxSortOrderPermutation<D>(a: seq<Row<D>>, b: seq<Row<D>>)
    requires multiset(a) == multiset(b)
    ensures MaxSortOrder(a) == MaxSortOrder(b)
  {
    if a != [] {
      assert b != [] by { assert a[0] in multiset(b); }
      var i :| 0 <= i < |a| && MaxSortOrder(a) == a[i].sortOrder;
      var j :| 0 <= j < |b| && MaxSortOrder(b) == b[j].sortOrder;
      assert a[i] in multiset(b);
      assert b[j] in multiset(a);
    } else {
      assert |b| == |multiset(b)|;
    }
  }

  // ---------------------------------------------------------------------------
  // Updates and deletes by id (`.update(...).eq("id", id)`, `.delete().eq("id", id)`)

  /** Every row whose id is `id` gets the columns `fields`; the others are kept. */
  function WithFields<D>(t: seq<Row<D>>, id: string, fields: D): (r: seq<Row<D>>)
    ensures |r| == |t|
    ensures forall k :: 0 <= k < |t| ==>
      r[k] == if t[k].id == id then t[k].(fields := fields) else t[k]
  {
    seq(|t|, k requires 0 <= k < |t| => if t[k].id == id then t[k].(fields := fields) else t[k])
  }

  /** Every row whose id is `id` gets sort order `order`; the others are kept. */
  function WithSortOrder<D>(t: seq<Row<D>>, id: string, order: int): (r: seq<Row<D>>)
    ensures |r| == |t|
    ensures forall k :: 0 <= k < |t| ==>
      r[k] == if t[k].id == id then t[k].(sortOrder := order) else t[k]
  {
    seq(|t|, k requires 0 <= k < |t| => if t[k].id == id then t[k].(sortOrder := order) else t[k])
  }

  /** The rows whose id is not `id`, in table order. */
  function DeleteById<D>(t: seq<Row<D>>, id: string): (r: seq<Row<D>>)
    ensures forall k :: 0 <= k < |r| ==> r[k].id != id
  {
    if t == [] then []
    else if t[0].id == id then DeleteById(t[1..], id)
    else [t[0]] + DeleteById(t[1..], id)
  }

  /** Deleting an id the table does not hold changes nothing. */
  lemma {:induction false} DeleteAbsent<D>(t: seq<Row<D>>, id: string)
    requires !HasId(t, id)
    ensures DeleteById(t, id) == t
  {
    if t != [] {
      assert !HasId(t[1..], id) by {
        forall i | 0 <= i < |t| - 1 ensures t[1..][i].id != id { assert t[1..][i] == t[i + 1]; }
      }
      DeleteAbsent(t[1..], id);
    }
  }

  /** Deleting the id of row `k` removes exactly that row when ids are distinct. */
  lemma {:induction false} DeleteRemovesOnlyRow<D>(t: seq<Row<D>>, k: nat)
    requires DistinctIds(t) && k < |t|
    ensures DeleteById(t, t[k].id) == t[..k] + t[k + 1..]
    ensures DistinctIds(DeleteById(t, t[k].id))
  {
    DeleteRowEquation(t, k);
    RemovedRowKeepsDistinct(t, k);
  }

  lemma {:induction false} DeleteRowEquation<D>(t: seq<Row<D>>, k: nat)
    requires DistinctIds(t) && k < |t|
    ensures DeleteById(t, t[k].id) == t[..k] + t[k + 1..]
  {
    var id := t[k].id;
    var rest := t[1..];
    assert DistinctIds(rest) by {
      forall i, j | 0 <= i < j < |rest| ensures rest[i].id != rest[j].id {
        assert rest[i] == t[i + 1] && rest[j] == t[j + 1];
      }
    }
    if k == 0 {
      assert !HasId(rest, id) by {
        forall i | 0 <= i < |rest| ensures rest[i].id != id { assert rest[i] == t[i + 1]; }
      }
      DeleteAbsent(rest, id);
    } else {
      assert rest[k - 1] == t[k];
      DeleteRowEquation(rest, k - 1);
      assert t[0].id != id;
      assert DeleteById(t, id) == [t[0]] + (rest[..k - 1] + rest[k..]);
      assert rest[..k - 1] == t[1..k] && rest[k..] == t[k + 1..];
      assert [t[0]] + t[1..k] == t[..k];
    }
  }

  /** Removing one row keeps the other ids distinct. */
  lemma RemovedRowKeepsDistinct<D>(t: seq<Row<D>>, k: nat)
    requires DistinctIds(t) && k < |t|
    ensures DistinctIds(t[..k] + t[k + 1..])
  {
    var r := t[..k] + t[k + 1..];
    forall i, j | 0 <= i < j < |r| ensures r[i].id != r[j].id {
      var i' := if i < k then i else i + 1;
      var j' := if j < k then j else j + 1;
      assert r[i] == t[i'] && r[j] == t[j'];
    }
  }

  // ---------------------------------------------------------------------------
  // `moveItem`: exchange the sort orders of two rows

  /**
    The two updates of `moveItem`: row `a` takes `b`'s sort order and row `b`
    takes `a`'s (issued together; with distinct ids their order does not matter).
   */
  function SwapSortOrders<D>(t: seq<Row<D>>, a: Row<D>, b: Row<D>): (r: seq<Row<D>>)
  {
    WithSortOrder(WithSortOrder(t, a.id, b.sortOrder), b.id, a.sortOrder)
  }

  /**
    With distinct ids, exchanging the sort orders of rows `i` and `j` changes those
    two rows' sort orders and nothing else, keeps the ids distinct, and keeps the
    multiset of sort orders.
   */
  lemma SwapSortOrdersExchanges<D>(t: seq<Row<D>>, i: nat, j: nat)
    requires DistinctIds(t) && i < |t| && j < |t| && i != j
    ensures var r := SwapSortOrders(t, t[i], t[j]);
      && r == t[i := t[i].(sortOrder := t[j].sortOrder)][j := t[j].(sortOrder := t[i].sortOrder)]
      && DistinctIds(r)
      && multiset(SortOrders(r)) == multiset(SortOrders(t))
  {
    var r := SwapSortOrders(t, t[i], t[j]);
    var e := t[i := t[i].(sortOrder := t[j].sortOrder)][j := t[j].(sortOrder := t[i].sortOrder)];
    assert r == e;
    var o := SortOrders(t);
    assert SortOrders(e) == o[i := o[j]][j := o[i]];
  }

  // ---------------------------------------------------------------------------
  // The order in which `loadItems` reads rows back

  /** The ORDER BY key: the sort order, then (itinerary only) the start time. */
  datatype SortKey = SortKey(order: int, time: Option<string>)

  /** Text comparison, character by character. */
  predicate StrLe(a: string, b: string) {
    a == [] || (b != [] && (a[0] < b[0] || (a[0] == b[0] && StrLe(a[1..], b[1..]))))
  }

  /** Ascending order on a nullable column: NULL sorts after every value. */
  predicate TimeLe(a: Option<string>, b: Option<string>) {
    b.None? || (a.Some? && StrLe(a.value, b.value))
  }

  predicate KeyLe(a: SortKey, b: SortKey) {
    a.order < b.order || (a.order == b.order && TimeLe(a.time, b.time))
  }

  lemma {:induction false} StrLeTotal(a: string, b: string)
    ensures StrLe(a, b) || StrLe(b, a)
  {
    if a != [] && b != [] && a[0] == b[0] { StrLeTotal(a[1..], b[1..]); }
  }

  lemma {:induction false} StrLeTransitive(a: string, b: string, c: string)
    requires StrLe(a, b) && StrLe(b, c)
    ensures StrLe(a, c)
  {
    if a != [] && a[0] == b[0] && b[0] == c[0] { StrLeTransitive(a[1..], b[1..], c[1..]); }
  }

  lemma KeyLeTotal(a: SortKey, b: SortKey)
    ensures KeyLe(a, b) || KeyLe(b, a)
  {
    if a.time.Some? && b.time.Some? { StrLeTotal(a.time.value, b.time.value); }
  }

  lemma KeyLeTransitive(a: SortKey, b: SortKey, c: SortKey)
    requires KeyLe(a, b) && KeyLe(b, c)
    ensures KeyLe(a, c)
  {
    if a.order == b.order == c.order && a.time.Some? && b.time.Some? && c.time.Some? {
      StrLeTransitive(a.time.value, b.time.value, c.time.value);
    }
  }

  predicate SortedBy<D>(s: seq<Row<D>>, key: Row<D> -> SortKey) {
    forall i, j :: 0 <= i < j < |s| ==> KeyLe(key(s[i]), key(s[j]))
  }

  /** The first position from `i` on whose row `x` sorts before or ties with, or `|s|`. */
  function InsertPos<D>(x: Row<D>, s: seq<Row<D>>, key: Row<D> -> SortKey, i: nat): (p: nat)
    requires i <= |s|
    ensures i <= p <= |s|
    ensures forall k :: i <= k < p ==> !KeyLe(key(x), key(s[k]))
    ensures p < |s| ==> KeyLe(key(x), key(s[p]))
    decreases |s| - i
  {
    if i == |s| || KeyLe(key(x), key(s[i])) then i else InsertPos(x, s, key, i + 1)
  }

  /** Places `x` before the first row it does not sort after. */
  function Insert<D>(x: Row<D>, s: seq<Row<D>>, key: Row<D> -> SortKey): (r: seq<Row<D>>)
    ensures |r| == |s| + 1
  {
    var p := InsertPos(x, s, key, 0);
    s[..p] + [x] + s[p..]
  }

  lemma InsertPermutation<D>(x: Row<D>, s: seq<Row<D>>, key: Row<D> -> SortKey)
    ensures multiset(Insert(x, s, key)) == multiset(s) + multiset{x}
  {
    var p := InsertPos(x, s, key, 0);
    assert s == s[..p] + s[p..];
  }

  lemma InsertSorted<D>(x: Row<D>, s: seq<Row<D>>, key: Row<D> -> SortKey)
    requires SortedBy(s, key)
    ensures SortedBy(Insert(x, s, key), key)
  {
    var p := InsertPos(x, s, key, 0);
    var r := Insert(x, s, key);
    forall k | 0 <= k < p ensures KeyLe(key(s[k]), key(x)) {
      KeyLeTotal(key(x), key(s[k]));
    }
    forall k | p <= k < |s| ensures KeyLe(key(x), key(s[k])) {
      if k > p {
        KeyLeTransitive(key(x), key(s[p]), key(s[k]));
      }
    }
    forall i, j | 0 <= i < j < |r| ensures KeyLe(key(r[i]), key(r[j])) {
      var i' := if i < p then i else i - 1;
      var j' := if j <= p then j else j - 1;
      if i == p {
        assert r[i] == x && r[j] == s[j'];
      } else if j == p {
        assert r[i] == s[i'] && r[j] == x;
      } else {
        assert r[i] == s[i'] && r[j] == s[j'];
      }
    }
  }

  /** Insertion sort of `t[i..]` by `key`; rows with equal keys keep their table order. */
  function SortFrom<D>(t: seq<Row<D>>, key: Row<D> -> SortKey, i: nat): (r: seq<Row<D>>)
    requires i <= |t|
    ensures |r| == |t| - i
    decreases |t| - i
  {
    if i == |t| then [] else Insert(t[i], SortFrom(t, key, i + 1), key)
  }

  /** What the database returns for an ordered select: the rows sorted by `key`. */
  function SortRows<D>(t: seq<Row<D>>, key: Row<D> -> SortKey): (r: seq<Row<D>>)
    ensures |r| == |t|
  {
    SortFrom(t, key, 0)
  }

  lemma SuffixMultiset<T>(t: seq<T>, i: nat)
    requires i < |t|
    ensures multiset(t[i..]) == multiset(t[i + 1..]) + multiset{t[i]}
  {
    assert t[i..] == [t[i]] + t[i + 1..];
  }

  lemma {:induction false} SortFromPermutation<D>(t: seq<Row<D>>, key: Row<D> -> SortKey, i: nat)
    requires i <= |t|
    ensures multiset(SortFrom(t, key, i)) == multiset(t[i..])
    decreases |t| - i
  {
    if i < |t| {
      var rest := SortFrom(t, key, i + 1);
      SortFromPermutation(t, key, i + 1);
      InsertPermutation(t[i], rest, key);
      SuffixMultiset(t, i);
    }
  }

  lemma {:induction false} SortFromSorted<D>(t: seq<Row<D>>, key: Row<D> -> SortKey, i: nat)
    requires i <= |t|
    ensures SortedBy(SortFrom(t, key, i), key)
    decreases |t| - i
  {
    if i < |t| {
      SortFromSorted(t, key, i + 1);
      InsertSorted(t[i], SortFrom(t, key, i + 1), key);
    }
  }

  /** The rows read back are exactly the table's rows. */
  lemma SortRowsPermutation<D>(t: seq<Row<D>>, key: Row<D> -> SortKey)
    ensures multiset(SortRows(t, key)) == multiset(t)
  {
    SortFromPermutation(t, key, 0);
    assert t[0..] == t;
  }

  /** The rows read back are sorted by the key. */
  lemma SortRowsSorted<D>(t: seq<Row<D>>, key: Row<D> -> SortKey)
    ensures SortedBy(SortRows(t, key), key)
  {
    SortFromSorted(t, key, 0);
  }

  /** With distinct ids, no row occurs twice. */
  lemma {:induction false} DistinctIdsOccurOnce<D>(a: seq<Row<D>>, x: Row<D>)
    requires DistinctIds(a)
    ensures multiset(a)[x] <= 1
  {
    if a != [] {
      assert a == [a[0]] + a[1..];
      DistinctIdsOccurOnce(a[1..], x);
      if a[0] == x {
        assert x !in a[1..] by {
          forall k | 0 <= k < |a| - 1 ensures a[1..][k] != x { assert a[1..][k] == a[k + 1]; }
        }
      }
    }
  }

  lemma OccursTwice<T>(b: seq<T>, i: nat, j: nat)
    requires i < j < |b| && b[i] == b[j]
    ensures multiset(b)[b[i]] >= 2
  {
    assert b == b[..i] + [b[i]] + b[i + 1..j] + [b[j]] + b[j + 1..];
  }

  /** A permutation of rows with distinct ids has distinct ids. */
  lemma DistinctIdsPermutation<D>(a: seq<Row<D>>, b: seq<Row<D>>)
    requires multiset(a) == multiset(b) && DistinctIds(a)
    ensures DistinctIds(b)
  {
    forall i, j | 0 <= i < j < |b| ensures b[i].id != b[j].id {
      assert b[i] in multiset(a) && b[j] in multiset(a);
      var i' :| 0 <= i' < |a| && a[i'] == b[i];
      var j' :| 0 <= j' < |a| && a[j'] == b[j];
      if b[i] == b[j] {
        OccursTwice(b, i, j);
        DistinctIdsOccurOnce(a, b[i]);
      } else {
        assert i' != j';
      }
    }
  }

  // ---------------------------------------------------------------------------
  // The page-level facts `deleteItem` and `moveItem` rely on

  /** Deleting by id keeps the ids distinct, whether or not the id is present. */
  lemma DeleteKeepsDistinct<D>(t: seq<Row<D>>, id: string)
    requires DistinctIds(t)
    ensures DistinctIds(DeleteById(t, id))
    ensures !HasId(t, id) ==> DeleteById(t, id) == t
    ensures forall k :: 0 <= k < |t| && t[k].id == id ==> DeleteById(t, id) == t[..k] + t[k + 1..]
  {
    if HasId(t, id) {
      var k :| 0 <= k < |t| && t[k].id == id;
      DeleteRemovesOnlyRow(t, k);
    } else {
      DeleteAbsent(t, id);
    }
    forall k | 0 <= k < |t| && t[k].id == id ensures DeleteById(t, id) == t[..k] + t[k + 1..] {
      DeleteRemovesOnlyRow(t, k);
    }
  }

  /**
    `after` is `before` with rows `a` and `b` (told apart by id) holding each
    other's sort order, every other column and row as before.
   */
  predicate ExchangedSortOrders<D(==)>(before: seq<Row<D>>, after: seq<Row<D>>, a: Row<D>, b: Row<D>) {
    && |after| == |before|
    && forall k :: 0 <= k < |before| ==>
         after[k] == if before[k].id == a.id then before[k].(sortOrder := b.sortOrder)
                     else if before[k].id == b.id then before[k].(sortOrder := a.sortOrder)
                     else before[k]
  }

  /**
    `moveItem` on a loaded view `items` of the table (any permutation of its
    rows): the rows at `index` and `swapIndex` are two different rows of the
    table, and exchanging their sort orders keeps the ids distinct and the
    multiset of sort orders.
   */
  lemma MoveExchangesTwoRows<D>(table: seq<Row<D>>, items: seq<Row<D>>, index: nat, swapIndex: nat)
    requires DistinctIds(table) && multiset(items) == multiset(table)
    requires index < |items| && swapIndex < |items| && index != swapIndex
    ensures items[index].id != items[swapIndex].id
    ensures var r := SwapSortOrders(table, items[index], items[swapIndex]);
      && ExchangedSortOrders(table, r, items[index], items[swapIndex])
      && DistinctIds(r)
      && multiset(SortOrders(r)) == multiset(SortOrders(table))
  {
    DistinctIdsPermutation(table, items);
    assert items[index] in multiset(table) && items[swapIndex] in multiset(table);
    var i :| 0 <= i < |table| && table[i] == items[index];
    var j :| 0 <= j < |table| && table[j] == items[swapIndex];
    SwapSortOrdersExchanges(table, i, j);
  }

  /** Appending a row with a fresh id keeps the ids distinct. */
  lemma AppendFreshKeepsDistinct<D>(t: seq<Row<D>>, row: Row<D>)
    requires DistinctIds(t) && !HasId(t, row.id)
    ensures DistinctIds(t + [row])
  {
    forall i, j | 0 <= i < j < |t + [row]| ensures (t + [row])[i].id != (t + [row])[j].id {
      if j == |t| {
        assert (t + [row])[i] == t[i];
      }
    }
  }

  /** Replacing the fields of a row keeps every id, so distinct ids stay distinct. */
  lemma WithFieldsKeepsDistinct<D>(t: seq<Row<D>>, id: string, fields: D)
    requires DistinctIds(t)
    ensures DistinctIds(WithFields(t, id, fields))
  {
    var r := WithFields(t, id, fields);
    assert forall k :: 0 <= k < |t| ==> r[k].id == t[k].id;
  }

  // ---------------------------------------------------------------------------
  // The up and down buttons

  datatype Direction = Up | Down

  /** The row at `index` changes places with the one above (`Up`) or below (`Down`). */
  function SwapIndex(index: nat, direction: Direction): int {
    if direction == Up then index - 1 else index + 1
  }

  /** The buttons at the ends of the list do nothing. */
  predicate AtEnd(index: nat, direction: Direction, count: nat) {
    (direction == Up && index == 0) || (direction == Down && index == count - 1)
  }
}
