/** A vector that announces its changes (src/common/SignalVector.hpp). */
module SignalVectors {
  import opened Sequences
  import opened Wrappers

  /** What is announced: the item, where it is or was, and who asked for the change. */
  datatype ItemEvent<T> = ItemEvent(item: T, index: nat, caller: object?)

  /** An order as `std::lower_bound` needs it. */
  ghost predicate StrictWeakOrder<T(!new)>(less: (T, T) -> bool) {
    (forall a, b :: less(a, b) ==> !less(b, a))
    && (forall a, b, c :: less(a, c) ==> less(a, b) || less(b, c))
  }

  ghost predicate SortedBy<T>(less: (T, T) -> bool, s: seq<T>) {
    forall i, j :: 0 <= i < j < |s| ==> !less(s[j], s[i])
  }

  /** The first place from `i` on with an item that is not less than `x`. */
  function LowerBound<T>(less: (T, T) -> bool, s: seq<T>, x: T, i: nat): (r: nat)
    requires i <= |s|
    ensures i <= r <= |s|
    ensures forall j :: i <= j < r ==> less(s[j], x)
    ensures r < |s| ==> !less(s[r], x)
    decreases |s| - i
  {
    if i == |s| || !less(s[i], x) then i else LowerBound(less, s, x, i + 1)
  }

  /** In a sorted list, everything from the lower bound on is not less than `x`. */
  lemma {:induction false} LowerBoundSplits<T(!new)>(less: (T, T) -> bool, s: seq<T>, x: T)
    requires StrictWeakOrder(less) && SortedBy(less, s)
    ensures forall j :: LowerBound(less, s, x, 0) <= j < |s| ==> !less(s[j], x)
  {
    var r := LowerBound(less, s, x, 0);
    forall j | r < j < |s| ensures !less(s[j], x) {
      assert !less(s[j], s[r]) && !less(s[r], x);
    }
  }

  /** Inserting at the lower bound keeps a list sorted. */
  lemma {:induction false} InsertKeepsSorted<T(!new)>(less: (T, T) -> bool, s: seq<T>, x: T)
    requires StrictWeakOrder(less) && SortedBy(less, s)
    ensures SortedBy(less, InsertAt(s, LowerBound(less, s, x, 0), x))
  {
    LowerBoundSplits(less, s, x);
  }

  /** Where `insert` puts an item: its place in the order, else the given index, else the end. */
  function InsertIndex<T>(compare: Option<(T, T) -> bool>, items: seq<T>, item: T, index: Option<nat>): (i: nat)
    requires compare == None && index.Some? ==> index.value <= |items|
    ensures i <= |items|
  {
    if compare.Some? then LowerBound(compare.value, items, item, 0)
    else if index.Some? then index.value else |items|
  }

  class SignalVector<T(!new)> {
    const compare: Option<(T, T) -> bool>
    var items: seq<T>
    var readOnly: seq<T>

    /** The copy for other threads is up to date, and a sorted vector is sorted. */
    ghost predicate Valid()
      reads this
    {
      readOnly == items
      && (compare.Some? ==> StrictWeakOrder(compare.value) && SortedBy(compare.value, items))
    }

    constructor (compare: Option<(T, T) -> bool>)
      requires compare.Some? ==> StrictWeakOrder(compare.value)
      ensures Valid() && items == [] && this.compare == compare
    {
      this.compare := compare;
      items, readOnly := [], [];
    }

    /** `std::lower_bound` on the items. */
    method FindLowerBound(item: T) returns (index: nat)
      requires Valid() && compare.Some?
      ensures index == LowerBound(compare.value, items, item, 0)
    {
      var less := compare.value;
      var lo, hi := 0, |items|;
      LowerBoundSplits(less, items, item);
      while lo < hi
        invariant lo <= LowerBound(less, items, item, 0) <= hi <= |items|
      {
        var mid := (lo + hi) / 2;
        if less(items[mid], item) {
          lo := mid + 1;
        } else {
          hi := mid;
        }
      }
      index := lo;
    }

    /** The index is ignored by a sorted vector; without one, an unsorted vector appends. */
    method Insert(item: T, index: Option<nat>, caller: object?) returns (event: ItemEvent<T>)
      requires Valid() && (compare == None && index.Some? ==> index.value <= |items|)
      modifies this
      ensures Valid() && event == ItemEvent(item, InsertIndex(compare, old(items), item, index), caller)
      ensures items == InsertAt(old(items), event.index, item)
      ensures compare == None ==> event.index == if index.Some? then index.value else |old(items)|
      ensures event.index <= |old(items)|
      ensures compare.Some? ==> forall j :: 0 <= j < event.index ==> compare.value(old(items)[j], item)
      ensures compare.Some? ==> forall j :: event.index <= j < |old(items)| ==> !compare.value(old(items)[j], item)
    {
      var at := |items|;
      if compare.Some? {
        at := FindLowerBound(item);
        InsertKeepsSorted(compare.value, items, item);
        LowerBoundSplits(compare.value, items, item);
      } else if index.Some? {
        at := index.value;
      }
      items := InsertAt(items, at, item);
      readOnly := items;
      event := ItemEvent(item, at, caller);
    }

    method RemoveAt(index: nat, caller: object?) returns (event: ItemEvent<T>)
      requires Valid() && index < |items|
      modifies this
      ensures Valid() && event == ItemEvent(old(items)[index], index, caller)
      ensures items == Sequences.RemoveAt(old(items), index)
    {
      event := ItemEvent(items[index], index, caller);
      items := Sequences.RemoveAt(items, index);
      readOnly := items;
    }

    /** Removes the first item that matches, if there is one. */
    method RemoveFirstMatching(matcher: T -> bool, caller: object?) returns (event: Option<ItemEvent<T>>)
      requires Valid()
      modifies this
      ensures Valid()
      ensures event == None ==> items == old(items) && forall x :: x in items ==> !matcher(x)
      ensures event.Some? ==> var i := event.value.index;
        i < |old(items)| && matcher(old(items)[i]) && (forall j :: 0 <= j < i ==> !matcher(old(items)[j]))
        && event.value == ItemEvent(old(items)[i], i, caller) && items == Sequences.RemoveAt(old(items), i)
    {
      for index := 0 to |items|
        invariant Valid() && items == old(items)
        invariant forall j :: 0 <= j < index ==> !matcher(items[j])
      {
        if matcher(items[index]) {
          var removed := RemoveAt(index, caller);
          return Some(removed);
        }
      }
      return None;
    }
  }
}

/**
 * A table over such a vector (src/common/SignalVectorModel.hpp).  It shows a row for every item of the
 * vector and, anywhere between them, custom rows that the vector knows nothing about.
 */
module SignalVectorModels {
  import opened Sequences
  import opened SignalVectors
  import opened Wrappers

  /** A row; `original` is the item the row was made from. */
  datatype Row<T, V> = Row(cells: seq<V>, original: Option<T>, isCustomRow: bool)

  /** `getRowFromItem` and `getItemFromRow` of a table with `columns` columns. */
  datatype Codec<!T, !V> = Codec(columns: nat, encode: T -> seq<V>, decode: (seq<V>, T) -> T)

  /** A row made from an item and not edited since reads back as that item. */
  ghost predicate Lawful<T(!new), V>(codec: Codec<T, V>) {
    forall x :: |codec.encode(x)| == codec.columns && codec.decode(codec.encode(x), x) == x
  }

  // ----- Rows and items -----------------------------------------------------------------------------

  predicate WellFormed<T, V>(codec: Codec<T, V>, row: Row<T, V>) {
    |row.cells| == codec.columns && (!row.isCustomRow ==> row.original.Some?)
  }

  predicate AllWellFormed<T, V>(codec: Codec<T, V>, rows: seq<Row<T, V>>) {
    forall i :: 0 <= i < |rows| ==> WellFormed(codec, rows[i])
  }

  function ItemOf<T, V>(codec: Codec<T, V>, row: Row<T, V>): T
    requires WellFormed(codec, row) && !row.isCustomRow
  {
    codec.decode(row.cells, row.original.value)
  }

  /** The items that the first `p` rows stand for. */
  function Shown<T, V>(codec: Codec<T, V>, rows: seq<Row<T, V>>, p: nat): (items: seq<T>)
    requires p <= |rows| && AllWellFormed(codec, rows)
    ensures |items| == Count(rows, p)
  {
    if p == 0 then [] else
      Shown(codec, rows, p - 1) + if rows[p - 1].isCustomRow then [] else [ItemOf(codec, rows[p - 1])]
  }

  /** How many of the first `p` rows stand for items. */
  function Count<T, V>(rows: seq<Row<T, V>>, p: nat): (n: nat)
    requires p <= |rows|
    ensures n <= p
  {
    if p == 0 then 0 else Count(rows, p - 1) + if rows[p - 1].isCustomRow then 0 else 1
  }

  /** The rows that are not custom rows read, in order, as exactly the items of the vector. */
  ghost predicate InSync<T, V>(codec: Codec<T, V>, items: seq<T>, rows: seq<Row<T, V>>) {
    AllWellFormed(codec, rows) && Shown(codec, rows, |rows|) == items
  }

  /** The item a row stands for; the end of the vector for custom rows and beyond the last row. */
  function VectorIndex<T, V>(rows: seq<Row<T, V>>, m: nat): nat {
    if m < |rows| && !rows[m].isCustomRow then Count(rows, m) else Count(rows, |rows|)
  }

  /** The first row from `p` on that stands for item `v`, or the end. */
  function RowFrom<T, V>(rows: seq<Row<T, V>>, v: nat, p: nat): (m: nat)
    requires p <= |rows|
    ensures p <= m <= |rows|
    ensures m < |rows| ==> !rows[m].isCustomRow && Count(rows, m) == v
    decreases |rows| - p
  {
    if p == |rows| || (!rows[p].isCustomRow && Count(rows, p) == v) then p else RowFrom(rows, v, p + 1)
  }

  /** It is the first one. */
  lemma {:induction false} RowFromIsFirst<T, V>(rows: seq<Row<T, V>>, v: nat, p: nat, q: nat)
    requires p <= q < |rows| && !rows[q].isCustomRow && Count(rows, q) == v
    ensures RowFrom(rows, v, p) <= q
    decreases |rows| - p
  {
    if p < q {
      RowFromIsFirst(rows, v, p + 1, q);
    }
  }

  function ModelIndex<T, V>(rows: seq<Row<T, V>>, v: nat): (m: nat)
    ensures m <= |rows|
  {
    RowFrom(rows, v, 0)
  }

  lemma {:induction false} CountMonotone<T, V>(rows: seq<Row<T, V>>, p: nat, q: nat)
    requires p <= q <= |rows|
    ensures Count(rows, p) <= Count(rows, q) <= Count(rows, p) + (q - p)
    decreases q
  {
    if p < q {
      CountMonotone(rows, p, q - 1);
    }
  }

  /** A row that stands for an item is counted once, and before any later row. */
  lemma {:induction false} CountPasses<T, V>(rows: seq<Row<T, V>>, p: nat, q: nat)
    requires p < q <= |rows| && !rows[p].isCustomRow
    ensures Count(rows, p) < Count(rows, q)
  {
    CountMonotone(rows, p + 1, q);
  }

  /** Item `v` has a row: the count passes every number below the total. */
  lemma {:induction false} RowOf<T, V>(rows: seq<Row<T, V>>, v: nat, p: nat) returns (m: nat)
    requires p <= |rows| && v < Count(rows, p)
    ensures m < p && !rows[m].isCustomRow && Count(rows, m) == v
  {
    if v == Count(rows, p - 1) {
      m := p - 1;
    } else {
      m := RowOf(rows, v, p - 1);
    }
  }

  /** In front of the row of item `v` there are exactly `v` rows that stand for items. */
  lemma {:induction false} ModelIndexCounts<T, V>(rows: seq<Row<T, V>>, v: nat)
    requires v <= Count(rows, |rows|)
    ensures Count(rows, ModelIndex(rows, v)) == v
    ensures ModelIndex(rows, v) < |rows| <==> v < Count(rows, |rows|)
  {
    var m := ModelIndex(rows, v);
    if v < Count(rows, |rows|) {
      var q := RowOf(rows, v, |rows|);
      RowFromIsFirst(rows, v, 0, q);
    } else if m < |rows| {
      CountPasses(rows, m, |rows|);
    }
  }

  /** From the vector to the table and back. */
  lemma {:induction false} VectorOfModelIndex<T, V>(rows: seq<Row<T, V>>, v: nat)
    requires v <= Count(rows, |rows|)
    ensures VectorIndex(rows, ModelIndex(rows, v)) == v
  {
    ModelIndexCounts(rows, v);
  }

  /** From the table to the vector and back, for exactly the rows that stand for items, and the end. */
  lemma {:induction false} ModelOfVectorIndex<T, V>(rows: seq<Row<T, V>>, m: nat)
    ensures ModelIndex(rows, VectorIndex(rows, m)) == m <==> m == |rows| || (m < |rows| && !rows[m].isCustomRow)
  {
    var v := VectorIndex(rows, m);
    var back := ModelIndex(rows, v);
    if m < |rows| && !rows[m].isCustomRow {
      RowFromIsFirst(rows, v, 0, m);
      if back < m {
        CountPasses(rows, back, m);
      }
    } else {
      ModelIndexCounts(rows, v);
    }
  }

  // ----- What an edit of the rows does to the items they show -----------------------------------------

  lemma {:induction false} ShownAt<T, V>(codec: Codec<T, V>, rows: seq<Row<T, V>>, m: nat, p: nat)
    requires AllWellFormed(codec, rows) && m < p <= |rows| && !rows[m].isCustomRow
    ensures Count(rows, m) < Count(rows, p)
    ensures Shown(codec, rows, p)[Count(rows, m)] == ItemOf(codec, rows[m])
  {
    CountPasses(rows, m, p);
    if m < p - 1 {
      ShownAt(codec, rows, m, p - 1);
      CountPasses(rows, m, p - 1);
    }
  }

  /** Lists that agree in their first `p` rows show the same there. */
  lemma {:induction false} ShownPrefix<T, V>(codec: Codec<T, V>, rows: seq<Row<T, V>>, rows': seq<Row<T, V>>, p: nat)
    requires AllWellFormed(codec, rows) && AllWellFormed(codec, rows')
    requires p <= |rows| && p <= |rows'| && forall i :: 0 <= i < p ==> rows[i] == rows'[i]
    ensures Shown(codec, rows, p) == Shown(codec, rows', p) && Count(rows, p) == Count(rows', p)
  {
    if p > 0 {
      ShownPrefix(codec, rows, rows', p - 1);
    }
  }

  /** What a new row at place `m` makes of the items shown so far. */
  function WithShown<T, V>(codec: Codec<T, V>, items: seq<T>, i: nat, row: Row<T, V>): seq<T>
    requires WellFormed(codec, row) && i <= |items|
  {
    if row.isCustomRow then items else InsertAt(items, i, ItemOf(codec, row))
  }

  /** One more row behind the new one. */
  lemma {:induction false} ShownInsertStep<T, V>(codec: Codec<T, V>, rows: seq<Row<T, V>>, rows': seq<Row<T, V>>,
      i: nat, row: Row<T, V>, p: nat)
    requires AllWellFormed(codec, rows) && AllWellFormed(codec, rows') && WellFormed(codec, row)
    requires 0 < p <= |rows| && p < |rows'| && rows'[p] == rows[p - 1] && i <= Count(rows, p - 1)
    requires Shown(codec, rows', p) == WithShown(codec, Shown(codec, rows, p - 1), i, row)
    ensures Shown(codec, rows', p + 1) == WithShown(codec, Shown(codec, rows, p), i, row)
  {
    if !row.isCustomRow {
      var more := if rows'[p].isCustomRow then [] else [ItemOf(codec, rows'[p])];
      assert Shown(codec, rows', p + 1) == Shown(codec, rows', p) + more;
      InsertAtConcat(Shown(codec, rows, p - 1), i, ItemOf(codec, row), more);
    }
  }

  /** A new row shows its item in front of what the rows behind it show; a custom row shows nothing. */
  lemma {:induction false} ShownInsert<T, V>(codec: Codec<T, V>, rows: seq<Row<T, V>>, m: nat, row: Row<T, V>, p: nat)
    requires m <= p <= |rows|
    requires AllWellFormed(codec, rows) && AllWellFormed(codec, InsertAt(rows, m, row)) && WellFormed(codec, row)
    ensures Count(rows, m) <= Count(rows, p)
    ensures Shown(codec, InsertAt(rows, m, row), p + 1)
         == WithShown(codec, Shown(codec, rows, p), Count(rows, m), row)
    decreases p
  {
    CountMonotone(rows, m, p);
    if p > m {
      ShownInsert(codec, rows, m, row, p - 1);
      ShownInsertStep(codec, rows, InsertAt(rows, m, row), Count(rows, m), row, p);
    } else {
      ShownPrefix(codec, rows, InsertAt(rows, m, row), m);
    }
  }

  /** One more row behind a changed one. */
  lemma {:induction false} ShownUpdateStep<T, V>(codec: Codec<T, V>, rows: seq<Row<T, V>>, rows': seq<Row<T, V>>,
                                                 i: nat, item: T, p: nat)
    requires AllWellFormed(codec, rows) && AllWellFormed(codec, rows')
    requires p < |rows| && p < |rows'| && rows'[p] == rows[p]
    requires i < Count(rows, p) && Shown(codec, rows', p) == Shown(codec, rows, p)[i := item]
    ensures i < Count(rows, p + 1) && Shown(codec, rows', p + 1) == Shown(codec, rows, p + 1)[i := item]
  {
    if !rows[p].isCustomRow {
      UpdateConcat(Shown(codec, rows, p), [ItemOf(codec, rows[p])], i, item);
    }
  }

  lemma {:induction false} ShownUpdateLast<T, V>(codec: Codec<T, V>, rows: seq<Row<T, V>>, m: nat, row: Row<T, V>)
    requires AllWellFormed(codec, rows) && WellFormed(codec, row) && m < |rows|
    requires !rows[m].isCustomRow && !row.isCustomRow
    ensures Shown(codec, rows[m := row], m + 1) == Shown(codec, rows, m + 1)[Count(rows, m) := ItemOf(codec, row)]
  {
    ShownPrefix(codec, rows, rows[m := row], m);
    UpdateLast(Shown(codec, rows, m), ItemOf(codec, rows[m]), ItemOf(codec, row));
  }

  /** Changing a row that stands for an item changes that item. */
  lemma {:induction false} ShownUpdate<T, V>(codec: Codec<T, V>, rows: seq<Row<T, V>>, m: nat, row: Row<T, V>, p: nat)
    requires AllWellFormed(codec, rows) && WellFormed(codec, row) && m < p <= |rows|
    requires !rows[m].isCustomRow && !row.isCustomRow
    ensures Count(rows, m) < Count(rows, p)
    ensures Shown(codec, rows[m := row], p) == Shown(codec, rows, p)[Count(rows, m) := ItemOf(codec, row)]
    decreases p
  {
    CountPasses(rows, m, p);
    if p == m + 1 {
      ShownUpdateLast(codec, rows, m, row);
    } else {
      ShownUpdate(codec, rows, m, row, p - 1);
      ShownUpdateStep(codec, rows, rows[m := row], Count(rows, m), ItemOf(codec, row), p - 1);
    }
  }

  lemma {:induction false} VectorIndexInRange<T, V>(rows: seq<Row<T, V>>, m: nat)
    ensures VectorIndex(rows, m) <= Count(rows, |rows|)
  {
    if m < |rows| {
      CountMonotone(rows, m, |rows|);
    }
  }

  /** Without a row for an item there is one row for an item less. */
  lemma {:induction false} CountRemove<T, V>(rows: seq<Row<T, V>>, m: nat, p: nat)
    requires m <= p < |rows| && !rows[m].isCustomRow
    ensures Count(RemoveAt(rows, m), p) + 1 == Count(rows, p + 1)
    decreases p
  {
    if p > m {
      CountRemove(rows, m, p - 1);
      assert RemoveAt(rows, m)[p - 1] == rows[p];
    } else {
      CountPrefix(RemoveAt(rows, m), rows, m);
    }
  }

  lemma {:induction false} CountPrefix<T, V>(rows: seq<Row<T, V>>, rows': seq<Row<T, V>>, p: nat)
    requires p <= |rows| && p <= |rows'| && forall i :: 0 <= i < p ==> rows[i] == rows'[i]
    ensures Count(rows, p) == Count(rows', p)
  {
    if p > 0 {
      CountPrefix(rows, rows', p - 1);
    }
  }

  /** The indices that a move uses are in range. */
  lemma {:induction false} MoveIndices<T, V>(rows: seq<Row<T, V>>, source: nat, destination: nat)
    requires source < |rows| && !rows[source].isCustomRow
    ensures VectorIndex(rows, source) < Count(rows, |rows|) && ModelIndex(rows, VectorIndex(rows, source)) == source
    ensures VectorIndex(RemoveAt(rows, source), destination) < Count(rows, |rows|)
  {
    CountPasses(rows, source, |rows|);
    ModelOfVectorIndex(rows, source);
    CountRemove(rows, source, |rows| - 1);
    VectorIndexInRange(RemoveAt(rows, source), destination);
  }

  lemma {:induction false} WellFormedRemove<T, V>(codec: Codec<T, V>, rows: seq<Row<T, V>>, m: nat)
    requires AllWellFormed(codec, rows) && m < |rows|
    ensures AllWellFormed(codec, RemoveAt(rows, m)) && InsertAt(RemoveAt(rows, m), m, rows[m]) == rows
    ensures Count(RemoveAt(rows, m), m) == Count(rows, m)
  {
    InsertUndoesRemove(rows, m, rows[m]);
    CountPrefix(RemoveAt(rows, m), rows, m);
  }

  /** Taking a row away is the inverse of putting it in. */
  lemma {:induction false} ShownRemove<T, V>(codec: Codec<T, V>, rows: seq<Row<T, V>>, m: nat)
    requires AllWellFormed(codec, rows) && m < |rows|
    ensures AllWellFormed(codec, RemoveAt(rows, m))
    ensures rows[m].isCustomRow ==> Shown(codec, RemoveAt(rows, m), |rows| - 1) == Shown(codec, rows, |rows|)
    ensures !rows[m].isCustomRow ==>
      Count(rows, m) < Count(rows, |rows|)
      && Shown(codec, RemoveAt(rows, m), |rows| - 1) == RemoveAt(Shown(codec, rows, |rows|), Count(rows, m))
  {
    var less := RemoveAt(rows, m);
    WellFormedRemove(codec, rows, m);
    ShownInsert(codec, less, m, rows[m], |less|);
    if !rows[m].isCustomRow {
      CountPasses(rows, m, |rows|);
      RemoveUndoesInsert(Shown(codec, less, |less|), Count(less, m), ItemOf(codec, rows[m]));
    }
  }

  /** Editing the cells of a row changes no index. */
  lemma {:induction false} SameIndices<T, V>(codec: Codec<T, V>, rows: seq<Row<T, V>>, m: nat, row: Row<T, V>)
    requires m < |rows| && rows[m].isCustomRow == row.isCustomRow
    ensures VectorIndex(rows[m := row], m) == VectorIndex(rows, m)
  {
    SameCounts(rows, rows[m := row], m);
    SameCounts(rows, rows[m := row], |rows|);
  }

  lemma {:induction false} SameCounts<T, V>(rows: seq<Row<T, V>>, rows': seq<Row<T, V>>, p: nat)
    requires |rows| == |rows'| && p <= |rows|
    requires forall i :: 0 <= i < p ==> rows[i].isCustomRow == rows'[i].isCustomRow
    ensures Count(rows, p) == Count(rows', p)
  {
    if p > 0 {
      SameCounts(rows, rows', p - 1);
    }
  }

  // ----- The table and the vector as one state machine --------------------------------------------------

  datatype View<T, V> = View(items: seq<T>, rows: seq<Row<T, V>>)

  datatype Op<!T, V> =
    | VectorInsert(item: T, place: Option<nat>)
    | VectorRemoveAt(index: nat)
    | RemoveFirstMatching(matcher: T -> bool)
    | SetData(row: int, column: int, value: V)
    | MoveRow(source: nat, destination: nat)
    | InsertCustomRow(cells: seq<V>, index: nat)
    | RemoveCustomRow(index: nat)

  /** What the program asserts before it acts. */
  predicate Enabled<T, V>(codec: Codec<T, V>, compare: Option<(T, T) -> bool>, view: View<T, V>, op: Op<T, V>) {
    match op
    case VectorInsert(_, index) => compare == None && index.Some? ==> index.value <= |view.items|
    case VectorRemoveAt(index) => index < |view.items|
    case MoveRow(source, _) => source < |view.rows| && !view.rows[source].isCustomRow
    case InsertCustomRow(cells, index) => |cells| == codec.columns && index <= |view.rows|
    case RemoveCustomRow(index) => index < |view.rows| && view.rows[index].isCustomRow
    case _ => true
  }

  predicate HasCell<T, V>(codec: Codec<T, V>, view: View<T, V>, row: int, column: int) {
    0 <= row < |view.rows| && 0 <= column < codec.columns
  }

  function RowFor<T, V>(codec: Codec<T, V>, item: T): Row<T, V> {
    Row(codec.encode(item), Some(item), false)
  }

  /** An item comes into the vector, and the table answers the announcement. */
  function AfterInsert<T, V>(codec: Codec<T, V>, view: View<T, V>, item: T, i: nat): View<T, V>
    requires i <= |view.items|
  {
    View(InsertAt(view.items, i, item), InsertAt(view.rows, ModelIndex(view.rows, i), RowFor(codec, item)))
  }

  /** An item leaves the vector, and the table answers the announcement. */
  function AfterRemove<T, V>(view: View<T, V>, i: nat): View<T, V>
    requires i < |view.items| && ModelIndex(view.rows, i) < |view.rows|
  {
    View(RemoveAt(view.items, i), RemoveAt(view.rows, ModelIndex(view.rows, i)))
  }

  /** The edited row, read as an item, replaces item `k`: it is removed and inserted again, unannounced to the table. */
  function AfterEdit<T, V>(codec: Codec<T, V>, compare: Option<(T, T) -> bool>, view: View<T, V>, k: nat,
                           row: nat, column: nat, value: V): View<T, V>
    requires AllWellFormed(codec, view.rows) && HasCell(codec, view, row, column) && k < |view.items|
    requires !view.rows[row].isCustomRow
  {
    var edited := view.rows[row].(cells := view.rows[row].cells[column := value]);
    var item, others := ItemOf(codec, edited), RemoveAt(view.items, k);
    View(InsertAt(others, InsertIndex(compare, others, item, Some(k)), item), view.rows[row := edited])
  }

  function FirstMatch<T>(matcher: T -> bool, items: seq<T>, i: nat): (r: nat)
    requires i <= |items|
    ensures i <= r <= |items| && (r < |items| ==> matcher(items[r]))
    ensures forall j :: i <= j < r ==> !matcher(items[j])
    decreases |items| - i
  {
    if i == |items| || matcher(items[i]) then i else FirstMatch(matcher, items, i + 1)
  }

  /** The effect of an operation on a table that is in step with its vector. */
  function Step<T, V>(codec: Codec<T, V>, compare: Option<(T, T) -> bool>, view: View<T, V>, op: Op<T, V>): View<T, V>
    requires AllWellFormed(codec, view.rows) && Count(view.rows, |view.rows|) == |view.items|
    requires Enabled(codec, compare, view, op)
  {
    match op
    case VectorInsert(item, index) => AfterInsert(codec, view, item, InsertIndex(compare, view.items, item, index))
    case VectorRemoveAt(index) =>
      ModelIndexCounts(view.rows, index);
      AfterRemove(view, index)
    case RemoveFirstMatching(matcher) =>
      var i := FirstMatch(matcher, view.items, 0);
      ModelIndexCounts(view.rows, i);
      if i < |view.items| then AfterRemove(view, i) else view
    case SetData(row, column, value) =>
      if !HasCell(codec, view, row, column) then view
      else if view.rows[row].isCustomRow then
        view.(rows := view.rows[row := view.rows[row].(cells := view.rows[row].cells[column := value])])
      else
        CountPasses(view.rows, row, |view.rows|);
        AfterEdit(codec, compare, view, VectorIndex(view.rows, row), row, column, value)
    case MoveRow(source, destination) => AfterMove(codec, compare, view, source, destination)
    case InsertCustomRow(cells, index) => view.(rows := InsertAt(view.rows, index, Row(cells, None, true)))
    case RemoveCustomRow(index) => view.(rows := RemoveAt(view.rows, index))
  }

  /** The item of a row is removed from the vector and inserted where the destination row now is. */
  function AfterMove<T, V>(codec: Codec<T, V>, compare: Option<(T, T) -> bool>, view: View<T, V>,
                           source: nat, destination: nat): View<T, V>
    requires AllWellFormed(codec, view.rows) && Count(view.rows, |view.rows|) == |view.items|
    requires source < |view.rows| && !view.rows[source].isCustomRow
  {
    var item, k := ItemOf(codec, view.rows[source]), VectorIndex(view.rows, source);
    MoveIndices(view.rows, source, destination);
    var removed := AfterRemove(view, k);
    AfterInsert(codec, removed, item,
                InsertIndex(compare, removed.items, item, Some(VectorIndex(removed.rows, destination))))
  }

  // ----- Every operation keeps table and vector in step ---------------------------------------------------

  lemma {:induction false} InsertKeepsSync<T(!new), V>(codec: Codec<T, V>, view: View<T, V>, item: T, i: nat)
    requires Lawful(codec) && InSync(codec, view.items, view.rows) && i <= |view.items|
    ensures var next := AfterInsert(codec, view, item, i); InSync(codec, next.items, next.rows)
  {
    var m := ModelIndex(view.rows, i);
    ModelIndexCounts(view.rows, i);
    ShownInsert(codec, view.rows, m, RowFor(codec, item), |view.rows|);
  }

  lemma {:induction false} RemoveKeepsSync<T, V>(codec: Codec<T, V>, view: View<T, V>, i: nat)
    requires InSync(codec, view.items, view.rows) && i < |view.items|
    ensures ModelIndex(view.rows, i) < |view.rows|
    ensures var next := AfterRemove(view, i); InSync(codec, next.items, next.rows)
  {
    var m := ModelIndex(view.rows, i);
    ModelIndexCounts(view.rows, i);
    assert m < |view.rows| && !view.rows[m].isCustomRow && Count(view.rows, m) == i;
    ShownRemove(codec, view.rows, m);
  }

  /** Inserting `x` at two different places makes no difference exactly if everything between is `x`. */
  lemma {:induction false} SameInsertion<T>(s: seq<T>, i: nat, k: nat, x: T)
    requires i <= |s| && k <= |s|
    ensures InsertAt(s, i, x) == InsertAt(s, k, x)
       <==> forall j :: (i <= j < k || k <= j < i) ==> s[j] == x
  {
    var lo, hi := if i < k then i else k, if i < k then k else i;
    var a, b := InsertAt(s, lo, x), InsertAt(s, hi, x);
    assert forall j :: lo < j <= hi ==> a[j] == s[j - 1];
    assert forall j :: lo <= j < hi ==> b[j] == s[j];
    if a == b {
      var j := lo;
      while j < hi
        invariant lo <= j <= hi && forall q :: lo <= q < j ==> s[q] == x
      {
        assert a[j] == b[j];
        j := j + 1;
      }
    }
    if forall j :: lo <= j < hi ==> s[j] == x {
      forall j | 0 <= j < |a| ensures a[j] == b[j] {
      }
    }
  }

  /** The item has not moved relative to the others: those between its old and its new place equal it. */
  ghost predicate StillInPlace<T>(compare: Option<(T, T) -> bool>, others: seq<T>, item: T, k: nat)
    requires k <= |others|
  {
    var i := InsertIndex(compare, others, item, Some(k));
    forall j :: (i <= j < k || k <= j < i) ==> others[j] == item
  }

  /**
   * Editing a cell keeps table and vector in step exactly if the edited item stays in its place.  On
   * an unsorted vector it always does; a sorted one may move it, and the table is not told.
   */
  lemma {:induction false} EditKeepsSyncExactly<T, V>(codec: Codec<T, V>, compare: Option<(T, T) -> bool>,
      view: View<T, V>, row: nat, column: nat, value: V)
    requires InSync(codec, view.items, view.rows) && HasCell(codec, view, row, column)
    requires !view.rows[row].isCustomRow && VectorIndex(view.rows, row) < |view.items|
    ensures var k := VectorIndex(view.rows, row);
      var next := AfterEdit(codec, compare, view, k, row, column, value);
      var item := ItemOf(codec, next.rows[row]);
      InSync(codec, next.items, next.rows) <==> StillInPlace(compare, RemoveAt(view.items, k), item, k)
    ensures compare == None ==>
      var next := AfterEdit(codec, compare, view, VectorIndex(view.rows, row), row, column, value);
      InSync(codec, next.items, next.rows)
  {
    var k := VectorIndex(view.rows, row);
    var edited := view.rows[row].(cells := view.rows[row].cells[column := value]);
    var item, others := ItemOf(codec, edited), RemoveAt(view.items, k);
    ShownUpdate(codec, view.rows, row, edited, |view.rows|);
    InsertUndoesRemove(view.items, k, item);
    SameInsertion(others, InsertIndex(compare, others, item, Some(k)), k, item);
  }

  /** In the second list `item` stands for what was at place `k` of the first; the others are as they were. */
  ghost predicate ItemReplaced<T>(before: seq<T>, k: nat, item: T, after: seq<T>) {
    k < |before| && exists i: nat :: i < |after| && after[i] == item && RemoveAt(after, i) == RemoveAt(before, k)
  }

  lemma {:induction false} ReplacedAt<T>(before: seq<T>, k: nat, i: nat, item: T)
    requires k < |before| && i < |before|
    ensures ItemReplaced(before, k, item, InsertAt(RemoveAt(before, k), i, item))
  {
    var others := RemoveAt(before, k);
    RemoveUndoesInsert(others, i, item);
    assert InsertAt(others, i, item)[i] == item;
  }

  /**
   * An edit changes just the cell it names.  If the row stands for an item, that item is replaced by what
   * the edited cells and the item the row was made from decode to; in an unsorted vector it stays where
   * it is.
   */
  lemma {:induction false} EditIsOfCell<T, V>(codec: Codec<T, V>, compare: Option<(T, T) -> bool>,
      view: View<T, V>, row: int, column: int, value: V)
    requires InSync(codec, view.items, view.rows) && 0 <= row < |view.rows| && 0 <= column < codec.columns
    ensures var next := Step(codec, compare, view, Op.SetData(row, column, value));
      var r := view.rows[row];
      next.rows == view.rows[row := r.(cells := r.cells[column := value])]
      && (r.isCustomRow ==> next.items == view.items)
      && (!r.isCustomRow ==>
            var k, item := Count(view.rows, row), codec.decode(r.cells[column := value], r.original.value);
            ItemReplaced(view.items, k, item, next.items)
            && (compare == None ==> k < |view.items| && next.items == view.items[k := item]))
  {
    var r := view.rows[row];
    if !r.isCustomRow {
      var k, item := Count(view.rows, row), codec.decode(r.cells[column := value], r.original.value);
      CountPasses(view.rows, row, |view.rows|);
      var i := InsertIndex(compare, RemoveAt(view.items, k), item, Some(k));
      ReplacedAt(view.items, k, i, item);
      InsertUndoesRemove(view.items, k, item);
    }
  }

  /** A custom row, wherever it is put in, changes nothing that the vector is compared with. */
  lemma {:induction false} CustomRowKeepsSync<T, V>(codec: Codec<T, V>, view: View<T, V>, m: nat, row: Row<T, V>)
    requires InSync(codec, view.items, view.rows) && WellFormed(codec, row) && row.isCustomRow && m <= |view.rows|
    ensures InSync(codec, view.items, InsertAt(view.rows, m, row))
  {
    ShownInsert(codec, view.rows, m, row, |view.rows|);
  }

  lemma {:induction false} NoCustomRowKeepsSync<T, V>(codec: Codec<T, V>, view: View<T, V>, m: nat)
    requires InSync(codec, view.items, view.rows) && m < |view.rows| && view.rows[m].isCustomRow
    ensures InSync(codec, view.items, RemoveAt(view.rows, m))
  {
    ShownRemove(codec, view.rows, m);
  }

  lemma {:induction false} CustomEditKeepsSync<T, V>(codec: Codec<T, V>, view: View<T, V>, m: nat, cells: seq<V>)
    requires InSync(codec, view.items, view.rows) && |cells| == codec.columns
    requires m < |view.rows| && view.rows[m].isCustomRow
    ensures InSync(codec, view.items, view.rows[m := view.rows[m].(cells := cells)])
  {
    var row := view.rows[m].(cells := cells);
    ShownRemove(codec, view.rows, m);
    CustomRowKeepsSync(codec, View(view.items, RemoveAt(view.rows, m)), m, row);
    InsertUndoesRemove(view.rows, m, row);
  }

  lemma {:induction false} MoveKeepsSync<T(!new), V>(codec: Codec<T, V>, compare: Option<(T, T) -> bool>,
      view: View<T, V>, source: nat, destination: nat)
    requires Lawful(codec) && InSync(codec, view.items, view.rows)
    requires source < |view.rows| && !view.rows[source].isCustomRow
    ensures var next := AfterMove(codec, compare, view, source, destination); InSync(codec, next.items, next.rows)
    ensures multiset(AfterMove(codec, compare, view, source, destination).items) == multiset(view.items)
  {
    var item, k := ItemOf(codec, view.rows[source]), VectorIndex(view.rows, source);
    CountPasses(view.rows, source, |view.rows|);
    ShownAt(codec, view.rows, source, |view.rows|);
    RemoveKeepsSync(codec, view, k);
    var removed := AfterRemove(view, k);
    VectorIndexInRange(removed.rows, destination);
    var i := InsertIndex(compare, removed.items, item, Some(VectorIndex(removed.rows, destination)));
    InsertKeepsSync(codec, removed, item, i);
    InsertAddsOne(removed.items, i, item);
    RemoveTakesOne(view.items, k);
  }

  /** A move is a removal followed by an insertion. */
  lemma {:induction false} MoveIsTwoSteps<T(!new), V>(codec: Codec<T, V>, compare: Option<(T, T) -> bool>,
      view: View<T, V>, source: nat, destination: nat)
    requires Lawful(codec) && InSync(codec, view.items, view.rows)
    requires source < |view.rows| && !view.rows[source].isCustomRow
    ensures VectorIndex(view.rows, source) < |view.items|
    ensures var removed := Step(codec, compare, view, Op.VectorRemoveAt(VectorIndex(view.rows, source)));
      var op := Op.VectorInsert(ItemOf(codec, view.rows[source]), Some(VectorIndex(removed.rows, destination)));
      InSync(codec, removed.items, removed.rows) && Enabled(codec, compare, removed, op)
      && Step(codec, compare, removed, op) == AfterMove(codec, compare, view, source, destination)
  {
    var k := VectorIndex(view.rows, source);
    MoveIndices(view.rows, source, destination);
    RemoveKeepsSync(codec, view, k);
    VectorIndexInRange(AfterRemove(view, k).rows, destination);
  }

  lemma {:induction false} MoveConcludes<T(!new), V>(codec: Codec<T, V>, compare: Option<(T, T) -> bool>,
      view: View<T, V>, removed: View<T, V>, last: View<T, V>, source: nat, destination: nat)
    requires Lawful(codec) && InSync(codec, view.items, view.rows)
    requires source < |view.rows| && !view.rows[source].isCustomRow && VectorIndex(view.rows, source) < |view.items|
    requires InSync(codec, removed.items, removed.rows)
    requires removed == Step(codec, compare, view, Op.VectorRemoveAt(VectorIndex(view.rows, source)))
    requires var op := Op.VectorInsert(ItemOf(codec, view.rows[source]), Some(VectorIndex(removed.rows, destination)));
      Enabled(codec, compare, removed, op) && last == Step(codec, compare, removed, op)
    ensures last == AfterMove(codec, compare, view, source, destination)
  {
    MoveIsTwoSteps(codec, compare, view, source, destination);
  }

  /** If an item's row is edited on a sorted vector, the item stays in its place. */
  ghost predicate EditsInPlace<T, V>(codec: Codec<T, V>, compare: Option<(T, T) -> bool>, view: View<T, V>,
      op: Op<T, V>)
    requires InSync(codec, view.items, view.rows)
  {
    compare.Some? && op.SetData? && HasCell(codec, view, op.row, op.column) && !view.rows[op.row].isCustomRow ==>
      (CountPasses(view.rows, op.row, |view.rows|);
       var k := VectorIndex(view.rows, op.row);
       var next := AfterEdit(codec, compare, view, k, op.row, op.column, op.value);
       StillInPlace(compare, RemoveAt(view.items, k), ItemOf(codec, next.rows[op.row]), k))
  }

  /** An operation keeps table and vector in step, unless it is an edit that moves its item in a sorted vector. */
  lemma {:induction false} StepKeepsSync<T(!new), V>(codec: Codec<T, V>, compare: Option<(T, T) -> bool>,
      view: View<T, V>, op: Op<T, V>)
    requires Lawful(codec) && InSync(codec, view.items, view.rows) && Enabled(codec, compare, view, op)
    ensures var next := Step(codec, compare, view, op);
      InSync(codec, next.items, next.rows) <==> EditsInPlace(codec, compare, view, op)
  {
    match op {
      case VectorInsert(item, place) =>
        InsertKeepsSync(codec, view, item, InsertIndex(compare, view.items, item, place));
      case VectorRemoveAt(index) => RemoveKeepsSync(codec, view, index);
      case RemoveFirstMatching(matcher) =>
        if FirstMatch(matcher, view.items, 0) < |view.items| {
          RemoveKeepsSync(codec, view, FirstMatch(matcher, view.items, 0));
        }
      case SetData(row, column, value) =>
        if HasCell(codec, view, row, column) {
          if view.rows[row].isCustomRow {
            CustomEditKeepsSync(codec, view, row, view.rows[row].cells[column := value]);
          } else {
            CountPasses(view.rows, row, |view.rows|);
            EditKeepsSyncExactly(codec, compare, view, row, column, value);
          }
        }
      case MoveRow(source, destination) => MoveKeepsSync(codec, compare, view, source, destination);
      case InsertCustomRow(cells, index) => CustomRowKeepsSync(codec, view, index, Row(cells, None, true));
      case RemoveCustomRow(index) => NoCustomRowKeepsSync(codec, view, index);
    }
  }

  // ----- Custom rows ----------------------------------------------------------------------------------------

  /** The custom rows among the first `p`. */
  function CustomRows<T, V>(rows: seq<Row<T, V>>, p: nat): seq<Row<T, V>>
    requires p <= |rows|
  {
    if p == 0 then []
    else if rows[p - 1].isCustomRow then CustomRows(rows, p - 1) + [rows[p - 1]]
    else CustomRows(rows, p - 1)
  }

  lemma {:induction false} CustomPrefix<T, V>(rows: seq<Row<T, V>>, rows': seq<Row<T, V>>, p: nat)
    requires p <= |rows| && p <= |rows'| && forall i :: 0 <= i < p ==> rows[i] == rows'[i]
    ensures CustomRows(rows, p) == CustomRows(rows', p)
  {
    if p > 0 {
      CustomPrefix(rows, rows', p - 1);
    }
  }

  lemma {:induction false} CustomInsert<T, V>(rows: seq<Row<T, V>>, m: nat, row: Row<T, V>, p: nat)
    requires m <= p <= |rows| && !row.isCustomRow
    ensures CustomRows(InsertAt(rows, m, row), p + 1) == CustomRows(rows, p)
    decreases p
  {
    if p > m {
      CustomInsert(rows, m, row, p - 1);
    } else {
      CustomPrefix(rows, InsertAt(rows, m, row), m);
    }
  }

  lemma {:induction false} CustomRemove<T, V>(rows: seq<Row<T, V>>, m: nat)
    requires m < |rows| && !rows[m].isCustomRow
    ensures CustomRows(RemoveAt(rows, m), |rows| - 1) == CustomRows(rows, |rows|)
  {
    InsertUndoesRemove(rows, m, rows[m]);
    assert InsertAt(RemoveAt(rows, m), m, rows[m]) == rows;
    CustomInsert(RemoveAt(rows, m), m, rows[m], |rows| - 1);
  }

  lemma {:induction false} CustomUpdate<T, V>(rows: seq<Row<T, V>>, m: nat, row: Row<T, V>, p: nat)
    requires m < |rows| && p <= |rows| && !rows[m].isCustomRow && !row.isCustomRow
    ensures CustomRows(rows[m := row], p) == CustomRows(rows, p)
  {
    if p > 0 {
      CustomUpdate(rows, m, row, p - 1);
    }
  }

  lemma {:induction false} RemoveKeepsCustomRows<T, V>(codec: Codec<T, V>, view: View<T, V>, i: nat)
    requires InSync(codec, view.items, view.rows) && i < |view.items|
    ensures ModelIndex(view.rows, i) < |view.rows|
    ensures var next := AfterRemove(view, i);
      CustomRows(next.rows, |next.rows|) == CustomRows(view.rows, |view.rows|)
  {
    RemoveKeepsSync(codec, view, i);
    CustomRemove(view.rows, ModelIndex(view.rows, i));
  }

  /** The operation puts in, takes out or edits a custom row. */
  predicate TouchesCustomRow<T, V>(codec: Codec<T, V>, view: View<T, V>, op: Op<T, V>) {
    op.InsertCustomRow? || op.RemoveCustomRow?
    || (op.SetData? && HasCell(codec, view, op.row, op.column) && view.rows[op.row].isCustomRow)
  }

  /** Whatever happens to items and their rows, the custom rows are all there, as they were and in order. */
  lemma {:induction false} StepKeepsCustomRows<T(!new), V>(codec: Codec<T, V>, compare: Option<(T, T) -> bool>,
      view: View<T, V>, op: Op<T, V>)
    requires Lawful(codec) && InSync(codec, view.items, view.rows) && Enabled(codec, compare, view, op)
    requires !TouchesCustomRow(codec, view, op)
    ensures var next := Step(codec, compare, view, op);
      CustomRows(next.rows, |next.rows|) == CustomRows(view.rows, |view.rows|)
  {
    match op {
      case VectorInsert(item, place) =>
        var i := InsertIndex(compare, view.items, item, place);
        CustomInsert(view.rows, ModelIndex(view.rows, i), RowFor(codec, item), |view.rows|);
      case VectorRemoveAt(index) => RemoveKeepsCustomRows(codec, view, index);
      case RemoveFirstMatching(matcher) =>
        if FirstMatch(matcher, view.items, 0) < |view.items| {
          RemoveKeepsCustomRows(codec, view, FirstMatch(matcher, view.items, 0));
        }
      case SetData(row, column, value) =>
        if HasCell(codec, view, row, column) {
          EditIsOfCell(codec, compare, view, row, column, value);
          var r := view.rows[row];
          CustomUpdate(view.rows, row, r.(cells := r.cells[column := value]), |view.rows|);
        }
      case MoveRow(source, destination) => MoveKeepsCustomRows(codec, compare, view, source, destination);
    }
  }

  lemma {:induction false} MoveKeepsCustomRows<T(!new), V>(codec: Codec<T, V>, compare: Option<(T, T) -> bool>,
      view: View<T, V>, source: nat, destination: nat)
    requires Lawful(codec) && InSync(codec, view.items, view.rows)
    requires source < |view.rows| && !view.rows[source].isCustomRow
    ensures var next := AfterMove(codec, compare, view, source, destination);
      CustomRows(next.rows, |next.rows|) == CustomRows(view.rows, |view.rows|)
  {
    var item, k := ItemOf(codec, view.rows[source]), VectorIndex(view.rows, source);
    MoveIndices(view.rows, source, destination);
    RemoveKeepsCustomRows(codec, view, k);
    var removed := AfterRemove(view, k);
    var i := InsertIndex(compare, removed.items, item, Some(VectorIndex(removed.rows, destination)));
    CustomInsert(removed.rows, ModelIndex(removed.rows, i), RowFor(codec, item), |removed.rows|);
  }

  // ----- Runs -----------------------------------------------------------------------------------------------

  /** Operations that the program's assertions allow, one after the other, none of which is such an edit. */
  ghost predicate RunEnabled<T(!new), V>(codec: Codec<T, V>, compare: Option<(T, T) -> bool>, view: View<T, V>,
      ops: seq<Op<T, V>>)
    requires Lawful(codec) && InSync(codec, view.items, view.rows)
    decreases |ops|
  {
    ops == [] ||
    (Enabled(codec, compare, view, ops[0]) && EditsInPlace(codec, compare, view, ops[0])
     && (StepKeepsSync(codec, compare, view, ops[0]);
         RunEnabled(codec, compare, Step(codec, compare, view, ops[0]), ops[1..])))
  }

  ghost function Run<T(!new), V>(codec: Codec<T, V>, compare: Option<(T, T) -> bool>, view: View<T, V>,
      ops: seq<Op<T, V>>)
    : (last: View<T, V>)
    requires Lawful(codec) && InSync(codec, view.items, view.rows) && RunEnabled(codec, compare, view, ops)
    ensures InSync(codec, last.items, last.rows)
    decreases |ops|
  {
    if ops == [] then view else
      StepKeepsSync(codec, compare, view, ops[0]);
      Run(codec, compare, Step(codec, compare, view, ops[0]), ops[1..])
  }

  /** After any run, the index maps are inverse to each other between the items and their rows. */
  lemma {:induction false} RunKeepsIndexMaps<T(!new), V>(codec: Codec<T, V>, compare: Option<(T, T) -> bool>,
      view: View<T, V>, ops: seq<Op<T, V>>)
    requires Lawful(codec) && InSync(codec, view.items, view.rows) && RunEnabled(codec, compare, view, ops)
    ensures var last := Run(codec, compare, view, ops);
      (forall v :: 0 <= v < |last.items| ==>
        var m := ModelIndex(last.rows, v);
        m < |last.rows| && !last.rows[m].isCustomRow && VectorIndex(last.rows, m) == v
        && ItemOf(codec, last.rows[m]) == last.items[v])
      && forall m :: 0 <= m < |last.rows| && !last.rows[m].isCustomRow ==>
        VectorIndex(last.rows, m) < |last.items| && ModelIndex(last.rows, VectorIndex(last.rows, m)) == m
  {
    var last := Run(codec, compare, view, ops);
    forall v | 0 <= v < |last.items|
      ensures var m := ModelIndex(last.rows, v);
        m < |last.rows| && !last.rows[m].isCustomRow && VectorIndex(last.rows, m) == v
        && ItemOf(codec, last.rows[m]) == last.items[v]
    {
      ModelIndexCounts(last.rows, v);
      ShownAt(codec, last.rows, ModelIndex(last.rows, v), |last.rows|);
    }
    forall m | 0 <= m < |last.rows| && !last.rows[m].isCustomRow
      ensures VectorIndex(last.rows, m) < |last.items| && ModelIndex(last.rows, VectorIndex(last.rows, m)) == m
    {
      CountPasses(last.rows, m, |last.rows|);
      ModelOfVectorIndex(last.rows, m);
    }
  }

  /**
   * Where a moved row lands on an unsorted vector.  The destination is looked up after the row is
   * gone: if an item's row is there then, the moved row takes exactly that place; over a custom row
   * or past the end it goes behind everything.
   */
  lemma {:induction false} MovedRowLands<T, V>(codec: Codec<T, V>, view: View<T, V>, source: nat, destination: nat)
    requires InSync(codec, view.items, view.rows)
    requires source < |view.rows| && !view.rows[source].isCustomRow
    ensures var others := RemoveAt(view.rows, source);
      var row := RowFor(codec, ItemOf(codec, view.rows[source]));
      AfterMove(codec, None, view, source, destination).rows
      == InsertAt(others,
                  if destination < |others| && !others[destination].isCustomRow then destination else |others|,
                  row)
  {
    var others := RemoveAt(view.rows, source);
    ModelOfVectorIndex(view.rows, source);
    ModelOfVectorIndex(others, destination);
    VectorIndexInRange(others, destination);
    if !(destination < |others| && !others[destination].isCustomRow) {
      ModelIndexCounts(others, VectorIndex(others, destination));
    }
  }

  // ----- The table ----------------------------------------------------------------------------------------

  class SignalVectorModel<T(!new), V> {
    const codec: Codec<T, V>
    const vector: SignalVector<T>
    var rows: seq<Row<T, V>>

    ghost predicate Valid()
      reads this, vector
    {
      Lawful(codec) && vector.Valid() && InSync(codec, vector.items, rows)
    }

    ghost function TheView(): View<T, V>
      reads this, vector
    {
      View(vector.items, rows)
    }

    /** `initialize`: every item that is already there is treated like one that was just inserted. */
    constructor (codec: Codec<T, V>, vector: SignalVector<T>)
      requires Lawful(codec) && vector.Valid()
      ensures this.codec == codec && this.vector == vector && Valid()
      ensures forall i :: 0 <= i < |rows| ==> !rows[i].isCustomRow
    {
      this.codec := codec;
      this.vector := vector;
      rows := [];
      new;
      for i := 0 to |vector.items|
        invariant vector.Valid() && vector.items == old(vector.items)
        invariant InSync(codec, vector.items[..i], rows)
        invariant forall j :: 0 <= j < |rows| ==> !rows[j].isCustomRow
      {
        ghost var was := View(vector.items[..i], rows);
        ModelIndexCounts(rows, i);
        InsertKeepsSync(codec, was, vector.items[i], i);
        OnItemInserted(ItemEvent(vector.items[i], i, null));
        assert InsertAt(vector.items[..i], i, vector.items[i]) == vector.items[..i + 1];
      }
      assert vector.items[..|vector.items|] == vector.items;
    }

    /** The loop of `getVectorIndexFromModelIndex`, which lowers the index at every custom row. */
    method GetVectorIndexFromModelIndex(modelIndex: nat) returns (i: nat)
      ensures i == VectorIndex(rows, modelIndex)
    {
      i := 0;
      var index: int := modelIndex;
      for p := 0 to |rows|
        invariant i == Count(rows, p) && index == modelIndex - (p - i)
        invariant modelIndex < p ==> rows[modelIndex].isCustomRow
      {
        if rows[p].isCustomRow {
          index := index - 1;
        } else {
          if i == index {
            return i;
          }
          i := i + 1;
        }
      }
    }

    /** The loop of `getModelIndexFromVectorIndex`, which raises the index at every custom row. */
    method GetModelIndexFromVectorIndex(vectorIndex: nat) returns (modelIndex: nat)
      ensures modelIndex == ModelIndex(rows, vectorIndex)
    {
      modelIndex := 0;
      var index := vectorIndex;
      while modelIndex < |rows|
        invariant modelIndex <= |rows| && index == vectorIndex + (modelIndex - Count(rows, modelIndex))
        invariant ModelIndex(rows, vectorIndex) == RowFrom(rows, vectorIndex, modelIndex)
      {
        if rows[modelIndex].isCustomRow {
          index := index + 1;
          if Count(rows, modelIndex) == vectorIndex + 1 {
            var earlier := RowOf(rows, vectorIndex, modelIndex);
            RowFromIsFirst(rows, vectorIndex, 0, earlier);
          }
        }
        if modelIndex == index {
          return;
        }
        modelIndex := modelIndex + 1;
      }
    }

    /** The answer to an item that came into the vector, unless the table put it there itself. */
    method OnItemInserted(event: ItemEvent<T>)
      modifies this
      ensures rows == if event.caller == this then old(rows)
                      else InsertAt(old(rows), ModelIndex(old(rows), event.index), RowFor(codec, event.item))
    {
      if event.caller == this {
        return;
      }
      var index := GetModelIndexFromVectorIndex(event.index);
      rows := InsertAt(rows, index, RowFor(codec, event.item));
    }

    /** The answer to an item that left the vector. */
    method OnItemRemoved(event: ItemEvent<T>)
      requires event.caller != this ==> ModelIndex(rows, event.index) < |rows|
      modifies this
      ensures rows == if event.caller == this then old(rows)
                      else RemoveAt(old(rows), ModelIndex(old(rows), event.index))
    {
      if event.caller == this {
        return;
      }
      var row := GetModelIndexFromVectorIndex(event.index);
      rows := RemoveAt(rows, row);
    }

    /** Someone else inserts into the vector. */
    method VectorInsert(item: T, place: Option<nat>, caller: object?)
      requires Valid() && caller != this && Enabled(codec, vector.compare, TheView(), Op.VectorInsert(item, place))
      modifies this, vector
      ensures Valid() && TheView() == Step(codec, vector.compare, old(TheView()), Op.VectorInsert(item, place))
    {
      StepKeepsSync(codec, vector.compare, TheView(), Op.VectorInsert(item, place));
      var event := vector.Insert(item, place, caller);
      OnItemInserted(event);
    }

    /** Someone removes an item from the vector; also `deleteRow` and `removeRows`, for the item of their row. */
    method VectorRemoveAt(index: nat, caller: object?)
      requires Valid() && caller != this && index < |vector.items|
      modifies this, vector
      ensures Valid() && TheView() == Step(codec, vector.compare, old(TheView()), Op.VectorRemoveAt(index))
    {
      StepKeepsSync(codec, vector.compare, TheView(), Op.VectorRemoveAt(index));
      RemoveKeepsSync(codec, TheView(), index);
      var event := vector.RemoveAt(index, caller);
      OnItemRemoved(event);
    }

    method VectorRemoveFirstMatching(matcher: T -> bool, caller: object?) returns (removed: bool)
      requires Valid() && caller != this
      modifies this, vector
      ensures Valid() && TheView() == Step(codec, vector.compare, old(TheView()), Op.RemoveFirstMatching(matcher))
      ensures removed <==> exists i :: 0 <= i < |old(vector.items)| && matcher(old(vector.items)[i])
    {
      ghost var was := TheView();
      var i := FirstMatch(matcher, vector.items, 0);
      StepKeepsSync(codec, vector.compare, was, Op.RemoveFirstMatching(matcher));
      if i < |vector.items| {
        RemoveKeepsSync(codec, was, i);
      }
      var event := vector.RemoveFirstMatching(matcher, caller);
      removed := event.Some?;
      if removed {
        assert event.value.index == i;
        OnItemRemoved(event.value);
      }
    }

    /**
     * A cell is edited.  For an item's row the item is read back, removed from the vector and
     * inserted at the same index, both as the table itself.
     */
    method SetData(row: int, column: int, value: V) returns (changed: bool)
      requires Valid()
      modifies this, vector
      ensures TheView() == Step(codec, vector.compare, old(TheView()), Op.SetData(row, column, value))
      ensures changed <==> 0 <= row < |old(rows)| && 0 <= column < codec.columns
      ensures !changed ==> rows == old(rows) && vector.items == old(vector.items)
      ensures changed ==> rows == old(rows)[row := old(rows)[row].(cells := old(rows)[row].cells[column := value])]
      ensures changed && old(rows)[row].isCustomRow ==> vector.items == old(vector.items)
      ensures changed && !old(rows)[row].isCustomRow ==>
        ItemReplaced(old(vector.items), Count(old(rows), row),
          codec.decode(old(rows)[row].cells[column := value], old(rows)[row].original.value), vector.items)
      ensures Lawful(codec) && vector.Valid()
      ensures vector.compare == None || !changed || old(rows)[row].isCustomRow ==> Valid()
    {
      ghost var was := TheView();
      if row < 0 || column < 0 || row >= |rows| || column >= codec.columns {
        return false;
      }
      var edited := rows[row].(cells := rows[row].cells[column := value]);
      EditIsOfCell(codec, vector.compare, was, row, column, value);
      if edited.isCustomRow {
        CustomEditKeepsSync(codec, was, row, edited.cells);
        rows := rows[row := edited];
      } else {
        CountPasses(rows, row, |rows|);
        EditKeepsSyncExactly(codec, vector.compare, was, row, column, value);
        SameIndices(codec, was.rows, row, edited);
        rows := rows[row := edited];
        var vecRow := GetVectorIndexFromModelIndex(row);
        if vecRow >= |vector.readOnly| {
          assert false;
        }
        var removed := vector.RemoveAt(vecRow, this);
        OnItemRemoved(removed);
        var inserted := vector.Insert(ItemOf(codec, edited), Some(vecRow), this);
        OnItemInserted(inserted);
      }
      return true;
    }

    /** Moves the row of an item; `destination` is where it is dropped. */
    method MoveRows(source: nat, destination: nat)
      requires Valid() && source < |rows| && !rows[source].isCustomRow
      modifies this, vector
      ensures Valid() && TheView() == AfterMove(codec, vector.compare, old(TheView()), source, destination)
      ensures multiset(vector.items) == multiset(old(vector.items))
    {
      ghost var was := TheView();
      MoveKeepsSync(codec, vector.compare, was, source, destination);
      MoveIsTwoSteps(codec, vector.compare, was, source, destination);
      var vectorRow := GetVectorIndexFromModelIndex(source);
      var item := ItemOf(codec, rows[source]);
      VectorRemoveAt(vectorRow, null);
      ghost var removed := TheView();
      var target := GetVectorIndexFromModelIndex(destination);
      VectorInsert(item, Some(target), null);
      MoveConcludes(codec, vector.compare, was, removed, TheView(), source, destination);
    }

    method InsertCustomRow(cells: seq<V>, index: nat)
      requires Valid() && |cells| == codec.columns && index <= |rows|
      modifies this
      ensures Valid() && TheView() == Step(codec, vector.compare, old(TheView()), Op.InsertCustomRow(cells, index))
      ensures rows == old(rows)[..index] + [Row(cells, None, true)] + old(rows)[index..]
      ensures vector.items == old(vector.items)
    {
      CustomRowKeepsSync(codec, TheView(), index, Row(cells, None, true));
      rows := InsertAt(rows, index, Row(cells, None, true));
    }

    method RemoveCustomRow(index: nat)
      requires Valid() && index < |rows| && rows[index].isCustomRow
      modifies this
      ensures Valid() && TheView() == Step(codec, vector.compare, old(TheView()), Op.RemoveCustomRow(index))
      ensures rows == old(rows)[..index] + old(rows)[index + 1..] && vector.items == old(vector.items)
    {
      NoCustomRowKeepsSync(codec, TheView(), index);
      rows := RemoveAt(rows, index);
    }
  }
}

/** A table over a sorted vector that gets out of step. */
module SignalVectorExamples {
  import opened SignalVectorModels
  import opened SignalVectors
  import opened Wrappers

  /** Numbers in a table of one column. */
  const NUMBERS: Codec<int, int> :=
    Codec(1, x => [x], (cells: seq<int>, old': int) => if cells == [] then old' else cells[0])

  const ASCENDING: (int, int) -> bool := (a, b) => a < b

  const ONE_TWO: View<int, int> := View([1, 2], [Row([1], Some(1), false), Row([2], Some(2), false)])

  /** Editing 1 to 3 in the sorted vector of 1 and 2 moves it in the vector, but not in the table. */
  lemma {:induction false} EditOnSortedBreaksSync()
    ensures Lawful(NUMBERS) && StrictWeakOrder(ASCENDING) && SortedBy(ASCENDING, ONE_TWO.items)
    ensures InSync(NUMBERS, ONE_TWO.items, ONE_TWO.rows) && HasCell(NUMBERS, ONE_TWO, 0, 0)
    ensures var next := AfterEdit(NUMBERS, Some(ASCENDING), ONE_TWO, 0, 0, 0, 3);
      next.items == [2, 3] && Shown(NUMBERS, next.rows, 2) == [3, 2] && !InSync(NUMBERS, next.items, next.rows)
  {
  }
}
