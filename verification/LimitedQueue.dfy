/**
 * The message buffer of a chat channel: a ring buffer that forgets its oldest item when it is
 * full (src/messages/LimitedQueue.hpp).
 *
 * `CircularBuffer` is the array underneath, with the documented behaviour of
 * `boost::circular_buffer`; `LimitedQueue` is the repository's class on top of it.  The lists
 * these two hold are compared with a list that never forgets anything: `Apply` is what each
 * operation does to a list without a limit, and `RefinesExactly` and `RunRefines` say when the
 * limited queue is the end of that list.
 */
module LimitedQueues {
  import opened Sequences
  import opened Wrappers

  // ----- Lists -----------------------------------------------------------------------------

  /** The last `limit` items of `s`. */
  function KeepLast<T>(limit: nat, s: seq<T>): (r: seq<T>)
    ensures |r| <= limit && |r| <= |s|
    ensures |s| <= limit ==> r == s
  {
    if |s| <= limit then s else s[|s| - limit..]
  }

  /** The items of `s` that do not fit into a queue of size `limit`. */
  function Evicted<T>(limit: nat, s: seq<T>): (r: seq<T>)
    ensures r + KeepLast(limit, s) == s
  {
    if |s| <= limit then [] else s[..|s| - limit]
  }

  /** The position of the first occurrence of `x` from `i` on, or the length of `s` if there is none. */
  function IndexFrom<T(==)>(s: seq<T>, x: T, i: nat): (r: nat)
    requires i <= |s|
    ensures i <= r <= |s|
    decreases |s| - i
  {
    if i == |s| || s[i] == x then i else IndexFrom(s, x, i + 1)
  }

  lemma {:induction false} IndexFromFinds<T>(s: seq<T>, x: T, i: nat)
    requires i <= |s|
    ensures var r := IndexFrom(s, x, i);
      (forall j :: i <= j < r ==> s[j] != x) && (r < |s| ==> s[r] == x)
    decreases |s| - i
  {
    if i < |s| && s[i] != x {
      IndexFromFinds(s, x, i + 1);
    }
  }

  function IndexOf<T(==)>(s: seq<T>, x: T): (i: nat)
    ensures i <= |s|
    ensures forall j :: 0 <= j < i ==> s[j] != x
    ensures i < |s| <==> x in s
    ensures i < |s| ==> s[i] == x
  {
    IndexFromFinds(s, x, 0);
    IndexFrom(s, x, 0)
  }

  // ----- Operations on a list that has no limit -------------------------------------------------

  /** The operations of the queue that change it. */
  datatype Op<T> =
    | PushBack(item: T)
    | PushFront(items: seq<T>)
    | PushFrontWhile(produced: seq<T>) // what the producer returns, call by call, until it stops
    | InsertBefore(needle: T, item: T)
    | InsertAfter(needle: T, item: T)
    | Replace(needle: T, replacement: T)
    | Clear

  function Reversed<T>(s: seq<T>): (r: seq<T>)
    ensures |r| == |s|
    ensures forall i :: 0 <= i < |s| ==> r[i] == s[|s| - 1 - i]
  {
    if s == [] then [] else Reversed(s[1..]) + [s[0]]
  }

  predicate HasNeedle<T>(op: Op<T>) {
    op.InsertBefore? || op.InsertAfter? || op.Replace?
  }

  /** The edit of an operation whose needle is at place `k`. */
  function EditAt<T>(s: seq<T>, k: nat, op: Op<T>): seq<T>
    requires HasNeedle(op) && k < |s|
  {
    match op
    case InsertBefore(_, x) => InsertAt(s, k, x)
    case InsertAfter(_, x) => InsertAt(s, k + 1, x)
    case Replace(_, x) => s[k := x]
  }

  /** What an operation does to a list that can grow without bound. */
  function Apply<T(==)>(s: seq<T>, op: Op<T>): seq<T> {
    match op
    case PushBack(x) => s + [x]
    case PushFront(items) => items + s
    case PushFrontWhile(produced) => Reversed(produced) + s
    case Clear => []
    case _ => if IndexOf(s, op.needle) < |s| then EditAt(s, IndexOf(s, op.needle), op) else s
  }

  function ApplyAll<T(==)>(s: seq<T>, ops: seq<Op<T>>): seq<T>
    decreases |ops|
  {
    if ops == [] then s else ApplyAll(Apply(s, ops[0]), ops[1..])
  }

  /** What an operation does to a queue of size `limit`; `LimitedQueue` is proved to do this. */
  function ApplyLimited<T(==)>(limit: nat, s: seq<T>, op: Op<T>): seq<T> {
    KeepLast(limit, Apply(s, op))
  }

  lemma {:induction false} ReplacesOnlyOccurrence<T>(limit: nat, s: seq<T>, x: T, y: T, i: nat)
    requires |s| <= limit && i < |s| && s[i] == x
    ensures ApplyLimited(limit, s, Replace(x, y)) == s[i := y] || multiset(s)[x] > 1
  {
    OnlyOccurrence(s, x, i);
  }

  function ApplyAllLimited<T(==)>(limit: nat, s: seq<T>, ops: seq<Op<T>>): seq<T>
    decreases |ops|
  {
    if ops == [] then s else ApplyAllLimited(limit, ApplyLimited(limit, s, ops[0]), ops[1..])
  }

  // ----- When the limited queue is the end of the unlimited list ----------------------------------

  /** One copy of `needle` has been forgotten while another one is still in the queue. */
  predicate Ambiguous<T(==)>(limit: nat, s: seq<T>, needle: T) {
    needle in Evicted(limit, s) && needle in KeepLast(limit, s)
  }

  /** The edit at the first occurrence of the needle leaves the contents `w` of a full queue as they were. */
  predicate EditDoesNotShow<T(==)>(w: seq<T>, op: Op<T>)
    requires HasNeedle(op) && op.needle in w
  {
    if op.InsertBefore? then forall i :: 0 <= i < IndexOf(w, op.needle) ==> w[i] == op.item
    else if op.InsertAfter? then op.item == op.needle == w[0]
    else op.replacement == op.needle
  }

  /**
   * The exact condition under which `op` keeps a limited queue equal to the end of the unlimited
   * list `s`.  Only a needle with a forgotten and a remembered copy can break it, and then only
   * if the queue's edit shows.
   */
  predicate StaysInStep<T(==)>(limit: nat, s: seq<T>, op: Op<T>) {
    HasNeedle(op) && Ambiguous(limit, s, op.needle) ==> EditDoesNotShow(KeepLast(limit, s), op)
  }

  predicate RunStaysInStep<T(==)>(limit: nat, s: seq<T>, ops: seq<Op<T>>)
    decreases |ops|
  {
    ops == [] || (StaysInStep(limit, s, ops[0]) && RunStaysInStep(limit, Apply(s, ops[0]), ops[1..]))
  }

  /** A list long enough to fill the queue hides everything in front of it. */
  lemma {:induction false} FullHides<T>(limit: nat, e: seq<T>, t: seq<T>)
    requires |t| >= limit
    ensures KeepLast(limit, e + t) == KeepLast(limit, t)
  {
    assert (e + t)[|e| + |t| - limit..] == t[|t| - limit..];
  }

  /** A list is what was forgotten followed by what is in the queue, which is then full. */
  lemma {:induction false} SplitAtLimit<T>(limit: nat, s: seq<T>)
    ensures s == Evicted(limit, s) + KeepLast(limit, s)
    ensures |Evicted(limit, s)| > 0 ==> |KeepLast(limit, s)| == limit
  {
  }

  /** The first occurrence is the only place with the occurrence and none before it. */
  lemma {:induction false} IndexOfIs<T>(s: seq<T>, x: T, i: nat)
    requires i <= |s|
    requires forall j :: 0 <= j < i ==> s[j] != x
    requires i < |s| ==> s[i] == x
    ensures IndexOf(s, x) == i
  {
  }

  /** What occurs only once is found where it is. */
  lemma {:induction false} OnlyOccurrence<T>(s: seq<T>, x: T, i: nat)
    requires i < |s| && s[i] == x
    ensures IndexOf(s, x) == i || multiset(s)[x] > 1
  {
    var j := IndexOf(s, x);
    if j < i {
      assert s == s[..i] + [x] + s[i + 1..];
      assert s[..i][j] == x;
    }
  }

  lemma {:induction false} IndexOfConcat<T>(a: seq<T>, b: seq<T>, x: T)
    ensures IndexOf(a + b, x) == if x in a then IndexOf(a, x) else |a| + IndexOf(b, x)
  {
    IndexOfIs(a + b, x, if x in a then IndexOf(a, x) else |a| + IndexOf(b, x));
  }

  /** A sequence that equals itself moved by one place, with `x` coming in, holds nothing but `x`. */
  lemma {:induction false} ShiftedIsConstant<T>(w: seq<T>, x: T)
    requires |w| > 0 && w[1..] + [x] == w
    ensures forall i :: 0 <= i < |w| ==> w[i] == x
  {
    var i := |w| - 1;
    assert (w[1..] + [x])[i] == x;
    while i > 0
      invariant 0 <= i < |w|
      invariant forall j :: i <= j < |w| ==> w[j] == x
    {
      assert (w[1..] + [x])[i - 1] == w[i];
      i := i - 1;
    }
  }

  /** An item put at place `k` of a full queue of which the front is then dropped. */
  lemma {:induction false} InsertShifts<T>(w: seq<T>, k: nat, x: T)
    requires k <= |w|
    ensures KeepLast(|w|, InsertAt(w, k, x)) == w <==> forall i :: 0 <= i < k ==> w[i] == x
  {
    var r := KeepLast(|w|, InsertAt(w, k, x));
    if k == 0 {
      assert r == w;
    } else {
      assert r == (w[..k][1..] + [x]) + w[k..];
      if r == w {
        assert w[..k][1..] + [x] == r[..k] == w[..k];
        ShiftedIsConstant(w[..k], x);
        forall i | 0 <= i < k ensures w[i] == x { assert w[..k][i] == x; }
      }
    }
  }

  lemma {:induction false} EditFront<T>(e: seq<T>, w: seq<T>, k: nat, op: Op<T>)
    requires HasNeedle(op) && k < |e|
    ensures EditAt(e + w, k, op) == EditAt(e, k, op) + w
  {
    match op {
      case InsertBefore(_, x) => InsertAtConcat(e, k, x, w);
      case InsertAfter(_, x) => InsertAtConcat(e, k + 1, x, w);
      case Replace(_, x) => assert (e + w)[k := x] == e[k := x] + w;
    }
  }

  lemma {:induction false} EditBack<T>(e: seq<T>, w: seq<T>, k: nat, op: Op<T>)
    requires HasNeedle(op) && k < |w|
    ensures EditAt(e + w, |e| + k, op) == e + EditAt(w, k, op)
  {
    match op {
      case InsertBefore(_, x) => InsertAtBack(e, w, k, x);
      case InsertAfter(_, x) => InsertAtBack(e, w, k + 1, x);
      case Replace(_, x) => assert (e + w)[|e| + k := x] == e + w[k := x];
    }
  }

  /** An edit is made in the forgotten part if the needle is there. */
  lemma {:induction false} ApplyFront<T>(e: seq<T>, w: seq<T>, op: Op<T>)
    requires HasNeedle(op) && op.needle in e
    ensures Apply(e + w, op) == Apply(e, op) + w
  {
    IndexOfConcat(e, w, op.needle);
    EditFront(e, w, IndexOf(e, op.needle), op);
  }

  lemma {:induction false} ApplyAtNeedle<T>(s: seq<T>, op: Op<T>, k: nat)
    requires HasNeedle(op) && k == IndexOf(s, op.needle)
    ensures Apply(s, op) == if k < |s| then EditAt(s, k, op) else s
  {
  }

  /** Otherwise it is made in the queue. */
  lemma {:induction false} ApplyBack<T>(e: seq<T>, w: seq<T>, op: Op<T>)
    requires HasNeedle(op) && op.needle !in e
    ensures Apply(e + w, op) == e + Apply(w, op)
  {
    var k := IndexOf(w, op.needle);
    IndexOfConcat(e, w, op.needle);
    ApplyAtNeedle(e + w, op, |e| + k);
    ApplyAtNeedle(w, op, k);
    if k < |w| {
      EditBack(e, w, k, op);
    }
  }

  /** An edit of a full queue that the unlimited list does not show. */
  lemma {:induction false} HiddenEditIsExact<T>(w: seq<T>, op: Op<T>)
    requires HasNeedle(op)
    requires op.needle in w
    ensures KeepLast(|w|, Apply(w, op)) == w <==> EditDoesNotShow(w, op)
  {
    var k := IndexOf(w, op.needle);
    match op {
      case InsertBefore(n, x) => InsertShifts(w, k, x);
      case InsertAfter(n, x) =>
        InsertShifts(w, k + 1, x);
        assert (forall i :: 0 <= i < k + 1 ==> w[i] == x) ==> w[k] == x && w[0] == x;
      case Replace(n, x) =>
        assert w[k := x][k] == x;
    }
  }

  /**
   * One operation on the limited queue gives the last `limit` items of what the same operation
   * makes of the unlimited list, if and only if `StaysInStep` holds.  This covers needles that
   * were forgotten, and needles at the front of a full queue.
   */
  lemma {:induction false} RefinesExactly<T>(limit: nat, s: seq<T>, op: Op<T>)
    ensures ApplyLimited(limit, KeepLast(limit, s), op) == KeepLast(limit, Apply(s, op))
       <==> StaysInStep(limit, s, op)
  {
    var e, w := Evicted(limit, s), KeepLast(limit, s);
    SplitAtLimit(limit, s);
    match op {
      case PushBack(x) => PushBackRefines(limit, s, [x]);
      case PushFront(items) => PushFrontRefines(limit, items, s);
      case PushFrontWhile(produced) => PushFrontRefines(limit, Reversed(produced), s);
      case Clear =>
      case _ => EditRefinesExactly(limit, s, op);
    }
  }

  lemma {:induction false} EditRefinesExactly<T>(limit: nat, s: seq<T>, op: Op<T>)
    requires HasNeedle(op)
    ensures ApplyLimited(limit, KeepLast(limit, s), op) == KeepLast(limit, Apply(s, op))
       <==> StaysInStep(limit, s, op)
  {
    var e, w := Evicted(limit, s), KeepLast(limit, s);
    SplitAtLimit(limit, s);
    if op.needle in e {
      ApplyFront(e, w, op);
      FullHides(limit, Apply(e, op), w);
      if op.needle in w {
        HiddenEditIsExact(w, op);
      }
    } else {
      ApplyBack(e, w, op);
      if e != [] {
        FullHides(limit, e, Apply(w, op));
      }
    }
  }

  lemma {:induction false} FullHidesUnlessEmpty<T>(limit: nat, e: seq<T>, t: seq<T>)
    requires e != [] ==> |t| >= limit
    ensures KeepLast(limit, e + t) == KeepLast(limit, t)
  {
    if e != [] {
      FullHides(limit, e, t);
    } else {
      assert e + t == t;
    }
  }

  /** Pushing to the front keeps the end of `items` that fits in front of `s`. */
  lemma {:induction false} PushFrontFits<T>(limit: nat, items: seq<T>, s: seq<T>)
    requires |s| <= limit
    ensures KeepLast(limit, items + s) == KeepLast(limit - |s|, items) + s
  {
    var room := limit - |s|;
    if |items| > room {
      DropConcat(items, s, |items| - room);
    }
  }

  /** The last `k` items, as a loop from the back pushes them. */
  function LastOnes<T>(items: seq<T>, k: nat): seq<T>
    requires k <= |items|
  {
    if k == 0 then [] else [items[|items| - k]] + LastOnes(items, k - 1)
  }

  lemma {:induction false} LastOnesAre<T>(items: seq<T>, k: nat)
    requires k <= |items|
    ensures LastOnes(items, k) == items[|items| - k..]
  {
    if k > 0 {
      LastOnesAre(items, k - 1);
    }
  }

  lemma {:induction false} LastOnesFit<T>(limit: nat, items: seq<T>, s: seq<T>, n: nat)
    requires |s| <= limit && n == if |items| < limit - |s| then |items| else limit - |s|
    ensures LastOnes(items, n) == KeepLast(limit - |s|, items)
    ensures LastOnes(items, n) + s == ApplyLimited(limit, s, Op.PushFront(items))
  {
    LastOnesAre(items, n);
    PushFrontFits(limit, items, s);
  }

  lemma {:induction false} OneMore<T>(items: seq<T>, k: nat, s: seq<T>)
    requires k < |items|
    ensures LastOnes(items, k + 1) + s == [items[|items| - 1 - k]] + (LastOnes(items, k) + s)
    ensures |LastOnes(items, k)| == k
  {
    LastOnesAre(items, k);
  }

  lemma {:induction false} ReversedSplit<T>(s: seq<T>, k: nat)
    requires k <= |s|
    ensures Reversed(s) == Reversed(s[k..]) + Reversed(s[..k])
  {
    assert s == s[..k] + s[k..];
    ReversedConcat(s[..k], s[k..]);
  }

  lemma {:induction false} FullHidesMiddle<T>(limit: nat, a: seq<T>, b: seq<T>, s: seq<T>)
    requires |b + s| >= limit
    ensures KeepLast(limit, (a + b) + s) == KeepLast(limit, b + s)
  {
    assert (a + b) + s == a + (b + s);
    FullHides(limit, a, b + s);
  }

  /** A producer that is stopped when the queue is full has pushed what would be kept anyway. */
  lemma {:induction false} ProducedFits<T>(limit: nat, produced: seq<T>, used: nat, s: seq<T>)
    requires used <= |produced| && used + |s| <= limit
    requires used < |produced| ==> used + |s| == limit
    ensures KeepLast(limit, Reversed(produced) + s) == Reversed(produced[..used]) + s
  {
    if used == |produced| {
      assert produced[..used] == produced;
    } else {
      ReversedSplit(produced, used);
      FullHidesMiddle(limit, Reversed(produced[used..]), Reversed(produced[..used]), s);
    }
  }

  lemma {:induction false} ProducedStep<T>(produced: seq<T>, used: nat, s: seq<T>)
    requires used < |produced|
    ensures Reversed(produced[..used + 1]) + s == [produced[used]] + (Reversed(produced[..used]) + s)
  {
    assert produced[..used + 1] == produced[..used] + [produced[used]];
    ReversedConcat(produced[..used], [produced[used]]);
  }

  lemma {:induction false} ReversedConcat<T>(a: seq<T>, b: seq<T>)
    ensures Reversed(a + b) == Reversed(b) + Reversed(a)
  {
    forall i | 0 <= i < |a| + |b|
      ensures Reversed(a + b)[i] == (Reversed(b) + Reversed(a))[i]
    {
    }
  }

  lemma {:induction false} PushBackRefines<T>(limit: nat, s: seq<T>, items: seq<T>)
    ensures KeepLast(limit, KeepLast(limit, s) + items) == KeepLast(limit, s + items)
  {
    SplitAtLimit(limit, s);
    assert s + items == Evicted(limit, s) + (KeepLast(limit, s) + items);
    FullHidesUnlessEmpty(limit, Evicted(limit, s), KeepLast(limit, s) + items);
  }

  lemma {:induction false} PushFrontRefines<T>(limit: nat, items: seq<T>, s: seq<T>)
    ensures KeepLast(limit, items + KeepLast(limit, s)) == KeepLast(limit, items + s)
  {
    if |s| > limit {
      FullHides(limit, items, s);
      FullHides(limit, items, KeepLast(limit, s));
    }
  }

  /** A whole run: the queue is the end of the unlimited list as long as every step stays in step. */
  lemma {:induction false} RunRefines<T>(limit: nat, s: seq<T>, ops: seq<Op<T>>)
    requires RunStaysInStep(limit, s, ops)
    ensures ApplyAllLimited(limit, KeepLast(limit, s), ops) == KeepLast(limit, ApplyAll(s, ops))
    decreases |ops|
  {
    if ops == [] {
    } else {
      RefinesExactly(limit, s, ops[0]);
      RunRefines(limit, Apply(s, ops[0]), ops[1..]);
    }
  }

  /** An operation whose needle is in the unlimited list at most once. */
  predicate NeedleUnique<T(==)>(s: seq<T>, op: Op<T>) {
    match op
    case InsertBefore(needle, _) => multiset(s)[needle] <= 1
    case InsertAfter(needle, _) => multiset(s)[needle] <= 1
    case Replace(needle, _) => multiset(s)[needle] <= 1
    case _ => true
  }

  predicate NeedlesUnique<T(==)>(s: seq<T>, ops: seq<Op<T>>)
    decreases |ops|
  {
    ops == [] || (NeedleUnique(s, ops[0]) && NeedlesUnique(Apply(s, ops[0]), ops[1..]))
  }

  lemma {:induction false} UniqueNeedleStaysInStep<T>(limit: nat, s: seq<T>, op: Op<T>)
    requires NeedleUnique(s, op)
    ensures StaysInStep(limit, s, op)
  {
    SplitAtLimit(limit, s);
    assert multiset(s) == multiset(Evicted(limit, s)) + multiset(KeepLast(limit, s));
  }

  /** Message pointers are unique in a channel; then no run can ever get out of step. */
  lemma {:induction false} UniqueNeedlesStayInStep<T>(limit: nat, s: seq<T>, ops: seq<Op<T>>)
    requires NeedlesUnique(s, ops)
    ensures RunStaysInStep(limit, s, ops)
    decreases |ops|
  {
    if ops != [] {
      UniqueNeedleStaysInStep(limit, s, ops[0]);
      UniqueNeedlesStayInStep(limit, Apply(s, ops[0]), ops[1..]);
    }
  }

  lemma {:induction false} DuplicateIsEditedElsewhere<T>(x: T, y: T, z: T)
    requires x != y
    ensures KeepLast(2, Apply([x, y, x], Replace(x, z))) == [y, x]
    ensures ApplyLimited(2, KeepLast(2, [x, y, x]), Replace(x, z)) == [y, z]
  {
    IndexOfIs([x, y, x], x, 0);
    IndexOfIs([y, x], x, 1);
    assert Apply([x, y, x], Replace(x, z)) == [z, y, x];
    assert KeepLast(2, [x, y, x]) == [y, x];
  }

  /** A needle that is in the list twice does break it: the queue edits where the list does not. */
  lemma {:induction false} DuplicateNeedleBreaksStep()
    ensures var s := ["a", "b", "a"]; var op := Replace("a", "c");
      ApplyLimited(2, KeepLast(2, s), op) != KeepLast(2, Apply(s, op))
  {
    assert "a"[0] != "b"[0] && "a"[0] != "c"[0];
    DuplicateIsEditedElsewhere("a", "b", "c");
    assert ["b", "a"][1] != ["b", "c"][1];
  }

  // ----- The ring buffer -----------------------------------------------------------------------

  /** `boost::circular_buffer`: `size` items in a fixed array, the oldest at `first`, wrapping around. */
  class CircularBuffer<T(0)> {
    const slots: array<T>
    var first: nat
    var size: nat

    ghost predicate Valid()
      reads this
    {
      size <= slots.Length && (first < slots.Length || first == 0 == slots.Length)
    }

    /** The array index of place `i`; place `size` is the slot after the newest item. */
    function Slot(i: nat): (k: nat)
      requires Valid() && slots.Length > 0 && i <= slots.Length
      reads this
      ensures k < slots.Length
    {
      if first + i < slots.Length then first + i else first + i - slots.Length
    }

    ghost function Contents(): (s: seq<T>)
      requires Valid()
      reads this, slots
      ensures |s| == size
      ensures forall i :: 0 <= i < size ==> s[i] == slots[Slot(i)]
    {
      seq(size, i requires 0 <= i < size && Valid() reads this, slots => slots[Slot(i)])
    }

    constructor (capacity: nat)
      ensures Valid() && fresh(slots) && slots.Length == capacity && Contents() == []
    {
      slots := new T[capacity];
      first, size := 0, 0;
    }

    predicate Full()
      reads this
    {
      size == slots.Length
    }

    method At(i: nat) returns (x: T)
      requires Valid() && i < size
      ensures x == Contents()[i]
    {
      x := slots[Slot(i)];
    }

    method Set(i: nat, x: T)
      requires Valid() && i < size
      modifies slots
      ensures Valid() && Contents() == old(Contents())[i := x]
    {
      slots[Slot(i)] := x;
    }

    method Clear()
      requires Valid()
      modifies this
      ensures Valid() && Contents() == []
    {
      first, size := 0, 0;
    }

    /** On a full buffer the new item takes the slot of the oldest one. */
    method PushBack(x: T)
      requires Valid()
      modifies this, slots
      ensures Valid() && Contents() == KeepLast(slots.Length, old(Contents()) + [x])
    {
      if slots.Length == 0 {
        return;
      }
      if Full() {
        Overwrite(x);
      } else {
        ghost var wide := Contents() + [x];
        slots[Slot(size)] := x;
        size := size + 1;
        assert Contents() == wide;
      }
    }

    method Overwrite(x: T)
      requires Valid() && Full() && slots.Length > 0
      modifies this, slots
      ensures Valid() && Contents() == (old(Contents()) + [x])[1..]
    {
      ghost var wide := Contents() + [x];
      slots[Slot(size)] := x;
      first := Slot(1);
      assert Contents() == wide[1..];
    }

    method PushFront(x: T)
      requires Valid() && !Full()
      modifies this, slots
      ensures Valid() && Contents() == [x] + old(Contents())
    {
      first := if first == 0 then slots.Length - 1 else first - 1;
      slots[first] := x;
      size := size + 1;
    }

    /**
     * Moves the items from place `pos` on up by one.  On a full buffer the last of them moves into
     * the slot of the oldest item, which is why place 0 is then not spoken of.
     */
    method MoveUp(pos: nat)
      requires Valid() && pos <= size && 0 < slots.Length && (Full() ==> pos > 0)
      modifies slots
      ensures forall i :: 0 <= i < pos && (Full() ==> i > 0) ==> slots[Slot(i)] == old(Contents())[i]
      ensures forall i :: pos < i <= size ==> slots[Slot(i)] == old(Contents())[i - 1]
    {
      var k := size;
      while k > pos
        invariant pos <= k <= size
        invariant forall i :: 0 <= i < k && (Full() ==> i > 0) ==> slots[Slot(i)] == old(Contents())[i]
        invariant forall i :: k < i <= size ==> slots[Slot(i)] == old(Contents())[i - 1]
      {
        slots[Slot(k)] := slots[Slot(k - 1)];
        k := k - 1;
      }
    }

    method MoveUpAndSet(pos: nat, x: T)
      requires Valid() && pos <= size && 0 < slots.Length && (Full() ==> pos > 0)
      modifies slots
      ensures forall i :: 0 <= i <= size && (Full() ==> i > 0) ==>
        slots[Slot(i)] == InsertAt(old(Contents()), pos, x)[i]
    {
      InsertAtIndices(Contents(), pos, x);
      MoveUp(pos);
      slots[Slot(pos)] := x;
    }

    /**
     * Puts `x` at place `pos` and moves the items from there on up by one.  On a full buffer the
     * oldest item is dropped, so that nothing happens when `pos` is the front.
     */
    method Insert(pos: nat, x: T)
      requires Valid() && pos <= size
      modifies this, slots
      ensures Valid() && Contents() == KeepLast(slots.Length, InsertAt(old(Contents()), pos, x))
    {
      ghost var wide := InsertAt(Contents(), pos, x);
      if Full() && pos == 0 {
        assert KeepLast(slots.Length, wide) == Contents();
        return;
      }
      MoveUpAndSet(pos, x);
      if Full() {
        first := Slot(1);
        assert Contents() == wide[1..];
      } else {
        size := size + 1;
        assert Contents() == wide;
      }
    }
  }

  // ----- The limited queue ---------------------------------------------------------------------

  class LimitedQueue<T(0,==)> {
    const limit: nat
    const buffer: CircularBuffer<T>

    ghost predicate Valid()
      reads buffer
    {
      buffer.Valid() && buffer.slots.Length == limit
    }

    ghost function Contents(): (s: seq<T>)
      requires Valid()
      reads buffer, buffer.slots
      ensures |s| == buffer.size <= limit
    {
      buffer.Contents()
    }

    constructor (limit: nat)
      ensures Valid() && fresh(buffer) && fresh(buffer.slots)
      ensures this.limit == limit && Contents() == []
    {
      this.limit := limit;
      buffer := new CircularBuffer(limit);
    }

    method Clear()
      requires Valid()
      modifies buffer
      ensures Valid() && Contents() == ApplyLimited(limit, old(Contents()), Op.Clear) == []
    {
      buffer.Clear();
    }

    /**
     * Returns whether an item had to go, and that item.  With nothing deleted, `deleted` is what the
     * caller passed in, as it is for the out-parameter of the original.  A queue of size zero has no
     * front to read.
     */
    method PushBack(item: T, unset: T) returns (full: bool, deleted: T)
      requires Valid() && limit > 0
      modifies buffer, buffer.slots
      ensures Valid() && Contents() == ApplyLimited(limit, old(Contents()), Op.PushBack(item))
      ensures full <==> |old(Contents())| == limit
      ensures deleted == if full then old(Contents())[0] else unset
      ensures !full ==> Contents() == old(Contents()) + [item]
      ensures full ==> [deleted] + Contents() == old(Contents()) + [item]
    {
      full, deleted := buffer.Full(), unset;
      if full {
        deleted := buffer.At(0);
      }
      buffer.PushBack(item);
    }

    /** Fetches items until the queue is full or the producer stops; `used` of them were needed. */
    method PushFrontWhile(produced: seq<T>) returns (used: nat)
      requires Valid()
      modifies buffer, buffer.slots
      ensures Valid() && Contents() == ApplyLimited(limit, old(Contents()), Op.PushFrontWhile(produced))
      ensures used <= |produced| && (used < |produced| ==> |Contents()| == limit)
      ensures Contents() == Reversed(produced[..used]) + old(Contents())
    {
      ghost var was := Contents();
      used := 0;
      while !buffer.Full() && used < |produced|
        invariant Valid() && used <= |produced|
        invariant Contents() == Reversed(produced[..used]) + was
        decreases |produced| - used
      {
        ProducedStep(produced, used, was);
        buffer.PushFront(produced[used]);
        used := used + 1;
      }
      ProducedFits(limit, produced, used, was);
    }

    /** Pushes the last `n` items, the newest first, and collects them in order. */
    method PushLast(items: seq<T>, n: nat) returns (pushed: seq<T>)
      requires Valid() && n <= |items| && n + |Contents()| <= limit
      modifies buffer, buffer.slots
      ensures Valid() && pushed == LastOnes(items, n) && Contents() == pushed + old(Contents())
    {
      ghost var was := Contents();
      pushed := [];
      var f, b := |items| - n, |items| - 1;
      while f < |items|
        invariant Valid() && |items| - n <= f <= |items| && f + b == 2 * |items| - n - 1
        invariant pushed == items[|items| - n..f]
        invariant Contents() == LastOnes(items, |items| - 1 - b) + was
      {
        OneMore(items, |items| - 1 - b, was);
        SliceGrows(items, |items| - n, f);
        buffer.PushFront(items[b]);
        pushed := pushed + [items[f]];
        f, b := f + 1, b - 1;
      }
      WholeSuffix(items, |items| - n);
      LastOnesAre(items, n);
    }

    /** Pushes the end of `items` that fits, and returns it. */
    method PushFront(items: seq<T>) returns (pushed: seq<T>)
      requires Valid()
      modifies buffer, buffer.slots
      ensures Valid() && Contents() == ApplyLimited(limit, old(Contents()), Op.PushFront(items))
      ensures Contents() == pushed + old(Contents()) && pushed == KeepLast(limit - |old(Contents())|, items)
    {
      var space := limit - buffer.size;
      var numToPush := if |items| < space then |items| else space;
      LastOnesFit(limit, items, Contents(), numToPush);
      pushed := PushLast(items, numToPush);
    }

    /** The scan that `replaceItem`, `insertBefore` and `insertAfter` share. */
    method Locate(needle: T) returns (i: nat)
      requires Valid()
      ensures i == IndexOf(Contents(), needle)
    {
      i := 0;
      while i < buffer.size
        invariant i <= buffer.size
        invariant forall j :: 0 <= j < i ==> Contents()[j] != needle
      {
        var x := buffer.At(i);
        if x == needle {
          break;
        }
        i := i + 1;
      }
      IndexOfIs(Contents(), needle, i);
    }

    /** Replaces the first occurrence of the needle and returns its index, or -1. */
    method ReplaceItem(needle: T, replacement: T) returns (index: int)
      requires Valid()
      modifies buffer.slots
      ensures Valid() && Contents() == ApplyLimited(limit, old(Contents()), Replace(needle, replacement))
      ensures index == if needle in old(Contents()) then IndexOf(old(Contents()), needle) else -1
      ensures Contents() == if index >= 0 then old(Contents())[index := replacement] else old(Contents())
    {
      var i := Locate(needle);
      if i == buffer.size {
        return -1;
      }
      buffer.Set(i, replacement);
      return i;
    }

    /** Replaces the item at `index` if there is one; `prev` is what stood there. */
    method ReplaceItemAt(index: nat, replacement: T, unset: T) returns (replaced: bool, prev: T)
      requires Valid()
      modifies buffer.slots
      ensures Valid() && (replaced <==> index < |old(Contents())|)
      ensures Contents() == if replaced then old(Contents())[index := replacement] else old(Contents())
      ensures prev == if replaced then old(Contents())[index] else unset
    {
      if index >= buffer.size {
        return false, unset;
      }
      prev := buffer.At(index);
      buffer.Set(index, replacement);
      return true, prev;
    }

    /** Looks at `hint` first; the result is that of `ReplaceItem` when the needle is not there twice. */
    method ReplaceItemNear(hint: nat, needle: T, replacement: T) returns (index: int)
      requires Valid()
      modifies buffer.slots
      ensures Valid() && (index == -1 <==> needle !in old(Contents())) && -1 <= index < |old(Contents())|
      ensures index >= 0 ==> old(Contents())[index] == needle
      ensures hint < |old(Contents())| && old(Contents())[hint] == needle ==> index == hint
      ensures Contents() == if index >= 0 then old(Contents())[index := replacement] else old(Contents())
      ensures index != hint || multiset(old(Contents()))[needle] <= 1 ==>
        Contents() == ApplyLimited(limit, old(Contents()), Replace(needle, replacement))
    {
      if hint < buffer.size {
        var x := buffer.At(hint);
        if x == needle {
          ReplacesOnlyOccurrence(limit, Contents(), needle, replacement, hint);
          buffer.Set(hint, replacement);
          return hint;
        }
      }
      index := ReplaceItem(needle, replacement);
    }

    method InsertBefore(needle: T, item: T) returns (inserted: bool)
      requires Valid()
      modifies buffer, buffer.slots
      ensures Valid() && Contents() == ApplyLimited(limit, old(Contents()), Op.InsertBefore(needle, item))
      ensures inserted ==>
        var i := IndexOf(old(Contents()), needle);
        i < |old(Contents())| && Contents() == KeepLast(limit, InsertAt(old(Contents()), i, item))
      ensures inserted <==> needle in old(Contents())
    {
      ghost var was := Contents();
      var i := Locate(needle);
      inserted := i < buffer.size;
      if inserted {
        assert Apply(was, Op.InsertBefore(needle, item)) == InsertAt(was, i, item);
        buffer.Insert(i, item);
      } else {
        assert Apply(was, Op.InsertBefore(needle, item)) == was;
      }
    }

    method InsertAfter(needle: T, item: T) returns (inserted: bool)
      requires Valid()
      modifies buffer, buffer.slots
      ensures Valid() && Contents() == ApplyLimited(limit, old(Contents()), Op.InsertAfter(needle, item))
      ensures inserted ==>
        var i := IndexOf(old(Contents()), needle);
        i < |old(Contents())| && Contents() == KeepLast(limit, InsertAt(old(Contents()), i + 1, item))
      ensures inserted <==> needle in old(Contents())
    {
      ghost var was := Contents();
      var i := Locate(needle);
      inserted := i < buffer.size;
      if inserted {
        assert Apply(was, Op.InsertAfter(needle, item)) == InsertAt(was, i + 1, item);
        buffer.Insert(i + 1, item);
      } else {
        assert Apply(was, Op.InsertAfter(needle, item)) == was;
      }
    }

    method GetSnapshot() returns (snapshot: seq<T>)
      requires Valid()
      ensures snapshot == Contents()
    {
      snapshot := LastN(buffer.size);
    }

    method LastN(nItems: nat) returns (items: seq<T>)
      requires Valid()
      ensures items == KeepLast(nItems, Contents())
    {
      items := [];
      var from := if nItems < buffer.size then buffer.size - nItems else 0;
      for i := from to buffer.size
        invariant items == Contents()[from..i]
      {
        var x := buffer.At(i);
        items := items + [x];
      }
    }

    /** The last item that satisfies `pred`. */
    method RFind(pred: T -> bool) returns (found: Option<T>)
      requires Valid()
      ensures found == None <==> forall x :: x in Contents() ==> !pred(x)
      ensures found.Some? ==> exists i :: 0 <= i < |Contents()| && found.value == Contents()[i] && pred(Contents()[i])
                                && forall j :: i < j < |Contents()| ==> !pred(Contents()[j])
    {
      var i := buffer.size;
      while i > 0
        invariant 0 <= i <= buffer.size
        invariant forall j :: i <= j < buffer.size ==> !pred(Contents()[j])
      {
        i := i - 1;
        var x := buffer.At(i);
        if pred(x) {
          return Some(x);
        }
      }
      return None;
    }
  }
}
