/**
 * The history of a chat channel (src/common/Channel.cpp): filling in messages that were missed, while
 * other threads keep appending.
 */
module Channels {
  import opened LimitedQueues
  import opened Sequences

  /** A `QDateTime`; an invalid one is before every valid one. */
  datatype DateTime = Invalid | At(ms: int) {
    predicate Before(that: DateTime) {
      that.At? && (this.At? ==> this.ms < that.ms)
    }
  }

  /** A message pointer and what the history looks at; equal pointers are equal values. */
  datatype Message = Message(address: nat, id: string, serverReceivedTime: DateTime, system: bool) {
    predicate Before(that: Message) {
      serverReceivedTime.Before(that.serverReceivedTime)
    }
  }

  // ----- Where a missed message belongs -------------------------------------------------------

  ghost predicate Distinct(s: seq<Message>) {
    forall m :: multiset(s)[m] <= 1
  }

  predicate Ascending(s: seq<Message>) {
    forall i, j :: 0 <= i < j < |s| ==> !s[j].Before(s[i])
  }

  /** The ids that count as already there: those of messages that are not system messages. */
  function ExistingIds(snapshot: seq<Message>): (ids: set<string>)
    ensures forall id :: id in ids <==> id != "" && exists m :: m in snapshot && !m.system && m.id == id
  {
    set m | m in snapshot && !m.system && m.id != "" :: m.id
  }

  /** Those of the first `k` incoming messages that have to be added: their id is not there yet. */
  function MissingUpTo(ids: set<string>, incoming: seq<Message>, k: nat): seq<Message>
    requires k <= |incoming|
  {
    if k == 0 then []
    else if incoming[k - 1].id in ids then MissingUpTo(ids, incoming, k - 1)
    else MissingUpTo(ids, incoming, k - 1) + [incoming[k - 1]]
  }

  /** The messages that have to be added to the snapshot. */
  function Missing(snapshot: seq<Message>, incoming: seq<Message>): seq<Message> {
    MissingUpTo(ExistingIds(snapshot), incoming, |incoming|)
  }

  /** The index of the first non-system message from `i` on that is later than `msg`, if there is one. */
  function PlaceFrom(snapshot: seq<Message>, msg: Message, i: nat): (p: nat)
    requires i <= |snapshot|
    ensures i <= p <= |snapshot|
    ensures forall j :: i <= j < p ==> snapshot[j].system || !msg.Before(snapshot[j])
    ensures p < |snapshot| ==> !snapshot[p].system && msg.Before(snapshot[p])
    decreases |snapshot| - i
  {
    if i == |snapshot| || (!snapshot[i].system && msg.Before(snapshot[i])) then i
    else PlaceFrom(snapshot, msg, i + 1)
  }

  /** The first user message that is later, or the end: a message of the same time is not passed by. */
  function Place(snapshot: seq<Message>, msg: Message): (p: nat)
    ensures p <= |snapshot|
    ensures forall j :: 0 <= j < p ==> snapshot[j].system || !msg.Before(snapshot[j])
    ensures p < |snapshot| ==> !snapshot[p].system && msg.Before(snapshot[p])
  {
    PlaceFrom(snapshot, msg, 0)
  }

  /** The added messages that go directly in front of `snapshot[i]`, or to the end, in arrival order. */
  function Gap(snapshot: seq<Message>, added: seq<Message>, i: nat): seq<Message>
  {
    if added == [] then [] else
      var m := added[|added| - 1];
      var gap := Gap(snapshot, added[..|added| - 1], i);
      if Place(snapshot, m) == i then gap + [m] else gap
  }

  function Gaps(snapshot: seq<Message>, added: seq<Message>): (gaps: seq<seq<Message>>)
    ensures |gaps| == |snapshot| + 1
  {
    seq(|snapshot| + 1, i requires 0 <= i <= |snapshot| => Gap(snapshot, added, i))
  }

  /** The snapshot from place `i` on, with `gaps[j]` in front of `snapshot[j]` and the last gap at the end. */
  function Woven(snapshot: seq<Message>, gaps: seq<seq<Message>>, i: nat): seq<Message>
    requires |gaps| == |snapshot| + 1 && i <= |snapshot|
    decreases |snapshot| - i
  {
    if i == |snapshot| then gaps[i] else gaps[i] + ([snapshot[i]] + Woven(snapshot, gaps, i + 1))
  }

  /** The snapshot with messages added to it. */
  function WithAdded(snapshot: seq<Message>, added: seq<Message>): seq<Message> {
    Woven(snapshot, Gaps(snapshot, added), 0)
  }

  /** The history that filling in is meant to produce. */
  function FilledIn(snapshot: seq<Message>, incoming: seq<Message>): seq<Message> {
    WithAdded(snapshot, Missing(snapshot, incoming))
  }

  /** What other threads append, up to the point where `k` lists of it have been appended. */
  function Appended(schedule: seq<seq<Message>>, k: nat): seq<Message>
    requires k <= |schedule|
  {
    if k == 0 then [] else Appended(schedule, k - 1) + schedule[k - 1]
  }

  function AllAppended(schedule: seq<seq<Message>>): seq<Message> {
    Appended(schedule, |schedule|)
  }

  // ----- Properties of the filled-in history ----------------------------------------------------

  // Every message of the snapshot, and every added message, is in the history once per occurrence.

  lemma {:induction false} CountConcat3(a: seq<Message>, x: Message, b: seq<Message>, m: Message)
    ensures multiset(a + ([x] + b))[m] == multiset(a)[m] + (if x == m then 1 else 0) + multiset(b)[m]
  {
  }

  lemma {:induction false} SuffixCount(s: seq<Message>, i: nat, m: Message)
    requires i < |s|
    ensures multiset(s[i..])[m] == (if s[i] == m then 1 else 0) + multiset(s[i + 1..])[m]
  {
    assert s[i..] == [s[i]] + s[i + 1..];
  }

  lemma {:induction false} GapConserves(snapshot: seq<Message>, added: seq<Message>, i: nat, m: Message)
    ensures multiset(Gap(snapshot, added, i))[m] == if Place(snapshot, m) == i then multiset(added)[m] else 0
  {
    if added != [] {
      var front, last := added[..|added| - 1], added[|added| - 1];
      assert added == front + [last];
      GapConserves(snapshot, front, i, m);
    }
  }

  lemma {:induction false} WovenConserves(snapshot: seq<Message>, added: seq<Message>, i: nat, m: Message)
    requires i <= |snapshot|
    ensures multiset(Woven(snapshot, Gaps(snapshot, added), i))[m]
         == multiset(snapshot[i..])[m] + if Place(snapshot, m) >= i then multiset(added)[m] else 0
    decreases |snapshot| - i
  {
    GapConserves(snapshot, added, i, m);
    if i < |snapshot| {
      var gaps := Gaps(snapshot, added);
      CountConcat3(gaps[i], snapshot[i], Woven(snapshot, gaps, i + 1), m);
      SuffixCount(snapshot, i, m);
      WovenConserves(snapshot, added, i + 1, m);
    }
  }

  /** Adding messages adds them all, once per occurrence, and loses nothing. */
  lemma {:induction false} AddingConserves(snapshot: seq<Message>, added: seq<Message>)
    ensures multiset(WithAdded(snapshot, added)) == multiset(snapshot) + multiset(added)
  {
    forall m ensures multiset(WithAdded(snapshot, added))[m] == (multiset(snapshot) + multiset(added))[m] {
      WovenConserves(snapshot, added, 0, m);
      assert snapshot[0..] == snapshot;
    }
  }

  // Without the added messages, the history is the snapshot; they only stand in between.

  /** A message, if it is in `keep`, in front of others. */
  function OneOnly(m: Message, keep: set<Message>, rest: seq<Message>): seq<Message> {
    if m in keep then [m] + rest else rest
  }

  /** The messages of `s` that are in `keep`. */
  function Only(s: seq<Message>, keep: set<Message>): seq<Message> {
    if s == [] then [] else OneOnly(s[0], keep, Only(s[1..], keep))
  }

  lemma {:induction false} OnlyConcat(a: seq<Message>, b: seq<Message>, keep: set<Message>)
    ensures Only(a + b, keep) == Only(a, keep) + Only(b, keep)
  {
    if a == [] {
      assert a + b == b;
    } else {
      OnlyConcat(a[1..], b, keep);
      TailOfConcat(a, b);
      ConcatAssociates([a[0]], Only(a[1..], keep), Only(b, keep));
    }
  }

  lemma {:induction false} OnlyIn(s: seq<Message>, keep: set<Message>)
    ensures forall m :: m in Only(s, keep) <==> m in s && m in keep
  {
    if s != [] {
      OnlyIn(s[1..], keep);
    }
  }

  lemma {:induction false} OnlyNone(s: seq<Message>, keep: set<Message>)
    requires forall m :: m in s ==> m !in keep
    ensures Only(s, keep) == []
  {
    if s != [] {
      OnlyNone(s[1..], keep);
    }
  }

  lemma {:induction false} OnlyWoven(snapshot: seq<Message>, gaps: seq<seq<Message>>, i: nat, keep: set<Message>)
    requires |gaps| == |snapshot| + 1 && i < |snapshot|
    ensures Only(Woven(snapshot, gaps, i), keep)
         == Only(gaps[i], keep) + OneOnly(snapshot[i], keep, Only(Woven(snapshot, gaps, i + 1), keep))
  {
    OnlyConcat(gaps[i], [snapshot[i]] + Woven(snapshot, gaps, i + 1), keep);
  }

  lemma {:induction false} SnapshotIsKept(snapshot: seq<Message>, added: seq<Message>, i: nat)
    requires i <= |snapshot|
    requires forall m :: m in added ==> m !in snapshot
    ensures Only(Woven(snapshot, Gaps(snapshot, added), i), set m | m in snapshot) == snapshot[i..]
    decreases |snapshot| - i
  {
    var keep := set m | m in snapshot;
    GapIsAdded(snapshot, added, i);
    OnlyNone(Gap(snapshot, added, i), keep);
    if i < |snapshot| {
      OnlyWoven(snapshot, Gaps(snapshot, added), i, keep);
      SnapshotIsKept(snapshot, added, i + 1);
    }
  }

  /** The snapshot is a subsequence of the filled-in history: what remains without the added messages. */
  lemma {:induction false} FilledInKeepsOrder(snapshot: seq<Message>, incoming: seq<Message>)
    requires forall m :: m in incoming ==> m !in snapshot
    ensures Only(FilledIn(snapshot, incoming), set m | m in snapshot) == snapshot
  {
    MissingIsIncoming(ExistingIds(snapshot), incoming, |incoming|);
    SnapshotIsKept(snapshot, Missing(snapshot, incoming), 0);
  }

  lemma {:induction false} MissingIsIncoming(ids: set<string>, incoming: seq<Message>, k: nat)
    requires k <= |incoming|
    ensures forall m :: m in MissingUpTo(ids, incoming, k) ==> m in incoming[..k] && m.id !in ids
  {
    if k > 0 {
      MissingIsIncoming(ids, incoming, k - 1);
      assert incoming[..k] == incoming[..k - 1] + [incoming[k - 1]];
    }
  }

  // Where the added messages stand, for any snapshot, by the messages alone.

  /** A message of the snapshot that is put in front of, or not. */
  ghost predicate IsLater(s: Message, m: Message) {
    !s.system && m.Before(s)
  }

  /** Place `b` holds the next message of the snapshot behind place `a`. */
  ghost predicate IsNext(snapshot: seq<Message>, history: seq<Message>, a: nat, b: int) {
    a < b < |history| && history[b] in snapshot && forall c :: a < c < b ==> history[c] !in snapshot
  }

  /** In front of place `a` no message of the snapshot is later, and the next one behind it, if any, is. */
  ghost predicate StandsRight(snapshot: seq<Message>, history: seq<Message>, a: nat)
    requires a < |history|
  {
    (forall b :: 0 <= b < a && history[b] in snapshot ==> !IsLater(history[b], history[a]))
    && forall b :: IsNext(snapshot, history, a, b) ==> IsLater(history[b], history[a])
  }

  lemma {:induction false} StandsInGap(snapshot: seq<Message>, gap: seq<Message>, rest: seq<Message>, a: nat)
    requires a < |gap| && forall k :: 0 <= k < |gap| ==> gap[k] !in snapshot
    requires rest != [] && rest[0] in snapshot && IsLater(rest[0], gap[a])
    ensures StandsRight(snapshot, gap + rest, a)
  {
    var history := gap + rest;
    forall b | IsNext(snapshot, history, a, b) ensures IsLater(history[b], history[a]) {
      assert history[|gap|] == rest[0];
      assert b == |gap|;
    }
  }

  lemma {:induction false} StandsBehind(snapshot: seq<Message>, front: seq<Message>, rest: seq<Message>, a: nat)
    requires a < |rest| && StandsRight(snapshot, rest, a)
    requires forall k :: 0 <= k < |front| && front[k] in snapshot ==> !IsLater(front[k], rest[a])
    ensures StandsRight(snapshot, front + rest, |front| + a)
  {
    var history, n := front + rest, |front|;
    assert forall k :: 0 <= k < |rest| ==> history[n + k] == rest[k];
    forall b | IsNext(snapshot, history, n + a, b) ensures IsLater(history[b], history[n + a]) {
      assert forall c :: a < c < b - n ==> rest[c] == history[n + c];
      assert history[b] == rest[b - n];
      assert IsNext(snapshot, rest, a, b - n);
    }
  }

  lemma {:induction false} StandsInLastGap(snapshot: seq<Message>, gap: seq<Message>, a: nat)
    requires a < |gap| && forall k :: 0 <= k < |gap| ==> gap[k] !in snapshot
    ensures StandsRight(snapshot, gap, a)
  {
  }

  lemma {:induction false} GapIsNoSnapshot(snapshot: seq<Message>, added: seq<Message>, i: nat)
    requires forall m :: m in added ==> m !in snapshot
    ensures forall k :: 0 <= k < |Gap(snapshot, added, i)| ==>
      Gap(snapshot, added, i)[k] !in snapshot && Place(snapshot, Gap(snapshot, added, i)[k]) == i
  {
    GapIsAdded(snapshot, added, i);
    assert forall k :: 0 <= k < |Gap(snapshot, added, i)| ==>
      Gap(snapshot, added, i)[k] in Gap(snapshot, added, i);
  }

  lemma {:induction false} IndexOfParts(gap: seq<Message>, x: Message, behind: seq<Message>, a: nat)
    requires a < |gap| + 1 + |behind|
    ensures (gap + ([x] + behind))[a]
         == if a < |gap| then gap[a] else if a == |gap| then x else behind[a - |gap| - 1]
  {
  }

  /** What is added behind place `i` of the snapshot does not belong in front of it. */
  lemma {:induction false} NotInFront(snapshot: seq<Message>, added: seq<Message>, i: nat, m: Message)
    requires i < |snapshot| && m in Woven(snapshot, Gaps(snapshot, added), i + 1) && m in added
    requires forall m :: m in added ==> m !in snapshot
    ensures !IsLater(snapshot[i], m)
  {
    WovenHas(snapshot, added, i + 1, m);
    NotInSuffix(snapshot, i + 1, m);
  }

  lemma {:induction false} StandsBehindPlace(snapshot: seq<Message>, gap: seq<Message>, x: Message,
      behind: seq<Message>, k: nat)
    requires k < |behind| && StandsRight(snapshot, behind, k) && !IsLater(x, behind[k])
    requires forall j :: 0 <= j < |gap| ==> gap[j] !in snapshot
    ensures StandsRight(snapshot, gap + ([x] + behind), |gap| + 1 + k)
  {
    StandsBehind(snapshot, [x], behind, k);
    StandsBehind(snapshot, gap, [x] + behind, k + 1);
  }

  lemma {:induction false} GapStands(snapshot: seq<Message>, added: seq<Message>, i: nat, w: seq<Message>, a: nat)
    requires i <= |snapshot| && w == Woven(snapshot, Gaps(snapshot, added), i)
    requires a < |Gap(snapshot, added, i)| && forall m :: m in added ==> m !in snapshot
    ensures a < |w| && StandsRight(snapshot, w, a)
  {
    var gap := Gap(snapshot, added, i);
    GapIsNoSnapshot(snapshot, added, i);
    if i == |snapshot| {
      StandsInLastGap(snapshot, gap, a);
    } else {
      StandsInGap(snapshot, gap, [snapshot[i]] + Woven(snapshot, Gaps(snapshot, added), i + 1), a);
    }
  }

  lemma {:induction false} RestStands(snapshot: seq<Message>, added: seq<Message>, i: nat, behind: seq<Message>, k: nat)
    requires i < |snapshot| && behind == Woven(snapshot, Gaps(snapshot, added), i + 1)
    requires k < |behind| && behind[k] in added && forall m :: m in added ==> m !in snapshot
    requires StandsRight(snapshot, behind, k)
    ensures var gap := Gap(snapshot, added, i);
      StandsRight(snapshot, gap + ([snapshot[i]] + behind), |gap| + 1 + k)
  {
    GapIsNoSnapshot(snapshot, added, i);
    NotInFront(snapshot, added, i, behind[k]);
    StandsBehindPlace(snapshot, Gap(snapshot, added, i), snapshot[i], behind, k);
  }

  lemma {:induction false} WovenParts(snapshot: seq<Message>, added: seq<Message>, i: nat)
    requires i < |snapshot|
    ensures Woven(snapshot, Gaps(snapshot, added), i)
         == Gap(snapshot, added, i) + ([snapshot[i]] + Woven(snapshot, Gaps(snapshot, added), i + 1))
  {
  }

  lemma {:induction false} WovenStands(snapshot: seq<Message>, added: seq<Message>, i: nat, w: seq<Message>, a: nat)
    requires i <= |snapshot| && w == Woven(snapshot, Gaps(snapshot, added), i)
    requires a < |w| && w[a] in added && forall m :: m in added ==> m !in snapshot
    ensures StandsRight(snapshot, w, a)
    decreases |snapshot| - i
  {
    var gap := Gap(snapshot, added, i);
    if a < |gap| {
      GapStands(snapshot, added, i, w, a);
    } else if i < |snapshot| {
      var behind := Woven(snapshot, Gaps(snapshot, added), i + 1);
      WovenParts(snapshot, added, i);
      IndexOfParts(gap, snapshot[i], behind, a);
      WovenStands(snapshot, added, i + 1, behind, a - |gap| - 1);
      RestStands(snapshot, added, i, behind, a - |gap| - 1);
    }
  }

  lemma {:induction false} NotInSuffix(s: seq<Message>, i: nat, m: Message)
    requires i <= |s| && m !in s
    ensures m !in s[i..]
  {
  }

  /**
   * Every added message stands directly in front of the first user message of the snapshot that is
   * later, with only other added messages between them, or behind the whole snapshot if none is later.
   */
  lemma {:induction false} FilledInPlaces(snapshot: seq<Message>, incoming: seq<Message>, a: nat)
    requires forall m :: m in incoming ==> m !in snapshot
    requires a < |FilledIn(snapshot, incoming)| && FilledIn(snapshot, incoming)[a] in incoming
    ensures var history := FilledIn(snapshot, incoming);
      (forall b :: 0 <= b < a && history[b] in snapshot ==> history[b].system || !history[a].Before(history[b]))
      && forall b :: IsNext(snapshot, history, a, b) ==> !history[b].system && history[a].Before(history[b])
  {
    var history, added := FilledIn(snapshot, incoming), Missing(snapshot, incoming);
    MissingIsIncoming(ExistingIds(snapshot), incoming, |incoming|);
    HistoryHas(snapshot, added, history[a]);
    WovenStands(snapshot, added, 0, history, a);
    assert forall b :: 0 <= b < a && history[b] in snapshot ==> !IsLater(history[b], history[a]);
    assert forall b :: IsNext(snapshot, history, a, b) ==> IsLater(history[b], history[a]);
  }

  // Without the system messages of the snapshot, the history is in order.

  lemma {:induction false} AscendingConcat(a: seq<Message>, b: seq<Message>)
    requires Ascending(a) && Ascending(b)
    requires forall x, y :: x in a && y in b ==> !y.Before(x)
    ensures Ascending(a + b)
  {
  }

  lemma {:induction false} MissingAscending(ids: set<string>, incoming: seq<Message>, k: nat)
    requires k <= |incoming| && Ascending(incoming)
    ensures Ascending(MissingUpTo(ids, incoming, k))
  {
    if k > 0 {
      MissingAscending(ids, incoming, k - 1);
      MissingIsIncoming(ids, incoming, k - 1);
      if incoming[k - 1].id !in ids {
        AscendingConcat(MissingUpTo(ids, incoming, k - 1), [incoming[k - 1]]);
      }
    }
  }

  lemma {:induction false} GapAscending(snapshot: seq<Message>, added: seq<Message>, i: nat)
    requires Ascending(added)
    ensures Ascending(Gap(snapshot, added, i))
  {
    if added != [] {
      var front := added[..|added| - 1];
      GapAscending(snapshot, front, i);
      GapIsAdded(snapshot, front, i);
      if Place(snapshot, added[|added| - 1]) == i {
        AscendingConcat(Gap(snapshot, front, i), [added[|added| - 1]]);
      }
    }
  }

  /** What is in the history from place `i` on. */
  lemma {:induction false} WovenHas(snapshot: seq<Message>, added: seq<Message>, i: nat, m: Message)
    requires i <= |snapshot| && m in Woven(snapshot, Gaps(snapshot, added), i)
    ensures m in snapshot[i..] || (m in added && Place(snapshot, m) >= i)
  {
    WovenConserves(snapshot, added, i, m);
  }

  /** The messages whose order filling in takes care of. */
  function Ordered(snapshot: seq<Message>, added: seq<Message>): set<Message> {
    (set m | m in snapshot && !m.system) + (set m | m in added)
  }

  ghost predicate UserMessagesAscending(snapshot: seq<Message>) {
    forall i, j :: 0 <= i < j < |snapshot| && !snapshot[i].system && !snapshot[j].system
      ==> !snapshot[j].Before(snapshot[i])
  }

  lemma {:induction false} LaterInSnapshot(snapshot: seq<Message>, i: nat, y: Message)
    requires UserMessagesAscending(snapshot) && i < |snapshot| && !snapshot[i].system
    requires y in snapshot[i + 1..] && !y.system
    ensures !y.Before(snapshot[i])
  {
    var j :| 0 <= j < |snapshot[i + 1..]| && snapshot[i + 1..][j] == y;
    assert snapshot[i + 1 + j] == y;
  }

  lemma {:induction false} InSuffix(s: seq<Message>, i: nat, y: Message)
    requires i <= |s| && y in s[i..]
    ensures y in s
  {
  }

  /** What is behind gap `i` is not earlier than the user message there. */
  lemma {:induction false} NotEarlierThanPlace(snapshot: seq<Message>, added: seq<Message>, i: nat, y: Message)
    requires UserMessagesAscending(snapshot) && i < |snapshot| && !snapshot[i].system
    requires y in Woven(snapshot, Gaps(snapshot, added), i + 1) && y in Ordered(snapshot, added)
    requires forall m :: m in added ==> m !in snapshot
    ensures !y.Before(snapshot[i])
  {
    WovenHas(snapshot, added, i + 1, y);
    if y in snapshot[i + 1..] {
      InSuffix(snapshot, i + 1, y);
      LaterInSnapshot(snapshot, i, y);
    }
  }

  /** Nothing behind gap `i` is earlier than a message in the gap or than the user message behind it. */
  lemma {:induction false} NothingEarlierBehind(snapshot: seq<Message>, added: seq<Message>, i: nat, x: Message,
      y: Message)
    requires UserMessagesAscending(snapshot) && i < |snapshot|
    requires y in Woven(snapshot, Gaps(snapshot, added), i + 1) && y in Ordered(snapshot, added)
    requires forall m :: m in added ==> m !in snapshot
    requires Place(snapshot, x) == i || (x == snapshot[i] && !x.system)
    ensures !y.Before(x)
  {
    assert !snapshot[i].system && (x == snapshot[i] || x.Before(snapshot[i]));
    NotEarlierThanPlace(snapshot, added, i, y);
  }

  lemma {:induction false} GapBeforeRest(snapshot: seq<Message>, added: seq<Message>, i: nat, own: seq<Message>,
      rest: seq<Message>)
    requires UserMessagesAscending(snapshot) && Ascending(added) && i < |snapshot|
    requires forall m :: m in added ==> m !in snapshot
    requires own == if snapshot[i].system then [] else [snapshot[i]]
    requires Ascending(rest)
    requires forall y :: y in rest ==>
      y in Woven(snapshot, Gaps(snapshot, added), i + 1) && y in Ordered(snapshot, added)
    ensures Ascending(Gap(snapshot, added, i) + (own + rest))
  {
    var gap := Gap(snapshot, added, i);
    GapIsAdded(snapshot, added, i);
    GapAscending(snapshot, added, i);
    forall x, y | (x in gap || x in own) && y in rest ensures !y.Before(x) {
      NothingEarlierBehind(snapshot, added, i, x, y);
    }
    AscendingConcat(own, rest);
    AscendingConcat(gap, own + rest);
  }

  lemma {:induction false} WovenAscending(snapshot: seq<Message>, added: seq<Message>, i: nat)
    requires UserMessagesAscending(snapshot) && Ascending(added) && i <= |snapshot|
    requires forall m :: m in added ==> m !in snapshot
    ensures Ascending(Only(Woven(snapshot, Gaps(snapshot, added), i), Ordered(snapshot, added)))
    decreases |snapshot| - i
  {
    var keep := Ordered(snapshot, added);
    GapIsAdded(snapshot, added, i);
    OnlyAll(Gap(snapshot, added, i), keep);
    if i == |snapshot| {
      GapAscending(snapshot, added, i);
    } else {
      var rest := Woven(snapshot, Gaps(snapshot, added), i + 1);
      WovenAscending(snapshot, added, i + 1);
      OnlyWoven(snapshot, Gaps(snapshot, added), i, keep);
      OnlyIn(rest, keep);
      assert snapshot[i] in keep <==> !snapshot[i].system;
      GapBeforeRest(snapshot, added, i, if snapshot[i].system then [] else [snapshot[i]], Only(rest, keep));
    }
  }

  /** A message in gap `i` is earlier than every user message of the snapshot behind the gap. */
  lemma {:induction false} EarlierThanRest(snapshot: seq<Message>, added: seq<Message>, i: nat, m: Message, y: Message)
    requires UserMessagesAscending(snapshot) && i < |snapshot| && Place(snapshot, m) == i
    requires forall m :: m in added ==> m !in snapshot
    requires y in snapshot && !y.system
    requires y == snapshot[i] || y in Woven(snapshot, Gaps(snapshot, added), i + 1)
    ensures m.Before(y)
  {
    if y != snapshot[i] {
      NotEarlierThanPlace(snapshot, added, i, y);
    }
  }

  /** What stands in front of what: an added message and a user message of the snapshot. */
  lemma {:induction false} WovenFront(snapshot: seq<Message>, added: seq<Message>, i: nat, w: seq<Message>, a: nat,
      b: nat)
    requires UserMessagesAscending(snapshot) && i <= |snapshot| && w == Woven(snapshot, Gaps(snapshot, added), i)
    requires forall m :: m in added ==> m !in snapshot
    requires a < |w| && b < |w| && w[a] in added && w[b] in snapshot && !w[b].system
    ensures a < b <==> w[a].Before(w[b])
    decreases |snapshot| - i
  {
    var gap := Gap(snapshot, added, i);
    GapIsNoSnapshot(snapshot, added, i);
    if i < |snapshot| {
      var behind := Woven(snapshot, Gaps(snapshot, added), i + 1);
      IndexOfParts(gap, snapshot[i], behind, a);
      IndexOfParts(gap, snapshot[i], behind, b);
      if a < |gap| {
        EarlierThanRest(snapshot, added, i, w[a], w[b]);
      } else if b == |gap| {
        NotInFront(snapshot, added, i, w[a]);
      } else {
        WovenFront(snapshot, added, i + 1, behind, a - |gap| - 1, b - |gap| - 1);
      }
    }
  }

  /** An added message is in front of a user message of the channel exactly if it is earlier. */
  lemma {:induction false} FilledInFront(snapshot: seq<Message>, incoming: seq<Message>, a: nat, b: nat)
    requires UserMessagesAscending(snapshot) && forall m :: m in incoming ==> m !in snapshot
    requires var history := FilledIn(snapshot, incoming);
      a < |history| && b < |history| && history[a] in incoming && history[b] in snapshot && !history[b].system
    ensures var history := FilledIn(snapshot, incoming); a < b <==> history[a].Before(history[b])
  {
    var added := Missing(snapshot, incoming);
    MissingIsIncoming(ExistingIds(snapshot), incoming, |incoming|);
    HistoryHas(snapshot, added, FilledIn(snapshot, incoming)[a]);
    WovenFront(snapshot, added, 0, FilledIn(snapshot, incoming), a, b);
  }

  lemma {:induction false} OnlyAll(s: seq<Message>, keep: set<Message>)
    requires forall m :: m in s ==> m in keep
    ensures Only(s, keep) == s
  {
    if s != [] {
      OnlyAll(s[1..], keep);
    }
  }

  /**
   * If the user messages of the channel and the incoming messages are in order, then so are, after
   * filling in, the user messages that were there and all the added ones together.
   */
  lemma {:induction false} FilledInAscending(snapshot: seq<Message>, incoming: seq<Message>)
    requires UserMessagesAscending(snapshot) && Ascending(incoming)
    requires forall m :: m in incoming ==> m !in snapshot
    ensures Ascending(Only(FilledIn(snapshot, incoming), Ordered(snapshot, Missing(snapshot, incoming))))
  {
    var ids := ExistingIds(snapshot);
    MissingIsIncoming(ids, incoming, |incoming|);
    MissingAscending(ids, incoming, |incoming|);
    WovenAscending(snapshot, Missing(snapshot, incoming), 0);
  }

  /** Exactly the messages whose id is not on a user message are added, each once per occurrence. */
  lemma {:induction false} FilledInAdds(snapshot: seq<Message>, incoming: seq<Message>, m: Message)
    ensures multiset(FilledIn(snapshot, incoming))[m]
         == multiset(snapshot)[m] + if m.id in ExistingIds(snapshot) then 0 else multiset(incoming)[m]
  {
    AddingConserves(snapshot, Missing(snapshot, incoming));
    MissingCount(ExistingIds(snapshot), incoming, |incoming|, m);
    OccurrencesAre(incoming, |incoming|, m);
    assert incoming[..|incoming|] == incoming;
    assert multiset(FilledIn(snapshot, incoming))[m]
        == multiset(snapshot)[m] + multiset(Missing(snapshot, incoming))[m];
  }

  // ----- One step of filling in -------------------------------------------------------------------

  lemma {:induction false} DistinctIndices(s: seq<Message>, i: nat, j: nat)
    requires Distinct(s) && i < j < |s|
    ensures s[i] != s[j]
  {
    assert s == s[..j] + s[j..];
    assert s[i] in s[..j] && s[j] in s[j..];
    assert multiset(s)[s[j]] == multiset(s[..j])[s[j]] + multiset(s[j..])[s[j]];
  }

  lemma {:induction false} GapsSnoc(snapshot: seq<Message>, added: seq<Message>, m: Message)
    ensures var gaps, p := Gaps(snapshot, added), Place(snapshot, m);
      Gaps(snapshot, added + [m]) == gaps[p := gaps[p] + [m]]
  {
    assert (added + [m])[..|added|] == added;
    var gaps, p := Gaps(snapshot, added), Place(snapshot, m);
    forall i | 0 <= i <= |snapshot|
      ensures Gaps(snapshot, added + [m])[i] == gaps[p := gaps[p] + [m]][i]
    {
      assert Gap(snapshot, added + [m], i) == Gap(snapshot, added, i) + if i == p then [m] else [];
    }
  }

  /** A change to a gap is not seen behind it. */
  lemma {:induction false} WovenBehind(snapshot: seq<Message>, gaps: seq<seq<Message>>, p: nat, gap: seq<Message>,
      i: nat)
    requires |gaps| == |snapshot| + 1 && p < i <= |snapshot|
    ensures Woven(snapshot, gaps[p := gap], i) == Woven(snapshot, gaps, i)
    decreases |snapshot| - i
  {
    if i < |snapshot| {
      WovenBehind(snapshot, gaps, p, gap, i + 1);
    }
  }

  lemma {:induction false} Reassociate(a: seq<Message>, b: seq<Message>, c: seq<Message>, d: seq<Message>)
    ensures a + (b + (c + d)) == a + (b + c) + d
  {
  }

  /** A message in the last gap comes after everything that is there. */
  lemma {:induction false} WovenAtEnd(snapshot: seq<Message>, gaps: seq<seq<Message>>, m: Message, i: nat)
    requires |gaps| == |snapshot| + 1 && i <= |snapshot|
    ensures Woven(snapshot, gaps[|snapshot| := gaps[|snapshot|] + [m]], i) == Woven(snapshot, gaps, i) + [m]
    decreases |snapshot| - i
  {
    if i < |snapshot| {
      WovenAtEnd(snapshot, gaps, m, i + 1);
      Reassociate(gaps[i], [snapshot[i]], Woven(snapshot, gaps, i + 1), [m]);
    }
  }

  lemma {:induction false} InsertBeforeHead(x: Message, s: seq<Message>, m: Message)
    ensures Apply([x] + s, InsertBefore(x, m)) == [m] + ([x] + s)
  {
    IndexOfIs([x] + s, x, 0);
  }

  /** Inserting before `x` in a list that starts with a part without `x`. */
  lemma {:induction false} InsertBehindGap(gap: seq<Message>, y: Message, rest: seq<Message>, x: Message, m: Message)
    requires x !in gap
    ensures Apply(gap + ([y] + rest), InsertBefore(x, m))
         == if x == y then gap + [m] + ([y] + rest) else gap + ([y] + Apply(rest, InsertBefore(x, m)))
  {
    ApplyBack(gap, [y] + rest, InsertBefore(x, m));
    if x == y {
      InsertBeforeHead(x, rest, m);
      assert gap + [m] + ([y] + rest) == gap + ([m] + ([y] + rest));
    } else {
      ApplyBack([y], rest, InsertBefore(x, m));
    }
  }

  /** Putting a message in front of `snapshot[p]` puts it at the end of the gap there. */
  lemma {:induction false} WovenInsert(snapshot: seq<Message>, gaps: seq<seq<Message>>, p: nat, m: Message, i: nat)
    requires |gaps| == |snapshot| + 1 && i <= p < |snapshot|
    requires Distinct(snapshot) && forall j :: 0 <= j <= |snapshot| ==> snapshot[p] !in gaps[j]
    ensures Woven(snapshot, gaps[p := gaps[p] + [m]], i)
         == Apply(Woven(snapshot, gaps, i), InsertBefore(snapshot[p], m))
    decreases |snapshot| - i
  {
    InsertBehindGap(gaps[i], snapshot[i], Woven(snapshot, gaps, i + 1), snapshot[p], m);
    if i == p {
      WovenBehind(snapshot, gaps, p, gaps[p] + [m], i + 1);
    } else {
      DistinctIndices(snapshot, i, p);
      WovenInsert(snapshot, gaps, p, m, i + 1);
    }
  }

  lemma {:induction false} GapIsAdded(snapshot: seq<Message>, added: seq<Message>, i: nat)
    ensures forall m :: m in Gap(snapshot, added, i) <==> m in added && Place(snapshot, m) == i
  {
    if added != [] {
      GapIsAdded(snapshot, added[..|added| - 1], i);
    }
  }

  /** The call the loop makes for a message that is missing. */
  function FillOp(snapshot: seq<Message>, lastMsg: Message, msg: Message): Op<Message> {
    var p := Place(snapshot, msg);
    if p < |snapshot| then InsertBefore(snapshot[p], msg) else InsertAfter(lastMsg, msg)
  }

  lemma {:induction false} InsertAfterLast(s: seq<Message>, m: Message)
    requires s != [] && multiset(s)[s[|s| - 1]] <= 1
    ensures Apply(s, InsertAfter(s[|s| - 1], m)) == s + [m]
  {
    var front, last := s[..|s| - 1], s[|s| - 1];
    assert s == front + [last];
    assert last !in front;
    IndexOfIs(s, last, |s| - 1);
  }

  lemma {:induction false} OriginalIsNotAdded(snapshot: seq<Message>, added: seq<Message>, k: nat)
    requires Distinct(snapshot + added) && k < |snapshot|
    ensures snapshot[k] !in added
  {
    var x := snapshot[k];
    assert multiset(snapshot + added)[x] == multiset(snapshot)[x] + multiset(added)[x];
  }

  lemma {:induction false} HistoryHas(snapshot: seq<Message>, added: seq<Message>, m: Message)
    ensures m in WithAdded(snapshot, added) <==> m in snapshot || m in added
  {
    AddingConserves(snapshot, added);
    assert m in multiset(WithAdded(snapshot, added)) <==> m in multiset(snapshot) + multiset(added);
  }

  lemma {:induction false} FillInside(snapshot: seq<Message>, added: seq<Message>, m: Message)
    requires Distinct(snapshot + added) && Place(snapshot, m) < |snapshot|
    ensures Apply(WithAdded(snapshot, added), InsertBefore(snapshot[Place(snapshot, m)], m))
         == WithAdded(snapshot, added + [m])
  {
    var gaps, p := Gaps(snapshot, added), Place(snapshot, m);
    DistinctPrefix(snapshot, added);
    forall j | 0 <= j <= |snapshot| ensures snapshot[p] !in gaps[j] {
      GapIsAdded(snapshot, added, j);
      OriginalIsNotAdded(snapshot, added, p);
    }
    WovenInsert(snapshot, gaps, p, m, 0);
    GapsSnoc(snapshot, added, m);
  }

  lemma {:induction false} FillAtEnd(snapshot: seq<Message>, added: seq<Message>, m: Message)
    requires Place(snapshot, m) == |snapshot|
    ensures WithAdded(snapshot, added + [m]) == WithAdded(snapshot, added) + [m]
  {
    WovenAtEnd(snapshot, Gaps(snapshot, added), m, 0);
    GapsSnoc(snapshot, added, m);
  }

  /** On a list without a limit, the call puts the message where it belongs. */
  lemma {:induction false} FillOpAdds(snapshot: seq<Message>, added: seq<Message>, m: Message)
    requires snapshot != [] && Distinct(snapshot + added)
    ensures var w := WithAdded(snapshot, added);
      |w| > 0 && Apply(w, FillOp(snapshot, w[|w| - 1], m)) == WithAdded(snapshot, added + [m])
      && FillOp(snapshot, w[|w| - 1], m).needle in w
  {
    var w := WithAdded(snapshot, added);
    HistoryHas(snapshot, added, snapshot[0]);
    if Place(snapshot, m) < |snapshot| {
      FillInside(snapshot, added, m);
      HistoryHas(snapshot, added, snapshot[Place(snapshot, m)]);
    } else {
      FillAtEnd(snapshot, added, m);
      AddingConserves(snapshot, added);
      assert multiset(w) == multiset(snapshot + added);
      InsertAfterLast(w, m);
    }
  }

  lemma {:induction false} LastStays(s: seq<Message>, needle: Message, m: Message)
    requires needle in s
    ensures var r := Apply(s, InsertBefore(needle, m)); |r| > 0 && r[|r| - 1] == s[|s| - 1]
  {
  }

  /**
   * One call of the loop on the queue, with the messages `app` that other threads appended behind
   * the history: the queue stays the end of the history followed by `app`, whatever was forgotten.
   */
  lemma {:induction false} FillStep(limit: nat, snapshot: seq<Message>, added: seq<Message>, app: seq<Message>,
      m: Message)
    requires snapshot != [] && Distinct(snapshot + added + app)
    ensures var w := WithAdded(snapshot, added); var w' := WithAdded(snapshot, added + [m]);
      |w| > 0 && |w'| > 0
      && var op := FillOp(snapshot, w[|w| - 1], m);
         ApplyLimited(limit, KeepLast(limit, w + app), op) == KeepLast(limit, w' + app)
         && w'[|w'| - 1] == if op.InsertAfter? then m else w[|w| - 1]
  {
    var w := WithAdded(snapshot, added);
    AddingConserves(snapshot, added);
    DistinctPrefix(snapshot + added, app);
    FillOpAdds(snapshot, added, m);
    var op := FillOp(snapshot, w[|w| - 1], m);
    ApplyFront(w, app, op);
    assert multiset(w + app) == multiset(snapshot + added + app);
    UniqueNeedleStaysInStep(limit, w + app, op);
    RefinesExactly(limit, w + app, op);
    if op.InsertBefore? {
      LastStays(w, op.needle, m);
    } else {
      FillAtEnd(snapshot, added, m);
    }
  }

  lemma {:induction false} DistinctPrefix(a: seq<Message>, b: seq<Message>)
    requires Distinct(a + b)
    ensures Distinct(a)
  {
    forall m ensures multiset(a)[m] <= 1 {
      assert multiset(a + b)[m] == multiset(a)[m] + multiset(b)[m];
    }
  }

  // ----- Runs with other threads appending ---------------------------------------------------------

  lemma {:induction false} NothingToWeave(snapshot: seq<Message>, i: nat)
    requires i <= |snapshot|
    ensures Woven(snapshot, Gaps(snapshot, []), i) == snapshot[i..]
    decreases |snapshot| - i
  {
    if i < |snapshot| {
      NothingToWeave(snapshot, i + 1);
    }
  }

  lemma {:induction false} NothingAdded(snapshot: seq<Message>)
    ensures WithAdded(snapshot, []) == snapshot
  {
    NothingToWeave(snapshot, 0);
  }

  lemma {:induction false} AllInOneGap(added: seq<Message>)
    ensures Gap([], added, 0) == added
  {
    if added != [] {
      AllInOneGap(added[..|added| - 1]);
    }
  }

  lemma {:induction false} AllMissing(incoming: seq<Message>, k: nat)
    requires k <= |incoming|
    ensures MissingUpTo({}, incoming, k) == incoming[..k]
  {
    if k > 0 {
      AllMissing(incoming, k - 1);
    }
  }

  /** Everything is missing from an empty channel. */
  lemma {:induction false} FilledInFromEmpty(incoming: seq<Message>)
    ensures Missing([], incoming) == incoming == FilledIn([], incoming)
  {
    assert ExistingIds([]) == {} && incoming[..|incoming|] == incoming;
    AllMissing(incoming, |incoming|);
    AllInOneGap(incoming);
  }

  /** How often a message is among the first `k`. */
  function Occurrences(s: seq<Message>, k: nat, m: Message): nat
    requires k <= |s|
  {
    if k == 0 then 0 else Occurrences(s, k - 1, m) + if s[k - 1] == m then 1 else 0
  }

  lemma {:induction false} OccurrencesAre(s: seq<Message>, k: nat, m: Message)
    requires k <= |s|
    ensures multiset(s[..k])[m] == Occurrences(s, k, m)
  {
    if k > 0 {
      OccurrencesAre(s, k - 1, m);
      assert s[..k] == s[..k - 1] + [s[k - 1]];
      SnocCounts(s[..k - 1], s[k - 1]);
    }
  }

  lemma {:induction false} MissingGrows(ids: set<string>, incoming: seq<Message>, k: nat, m: Message)
    requires 0 < k <= |incoming|
    ensures multiset(MissingUpTo(ids, incoming, k))[m]
         == multiset(MissingUpTo(ids, incoming, k - 1))[m] + if incoming[k - 1] == m && m.id !in ids then 1 else 0
  {
    SnocCounts(MissingUpTo(ids, incoming, k - 1), incoming[k - 1]);
  }

  /** How often a message is missing: as often as it comes in, unless its id is there. */
  lemma {:induction false} MissingCount(ids: set<string>, incoming: seq<Message>, k: nat, m: Message)
    requires k <= |incoming|
    ensures multiset(MissingUpTo(ids, incoming, k))[m] == if m.id in ids then 0 else Occurrences(incoming, k, m)
  {
    if k > 0 {
      MissingCount(ids, incoming, k - 1, m);
      MissingGrows(ids, incoming, k, m);
    }
  }

  lemma {:induction false} AppendedCount(schedule: seq<seq<Message>>, k: nat, m: Message)
    requires k <= |schedule|
    ensures multiset(Appended(schedule, k))[m] <= multiset(AllAppended(schedule))[m]
    decreases |schedule| - k
  {
    if k < |schedule| {
      AppendedCount(schedule, k + 1, m);
    }
  }

  lemma {:induction false} PrefixCount(s: seq<Message>, k: nat, m: Message)
    requires k <= |s|
    ensures multiset(s[..k])[m] <= multiset(s)[m]
  {
    assert s == s[..k] + s[k..];
  }

  lemma {:induction false} Count3(a: seq<Message>, b: seq<Message>, c: seq<Message>, m: Message)
    ensures multiset(a + b + c)[m] == multiset(a)[m] + multiset(b)[m] + multiset(c)[m]
  {
  }

  /** At every moment of a run, no message is there twice. */
  lemma {:induction false} StepDistinct(snapshot: seq<Message>, ids: set<string>, incoming: seq<Message>,
      schedule: seq<seq<Message>>, k: nat)
    requires Distinct(snapshot + incoming + AllAppended(schedule))
    requires k <= |incoming| && k < |schedule|
    ensures Distinct(snapshot + MissingUpTo(ids, incoming, k) + Appended(schedule, k + 1))
  {
    var added, app := MissingUpTo(ids, incoming, k), Appended(schedule, k + 1);
    forall m ensures multiset(snapshot + added + app)[m] <= 1 {
      MissingCount(ids, incoming, k, m);
      OccurrencesAre(incoming, k, m);
      PrefixCount(incoming, k, m);
      AppendedCount(schedule, k + 1, m);
      Count3(snapshot, added, app, m);
      Count3(snapshot, incoming, AllAppended(schedule), m);
    }
  }

  /** After `k` incoming messages: the history with the missing ones of them, then what was appended. */
  ghost predicate FilledUpTo(limit: nat, snapshot: seq<Message>, incoming: seq<Message>, schedule: seq<seq<Message>>,
                             k: nat, lastMsg: Message, history: seq<Message>)
    requires k <= |incoming| && k < |schedule|
  {
    var w := WithAdded(snapshot, MissingUpTo(ExistingIds(snapshot), incoming, k));
    w != [] && lastMsg == w[|w| - 1] && history == KeepLast(limit, w + Appended(schedule, k + 1))
  }

  /** The message that the loop regards as the end of the history after `msg`. */
  function NextLast(snapshot: seq<Message>, lastMsg: Message, msg: Message): Message {
    if Place(snapshot, msg) < |snapshot| then lastMsg else msg
  }

  lemma {:induction false} AppendedBehind(limit: nat, w: seq<Message>, app: seq<Message>, more: seq<Message>)
    ensures KeepLast(limit, KeepLast(limit, w + app) + more) == KeepLast(limit, w + (app + more))
  {
    PushBackRefines(limit, w + app, more);
    assert w + app + more == w + (app + more);
  }

  /** A round of the loop for a known message, and what other threads append before the next one. */
  lemma {:induction false} FillRoundKnown(limit: nat, snapshot: seq<Message>, incoming: seq<Message>,
      schedule: seq<seq<Message>>,
                       k: nat, lastMsg: Message, history: seq<Message>)
    requires |schedule| == |incoming| + 1 && k < |incoming|
    requires FilledUpTo(limit, snapshot, incoming, schedule, k, lastMsg, history)
    requires incoming[k].id in ExistingIds(snapshot)
    ensures FilledUpTo(limit, snapshot, incoming, schedule, k + 1, lastMsg, KeepLast(limit, history + schedule[k + 1]))
  {
    var added := MissingUpTo(ExistingIds(snapshot), incoming, k);
    assert MissingUpTo(ExistingIds(snapshot), incoming, k + 1) == added;
    AppendedBehind(limit, WithAdded(snapshot, added), Appended(schedule, k + 1), schedule[k + 1]);
  }

  /** ... and for a missing one. */
  lemma {:induction false} FillRoundMissing(limit: nat, snapshot: seq<Message>, incoming: seq<Message>,
      schedule: seq<seq<Message>>,
                         k: nat, lastMsg: Message, history: seq<Message>)
    requires |schedule| == |incoming| + 1 && k < |incoming| && snapshot != []
    requires Distinct(snapshot + incoming + AllAppended(schedule))
    requires FilledUpTo(limit, snapshot, incoming, schedule, k, lastMsg, history)
    requires incoming[k].id !in ExistingIds(snapshot)
    ensures var next := ApplyLimited(limit, history, FillOp(snapshot, lastMsg, incoming[k]));
      FilledUpTo(limit, snapshot, incoming, schedule, k + 1, NextLast(snapshot, lastMsg, incoming[k]),
                 KeepLast(limit, next + schedule[k + 1]))
  {
    var ids, app := ExistingIds(snapshot), Appended(schedule, k + 1);
    var added := MissingUpTo(ids, incoming, k);
    StepDistinct(snapshot, ids, incoming, schedule, k);
    FillStep(limit, snapshot, added, app, incoming[k]);
    assert MissingUpTo(ids, incoming, k + 1) == added + [incoming[k]];
    AppendedBehind(limit, WithAdded(snapshot, added + [incoming[k]]), app, schedule[k + 1]);
  }

  /** Before the first round. */
  lemma {:induction false} FillStart(limit: nat, snapshot: seq<Message>, incoming: seq<Message>,
      schedule: seq<seq<Message>>)
    requires snapshot != [] && schedule != []
    ensures FilledUpTo(limit, snapshot, incoming, schedule, 0, snapshot[|snapshot| - 1],
                       KeepLast(limit, snapshot + schedule[0]))
  {
    NothingAdded(snapshot);
    assert Appended(schedule, 1) == schedule[0];
  }

  /** The history that was filled in around what other threads appended. */
  ghost predicate Filled(limit: nat, snapshot: seq<Message>, incoming: seq<Message>, schedule: seq<seq<Message>>,
                         history: seq<Message>)
  {
    history == KeepLast(limit, FilledIn(snapshot, incoming) + AllAppended(schedule))
  }

  /** With nothing incoming, only what other threads append is added. */
  lemma {:induction false} FillNothing(limit: nat, snapshot: seq<Message>, schedule: seq<seq<Message>>)
    requires |schedule| == 1
    ensures Filled(limit, snapshot, [], schedule, KeepLast(limit, snapshot + schedule[0]))
  {
    NothingAdded(snapshot);
    assert Appended(schedule, 1) == schedule[0];
  }

  /** A channel, as far as its history goes. */
  class Channel {
    const messages: LimitedQueue<Message>

    ghost predicate Valid()
      reads messages.buffer
    {
      messages.Valid() && messages.limit > 0
    }

    ghost function History(): seq<Message>
      requires Valid()
      reads messages.buffer, messages.buffer.slots
    {
      messages.Contents()
    }

    constructor (limit: nat)
      requires limit > 0
      ensures Valid() && messages.limit == limit && History() == []
      ensures fresh(messages.buffer) && fresh(messages.buffer.slots)
    {
      messages := new LimitedQueue(limit);
    }

    /** Messages that other threads add, one call of `addMessage` each. */
    method AppendAll(items: seq<Message>)
      requires Valid()
      modifies messages.buffer, messages.buffer.slots
      ensures Valid() && History() == KeepLast(messages.limit, old(History()) + items)
    {
      ghost var was, limit := History(), messages.limit;
      assert was + items[..0] == was;
      for i := 0 to |items|
        invariant Valid() && History() == KeepLast(limit, was + items[..i])
      {
        assert was + items[..i + 1] == was + items[..i] + [items[i]];
        PushBackRefines(limit, was + items[..i], [items[i]]);
        var full, deleted := messages.PushBack(items[i], items[i]);
      }
      assert items[..|items|] == items;
    }

    /** The scan for the first later message, and the insertion next to it or at the end. */
    method InsertInOrder(snapshot: seq<Message>, lastMsg: Message, msg: Message) returns (last: Message)
      requires Valid()
      modifies messages.buffer, messages.buffer.slots
      ensures Valid()
      ensures History() == ApplyLimited(messages.limit, old(History()), FillOp(snapshot, lastMsg, msg))
      ensures last == NextLast(snapshot, lastMsg, msg)
    {
      var i := 0;
      while i < |snapshot| && (snapshot[i].system || !msg.Before(snapshot[i]))
        invariant i <= |snapshot| && Place(snapshot, msg) == PlaceFrom(snapshot, msg, i)
      {
        i := i + 1;
      }
      var inserted;
      if i < |snapshot| {
        inserted := messages.InsertBefore(snapshot[i], msg);
        last := lastMsg;
      } else {
        inserted := messages.InsertAfter(lastMsg, msg);
        last := msg;
      }
    }

    /** The ids in the channel that make an incoming message a known one. */
    method CollectIds(snapshot: seq<Message>) returns (ids: set<string>)
      ensures ids == ExistingIds(snapshot)
    {
      ids := {};
      for i := 0 to |snapshot|
        invariant ids == ExistingIds(snapshot[..i])
      {
        assert snapshot[..i + 1] == snapshot[..i] + [snapshot[i]];
        if !snapshot[i].system && snapshot[i].id != "" {
          ids := ids + {snapshot[i].id};
        }
      }
      assert snapshot[..|snapshot|] == snapshot;
    }

    /** Nothing was there, so the incoming messages go to the front as they are. */
    method FillEmpty(incoming: seq<Message>, schedule: seq<seq<Message>>)
      requires Valid() && schedule != [] && History() == KeepLast(messages.limit, [] + schedule[0])
      modifies messages.buffer, messages.buffer.slots
      ensures Valid() && History() == KeepLast(messages.limit, incoming + AllAppended(schedule))
    {
      assert [] + schedule[0] == schedule[0] == Appended(schedule, 1);
      PushFrontRefines(messages.limit, incoming, schedule[0]);
      var pushed := messages.PushFront(incoming);
      for k := 1 to |schedule|
        invariant Valid() && History() == KeepLast(messages.limit, incoming + Appended(schedule, k))
      {
        AppendedBehind(messages.limit, incoming, Appended(schedule, k), schedule[k]);
        AppendAll(schedule[k]);
      }
    }

    /**
     * Fills in messages that were missed.  The queue is locked only for single operations;
     * `schedule[k]` are the messages that other threads append after `k` incoming messages were
     * processed.  However they fall, the result is the end of the filled-in history followed by
     * them.  `signalled` is whether the channel announces the change.
     */
    method FillInMissingMessages(incoming: seq<Message>, schedule: seq<seq<Message>>) returns (signalled: bool)
      requires Valid() && |schedule| == |incoming| + 1
      requires Distinct(History() + incoming + AllAppended(schedule))
      modifies messages.buffer, messages.buffer.slots
      ensures Valid() && Filled(messages.limit, old(History()), incoming, schedule, History())
      ensures signalled <==> Missing(old(History()), incoming) != []
    {
      ghost var limit := messages.limit;
      var snapshot := messages.GetSnapshot();
      AppendAll(schedule[0]);
      if incoming == [] {
        FillNothing(limit, snapshot, schedule);
        return false;
      }
      if snapshot == [] {
        FilledInFromEmpty(incoming);
        FillEmpty(incoming, schedule);
        return true;
      }
      var ids := CollectIds(snapshot);
      var lastMsg := snapshot[|snapshot| - 1];
      signalled := false;
      FillStart(limit, snapshot, incoming, schedule);
      for k := 0 to |incoming|
        invariant Valid() && FilledUpTo(limit, snapshot, incoming, schedule, k, lastMsg, History())
        invariant signalled <==> MissingUpTo(ids, incoming, k) != []
      {
        if incoming[k].id in ids {
          FillRoundKnown(limit, snapshot, incoming, schedule, k, lastMsg, History());
        } else {
          FillRoundMissing(limit, snapshot, incoming, schedule, k, lastMsg, History());
          signalled := true;
          lastMsg := InsertInOrder(snapshot, lastMsg, incoming[k]);
        }
        AppendAll(schedule[k + 1]);
      }
    }
  }
}
