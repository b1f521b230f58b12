/** Merging the histories of several channels into an empty one (`Channel::mergeFrom`, src/common/Channel.cpp). */
module ChannelMerging {
  import opened Arithmetic
  import opened Channels
  import opened Sequences
  import opened Wrappers

  /** The messages of `merged` that came from source `i`. */
  function FromSource(merged: seq<Message>, origins: seq<nat>, i: nat): seq<Message>
    requires |merged| == |origins|
  {
    if merged == [] then []
    else (if origins[0] == i then [merged[0]] else []) + FromSource(merged[1..], origins[1..], i)
  }

  /** Every source is what is left of it followed by what was taken from it, in its own order. */
  ghost predicate Accounted(sources: seq<seq<Message>>, left: seq<seq<Message>>, origins: seq<nat>,
      merged: seq<Message>) {
    |left| == |sources| && |origins| == |merged|
    && (forall k :: 0 <= k < |origins| ==> origins[k] < |sources|)
    && forall i :: 0 <= i < |sources| ==> left[i] + FromSource(merged, origins, i) == sources[i]
  }

  /** Nothing that was left is later than anything that was taken. */
  ghost predicate NewestTaken(left: seq<seq<Message>>, merged: seq<Message>) {
    forall i, x, y :: 0 <= i < |left| && x in left[i] && y in merged ==> !y.Before(x)
  }

  ghost predicate Merged(sources: seq<seq<Message>>, left: seq<seq<Message>>, origins: seq<nat>, merged: seq<Message>) {
    Accounted(sources, left, origins, merged) && Ascending(merged) && NewestTaken(left, merged)
    && Total(left) + |merged| == Total(sources)
  }

  ghost predicate AllAscending(sources: seq<seq<Message>>) {
    forall i :: 0 <= i < |sources| ==> Ascending(sources[i])
  }

  /** The sources without the last message of source `i`. */
  function Chopped(sources: seq<seq<Message>>, i: nat): seq<seq<Message>>
    requires i < |sources| && sources[i] != []
  {
    sources[i := sources[i][..|sources[i]| - 1]]
  }

  function Total(lists: seq<seq<Message>>): nat {
    if lists == [] then 0 else Total(lists[..|lists| - 1]) + |lists[|lists| - 1]|
  }

  function Last(s: seq<Message>): Message
    requires s != []
  {
    s[|s| - 1]
  }

  /** The next message is the last one of source `i`; no source ends with a later one. */
  ghost predicate IsNewest(left: seq<seq<Message>>, i: nat) {
    i < |left| && left[i] != []
    && forall j :: 0 <= j < |left| && left[j] != [] ==> !Last(left[i]).Before(Last(left[j]))
  }

  lemma {:induction false} TotalOfUpdate(lists: seq<seq<Message>>, i: nat, s: seq<Message>)
    requires i < |lists|
    ensures Total(lists[i := s]) == Total(lists) - |lists[i]| + |s|
  {
    var front := lists[..|lists| - 1];
    if i < |front| {
      TotalOfUpdate(front, i, s);
      assert lists[i := s][..|lists| - 1] == front[i := s];
    } else {
      assert lists[i := s][..|lists| - 1] == front;
    }
  }

  lemma {:induction false} TotalOfEmpty(lists: seq<seq<Message>>)
    requires forall i :: 0 <= i < |lists| ==> lists[i] == []
    ensures Total(lists) == 0
  {
    if lists != [] {
      TotalOfEmpty(lists[..|lists| - 1]);
    }
  }

  lemma {:induction false} NothingFrom(sources: seq<seq<Message>>)
    ensures Merged(sources, sources, [], [])
  {
  }

  lemma {:induction false} TakingIsAccounted(sources: seq<seq<Message>>, left: seq<seq<Message>>, origins: seq<nat>,
      merged: seq<Message>, i: nat)
    requires Accounted(sources, left, origins, merged) && i < |left| && left[i] != []
    ensures Accounted(sources, Chopped(left, i), [i] + origins, [Last(left[i])] + merged)
  {
    var x, left' := Last(left[i]), Chopped(left, i);
    var merged', origins' := [x] + merged, [i] + origins;
    assert merged'[1..] == merged && origins'[1..] == origins;
    forall k | 0 <= k < |sources| ensures left'[k] + FromSource(merged', origins', k) == sources[k] {
      FrontAndLast(left[i]);
      ConcatAssociates(left'[k], [x], FromSource(merged, origins, k));
    }
  }

  lemma {:induction false} TakingIsNewest(sources: seq<seq<Message>>, left: seq<seq<Message>>, origins: seq<nat>,
      merged: seq<Message>, i: nat)
    requires AllAscending(sources) && Accounted(sources, left, origins, merged)
    requires NewestTaken(left, merged) && IsNewest(left, i)
    ensures NewestTaken(Chopped(left, i), [Last(left[i])] + merged)
  {
    forall k, y | 0 <= k < |left| && y in Chopped(left, i)[k] ensures y in left[k] && !Last(left[i]).Before(y) {
      LeftIsAscending(sources, left, origins, merged, k);
      assert y in left[k];
    }
  }

  /** Taking the newest message keeps the books, the order, and that nothing newer is left. */
  lemma {:induction false} TakingNewest(sources: seq<seq<Message>>, left: seq<seq<Message>>, origins: seq<nat>,
      merged: seq<Message>, i: nat)
    requires AllAscending(sources) && Merged(sources, left, origins, merged) && IsNewest(left, i)
    ensures Merged(sources, Chopped(left, i), [i] + origins, [Last(left[i])] + merged)
    ensures Total(Chopped(left, i)) < Total(left)
  {
    TakingIsAccounted(sources, left, origins, merged, i);
    TakingIsNewest(sources, left, origins, merged, i);
    AscendingConcat([Last(left[i])], merged);
    TotalOfUpdate(left, i, left[i][..|left[i]| - 1]);
  }

  /** What is left of an ascending source is ascending, so its last message is its newest. */
  lemma {:induction false} LeftIsAscending(sources: seq<seq<Message>>, left: seq<seq<Message>>, origins: seq<nat>,
      merged: seq<Message>, k: nat)
    requires Accounted(sources, left, origins, merged) && k < |sources| && Ascending(sources[k])
    ensures forall y :: y in left[k] ==> !Last(left[k]).Before(y)
  {
    assert forall j :: 0 <= j < |left[k]| ==> left[k][j] == sources[k][j];
  }

  // ----- Conservation ---------------------------------------------------------------------------

  /** All messages of the first `k` lists. */
  function MessagesOf(lists: seq<seq<Message>>, k: nat): multiset<Message>
    requires k <= |lists|
  {
    if k == 0 then multiset{} else MessagesOf(lists, k - 1) + multiset(lists[k - 1])
  }

  /** A change to a list is not seen in front of it. */
  lemma {:induction false} MessagesBefore(lists: seq<seq<Message>>, i: nat, s: seq<Message>, k: nat)
    requires k <= i < |lists|
    ensures MessagesOf(lists[i := s], k) == MessagesOf(lists, k)
  {
    if k > 0 {
      MessagesBefore(lists, i, s, k - 1);
    }
  }

  lemma {:induction false} MessagesOfUpdate(lists: seq<seq<Message>>, i: nat, x: Message, k: nat)
    requires i < k <= |lists|
    ensures MessagesOf(lists[i := lists[i] + [x]], k) == MessagesOf(lists, k) + multiset{x}
  {
    if k == i + 1 {
      MessagesBefore(lists, i, lists[i] + [x], i);
      SnocCounts(lists[i], x);
    } else {
      MessagesOfUpdate(lists, i, x, k - 1);
    }
  }

  lemma {:induction false} HeadAndTail(s: seq<Message>)
    requires s != []
    ensures multiset(s) == multiset{s[0]} + multiset(s[1..])
  {
    assert s == [s[0]] + s[1..];
  }

  /** Together, what was taken and what is left is what was there. */
  lemma {:induction false} MergeConserves(sources: seq<seq<Message>>, left: seq<seq<Message>>, origins: seq<nat>,
      merged: seq<Message>)
    requires Accounted(sources, left, origins, merged)
    ensures MessagesOf(sources, |sources|) == MessagesOf(left, |left|) + multiset(merged)
    decreases |merged|
  {
    if merged == [] {
      NothingTaken(sources, left);
    } else {
      var x := merged[0];
      OneLessTaken(sources, left, origins, merged);
      MergeConserves(sources, left[origins[0] := left[origins[0]] + [x]], origins[1..], merged[1..]);
      MessagesOfUpdate(left, origins[0], x, |left|);
      HeadAndTail(merged);
    }
  }

  lemma {:induction false} NothingTaken(sources: seq<seq<Message>>, left: seq<seq<Message>>)
    requires Accounted(sources, left, [], [])
    ensures left == sources
  {
    forall i | 0 <= i < |sources| ensures left[i] == sources[i] {
      assert left[i] + FromSource([], [], i) == left[i];
    }
  }

  /** The message that was taken last, put back. */
  lemma {:induction false} OneLessTaken(sources: seq<seq<Message>>, left: seq<seq<Message>>, origins: seq<nat>,
      merged: seq<Message>)
    requires Accounted(sources, left, origins, merged) && merged != []
    ensures Accounted(sources, left[origins[0] := left[origins[0]] + [merged[0]]], origins[1..], merged[1..])
  {
    var left' := left[origins[0] := left[origins[0]] + [merged[0]]];
    forall k | 0 <= k < |sources| ensures left'[k] + FromSource(merged[1..], origins[1..], k) == sources[k] {
      assert left[k] + FromSource(merged, origins, k) == sources[k];
    }
  }

  // ----- The method ----------------------------------------------------------------------------

  /** The producer that `mergeFrom` hands to the queue: the newest last message and its source. */
  method PickNewest(sources: array<seq<Message>>) returns (max: Option<Message>, curI: nat)
    ensures max == None <==> forall i :: 0 <= i < sources.Length ==> sources[i] == []
    ensures max.Some? ==> IsNewest(sources[..], curI) && max.value == Last(sources[curI])
    // ties: the first of several equally late messages, but the last of several without a valid time
    ensures max.Some? ==> forall j :: 0 <= j < sources.Length && sources[j] != [] ==>
      if max.value.serverReceivedTime.At? then j < curI ==> Last(sources[j]).Before(max.value) else j <= curI
  {
    max, curI := None, 0;
    var dt := Invalid;
    for i := 0 to sources.Length
      invariant max == None <==> forall j :: 0 <= j < i ==> sources[j] == []
      invariant max == None ==> dt == Invalid
      invariant max.Some? ==> curI < i && sources[curI] != [] && max.value == Last(sources[curI])
                              && dt == max.value.serverReceivedTime
      invariant max.Some? ==> forall j :: 0 <= j < i && sources[j] != [] ==>
        !max.value.Before(Last(sources[j]))
        && if dt.At? then j < curI ==> Last(sources[j]).Before(max.value) else j <= curI
    {
      var src := sources[i];
      if src != [] {
        var cur := src[|src| - 1].serverReceivedTime;
        if !dt.At? || dt.Before(cur) {
          max, dt, curI := Some(src[|src| - 1]), cur, i;
        }
      }
    }
  }

  /** Takes the last message off source `i` and pushes it to the front of the queue. */
  method MoveNewest(channel: Channel, sources: array<seq<Message>>, i: nat)
    requires channel.Valid() && !channel.messages.buffer.Full()
    requires i < sources.Length && sources[i] != []
    modifies channel.messages.buffer, channel.messages.buffer.slots, sources
    ensures channel.Valid() && channel.History() == [Last(old(sources[i]))] + old(channel.History())
    ensures sources[..] == Chopped(old(sources[..]), i)
  {
    var src := sources[i];
    sources[i] := src[..|src| - 1];
    channel.messages.buffer.PushFront(src[|src| - 1]);
  }

  /** One more message for the channel. */
  method Take(channel: Channel, sources: array<seq<Message>>, i: nat, ghost before: seq<seq<Message>>,
      ghost origins: seq<nat>)
    requires channel.Valid() && !channel.messages.buffer.Full()
    requires AllAscending(before) && Merged(before, sources[..], origins, channel.History()) && IsNewest(sources[..], i)
    modifies channel.messages.buffer, channel.messages.buffer.slots, sources
    ensures channel.Valid() && Merged(before, sources[..], [i] + origins, channel.History())
    ensures Total(sources[..]) < Total(old(sources[..]))
  {
    TakingNewest(before, sources[..], origins, channel.History(), i);
    MoveNewest(channel, sources, i);
  }

  /**
   * Fills an empty channel from the back with the newest messages of the sources.  `origins` tells
   * for each message of the result which source it came from.
   */
  method MergeFrom(channel: Channel, sources: array<seq<Message>>) returns (ghost origins: seq<nat>)
    requires channel.Valid() && channel.History() == []
    requires AllAscending(sources[..])
    modifies channel.messages.buffer, channel.messages.buffer.slots, sources
    ensures channel.Valid()
    ensures Merged(old(sources[..]), sources[..], origins, channel.History())
    ensures |channel.History()| == Min(Total(old(sources[..])), channel.messages.limit)
  {
    origins := [];
    ghost var before := sources[..];
    NothingFrom(before);
    while !channel.messages.buffer.Full()
      invariant channel.Valid()
      invariant Merged(before, sources[..], origins, channel.History())
      decreases Total(sources[..])
    {
      var max, curI := PickNewest(sources);
      if max == None {
        TotalOfEmpty(sources[..]);
        break;
      }
      Take(channel, sources, curI, before, origins);
      origins := [curI] + origins;
    }
  }
}
