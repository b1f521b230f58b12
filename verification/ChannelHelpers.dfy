/** Stacking timeouts in the history of a channel (src/util/ChannelHelpers.hpp). */
module TimeoutStacking {
  import opened Channels
  import opened LimitedQueues

  const COUNT_LIMIT := 0x1_0000_0000
  type uint32 = n: nat | n < COUNT_LIMIT

  datatype Flag = Timeout | Untimeout | PubSub | SharedMessage | ModerationAction | Whisper | OtherFlag(bit: nat)

  datatype TimeoutStackStyle = StackHard | DontStackBeyondUserMessage | DontStack

  /** A message; of its flags, only `Disabled` and `InvalidReplyTarget` are set after it was built. */
  class TimedMessage {
    const loginName: string
    const timeoutUser: string
    const channelName: string
    const count: uint32
    const serverReceivedTime: DateTime
    const flags: set<Flag>
    var disabled: bool
    var invalidReplyTarget: bool

    constructor (loginName: string, timeoutUser: string, channelName: string, count: uint32,
                 serverReceivedTime: DateTime, flags: set<Flag>, disabled: bool, invalidReplyTarget: bool)
      ensures this.loginName == loginName && this.timeoutUser == timeoutUser && this.channelName == channelName
      ensures this.count == count && this.serverReceivedTime == serverReceivedTime && this.flags == flags
      ensures this.disabled == disabled && this.invalidReplyTarget == invalidReplyTarget
    {
      this.loginName, this.timeoutUser, this.channelName := loginName, timeoutUser, channelName;
      this.count, this.serverReceivedTime, this.flags := count, serverReceivedTime, flags;
      this.disabled, this.invalidReplyTarget := disabled, invalidReplyTarget;
    }

    predicate IsTimeoutOf(user: string) {
      Timeout in flags && timeoutUser == user
    }
  }

  // ----- The decision -------------------------------------------------------------------------------------

  /** Only this many messages are looked at. */
  const LOOKBACK := 20
  const LOOKBACK_MS := 5000

  function MinimumTime(now: DateTime): DateTime {
    if now.At? then At(now.ms - LOOKBACK_MS) else now
  }

  function LookbackEnd(length: nat): nat {
    if length <= LOOKBACK then 0 else length - LOOKBACK
  }

  /** What a new timeout is compared with. */
  datatype Query = Query(style: TimeoutStackStyle, message: TimedMessage, minimumTime: DateTime)

  /** Too old, an untimeout of the user, or, if that counts, a message of the user that was not disabled. */
  predicate EndsScan(q: Query, s: TimedMessage, disabled: set<TimedMessage>) {
    s.serverReceivedTime.Before(q.minimumTime)
    || (Untimeout in s.flags && s.timeoutUser == q.message.timeoutUser)
    || (q.style == DontStackBeyondUserMessage && s.loginName == q.message.timeoutUser
        && s !in disabled && ModerationAction !in s.flags)
  }

  /** An earlier timeout of the same user, from the same chat. */
  predicate IsEarlier(q: Query, s: TimedMessage) {
    (SharedMessage in s.flags <==> SharedMessage in q.message.flags)
    && (SharedMessage in q.message.flags ==> s.channelName == q.message.channelName)
    && s.IsTimeoutOf(q.message.timeoutUser)
  }

  datatype Decision =
    | Add
    | Discard
    | Stack(index: nat)
    | Override(index: nat)

  /** What becomes of the new timeout when the one at `i` is met. */
  function Verdict(q: Query, s: TimedMessage, i: nat): Decision {
    if PubSub in q.message.flags && PubSub !in s.flags then Override(i)
    else if PubSub !in q.message.flags && PubSub in s.flags then (if q.style == DontStack then Add else Discard)
    else Stack(i)
  }

  /** The scan, downwards from the first `k` messages. */
  function DecideFrom(q: Query, messages: seq<TimedMessage>, disabled: set<TimedMessage>, k: nat): Decision
    requires k <= |messages|
  {
    if k <= LookbackEnd(|messages|) || EndsScan(q, messages[k - 1], disabled) then Add
    else if IsEarlier(q, messages[k - 1]) then Verdict(q, messages[k - 1], k - 1)
    else DecideFrom(q, messages, disabled, k - 1)
  }

  function Decide(q: Query, messages: seq<TimedMessage>, disabled: set<TimedMessage>): Decision {
    DecideFrom(q, messages, disabled, |messages|)
  }

  /** The newest earlier timeout that the scan can reach. */
  ghost predicate IsMet(q: Query, messages: seq<TimedMessage>, disabled: set<TimedMessage>, i: nat) {
    LookbackEnd(|messages|) <= i < |messages|
    && IsEarlier(q, messages[i]) && !EndsScan(q, messages[i], disabled)
    && forall j :: i < j < |messages| ==> !IsEarlier(q, messages[j]) && !EndsScan(q, messages[j], disabled)
  }

  lemma {:induction false} DecideFromIs(q: Query, messages: seq<TimedMessage>, disabled: set<TimedMessage>, k: nat)
    requires LookbackEnd(|messages|) <= k <= |messages|
    requires forall j :: k <= j < |messages| ==> !IsEarlier(q, messages[j]) && !EndsScan(q, messages[j], disabled)
    ensures var d := DecideFrom(q, messages, disabled, k);
      (exists i :: 0 <= i < k && IsMet(q, messages, disabled, i) && d == Verdict(q, messages[i], i))
      || (d == Add && forall i :: 0 <= i < k ==> !IsMet(q, messages, disabled, i))
  {
    if k == LookbackEnd(|messages|) || EndsScan(q, messages[k - 1], disabled) {
    } else if IsEarlier(q, messages[k - 1]) {
      assert IsMet(q, messages, disabled, k - 1);
    } else {
      DecideFromIs(q, messages, disabled, k - 1);
    }
  }

  lemma {:induction false} OneIsMet(q: Query, messages: seq<TimedMessage>, disabled: set<TimedMessage>, i: nat, j: nat)
    requires IsMet(q, messages, disabled, i) && IsMet(q, messages, disabled, j)
    ensures i == j
  {
  }

  /** The decision is that of the newest earlier timeout in reach; without one, the timeout is added. */
  lemma {:induction false} DecideExactly(q: Query, messages: seq<TimedMessage>, disabled: set<TimedMessage>, i: nat)
    ensures IsMet(q, messages, disabled, i) ==> Decide(q, messages, disabled) == Verdict(q, messages[i], i)
    ensures Decide(q, messages, disabled) in {Stack(i), Override(i)} ==> IsMet(q, messages, disabled, i)
    ensures (forall j :: 0 <= j < |messages| ==> !IsMet(q, messages, disabled, j))
      ==> Decide(q, messages, disabled) == Add
  {
    DecideFromIs(q, messages, disabled, |messages|);
    if IsMet(q, messages, disabled, i) {
      var j :| 0 <= j < |messages| && IsMet(q, messages, disabled, j)
               && Decide(q, messages, disabled) == Verdict(q, messages[j], j);
      OneIsMet(q, messages, disabled, i, j);
    }
  }

  /** A timeout is never stacked past an untimeout of its user, nor on one that is too old or too far up. */
  lemma {:induction false} NeverPastUntimeout(q: Query, messages: seq<TimedMessage>, disabled: set<TimedMessage>,
      i: nat, j: nat)
    requires Decide(q, messages, disabled) in {Stack(i), Override(i)} && i <= j < |messages|
    ensures |messages| - j <= LOOKBACK
    ensures !(Untimeout in messages[j].flags && messages[j].timeoutUser == q.message.timeoutUser)
    ensures !messages[j].serverReceivedTime.Before(q.minimumTime)
    ensures messages[i].IsTimeoutOf(q.message.timeoutUser)
  {
    DecideExactly(q, messages, disabled, i);
  }

  /** Not to stack is to stack all the same; only a timeout that was seen on another way is then added again. */
  lemma {:induction false} DontStackStacks(q: Query, messages: seq<TimedMessage>, disabled: set<TimedMessage>, k: nat)
    requires k <= |messages|
    ensures var hard := DecideFrom(q.(style := StackHard), messages, disabled, k);
      DecideFrom(q.(style := DontStack), messages, disabled, k) == if hard == Discard then Add else hard
  {
    if k > 0 {
      DontStackStacks(q, messages, disabled, k - 1);
    }
  }

  /** The user said something at place `i` or behind it that counts: no moderation action, and not disabled. */
  ghost predicate UserSpoke(q: Query, messages: seq<TimedMessage>, disabled: set<TimedMessage>, i: int) {
    exists j :: i <= j < |messages| && 0 <= j && messages[j].loginName == q.message.timeoutUser
                && messages[j] !in disabled && ModerationAction !in messages[j].flags
  }

  lemma {:induction false} MetBeyondUserMessage(q: Query, messages: seq<TimedMessage>, disabled: set<TimedMessage>,
      i: nat)
    requires q.style == DontStackBeyondUserMessage
    ensures IsMet(q, messages, disabled, i)
       <==> IsMet(q.(style := StackHard), messages, disabled, i) && !UserSpoke(q, messages, disabled, i)
  {
  }

  /**
   * Not to stack beyond a user message, which is the default: decides like stacking, unless the user said
   * something that counts since the timeout that would be stacked on.  What was disabled does not count.
   */
  lemma {:induction false} BeyondUserMessage(q: Query, messages: seq<TimedMessage>, disabled: set<TimedMessage>)
    requires q.style == DontStackBeyondUserMessage
    ensures var hard := q.(style := StackHard);
      Decide(q, messages, disabled)
      == if exists i :: 0 <= i < |messages| && IsMet(hard, messages, disabled, i) && UserSpoke(q, messages, disabled, i)
         then Add else Decide(hard, messages, disabled)
  {
    var hard := q.(style := StackHard);
    forall i: nat | i < |messages|
      ensures IsMet(q, messages, disabled, i)
         <==> IsMet(hard, messages, disabled, i) && !UserSpoke(q, messages, disabled, i)
    {
      MetBeyondUserMessage(q, messages, disabled, i);
    }
    if i :| 0 <= i < |messages| && IsMet(hard, messages, disabled, i) {
      DecideExactly(hard, messages, disabled, i);
      DecideExactly(q, messages, disabled, i);
      forall j | 0 <= j < |messages| && IsMet(hard, messages, disabled, j) ensures j == i {
        OneIsMet(hard, messages, disabled, i, j);
      }
    } else {
      DecideExactly(hard, messages, disabled, 0);
      DecideExactly(q, messages, disabled, 0);
    }
  }

  /** Two messages from the same chat: of the channel itself, or shared from the same channel. */
  predicate SameChat(a: TimedMessage, b: TimedMessage) {
    if SharedMessage in a.flags then SharedMessage in b.flags && a.channelName == b.channelName
    else SharedMessage !in b.flags
  }

  /** At most five seconds old, as far as there is a clock, and neither an untimeout nor a message that stops. */
  ghost predicate LetsPass(style: TimeoutStackStyle, user: string, now: DateTime, s: TimedMessage,
      disabled: set<TimedMessage>) {
    (now.At? ==> s.serverReceivedTime.At? && s.serverReceivedTime.ms >= now.ms - 5000)
    && !(Untimeout in s.flags && s.timeoutUser == user)
    && (style == DontStackBeyondUserMessage && s.loginName == user ==> s in disabled || ModerationAction in s.flags)
  }

  /**
   * Among the last 20 messages, the one at `i` is the newest timeout of the user in the same chat, and
   * everything from there on lets pass.
   */
  ghost predicate Reaches(style: TimeoutStackStyle, message: TimedMessage, now: DateTime,
      messages: seq<TimedMessage>, disabled: set<TimedMessage>, i: int) {
    0 <= i < |messages| <= i + 20
    && Timeout in messages[i].flags && messages[i].timeoutUser == message.timeoutUser
    && SameChat(message, messages[i])
    && (forall j :: i <= j < |messages| ==> LetsPass(style, message.timeoutUser, now, messages[j], disabled))
    && forall j :: i < j < |messages| ==>
         !(Timeout in messages[j].flags && messages[j].timeoutUser == message.timeoutUser
           && SameChat(message, messages[j]))
  }

  lemma {:induction false} PassesIs(style: TimeoutStackStyle, message: TimedMessage, now: DateTime, s: TimedMessage,
      disabled: set<TimedMessage>)
    ensures EndsScan(Query(style, message, MinimumTime(now)), s, disabled)
       <==> !LetsPass(style, message.timeoutUser, now, s, disabled)
    ensures IsEarlier(Query(style, message, MinimumTime(now)), s)
       <==> Timeout in s.flags && s.timeoutUser == message.timeoutUser && SameChat(message, s)
  {
  }

  lemma {:induction false} MetIsReached(style: TimeoutStackStyle, message: TimedMessage, now: DateTime,
      messages: seq<TimedMessage>, disabled: set<TimedMessage>, i: nat)
    ensures IsMet(Query(style, message, MinimumTime(now)), messages, disabled, i)
       <==> Reaches(style, message, now, messages, disabled, i)
  {
    forall j | 0 <= j < |messages|
      ensures EndsScan(Query(style, message, MinimumTime(now)), messages[j], disabled)
         <==> !LetsPass(style, message.timeoutUser, now, messages[j], disabled)
      ensures IsEarlier(Query(style, message, MinimumTime(now)), messages[j])
         <==> Timeout in messages[j].flags && messages[j].timeoutUser == message.timeoutUser
              && SameChat(message, messages[j])
    {
      PassesIs(style, message, now, messages[j], disabled);
    }
  }

  /** When a timeout is stacked on which other one, when it takes its place, when it is dropped, and when added. */
  lemma {:induction false} StacksExactly(style: TimeoutStackStyle, message: TimedMessage, now: DateTime,
      messages: seq<TimedMessage>, disabled: set<TimedMessage>)
    ensures var d := Decide(Query(style, message, MinimumTime(now)), messages, disabled);
      (forall i :: Reaches(style, message, now, messages, disabled, i) ==>
        d == if PubSub in message.flags <==> PubSub in messages[i].flags then Stack(i)
             else if PubSub in message.flags then Override(i)
             else if style == DontStack then Add else Discard)
      && ((forall i :: !Reaches(style, message, now, messages, disabled, i)) ==> d == Add)
  {
    var q := Query(style, message, MinimumTime(now));
    forall i | Reaches(style, message, now, messages, disabled, i)
      ensures Decide(q, messages, disabled) == Verdict(q, messages[i], i)
    {
      MetIsReached(style, message, now, messages, disabled, i);
      DecideExactly(q, messages, disabled, i);
    }
    if forall i :: !Reaches(style, message, now, messages, disabled, i) {
      forall i | 0 <= i < |messages| ensures !IsMet(q, messages, disabled, i) {
        MetIsReached(style, message, now, messages, disabled, i);
      }
      DecideExactly(q, messages, disabled, 0);
    }
  }

  // ----- What a call does to the history ------------------------------------------------------------------------

  function NextCount(count: uint32): uint32 {
    (count + 1) % COUNT_LIMIT
  }

  /** A stacked timeout: like the new one, but counted once more than the old one, and sent by nobody. */
  predicate IsStacked(replacement: TimedMessage, old': TimedMessage, message: TimedMessage) {
    replacement.timeoutUser == message.timeoutUser && replacement.channelName == message.channelName
    && replacement.flags == message.flags && replacement.serverReceivedTime == message.serverReceivedTime
    && replacement.loginName == "" && replacement.count == NextCount(old'.count)
  }

  /** The history of a channel of size `limit` after a timeout was placed. */
  function Placed(limit: nat, messages: seq<TimedMessage>, message: TimedMessage, decision: Decision,
      replacement: TimedMessage)
    : seq<TimedMessage>
    requires decision.Stack? || decision.Override? ==> decision.index < |messages|
  {
    match decision
    case Add => ApplyLimited(limit, messages, PushBack(message))
    case Discard => messages
    case Stack(i) => ApplyLimited(limit, messages, Replace(messages[i], replacement))
    case Override(i) => ApplyLimited(limit, messages, Replace(messages[i], message))
  }

  lemma {:induction false} DecisionInRange(q: Query, messages: seq<TimedMessage>, disabled: set<TimedMessage>, k: nat)
    requires k <= |messages|
    ensures var d := DecideFrom(q, messages, disabled, k);
      d.Stack? || d.Override? ==>
        d.index < k && IsEarlier(q, messages[d.index]) && d == Verdict(q, messages[d.index], d.index)
  {
    if k > 0 {
      DecisionInRange(q, messages, disabled, k - 1);
    }
  }

  /** The snapshot's messages of the user are disabled. */
  predicate IsDisabledBy(s: TimedMessage, message: TimedMessage) {
    s.loginName == message.timeoutUser && ModerationAction !in s.flags && Whisper !in s.flags
  }

  class TimeoutChannel {
    const limit: nat
    var messages: seq<TimedMessage>

    constructor (limit: nat)
      ensures this.limit == limit && messages == []
    {
      this.limit := limit;
      messages := [];
    }

    ghost predicate Valid()
      reads this
    {
      |messages| <= limit && limit > 0
    }

    /** The messages that are disabled now. */
    ghost function Disabled(): set<TimedMessage>
      reads this, messages
    {
      set m | m in messages && m.disabled
    }

    /** What `LimitedQueue.ReplaceItem` does. */
    method ReplaceMessage(message: TimedMessage, replacement: TimedMessage)
      modifies this
      ensures messages == ApplyLimited(limit, old(messages), Replace(message, replacement))
    {
      messages := ApplyLimited(limit, messages, Replace(message, replacement));
    }

    /** What `LimitedQueue.PushBack` does. */
    method AddMessage(message: TimedMessage)
      modifies this
      ensures messages == ApplyLimited(limit, old(messages), PushBack(message))
    {
      messages := ApplyLimited(limit, messages, PushBack(message));
    }

    /** A stacked timeout to replace `s`. */
    method StackedOn(s: TimedMessage, message: TimedMessage) returns (replacement: TimedMessage)
      ensures fresh(replacement) && IsStacked(replacement, s, message)
      ensures replacement.count == (if s.count == COUNT_LIMIT - 1 then 0 else s.count + 1)
      ensures replacement.timeoutUser == message.timeoutUser && replacement.flags == message.flags
      ensures replacement.serverReceivedTime == message.serverReceivedTime
      ensures replacement.disabled == message.disabled && replacement.invalidReplyTarget == message.invalidReplyTarget
    {
      replacement := new TimedMessage("", message.timeoutUser, message.channelName, NextCount(s.count),
        message.serverReceivedTime, message.flags, message.disabled, message.invalidReplyTarget);
    }

    /** Acts on the earlier timeout at `i`, which decides. */
    method Meet(q: Query, i: nat) returns (shouldAddMessage: bool, ghost replacement: TimedMessage)
      requires Valid() && i < |messages| && IsEarlier(q, messages[i])
      modifies this
      ensures Acted(q, old(messages), Verdict(q, old(messages)[i], i), shouldAddMessage, replacement)
      ensures replacement != q.message ==> fresh(replacement)
    {
      var s := messages[i];
      if PubSub in q.message.flags && PubSub !in s.flags {
        ReplaceMessage(s, q.message);
        return false, q.message;
      }
      if PubSub !in q.message.flags && PubSub in s.flags {
        return q.style == DontStack, q.message;
      }
      var stacked := StackedOn(s, q.message);
      ReplaceMessage(s, stacked);
      return false, stacked;
    }

    /** The history is changed as decided, but a timeout that is to be added is not there yet. */
    ghost predicate Acted(q: Query, was: seq<TimedMessage>, d: Decision, shouldAddMessage: bool,
        replacement: TimedMessage)
      reads this
    {
      (shouldAddMessage <==> d == Add)
      && (d.Stack? || d.Override? ==> d.index < |was|)
      && messages == (if d == Add then was else Placed(limit, was, q.message, d, replacement))
      && (d.Stack? ==> IsStacked(replacement, was[d.index], q.message))
    }

    /** The scan; at the message that decides, the history is changed. */
    method Scan(q: Query) returns (shouldAddMessage: bool, ghost replacement: TimedMessage)
      requires Valid()
      modifies this
      ensures Acted(q, old(messages), Decide(q, old(messages), old(Disabled())), shouldAddMessage, replacement)
      ensures replacement != q.message ==> fresh(replacement)
    {
      replacement := q.message;
      ghost var disabled := Disabled();
      var i: nat := |messages|;
      while i > LookbackEnd(|messages|)
        invariant i <= |messages| && messages == old(messages)
        invariant Decide(q, messages, disabled) == DecideFrom(q, messages, disabled, i)
      {
        i := i - 1;
        var s := messages[i];
        if s.serverReceivedTime.Before(q.minimumTime) {
          return true, replacement;
        }
        if Untimeout in s.flags && s.timeoutUser == q.message.timeoutUser {
          return true, replacement;
        }
        if q.style == DontStackBeyondUserMessage {
          if s.loginName == q.message.timeoutUser && !s.disabled && ModerationAction !in s.flags {
            return true, replacement;
          }
        }
        var newIsShared := SharedMessage in q.message.flags;
        if newIsShared != (SharedMessage in s.flags) || (newIsShared && q.message.channelName != s.channelName) {
          continue;
        }
        if Timeout in s.flags && s.timeoutUser == q.message.timeoutUser {
          shouldAddMessage, replacement := Meet(q, i);
          return;
        }
      }
      return true, replacement;
    }

    /** Sets the flags of the user's messages in the snapshot, in place. */
    method DisableMessages(snapshot: seq<TimedMessage>, message: TimedMessage)
      modifies snapshot
      ensures forall s :: s in snapshot ==>
        var said := s.loginName == message.timeoutUser && ModerationAction !in s.flags && Whisper !in s.flags;
        s.disabled == (old(s.disabled) || said) && s.invalidReplyTarget == (old(s.invalidReplyTarget) || said)
    {
      for i := 0 to |snapshot|
        invariant forall s :: s in snapshot ==>
          (s.disabled <==> old(s.disabled) || (s in snapshot[..i] && IsDisabledBy(s, message)))
          && (s.invalidReplyTarget <==> old(s.invalidReplyTarget) || (s in snapshot[..i] && IsDisabledBy(s, message)))
      {
        var s := snapshot[i];
        if s.loginName == message.timeoutUser && ModerationAction !in s.flags && Whisper !in s.flags {
          s.disabled := true;
          s.invalidReplyTarget := true;
        }
      }
    }

    /**
     * Places a timeout by the decision, which depends on the flags before the call, and disables what
     * the user had said; the message that replaces another one is not disabled.
     */
    method AddOrReplaceTimeout(style: TimeoutStackStyle, message: TimedMessage, now: DateTime,
        disableUserMessages: bool)
      returns (ghost replacement: TimedMessage)
      requires Valid()
      modifies this, messages
      ensures Valid()
      ensures var was := old(messages);
        var d := Decide(Query(style, message, MinimumTime(now)), was, old(Disabled()));
        (d.Stack? || d.Override? ==> d.index < |was|)
        && messages == Placed(limit, was, message, d, replacement)
        && (d.Stack? ==> IsStacked(replacement, was[d.index], message))
      ensures replacement != message ==> fresh(replacement)
      ensures forall s :: s in old(messages) ==>
        s.disabled == (old(s.disabled) || (disableUserMessages && IsDisabledBy(s, message)))
        && s.invalidReplyTarget == (old(s.invalidReplyTarget) || (disableUserMessages && IsDisabledBy(s, message)))
    {
      ghost var q := Query(style, message, MinimumTime(now));
      var snapshot := messages;
      DecisionInRange(q, messages, Disabled(), |messages|);
      var shouldAddMessage;
      shouldAddMessage, replacement := Scan(Query(style, message, MinimumTime(now)));
      if disableUserMessages {
        DisableMessages(snapshot, message);
      }
      if shouldAddMessage {
        AddMessage(message);
      }
    }
  }

  // ----- Conservation of counts -----------------------------------------------------------------------------------

  function Weight(m: TimedMessage, user: string): nat {
    if m.IsTimeoutOf(user) then m.count else 0
  }

  /** The counts of the user's timeouts among the first `k` messages. */
  function TimeoutsUpTo(messages: seq<TimedMessage>, user: string, k: nat): nat
    requires k <= |messages|
  {
    if k == 0 then 0 else TimeoutsUpTo(messages, user, k - 1) + Weight(messages[k - 1], user)
  }

  function Timeouts(messages: seq<TimedMessage>, user: string): nat {
    TimeoutsUpTo(messages, user, |messages|)
  }

  lemma {:induction false} TimeoutsPrefix(a: seq<TimedMessage>, b: seq<TimedMessage>, user: string, k: nat)
    requires k <= |a|
    ensures TimeoutsUpTo(a + b, user, k) == TimeoutsUpTo(a, user, k)
  {
    if k > 0 {
      TimeoutsPrefix(a, b, user, k - 1);
    }
  }

  lemma {:induction false} TimeoutsConcat(a: seq<TimedMessage>, b: seq<TimedMessage>, user: string, k: nat)
    requires k <= |b|
    ensures TimeoutsUpTo(a + b, user, |a| + k) == Timeouts(a, user) + TimeoutsUpTo(b, user, k)
  {
    if k == 0 {
      TimeoutsPrefix(a, b, user, |a|);
    } else {
      TimeoutsConcat(a, b, user, k - 1);
    }
  }

  lemma {:induction false} TimeoutsOfUpdate(messages: seq<TimedMessage>, i: nat, m: TimedMessage, user: string, k: nat)
    requires i < |messages| && k <= |messages|
    ensures TimeoutsUpTo(messages[i := m], user, k)
         == TimeoutsUpTo(messages, user, k) + if i < k then Weight(m, user) - Weight(messages[i], user) else 0
  {
    if k > 0 {
      TimeoutsOfUpdate(messages, i, m, user, k - 1);
    }
  }

  lemma {:induction false} OneTimeoutIsLess(messages: seq<TimedMessage>, user: string, i: nat, k: nat)
    requires i < k <= |messages|
    ensures Weight(messages[i], user) <= TimeoutsUpTo(messages, user, k)
  {
    if i < k - 1 {
      OneTimeoutIsLess(messages, user, i, k - 1);
    }
  }

  lemma {:induction false} TimeoutsKept(limit: nat, messages: seq<TimedMessage>, user: string)
    ensures Timeouts(KeepLast(limit, messages), user) + Timeouts(Evicted(limit, messages), user)
         == Timeouts(messages, user)
  {
    SplitAtLimit(limit, messages);
    TimeoutsConcat(Evicted(limit, messages), KeepLast(limit, messages), user, |KeepLast(limit, messages)|);
  }

  lemma {:induction false} TimeoutsSnoc(messages: seq<TimedMessage>, m: TimedMessage, user: string)
    ensures Timeouts(messages + [m], user) == Timeouts(messages, user) + Weight(m, user)
  {
    TimeoutsPrefix(messages, [m], user, |messages|);
  }

  /** What is added goes to the end, and what is forgotten is no longer counted. */
  lemma {:induction false} TimeoutsOfPush(limit: nat, messages: seq<TimedMessage>, m: TimedMessage, user: string)
    ensures Timeouts(ApplyLimited(limit, messages, PushBack(m)), user)
         == Timeouts(messages, user) + Weight(m, user) - Timeouts(Evicted(limit, messages + [m]), user)
  {
    TimeoutsSnoc(messages, m, user);
    TimeoutsKept(limit, messages + [m], user);
  }

  lemma {:induction false} TimeoutsOfReplace(limit: nat, messages: seq<TimedMessage>, needle: TimedMessage,
      m: TimedMessage, user: string)
    requires |messages| <= limit && needle in messages
    ensures var after := ApplyLimited(limit, messages, Replace(needle, m));
      Timeouts(after, user) == Timeouts(messages, user) + Weight(m, user) - Weight(needle, user)
      && |after| == |messages|
  {
    var i := IndexOf(messages, needle);
    TimeoutsOfUpdate(messages, i, m, user, |messages|);
  }

  /** The counts of the user's timeouts that a full history forgets when a message is added. */
  function Forgotten(limit: nat, messages: seq<TimedMessage>, message: TimedMessage, d: Decision, user: string): nat {
    if d == Add then Timeouts(Evicted(limit, messages + [message]), user) else 0
  }

  /** How a call changes the counts of any user: exactly, in every case. */
  function Change(limit: nat, messages: seq<TimedMessage>, message: TimedMessage, d: Decision,
      replacement: TimedMessage, user: string): int
    requires d.Stack? || d.Override? ==> d.index < |messages|
  {
    match d
    case Add => Weight(message, user) - Forgotten(limit, messages, message, d, user)
    case Discard => 0
    case Stack(i) => Weight(replacement, user) - Weight(messages[i], user)
    case Override(i) => Weight(message, user) - Weight(messages[i], user)
  }

  lemma {:induction false} PlacedChanges(limit: nat, messages: seq<TimedMessage>, message: TimedMessage, d: Decision,
                                         replacement: TimedMessage, user: string)
    requires |messages| <= limit && (d.Stack? || d.Override? ==> d.index < |messages|)
    ensures Timeouts(Placed(limit, messages, message, d, replacement), user)
         == Timeouts(messages, user) + Change(limit, messages, message, d, replacement, user)
    ensures |Placed(limit, messages, message, d, replacement)| <= |messages| + 1
  {
    match d {
      case Add => TimeoutsOfPush(limit, messages, message, user);
      case Discard =>
      case Stack(i) => TimeoutsOfReplace(limit, messages, messages[i], replacement, user);
      case Override(i) => TimeoutsOfReplace(limit, messages, messages[i], message, user);
    }
  }

  /** A proper call: a new timeout, counted once, and what replaces the old one if it is stacked. */
  predicate IsCall(q: Query, messages: seq<TimedMessage>, d: Decision, replacement: TimedMessage) {
    Timeout in q.message.flags && q.message.count == 1
    && (d.Stack? || d.Override? ==>
          d.index < |messages| && IsEarlier(q, messages[d.index]) && d == Verdict(q, messages[d.index], d.index))
    && (d.Stack? ==> IsStacked(replacement, messages[d.index], q.message))
  }

  /**
   * Apart from what is forgotten, a call counts the new timeout exactly if it is added, or stacked
   * without the count wrapping around; one that was seen on another way before is not, unless its count
   * had wrapped to zero.
   */
  lemma {:induction false} CallCountsOnceExactly(limit: nat, q: Query, messages: seq<TimedMessage>, d: Decision,
      replacement: TimedMessage)
    requires |messages| <= limit && IsCall(q, messages, d, replacement)
    ensures var user := q.message.timeoutUser;
      Timeouts(Placed(limit, messages, q.message, d, replacement), user)
      + Forgotten(limit, messages, q.message, d, user) == Timeouts(messages, user) + 1
      <==> d == Add || (d.Stack? && messages[d.index].count < COUNT_LIMIT - 1)
           || (d.Override? && messages[d.index].count == 0)
  {
    PlacedChanges(limit, messages, q.message, d, replacement, q.message.timeoutUser);
  }

  /** The timeout at `i` does not keep a new one from being counted. */
  predicate LetsCount(q: Query, s: TimedMessage) {
    if PubSub in q.message.flags <==> PubSub in s.flags then s.count < COUNT_LIMIT - 1
    else if PubSub in q.message.flags then s.count == 0
    else q.style == DontStack
  }

  /**
   * The same by what is in the history: the newest earlier timeout in reach, if there is one, was seen
   * on the same way as the new one and its count does not wrap around, or it is a PubSub timeout, the
   * new one is none, and the style is not to stack.  (A PubSub timeout takes the place of one that is
   * none, and so it is counted only if that was counted zero times, after a wrap-around.)
   */
  lemma {:induction false} CountedOnceExactly(limit: nat, q: Query, messages: seq<TimedMessage>,
                                              disabled: set<TimedMessage>, replacement: TimedMessage)
    requires |messages| <= limit && IsCall(q, messages, Decide(q, messages, disabled), replacement)
    ensures var d, user := Decide(q, messages, disabled), q.message.timeoutUser;
      Timeouts(Placed(limit, messages, q.message, d, replacement), user)
      + Forgotten(limit, messages, q.message, d, user) == Timeouts(messages, user) + 1
      <==> forall i :: 0 <= i < |messages| && IsMet(q, messages, disabled, i) ==> LetsCount(q, messages[i])
  {
    var d := Decide(q, messages, disabled);
    CallCountsOnceExactly(limit, q, messages, d, replacement);
    DecideFromIs(q, messages, disabled, |messages|);
    if i :| 0 <= i < |messages| && IsMet(q, messages, disabled, i) {
      DecideExactly(q, messages, disabled, i);
      forall j | 0 <= j < |messages| && IsMet(q, messages, disabled, j) ensures j == i {
        OneIsMet(q, messages, disabled, i, j);
      }
    }
  }

  /** A timeout of the user "user" at time zero, with the flags given. */
  predicate IsExample(m: TimedMessage, flags: set<Flag>) {
    m.loginName == "" && m.timeoutUser == "user" && m.channelName == "" && m.count == 1
    && m.serverReceivedTime == At(0) && m.flags == flags
  }

  method ExampleTimeout(flags: set<Flag>) returns (m: TimedMessage)
    ensures fresh(m) && IsExample(m, flags)
  {
    m := new TimedMessage("", "user", "", 1, At(0), flags, false, false);
  }

  /** A timeout that arrives behind its PubSub message is not counted when timeouts are stacked. */
  lemma {:induction false} SecondWayIsNotCounted(first: TimedMessage, second: TimedMessage)
    requires IsExample(first, {Timeout, PubSub}) && IsExample(second, {Timeout})
    ensures var q := Query(StackHard, second, MinimumTime(At(0)));
      Decide(q, [first], {}) == Discard
      && Timeouts(Placed(1000, [first], second, Decide(q, [first], {}), second), "user") == 1
      && Timeouts([first], "user") == 1
  {
    assert TimeoutsUpTo([first], "user", 0) == 0;
  }

  /** Two timeouts in a row are stacked although the style is not to stack. */
  lemma {:induction false} DontStackExample(first: TimedMessage, second: TimedMessage)
    requires IsExample(first, {Timeout}) && IsExample(second, {Timeout})
    ensures Decide(Query(DontStack, second, MinimumTime(At(0))), [first], {}) == Stack(0)
  {
  }

  /** The timeouts of other users are not touched, except that a full history may forget one. */
  lemma {:induction false} CallKeepsOthers(limit: nat, q: Query, messages: seq<TimedMessage>, d: Decision,
      replacement: TimedMessage, user: string)
    requires |messages| <= limit && IsCall(q, messages, d, replacement) && user != q.message.timeoutUser
    ensures Timeouts(Placed(limit, messages, q.message, d, replacement), user)
          + Forgotten(limit, messages, q.message, d, user) == Timeouts(messages, user)
  {
    PlacedChanges(limit, messages, q.message, d, replacement, user);
  }

  // ----- Whole runs -------------------------------------------------------------------------------------------------

  /** What happens to a history: messages arrive, and users are timed out. */
  datatype Event =
    | Arrives(message: TimedMessage)
    | TimesOut(query: Query, disabled: set<TimedMessage>, replacement: TimedMessage)

  function AfterEvent(limit: nat, messages: seq<TimedMessage>, e: Event): seq<TimedMessage> {
    match e
    case Arrives(m) => ApplyLimited(limit, messages, PushBack(m))
    case TimesOut(q, disabled, replacement) =>
      DecisionInRange(q, messages, disabled, |messages|);
      Placed(limit, messages, q.message, Decide(q, messages, disabled), replacement)
  }

  function AfterAll(limit: nat, messages: seq<TimedMessage>, events: seq<Event>): seq<TimedMessage>
    decreases |events|
  {
    if events == [] then messages else AfterAll(limit, AfterEvent(limit, messages, events[0]), events[1..])
  }

  /** Timeouts are proper calls, and no other message is a timeout of the user. */
  predicate IsProper(messages: seq<TimedMessage>, e: Event, user: string) {
    match e
    case Arrives(m) => !m.IsTimeoutOf(user)
    case TimesOut(q, disabled, replacement) => IsCall(q, messages, Decide(q, messages, disabled), replacement)
  }

  predicate RunIsProper(limit: nat, messages: seq<TimedMessage>, events: seq<Event>, user: string)
    decreases |events|
  {
    events == []
    || (IsProper(messages, events[0], user)
        && RunIsProper(limit, AfterEvent(limit, messages, events[0]), events[1..], user))
  }

  predicate ConcernsUser(e: Event, user: string) {
    e.TimesOut? && e.query.message.timeoutUser == user
  }

  /** How often the user is timed out. */
  function TimesOutCount(events: seq<Event>, user: string): nat
    decreases |events|
  {
    if events == [] then 0 else (if ConcernsUser(events[0], user) then 1 else 0) + TimesOutCount(events[1..], user)
  }

  predicate HasPubSub(m: TimedMessage, pubSub: bool) {
    PubSub in m.flags <==> pubSub
  }

  /** All timeouts of the user were seen on the same way. */
  predicate SameWay(messages: seq<TimedMessage>, user: string, pubSub: bool) {
    forall i :: 0 <= i < |messages| && messages[i].IsTimeoutOf(user) ==> HasPubSub(messages[i], pubSub)
  }

  predicate EventsSameWay(events: seq<Event>, user: string, pubSub: bool) {
    forall i :: 0 <= i < |events| && ConcernsUser(events[i], user) ==> HasPubSub(events[i].query.message, pubSub)
  }

  lemma {:induction false} AddedSameWay(limit: nat, messages: seq<TimedMessage>, m: TimedMessage, user: string,
      pubSub: bool)
    requires SameWay(messages, user, pubSub) && (m.IsTimeoutOf(user) ==> HasPubSub(m, pubSub))
    ensures SameWay(ApplyLimited(limit, messages, PushBack(m)), user, pubSub)
  {
    var after := ApplyLimited(limit, messages, PushBack(m));
    forall i | 0 <= i < |after| && after[i].IsTimeoutOf(user) ensures HasPubSub(after[i], pubSub) {
      assert after[i] == (messages + [m])[|messages| + 1 - |after| + i];
    }
  }

  lemma {:induction false} ReplacedSameWay(limit: nat, messages: seq<TimedMessage>, needle: TimedMessage,
      m: TimedMessage, user: string, pubSub: bool)
    requires |messages| <= limit && SameWay(messages, user, pubSub) && (m.IsTimeoutOf(user) ==> HasPubSub(m, pubSub))
    ensures SameWay(ApplyLimited(limit, messages, Replace(needle, m)), user, pubSub)
  {
  }

  lemma {:induction false} EventKeepsSameWay(limit: nat, messages: seq<TimedMessage>, e: Event, user: string,
      pubSub: bool)
    requires |messages| <= limit && IsProper(messages, e, user) && SameWay(messages, user, pubSub)
    requires ConcernsUser(e, user) ==> HasPubSub(e.query.message, pubSub)
    ensures SameWay(AfterEvent(limit, messages, e), user, pubSub)
  {
    match e {
      case Arrives(m) => AddedSameWay(limit, messages, m, user, pubSub);
      case TimesOut(q, disabled, replacement) =>
        match Decide(q, messages, disabled) {
          case Add => AddedSameWay(limit, messages, q.message, user, pubSub);
          case Discard =>
          case Stack(i) => ReplacedSameWay(limit, messages, messages[i], replacement, user, pubSub);
          case Override(i) => ReplacedSameWay(limit, messages, messages[i], q.message, user, pubSub);
        }
    }
  }

  lemma {:induction false} SameWayIsCounted(q: Query, messages: seq<TimedMessage>, disabled: set<TimedMessage>,
      pubSub: bool)
    requires SameWay(messages, q.message.timeoutUser, pubSub) && HasPubSub(q.message, pubSub)
    ensures Decide(q, messages, disabled).Add? || Decide(q, messages, disabled).Stack?
  {
    DecideFromIs(q, messages, disabled, |messages|);
  }

  /** A message is put behind the history. */
  predicate Adds(messages: seq<TimedMessage>, e: Event) {
    e.Arrives? || Decide(e.query, messages, e.disabled) == Add
  }

  /** The counts of the user's timeouts that an event makes the history forget. */
  function ForgottenBy(limit: nat, messages: seq<TimedMessage>, e: Event, user: string): nat {
    match e
    case Arrives(m) => Forgotten(limit, messages, m, Add, user)
    case TimesOut(q, disabled, _) => Forgotten(limit, messages, q.message, Decide(q, messages, disabled), user)
  }

  /** The counts of the user's timeouts that are forgotten over a run. */
  function ForgottenIn(limit: nat, messages: seq<TimedMessage>, events: seq<Event>, user: string): nat
    decreases |events|
  {
    if events == [] then 0
    else ForgottenBy(limit, messages, events[0], user)
         + ForgottenIn(limit, AfterEvent(limit, messages, events[0]), events[1..], user)
  }

  /** Whenever a message is put behind the history, there is room for it. */
  predicate NothingForgotten(limit: nat, messages: seq<TimedMessage>, events: seq<Event>)
    decreases |events|
  {
    events == []
    || ((Adds(messages, events[0]) ==> |messages| < limit)
        && NothingForgotten(limit, AfterEvent(limit, messages, events[0]), events[1..]))
  }

  /**
   * One event: apart from what is forgotten, the user's counts grow by one if it is a timeout of the
   * user, and else not at all.
   */
  lemma {:induction false} EventCounts(limit: nat, messages: seq<TimedMessage>, e: Event, user: string, pubSub: bool)
    requires |messages| <= limit && IsProper(messages, e, user) && SameWay(messages, user, pubSub)
    requires ConcernsUser(e, user) ==> HasPubSub(e.query.message, pubSub)
    requires ConcernsUser(e, user) ==> Timeouts(messages, user) < COUNT_LIMIT - 1
    ensures Timeouts(AfterEvent(limit, messages, e), user) + ForgottenBy(limit, messages, e, user)
         == Timeouts(messages, user) + if ConcernsUser(e, user) then 1 else 0
    ensures |AfterEvent(limit, messages, e)| <= limit && |AfterEvent(limit, messages, e)| <= |messages| + 1
  {
    match e {
      case Arrives(m) => PlacedChanges(limit, messages, m, Add, m, user);
      case TimesOut(q, disabled, replacement) =>
        var d := Decide(q, messages, disabled);
        PlacedChanges(limit, messages, q.message, d, replacement, user);
        if ConcernsUser(e, user) {
          SameWayIsCounted(q, messages, disabled, pubSub);
          if d.Stack? {
            OneTimeoutIsLess(messages, user, d.index, |messages|);
          }
        }
    }
  }

  /**
   * Conservation over every run in which the user's timeouts are all seen on the same way: every timeout
   * of the user is counted exactly once, whether it is stacked or added, and only what a full history
   * forgets is missing in the end.
   */
  lemma {:induction false} RunConserves(limit: nat, messages: seq<TimedMessage>, events: seq<Event>, user: string,
      pubSub: bool)
    requires |messages| <= limit && Timeouts(messages, user) + TimesOutCount(events, user) < COUNT_LIMIT
    requires RunIsProper(limit, messages, events, user)
    requires SameWay(messages, user, pubSub) && EventsSameWay(events, user, pubSub)
    ensures Timeouts(AfterAll(limit, messages, events), user) + ForgottenIn(limit, messages, events, user)
         == Timeouts(messages, user) + TimesOutCount(events, user)
    ensures |AfterAll(limit, messages, events)| <= limit
    ensures |AfterAll(limit, messages, events)| <= |messages| + |events|
    decreases |events|
  {
    if events != [] {
      EventCounts(limit, messages, events[0], user, pubSub);
      EventKeepsSameWay(limit, messages, events[0], user, pubSub);
      RunConserves(limit, AfterEvent(limit, messages, events[0]), events[1..], user, pubSub);
    }
  }

  lemma {:induction false} NothingIsMissing(limit: nat, messages: seq<TimedMessage>, events: seq<Event>, user: string)
    requires NothingForgotten(limit, messages, events)
    ensures ForgottenIn(limit, messages, events, user) == 0
    decreases |events|
  {
    if events != [] {
      NothingIsMissing(limit, AfterEvent(limit, messages, events[0]), events[1..], user);
    }
  }

  /**
   * In every run in which nothing is forgotten and the user's timeouts are all seen on the same way,
   * every timeout of the user is counted exactly once.  The run may be longer than the history: what is
   * stacked takes no room.
   */
  lemma {:induction false} RunCounts(limit: nat, messages: seq<TimedMessage>, events: seq<Event>, user: string,
      pubSub: bool)
    requires |messages| <= limit && Timeouts(messages, user) + TimesOutCount(events, user) < COUNT_LIMIT
    requires NothingForgotten(limit, messages, events) && RunIsProper(limit, messages, events, user)
    requires SameWay(messages, user, pubSub) && EventsSameWay(events, user, pubSub)
    ensures Timeouts(AfterAll(limit, messages, events), user) == Timeouts(messages, user) + TimesOutCount(events, user)
  {
    RunConserves(limit, messages, events, user, pubSub);
    NothingIsMissing(limit, messages, events, user);
  }
}
