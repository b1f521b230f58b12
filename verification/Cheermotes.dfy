/** Cheering with bits (`MessageBuilder::tryAppendCheermote`, src/messages/MessageBuilder.cpp). */
module Cheermotes {
  import opened Arithmetic
  import opened Sequences
  import opened Texts
  import opened Wrappers

  // ----- Decimal numbers ------------------------------------------------------------------------------------

  /** The number that the digits just before position `k` make, as far back as there are digits. */
  function NumberBefore(s: QString, k: nat): nat
    requires k <= |s|
  {
    if k == 0 || !IsAsciiDigit(s[k - 1]) then 0
    else
      var digit: nat := s[k - 1] - '0' as int;
      10 * NumberBefore(s, k - 1) + digit
  }

  function TrailingNumber(s: QString): nat {
    NumberBefore(s, |s|)
  }

  /** `QString::number`. */
  function Number(n: nat): (s: QString)
    ensures s != []
  {
    if n < 10 then ['0' as int + n] else Number(n / 10) + ['0' as int + n % 10]
  }

  function SignedNumber(n: int): QString {
    if n >= 0 then Number(n) else ['-' as int] + Number(-n)
  }

  /** Digits without a leading zero, as the expression for cheers matches them. */
  predicate IsAmount(s: QString) {
    s != [] && AllDigits(s) && s[0] != '0' as int
  }

  const INT_MAX := 2147483647

  /** `QString::toInt`, which gives up on numbers that are too large. */
  function ToInt(digits: QString): (v: nat) {
    if TrailingNumber(digits) <= INT_MAX then TrailingNumber(digits) else 0
  }

  lemma {:induction false} SamePrefix(a: QString, b: QString, k: nat)
    requires k <= |a| && k <= |b| && a[..k] == b[..k]
    ensures NumberBefore(a, k) == NumberBefore(b, k)
  {
    if k > 0 {
      assert a[..k][k - 1] == b[..k][k - 1];
      assert a[..k - 1] == a[..k][..k - 1] == b[..k - 1];
      SamePrefix(a, b, k - 1);
    }
  }

  lemma {:induction false} NumberReads(n: nat)
    ensures AllDigits(Number(n)) && TrailingNumber(Number(n)) == n
    ensures n > 0 ==> IsAmount(Number(n))
  {
    if n < 10 {
      assert NumberBefore(Number(n), 1) == 10 * NumberBefore(Number(n), 0) + n;
    } else {
      NumberReads(n / 10);
      SamePrefix(Number(n), Number(n / 10), |Number(n / 10)|);
    }
  }

  /** Writing a matched amount gives the same digits. */
  lemma {:induction false} PrefixRewrites(digits: QString, k: nat)
    requires IsAmount(digits) && 0 < k <= |digits|
    ensures NumberBefore(digits, k) > 0 && Number(NumberBefore(digits, k)) == digits[..k]
  {
    var d: nat := digits[k - 1] - '0' as int;
    if k == 1 {
      assert NumberBefore(digits, 1) == 10 * NumberBefore(digits, 0) + d;
    } else {
      PrefixRewrites(digits, k - 1);
      var n := NumberBefore(digits, k - 1);
      assert (10 * n + d) / 10 == n && (10 * n + d) % 10 == d;
      assert digits[..k] == digits[..k - 1] + [digits[k - 1]];
    }
  }

  lemma {:induction false} AmountRewrites(digits: QString)
    requires IsAmount(digits)
    ensures TrailingNumber(digits) > 0 && Number(TrailingNumber(digits)) == digits
  {
    PrefixRewrites(digits, |digits|);
    assert digits[..|digits|] == digits;
  }

  /** A smaller number is not longer. */
  lemma {:induction false} SmallerIsShorter(n: nat, m: nat)
    requires n <= m
    ensures |Number(n)| <= |Number(m)|
  {
    if n >= 10 {
      SmallerIsShorter(n / 10, m / 10);
    }
  }

  /** Behind the same text, numbers of the same length differ by as much as alone. */
  lemma {:induction false} SameDifference(head: QString, a: QString, b: QString, k: nat)
    requires |a| == |b| && AllDigits(a) && AllDigits(b) && k <= |a|
    ensures NumberBefore(head + a, |head| + k) - NumberBefore(a, k)
            == NumberBefore(head + b, |head| + k) - NumberBefore(b, k)
  {
    if k == 0 {
      SamePrefix(head + a, head + b, |head|);
    } else {
      SameDifference(head, a, b, k - 1);
    }
  }

  // ----- Cheers -----------------------------------------------------------------------------------------------

  /** What the channel knows about a cheer: the captured amount, and which elements its tier has. */
  datatype Cheer = Cheer(captured: QString, hasStatic: bool, hasAnimated: bool, hasColor: bool)

  /** The cheermotes of a channel: the emote for a text, and what its expression captures in it. */
  type Cheermotes = QString -> Option<Cheer>

  /** The captured group is an amount at the end of the text. */
  predicate Captures(s: QString, captured: QString) {
    IsAmount(captured) && |captured| <= |s| && s[|s| - |captured|..] == captured
  }

  ghost predicate Lawful(cheers: Cheermotes) {
    forall s :: cheers(s).Some? ==> Captures(s, cheers(s).value.captured)
  }

  /** The text with its captured amount replaced by `n`. */
  function Rewritten(s: QString, captured: QString, n: nat): QString
    requires |captured| <= |s|
  {
    s[..|s| - |captured|] + Number(n)
  }

  /** A text is shorter, or ends with a smaller number. */
  predicate Less(r: QString, s: QString) {
    |r| < |s| || (|r| == |s| && TrailingNumber(r) < TrailingNumber(s))
  }

  /** The amounts of a rewritten text get smaller, whichever cheermote matches it. */
  lemma {:induction false} RewritingDescends(s: QString, captured: QString, n: nat)
    requires Captures(s, captured) && n < TrailingNumber(captured)
    ensures Less(Rewritten(s, captured, n), s)
  {
    AmountRewrites(captured);
    SmallerIsShorter(n, TrailingNumber(captured));
    NumberReads(n);
    var head := s[..|s| - |captured|];
    assert s == head + captured;
    if |Number(n)| == |captured| {
      SameDifference(head, Number(n), captured, |captured|);
    }
  }

  /** `OtherText` is whatever a word that is no cheer is shown as. */
  datatype Element =
    | StaticEmote
    | AnimatedEmote
    | Amount(text: QString)
    | OtherText(word: QString)

  datatype TextState = TextState(hasBits: bool, bitsLeft: int, bitsStacked: bool)

  /** The bits that can be given to cheers. */
  function BitsOf(state: TextState): nat
    requires state.bitsLeft >= 0
  {
    if state.hasBits then state.bitsLeft else 0
  }

  /** What is shown of a cheer, in this order: its static and its animated emote and its amount, if it has them. */
  function Elements(cheer: Cheer, amount: QString): seq<Element> {
    AppendIf(AppendIf(AppendIf([], cheer.hasStatic, StaticEmote), cheer.hasAnimated, AnimatedEmote),
             cheer.hasColor, Amount(amount))
  }

  lemma {:induction false} CheerIsShown(cheer: Cheer, amount: QString)
    ensures var elements := Elements(cheer, amount);
      (StaticEmote in elements <==> cheer.hasStatic)
      && (AnimatedEmote in elements <==> cheer.hasAnimated)
      && (Amount(amount) in elements <==> cheer.hasColor)
      && (forall e :: e in elements ==> e in {StaticEmote, AnimatedEmote, Amount(amount)})
      && forall i, j :: 0 <= i < j < |elements| ==>
           elements[i] == StaticEmote != elements[j] || (elements[i] == AnimatedEmote && elements[j].Amount?)
  {
  }

  function AppendIf(elements: seq<Element>, there: bool, e: Element): seq<Element> {
    if there then elements + [e] else elements
  }

  /** The cheer that is finally accepted for a text with `bits` bits left, if there is one. */
  ghost function Accepted(cheers: Cheermotes, bits: nat, s: QString): (r: Option<Cheer>)
    requires Lawful(cheers)
    ensures r.Some? ==> bits > 0 && ToInt(r.value.captured) <= bits
    decreases |s|, TrailingNumber(s)
  {
    if bits == 0 || cheers(s) == None then None
    else
      var cheer := cheers(s).value;
      if ToInt(cheer.captured) <= bits then Some(cheer)
      else
        RewritingDescends(s, cheer.captured, ToInt(cheer.captured) - bits);
        Accepted(cheers, bits, Rewritten(s, cheer.captured, ToInt(cheer.captured) - bits))
  }

  /** A cheer that asks for more than the bits that are left is tried again with less. */
  lemma {:induction false} AcceptedLater(cheers: Cheermotes, bits: nat, s: QString, captured: QString)
    requires Lawful(cheers) && bits > 0 && cheers(s).Some? && captured == cheers(s).value.captured
    requires Captures(s, captured) && ToInt(captured) > bits
    ensures Accepted(cheers, bits, s) == Accepted(cheers, bits, Rewritten(s, captured, ToInt(captured) - bits))
  {
  }

  /**
   * With a negative number of bits no cheer is accepted: every amount is larger, and as long as it is
   * an `int`, the text it is rewritten to is no less than before.
   */
  lemma {:induction false} NegativeBitsNeverSuffice(s: QString, captured: QString, bits: int)
    requires Captures(s, captured) && bits < 0
    ensures ToInt(captured) > bits
    ensures TrailingNumber(captured) <= INT_MAX ==> !Less(Rewritten(s, captured, ToInt(captured) - bits), s)
  {
    if TrailingNumber(captured) <= INT_MAX {
      var head, n := s[..|s| - |captured|], ToInt(captured) - bits;
      AmountRewrites(captured);
      SmallerIsShorter(TrailingNumber(captured), n);
      NumberReads(n);
      assert s == head + captured;
      if |Number(n)| == |captured| {
        SameDifference(head, Number(n), captured, |captured|);
      }
    }
  }

  lemma {:induction false} NextText(cheers: Cheermotes, bits: nat, s: QString, value: nat)
    requires Lawful(cheers) && bits > 0 && cheers(s).Some?
    requires value == ToInt(cheers(s).value.captured) && value > bits
    ensures |Number(value)| <= |s|
    ensures var r := s[..|s| - |Number(value)|] + Number(value - bits);
      Less(r, s) && Accepted(cheers, bits, s) == Accepted(cheers, bits, r)
  {
    var captured := cheers(s).value.captured;
    AmountRewrites(captured);
    AcceptedLater(cheers, bits, s, captured);
    RewritingDescends(s, captured, value - bits);
  }

  // ----- What is shown of the bits of a message ---------------------------------------------------------------

  /** The sum of the amounts that the first `k` elements show. */
  function ShownUpTo(elements: seq<Element>, k: nat): nat
    requires k <= |elements|
  {
    if k == 0 then 0
    else ShownUpTo(elements, k - 1) + if elements[k - 1].Amount? then ToInt(elements[k - 1].text) else 0
  }

  function Shown(elements: seq<Element>): nat {
    ShownUpTo(elements, |elements|)
  }

  /** How many of the first `k` elements show an amount. */
  function AmountsUpTo(elements: seq<Element>, k: nat): nat
    requires k <= |elements|
  {
    if k == 0 then 0 else AmountsUpTo(elements, k - 1) + if elements[k - 1].Amount? then 1 else 0
  }

  function Amounts(elements: seq<Element>): nat {
    AmountsUpTo(elements, |elements|)
  }

  lemma {:induction false} ShownPrefix(a: seq<Element>, b: seq<Element>, k: nat)
    requires k <= |a|
    ensures ShownUpTo(a + b, k) == ShownUpTo(a, k) && AmountsUpTo(a + b, k) == AmountsUpTo(a, k)
  {
    if k > 0 {
      ShownPrefix(a, b, k - 1);
    }
  }

  lemma {:induction false} ShownConcatUpTo(a: seq<Element>, b: seq<Element>, k: nat)
    requires k <= |b|
    ensures ShownUpTo(a + b, |a| + k) == Shown(a) + ShownUpTo(b, k)
    ensures AmountsUpTo(a + b, |a| + k) == Amounts(a) + AmountsUpTo(b, k)
  {
    if k == 0 {
      ShownPrefix(a, b, |a|);
    } else {
      ShownConcatUpTo(a, b, k - 1);
    }
  }

  lemma {:induction false} ShownConcat(a: seq<Element>, b: seq<Element>)
    ensures Shown(a + b) == Shown(a) + Shown(b) && Amounts(a + b) == Amounts(a) + Amounts(b)
  {
    ShownConcatUpTo(a, b, |b|);
  }

  lemma {:induction false} ShownOne(e: Element)
    ensures Shown([e]) == (if e.Amount? then ToInt(e.text) else 0) && Amounts([e]) == (if e.Amount? then 1 else 0)
  {
    assert ShownUpTo([e], 0) == 0 && AmountsUpTo([e], 0) == 0;
  }

  lemma {:induction false} AppendShows(elements: seq<Element>, there: bool, e: Element)
    ensures Shown(AppendIf(elements, there, e)) == Shown(elements) + if there && e.Amount? then ToInt(e.text) else 0
    ensures Amounts(AppendIf(elements, there, e)) == Amounts(elements) + if there && e.Amount? then 1 else 0
  {
    if there {
      ShownConcat(elements, [e]);
      ShownOne(e);
    }
  }

  /** Of the elements of a cheer, only one shows an amount, and only if its tier has a colour. */
  lemma {:induction false} CheerShows(cheer: Cheer, amount: QString)
    ensures Shown(Elements(cheer, amount)) == if cheer.hasColor then ToInt(amount) else 0
    ensures Amounts(Elements(cheer, amount)) == if cheer.hasColor then 1 else 0
  {
    var s := AppendIf([], cheer.hasStatic, StaticEmote);
    var a := AppendIf(s, cheer.hasAnimated, AnimatedEmote);
    AppendShows([], cheer.hasStatic, StaticEmote);
    AppendShows(s, cheer.hasAnimated, AnimatedEmote);
    AppendShows(a, cheer.hasColor, Amount(amount));
  }

  /** The elements of the first `k` words, given those of each word. */
  function Joined(parts: seq<seq<Element>>, k: nat): seq<Element>
    requires k <= |parts|
  {
    if k == 0 then [] else Joined(parts, k - 1) + parts[k - 1]
  }

  function ShownIn(parts: seq<seq<Element>>, k: nat): nat
    requires k <= |parts|
  {
    if k == 0 then 0 else ShownIn(parts, k - 1) + Shown(parts[k - 1])
  }

  function AmountsIn(parts: seq<seq<Element>>, k: nat): nat
    requires k <= |parts|
  {
    if k == 0 then 0 else AmountsIn(parts, k - 1) + Amounts(parts[k - 1])
  }

  lemma {:induction false} JoinedShows(parts: seq<seq<Element>>, k: nat)
    requires k <= |parts|
    ensures Shown(Joined(parts, k)) == ShownIn(parts, k) && Amounts(Joined(parts, k)) == AmountsIn(parts, k)
  {
    if k > 0 {
      JoinedShows(parts, k - 1);
      ShownConcat(Joined(parts, k - 1), parts[k - 1]);
    }
  }

  // ----- The words of a message, when bits are not stacked ------------------------------------------------------

  /** The bits left after the first `k` words. */
  ghost function LeftAfter(cheers: Cheermotes, bits: nat, words: seq<QString>, k: nat): nat
    requires Lawful(cheers) && k <= |words|
    decreases k, 0
  {
    if k == 0 then bits
    else LeftAfter(cheers, bits, words, k - 1) - TakenBy(AcceptedAt(cheers, bits, words, k - 1))
  }

  /** The cheer that is accepted for word `k`, if there is one. */
  ghost function AcceptedAt(cheers: Cheermotes, bits: nat, words: seq<QString>, k: nat): (r: Option<Cheer>)
    requires Lawful(cheers) && k < |words|
    ensures TakenBy(r) <= LeftAfter(cheers, bits, words, k)
    decreases k, 1
  {
    Accepted(cheers, LeftAfter(cheers, bits, words, k), words[k])
  }

  function TakenBy(accepted: Option<Cheer>): nat {
    if accepted == None then 0 else ToInt(accepted.value.captured)
  }

  function ShownBy(accepted: Option<Cheer>): nat {
    if accepted.Some? && accepted.value.hasColor then TakenBy(accepted) else 0
  }

  /** The cheers that are accepted, word by word. */
  ghost function AllAccepted(cheers: Cheermotes, bits: nat, words: seq<QString>): (all: seq<Option<Cheer>>)
    requires Lawful(cheers)
    ensures |all| == |words| && forall k :: 0 <= k < |words| ==> all[k] == AcceptedAt(cheers, bits, words, k)
  {
    seq(|words|, k requires 0 <= k < |words| => AcceptedAt(cheers, bits, words, k))
  }

  /** The amounts of the first `k` cheers. */
  function TakenUpTo(accepted: seq<Option<Cheer>>, k: nat): nat
    requires k <= |accepted|
  {
    if k == 0 then 0 else TakenUpTo(accepted, k - 1) + TakenBy(accepted[k - 1])
  }

  /** ... of those that have a colour to show it in. */
  function ColoredUpTo(accepted: seq<Option<Cheer>>, k: nat): nat
    requires k <= |accepted|
  {
    if k == 0 then 0 else ColoredUpTo(accepted, k - 1) + ShownBy(accepted[k - 1])
  }

  function EmittedFor(word: QString, accepted: Option<Cheer>): seq<Element> {
    if accepted == None then [OtherText(word)] else Elements(accepted.value, accepted.value.captured)
  }

  /** The elements of each word. */
  function Parts(words: seq<QString>, accepted: seq<Option<Cheer>>): (parts: seq<seq<Element>>)
    requires |words| == |accepted|
    ensures |parts| == |words| && forall k :: 0 <= k < |words| ==> parts[k] == EmittedFor(words[k], accepted[k])
  {
    seq(|words|, k requires 0 <= k < |words| => EmittedFor(words[k], accepted[k]))
  }

  lemma {:induction false} EmittedShows(word: QString, accepted: Option<Cheer>)
    ensures Shown(EmittedFor(word, accepted)) == ShownBy(accepted)
  {
    if accepted == None {
      ShownOne(OtherText(word));
    } else {
      CheerShows(accepted.value, accepted.value.captured);
    }
  }

  lemma {:induction false} PartsShow(parts: seq<seq<Element>>, accepted: seq<Option<Cheer>>, k: nat)
    requires k <= |parts| == |accepted| && forall j :: 0 <= j < |parts| ==> Shown(parts[j]) == ShownBy(accepted[j])
    ensures ShownIn(parts, k) == ColoredUpTo(accepted, k)
  {
    if k > 0 {
      PartsShow(parts, accepted, k - 1);
    }
  }

  /** What is shown is what was taken by cheers with a colour. */
  lemma {:induction false} TakenIsShown(words: seq<QString>, accepted: seq<Option<Cheer>>)
    requires |words| == |accepted|
    ensures Shown(Joined(Parts(words, accepted), |words|)) == ColoredUpTo(accepted, |words|)
  {
    var parts := Parts(words, accepted);
    forall j | 0 <= j < |parts| ensures Shown(parts[j]) == ShownBy(accepted[j]) {
      EmittedShows(words[j], accepted[j]);
    }
    JoinedShows(parts, |words|);
    PartsShow(parts, accepted, |words|);
  }

  /** All accepted cheers have a colour to show their amount in. */
  predicate AllColored(accepted: seq<Option<Cheer>>) {
    forall j :: 0 <= j < |accepted| && accepted[j].Some? ==> accepted[j].value.hasColor
  }

  lemma {:induction false} ColorsShowAll(accepted: seq<Option<Cheer>>, k: nat)
    requires AllColored(accepted) && k <= |accepted|
    ensures ColoredUpTo(accepted, k) == TakenUpTo(accepted, k)
  {
    if k > 0 {
      ColorsShowAll(accepted, k - 1);
    }
  }

  /** What is left and what was taken is what was there. */
  lemma {:induction false} TakenIsGone(cheers: Cheermotes, bits: nat, words: seq<QString>, k: nat)
    requires Lawful(cheers) && k <= |words|
    ensures LeftAfter(cheers, bits, words, k) + TakenUpTo(AllAccepted(cheers, bits, words), k) == bits
  {
    if k > 0 {
      TakenIsGone(cheers, bits, words, k - 1);
    }
  }

  /** The amounts that can be read in the message and the bits that are left make up the tag. */
  lemma {:induction false} BitsAreConserved(cheers: Cheermotes, bits: nat, words: seq<QString>)
    requires Lawful(cheers) && AllColored(AllAccepted(cheers, bits, words))
    ensures var elements := Joined(Parts(words, AllAccepted(cheers, bits, words)), |words|);
      Shown(elements) + LeftAfter(cheers, bits, words, |words|) == bits
  {
    var accepted := AllAccepted(cheers, bits, words);
    TakenIsGone(cheers, bits, words, |words|);
    TakenIsShown(words, accepted);
    ColorsShowAll(accepted, |words|);
  }

  // ----- The words of a message, when bits are stacked ------------------------------------------------------------

  /** The first word from `i` on that a cheermote matches, or the number of words. */
  function FirstCheer(cheers: Cheermotes, words: seq<QString>, i: nat): (first: nat)
    requires i <= |words|
    ensures i <= first <= |words| && (first < |words| ==> cheers(words[first]).Some?)
    ensures forall j :: i <= j < first ==> cheers(words[j]) == None
    decreases |words| - i
  {
    if i == |words| || cheers(words[i]).Some? then i else FirstCheer(cheers, words, i + 1)
  }

  /** What word `k` is shown as: the first cheer shows all bits, and later ones nothing. */
  function StackedFor(cheers: Cheermotes, state: TextState, words: seq<QString>, k: nat): seq<Element>
    requires k < |words|
  {
    if !state.hasBits || state.bitsLeft == 0 || cheers(words[k]) == None then [OtherText(words[k])]
    else if state.bitsStacked || FirstCheer(cheers, words, 0) < k then []
    else Elements(cheers(words[k]).value, SignedNumber(state.bitsLeft))
  }

  function StackedParts(cheers: Cheermotes, state: TextState, words: seq<QString>): (parts: seq<seq<Element>>)
    ensures |parts| == |words| && forall k :: 0 <= k < |words| ==> parts[k] == StackedFor(cheers, state, words, k)
  {
    seq(|words|, k requires 0 <= k < |words| => StackedFor(cheers, state, words, k))
  }

  /** All bits are shown by one of the first `k` words. */
  predicate ShowsStack(cheers: Cheermotes, state: TextState, words: seq<QString>, k: nat) {
    var first := FirstCheer(cheers, words, 0);
    state.hasBits && state.bitsLeft != 0 && !state.bitsStacked
    && first < k && first < |words| && cheers(words[first]).value.hasColor
  }

  lemma {:induction false} StackedForShows(cheers: Cheermotes, state: TextState, words: seq<QString>, k: nat)
    requires k < |words|
    ensures var shows := ShowsStack(cheers, state, words, k + 1) && !ShowsStack(cheers, state, words, k);
      Shown(StackedFor(cheers, state, words, k)) == (if shows then ToInt(SignedNumber(state.bitsLeft)) else 0)
      && Amounts(StackedFor(cheers, state, words, k)) == (if shows then 1 else 0)
  {
    var first := FirstCheer(cheers, words, 0);
    ShownOne(OtherText(words[k]));
    if first == k {
      CheerShows(cheers(words[k]).value, SignedNumber(state.bitsLeft));
    }
  }

  lemma {:induction false} StackedPartsShow(cheers: Cheermotes, state: TextState, words: seq<QString>, k: nat)
    requires k <= |words|
    ensures var parts, shows := StackedParts(cheers, state, words), ShowsStack(cheers, state, words, k);
      ShownIn(parts, k) == (if shows then ToInt(SignedNumber(state.bitsLeft)) else 0)
      && AmountsIn(parts, k) == (if shows then 1 else 0)
  {
    if k > 0 {
      StackedPartsShow(cheers, state, words, k - 1);
      StackedForShows(cheers, state, words, k - 1);
    }
  }

  /** However many cheers there are, all bits are shown at most once, by the first of them. */
  lemma {:induction false} StackIsShownOnce(cheers: Cheermotes, state: TextState, words: seq<QString>)
    ensures var elements := Joined(StackedParts(cheers, state, words), |words|);
      var shows := ShowsStack(cheers, state, words, |words|);
      Shown(elements) == (if shows then ToInt(SignedNumber(state.bitsLeft)) else 0)
      && Amounts(elements) == (if shows then 1 else 0)
  {
    JoinedShows(StackedParts(cheers, state, words), |words|);
    StackedPartsShow(cheers, state, words, |words|);
  }

  // ----- A run over the words of a message --------------------------------------------------------------------------

  /** What a word does without stacking. */
  ghost predicate IsSingleStep(cheers: Cheermotes, was: TextState, before: seq<Element>, word: QString,
                               state: TextState, elements: seq<Element>)
    requires Lawful(cheers) && was.bitsLeft >= 0
  {
    var accepted := Accepted(cheers, BitsOf(was), word);
    state == was.(bitsLeft := was.bitsLeft - TakenBy(accepted)) && elements == before + EmittedFor(word, accepted)
  }

  /** What a word does with stacking. */
  predicate IsStackedStep(cheers: Cheermotes, was: TextState, before: seq<Element>, word: QString,
                          state: TextState, elements: seq<Element>) {
    var matched := was.hasBits && was.bitsLeft != 0 && cheers(word).Some?;
    state == was.(bitsStacked := was.bitsStacked || matched)
    && elements == before + (if !matched then [OtherText(word)]
                             else if was.bitsStacked then []
                             else Elements(cheers(word).value, SignedNumber(was.bitsLeft)))
  }

  /** After `k` words without stacking. */
  ghost predicate IsSingleRun(cheers: Cheermotes, was: TextState, before: seq<Element>, words: seq<QString>, k: nat,
                              state: TextState, elements: seq<Element>)
    requires Lawful(cheers) && was.bitsLeft >= 0 && k <= |words|
  {
    var accepted := AllAccepted(cheers, BitsOf(was), words);
    state == was.(bitsLeft := was.bitsLeft - TakenUpTo(accepted, k)) && state.bitsLeft >= 0
    && elements == before + Joined(Parts(words, accepted), k)
  }

  /** After `k` words with stacking. */
  predicate IsStackedRun(cheers: Cheermotes, was: TextState, before: seq<Element>, words: seq<QString>, k: nat,
                         state: TextState, elements: seq<Element>)
    requires k <= |words|
  {
    var matched := was.hasBits && was.bitsLeft != 0 && FirstCheer(cheers, words, 0) < k;
    state == was.(bitsStacked := was.bitsStacked || matched)
    && elements == before + Joined(StackedParts(cheers, was, words), k)
  }

  /** The next word is judged by the bits that are left. */
  lemma {:induction false} NextIsAccepted(cheers: Cheermotes, was: TextState, before: seq<Element>, words: seq<QString>,
                                          k: nat, state: TextState, elements: seq<Element>)
    requires Lawful(cheers) && was.bitsLeft >= 0 && k < |words|
    requires IsSingleRun(cheers, was, before, words, k, state, elements)
    ensures AllAccepted(cheers, BitsOf(was), words)[k] == Accepted(cheers, BitsOf(state), words[k])
    ensures TakenBy(AllAccepted(cheers, BitsOf(was), words)[k]) <= state.bitsLeft
  {
    TakenIsGone(cheers, BitsOf(was), words, k);
    assert BitsOf(state) == LeftAfter(cheers, BitsOf(was), words, k);
  }

  lemma {:induction false} SingleRunGoesOn(cheers: Cheermotes, was: TextState, before: seq<Element>,
                                           words: seq<QString>, k: nat, state: TextState, elements: seq<Element>,
                                           state': TextState, elements': seq<Element>)
    requires Lawful(cheers) && was.bitsLeft >= 0 && k < |words|
    requires IsSingleRun(cheers, was, before, words, k, state, elements)
    requires IsSingleStep(cheers, state, elements, words[k], state', elements')
    ensures IsSingleRun(cheers, was, before, words, k + 1, state', elements')
  {
    var accepted := AllAccepted(cheers, BitsOf(was), words);
    NextIsAccepted(cheers, was, before, words, k, state, elements);
    ConcatAssociates(before, Joined(Parts(words, accepted), k), EmittedFor(words[k], accepted[k]));
  }

  lemma {:induction false} StackedRunGoesOn(cheers: Cheermotes, was: TextState, before: seq<Element>,
                                            words: seq<QString>, k: nat, state: TextState, elements: seq<Element>,
                                            state': TextState, elements': seq<Element>)
    requires k < |words| && IsStackedRun(cheers, was, before, words, k, state, elements)
    requires IsStackedStep(cheers, state, elements, words[k], state', elements')
    ensures IsStackedRun(cheers, was, before, words, k + 1, state', elements')
  {
    ConcatAssociates(before, Joined(StackedParts(cheers, was, words), k), StackedFor(cheers, was, words, k));
  }

  class MessageBuilder {
    var elements: seq<Element>
    var state: TextState
    const stackBits: bool
    const cheers: Cheermotes

    /** `bits` is the number in the tag of the message, if it has one. */
    constructor (cheers: Cheermotes, stackBits: bool, bits: Option<int>)
      ensures this.cheers == cheers && this.stackBits == stackBits && elements == []
      ensures state == TextState(bits.Some?, if bits.Some? then bits.value else 0, false)
    {
      this.cheers, this.stackBits := cheers, stackBits;
      elements, state := [], TextState(bits.Some?, if bits.Some? then bits.value else 0, false);
    }

    /** With stacking, the first cheer shows all bits, and later ones nothing. */
    method AppendStacked(cheer: Cheer)
      modifies this
      ensures state == old(state).(bitsStacked := true)
      ensures elements == if old(state.bitsStacked) then old(elements)
                          else old(elements) + Elements(cheer, SignedNumber(old(state.bitsLeft)))
    {
      if !state.bitsStacked {
        elements := elements + Elements(cheer, SignedNumber(state.bitsLeft));
        state := state.(bitsStacked := true);
      }
    }

    /**
     * Without stacking, an accepted cheer takes its amount from the bits that are left and shows just
     * that.  For a negative number of bits see `NegativeBitsNeverSuffice`.
     */
    method AppendSingle(s: QString) returns (success: bool)
      requires Lawful(cheers) && state.bitsLeft >= 0 && !stackBits
      modifies this
      ensures TakenFrom(old(state), old(elements), Accepted(cheers, old(state.bitsLeft), s), success)
      decreases |s|, TrailingNumber(s)
    {
      if state.bitsLeft == 0 || cheers(s) == None {
        return false;
      }
      var cheer := cheers(s).value;
      var cheerValue := ToInt(cheer.captured);
      if state.bitsLeft >= cheerValue {
        state := state.(bitsLeft := state.bitsLeft - cheerValue);
        elements := elements + Elements(cheer, cheer.captured);
        return true;
      }
      NextText(cheers, state.bitsLeft, s, cheerValue);
      var newString := s[..|s| - |Number(cheerValue)|] + Number(cheerValue - state.bitsLeft);
      success := AppendSingle(newString);
    }

    /** What an accepted cheer, or none, does to the message. */
    ghost predicate TakenFrom(was: TextState, before: seq<Element>, accepted: Option<Cheer>, success: bool)
      reads this
    {
      state.bitsLeft >= 0 && (success <==> accepted.Some?)
      && (accepted == None ==> state == was && elements == before)
      && (accepted.Some? ==> state == was.(bitsLeft := was.bitsLeft - ToInt(accepted.value.captured)))
      && (accepted.Some? ==> elements == before + Elements(accepted.value, accepted.value.captured))
    }

    method TryAppendCheermote(s: QString) returns (success: bool)
      requires Lawful(cheers) && (!stackBits ==> state.bitsLeft >= 0)
      modifies this
      ensures !stackBits ==> TakenFrom(old(state), old(elements), Accepted(cheers, old(state.bitsLeft), s), success)
      ensures stackBits ==> (success <==> old(state.bitsLeft) != 0 && cheers(s).Some?)
      ensures stackBits ==> state == old(state).(bitsStacked := old(state.bitsStacked) || success)
      ensures stackBits && (!success || old(state.bitsStacked)) ==> elements == old(elements)
      ensures stackBits && success && !old(state.bitsStacked) ==>
        elements == old(elements) + Elements(cheers(s).value, SignedNumber(state.bitsLeft))
    {
      if !stackBits {
        success := AppendSingle(s);
      } else if state.bitsLeft == 0 || cheers(s) == None {
        success := false;
      } else {
        AppendStacked(cheers(s).value);
        success := true;
      }
    }

    /** A word; what is no cheer is shown in another way. */
    method AddTextOrEmote(s: QString)
      requires Lawful(cheers) && (!stackBits ==> state.bitsLeft >= 0)
      modifies this
      ensures !stackBits ==> IsSingleStep(cheers, old(state), old(elements), s, state, elements)
      ensures stackBits ==> IsStackedStep(cheers, old(state), old(elements), s, state, elements)
    {
      if state.hasBits {
        var success := TryAppendCheermote(s);
        if success {
          return;
        }
      }
      elements := elements + [OtherText(s)];
    }

    /** A word without stacking. */
    method AppendNextSingle(words: seq<QString>, k: nat, ghost was: TextState, ghost before: seq<Element>)
      requires k < |words| && Lawful(cheers) && was.bitsLeft >= 0 && !stackBits
      requires IsSingleRun(cheers, was, before, words, k, state, elements)
      modifies this
      ensures IsSingleRun(cheers, was, before, words, k + 1, state, elements)
    {
      ghost var prev, shown := state, elements;
      AddTextOrEmote(words[k]);
      SingleRunGoesOn(cheers, was, before, words, k, prev, shown, state, elements);
    }

    /** A word with stacking. */
    method AppendNextStacked(words: seq<QString>, k: nat, ghost was: TextState, ghost before: seq<Element>)
      requires k < |words| && Lawful(cheers) && stackBits
      requires IsStackedRun(cheers, was, before, words, k, state, elements)
      modifies this
      ensures IsStackedRun(cheers, was, before, words, k + 1, state, elements)
    {
      ghost var prev, shown := state, elements;
      AddTextOrEmote(words[k]);
      StackedRunGoesOn(cheers, was, before, words, k, prev, shown, state, elements);
    }

    /**
     * The words of a message with bits.  Without stacking, what is left and what the cheers have taken
     * is always what was there; what can be read in the new elements is what was taken by cheers with a
     * colour, so that, if all of them have one, it makes up the tag together with what is left.  With
     * stacking, nothing is taken, and all bits are shown at most once.
     */
    method AppendWords(words: seq<QString>)
      requires Lawful(cheers) && (!stackBits ==> state.bitsLeft >= 0)
      modifies this
      ensures !stackBits ==>
        IsSingleRun(cheers, old(state), old(elements), words, |words|, state, elements) && state.bitsLeft >= 0
        && var accepted := AllAccepted(cheers, BitsOf(old(state)), words);
           old(state.bitsLeft) == state.bitsLeft + TakenUpTo(accepted, |words|)
           && Shown(elements) == Shown(old(elements)) + ColoredUpTo(accepted, |words|)
           && (AllColored(accepted) ==>
                 Shown(elements) + state.bitsLeft == Shown(old(elements)) + old(state.bitsLeft))
      ensures stackBits ==>
        IsStackedRun(cheers, old(state), old(elements), words, |words|, state, elements)
        && state.bitsLeft == old(state.bitsLeft)
        && StackShown(old(state), old(elements), words)
    {
      ghost var was, before := state, elements;
      for k := 0 to |words|
        invariant !stackBits ==> IsSingleRun(cheers, was, before, words, k, state, elements)
        invariant stackBits ==> IsStackedRun(cheers, was, before, words, k, state, elements)
      {
        if stackBits {
          AppendNextStacked(words, k, was, before);
        } else {
          AppendNextSingle(words, k, was, before);
        }
      }
      if stackBits {
        StackIsShownOnce(cheers, was, words);
        ShownConcat(before, Joined(StackedParts(cheers, was, words), |words|));
      } else {
        ghost var accepted := AllAccepted(cheers, BitsOf(was), words);
        TakenIsShown(words, accepted);
        ShownConcat(before, Joined(Parts(words, accepted), |words|));
        if AllColored(accepted) {
          ColorsShowAll(accepted, |words|);
        }
      }
    }

    /** At most one amount is new, and it is that of all bits. */
    ghost predicate StackShown(was: TextState, before: seq<Element>, words: seq<QString>)
      reads this
    {
      if ShowsStack(cheers, was, words, |words|) then
        Amounts(elements) == Amounts(before) + 1
        && Shown(elements) == Shown(before) + ToInt(SignedNumber(was.bitsLeft))
      else Amounts(elements) == Amounts(before) && Shown(elements) == Shown(before)
    }
  }

  // ----- What a cheer is given ------------------------------------------------------------------------------------

  /** The amount that a text is given; a text that is no cheer gets nothing. */
  ghost function Given(cheers: Cheermotes, bits: nat, s: QString): (n: nat)
    requires Lawful(cheers)
    ensures n <= bits
  {
    TakenBy(Accepted(cheers, bits, s))
  }

  /** Some cheermote matches the amount `n` behind a text, and captures all of the amount. */
  ghost predicate Matches(cheers: Cheermotes, head: QString, n: nat) {
    var cheer := cheers(head + Number(n));
    cheer.Some? && cheer.value.captured == Number(n)
  }

  /** Rewritten amounts are matched again. */
  ghost predicate Stable(cheers: Cheermotes, head: QString, max: nat) {
    forall n :: 1 <= n <= max ==> Matches(cheers, head, n)
  }

  /**
   * The amount of a cheer that asks for more than is left.  The bits that are left are subtracted
   * again and again, so it is not what is left, but the remainder of the amount by it; the tier that is
   * shown is that of the remainder, too.
   */
  lemma {:induction false} AcceptedAmount(cheers: Cheermotes, head: QString, bits: nat, n: nat)
    requires Lawful(cheers) && Stable(cheers, head, n) && 0 < n <= INT_MAX && bits > 0
    ensures Given(cheers, bits, head + Number(n)) == Within(n, bits)
    ensures Accepted(cheers, bits, head + Number(n)) == cheers(head + Number(Within(n, bits)))
    decreases n
  {
    assert Matches(cheers, head, n);
    if n <= bits {
      NumberToInt(n);
      WithinOfSmall(n, bits);
    } else {
      RewrittenIsAccepted(cheers, head, bits, n);
      AcceptedAmount(cheers, head, bits, n - bits);
      WithinPeriodic(n - bits, bits);
    }
  }

  lemma {:induction false} RewrittenBehind(head: QString, captured: QString, n: nat)
    ensures Rewritten(head + captured, captured, n) == head + Number(n)
  {
    assert (head + captured)[..|head|] == head;
  }

  lemma {:induction false} NumberToInt(n: nat)
    requires n <= INT_MAX
    ensures ToInt(Number(n)) == n
  {
    NumberReads(n);
  }

  lemma {:induction false} RewrittenIsAccepted(cheers: Cheermotes, head: QString, bits: nat, n: nat)
    requires Lawful(cheers) && Matches(cheers, head, n) && bits < n <= INT_MAX && bits > 0
    ensures Accepted(cheers, bits, head + Number(n)) == Accepted(cheers, bits, head + Number(n - bits))
  {
    NumberToInt(n);
    AcceptedLater(cheers, bits, head + Number(n), Number(n));
    RewrittenBehind(head, Number(n), n - bits);
  }
}

/** A cheer that asks for more bits than are left. */
module CheermoteExamples {
  import opened Cheermotes
  import opened Texts
  import opened Wrappers

  const CHEER: QString := ['c' as int, 'h' as int, 'e' as int, 'e' as int, 'r' as int]

  /** A channel with one cheermote, for "cheer" and an amount. */
  function OnlyCheer(s: QString): Option<Cheer> {
    if |s| > 5 && s[..5] == CHEER && IsAmount(s[5..]) then Some(Cheer(s[5..], true, true, true)) else None
  }

  lemma {:induction false} OnlyCheerMatches(n: nat)
    requires n > 0
    ensures Matches(OnlyCheer, CHEER, n)
  {
    NumberReads(n);
    assert (CHEER + Number(n))[..5] == CHEER && (CHEER + Number(n))[5..] == Number(n);
  }

  /** "cheer100" with 30 bits left is given 10 of them. */
  lemma {:induction false} HundredOfThirty()
    ensures Lawful(OnlyCheer) && Given(OnlyCheer, 30, CHEER + Number(100)) == 10
  {
    forall s | OnlyCheer(s).Some? ensures Captures(s, OnlyCheer(s).value.captured) {
      assert s[|s| - |s[5..]|..] == s[5..];
    }
    forall n | 1 <= n <= 100 ensures Matches(OnlyCheer, CHEER, n) {
      OnlyCheerMatches(n);
    }
    AcceptedAmount(OnlyCheer, CHEER, 30, 100);
  }
}
