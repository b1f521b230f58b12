/**
 * Putting newly added personal emotes into the last message of a user
 * (`Channel::upsertPersonalSeventvEmotes`, src/common/Channel.cpp).
 */
module PersonalEmotes {
  import opened Sequences
  import opened Wrappers

  datatype Flag = Text | Emote | OtherFlag(bit: nat)

  datatype EmoteImage = EmoteImage(name: string, zeroWidth: bool)

  datatype Layer = Layer(emote: EmoteImage, flags: set<Flag>)

  /** Links and mentions are text elements too, but they are left alone. */
  datatype TextKind = Plain | Link | Mention

  datatype Element =
    | TextElement(words: seq<string>, kind: TextKind, flags: set<Flag>, style: nat)
    | EmoteElement(emote: EmoteImage, flags: set<Flag>)
    | LayeredEmoteElement(layers: seq<Layer>, flags: set<Flag>)
    | OtherElement(content: nat)

  type EmoteMap = map<string, EmoteImage>

  /** Emotes are found under their name. */
  ghost predicate NamedByKey(emotes: EmoteMap) {
    forall word :: word in emotes ==> emotes[word].name == word
  }

  /** Contains the text of the message. */
  predicate IsMessageText(e: Element) {
    e.TextElement? && e.kind == Plain && Text in e.flags
  }

  // ----- Reading a message --------------------------------------------------------------------------------

  /** What a reader sees: names, of words and emotes alike, and everything that is neither. */
  datatype Token = Name(name: string) | Unchanged(element: Element)

  function Names(words: seq<string>, k: nat): seq<Token>
    requires k <= |words|
  {
    if k == 0 then [] else Names(words, k - 1) + [Name(words[k - 1])]
  }

  function LayerNames(layers: seq<Layer>, k: nat): seq<Token>
    requires k <= |layers|
  {
    if k == 0 then [] else LayerNames(layers, k - 1) + [Name(layers[k - 1].emote.name)]
  }

  function Tokens(e: Element): seq<Token> {
    match e
    case EmoteElement(emote, _) => [Name(emote.name)]
    case LayeredEmoteElement(layers, _) => LayerNames(layers, |layers|)
    case TextElement(words, _, _, _) => if IsMessageText(e) then Names(words, |words|) else [Unchanged(e)]
    case OtherElement(_) => [Unchanged(e)]
  }

  /** What the first `k` elements read as. */
  function ReadUpTo(elements: seq<Element>, k: nat): seq<Token>
    requires k <= |elements|
  {
    if k == 0 then [] else ReadUpTo(elements, k - 1) + Tokens(elements[k - 1])
  }

  function Read(elements: seq<Element>): seq<Token> {
    ReadUpTo(elements, |elements|)
  }

  lemma {:induction false} ReadPrefix(elements: seq<Element>, more: seq<Element>, k: nat)
    requires k <= |elements|
    ensures ReadUpTo(elements + more, k) == ReadUpTo(elements, k)
  {
    if k > 0 {
      ReadPrefix(elements, more, k - 1);
    }
  }

  lemma {:induction false} ReadSnoc(elements: seq<Element>, e: Element)
    ensures Read(elements + [e]) == Read(elements) + Tokens(e)
  {
    ReadPrefix(elements, [e], |elements|);
  }

  lemma {:induction false} NamesPrefix(words: seq<string>, more: seq<string>, k: nat)
    requires k <= |words|
    ensures Names(words + more, k) == Names(words, k)
  {
    if k > 0 {
      NamesPrefix(words, more, k - 1);
    }
  }

  lemma {:induction false} NamesSnoc(words: seq<string>, word: string)
    ensures Names(words + [word], |words| + 1) == Names(words, |words|) + [Name(word)]
  {
    NamesPrefix(words, [word], |words|);
  }

  lemma {:induction false} LayersPrefix(layers: seq<Layer>, more: seq<Layer>, k: nat)
    requires k <= |layers|
    ensures LayerNames(layers + more, k) == LayerNames(layers, k)
  {
    if k > 0 {
      LayersPrefix(layers, more, k - 1);
    }
  }

  // ----- Cutting a text element ------------------------------------------------------------------------------

  /** The elements so far, the words that are not yet in one, and whether an emote was found. */
  datatype Cut = Cut(elements: seq<Element>, words: seq<string>, anyChange: bool)

  /** Ends the pending words with an element of their own, even when there are none (see `FlushesWordsExactly`). */
  function Flushed(cut: Cut, text: Element): Cut
    requires text.TextElement?
  {
    Cut(cut.elements + [text.(words := cut.words)], [], cut.anyChange)
  }

  predicate IsEmote(e: Element) {
    e.EmoteElement? || e.LayeredEmoteElement?
  }

  predicate EndsWithEmote(elements: seq<Element>) {
    elements != [] && IsEmote(elements[|elements| - 1])
  }

  /** Whether a zero-width emote can be laid over the emote in front of it. */
  predicate CanLayer(cut: Cut) {
    cut.words == [] && EndsWithEmote(cut.elements)
  }

  /** An emote with one more layer over it. */
  function WithLayer(e: Element, emote: EmoteImage): Element
    requires IsEmote(e)
  {
    var below := if e.EmoteElement? then [Layer(e.emote, e.flags)] else e.layers;
    LayeredEmoteElement(below + [Layer(emote, {Emote})], e.flags + {Emote})
  }

  function Layered(cut: Cut, emote: EmoteImage): Cut
    requires CanLayer(cut)
  {
    var front, last := cut.elements[..|cut.elements| - 1], cut.elements[|cut.elements| - 1];
    cut.(elements := front + [WithLayer(last, emote)])
  }

  /** One more word of the text. */
  function WithWord(emotes: EmoteMap, cut: Cut, text: Element, word: string): Cut
    requires text.TextElement?
  {
    if word !in emotes then cut.(words := cut.words + [word])
    else
      var changed := cut.(anyChange := true);
      if emotes[word].zeroWidth && CanLayer(cut) then Layered(changed, emotes[word])
      else
        var flushed := Flushed(changed, text);
        flushed.(elements := flushed.elements + [EmoteElement(emotes[word], {Emote})])
  }

  function WithWords(emotes: EmoteMap, before: seq<Element>, text: Element, k: nat): Cut
    requires text.TextElement? && k <= |text.words|
  {
    if k == 0 then Cut(before, [], false)
    else WithWord(emotes, WithWords(emotes, before, text, k - 1), text, text.words[k - 1])
  }

  /** The elements with a text element cut up behind them; without an emote in it, it stays as it is. */
  function WithText(emotes: EmoteMap, before: seq<Element>, text: Element): seq<Element>
    requires text.TextElement?
  {
    var cut := WithWords(emotes, before, text, |text.words|);
    if cut.anyChange then Flushed(cut, text).elements else cut.elements + [text]
  }

  function WithElement(emotes: EmoteMap, before: seq<Element>, e: Element): seq<Element> {
    if IsMessageText(e) then WithText(emotes, before, e) else before + [e]
  }

  /** The first `k` elements, each added to the result by `step`. */
  function Folded(step: (seq<Element>, Element) -> seq<Element>, elements: seq<Element>, k: nat): seq<Element>
    requires k <= |elements|
  {
    if k == 0 then [] else step(Folded(step, elements, k - 1), elements[k - 1])
  }

  function UpsertStep(emotes: EmoteMap): (seq<Element>, Element) -> seq<Element> {
    (before, e) => WithElement(emotes, before, e)
  }

  /** The first `k` elements of a message with the emotes put in. */
  function Upserted(emotes: EmoteMap, elements: seq<Element>, k: nat): seq<Element>
    requires k <= |elements|
  {
    Folded(UpsertStep(emotes), elements, k)
  }

  // ----- The message still reads the same --------------------------------------------------------------------

  /** What a cut reads as, with the pending words. */
  function ReadCut(cut: Cut): seq<Token> {
    Read(cut.elements) + Names(cut.words, |cut.words|)
  }

  lemma {:induction false} FlushReads(cut: Cut, text: Element)
    requires IsMessageText(text)
    ensures Read(Flushed(cut, text).elements) == ReadCut(cut)
  {
    ReadSnoc(cut.elements, text.(words := cut.words));
  }

  lemma {:induction false} LayerTokens(e: Element, emote: EmoteImage)
    requires IsEmote(e)
    ensures Tokens(WithLayer(e, emote)) == Tokens(e) + [Name(emote.name)]
  {
    var below := if e.EmoteElement? then [Layer(e.emote, e.flags)] else e.layers;
    LayersPrefix(below, [Layer(emote, {Emote})], |below|);
    assert e.EmoteElement? ==> LayerNames(below, 0) == [] && LayerNames(below, 1) == [Name(e.emote.name)];
  }

  /** A layer is read behind the emote it is laid over. */
  lemma {:induction false} LayerReads(cut: Cut, emote: EmoteImage)
    requires CanLayer(cut)
    ensures Read(Layered(cut, emote).elements) == Read(cut.elements) + [Name(emote.name)]
  {
    var front, last := cut.elements[..|cut.elements| - 1], cut.elements[|cut.elements| - 1];
    FrontAndLast(cut.elements);
    LayerTokens(last, emote);
    ReadSnoc(front, WithLayer(last, emote));
    ReadSnoc(front, last);
    ConcatAssociates(Read(front), Tokens(last), [Name(emote.name)]);
  }

  lemma {:induction false} WordReads(emotes: EmoteMap, cut: Cut, text: Element, word: string)
    requires NamedByKey(emotes) && IsMessageText(text)
    ensures ReadCut(WithWord(emotes, cut, text, word)) == ReadCut(cut) + [Name(word)]
  {
    if word !in emotes {
      NamesSnoc(cut.words, word);
    } else if emotes[word].zeroWidth && CanLayer(cut) {
      LayerReads(cut.(anyChange := true), emotes[word]);
    } else {
      var flushed := Flushed(cut.(anyChange := true), text);
      FlushReads(cut.(anyChange := true), text);
      ReadSnoc(flushed.elements, EmoteElement(emotes[word], {Emote}));
    }
  }

  lemma {:induction false} WordsRead(emotes: EmoteMap, before: seq<Element>, text: Element, k: nat)
    requires NamedByKey(emotes) && IsMessageText(text) && k <= |text.words|
    ensures ReadCut(WithWords(emotes, before, text, k)) == Read(before) + Names(text.words, k)
  {
    if k > 0 {
      WordsRead(emotes, before, text, k - 1);
      WordReads(emotes, WithWords(emotes, before, text, k - 1), text, text.words[k - 1]);
      ConcatAssociates(Read(before), Names(text.words, k - 1), [Name(text.words[k - 1])]);
    }
  }

  /** Until an emote is found, nothing has been added and all words are pending. */
  lemma {:induction false} UnchangedSoFar(emotes: EmoteMap, before: seq<Element>, text: Element, k: nat)
    requires text.TextElement? && k <= |text.words|
    ensures var cut := WithWords(emotes, before, text, k);
      (!cut.anyChange ==> cut.elements == before)
      && (cut.anyChange <==> exists j :: 0 <= j < k && text.words[j] in emotes)
  {
    if k > 0 {
      UnchangedSoFar(emotes, before, text, k - 1);
    }
  }

  lemma {:induction false} ElementReads(emotes: EmoteMap, before: seq<Element>, e: Element)
    requires NamedByKey(emotes)
    ensures Read(WithElement(emotes, before, e)) == Read(before) + Tokens(e)
  {
    if IsMessageText(e) {
      var cut := WithWords(emotes, before, e, |e.words|);
      WordsRead(emotes, before, e, |e.words|);
      UnchangedSoFar(emotes, before, e, |e.words|);
      FlushReads(cut, e);
      ReadSnoc(before, e);
    } else {
      ReadSnoc(before, e);
    }
  }

  /** What holds of nothing, and goes on holding, holds in the end. */
  lemma {:induction false} FoldKeeps(step: (seq<Element>, Element) -> seq<Element>,
      good: (seq<Element>, nat) -> bool, elements: seq<Element>, k: nat)
    requires k <= |elements| && good([], 0)
    requires forall before, j: nat :: j < |elements| && good(before, j) ==> good(step(before, elements[j]), j + 1)
    ensures good(Folded(step, elements, k), k)
  {
    if k > 0 {
      FoldKeeps(step, good, elements, k - 1);
    }
  }

  /** Words and emotes are read in the same order as before, and everything else is in its place. */
  lemma {:induction false} UpsertKeepsMeaning(emotes: EmoteMap, elements: seq<Element>, k: nat)
    requires NamedByKey(emotes) && k <= |elements|
    ensures Read(Upserted(emotes, elements, k)) == ReadUpTo(elements, k)
  {
    var good := (before: seq<Element>, j: nat) => j <= |elements| && Read(before) == ReadUpTo(elements, j);
    forall before, j: nat | j < |elements| && good(before, j)
      ensures good(UpsertStep(emotes)(before, elements[j]), j + 1)
    {
      ElementReads(emotes, before, elements[j]);
    }
    FoldKeeps(UpsertStep(emotes), good, elements, k);
  }

  // ----- Doing it again changes nothing ----------------------------------------------------------------------

  /** No word of the message text is an emote any more. */
  ghost predicate Clean(emotes: EmoteMap, elements: seq<Element>) {
    forall i :: 0 <= i < |elements| && IsMessageText(elements[i]) ==>
      forall word :: word in elements[i].words ==> word !in emotes
  }

  ghost predicate CleanCut(emotes: EmoteMap, cut: Cut) {
    Clean(emotes, cut.elements) && forall word :: word in cut.words ==> word !in emotes
  }

  lemma {:induction false} WordsAreClean(emotes: EmoteMap, before: seq<Element>, text: Element, k: nat)
    requires text.TextElement? && k <= |text.words| && Clean(emotes, before)
    ensures CleanCut(emotes, WithWords(emotes, before, text, k))
  {
    if k > 0 {
      WordsAreClean(emotes, before, text, k - 1);
    }
  }

  lemma {:induction false} UpsertIsClean(emotes: EmoteMap, elements: seq<Element>, k: nat)
    requires k <= |elements|
    ensures Clean(emotes, Upserted(emotes, elements, k))
  {
    if k > 0 {
      var before, e := Upserted(emotes, elements, k - 1), elements[k - 1];
      UpsertIsClean(emotes, elements, k - 1);
      if IsMessageText(e) {
        WordsAreClean(emotes, before, e, |e.words|);
        UnchangedSoFar(emotes, before, e, |e.words|);
      }
    }
  }

  /** A clean message stays as it is. */
  lemma {:induction false} CleanStays(emotes: EmoteMap, elements: seq<Element>, k: nat)
    requires k <= |elements| && Clean(emotes, elements)
    ensures Upserted(emotes, elements, k) == elements[..k]
  {
    if k > 0 {
      var e := elements[k - 1];
      CleanStays(emotes, elements, k - 1);
      if IsMessageText(e) {
        UnchangedSoFar(emotes, elements[..k - 1], e, |e.words|);
        assert forall j :: 0 <= j < |e.words| ==> e.words[j] !in emotes;
      }
      assert elements[..k] == elements[..k - 1] + [e];
    }
  }

  lemma {:induction false} UpsertIsIdempotent(emotes: EmoteMap, elements: seq<Element>)
    ensures var once := Upserted(emotes, elements, |elements|);
      Upserted(emotes, once, |once|) == once
  {
    var once := Upserted(emotes, elements, |elements|);
    UpsertIsClean(emotes, elements, |elements|);
    CleanStays(emotes, once, |once|);
    assert once[..|once|] == once;
  }

  // ----- Exactly the words that are emotes become emotes --------------------------------------------------------

  /** The emotes of an element, from the bottom up, with their flags. */
  function EmotesOf(e: Element): seq<Layer> {
    match e
    case EmoteElement(emote, flags) => [Layer(emote, flags)]
    case LayeredEmoteElement(layers, _) => layers
    case _ => []
  }

  function AllEmotes(elements: seq<Element>, k: nat): seq<Layer>
    requires k <= |elements|
  {
    if k == 0 then [] else AllEmotes(elements, k - 1) + EmotesOf(elements[k - 1])
  }

  function Emotes(elements: seq<Element>): seq<Layer> {
    AllEmotes(elements, |elements|)
  }

  /** What the first `k` words of a text are to become. */
  function WordEmotes(emotes: EmoteMap, words: seq<string>, k: nat): seq<Layer>
    requires k <= |words|
  {
    if k == 0 then []
    else if words[k - 1] in emotes then WordEmotes(emotes, words, k - 1) + [Layer(emotes[words[k - 1]], {Emote})]
    else WordEmotes(emotes, words, k - 1)
  }

  /** The emotes that are there and those that words are to become, in their order. */
  function WantedEmotes(emotes: EmoteMap, elements: seq<Element>, k: nat): seq<Layer>
    requires k <= |elements|
  {
    if k == 0 then [] else WantedEmotes(emotes, elements, k - 1) + WantedFor(emotes, elements[k - 1])
  }

  function WantedFor(emotes: EmoteMap, e: Element): seq<Layer> {
    if IsMessageText(e) then WordEmotes(emotes, e.words, |e.words|) else EmotesOf(e)
  }

  lemma {:induction false} EmotesPrefix(elements: seq<Element>, more: seq<Element>, k: nat)
    requires k <= |elements|
    ensures AllEmotes(elements + more, k) == AllEmotes(elements, k)
  {
    if k > 0 {
      EmotesPrefix(elements, more, k - 1);
    }
  }

  lemma {:induction false} EmotesSnoc(elements: seq<Element>, e: Element)
    ensures Emotes(elements + [e]) == Emotes(elements) + EmotesOf(e)
  {
    EmotesPrefix(elements, [e], |elements|);
  }

  lemma {:induction false} TextSnoc(elements: seq<Element>, e: Element)
    requires e.TextElement?
    ensures Emotes(elements + [e]) == Emotes(elements)
  {
    EmotesSnoc(elements, e);
  }

  lemma {:induction false} LayerIsEmote(cut: Cut, emote: EmoteImage)
    requires CanLayer(cut)
    ensures Emotes(Layered(cut, emote).elements) == Emotes(cut.elements) + [Layer(emote, {Emote})]
  {
    var front, last := cut.elements[..|cut.elements| - 1], cut.elements[|cut.elements| - 1];
    FrontAndLast(cut.elements);
    EmotesSnoc(front, WithLayer(last, emote));
    EmotesSnoc(front, last);
    ConcatAssociates(Emotes(front), EmotesOf(last), [Layer(emote, {Emote})]);
  }

  lemma {:induction false} WordBecomes(emotes: EmoteMap, cut: Cut, text: Element, word: string)
    requires text.TextElement?
    ensures Emotes(WithWord(emotes, cut, text, word).elements)
         == if word in emotes then Emotes(cut.elements) + [Layer(emotes[word], {Emote})] else Emotes(cut.elements)
  {
    if word in emotes {
      if emotes[word].zeroWidth && CanLayer(cut) {
        LayerIsEmote(cut.(anyChange := true), emotes[word]);
      } else {
        var flushed := cut.elements + [text.(words := cut.words)];
        TextSnoc(cut.elements, text.(words := cut.words));
        EmotesSnoc(flushed, EmoteElement(emotes[word], {Emote}));
      }
    }
  }

  lemma {:induction false} WordsBecome(emotes: EmoteMap, before: seq<Element>, text: Element, k: nat)
    requires text.TextElement? && k <= |text.words|
    ensures Emotes(WithWords(emotes, before, text, k).elements)
         == Emotes(before) + WordEmotes(emotes, text.words, k)
  {
    if k > 0 {
      var word := text.words[k - 1];
      WordsBecome(emotes, before, text, k - 1);
      WordBecomes(emotes, WithWords(emotes, before, text, k - 1), text, word);
      if word in emotes {
        ConcatAssociates(Emotes(before), WordEmotes(emotes, text.words, k - 1), [Layer(emotes[word], {Emote})]);
      }
    }
  }

  lemma {:induction false} ElementBecomes(emotes: EmoteMap, before: seq<Element>, e: Element)
    ensures Emotes(WithElement(emotes, before, e)) == Emotes(before) + WantedFor(emotes, e)
  {
    if IsMessageText(e) {
      var cut := WithWords(emotes, before, e, |e.words|);
      WordsBecome(emotes, before, e, |e.words|);
      TextSnoc(cut.elements, e.(words := cut.words));
      TextSnoc(cut.elements, e);
    } else {
      EmotesSnoc(before, e);
    }
  }

  /**
   * The emotes of the new message are, in order and with their flags and layers, those of the old one and,
   * where they stand, those that its words name; no word that is an emote is left in its text.
   */
  lemma {:induction false} UpsertEmotesExactly(emotes: EmoteMap, elements: seq<Element>, k: nat)
    requires k <= |elements|
    ensures Emotes(Upserted(emotes, elements, k)) == WantedEmotes(emotes, elements, k)
    ensures Clean(emotes, Upserted(emotes, elements, k))
  {
    UpsertIsClean(emotes, elements, k);
    if k > 0 {
      UpsertEmotesExactly(emotes, elements, k - 1);
      ElementBecomes(emotes, Upserted(emotes, elements, k - 1), elements[k - 1]);
    }
  }

  // ----- Text elements without words -------------------------------------------------------------------------

  predicate HasNoWords(e: Element) {
    e.TextElement? && e.words == []
  }

  predicate AllHaveWords(elements: seq<Element>, from: nat) {
    forall i :: from <= i < |elements| ==> !HasNoWords(elements[i])
  }

  /** If the word is an emote, it is behind a word that is none, or it is laid over the emote in front of it. */
  predicate HasWordsInFront(emotes: EmoteMap, afterEmote: bool, words: seq<string>, j: nat)
    requires j < |words|
  {
    words[j] !in emotes
    || (j > 0 && words[j - 1] !in emotes)
    || (emotes[words[j]].zeroWidth && (j > 0 || afterEmote))
  }

  predicate HaveWordsInFront(emotes: EmoteMap, afterEmote: bool, words: seq<string>, k: nat)
    requires k <= |words|
  {
    forall j :: 0 <= j < k ==> HasWordsInFront(emotes, afterEmote, words, j)
  }

  /** There are words to flush whenever they are flushed; at the end, the last one must not be an emote. */
  predicate AlwaysFlushesWords(emotes: EmoteMap, afterEmote: bool, words: seq<string>) {
    words != [] && words[|words| - 1] !in emotes && HaveWordsInFront(emotes, afterEmote, words, |words|)
  }

  /** What is known of a cut behind the first `k` words, looking at the elements from `from` on. */
  predicate IsCutAt(emotes: EmoteMap, before: seq<Element>, words: seq<string>, k: nat, from: nat, cut: Cut)
    requires k <= |words|
  {
    |cut.elements| >= |before|
    && (cut.words == [] <==> k == 0 || words[k - 1] in emotes)
    && (cut.words == [] ==> EndsWithEmote(cut.elements) == (k > 0 || EndsWithEmote(before)))
    && (AllHaveWords(cut.elements, from)
        <==> AllHaveWords(before, from) && HaveWordsInFront(emotes, EndsWithEmote(before), words, k))
  }

  lemma {:induction false} WordsOfSnoc(elements: seq<Element>, e: Element, from: nat)
    requires from <= |elements|
    ensures AllHaveWords(elements + [e], from) <==> AllHaveWords(elements, from) && !HasNoWords(e)
  {
    assert (elements + [e])[|elements|] == e;
    assert forall i :: from <= i < |elements| ==> (elements + [e])[i] == elements[i];
  }

  /** A layer leaves all text elements alone. */
  lemma {:induction false} WordsOfLayered(cut: Cut, emote: EmoteImage, from: nat)
    requires CanLayer(cut)
    ensures var after := Layered(cut, emote).elements;
      |after| == |cut.elements| && EndsWithEmote(after)
      && (AllHaveWords(after, from) <==> AllHaveWords(cut.elements, from))
  {
    var after := Layered(cut, emote).elements;
    forall i | 0 <= i < |after| ensures HasNoWords(after[i]) <==> HasNoWords(cut.elements[i]) {
    }
  }

  lemma {:induction false} InFrontOfNext(emotes: EmoteMap, afterEmote: bool, words: seq<string>, k: nat)
    requires k < |words|
    ensures HaveWordsInFront(emotes, afterEmote, words, k + 1)
         <==> HaveWordsInFront(emotes, afterEmote, words, k) && HasWordsInFront(emotes, afterEmote, words, k)
  {
  }

  lemma {:induction false} CutAtNext(emotes: EmoteMap, before: seq<Element>, text: Element, k: nat, from: nat,
      cut: Cut)
    requires text.TextElement? && k < |text.words| && from <= |before|
    requires IsCutAt(emotes, before, text.words, k, from, cut)
    ensures IsCutAt(emotes, before, text.words, k + 1, from, WithWord(emotes, cut, text, text.words[k]))
  {
    var word := text.words[k];
    InFrontOfNext(emotes, EndsWithEmote(before), text.words, k);
    if word in emotes {
      if emotes[word].zeroWidth && CanLayer(cut) {
        WordsOfLayered(cut.(anyChange := true), emotes[word], from);
      } else {
        var flushed := text.(words := cut.words);
        WordsOfSnoc(cut.elements, flushed, from);
        WordsOfSnoc(cut.elements + [flushed], EmoteElement(emotes[word], {Emote}), from);
      }
    }
  }

  lemma {:induction false} CutAt(emotes: EmoteMap, before: seq<Element>, text: Element, k: nat, from: nat)
    requires text.TextElement? && k <= |text.words| && from <= |before|
    ensures IsCutAt(emotes, before, text.words, k, from, WithWords(emotes, before, text, k))
  {
    if k > 0 {
      CutAt(emotes, before, text, k - 1, from);
      CutAtNext(emotes, before, text, k - 1, from, WithWords(emotes, before, text, k - 1));
    }
  }

  lemma {:induction false} TextHasWords(emotes: EmoteMap, before: seq<Element>, text: Element, from: nat)
    requires text.TextElement? && from <= |before|
    ensures var after := WithText(emotes, before, text);
      |after| > |before| && !EndsWithEmote(after)
      && (AllHaveWords(after, from)
          <==> AllHaveWords(before, from) && AlwaysFlushesWords(emotes, EndsWithEmote(before), text.words))
  {
    var n := |text.words|;
    var cut := WithWords(emotes, before, text, n);
    CutAt(emotes, before, text, n, from);
    UnchangedSoFar(emotes, before, text, n);
    WordsOfSnoc(cut.elements, text.(words := cut.words), from);
    WordsOfSnoc(cut.elements, text, from);
    if !cut.anyChange {
      assert forall j :: 0 <= j < n ==> text.words[j] !in emotes;
      assert n > 0 ==> text.words[n - 1] !in emotes;
    }
  }

  lemma {:induction false} InFrontByPlace(emotes: EmoteMap, afterEmote: bool, words: seq<string>)
    requires words != []
    ensures HaveWordsInFront(emotes, afterEmote, words, |words|)
       <==> (forall j :: 0 < j < |words| && words[j] in emotes && words[j - 1] in emotes ==>
               emotes[words[j]].zeroWidth)
            && (words[0] in emotes ==> emotes[words[0]].zeroWidth && afterEmote)
  {
    if HaveWordsInFront(emotes, afterEmote, words, |words|) {
      assert HasWordsInFront(emotes, afterEmote, words, 0);
      forall j | 0 < j < |words| && words[j] in emotes && words[j - 1] in emotes ensures emotes[words[j]].zeroWidth {
        assert HasWordsInFront(emotes, afterEmote, words, j);
      }
    } else {
      var j :| 0 <= j < |words| && !HasWordsInFront(emotes, afterEmote, words, j);
      assert j > 0 ==> words[j] in emotes && words[j - 1] in emotes && !emotes[words[j]].zeroWidth;
    }
  }

  /**
   * The documented precondition of `flush` is met for a text with words, so that no text element without
   * words is appended, if and only if its last word is no emote, every emote right behind an emote is
   * zero-width, and a first word that is an emote is zero-width and behind an emote.
   */
  lemma {:induction false} FlushesWordsExactly(emotes: EmoteMap, before: seq<Element>, text: Element)
    requires text.TextElement? && text.words != []
    ensures AllHaveWords(WithText(emotes, before, text), |before|)
       <==> text.words[|text.words| - 1] !in emotes
            && (forall j :: 0 < j < |text.words| && text.words[j] in emotes && text.words[j - 1] in emotes ==>
                  emotes[text.words[j]].zeroWidth)
            && (text.words[0] in emotes ==> emotes[text.words[0]].zeroWidth && EndsWithEmote(before))
  {
    TextHasWords(emotes, before, text, |before|);
    InFrontByPlace(emotes, EndsWithEmote(before), text.words);
  }

  /** What is made of the element at `i` has words wherever it is text. */
  predicate LeavesWords(emotes: EmoteMap, elements: seq<Element>, i: nat)
    requires i < |elements|
  {
    if IsMessageText(elements[i])
    then AlwaysFlushesWords(emotes, i > 0 && IsEmote(elements[i - 1]), elements[i].words)
    else !HasNoWords(elements[i])
  }

  predicate AllLeaveWords(emotes: EmoteMap, elements: seq<Element>, k: nat)
    requires k <= |elements|
  {
    forall i :: 0 <= i < k ==> LeavesWords(emotes, elements, i)
  }

  lemma {:induction false} NextLeavesWords(emotes: EmoteMap, elements: seq<Element>, k: nat)
    requires k < |elements|
    ensures AllLeaveWords(emotes, elements, k + 1)
       <==> AllLeaveWords(emotes, elements, k) && LeavesWords(emotes, elements, k)
  {
  }

  /** The same for whole messages, by the words before the call. */
  lemma {:induction false} UpsertHasWordsExactly(emotes: EmoteMap, elements: seq<Element>, k: nat)
    requires k <= |elements|
    ensures AllHaveWords(Upserted(emotes, elements, k), 0)
       <==> AllLeaveWords(emotes, elements, k)
    ensures EndsWithEmote(Upserted(emotes, elements, k)) <==> k > 0 && IsEmote(elements[k - 1])
  {
    if k > 0 {
      var before, e := Upserted(emotes, elements, k - 1), elements[k - 1];
      UpsertHasWordsExactly(emotes, elements, k - 1);
      NextLeavesWords(emotes, elements, k - 1);
      if IsMessageText(e) {
        TextHasWords(emotes, before, e, 0);
      } else {
        WordsOfSnoc(before, e, 0);
      }
    }
  }

  /** An emote at the start of a message leaves a text element without words in front of it. */
  lemma {:induction false} LeadingEmoteFlushesNothing(emotes: EmoteMap, style: nat)
    requires emotes == map["Kappa" := EmoteImage("Kappa", false)]
    ensures var text := TextElement(["Kappa", "hi"], Plain, {Text}, style);
      Upserted(emotes, [text], 1)
      == [text.(words := []), EmoteElement(emotes["Kappa"], {Emote}), text.(words := ["hi"])]
  {
    var text := TextElement(["Kappa", "hi"], Plain, {Text}, style);
    var afterFirst := Cut([text.(words := []), EmoteElement(emotes["Kappa"], {Emote})], [], true);
    assert WithWords(emotes, [], text, 1) == afterFirst;
    assert WithWords(emotes, [], text, 2) == afterFirst.(words := ["hi"]);
    assert Upserted(emotes, [text], 0) == [];
  }

  // ----- The loops -------------------------------------------------------------------------------------------

  /** The last of the messages, at most five of them, that is from the user. */
  method FindMessage(loginNames: seq<string>, userLogin: string) returns (found: Option<nat>)
    ensures found == None <==> forall i :: 0 <= i < |loginNames| && i >= |loginNames| - 5 ==> loginNames[i] != userLogin
    ensures found.Some? ==> found.value < |loginNames| && found.value >= |loginNames| - 5
                            && loginNames[found.value] == userLogin && userLogin !in loginNames[found.value + 1..]
  {
    var end := if |loginNames| > 5 then |loginNames| - 5 else 0;
    var i := |loginNames| - 1;
    while i >= end
      invariant end - 1 <= i < |loginNames|
      invariant forall j :: i < j < |loginNames| ==> loginNames[j] != userLogin
    {
      if loginNames[i] == userLogin {
        return Some(i);
      }
      i := i - 1;
    }
    return None;
  }

  class MessageElements {
    var elements: seq<Element>

    constructor ()
      ensures elements == []
    {
      elements := [];
    }

    /** The loop over the words of a text element. */
    method UpsertWords(emotes: EmoteMap, text: Element)
      requires text.TextElement?
      modifies this
      ensures elements == WithText(emotes, old(elements), text)
    {
      var words: seq<string>, anyChange := [], false;
      for k := 0 to |text.words|
        invariant Cut(elements, words, anyChange) == WithWords(emotes, old(elements), text, k)
      {
        var word := text.words[k];
        if word !in emotes {
          words := words + [word];
          continue;
        }
        anyChange := true;
        if emotes[word].zeroWidth && CanLayer(Cut(elements, words, anyChange)) {
          elements := Layered(Cut(elements, words, anyChange), emotes[word]).elements;
          continue;
        }
        elements := elements + [text.(words := words)];
        words := [];
        elements := elements + [EmoteElement(emotes[word], {Emote})];
      }
      if anyChange {
        elements := elements + [text.(words := words)];
      } else {
        elements := elements + [text];
      }
    }

    /** All elements of the message. */
    method Upsert(emotes: EmoteMap, message: seq<Element>)
      requires elements == []
      modifies this
      ensures elements == Upserted(emotes, message, |message|)
      ensures NamedByKey(emotes) ==> Read(elements) == Read(message)
    {
      for k := 0 to |message|
        invariant elements == Upserted(emotes, message, k)
      {
        if IsMessageText(message[k]) {
          UpsertWords(emotes, message[k]);
        } else {
          elements := elements + [message[k]];
        }
      }
      if NamedByKey(emotes) {
        UpsertKeepsMeaning(emotes, message, |message|);
      }
    }
  }
}
