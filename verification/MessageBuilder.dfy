/** Cutting a message into emotes and text (`MessageBuilder::addWords`, src/messages/MessageBuilder.cpp). */
module WordBuilding {
  import opened Sequences
  import opened Texts

  /**
   * Where an emote occurs in a message.  `end` is the last index of the emote for an occurrence that
   * Twitch announced, and the one behind it for one that a replaced phrase brought in.
   */
  datatype Occurrence = Occurrence(start: int, end: int, name: QString)

  /** A piece of text as the emoji parser cuts it; both kinds carry the text they stand for. */
  datatype Piece = Emoji(text: QString) | Plain(text: QString)

  datatype Element =
    | EmoteElement(occurrence: Occurrence, trailingSpace: bool)
    | PieceElement(piece: Piece)

  /** The emoji parser; its pieces make up its input again. */
  ghost predicate Lawful(parse: QString -> seq<Piece>) {
    forall text :: Text(parse(text)) == text
  }

  function Text(pieces: seq<Piece>): QString {
    if pieces == [] then [] else pieces[0].text + Text(pieces[1..])
  }

  // ----- Reading elements -----------------------------------------------------------------------------------

  /** The text that elements stand for. */
  function Spelled(elements: seq<Element>): QString {
    if elements == [] then [] else
      var last := elements[|elements| - 1];
      Spelled(elements[..|elements| - 1]) + if last.EmoteElement? then last.occurrence.name else last.piece.text
  }

  /** The emotes among elements. */
  function Emotes(elements: seq<Element>): seq<Occurrence> {
    if elements == [] then [] else
      var last := elements[|elements| - 1];
      Emotes(elements[..|elements| - 1]) + if last.EmoteElement? then [last.occurrence] else []
  }

  /** Within a word, exactly an emote that ends it is followed by a space. */
  ghost predicate SpacedAtEnd(elements: seq<Element>, done: bool) {
    forall k :: 0 <= k < |elements| && elements[k].EmoteElement? ==>
      (elements[k].trailingSpace <==> k == |elements| - 1 && done)
  }

  /** Every emote stands where it occurs: in front of it, as much is spelled as lies between `base` and its start. */
  ghost predicate EmotesAt(base: nat, elements: seq<Element>) {
    forall k :: 0 <= k < |elements| && elements[k].EmoteElement? ==>
      base + |Spelled(elements[..k])| == elements[k].occurrence.start
  }

  function Pieces(pieces: seq<Piece>): (elements: seq<Element>)
    ensures |elements| == |pieces|
    ensures forall k :: 0 <= k < |elements| ==> elements[k] == PieceElement(pieces[k])
  {
    if pieces == [] then [] else [PieceElement(pieces[0])] + Pieces(pieces[1..])
  }

  lemma {:induction false} ReadingConcat(a: seq<Element>, b: seq<Element>)
    ensures Spelled(a + b) == Spelled(a) + Spelled(b) && Emotes(a + b) == Emotes(a) + Emotes(b)
  {
    if b == [] {
      assert a + b == a;
    } else {
      assert (a + b)[..|a + b| - 1] == a + b[..|b| - 1];
      ReadingConcat(a, b[..|b| - 1]);
    }
  }

  lemma {:induction false} PiecesSpell(pieces: seq<Piece>)
    ensures Spelled(Pieces(pieces)) == Text(pieces) && Emotes(Pieces(pieces)) == []
  {
    if pieces != [] {
      PiecesSpell(pieces[1..]);
      ReadingConcat([PieceElement(pieces[0])], Pieces(pieces[1..]));
      assert Spelled([PieceElement(pieces[0])]) == pieces[0].text;
    }
  }

  lemma {:induction false} OneEmote(o: Occurrence, space: bool)
    ensures Spelled([EmoteElement(o, space)]) == o.name && Emotes([EmoteElement(o, space)]) == [o]
  {
  }

  lemma {:induction false} EmotesAtEmote(base: nat, elements: seq<Element>, o: Occurrence, space: bool)
    requires EmotesAt(base, elements) && base + |Spelled(elements)| == o.start
    ensures EmotesAt(base, elements + [EmoteElement(o, space)])
  {
    var all := elements + [EmoteElement(o, space)];
    forall k | 0 <= k < |all| && all[k].EmoteElement? ensures base + |Spelled(all[..k])| == all[k].occurrence.start {
      assert all[..k] == elements[..k];
      assert elements[..|elements|] == elements;
    }
  }

  lemma {:induction false} EmotesAtPieces(base: nat, elements: seq<Element>, pieces: seq<Piece>)
    requires EmotesAt(base, elements)
    ensures EmotesAt(base, elements + Pieces(pieces))
  {
    var all := elements + Pieces(pieces);
    forall k | 0 <= k < |all| && all[k].EmoteElement? ensures base + |Spelled(all[..k])| == all[k].occurrence.start {
      assert all[..k] == elements[..k];
    }
  }

  // ----- Where words and emotes are ---------------------------------------------------------------------------

  /** Where word `w` starts in the message; words are one space apart. */
  function Offset(words: seq<QString>, w: nat): nat
    requires w <= |words|
  {
    if w == 0 then 0 else Offset(words, w - 1) + |words[w - 1]| + 1
  }

  /** The occurrence covers its name inside word `w`. */
  predicate LiesIn(words: seq<QString>, w: nat, o: Occurrence)
    requires w < |words|
  {
    var from := o.start - Offset(words, w);
    0 <= from && o.name != [] && from + |o.name| <= |words[w]|
    && words[w][from..from + |o.name|] == o.name
    && o.start <= o.end <= Offset(words, w) + |words[w]|
  }

  /** In order, apart from each other, and each inside a word. */
  ghost predicate WellPlaced(words: seq<QString>, emotes: seq<Occurrence>) {
    (forall i :: 0 <= i < |emotes| ==> exists w :: 0 <= w < |words| && LiesIn(words, w, emotes[i]))
    && (forall i, j :: 0 <= i < j < |emotes| ==> emotes[i].start + |emotes[i].name| <= emotes[j].start)
  }

  lemma {:induction false} OffsetGrows(words: seq<QString>, w: nat, v: nat)
    requires w < v <= |words|
    ensures Offset(words, w) + |words[w]| + 1 <= Offset(words, v)
  {
    if w < v - 1 {
      OffsetGrows(words, w, v - 1);
    }
  }

  /** An occurrence that starts in word `w` lies in it; one that starts behind it, behind it. */
  lemma {:induction false} OccurrencePlace(words: seq<QString>, emotes: seq<Occurrence>, i: nat, w: nat)
    requires WellPlaced(words, emotes) && i < |emotes| && w < |words| && Offset(words, w) <= emotes[i].start
    ensures if emotes[i].end <= Offset(words, w) + |words[w]| then LiesIn(words, w, emotes[i])
            else emotes[i].start >= Offset(words, w + 1)
  {
    var v :| 0 <= v < |words| && LiesIn(words, v, emotes[i]);
    if v < w {
      OffsetGrows(words, v, w);
    } else if w < v {
      OffsetGrows(words, w, v);
    }
  }

  // ----- The loops --------------------------------------------------------------------------------------------

  function Left(s: QString, n: nat): QString {
    if n <= |s| then s[..n] else s
  }

  function Mid(s: QString, n: nat): QString {
    if n <= |s| then s[n..] else []
  }

  lemma {:induction false} RestIsShorter(s: QString, n: nat)
    requires s != [] && n > 0
    ensures |Mid(s, |Left(s, n)|)| < |s|
  {
  }

  /** The emote is next and, as far as its indices say, inside what is left of the word. */
  predicate DoesWordContainATwitchEmote(cursor: nat, word: QString, emotes: seq<Occurrence>, it: nat) {
    it < |emotes| && !(emotes[it].start < cursor || emotes[it].end > cursor + |word|)
  }

  /** What has been done with word `w`: `done` of it is spelled, and the emotes up to `it` are emitted. */
  ghost predicate WordSoFar(words: seq<QString>, emotes: seq<Occurrence>, w: nat, first: nat,
                            cursor: nat, word: QString, it: nat, elements: seq<Element>)
    requires w < |words|
  {
    var done := |words[w]| - |word|;
    first <= it <= |emotes| && 0 <= done && word == words[w][done..] && cursor == Offset(words, w) + done
    && Spelled(elements) == words[w][..done] && Emotes(elements) == emotes[first..it]
    && SpacedAtEnd(elements, word == []) && EmotesAt(Offset(words, w), elements)
    && forall i :: it <= i < |emotes| ==> emotes[i].start >= cursor
  }

  ghost predicate Doing(words: seq<QString>, emotes: seq<Occurrence>, w: nat, first: nat,
                        cursor: nat, word: QString, it: nat, elements: seq<Element>)
  {
    WellPlaced(words, emotes) && w < |words| && WordSoFar(words, emotes, w, first, cursor, word, it, elements)
  }

  /** Elements for the next `n` characters of a text. */
  lemma {:induction false} SpellsOn(text: QString, done: nat, n: nat, elements: seq<Element>, added: seq<Element>)
    requires done + n <= |text| && Spelled(elements) == text[..done] && Spelled(added) == text[done..done + n]
    ensures Spelled(elements + added) == text[..done + n]
  {
    ReadingConcat(elements, added);
    assert text[..done] + text[done..done + n] == text[..done + n];
  }

  lemma {:induction false} EmitsOn(emotes: seq<Occurrence>, first: nat, it: nat, elements: seq<Element>,
      added: seq<Element>)
    requires first <= it < |emotes| && Emotes(elements) == emotes[first..it] && Emotes(added) == [emotes[it]]
    ensures Emotes(elements + added) == emotes[first..it + 1]
  {
    ReadingConcat(elements, added);
    SliceGrows(emotes, first, it);
  }

  lemma {:induction false} RestOfRest(text: QString, done: nat, n: nat)
    requires done + n <= |text|
    ensures text[done..][n..] == text[done + n..] && text[done..][..n] == text[done..done + n]
  {
  }

  /** An emote at the cursor, which lies in the word. */
  lemma {:induction false} EmoteStep(words: seq<QString>, emotes: seq<Occurrence>, w: nat, first: nat,
                  cursor: nat, word: QString, it: nat, elements: seq<Element>)
    requires w < |words| && WordSoFar(words, emotes, w, first, cursor, word, it, elements)
    requires it < |emotes| && emotes[it].start == cursor && LiesIn(words, w, emotes[it]) && word != []
    requires forall i :: it < i < |emotes| ==> emotes[i].start >= cursor + |emotes[it].name|
    ensures var len := |emotes[it].name|; var rest := Mid(word, len);
      WordSoFar(words, emotes, w, first, cursor + len, rest, it + 1, elements + [EmoteElement(emotes[it], rest == [])])
  {
    var o, done := emotes[it], |words[w]| - |word|;
    var added := [EmoteElement(o, Mid(word, |o.name|) == [])];
    OneEmote(o, Mid(word, |o.name|) == []);
    RestOfRest(words[w], done, |o.name|);
    SpellsOn(words[w], done, |o.name|, elements, added);
    EmitsOn(emotes, first, it, elements, added);
    EmotesAtEmote(Offset(words, w), elements, o, Mid(word, |o.name|) == []);
  }

  lemma {:induction false} EmoteAtCursor(words: seq<QString>, emotes: seq<Occurrence>, w: nat, first: nat,
                      cursor: nat, word: QString, it: nat, elements: seq<Element>)
    requires Doing(words, emotes, w, first, cursor, word, it, elements)
    requires DoesWordContainATwitchEmote(cursor, word, emotes, it) && emotes[it].start == cursor
    ensures var len := |emotes[it].name|; var rest := Mid(word, len);
      Doing(words, emotes, w, first, cursor + len, rest, it + 1, elements + [EmoteElement(emotes[it], rest == [])])
  {
    OccurrencePlace(words, emotes, it, w);
    EmoteStep(words, emotes, w, first, cursor, word, it, elements);
  }

  /** Text in front of the next emote. */
  lemma {:induction false} TextStep(words: seq<QString>, emotes: seq<Occurrence>, w: nat, first: nat,
                 cursor: nat, word: QString, it: nat, elements: seq<Element>, pieces: seq<Piece>, n: nat)
    requires w < |words| && WordSoFar(words, emotes, w, first, cursor, word, it, elements)
    requires 0 < n <= |word| && Text(pieces) == word[..n]
    requires forall i :: it <= i < |emotes| ==> emotes[i].start >= cursor + n
    ensures WordSoFar(words, emotes, w, first, cursor + n, word[n..], it, elements + Pieces(pieces))
  {
    RestOfRest(words[w], |words[w]| - |word|, n);
    PiecesStep(words[w], |words[w]| - |word|, n, elements, pieces);
    PiecesAreNoEmotes(elements, pieces);
    EmotesAtPieces(Offset(words, w), elements, pieces);
  }

  lemma {:induction false} PiecesStep(text: QString, done: nat, n: nat, elements: seq<Element>, pieces: seq<Piece>)
    requires done + n <= |text| && Spelled(elements) == text[..done] && Text(pieces) == text[done..done + n]
    ensures Spelled(elements + Pieces(pieces)) == text[..done + n]
    ensures Emotes(elements + Pieces(pieces)) == Emotes(elements)
  {
    PiecesSpell(pieces);
    SpellsOn(text, done, n, elements, Pieces(pieces));
    ReadingConcat(elements, Pieces(pieces));
  }

  lemma {:induction false} PiecesAreNoEmotes(elements: seq<Element>, pieces: seq<Piece>)
    requires SpacedAtEnd(elements, false) && Text(pieces) != []
    ensures SpacedAtEnd(elements + Pieces(pieces), true) && SpacedAtEnd(elements + Pieces(pieces), false)
  {
  }

  /** Elements that show word `w`: they spell it, and its emotes are where they occur. */
  ghost predicate WordShown(words: seq<QString>, w: nat, elements: seq<Element>)
    requires w < |words|
  {
    Spelled(elements) == words[w] && SpacedAtEnd(elements, true) && EmotesAt(Offset(words, w), elements)
  }

  /** The elements of word `w` show it, with the emotes that lie in it. */
  ghost predicate WordDone(words: seq<QString>, emotes: seq<Occurrence>, w: nat, first: nat, it: nat,
      elements: seq<Element>)
    requires w < |words|
  {
    first <= it <= |emotes| && WordShown(words, w, elements) && Emotes(elements) == emotes[first..it]
    && forall i :: it <= i < |emotes| ==> emotes[i].start >= Offset(words, w + 1)
  }

  /** No more emotes lie in the word, so the rest of it is text. */
  lemma {:induction false} RestIsText(words: seq<QString>, emotes: seq<Occurrence>, w: nat, first: nat,
                   cursor: nat, word: QString, it: nat, elements: seq<Element>)
    requires Doing(words, emotes, w, first, cursor, word, it, elements)
    requires !DoesWordContainATwitchEmote(cursor, word, emotes, it) || word == []
    ensures forall i :: it <= i < |emotes| ==> emotes[i].start >= Offset(words, w + 1)
  {
    forall i | it <= i < |emotes| ensures emotes[i].start >= Offset(words, w + 1) {
      OccurrencePlace(words, emotes, it, w);
      assert i > it ==> emotes[it].start + |emotes[it].name| <= emotes[i].start;
    }
  }

  lemma {:induction false} WordEnds(words: seq<QString>, emotes: seq<Occurrence>, w: nat, first: nat,
                 cursor: nat, it: nat, elements: seq<Element>)
    requires Doing(words, emotes, w, first, cursor, [], it, elements)
    ensures WordDone(words, emotes, w, first, it, elements) && cursor + 1 == Offset(words, w + 1)
  {
    RestIsText(words, emotes, w, first, cursor, [], it, elements);
    assert words[w][..|words[w]|] == words[w];
  }

  /** The text in front of the next emote is not the whole rest of the word. */
  lemma {:induction false} TextBeforeEmote(words: seq<QString>, emotes: seq<Occurrence>, w: nat, first: nat,
                        cursor: nat, word: QString, it: nat, elements: seq<Element>, pieces: seq<Piece>)
    requires Doing(words, emotes, w, first, cursor, word, it, elements)
    requires DoesWordContainATwitchEmote(cursor, word, emotes, it) && emotes[it].start > cursor
    requires Text(pieces) == Left(word, emotes[it].start - cursor)
    ensures var n := |Left(word, emotes[it].start - cursor)|;
      n < |word| && Doing(words, emotes, w, first, cursor + n, Mid(word, n), it, elements + Pieces(pieces))
  {
    OccurrencePlace(words, emotes, it, w);
    TextStep(words, emotes, w, first, cursor, word, it, elements, pieces, emotes[it].start - cursor);
  }

  /** The text behind the last emote ends the word. */
  lemma {:induction false} LastText(words: seq<QString>, emotes: seq<Occurrence>, w: nat, first: nat,
                 cursor: nat, word: QString, it: nat, elements: seq<Element>, pieces: seq<Piece>)
    requires Doing(words, emotes, w, first, cursor, word, it, elements)
    requires !DoesWordContainATwitchEmote(cursor, word, emotes, it) && word != [] && Text(pieces) == word
    ensures WordDone(words, emotes, w, first, it, elements + Pieces(pieces))
    ensures cursor + |word| + 1 == Offset(words, w + 1)
  {
    RestIsText(words, emotes, w, first, cursor, word, it, elements);
    assert word[..|word|] == word && word[|word|..] == [];
    TextStep(words, emotes, w, first, cursor, word, it, elements, pieces, |word|);
    WordEnds(words, emotes, w, first, cursor + |word|, it, elements + Pieces(pieces));
  }

  function Concat(spans: seq<seq<Element>>): seq<Element> {
    if spans == [] then [] else Concat(spans[..|spans| - 1]) + spans[|spans| - 1]
  }

  lemma {:induction false} ConcatSnoc(spans: seq<seq<Element>>, span: seq<Element>)
    ensures Concat(spans + [span]) == Concat(spans) + span
  {
    assert (spans + [span])[..|spans|] == spans;
  }

  class MessageBuilder {
    var elements: seq<Element>
    const parse: QString -> seq<Piece>

    constructor (parse: QString -> seq<Piece>)
      ensures elements == [] && this.parse == parse
    {
      this.parse := parse;
      elements := [];
    }

    /** Text is parsed for emojis; each piece is an element, or is looked up as another emote. */
    method AddText(text: QString)
      modifies this
      ensures elements == old(elements) + Pieces(parse(text))
    {
      elements := elements + Pieces(parse(text));
    }

    /** An emote at the cursor; a space follows it only if the word ends with it. */
    method AddEmote(ghost words: seq<QString>, ghost w: nat, emotes: seq<Occurrence>, ghost first: nat,
                    cursor: nat, word: QString, it: nat, ghost before: seq<Element>,
                    ghost span: seq<Element>, ghost good: bool)
      returns (nextCursor: nat, rest: QString, ghost nextSpan: seq<Element>)
      requires DoesWordContainATwitchEmote(cursor, word, emotes, it) && emotes[it].start == cursor
      requires elements == before + span && (good ==> Doing(words, emotes, w, first, cursor, word, it, span))
      modifies this
      ensures elements == before + nextSpan
      ensures good ==> Doing(words, emotes, w, first, nextCursor, rest, it + 1, nextSpan)
    {
      if good {
        EmoteAtCursor(words, emotes, w, first, cursor, word, it, span);
      }
      var len := |emotes[it].name|;
      nextCursor := cursor + len;
      rest := Mid(word, len);
      var element := EmoteElement(emotes[it], rest == []);
      ConcatAssociates(before, span, [element]);
      elements := elements + [element];
      nextSpan := span + [element];
    }

    /** The text in front of the next emote. */
    method AddPreText(ghost words: seq<QString>, ghost w: nat, emotes: seq<Occurrence>, ghost first: nat,
                      cursor: nat, word: QString, it: nat, ghost before: seq<Element>,
                      ghost span: seq<Element>, ghost good: bool)
      returns (nextCursor: nat, rest: QString, ghost nextSpan: seq<Element>)
      requires DoesWordContainATwitchEmote(cursor, word, emotes, it)
      requires cursor < emotes[it].start <= emotes[it].end
      requires elements == before + span
      requires good ==> Lawful(parse) && Doing(words, emotes, w, first, cursor, word, it, span)
      modifies this
      ensures elements == before + nextSpan && |rest| < |word|
      ensures good ==> rest != [] && Doing(words, emotes, w, first, nextCursor, rest, it, nextSpan)
    {
      var preText := Left(word, emotes[it].start - cursor);
      if good {
        TextBeforeEmote(words, emotes, w, first, cursor, word, it, span, parse(preText));
      }
      RestIsShorter(word, emotes[it].start - cursor);
      ConcatAssociates(before, span, Pieces(parse(preText)));
      AddText(preText);
      nextSpan := span + Pieces(parse(preText));
      nextCursor, rest := cursor + |preText|, Mid(word, |preText|);
    }

    /** The text behind the last emote of a word. */
    method AddRest(ghost words: seq<QString>, ghost w: nat, ghost emotes: seq<Occurrence>, ghost first: nat,
                   cursor: nat, word: QString, ghost it: nat, ghost before: seq<Element>,
                   ghost span: seq<Element>, ghost good: bool)
      returns (nextCursor: nat, ghost nextSpan: seq<Element>)
      requires word != [] && !DoesWordContainATwitchEmote(cursor, word, emotes, it)
      requires elements == before + span
      requires good ==> Lawful(parse) && Doing(words, emotes, w, first, cursor, word, it, span)
      modifies this
      ensures elements == before + nextSpan
      ensures good ==>
        w < |words| && WordDone(words, emotes, w, first, it, nextSpan) && nextCursor == Offset(words, w + 1)
    {
      if good {
        LastText(words, emotes, w, first, cursor, word, it, span, parse(word));
      }
      ConcatAssociates(before, span, Pieces(parse(word)));
      AddText(word);
      nextSpan := span + Pieces(parse(word));
      nextCursor := cursor + |word| + 1;
    }

    /** The loop over the emotes of a word that is not empty, and the text behind the last of them. */
    method AddWord(ghost words: seq<QString>, ghost w: nat, theWord: QString, emotes: seq<Occurrence>, from: nat,
        first: nat,
                   ghost good: bool)
      returns (cursor: nat, it: nat, ghost span: seq<Element>)
      requires first <= |emotes| && theWord != []
      requires forall i :: 0 <= i < |emotes| ==> emotes[i].start <= emotes[i].end
      requires good ==> Lawful(parse) && Doing(words, emotes, w, first, from, theWord, first, [])
      modifies this
      ensures elements == old(elements) + span && it <= |emotes|
      ensures good ==> w < |words| && WordDone(words, emotes, w, first, it, span) && cursor == Offset(words, w + 1)
    {
      ghost var before := elements;
      var word;
      cursor, word, it, span := from, theWord, first, [];
      while DoesWordContainATwitchEmote(cursor, word, emotes, it)
        invariant it <= |emotes| && elements == before + span
        invariant good ==> word != [] && Doing(words, emotes, w, first, cursor, word, it, span)
        decreases |emotes| - it, |word|
      {
        if emotes[it].start == cursor {
          cursor, word, span := AddEmote(words, w, emotes, first, cursor, word, it, before, span, good);
          it := it + 1;
          if word == [] {
            if good {
              WordEnds(words, emotes, w, first, cursor, it, span);
            }
            cursor := cursor + 1;
            return;
          }
        } else {
          cursor, word, span := AddPreText(words, w, emotes, first, cursor, word, it, before, span, good);
        }
      }
      if word == [] {
        return;
      }
      cursor, span := AddRest(words, w, emotes, first, cursor, word, it, before, span, good);
    }

    /** One round of the loop over the words. */
    method AddNext(words: seq<QString>, w: nat, emotes: seq<Occurrence>, from: nat, first: nat,
                   ghost spans: seq<seq<Element>>, ghost good: bool)
      returns (cursor: nat, it: nat, ghost span: seq<Element>)
      requires w < |words| && first <= |emotes|
      requires forall i :: 0 <= i < |emotes| ==> emotes[i].start <= emotes[i].end
      requires good ==> Lawful(parse) && WellPlaced(words, emotes) && WordsDone(words, emotes, w, from, first, spans)
      modifies this
      ensures elements == old(elements) + span && it <= |emotes|
      ensures good ==> WordsDone(words, emotes, w + 1, cursor, it, spans + [span])
    {
      if words[w] == [] {
        cursor, it, span := from + 1, first, [];
        if good {
          EmptyWord(words, emotes, w, first);
        }
      } else {
        cursor, it, span := AddWord(words, w, words[w], emotes, from, first, good);
      }
      if good {
        WordsGoOn(words, emotes, w, first, it, spans, span);
      }
    }

    /**
     * Appends all words; `spans[w]` are the elements of word `w`.  If the occurrences are well placed,
     * every word is spelled by its elements, and every occurrence is emitted once, in order and where
     * it occurs.
     */
    method AddWords(words: seq<QString>, emotes: seq<Occurrence>) returns (ghost spans: seq<seq<Element>>)
      requires forall i :: 0 <= i < |emotes| ==> emotes[i].start <= emotes[i].end
      modifies this
      ensures elements == old(elements) + Concat(spans) && |spans| == |words|
      ensures Lawful(parse) && WellPlaced(words, emotes) ==>
                Emotes(Concat(spans)) == emotes && AllShown(words, spans)
    {
      ghost var before, good := elements, Lawful(parse) && WellPlaced(words, emotes);
      var cursor: nat, it: nat := 0, 0;
      spans := [];
      if good {
        NoNegativeStart(words, emotes);
      }
      for w := 0 to |words|
        invariant elements == before + Concat(spans) && it <= |emotes|
        invariant |spans| == w
        invariant good ==> WordsDone(words, emotes, w, cursor, it, spans)
      {
        ghost var span;
        cursor, it, span := AddNext(words, w, emotes, cursor, it, spans, good);
        ConcatSnoc(spans, span);
        ConcatAssociates(before, Concat(spans), span);
        spans := spans + [span];
      }
      if good {
        AllPassed(words, emotes, it);
        assert emotes[..|emotes|] == emotes;
      }
    }
  }

  lemma {:induction false} EmptyWord(words: seq<QString>, emotes: seq<Occurrence>, w: nat, first: nat)
    requires WellPlaced(words, emotes) && w < |words| && words[w] == [] && first <= |emotes|
    requires forall i :: first <= i < |emotes| ==> emotes[i].start >= Offset(words, w)
    ensures WordDone(words, emotes, w, first, first, [])
  {
    WordEnds(words, emotes, w, first, Offset(words, w), first, []);
  }

  /** The first `w` words are done, with the first `it` occurrences in them. */
  ghost predicate WordsDone(words: seq<QString>, emotes: seq<Occurrence>, w: nat, cursor: nat, it: nat,
      spans: seq<seq<Element>>) {
    w <= |words| && |spans| == w && cursor == Offset(words, w)
    && it <= |emotes| && Emotes(Concat(spans)) == emotes[..it]
    && (forall i :: it <= i < |emotes| ==> emotes[i].start >= cursor)
    && AllShown(words, spans)
  }

  ghost predicate AllShown(words: seq<QString>, spans: seq<seq<Element>>) {
    |spans| <= |words| && forall v :: 0 <= v < |spans| ==> WordShown(words, v, spans[v])
  }

  lemma {:induction false} EmotesGoOn(emotes: seq<Occurrence>, first: nat, it: nat,
                                      spans: seq<seq<Element>>, span: seq<Element>)
    requires first <= it <= |emotes| && Emotes(Concat(spans)) == emotes[..first] && Emotes(span) == emotes[first..it]
    ensures Emotes(Concat(spans + [span])) == emotes[..it]
  {
    ConcatSnoc(spans, span);
    ReadingConcat(Concat(spans), span);
    assert emotes[..first] + emotes[first..it] == emotes[..it];
  }

  lemma {:induction false} ShownGoesOn(words: seq<QString>, spans: seq<seq<Element>>, span: seq<Element>)
    requires AllShown(words, spans) && |spans| < |words| && WordShown(words, |spans|, span)
    ensures AllShown(words, spans + [span])
  {
  }

  lemma {:induction false} WordsGoOn(words: seq<QString>, emotes: seq<Occurrence>, w: nat, first: nat, it: nat,
      spans: seq<seq<Element>>, span: seq<Element>)
    requires w < |words| && WordsDone(words, emotes, w, Offset(words, w), first, spans)
    requires WordDone(words, emotes, w, first, it, span)
    ensures WordsDone(words, emotes, w + 1, Offset(words, w + 1), it, spans + [span])
  {
    EmotesGoOn(emotes, first, it, spans, span);
    ShownGoesOn(words, spans, span);
  }

  lemma {:induction false} NoNegativeStart(words: seq<QString>, emotes: seq<Occurrence>)
    requires WellPlaced(words, emotes)
    ensures forall i :: 0 <= i < |emotes| ==> emotes[i].start >= 0
  {
    forall i | 0 <= i < |emotes| ensures emotes[i].start >= 0 {
      var w :| 0 <= w < |words| && LiesIn(words, w, emotes[i]);
    }
  }

  /** No occurrence starts behind the last word. */
  lemma {:induction false} AllPassed(words: seq<QString>, emotes: seq<Occurrence>, it: nat)
    requires WellPlaced(words, emotes) && it <= |emotes|
    requires forall i :: it <= i < |emotes| ==> emotes[i].start >= Offset(words, |words|)
    ensures it == |emotes|
  {
    if it < |emotes| {
      var w :| 0 <= w < |words| && LiesIn(words, w, emotes[it]);
      OffsetGrows(words, w, |words|);
    }
  }
}
