/**
 * The translator of src/translation/core.py: the text is cut into sentences,
 * consecutive sentences are packed greedily into parts whose summed token length
 * stays within `max_length`, every part is translated on its own, and the
 * translations are joined with one space.
 *
 * The sentence splitter, the tokenizer and the translation model are library
 * calls; they are the fields of `Translator`.
 */
module Translation {
  import opened Strings

  /** The default `max_length` of `_split_text_into_parts`, used by `translation`. */
  const MaxLength: nat := 128

  /** The library collaborators of the `Translation` class. */
  datatype Translator = Translator(
    /** `nltk.sent_tokenize` */
    sentTokenize: string -> seq<string>,
    /** `len(tokenizer.encode(sentence, add_special_tokens=False))` */
    tokenLength: string -> nat,
    /** `_translate_part`: encode, `model.generate`, decode */
    translatePart: string -> string)

  /** The summed token length of a group of sentences. */
  function Length(group: seq<string>, tokenLength: string -> nat): nat
  {
    if group == [] then 0
    else Length(group[..|group| - 1], tokenLength) + tokenLength(group[|group| - 1])
  }

  /** The sentences of all groups, in order. */
  function Concat(groups: seq<seq<string>>): seq<string>
  {
    if groups == [] then [] else Concat(groups[..|groups| - 1]) + groups[|groups| - 1]
  }

  /** The local variables of the packing loop: `parts`, `current_part`, `current_length`. */
  datatype PackState = PackState(parts: seq<seq<string>>, current: seq<string>, currentLength: int)

  /** One iteration of the packing loop. */
  function Step(st: PackState, sentence: string, tokenLength: string -> nat, maxLength: nat): PackState
  {
    var n := tokenLength(sentence);
    if st.currentLength + n <= maxLength then
      PackState(st.parts, st.current + [sentence], st.currentLength + n)
    else
      PackState(st.parts + [st.current], [sentence], n)
  }

  /** The loop state after the loop has run over all of `sentences`. */
  function Run(sentences: seq<string>, tokenLength: string -> nat, maxLength: nat): PackState
  {
    if sentences == [] then PackState([], [], 0)
    else Step(Run(sentences[..|sentences| - 1], tokenLength, maxLength), sentences[|sentences| - 1], tokenLength, maxLength)
  }

  /** The groups of sentences `_split_text_into_parts` returns: the loop, then the final flush. */
  function Pack(sentences: seq<string>, tokenLength: string -> nat, maxLength: nat): seq<seq<string>>
  {
    var st := Run(sentences, tokenLength, maxLength);
    if st.current != [] then st.parts + [st.current] else st.parts
  }

  /** The part strings: each group of sentences joined with one space. */
  function PartTexts(groups: seq<seq<string>>): seq<string>
  {
    seq(|groups|, i requires 0 <= i < |groups| => Join(" ", groups[i]))
  }

  /**
   * `_split_text_into_parts`: packs consecutive sentences into groups; the caller
   * joins each group with `PartTexts`.
   */
  method SplitTextIntoParts(sentences: seq<string>, tokenLength: string -> nat, maxLength: nat)
    returns (parts: seq<seq<string>>)
    ensures parts == Pack(sentences, tokenLength, maxLength)
    ensures Concat(parts) == sentences
  {
    var currentPart: seq<string> := [];
    var currentLength := 0;
    parts := [];
    for k := 0 to |sentences|
      invariant PackState(parts, currentPart, currentLength) == Run(sentences[..k], tokenLength, maxLength)
    {
      assert sentences[..k + 1][..k] == sentences[..k];
      var sentence := sentences[k];
      var sentenceLength := tokenLength(sentence);
      if currentLength + sentenceLength <= maxLength {
        currentPart := currentPart + [sentence];
        currentLength := currentLength + sentenceLength;
      } else {
        parts := parts + [currentPart];
        currentPart := [sentence];
        currentLength := sentenceLength;
      }
    }
    if currentPart != [] {
      parts := parts + [currentPart];
    }
    assert sentences[..|sentences|] == sentences;
    PackConcat(sentences, tokenLength, maxLength);
  }

  /** The list comprehension of `translation`: every part translated on its own. */
  function TranslatedParts(texts: seq<string>, t: Translator): seq<string>
  {
    seq(|texts|, i requires 0 <= i < |texts| => t.translatePart(texts[i]))
  }

  /** The parts of the text that `translation` translates one by one. */
  function TextParts(text: string, t: Translator): seq<string>
  {
    PartTexts(Pack(t.sentTokenize(text), t.tokenLength, MaxLength))
  }

  /** `translation`: split into sentences, pack, translate each part, join with one space. */
  function Translate(text: string, t: Translator): (r: string)
    ensures t.sentTokenize(text) == [] ==> r == ""
    ensures |TextParts(text, t)| == 1 ==> r == t.translatePart(TextParts(text, t)[0])
  {
    Join(" ", TranslatedParts(TextParts(text, t), t))
  }

  // ---------------------------------------------------------------------------
  // Properties of the packing

  /** Every group is within the budget, or is a single (oversized) sentence. */
  ghost predicate Budgeted(groups: seq<seq<string>>, tokenLength: string -> nat, maxLength: nat)
  {
    forall i :: 0 <= i < |groups| ==> Length(groups[i], tokenLength) <= maxLength || |groups[i]| == 1
  }

  /**
   * Every group after the first is non-empty, and the group before it could not
   * take its first sentence without exceeding the budget.
   */
  ghost predicate Greedy(groups: seq<seq<string>>, tokenLength: string -> nat, maxLength: nat)
  {
    forall i :: 0 < i < |groups| ==>
      groups[i] != [] && Length(groups[i - 1], tokenLength) + tokenLength(groups[i][0]) > maxLength
  }

  /** The properties the packing promises of its groups, for a non-empty list of sentences. */
  ghost predicate Packed(groups: seq<seq<string>>, sentences: seq<string>, tokenLength: string -> nat, maxLength: nat)
    requires sentences != []
  {
    && groups != []
    && Concat(groups) == sentences
    && Budgeted(groups, tokenLength, maxLength)
    && Greedy(groups, tokenLength, maxLength)
    && groups[|groups| - 1] != []
    && (groups[0] == [] <==> tokenLength(sentences[0]) > maxLength)
  }

  /** The loop state after a non-empty prefix: its parts plus its current part are packed. */
  ghost predicate RunInvariant(st: PackState, done: seq<string>, tokenLength: string -> nat, maxLength: nat)
    requires done != []
  {
    && st.currentLength == Length(st.current, tokenLength)
    && st.current != []
    && Packed(st.parts + [st.current], done, tokenLength, maxLength)
  }

  lemma ConcatAppend(groups: seq<seq<string>>, g: seq<string>)
    ensures Concat(groups + [g]) == Concat(groups) + g
  {
    assert (groups + [g])[..|groups|] == groups;
  }

  lemma LengthAppend(group: seq<string>, s: string, tokenLength: string -> nat)
    ensures Length(group + [s], tokenLength) == Length(group, tokenLength) + tokenLength(s)
  {
    assert (group + [s])[..|group|] == group;
  }

  /** A group is at least as long as its first sentence. */
  lemma {:induction false} LengthFirst(group: seq<string>, tokenLength: string -> nat)
    requires group != []
    ensures Length(group, tokenLength) >= tokenLength(group[0])
  {
    if |group| > 1 {
      LengthFirst(group[..|group| - 1], tokenLength);
    }
  }

  /** An iteration in which the sentence fits into the current part keeps the invariant. */
  lemma StepFitsKeepsInvariant(st: PackState, done: seq<string>, sentence: string,
                               tokenLength: string -> nat, maxLength: nat)
    requires done != [] && RunInvariant(st, done, tokenLength, maxLength)
    requires st.currentLength + tokenLength(sentence) <= maxLength
    ensures RunInvariant(Step(st, sentence, tokenLength, maxLength), done + [sentence], tokenLength, maxLength)
  {
    var gs := st.parts + [st.current];
    var current' := st.current + [sentence];
    var gs' := st.parts + [current'];
    assert Step(st, sentence, tokenLength, maxLength) == PackState(st.parts, current', st.currentLength + tokenLength(sentence));
    LengthAppend(st.current, sentence, tokenLength);
    ConcatAppend(st.parts, st.current);
    ConcatAppend(st.parts, current');
    forall i | 0 <= i < |gs'|
      ensures Length(gs'[i], tokenLength) <= maxLength || |gs'[i]| == 1
    {
      if i < |st.parts| {
        assert gs'[i] == gs[i];
      }
    }
    forall i | 0 < i < |gs'|
      ensures gs'[i] != [] && Length(gs'[i - 1], tokenLength) + tokenLength(gs'[i][0]) > maxLength
    {
      assert gs[i] != [] && Length(gs[i - 1], tokenLength) + tokenLength(gs[i][0]) > maxLength;
      assert gs'[i - 1] == gs[i - 1];
      assert gs'[i][0] == gs[i][0];
    }
    assert (done + [sentence])[0] == done[0];
    assert gs'[0] == [] <==> gs[0] == [];
  }

  /** An iteration that flushes the current part keeps the invariant. */
  lemma StepFlushKeepsInvariant(st: PackState, done: seq<string>, sentence: string,
                                tokenLength: string -> nat, maxLength: nat)
    requires done != [] && RunInvariant(st, done, tokenLength, maxLength)
    requires st.currentLength + tokenLength(sentence) > maxLength
    ensures RunInvariant(Step(st, sentence, tokenLength, maxLength), done + [sentence], tokenLength, maxLength)
  {
    var gs := st.parts + [st.current];
    var gs' := gs + [[sentence]];
    assert Step(st, sentence, tokenLength, maxLength) == PackState(gs, [sentence], tokenLength(sentence));
    ConcatAppend(gs, [sentence]);
    LengthAppend([], sentence, tokenLength);
    forall i | 0 <= i < |gs'|
      ensures Length(gs'[i], tokenLength) <= maxLength || |gs'[i]| == 1
    {
      if i < |gs| {
        assert gs'[i] == gs[i];
      }
    }
    forall i | 0 < i < |gs'|
      ensures gs'[i] != [] && Length(gs'[i - 1], tokenLength) + tokenLength(gs'[i][0]) > maxLength
    {
      if i < |gs| {
        assert gs'[i] == gs[i] && gs'[i - 1] == gs[i - 1];
      }
    }
    assert (done + [sentence])[0] == done[0];
    assert gs'[0] == gs[0];
  }

  /** The loop invariant holds after the first sentence. */
  lemma RunFirstKeepsInvariant(s: string, tokenLength: string -> nat, maxLength: nat)
    ensures RunInvariant(Run([s], tokenLength, maxLength), [s], tokenLength, maxLength)
  {
    assert [s][..0] == [];
    assert Run([s], tokenLength, maxLength) == Step(PackState([], [], 0), s, tokenLength, maxLength);
    LengthAppend([], s, tokenLength);
    if tokenLength(s) <= maxLength {
      FirstSentenceFits(s, tokenLength, maxLength);
    } else {
      FirstSentenceOversized(s, tokenLength, maxLength);
    }
  }

  lemma FirstSentenceFits(s: string, tokenLength: string -> nat, maxLength: nat)
    requires Length([s], tokenLength) == tokenLength(s) <= maxLength
    ensures RunInvariant(PackState([], [s], tokenLength(s)), [s], tokenLength, maxLength)
  {
    ConcatAppend([], [s]);
    assert [] + [[s]] == [[s]];
  }

  lemma FirstSentenceOversized(s: string, tokenLength: string -> nat, maxLength: nat)
    requires Length([s], tokenLength) == tokenLength(s) > maxLength
    ensures RunInvariant(PackState([[]], [s], tokenLength(s)), [s], tokenLength, maxLength)
  {
    ConcatAppend([], []);
    ConcatAppend([[]], [s]);
    assert [[]] + [[s]] == [[], [s]];
  }

  /** The loop invariant holds after every non-empty prefix of the sentences. */
  lemma {:induction false} RunKeepsInvariant(sentences: seq<string>, tokenLength: string -> nat, maxLength: nat)
    requires sentences != []
    ensures RunInvariant(Run(sentences, tokenLength, maxLength), sentences, tokenLength, maxLength)
  {
    var init := sentences[..|sentences| - 1];
    var s := sentences[|sentences| - 1];
    assert sentences == init + [s];
    if init == [] {
      assert sentences == [s];
      RunFirstKeepsInvariant(s, tokenLength, maxLength);
    } else {
      RunKeepsInvariant(init, tokenLength, maxLength);
      var st := Run(init, tokenLength, maxLength);
      if st.currentLength + tokenLength(s) <= maxLength {
        StepFitsKeepsInvariant(st, init, s, tokenLength, maxLength);
      } else {
        StepFlushKeepsInvariant(st, init, s, tokenLength, maxLength);
      }
    }
  }

  /** For a non-empty list of sentences, the groups returned have all the packing properties. */
  lemma PackIsPacked(sentences: seq<string>, tokenLength: string -> nat, maxLength: nat)
    requires sentences != []
    ensures Packed(Pack(sentences, tokenLength, maxLength), sentences, tokenLength, maxLength)
  {
    RunKeepsInvariant(sentences, tokenLength, maxLength);
  }

  /** No sentence is lost, duplicated or reordered: the groups concatenate back to the input. */
  lemma PackConcat(sentences: seq<string>, tokenLength: string -> nat, maxLength: nat)
    ensures Concat(Pack(sentences, tokenLength, maxLength)) == sentences
  {
    if sentences != [] {
      PackIsPacked(sentences, tokenLength, maxLength);
    }
  }

  /** A group over the budget holds exactly one sentence; every other group is within the budget. */
  lemma PackWithinBudget(sentences: seq<string>, tokenLength: string -> nat, maxLength: nat)
    ensures var groups := Pack(sentences, tokenLength, maxLength);
      forall i :: 0 <= i < |groups| && Length(groups[i], tokenLength) > maxLength ==> |groups[i]| == 1
  {
    if sentences != [] {
      PackIsPacked(sentences, tokenLength, maxLength);
    }
  }

  /**
   * Greedy flushing: a group is closed only when the next sentence would not fit,
   * so each group plus the first sentence of the following group exceeds the budget.
   */
  lemma PackIsGreedy(sentences: seq<string>, tokenLength: string -> nat, maxLength: nat)
    ensures var groups := Pack(sentences, tokenLength, maxLength);
      forall i :: 0 < i < |groups| ==>
        groups[i] != [] && Length(groups[i - 1], tokenLength) + tokenLength(groups[i][0]) > maxLength
  {
    if sentences != [] {
      PackIsPacked(sentences, tokenLength, maxLength);
    }
  }

  /** No sentences, no parts; and only no sentences give no parts. */
  lemma PackEmpty(sentences: seq<string>, tokenLength: string -> nat, maxLength: nat)
    ensures Pack(sentences, tokenLength, maxLength) == [] <==> sentences == []
  {
    if sentences != [] {
      PackIsPacked(sentences, tokenLength, maxLength);
    }
  }

  /**
   * The first group is empty exactly when the first sentence alone exceeds the
   * budget: the loop then flushes the still-empty `current_part`, and that
   * oversized sentence forms the second group on its own.
   */
  lemma PackLeadingEmptyPart(sentences: seq<string>, tokenLength: string -> nat, maxLength: nat)
    requires sentences != []
    ensures var groups := Pack(sentences, tokenLength, maxLength);
      && (groups[0] == [] <==> tokenLength(sentences[0]) > maxLength)
      && (groups[0] == [] ==> |groups| >= 2 && groups[1] == [sentences[0]])
  {
    var groups := Pack(sentences, tokenLength, maxLength);
    PackIsPacked(sentences, tokenLength, maxLength);
    if groups[0] == [] {
      OversizedSecondGroup(groups, sentences, tokenLength, maxLength);
    }
  }

  /** In packed groups with an empty first group, the second is the first sentence alone. */
  lemma OversizedSecondGroup(groups: seq<seq<string>>, sentences: seq<string>, tokenLength: string -> nat, maxLength: nat)
    requires sentences != [] && Packed(groups, sentences, tokenLength, maxLength) && groups[0] == []
    ensures |groups| >= 2 && groups[1] == [sentences[0]]
  {
    var g := groups[1];
    assert g != [] && (Length(g, tokenLength) <= maxLength || |g| == 1);
    ConcatEmptyHead(groups);
    ConcatCons(g, groups[2..]);
    assert groups[1..] == [g] + groups[2..];
    assert g[0] == sentences[0];
    LengthFirst(g, tokenLength);
  }

  /** Concatenation seen from the front. */
  lemma {:induction false} ConcatCons(g: seq<string>, groups: seq<seq<string>>)
    ensures Concat([g] + groups) == g + Concat(groups)
  {
    if groups != [] {
      var init := groups[..|groups| - 1];
      ConcatCons(g, init);
      assert ([g] + groups)[..|groups|] == [g] + init;
    }
  }

  /**
   * Apart from that leading group, no group is empty, and for a non-empty input
   * the last group ends with the last sentence.
   */
  lemma PackNonEmptyParts(sentences: seq<string>, tokenLength: string -> nat, maxLength: nat)
    ensures var groups := Pack(sentences, tokenLength, maxLength);
      && (forall i :: 0 < i < |groups| ==> groups[i] != [])
      && (sentences != [] ==>
            groups != [] && groups[|groups| - 1] != []
            && groups[|groups| - 1][|groups[|groups| - 1]| - 1] == sentences[|sentences| - 1])
  {
    if sentences != [] {
      var groups := Pack(sentences, tokenLength, maxLength);
      PackIsPacked(sentences, tokenLength, maxLength);
      ConcatAppend(groups[..|groups| - 1], groups[|groups| - 1]);
      assert groups[..|groups| - 1] + [groups[|groups| - 1]] == groups;
    }
  }

  /** Sentences whose summed length fits the budget form a single group. */
  lemma {:induction false} RunFits(sentences: seq<string>, tokenLength: string -> nat, maxLength: nat)
    requires Length(sentences, tokenLength) <= maxLength
    ensures Run(sentences, tokenLength, maxLength) == PackState([], sentences, Length(sentences, tokenLength))
  {
    if sentences != [] {
      var init := sentences[..|sentences| - 1];
      assert init + [sentences[|sentences| - 1]] == sentences;
      RunFits(init, tokenLength, maxLength);
    }
  }

  /** A non-empty list of sentences that fits the budget is one part. */
  lemma PackFitsOnePart(sentences: seq<string>, tokenLength: string -> nat, maxLength: nat)
    requires sentences != [] && Length(sentences, tokenLength) <= maxLength
    ensures Pack(sentences, tokenLength, maxLength) == [sentences]
  {
    RunFits(sentences, tokenLength, maxLength);
  }

  // ---------------------------------------------------------------------------
  // Properties of the part texts and of the translation

  /** Joining the texts of non-empty groups is joining all their sentences. */
  lemma {:induction false} JoinPartTexts(groups: seq<seq<string>>)
    requires groups != [] && forall i :: 0 <= i < |groups| ==> groups[i] != []
    ensures Join(" ", PartTexts(groups)) == Join(" ", Concat(groups))
  {
    var init, g := groups[..|groups| - 1], groups[|groups| - 1];
    var texts := PartTexts(groups);
    ConcatAppend(init, g);
    assert init + [g] == groups;
    if init == [] {
      assert texts == [Join(" ", g)];
      assert Concat(groups) == g by { assert Concat(init) == []; }
    } else {
      JoinPartTexts(init);
      assert texts == PartTexts(init) + [Join(" ", g)];
      JoinAppend(" ", PartTexts(init), [Join(" ", g)]);
      ConcatNonEmpty(init);
      JoinAppend(" ", Concat(init), g);
    }
  }

  /** Groups whose first is not empty concatenate to a non-empty list. */
  lemma ConcatNonEmpty(groups: seq<seq<string>>)
    requires groups != [] && groups[0] != []
    ensures Concat(groups) != []
  {
    ConcatCons(groups[0], groups[1..]);
    assert groups == [groups[0]] + groups[1..];
  }

  /**
   * The part texts, joined with one space, give back the sentences joined with
   * one space; when the first sentence is over the budget the leading empty part
   * adds one space in front.
   */
  lemma PartTextsRejoin(sentences: seq<string>, tokenLength: string -> nat, maxLength: nat)
    requires sentences != []
    ensures Join(" ", PartTexts(Pack(sentences, tokenLength, maxLength)))
         == (if tokenLength(sentences[0]) > maxLength then " " else "") + Join(" ", sentences)
  {
    PackIsPacked(sentences, tokenLength, maxLength);
    RejoinPacked(Pack(sentences, tokenLength, maxLength), sentences, tokenLength, maxLength);
  }

  lemma RejoinPacked(groups: seq<seq<string>>, sentences: seq<string>, tokenLength: string -> nat, maxLength: nat)
    requires sentences != [] && Packed(groups, sentences, tokenLength, maxLength)
    ensures Join(" ", PartTexts(groups))
         == (if tokenLength(sentences[0]) > maxLength then " " else "") + Join(" ", sentences)
  {
    assert Greedy(groups, tokenLength, maxLength);
    if groups[0] == [] {
      RejoinLeadingEmpty(groups);
      ConcatEmptyHead(groups);
    } else {
      forall i | 0 <= i < |groups| ensures groups[i] != [] {
      }
      JoinPartTexts(groups);
    }
  }

  /** A leading empty group adds one space in front of the joined text. */
  lemma RejoinLeadingEmpty(groups: seq<seq<string>>)
    requires |groups| >= 2 && groups[0] == [] && forall i :: 0 < i < |groups| ==> groups[i] != []
    ensures Join(" ", PartTexts(groups)) == " " + Join(" ", Concat(groups[1..]))
  {
    var rest := groups[1..];
    var texts := PartTexts(groups);
    assert texts[1..] == PartTexts(rest);
    JoinLeadingEmpty(" ", texts);
    forall i | 0 <= i < |rest| ensures rest[i] != [] {
      assert rest[i] == groups[i + 1];
    }
    JoinPartTexts(rest);
  }

  /** A leading empty group adds nothing to the concatenation. */
  lemma ConcatEmptyHead(groups: seq<seq<string>>)
    requires groups != [] && groups[0] == []
    ensures Concat(groups) == Concat(groups[1..])
  {
    assert groups == [[]] + groups[1..];
    ConcatCons([], groups[1..]);
  }

  /**
   * One translated piece per part, in part order: the translation of part `i`
   * stands at its place in the result, one space from its neighbours.
   */
  lemma TranslateLayout(text: string, t: Translator, i: nat)
    requires i < |TextParts(text, t)|
    ensures var pieces := TranslatedParts(TextParts(text, t), t);
      && |pieces| == |TextParts(text, t)|
      && Translate(text, t)
         == Join(" ", pieces[..i]) + (if i > 0 then " " else "") + t.translatePart(TextParts(text, t)[i])
            + (if i + 1 < |pieces| then " " else "") + Join(" ", pieces[i + 1..])
  {
    JoinAt(" ", TranslatedParts(TextParts(text, t), t), i);
  }

  /** A text whose sentences fit the budget together is translated in one model call. */
  lemma TranslateShortText(text: string, t: Translator)
    requires t.sentTokenize(text) != [] && Length(t.sentTokenize(text), t.tokenLength) <= MaxLength
    ensures Translate(text, t) == t.translatePart(Join(" ", t.sentTokenize(text)))
  {
    PackFitsOnePart(t.sentTokenize(text), t.tokenLength, MaxLength);
  }

  /**
   * When the first sentence alone is over the budget, the model is first asked
   * to translate the empty leading part, then the oversized sentence on its own.
   */
  lemma TranslateOversizedFirstSentence(text: string, t: Translator)
    requires t.sentTokenize(text) != [] && t.tokenLength(t.sentTokenize(text)[0]) > MaxLength
    ensures var pieces := TranslatedParts(TextParts(text, t), t);
      && |pieces| >= 2
      && pieces[0] == t.translatePart("")
      && pieces[1] == t.translatePart(t.sentTokenize(text)[0])
      && Translate(text, t) == t.translatePart("") + " " + Join(" ", pieces[1..])
  {
    var sentences := t.sentTokenize(text);
    PackLeadingEmptyPart(sentences, t.tokenLength, MaxLength);
    var pieces := TranslatedParts(TextParts(text, t), t);
    JoinAt(" ", pieces, 0);
  }
}
