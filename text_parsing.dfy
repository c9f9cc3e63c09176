/**
 * The lexical annotator of src/text_parsing/core.py (`TextProcess.process` and
 * `TextProcess.pos_tag`): the lowercased text is tokenized, every distinct token
 * that is not a stopword and not punctuation gets a grammatical label from a
 * closed table, tokens without a label are dropped, and the annotated words are
 * listed by decreasing frequency.
 *
 * The tokenizer, the taggers, lowercasing and the stopword lists are library
 * calls; they are the fields of `Nlp`.
 */
module TextParsing {
  import opened Wrappers
  import opened Strings
  import opened Models

  /** `metadata_english`: the Penn Treebank tags that have a label, and their labels. */
  const MetadataEnglish: map<string, string> := map[
    "CC" := "координирующая конъюнкция",
    "CD" := "цифра",
    "DT" := "артикль",
    "EX" := "указательное местоимение",
    "FW" := "иностранное слово",
    "IN" := "предлог/союз",
    "JJ" := "прилагательное",
    "JJR" := "прилагательное сравнительное",
    "JJS" := "прилагательное в превосходной степени",
    "LS" := "элемент списка",
    "MD" := "модальный глагол",
    "NN" := "существительное в единственном числе",
    "NNS" := "существительное во множественном числе",
    "NNP" := "имя собственное в единственном числе",
    "NNPS" := "имя собственное во множественном числе",
    "PDT" := "определительное местоимение",
    "POS" := "притяжательное окончание",
    "PRP" := "местоимение",
    "PRP$" := "притяжательное местоимение",
    "RB" := "наречие",
    "RBR" := "наречие в сравнительной степени",
    "RBS" := "наречие в превосходной степени",
    "RP" := "частица",
    "SYM" := "символ",
    "TO" := "предлог to",
    "UH" := "междометие",
    "VB" := "глагол, базовая форма",
    "VBD" := "глагол, прошедшее время",
    "VBG" := "глагол, герундий/причастие настоящего времени",
    "VBN" := "глагол, причастие прошедшего времени",
    "VBP" := "глагол, настоящее время, не 3-е лицо",
    "VBZ" := "глагол, настоящее время, 3-е лицо",
    "WDT" := "вопросительное определение",
    "WP" := "вопросительное местоимение",
    "WP$" := "притяжательное вопросительное местоимение",
    "WRB" := "вопросительное наречие"
  ]

  /** `metadata_french`: the universal part-of-speech classes that have a label, and their labels. */
  const MetadataFrench: map<string, string> := map[
    "ADJ" := "прилагательное",
    "ADP" := "предлог",
    "ADV" := "наречие",
    "AUX" := "вспомогательный глагол",
    "CCONJ" := "сочинительный союз",
    "DET" := "определитель",
    "INTJ" := "междометие",
    "NOUN" := "существительное",
    "NUM" := "числительное",
    "PART" := "частица",
    "PRON" := "местоимение",
    "PROPN" := "имя собственное",
    "PUNCT" := "пунктуация",
    "SCONJ" := "подчинительный союз",
    "SYM" := "символ",
    "VERB" := "глагол",
    "X" := "неизвестное или другое"
  ]

  /** The library collaborators of `TextProcess`. */
  datatype Nlp = Nlp(
    /** `set(stopwords.words(language))` */
    stopWords: string -> set<string>,
    /** `str.lower` */
    lower: string -> string,
    /** nltk's `word_tokenize` */
    wordTokenize: string -> seq<string>,
    /** `nltk.pos_tag([word])[0][1]`: the Penn Treebank tag of a lone English word */
    englishTag: string -> string,
    /** `nlp(word)[0].pos_`: spaCy's coarse part of speech of a lone French word */
    frenchPos: string -> string)

  /**
   * `pos_tag`: for English the label of the word's tag, and a failure (the
   * `KeyError` of the dictionary lookup, carrying the tag) when the table has no
   * such tag; for French the label of the word's class, or `None` when the table
   * has no such class; for any other language `None`.
   */
  function PosTag(word: string, language: string, nlp: Nlp): Result<Option<string>, string>
  {
    if language == "english" then
      var tag := nlp.englishTag(word);
      if tag in MetadataEnglish then Success(Some(MetadataEnglish[tag])) else Failure(tag)
    else if language == "french" then
      var pos := nlp.frenchPos(word);
      Success(if pos in MetadataFrench then Some(MetadataFrench[pos]) else None)
    else
      Success(None)
  }

  /** Python's truth value of what `pos_tag` returned: a label that is present and not empty. */
  predicate HasLabel(r: Result<Option<string>, string>)
  {
    r.Success? && r.value.Some? && r.value.value != ""
  }

  /** The tokens of the text, as `process` counts them. */
  function Tokens(text: string, nlp: Nlp): seq<string>
  {
    nlp.wordTokenize(nlp.lower(text))
  }

  /** A word `process` reports: a token that passes the filter and has a label. */
  predicate Selected(word: string, tokens: seq<string>, language: string, nlp: Nlp)
  {
    word in tokens && Kept(word, nlp.stopWords(language), nlp.lower) && HasLabel(PosTag(word, language, nlp))
  }

  /** An entry of `words_info` for `tokens`: a selected word, its count among the tokens, its label. */
  predicate Describes(entry: WordInfo, tokens: seq<string>, language: string, nlp: Nlp)
  {
    && Selected(entry.word, tokens, language, nlp)
    && entry.freq == Count(tokens, entry.word)
    && PosTag(entry.word, language, nlp) == Success(Some(entry.gramInfo))
  }

  /** No two entries share a word. */
  predicate DistinctWords(entries: seq<WordInfo>)
  {
    forall i, j :: 0 <= i < j < |entries| ==> entries[i].word != entries[j].word
  }

  /** The entries are ordered by non-increasing frequency. */
  predicate SortedByFreq(entries: seq<WordInfo>)
  {
    forall i, j :: 0 <= i < j < |entries| ==> entries[i].freq >= entries[j].freq
  }

  /**
   * What `process` promises of a successful result: one entry per selected word
   * and no other, each with its frequency and label, by decreasing frequency,
   * and `words_count` the number of entries.
   */
  predicate Annotates(info: TextInfo, tokens: seq<string>, language: string, nlp: Nlp)
  {
    && info.wordsCount == |info.wordsInfo|
    && DistinctWords(info.wordsInfo)
    && (forall i :: 0 <= i < |info.wordsInfo| ==> Describes(info.wordsInfo[i], tokens, language, nlp))
    && (forall w :: w in tokens && Selected(w, tokens, language, nlp) ==>
          exists i :: 0 <= i < |info.wordsInfo| && info.wordsInfo[i].word == w)
    && SortedByFreq(info.wordsInfo)
  }

  /**
   * `process`: annotates the distinct tokens of the text. The English path fails
   * with the missing tag as soon as it meets a kept token whose tag has no label;
   * which such token is met first depends on the iteration order of the token set.
   */
  method Process(text: string, language: string, nlp: Nlp) returns (r: Result<TextInfo, string>)
    ensures var tokens := Tokens(text, nlp);
      r.Failure? <==> exists w :: w in tokens && Kept(w, nlp.stopWords(language), nlp.lower) && PosTag(w, language, nlp).Failure?
    ensures var tokens := Tokens(text, nlp);
      r.Failure? ==> exists w :: w in tokens && Kept(w, nlp.stopWords(language), nlp.lower) && PosTag(w, language, nlp) == Failure(r.error)
    ensures r.Success? ==> Annotates(r.value, Tokens(text, nlp), language, nlp)
  {
    var tokens := nlp.wordTokenize(nlp.lower(text));
    var processed: seq<WordInfo> := [];
    var remaining := set t | t in tokens;
    ghost var visited: set<string> := {};
    while remaining != {}
      invariant forall w :: w in remaining ==> w in tokens
      invariant forall w :: w in tokens ==> w in remaining || w in visited
      invariant remaining !! visited
      invariant Collected(processed, visited, tokens, language, nlp)
      decreases |remaining|
    {
      var word :| word in remaining;
      if Kept(word, nlp.stopWords(language), nlp.lower) {
        var gramInfo := PosTag(word, language, nlp);
        if gramInfo.Failure? {
          return Failure(gramInfo.error);
        }
        if gramInfo.value.Some? && gramInfo.value.value != "" {
          CollectAdd(processed, visited, word, tokens, language, nlp);
          processed := processed + [WordInfo(word, Count(tokens, word), gramInfo.value.value)];
        } else {
          CollectSkip(processed, visited, word, tokens, language, nlp);
        }
      } else {
        CollectSkip(processed, visited, word, tokens, language, nlp);
      }
      remaining := remaining - {word};
      visited := visited + {word};
    }
    var sorted := SortByFreq(processed);
    SortedAnnotates(processed, sorted, tokens, language, nlp);
    r := Success(TextInfo(sorted, |sorted|));
  }

  /**
   * The state of the loop of `process` after it has visited the tokens of
   * `visited`: none of them made the English lookup fail, and `processed` holds
   * exactly one entry per selected visited token.
   */
  ghost predicate Collected(processed: seq<WordInfo>, visited: set<string>, tokens: seq<string>, language: string, nlp: Nlp)
  {
    && (forall w :: w in visited && Kept(w, nlp.stopWords(language), nlp.lower) ==> PosTag(w, language, nlp).Success?)
    && DistinctWords(processed)
    && (forall i :: 0 <= i < |processed| ==>
          processed[i].word in visited && Describes(processed[i], tokens, language, nlp))
    && (forall w :: w in visited && Selected(w, tokens, language, nlp) ==>
          exists i :: 0 <= i < |processed| && processed[i].word == w)
  }

  /** Visiting a token that is filtered out, or has no label, adds no entry. */
  lemma CollectSkip(processed: seq<WordInfo>, visited: set<string>, word: string,
                    tokens: seq<string>, language: string, nlp: Nlp)
    requires Collected(processed, visited, tokens, language, nlp)
    requires !Kept(word, nlp.stopWords(language), nlp.lower) || (PosTag(word, language, nlp).Success? && !HasLabel(PosTag(word, language, nlp)))
    ensures Collected(processed, visited + {word}, tokens, language, nlp)
  {
  }

  /** Visiting a new token that has a label appends its entry. */
  lemma CollectAdd(processed: seq<WordInfo>, visited: set<string>, word: string,
                   tokens: seq<string>, language: string, nlp: Nlp)
    requires Collected(processed, visited, tokens, language, nlp)
    requires word !in visited && word in tokens && Kept(word, nlp.stopWords(language), nlp.lower) && HasLabel(PosTag(word, language, nlp))
    ensures Collected(processed + [WordInfo(word, Count(tokens, word), PosTag(word, language, nlp).value.value)],
                      visited + {word}, tokens, language, nlp)
  {
    var entry := WordInfo(word, Count(tokens, word), PosTag(word, language, nlp).value.value);
    NewEntryDescribes(word, tokens, language, nlp);
    AppendDescribed(processed, visited, entry, tokens, language, nlp);
    AppendCovers(processed, visited, entry, tokens, language, nlp);
  }

  /** The entry built for a selected token describes it. */
  lemma NewEntryDescribes(word: string, tokens: seq<string>, language: string, nlp: Nlp)
    requires Selected(word, tokens, language, nlp)
    ensures PosTag(word, language, nlp).Success?
    ensures Describes(WordInfo(word, Count(tokens, word), PosTag(word, language, nlp).value.value), tokens, language, nlp)
  {
  }

  /** Appending the entry of a new word keeps the entries distinct and described. */
  lemma AppendDescribed(processed: seq<WordInfo>, visited: set<string>, entry: WordInfo,
                        tokens: seq<string>, language: string, nlp: Nlp)
    requires DistinctWords(processed)
    requires forall i :: 0 <= i < |processed| ==>
      processed[i].word in visited && Describes(processed[i], tokens, language, nlp)
    requires entry.word !in visited && Describes(entry, tokens, language, nlp)
    ensures DistinctWords(processed + [entry])
    ensures forall i :: 0 <= i < |processed + [entry]| ==>
      (processed + [entry])[i].word in visited + {entry.word} && Describes((processed + [entry])[i], tokens, language, nlp)
  {
    var processed' := processed + [entry];
    forall i | 0 <= i < |processed'|
      ensures processed'[i].word in visited + {entry.word} && Describes(processed'[i], tokens, language, nlp)
    {
      if i < |processed| {
        assert processed'[i] == processed[i];
      }
    }
  }

  /** After appending the entry of a new word, every selected visited word has an entry. */
  lemma AppendCovers(processed: seq<WordInfo>, visited: set<string>, entry: WordInfo,
                     tokens: seq<string>, language: string, nlp: Nlp)
    requires forall w :: w in visited && Selected(w, tokens, language, nlp) ==>
      exists i :: 0 <= i < |processed| && processed[i].word == w
    ensures forall w :: w in visited + {entry.word} && Selected(w, tokens, language, nlp) ==>
      exists i :: 0 <= i < |processed + [entry]| && (processed + [entry])[i].word == w
  {
    var processed' := processed + [entry];
    forall w | w in visited + {entry.word} && Selected(w, tokens, language, nlp)
      ensures exists i :: 0 <= i < |processed'| && processed'[i].word == w
    {
      if w == entry.word {
        assert processed'[|processed|].word == w;
      } else {
        var i :| 0 <= i < |processed| && processed[i].word == w;
        assert processed'[i].word == w;
      }
    }
  }

  /** Sorting the collected entries gives an annotation of the tokens. */
  lemma SortedAnnotates(processed: seq<WordInfo>, sorted: seq<WordInfo>, tokens: seq<string>, language: string, nlp: Nlp)
    requires DistinctWords(processed)
    requires forall i :: 0 <= i < |processed| ==> Describes(processed[i], tokens, language, nlp)
    requires forall w :: w in tokens && Selected(w, tokens, language, nlp) ==>
               exists i :: 0 <= i < |processed| && processed[i].word == w
    requires SortedByFreq(sorted) && multiset(sorted) == multiset(processed)
    ensures Annotates(TextInfo(sorted, |sorted|), tokens, language, nlp)
  {
    PermutationKeepsDistinctWords(processed, sorted);
    forall w | w in tokens && Selected(w, tokens, language, nlp)
      ensures exists i :: 0 <= i < |sorted| && sorted[i].word == w
    {
      var k :| 0 <= k < |processed| && processed[k].word == w;
      assert processed[k] in multiset(sorted);
      var i :| 0 <= i < |sorted| && sorted[i] == processed[k];
    }
    forall i | 0 <= i < |sorted|
      ensures Describes(sorted[i], tokens, language, nlp)
    {
      assert sorted[i] in multiset(processed);
    }
  }

  /**
   * `processed_words.sort(key=lambda x: x.freq, reverse=True)`: a stable sort by
   * decreasing frequency, written as an insertion sort.
   */
  method SortByFreq(entries: seq<WordInfo>) returns (sorted: seq<WordInfo>)
    ensures SortedByFreq(sorted)
    ensures multiset(sorted) == multiset(entries)
  {
    sorted := [];
    for k := 0 to |entries|
      invariant SortedByFreq(sorted)
      invariant multiset(sorted) == multiset(entries[..k])
    {
      assert entries[..k + 1] == entries[..k] + [entries[k]];
      sorted := InsertByFreq(entries[k], sorted);
    }
    assert entries[..|entries|] == entries;
  }

  /** Inserts `entry` after every entry at least as frequent, keeping the order sorted. */
  function InsertByFreq(entry: WordInfo, sorted: seq<WordInfo>): (r: seq<WordInfo>)
    requires SortedByFreq(sorted)
    ensures SortedByFreq(r)
    ensures multiset(r) == multiset(sorted) + multiset{entry}
    ensures forall k :: 0 <= k < |r| ==> r[k] == entry || r[k] in sorted
  {
    if sorted == [] then [entry]
    else if sorted[0].freq >= entry.freq then
      var rest := InsertByFreq(entry, sorted[1..]);
      assert sorted == [sorted[0]] + sorted[1..];
      HeadBoundsRest(entry, sorted, rest);
      PrependSorted(sorted[0], rest);
      [sorted[0]] + rest
    else
      PrependSorted(entry, sorted);
      [entry] + sorted
  }

  /** The head of a sorted list is at least as frequent as its tail and any less frequent entry. */
  lemma HeadBoundsRest(entry: WordInfo, sorted: seq<WordInfo>, rest: seq<WordInfo>)
    requires SortedByFreq(sorted) && sorted != [] && sorted[0].freq >= entry.freq
    requires forall k :: 0 <= k < |rest| ==> rest[k] == entry || rest[k] in sorted[1..]
    ensures forall k :: 0 <= k < |rest| ==> sorted[0].freq >= rest[k].freq
  {
    forall k | 0 <= k < |rest| ensures sorted[0].freq >= rest[k].freq {
      if rest[k] != entry {
        var j :| 0 <= j < |sorted[1..]| && sorted[1..][j] == rest[k];
        assert sorted[j + 1] == rest[k];
      }
    }
  }

  /** An entry at least as frequent as all of a sorted list may go in front of it. */
  lemma PrependSorted(entry: WordInfo, sorted: seq<WordInfo>)
    requires SortedByFreq(sorted) && forall k :: 0 <= k < |sorted| ==> entry.freq >= sorted[k].freq
    ensures SortedByFreq([entry] + sorted)
  {
    var r := [entry] + sorted;
    forall i, j | 0 <= i < j < |r| ensures r[i].freq >= r[j].freq {
      if i > 0 {
        assert r[i] == sorted[i - 1];
      }
      assert r[j] == sorted[j - 1];
    }
  }

  // ---------------------------------------------------------------------------
  // Lemmas

  /** A sequence without repeated elements holds each element at most once. */
  lemma {:induction false} DistinctMultiplicity<T>(s: seq<T>, x: T)
    requires forall i, j :: 0 <= i < j < |s| ==> s[i] != s[j]
    ensures multiset(s)[x] <= 1
  {
    if s != [] {
      var init := s[..|s| - 1];
      assert s == init + [s[|s| - 1]];
      DistinctMultiplicity(init, x);
      if s[|s| - 1] == x {
        assert x !in init;
      }
    }
  }

  /** An element found at two positions occurs at least twice. */
  lemma RepeatedMultiplicity<T>(s: seq<T>, i: nat, j: nat)
    requires i < j < |s| && s[i] == s[j]
    ensures multiset(s)[s[i]] >= 2
  {
    assert s == s[..i] + [s[i]] + s[i + 1..j] + [s[j]] + s[j + 1..];
  }

  /** Reordering entries with distinct words keeps the words distinct. */
  lemma PermutationKeepsDistinctWords(a: seq<WordInfo>, b: seq<WordInfo>)
    requires DistinctWords(a) && multiset(a) == multiset(b)
    ensures DistinctWords(b)
  {
    forall i, j | 0 <= i < j < |b|
      ensures b[i].word != b[j].word
    {
      if b[i].word == b[j].word {
        assert b[i] in multiset(a) && b[j] in multiset(a);
        var p :| 0 <= p < |a| && a[p] == b[i];
        var q :| 0 <= q < |a| && a[q] == b[j];
        assert p == q;
        RepeatedMultiplicity(b, i, j);
        DistinctMultiplicity(a, b[i]);
      }
    }
  }

  /**
   * `pos_tag` on the English path fails exactly for a tag missing from the
   * table, with that tag, and never falls back to a default label; the French
   * path never fails and gives `None` exactly for a class missing from its
   * table; any other language gives `None`.
   */
  lemma PosTagOutcomes(word: string, language: string, nlp: Nlp)
    ensures var r := PosTag(word, language, nlp);
      language == "english" ==>
        && (r.Failure? <==> nlp.englishTag(word) !in MetadataEnglish)
        && (r.Failure? ==> r.error == nlp.englishTag(word))
        && (r.Success? ==> r.value.Some?)
    ensures var r := PosTag(word, language, nlp);
      language == "french" ==>
        r.Success? && (r.value == None <==> nlp.frenchPos(word) !in MetadataFrench)
    ensures language != "english" && language != "french" ==> PosTag(word, language, nlp) == Success(None)
  {
  }

  /**
   * Every label in the two tables is non-empty, so `if gram_info:` drops only the
   * `None` of the French path (and of other languages), never a label.
   */
  lemma LabelsNonEmpty(word: string, language: string, nlp: Nlp)
    ensures PosTag(word, language, nlp).Success? ==>
      (HasLabel(PosTag(word, language, nlp)) <==> PosTag(word, language, nlp).value.Some?)
  {
    EnglishLabelsNonEmpty();
    FrenchLabelsNonEmpty();
  }

  lemma EnglishLabelsNonEmpty()
    ensures forall tag :: tag in MetadataEnglish ==> MetadataEnglish[tag] != ""
  {
  }

  lemma FrenchLabelsNonEmpty()
    ensures forall pos :: pos in MetadataFrench ==> MetadataFrench[pos] != ""
  {
  }

  /**
   * A French word is reported exactly when its token passes the filter and its
   * class is in the French table.
   */
  lemma FrenchSelection(word: string, tokens: seq<string>, nlp: Nlp)
    ensures Selected(word, tokens, "french", nlp)
        <==> word in tokens && Kept(word, nlp.stopWords("french"), nlp.lower) && nlp.frenchPos(word) in MetadataFrench
  {
    LabelsNonEmpty(word, "french", nlp);
  }

  /** Every reported word is a token, counted at least once. */
  lemma FreqPositive(info: TextInfo, tokens: seq<string>, language: string, nlp: Nlp)
    requires Annotates(info, tokens, language, nlp)
    ensures forall i :: 0 <= i < |info.wordsInfo| ==>
      info.wordsInfo[i].word in tokens && info.wordsInfo[i].freq >= 1
  {
    forall i | 0 <= i < |info.wordsInfo|
      ensures info.wordsInfo[i].word in tokens && info.wordsInfo[i].freq >= 1
    {
      assert Describes(info.wordsInfo[i], tokens, language, nlp);
    }
  }

  /** No reported word is a stopword or a substring of the punctuation string. */
  lemma NoStopwordOrPunctuation(info: TextInfo, tokens: seq<string>, language: string, nlp: Nlp)
    requires Annotates(info, tokens, language, nlp)
    ensures forall i :: 0 <= i < |info.wordsInfo| ==>
      var lowered := nlp.lower(info.wordsInfo[i].word);
      lowered !in nlp.stopWords(language) && !IsSubstring(lowered, Punctuation)
  {
    forall i | 0 <= i < |info.wordsInfo|
      ensures nlp.lower(info.wordsInfo[i].word) !in nlp.stopWords(language)
      ensures !IsSubstring(nlp.lower(info.wordsInfo[i].word), Punctuation)
    {
      assert Describes(info.wordsInfo[i], tokens, language, nlp);
    }
  }

  /** The summed frequency of a list of entries. */
  function SumFreq(entries: seq<WordInfo>): int
  {
    if entries == [] then 0 else SumFreq(entries[..|entries| - 1]) + entries[|entries| - 1].freq
  }

  /** The words of a list of entries. */
  function Words(entries: seq<WordInfo>): seq<string>
  {
    seq(|entries|, i requires 0 <= i < |entries| => entries[i].word)
  }

  /** How often the tokens mention the words, summed over the words. */
  function SumCounts(words: seq<string>, tokens: seq<string>): nat
  {
    if words == [] then 0 else SumCounts(words[..|words| - 1], tokens) + Count(tokens, words[|words| - 1])
  }

  /** One more token adds one to the sum for each word it equals. */
  lemma {:induction false} SumCountsSnoc(words: seq<string>, tokens: seq<string>, t: string)
    ensures SumCounts(words, tokens + [t]) == SumCounts(words, tokens) + Count(words, t)
  {
    assert (tokens + [t])[..|tokens|] == tokens;
    if words != [] {
      SumCountsSnoc(words[..|words| - 1], tokens, t);
    }
  }

  /** Distinct words each appear once at most. */
  lemma CountDistinct(words: seq<string>, t: string)
    requires forall i, j :: 0 <= i < j < |words| ==> words[i] != words[j]
    ensures Count(words, t) <= 1
  {
    CountIsMultiplicity(words, t);
    DistinctMultiplicity(words, t);
  }

  /** Distinct words are mentioned, in all, at most once per token. */
  lemma {:induction false} SumCountsBound(words: seq<string>, tokens: seq<string>)
    requires forall i, j :: 0 <= i < j < |words| ==> words[i] != words[j]
    ensures SumCounts(words, tokens) <= |tokens|
  {
    if tokens == [] {
      SumCountsEmpty(words);
    } else {
      var init := tokens[..|tokens| - 1];
      assert tokens == init + [tokens[|tokens| - 1]];
      SumCountsBound(words, init);
      SumCountsSnoc(words, init, tokens[|tokens| - 1]);
      CountDistinct(words, tokens[|tokens| - 1]);
    }
  }

  lemma {:induction false} SumCountsEmpty(words: seq<string>)
    ensures SumCounts(words, []) == 0
  {
    if words != [] {
      SumCountsEmpty(words[..|words| - 1]);
    }
  }

  /** With each frequency the count of its word, the summed frequency sums the counts. */
  lemma {:induction false} SumFreqIsSumCounts(entries: seq<WordInfo>, tokens: seq<string>)
    requires forall i :: 0 <= i < |entries| ==> entries[i].freq == Count(tokens, entries[i].word)
    ensures SumFreq(entries) == SumCounts(Words(entries), tokens)
  {
    if entries != [] {
      var init := entries[..|entries| - 1];
      SumFreqIsSumCounts(init, tokens);
      assert Words(entries)[..|entries| - 1] == Words(init);
    }
  }

  /** The frequencies of an annotation add up to at most the number of tokens. */
  lemma SumFreqBound(info: TextInfo, tokens: seq<string>, language: string, nlp: Nlp)
    requires Annotates(info, tokens, language, nlp)
    ensures SumFreq(info.wordsInfo) <= |tokens|
  {
    var entries := info.wordsInfo;
    forall i | 0 <= i < |entries| ensures entries[i].freq == Count(tokens, entries[i].word) {
      assert Describes(entries[i], tokens, language, nlp);
    }
    SumFreqIsSumCounts(entries, tokens);
    SumCountsBound(Words(entries), tokens);
  }
}
