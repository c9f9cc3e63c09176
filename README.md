# Text annotation and translation service, core model

This is a Dafny model of the three algorithmic pieces of an English/French text
service, with proofs of their properties.

- **The translator** (`src/translation/core.py`). `translation` cuts a text into
  sentences. It packs consecutive sentences into parts whose summed token length
  stays within `max_length` (128), unless the part is a single sentence that
  alone exceeds it. Each part is translated on its own, and the
  translations are joined with single spaces. The packing loop of
  `_split_text_into_parts` is the method `Translation.SplitTextIntoParts`. It is
  proved equal to `Translation.Pack`, a fold of one loop iteration (`Step`) over
  the sentences followed by the final flush. The packing properties are lemmas
  about `Pack`.
- **The lexical annotator** (`src/text_parsing/core.py`). `process` lowercases
  and tokenizes the text. For every distinct token that is neither a stopword nor
  a substring of the punctuation string, it looks up a grammatical label with
  `pos_tag`, keeps the labelled words with their counts, and sorts them by
  decreasing frequency. `pos_tag` reads two closed tables, transcribed in full.
  On English a tag missing from its table raises `KeyError`; on French a missing
  class gives `None`, and the word is dropped.
- **The translation memory** (`src/utils/utils.py`, `update_dict`). It
  whitespace-splits a text and applies a filter of the same form. Its stopword
  set is `stopwords.words()` with no language argument, the stopwords of every
  language together (`src/utils/utils.py:31`), where `process` uses those of
  its one language (`src/text_parsing/core.py:118`). It replaces the leading
  and trailing runs of non-word characters with one space and strips the result.
  Every resulting word that is not yet a key of the memory is translated and
  added.

All library calls are fields of collaborator records: `Translation.Translator`,
`TextParsing.Nlp` and `Utils.Collaborators`. Each field is a function, except the
stopword set of `update_dict`, which is a value. These are
the sentence splitter, the tokenizer's token count, the translation model,
lowercasing, the word tokenizer, the two taggers, the stopword lists and the
regular-expression class `\w`. Python's `str.split`, `str.strip`, `str.isspace`,
`" ".join`, `list.count` and the substring test `in` are written out.

Python iterates over a `set` in an unspecified order. Both loops over `set(...)`
therefore pick their next element with `:|`, and their contracts hold for every
order. In `process`, which failing token is met first depends on that order. The
failure is specified as "some kept token whose tag is missing", with that tag.

The records of `src/models/model.py` are the datatypes `Models.WordInfo`
(lines 4-7) and `Models.TextInfo` (lines 9-11).

Some behaviours of the source are proved as they are written:
- When the first sentence alone exceeds the budget, `_split_text_into_parts`
  flushes the still-empty `current_part`. The first part is then the empty
  string, the model is asked to translate `""`, and the translation starts with
  that output and a space (`Translation.PackLeadingEmptyPart`,
  `Translation.TranslateOversizedFirstSentence`).
- The punctuation filter tests substrings, not characters. `"()"` is filtered
  out, while `"..."` passes and becomes the empty key of the memory
  (`Strings.ParenthesesArePunctuation`, `Utils.EllipsisBecomesEmptyKey`).

## Model

| member | source | states |
|---|---|---|
| Translation.SplitTextIntoParts | src/translation/core.py:51-81 | the loop returns exactly the groups of the greedy fold `Pack`, and those groups concatenate back to the input sentences |
| Translation.Pack | src/translation/core.py:62-81 | the groups `_split_text_into_parts` returns: the packing loop run over the sentences (`Run`, one `Step` per iteration), then the final flush of a non-empty `current_part`; its properties are the `Pack…` lemmas below |
| Translation.PackIsPacked | src/translation/core.py:62-81 | for a non-empty input the groups concatenate to the input, are each within `max_length` unless a group is a single oversized sentence, are greedy, end with a non-empty group, and start with an empty group exactly when the first sentence is oversized |
| Translation.PackConcat | src/translation/core.py:66-79 | concatenating the sentence groups in order gives exactly the input: nothing lost, duplicated or reordered |
| Translation.PackWithinBudget | src/translation/core.py:70-76 | a group whose summed token length exceeds `max_length` is exactly one sentence; every other group is within budget |
| Translation.PackIsGreedy | src/translation/core.py:70-76 | every group after the first is non-empty, and the group before it plus its first sentence exceeds `max_length`: a part is closed only when the next sentence does not fit |
| Translation.PackEmpty | src/translation/core.py:62-81 | there are no parts if and only if there are no sentences |
| Translation.PackLeadingEmptyPart | src/translation/core.py:70-79 | the first group is empty if and only if the first sentence alone is over budget, and then the second group is that sentence alone |
| Translation.PackNonEmptyParts | src/translation/core.py:74-79 | no group after the first is empty, and the last group ends with the last sentence |
| Translation.RunFits | src/translation/core.py:66-72 | sentences whose summed length fits the budget all stay in `current_part`, with `current_length` their summed length |
| Translation.PackFitsOnePart | src/translation/core.py:66-79 | a non-empty list of sentences that fits the budget is a single part |
| Translation.PartTextsRejoin | src/translation/core.py:74-79 | the part strings joined with one space equal the sentences joined with one space, with one extra leading space when the first sentence is oversized |
| Translation.PartTexts | src/translation/core.py:74-79 | `" ".join(current_part)` applied to every group: the part strings, one per group, each the group's sentences with single spaces between them; `PartTextsRejoin` states what they join to |
| Translation.TranslatedParts | src/translation/core.py:45 | the list comprehension over the parts: one model output per part string, in part order; `TranslateLayout` states where each stands in the output |
| Translation.Translate | src/translation/core.py:42-48 | `translation`: the sentences are packed, each part string is translated on its own, and the translations are joined with single spaces; a text without sentences translates to the empty string, and a text that is one part translates to that part's translation alone |
| Translation.TranslateLayout | src/translation/core.py:42-48 | the output holds one translated piece per part, in part order, separated by single spaces |
| Translation.TranslateShortText | src/translation/core.py:42-48 | a text whose sentences fit the budget together is one model call on the sentences joined with spaces |
| Translation.TranslateOversizedFirstSentence | src/translation/core.py:42-48 | with an oversized first sentence, the first piece is the translation of the empty string and the second is that of the first sentence alone |
| TextParsing.Process | src/text_parsing/core.py:107-136 | fails exactly when some kept token has an English tag missing from the table, and then with such a tag; otherwise returns one entry per labelled kept token, with its count and label, distinct, sorted by decreasing frequency, and `words_count` the number of entries |
| TextParsing.SortByFreq | src/text_parsing/core.py:134 | the result is ordered by non-increasing frequency and is a permutation of the input |
| TextParsing.InsertByFreq | src/text_parsing/core.py:134 | inserting into a sorted list keeps it sorted and adds exactly the one entry |
| TextParsing.PermutationKeepsDistinctWords | src/text_parsing/core.py:123-134 | reordering entries whose words are distinct keeps them distinct, so sorting keeps one entry per word |
| TextParsing.Tokens | src/text_parsing/core.py:119 | `word_tokenize(text.lower())`: the tokenizer applied to the lowercased text; the tokens `process` filters and counts |
| TextParsing.HasLabel | src/text_parsing/core.py:126 | Python's truth value of the `pos_tag` result: a label that is present and non-empty; `LabelsNonEmpty` shows every table label passes |
| TextParsing.PosTag | src/text_parsing/core.py:139-154 | `pos_tag`: for English the `metadata_english` label of the tagger's tag, or a failure carrying the tag when the table lacks it; for French the `metadata_french` label of the class or `None`; otherwise `None`; its outcomes are stated by `PosTagOutcomes` |
| TextParsing.PosTagOutcomes | src/text_parsing/core.py:139-154 | English fails exactly on a tag missing from its table; French never fails and gives `None` exactly on a class missing from its table; any other language gives `None` |
| TextParsing.LabelsNonEmpty | src/text_parsing/core.py:36-93 | every table label is non-empty, so `if gram_info:` drops exactly the `None` results |
| TextParsing.FrenchSelection | src/text_parsing/core.py:123-126 | a French token is reported if and only if it passes the filter and its class is in the French table |
| TextParsing.FreqPositive | src/text_parsing/core.py:123-131 | every reported word is a token with frequency at least one |
| TextParsing.NoStopwordOrPunctuation | src/text_parsing/core.py:124 | no reported word lowercases to a stopword or to a substring of the punctuation string |
| TextParsing.SumFreqBound | src/text_parsing/core.py:119-136 | the frequencies of a result add up to at most the number of tokens |
| Strings.Join | src/translation/core.py:46 | Python's `sep.join(xs)`: the elements in order with one separator between neighbours; stated by `JoinAt` and `JoinAppend` |
| Strings.JoinAt | src/translation/core.py:46 | every element of a join stands at its place, with exactly one separator before it (unless first) and after it (unless last) |
| Strings.JoinAppend | src/translation/core.py:74-79 | joining two non-empty lists is joining their joins with one more separator |
| Strings.Kept | src/text_parsing/core.py:124 | the filter shared with `src/utils/utils.py:35`: the lowercased token is not a stopword and not a substring of `Punctuation`, the punctuation string with the two curly quotes; `Process`, `FilterWords` and `NoStopwordOrPunctuation` are stated with it |
| Strings.Count | src/text_parsing/core.py:130 | `list.count`: never more than the list's length, and positive exactly when the word occurs |
| Strings.CountIsMultiplicity | src/text_parsing/core.py:130 | `list.count` is the multiplicity of the word among the tokens |
| Strings.IsSubstring | src/text_parsing/core.py:124 | Python's `a in b` on two strings, as a recursive prefix test over the suffixes of `b`; its meaning is stated by `IsSubstringIff` |
| Strings.IsSubstringIff | src/text_parsing/core.py:124 | for any strings `a` and `b`, the recursive substring test holds exactly when some slice of `b` equals `a` |
| Strings.EmptyIsSubstring | src/text_parsing/core.py:124 | the empty string is a substring of every string, so an empty token never passes the filter of `process` and never reaches `nlp(word)[0]` (line 153) |
| Strings.EllipsisIsNotPunctuation | src/utils/utils.py:35 | `"..."` is not a substring of the punctuation string, so it passes the filter |
| Strings.ParenthesesArePunctuation | src/utils/utils.py:35 | `"()"` is a substring of the punctuation string, so it is filtered out |
| Utils.UpdateDict | src/utils/utils.py:31-49 | the new memory is the old one plus each filtered word that was not a key, mapped to its translation; the translator is called once per such word |
| Utils.Split | src/utils/utils.py:34 | `str.split()` with no argument: the maximal runs of characters for which `str.isspace()` is false; stated by `SplitIff` |
| Utils.FilteredWords | src/utils/utils.py:34-36 | the words `update_dict` looks up: the cleaned form of each token of the split that passes the stopword and punctuation filter; its shape is stated by `FilteredWordsShape` |
| Utils.SubEdges | src/utils/utils.py:36 | the `re.sub` step: the leading and the trailing run of non-word characters each replaced by one space, and a token with no word character replaced by one space; `LeadingRun` and `TrailingRun` state the runs |
| Utils.Strip | src/utils/utils.py:36 | Python's `str.strip()`: whitespace removed from both ends; `StripPadded` states that it removes exactly the spaces `SubEdges` added |
| Utils.CleanWord | src/utils/utils.py:36 | the regular-expression substitution followed by `strip()`: each edge run of non-word characters becomes one space, then surrounding whitespace is stripped; its result is stated by `CleanWordCore` |
| Utils.TranslateWith | src/utils/utils.py:48 | the call `Translation.translation(word)`: the whole translator of `src/translation/core.py` applied to one new word |
| Utils.Merge | src/utils/utils.py:46-49 | the memory after the insertion loop: every old entry, plus each absent word mapped to its translation; stated by `MergeGrows` and `MergeIdempotent` |
| Utils.FilterWords | src/utils/utils.py:34-36 | the list holds exactly the cleaned forms of the distinct split tokens that pass the stopword and punctuation filter, one entry per such token: a ghost list of those tokens, without repeats and in the order visited, has at each index the token whose cleaned form is the entry at that index (two tokens that clean to the same word give two entries) |
| Utils.InsertNewWords | src/utils/utils.py:46-49 | the loop leaves the merged map, and counts one translation per word that was not yet a key |
| Utils.SplitPieces | src/utils/utils.py:34 | the pieces of `str.split()` are non-empty, hold no whitespace, and run together to the non-whitespace characters of the text |
| Utils.SplitIff | src/utils/utils.py:34 | a list of words is the split of a text if and only if the text is those words woven with whitespace gaps: every gap is whitespace, the gaps between two words are non-empty, and every word is non-empty and free of whitespace |
| Utils.SplitWeave | src/utils/utils.py:34 | any such cut of a text at whitespace, with gaps of any whitespace at either end and between the words, splits back into exactly its words |
| Utils.SplitJoin | src/utils/utils.py:34 | non-empty space-free words joined by single spaces split back into exactly those words |
| Utils.LeadingRun | src/utils/utils.py:36 | `LeadingNonWord` is the match of `^\W+`: every character before it is a non-word character, and the next one, if any, is a word character |
| Utils.TrailingRun | src/utils/utils.py:36 | `TrailingNonWord` is the match of `\W+$`: every character after it is a non-word character, and the one before, if any, is a word character |
| Utils.CleanWordWithoutCore | src/utils/utils.py:36 | a token with no word character at all is cleaned to the empty string |
| Utils.CleanWordCore | src/utils/utils.py:36 | the cleaned token is the stretch from its first word character to its last, and is empty exactly when it has no word character |
| Utils.FilteredWordsShape | src/utils/utils.py:34-36 | every key derived from a text holds no whitespace, and is empty or starts and ends with a word character |
| Utils.EllipsisBecomesEmptyKey | src/utils/utils.py:34-36 | a `"..."` token that is not a stopword yields the empty key |
| Utils.MergeGrows | src/utils/utils.py:46-49 | every old entry is kept with its value, every filtered word becomes a key, and the new keys are exactly the absent filtered words, each mapped to its translation |
| Utils.MergeIdempotent | src/utils/utils.py:46-49 | merging the same words into the merged memory changes nothing and leaves no word to translate |
| Utils.UpdateDictIdempotent | src/utils/utils.py:47-49 | rerunning with the same text on the updated memory changes nothing and calls the translator zero times |

## Left out

- File I/O of `update_dict` (`src/utils/utils.py:38-44` and `51-52`): the memory is a map passed in and returned. Concurrent access to the shared file is not modelled.
- `syntactic_tree`: the grammar parse, canvas rendering, PostScript and PNG conversion are all library and file work.
- Library internals: NLTK sentence splitting, word tokenizing and tagging, spaCy, the MarianMT tokenizer and model, the stopword lists, `str.lower` and the `\w` class are parameters. Their behaviour is not modelled beyond their types and the assumption that no `\w` character is whitespace, which is stated where used.
- The API layer, the entry point and the class-level model loading.
- Translation.SplitTextIntoParts: `max_length` is a natural number. A negative limit, which the source accepts but never receives, is not modelled.
- Translation.SplitTextIntoParts: returns the groups of sentences. The part strings are those groups joined with one space (`Translation.PartTexts`).
- TextParsing.SortByFreq: the in-place stable `list.sort` is modelled on a sequence as an insertion sort. It is proved sorted and a permutation; stability among equal frequencies is not stated.
- TextParsing.Process: the `IndexError` of `nlp(word)[0]` on an empty French word is not modelled. Such a token never reaches `pos_tag`, because the empty string is a substring of the punctuation string.
- TextParsing.Process: the stopword list of a language that NLTK does not provide raises in the source; here `stopWords` is a total parameter.
- Utils.CleanWord: `$` in `\W+$` also matches before a final newline. Tokens of `str.split()` hold no whitespace (`Utils.SplitPieces`), so this case cannot arise and is not modelled.
- Utils.UpdateDict: the `translations` result counts the translator calls. It does not exist in the source and only serves to state that a rerun makes none.
