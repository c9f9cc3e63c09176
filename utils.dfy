/**
 * The translation memory of src/utils/utils.py (`update_dict`): the whitespace
 * tokens of a text are filtered for stopwords and punctuation, stripped of
 * leading and trailing non-word characters, and every resulting word that is
 * not yet a key of the memory is translated on its own and added.
 *
 * The memory is a value passed in and returned; reading and rewriting its JSON
 * file are left out. Lowercasing, the stopword list, the regular-expression
 * class of word characters and the translator are collaborators, the fields of
 * `Collaborators`.
 */
module Utils {
  import opened Strings
  import Translation

  /** The library collaborators of `update_dict`. */
  datatype Collaborators = Collaborators(
    /** `set(stopwords.words())`: the stopwords of every language */
    stopWords: set<string>,
    /** `str.lower` */
    lower: string -> string,
    /** membership of a character in the Unicode class `\w` of Python's `re` */
    isWordChar: char -> bool,
    /** the collaborators of `Translation.translation` */
    translator: Translation.Translator)

  // ---------------------------------------------------------------------------
  // str.split() and str.strip()

  /** The characters for which Python's `str.isspace()` holds. */
  const SpaceChars: set<char> := {
    '\t', '\n', '\U{000B}', '\U{000C}', '\r', '\U{001C}', '\U{001D}', '\U{001E}', '\U{001F}', ' ',
    '\U{0085}', '\U{00A0}', '\U{1680}',
    '\U{2000}', '\U{2001}', '\U{2002}', '\U{2003}', '\U{2004}', '\U{2005}',
    '\U{2006}', '\U{2007}', '\U{2008}', '\U{2009}', '\U{200A}',
    '\U{2028}', '\U{2029}', '\U{202F}', '\U{205F}', '\U{3000}'}

  /** Python's `str.isspace()` for a single character. */
  predicate IsSpace(c: char)
  {
    c in SpaceChars
  }

  /** A string without whitespace. */
  predicate NoSpace(s: string)
  {
    forall i :: 0 <= i < |s| ==> !IsSpace(s[i])
  }

  /** The characters of `s` that are not whitespace, in order. */
  function RemoveSpaces(s: string): string
  {
    if s == [] then "" else (if IsSpace(s[0]) then "" else [s[0]]) + RemoveSpaces(s[1..])
  }

  /** The strings of `pieces` run together. */
  function Flatten(pieces: seq<string>): string
  {
    if pieces == [] then "" else pieces[0] + Flatten(pieces[1..])
  }

  /** `str.split()` of `s`, with `word` the non-whitespace characters read so far. */
  function SplitFrom(s: string, word: string): seq<string>
  {
    if s == [] then
      (if word == [] then [] else [word])
    else if IsSpace(s[0]) then
      (if word == [] then [] else [word]) + SplitFrom(s[1..], "")
    else
      SplitFrom(s[1..], word + [s[0]])
  }

  /** Python's `str.split()`: the maximal runs of non-whitespace characters. */
  function Split(s: string): seq<string>
  {
    SplitFrom(s, "")
  }

  /** Python's `str.strip()`: whitespace removed from both ends. */
  function Strip(s: string): string
  {
    TrimEnd(TrimStart(s))
  }

  function TrimStart(s: string): (r: string)
  {
    if s != [] && IsSpace(s[0]) then TrimStart(s[1..]) else s
  }

  function TrimEnd(s: string): (r: string)
  {
    if s != [] && IsSpace(s[|s| - 1]) then TrimEnd(s[..|s| - 1]) else s
  }

  // ---------------------------------------------------------------------------
  // re.sub(r'(^\W+|\W+$)', ' ', w).strip()

  /** The length of the run of non-word characters that starts `w`. */
  function LeadingNonWord(w: string, isWordChar: char -> bool): (n: nat)
    ensures n <= |w|
  {
    RunFrom(w, isWordChar, 0)
  }

  /** The length of the run of non-word characters that ends `w`. */
  function TrailingNonWord(w: string, isWordChar: char -> bool): (n: nat)
    ensures n <= |w|
  {
    RunBefore(w, isWordChar, |w|)
  }

  /** The length of the run of non-word characters of `w` that starts at index `i`. */
  function RunFrom(w: string, isWordChar: char -> bool, i: nat): (n: nat)
    requires i <= |w|
    ensures i + n <= |w|
    decreases |w| - i
  {
    if i == |w| || isWordChar(w[i]) then 0 else 1 + RunFrom(w, isWordChar, i + 1)
  }

  /** The length of the run of non-word characters of `w` that ends just before index `j`. */
  function RunBefore(w: string, isWordChar: char -> bool, j: nat): (n: nat)
    requires j <= |w|
    ensures n <= j
  {
    if j == 0 || isWordChar(w[j - 1]) then 0 else 1 + RunBefore(w, isWordChar, j - 1)
  }

  /** `LeadingNonWord` is the maximal run: all non-word characters, followed by a word character or the end. */
  lemma LeadingRun(w: string, isWordChar: char -> bool)
    ensures var n := LeadingNonWord(w, isWordChar);
      && n <= |w|
      && (forall i :: 0 <= i < n ==> !isWordChar(w[i]))
      && (n < |w| ==> isWordChar(w[n]))
  {
    RunFromIsMaximal(w, isWordChar, 0);
  }

  /** `TrailingNonWord` is the maximal run: all non-word characters, preceded by a word character or the start. */
  lemma TrailingRun(w: string, isWordChar: char -> bool)
    ensures var n := TrailingNonWord(w, isWordChar);
      && n <= |w|
      && (forall i :: |w| - n <= i < |w| ==> !isWordChar(w[i]))
      && (n < |w| ==> isWordChar(w[|w| - 1 - n]))
  {
    RunBeforeIsMaximal(w, isWordChar, |w|);
  }

  lemma {:induction false} RunFromIsMaximal(w: string, isWordChar: char -> bool, i: nat)
    requires i <= |w|
    ensures var n := RunFrom(w, isWordChar, i);
      && (forall k :: i <= k < i + n ==> !isWordChar(w[k]))
      && (i + n < |w| ==> isWordChar(w[i + n]))
    decreases |w| - i
  {
    if i < |w| && !isWordChar(w[i]) {
      RunFromIsMaximal(w, isWordChar, i + 1);
    }
  }

  /** A stretch of non-word characters up to the end is one run. */
  lemma {:induction false} NonWordRun(w: string, isWordChar: char -> bool, i: nat)
    requires i <= |w| && forall k :: i <= k < |w| ==> !isWordChar(w[k])
    ensures RunFrom(w, isWordChar, i) == |w| - i
    decreases |w| - i
  {
    if i < |w| {
      NonWordRun(w, isWordChar, i + 1);
    }
  }

  lemma {:induction false} RunBeforeIsMaximal(w: string, isWordChar: char -> bool, j: nat)
    requires j <= |w|
    ensures var n := RunBefore(w, isWordChar, j);
      && (forall k :: j - n <= k < j ==> !isWordChar(w[k]))
      && (n < j ==> isWordChar(w[j - 1 - n]))
  {
    if j > 0 && !isWordChar(w[j - 1]) {
      RunBeforeIsMaximal(w, isWordChar, j - 1);
    }
  }

  /**
   * `re.sub(r'(^\W+|\W+$)', ' ', w)`: the leading run of non-word characters and
   * the trailing one each become one space. When `w` is all non-word characters
   * the first alternative takes all of it and there is one space.
   */
  function SubEdges(w: string, isWordChar: char -> bool): string
  {
    EdgeRunsApart(w, isWordChar);
    SubRuns(w, LeadingNonWord(w, isWordChar), TrailingNonWord(w, isWordChar))
  }

  /** `SubEdges` for a leading run of `lead` and a trailing run of `trail` characters. */
  function SubRuns(w: string, lead: nat, trail: nat): string
    requires lead <= |w| && (lead < |w| ==> lead + trail < |w|)
  {
    if lead == |w| then
      (if w == [] then "" else " ")
    else
      Pad(w[lead..|w| - trail], lead > 0, trail > 0)
  }

  /** `core` with one space in front when `before` holds and one after it when `after` holds. */
  function Pad(core: string, before: bool, after: bool): string
  {
    (if before then " " else "") + core + (if after then " " else "")
  }

  /** The word `update_dict` derives from a token. */
  function CleanWord(w: string, isWordChar: char -> bool): string
  {
    Strip(SubEdges(w, isWordChar))
  }

  // ---------------------------------------------------------------------------
  // The memory update

  /** The words `update_dict` looks up: the cleaned tokens of the text that pass the filter. */
  function FilteredWords(text: string, env: Collaborators): set<string>
  {
    set w | w in Split(text) && Kept(w, env.stopWords, env.lower) :: CleanWord(w, env.isWordChar)
  }

  /** `Translation.translation`, the translator `update_dict` calls on each new word. */
  function TranslateWith(env: Collaborators): string -> string
  {
    w => Translation.Translate(w, env.translator)
  }

  /** The memory after adding `words`: old entries kept, each new word mapped to its translation. */
  function Merge(memory: map<string, string>, words: set<string>, translate: string -> string): map<string, string>
  {
    map k | k in memory.Keys + words :: if k in memory then memory[k] else translate(k)
  }

  /** The distinct elements of a list. */
  function Elements(s: seq<string>): set<string>
  {
    set k | k in s
  }

  /**
   * `update_dict` without its file reads and writes: returns the updated memory
   * and the number of times it called the translator.
   */
  method UpdateDict(text: string, memory: map<string, string>, env: Collaborators)
    returns (updated: map<string, string>, translations: nat)
    ensures updated == Merge(memory, FilteredWords(text, env), TranslateWith(env))
    ensures translations == |FilteredWords(text, env) - memory.Keys|
  {
    var filteredWords;
    ghost var kept;
    filteredWords, kept := FilterWords(text, env);
    updated, translations := InsertNewWords(filteredWords, memory, TranslateWith(env));
  }

  /**
   * The first loop of `update_dict`: the cleaned form of every distinct token that
   * passes the filter. `kept` lists those tokens in the order visited, one per entry.
   */
  method FilterWords(text: string, env: Collaborators) returns (filteredWords: seq<string>, ghost kept: seq<string>)
    ensures Elements(filteredWords) == FilteredWords(text, env)
    ensures |filteredWords| == |KeptAmong(Elements(Split(text)), env)|
    ensures |kept| == |filteredWords|
    ensures forall i, j :: 0 <= i < j < |kept| ==> kept[i] != kept[j]
    ensures Elements(kept) == KeptAmong(Elements(Split(text)), env)
    ensures forall i :: 0 <= i < |kept| ==> filteredWords[i] == CleanWord(kept[i], env.isWordChar)
  {
    filteredWords, kept := [], [];
    var tokens := Split(text);
    var remaining := set w | w in tokens;
    ghost var visited: set<string> := {};
    while remaining != {}
      invariant forall w :: w in remaining ==> w in tokens
      invariant forall w :: w in tokens ==> w in remaining || w in visited
      invariant forall w :: w in visited ==> w in tokens
      invariant remaining !! visited
      invariant Filtered(filteredWords, visited, env)
      invariant |filteredWords| == |KeptAmong(visited, env)|
      invariant KeptList(filteredWords, kept, visited, env)
      decreases |remaining|
    {
      var w :| w in remaining;
      KeptAmongAdd(visited, w, env);
      if Kept(w, env.stopWords, env.lower) {
        FilterAdd(filteredWords, visited, w, env);
        KeptListAdd(filteredWords, kept, visited, w, env);
        filteredWords := filteredWords + [CleanWord(w, env.isWordChar)];
        kept := kept + [w];
      } else {
        FilterSkip(filteredWords, visited, w, env);
        KeptListSkip(filteredWords, kept, visited, w, env);
      }
      remaining := remaining - {w};
      visited := visited + {w};
    }
    FilteredAll(filteredWords, visited, text, env);
    assert visited == Elements(Split(text));
  }

  /**
   * The second loop of `update_dict`: every word not yet a key is translated and
   * added; returns the new memory and the number of translations made.
   */
  method InsertNewWords(words: seq<string>, memory: map<string, string>, translate: string -> string)
    returns (updated: map<string, string>, translations: nat)
    ensures updated == Merge(memory, Elements(words), translate)
    ensures translations == |Elements(words) - memory.Keys|
  {
    updated, translations := memory, 0;
    ghost var seen: set<string> := {};
    MergeNothing(memory, translate);
    for i := 0 to |words|
      invariant seen == Elements(words[..i])
      invariant updated == Merge(memory, seen, translate)
      invariant translations == |seen - memory.Keys|
    {
      var word := words[i];
      ElementsSnoc(words, i);
      MergeStep(memory, seen, word, translate);
      if word !in updated {
        updated := updated[word := translate(word)];
        translations := translations + 1;
      }
      seen := seen + {word};
    }
    assert words[..|words|] == words;
  }

  lemma MergeNothing(memory: map<string, string>, translate: string -> string)
    ensures Merge(memory, {}, translate) == memory
  {
  }

  lemma ElementsSnoc(words: seq<string>, i: nat)
    requires i < |words|
    ensures Elements(words[..i + 1]) == Elements(words[..i]) + {words[i]}
  {
    assert words[..i + 1] == words[..i] + [words[i]];
  }

  /** The first loop of `update_dict` has put the cleaned form of every kept visited token in the list, and nothing else. */
  ghost predicate Filtered(filteredWords: seq<string>, visited: set<string>, env: Collaborators)
  {
    && (forall k :: k in filteredWords ==>
          exists w :: w in visited && Kept(w, env.stopWords, env.lower) && CleanWord(w, env.isWordChar) == k)
    && (forall w :: w in visited && Kept(w, env.stopWords, env.lower) ==> CleanWord(w, env.isWordChar) in filteredWords)
  }

  /** The tokens among `tokens` that pass the stopword and punctuation filter. */
  ghost function KeptAmong(tokens: set<string>, env: Collaborators): set<string>
  {
    set w | w in tokens && Kept(w, env.stopWords, env.lower)
  }

  /**
   * `kept` lists the kept tokens among `visited` once each, and each entry of the
   * list is the cleaned form of the kept token at the same index.
   */
  ghost predicate KeptList(filteredWords: seq<string>, kept: seq<string>, visited: set<string>, env: Collaborators)
  {
    && |kept| == |filteredWords|
    && (forall i, j :: 0 <= i < j < |kept| ==> kept[i] != kept[j])
    && Elements(kept) == KeptAmong(visited, env)
    && (forall i :: 0 <= i < |kept| ==> filteredWords[i] == CleanWord(kept[i], env.isWordChar))
  }

  lemma KeptListAdd(filteredWords: seq<string>, kept: seq<string>, visited: set<string>, w: string, env: Collaborators)
    requires KeptList(filteredWords, kept, visited, env)
    requires w !in visited && Kept(w, env.stopWords, env.lower)
    ensures KeptList(filteredWords + [CleanWord(w, env.isWordChar)], kept + [w], visited + {w}, env)
  {
    var words', kept' := filteredWords + [CleanWord(w, env.isWordChar)], kept + [w];
    assert w !in Elements(kept);
    assert forall i :: 0 <= i < |kept| ==> kept'[i] == kept[i] && words'[i] == filteredWords[i];
    assert Elements(kept') == Elements(kept) + {w};
    assert KeptAmong(visited + {w}, env) == KeptAmong(visited, env) + {w};
  }

  lemma KeptListSkip(filteredWords: seq<string>, kept: seq<string>, visited: set<string>, w: string, env: Collaborators)
    requires KeptList(filteredWords, kept, visited, env)
    requires !Kept(w, env.stopWords, env.lower)
    ensures KeptList(filteredWords, kept, visited + {w}, env)
  {
    assert KeptAmong(visited + {w}, env) == KeptAmong(visited, env);
  }

  /** Visiting one more token adds one kept token exactly when it passes the filter. */
  lemma KeptAmongAdd(tokens: set<string>, w: string, env: Collaborators)
    requires w !in tokens
    ensures |KeptAmong(tokens + {w}, env)| == |KeptAmong(tokens, env)| + (if Kept(w, env.stopWords, env.lower) then 1 else 0)
  {
    if Kept(w, env.stopWords, env.lower) {
      assert KeptAmong(tokens + {w}, env) == KeptAmong(tokens, env) + {w};
    } else {
      assert KeptAmong(tokens + {w}, env) == KeptAmong(tokens, env);
    }
  }

  lemma FilterAdd(filteredWords: seq<string>, visited: set<string>, w: string, env: Collaborators)
    requires Filtered(filteredWords, visited, env) && Kept(w, env.stopWords, env.lower)
    ensures Filtered(filteredWords + [CleanWord(w, env.isWordChar)], visited + {w}, env)
  {
  }

  lemma FilterSkip(filteredWords: seq<string>, visited: set<string>, w: string, env: Collaborators)
    requires Filtered(filteredWords, visited, env) && !Kept(w, env.stopWords, env.lower)
    ensures Filtered(filteredWords, visited + {w}, env)
  {
  }

  lemma FilteredAll(filteredWords: seq<string>, visited: set<string>, text: string, env: Collaborators)
    requires Filtered(filteredWords, visited, env)
    requires forall w :: w in visited <==> w in Split(text)
    ensures Elements(filteredWords) == FilteredWords(text, env)
  {
  }

  /** Adding one more word to the merged set: unchanged if already a key, else one translation more. */
  lemma MergeStep(memory: map<string, string>, words: set<string>, word: string, translate: string -> string)
    ensures var m := Merge(memory, words, translate);
      && Merge(memory, words + {word}, translate) == (if word in m then m else m[word := translate(word)])
      && |(words + {word}) - memory.Keys| == |words - memory.Keys| + (if word in m then 0 else 1)
  {
    MergeStepMap(memory, words, word, translate);
    MergeKeys(memory, words, translate);
    NewWordCount(words, memory.Keys, word);
  }

  lemma MergeKeys(memory: map<string, string>, words: set<string>, translate: string -> string)
    ensures Merge(memory, words, translate).Keys == memory.Keys + words
  {
  }

  lemma NewWordCount(words: set<string>, keys: set<string>, word: string)
    ensures |(words + {word}) - keys| == |words - keys| + (if word in keys + words then 0 else 1)
  {
    if word in keys + words {
      assert (words + {word}) - keys == words - keys;
    } else {
      assert (words + {word}) - keys == (words - keys) + {word};
    }
  }

  lemma MergeStepMap(memory: map<string, string>, words: set<string>, word: string, translate: string -> string)
    ensures var m := Merge(memory, words, translate);
      Merge(memory, words + {word}, translate)
      == (if word in m then m else m[word := translate(word)])
  {
    var m := Merge(memory, words, translate);
    var m' := Merge(memory, words + {word}, translate);
    if word in m {
      assert m'.Keys == m.Keys;
    } else {
      assert m'.Keys == m.Keys + {word};
    }
  }

  // ---------------------------------------------------------------------------
  // Properties of the split

  lemma {:induction false} FlattenAppend(a: seq<string>, b: seq<string>)
    ensures Flatten(a + b) == Flatten(a) + Flatten(b)
  {
    if a == [] {
      assert a + b == b;
    } else {
      assert (a + b)[1..] == a[1..] + b;
      FlattenAppend(a[1..], b);
    }
  }

  /** The pieces `SplitFrom` produces are non-empty and hold no whitespace. */
  lemma {:induction false} SplitFromShape(s: string, word: string)
    requires NoSpace(word)
    ensures forall p :: p in SplitFrom(s, word) ==> p != [] && NoSpace(p)
    decreases |s|
  {
    if s == [] {
    } else if IsSpace(s[0]) {
      SplitFromShape(s[1..], "");
    } else {
      var word' := word + [s[0]];
      assert forall i :: 0 <= i < |word| ==> word'[i] == word[i];
      SplitFromShape(s[1..], word');
    }
  }

  /** The pieces `SplitFrom` produces run together to `word` and the non-whitespace characters of `s`. */
  lemma {:induction false} SplitFromFlatten(s: string, word: string)
    ensures Flatten(SplitFrom(s, word)) == word + RemoveSpaces(s)
    decreases |s|
  {
    if s == [] {
      assert word + RemoveSpaces(s) == word;
      if word != [] {
        assert Flatten([word]) == word + Flatten([]);
      }
    } else if IsSpace(s[0]) {
      var head: seq<string> := if word == [] then [] else [word];
      SplitFromFlatten(s[1..], "");
      FlattenAppend(head, SplitFrom(s[1..], ""));
      assert Flatten(head) == word by {
        if word != [] {
          assert Flatten([word]) == word + Flatten([]);
        }
      }
    } else {
      SplitFromFlatten(s[1..], word + [s[0]]);
      assert word + [s[0]] + RemoveSpaces(s[1..]) == word + ([s[0]] + RemoveSpaces(s[1..]));
    }
  }

  /**
   * `str.split()` loses only whitespace: its pieces are non-empty, hold no
   * whitespace, and run together give the non-whitespace characters of `s`.
   */
  lemma SplitPieces(s: string)
    ensures forall p :: p in Split(s) ==> p != [] && NoSpace(p)
    ensures Flatten(Split(s)) == RemoveSpaces(s)
  {
    SplitFromShape(s, "");
    SplitFromFlatten(s, "");
  }

  lemma {:induction false} SplitFromWord(x: string, rest: string, word: string)
    requires NoSpace(x)
    ensures SplitFrom(x + rest, word) == SplitFrom(rest, word + x)
    decreases |x|
  {
    if x == [] {
      assert x + rest == rest && word + x == word;
    } else {
      assert (x + rest)[1..] == x[1..] + rest;
      SplitFromWord(x[1..], rest, word + [x[0]]);
      assert word + [x[0]] + x[1..] == word + x;
    }
  }

  /**
   * The pieces of `str.split()` are maximal: non-empty words without whitespace,
   * joined by single spaces, split back into exactly themselves.
   */
  lemma {:induction false} SplitJoin(pieces: seq<string>)
    requires forall i :: 0 <= i < |pieces| ==> pieces[i] != [] && NoSpace(pieces[i])
    ensures Split(Join(" ", pieces)) == pieces
    decreases |pieces|
  {
    if |pieces| == 1 {
      SplitFromWord(pieces[0], "", "");
      assert pieces[0] + "" == pieces[0];
    } else if |pieces| > 1 {
      var rest := pieces[1..];
      assert pieces == [pieces[0]] + rest;
      JoinCons(" ", pieces[0], rest);
      assert Join(" ", pieces) == pieces[0] + (" " + Join(" ", rest));
      var tail := " " + Join(" ", rest);
      SplitFromWord(pieces[0], tail, "");
      assert "" + pieces[0] == pieces[0];
      assert tail[0] == ' ' && tail[1..] == Join(" ", rest);
      assert SplitFrom(tail, pieces[0]) == [pieces[0]] + SplitFrom(Join(" ", rest), "");
      SplitJoin(rest);
    }
  }

  /** A string made only of whitespace (possibly empty). */
  ghost predicate AllSpace(s: string)
  {
    forall i :: 0 <= i < |s| ==> IsSpace(s[i])
  }

  /** `gaps[0] + pieces[0] + gaps[1] + ... + pieces[n - 1] + gaps[n]`. */
  ghost function Weave(gaps: seq<string>, pieces: seq<string>): string
    requires |gaps| == |pieces| + 1
    decreases pieces
  {
    if pieces == [] then gaps[0] else gaps[0] + pieces[0] + Weave(gaps[1..], pieces[1..])
  }

  /**
   * `gaps` and `pieces` cut a text at whitespace: the gaps are whitespace, the
   * gaps between two pieces are not empty, and the pieces are non-empty words
   * without whitespace.
   */
  ghost predicate Spacing(gaps: seq<string>, pieces: seq<string>)
  {
    && |gaps| == |pieces| + 1
    && (forall i :: 0 <= i < |gaps| ==> AllSpace(gaps[i]))
    && (forall i :: 0 < i < |pieces| ==> gaps[i] != [])
    && (forall i :: 0 <= i < |pieces| ==> pieces[i] != [] && NoSpace(pieces[i]))
  }

  /**
   * `str.split()` is the cut of a text at its whitespace runs: `pieces` is the
   * split of `s` exactly when some whitespace gaps woven with `pieces` give `s`.
   */
  lemma SplitIff(s: string, pieces: seq<string>)
    ensures pieces == Split(s) <==>
      exists gaps :: Spacing(gaps, pieces) && Weave(gaps, pieces) == s
  {
    if pieces == Split(s) {
      GapsFromSpacing(s, "", "");
      GapsFromWeave(s, "", "");
      var gaps := GapsFrom(s, "", "");
      assert "" + "" + s == s;
      assert Spacing(gaps, pieces) && Weave(gaps, pieces) == s;
    }
    if gaps :| Spacing(gaps, pieces) && Weave(gaps, pieces) == s {
      SplitWeave(gaps, pieces);
    }
  }

  /** The whitespace runs `str.split()` drops, with `gap` the whitespace and `word` the word read so far. */
  ghost function GapsFrom(s: string, gap: string, word: string): seq<string>
    decreases |s|
  {
    if s == [] then
      (if word == [] then [gap] else [gap, ""])
    else if IsSpace(s[0]) then
      (if word == [] then GapsFrom(s[1..], gap + [s[0]], "") else [gap] + GapsFrom(s[1..], [s[0]], ""))
    else
      GapsFrom(s[1..], gap, word + [s[0]])
  }

  lemma {:induction false} GapsFromSpacing(s: string, gap: string, word: string)
    requires AllSpace(gap) && NoSpace(word)
    ensures Spacing(GapsFrom(s, gap, word), SplitFrom(s, word))
    ensures word != [] ==> GapsFrom(s, gap, word)[0] == gap
    ensures gap != [] ==> GapsFrom(s, gap, word)[0] != []
    decreases |s|
  {
    if s != [] && IsSpace(s[0]) {
      if word == [] {
        var empty: seq<string> := [];
        assert empty + SplitFrom(s[1..], "") == SplitFrom(s[1..], "");
        GapsFromSpacing(s[1..], gap + [s[0]], "");
      } else {
        GapsFromSpacing(s[1..], [s[0]], "");
        SpacingCons(gap, word, GapsFrom(s[1..], [s[0]], ""), SplitFrom(s[1..], ""));
      }
    } else if s != [] {
      var word' := word + [s[0]];
      assert forall i :: 0 <= i < |word| ==> word'[i] == word[i];
      GapsFromSpacing(s[1..], gap, word');
    }
  }

  lemma {:induction false} GapsFromWeave(s: string, gap: string, word: string)
    ensures |GapsFrom(s, gap, word)| == |SplitFrom(s, word)| + 1
      && Weave(GapsFrom(s, gap, word), SplitFrom(s, word)) == gap + word + s
    decreases |s|
  {
    var gaps, pieces := GapsFrom(s, gap, word), SplitFrom(s, word);
    if s == [] {
      if word == [] {
        assert Weave(gaps, pieces) == gap;
      } else {
        WeaveCons(gap, word, [""], []);
      }
      assert gap + word + s == gap + word;
    } else if IsSpace(s[0]) {
      if word == [] {
        var empty: seq<string> := [];
        assert gaps == GapsFrom(s[1..], gap + [s[0]], "");
        assert pieces == SplitFrom(s[1..], "") by {
          assert empty + SplitFrom(s[1..], "") == SplitFrom(s[1..], "");
        }
        GapsFromWeave(s[1..], gap + [s[0]], "");
        assert gap + [s[0]] + "" + s[1..] == gap + word + s;
      } else {
        var gaps', pieces' := GapsFrom(s[1..], [s[0]], ""), SplitFrom(s[1..], "");
        GapsFromWeave(s[1..], [s[0]], "");
        assert gaps == [gap] + gaps' && pieces == [word] + pieces';
        WeaveCons(gap, word, gaps', pieces');
        assert [s[0]] + "" + s[1..] == s;
      }
    } else {
      GapsFromWeave(s[1..], gap, word + [s[0]]);
      assert gap + (word + [s[0]]) + s[1..] == gap + word + s;
    }
  }

  lemma WeaveCons(gap: string, word: string, gaps: seq<string>, pieces: seq<string>)
    requires |gaps| == |pieces| + 1
    ensures Weave([gap] + gaps, [word] + pieces) == gap + word + Weave(gaps, pieces)
  {
    assert ([gap] + gaps)[1..] == gaps && ([word] + pieces)[1..] == pieces;
  }

  /** A word and a gap in front of a cut whose first gap is not empty form a cut. */
  lemma SpacingCons(gap: string, word: string, gaps: seq<string>, pieces: seq<string>)
    requires Spacing(gaps, pieces) && gaps[0] != []
    requires AllSpace(gap) && word != [] && NoSpace(word)
    ensures Spacing([gap] + gaps, [word] + pieces)
  {
    var gaps', pieces' := [gap] + gaps, [word] + pieces;
    assert forall i :: 0 < i < |gaps'| ==> gaps'[i] == gaps[i - 1];
    assert forall i :: 0 < i < |pieces'| ==> pieces'[i] == pieces[i - 1];
  }

  /** Any cut of a text at whitespace is the one `str.split()` makes. */
  lemma {:induction false} SplitWeave(gaps: seq<string>, pieces: seq<string>)
    requires Spacing(gaps, pieces)
    ensures Split(Weave(gaps, pieces)) == pieces
    decreases pieces
  {
    if pieces == [] {
      SplitSpaces(gaps[0], "");
      assert gaps[0] + "" == gaps[0];
    } else {
      var rest := Weave(gaps[1..], pieces[1..]);
      assert Spacing(gaps[1..], pieces[1..]);
      assert rest == [] || IsSpace(rest[0]) by {
        if pieces[1..] == [] {
          assert rest == gaps[1];
        } else {
          assert gaps[1] != [] && IsSpace(gaps[1][0]);
          assert rest == gaps[1] + pieces[1] + Weave(gaps[2..], pieces[2..]);
        }
      }
      PieceStep(gaps[0], pieces[0], rest);
      SplitWeave(gaps[1..], pieces[1..]);
      assert pieces == [pieces[0]] + pieces[1..];
    }
  }

  /** Whitespace in front of a word, and then a gap or the end: one piece. */
  lemma PieceStep(gap: string, piece: string, rest: string)
    requires AllSpace(gap) && piece != [] && NoSpace(piece)
    requires rest == [] || IsSpace(rest[0])
    ensures Split(gap + piece + rest) == [piece] + Split(rest)
  {
    SplitSpaces(gap, piece + rest);
    assert gap + piece + rest == gap + (piece + rest);
    SplitFromWord(piece, rest, "");
    assert "" + piece == piece;
  }

  /** Leading whitespace produces no piece. */
  lemma {:induction false} SplitSpaces(gap: string, rest: string)
    requires AllSpace(gap)
    ensures SplitFrom(gap + rest, "") == SplitFrom(rest, "")
    decreases |gap|
  {
    if gap != [] {
      assert (gap + rest)[1..] == gap[1..] + rest;
      SplitSpaces(gap[1..], rest);
    } else {
      assert gap + rest == rest;
    }
  }

  // ---------------------------------------------------------------------------
  // Properties of the cleaning

  lemma {:induction false} TrimStartSpaces(pre: string, x: string)
    requires forall i :: 0 <= i < |pre| ==> IsSpace(pre[i])
    requires x == [] || !IsSpace(x[0])
    ensures TrimStart(pre + x) == x
    decreases |pre|
  {
    if pre == [] {
      assert pre + x == x;
    } else {
      assert (pre + x)[1..] == pre[1..] + x;
      TrimStartSpaces(pre[1..], x);
    }
  }

  lemma {:induction false} TrimEndSpaces(x: string, post: string)
    requires forall i :: 0 <= i < |post| ==> IsSpace(post[i])
    requires x == [] || !IsSpace(x[|x| - 1])
    ensures TrimEnd(x + post) == x
    decreases |post|
  {
    if post == [] {
      assert x + post == x;
    } else {
      var init := post[..|post| - 1];
      assert (x + post)[..|x + post| - 1] == x + init;
      TrimEndSpaces(x, init);
    }
  }

  /** `str.strip()` undoes the single spaces `SubEdges` puts around a core without edge whitespace. */
  lemma StripPadded(core: string, before: bool, after: bool)
    requires core != [] && !IsSpace(core[0]) && !IsSpace(core[|core| - 1])
    ensures Strip(Pad(core, before, after)) == core
  {
    var pre: string := if before then " " else "";
    var post: string := if after then " " else "";
    assert pre + core + post == pre + (core + post);
    TrimStartSpaces(pre, core + post);
    TrimEndSpaces(core, post);
  }

  /**
   * `re.sub(r'(^\W+|\W+$)', ' ', w).strip()` keeps exactly the stretch of `w`
   * from its first word character to its last one, and is empty when `w` has
   * none (an all-punctuation token). This needs that no word character is
   * whitespace, as holds for the class `\w`.
   */
  lemma CleanWordCore(w: string, isWordChar: char -> bool)
    requires forall c :: isWordChar(c) ==> !IsSpace(c)
    ensures var r := CleanWord(w, isWordChar);
      var lead, trail := LeadingNonWord(w, isWordChar), TrailingNonWord(w, isWordChar);
      && (r == [] <==> forall i :: 0 <= i < |w| ==> !isWordChar(w[i]))
      && (r != [] ==> lead + trail < |w| && r == w[lead..|w| - trail])
      && (r != [] ==> isWordChar(r[0]) && isWordChar(r[|r| - 1]))
  {
    var lead := LeadingNonWord(w, isWordChar);
    if lead < |w| {
      CleanWordWithCore(w, isWordChar);
      assert isWordChar(w[lead]);
    } else {
      CleanWordWithoutCore(w, isWordChar);
    }
  }

  /** A token without a word character is cleaned to the empty string. */
  lemma CleanWordWithoutCore(w: string, isWordChar: char -> bool)
    requires LeadingNonWord(w, isWordChar) == |w|
    ensures CleanWord(w, isWordChar) == []
    ensures forall i :: 0 <= i < |w| ==> !isWordChar(w[i])
  {
    LeadingRun(w, isWordChar);
    if w != [] {
      assert SubEdges(w, isWordChar) == " ";
      StripSpace();
    }
  }

  lemma StripSpace()
    ensures Strip(" ") == ""
  {
    assert " "[1..] == "";
  }

  /**
   * A token with a word character is cleaned to the stretch between its edge
   * runs, which begins and ends with a word character.
   */
  lemma CleanWordWithCore(w: string, isWordChar: char -> bool)
    requires forall c :: isWordChar(c) ==> !IsSpace(c)
    requires LeadingNonWord(w, isWordChar) < |w|
    ensures var r := CleanWord(w, isWordChar);
      var lead, trail := LeadingNonWord(w, isWordChar), TrailingNonWord(w, isWordChar);
      && lead + trail < |w| && r == w[lead..|w| - trail]
      && r != [] && isWordChar(r[0]) && isWordChar(r[|r| - 1])
  {
    CoreEdges(w, isWordChar);
    CleanWordStretch(w, isWordChar);
  }

  /** The stretch between the edge runs survives `str.strip()` when its ends are not whitespace. */
  lemma CleanWordStretch(w: string, isWordChar: char -> bool)
    requires LeadingNonWord(w, isWordChar) < |w|
    requires var lead, trail := LeadingNonWord(w, isWordChar), TrailingNonWord(w, isWordChar);
      lead + trail < |w| && !IsSpace(w[lead]) && !IsSpace(w[|w| - 1 - trail])
    ensures var lead, trail := LeadingNonWord(w, isWordChar), TrailingNonWord(w, isWordChar);
      CleanWord(w, isWordChar) == w[lead..|w| - trail]
  {
    var lead, trail := LeadingNonWord(w, isWordChar), TrailingNonWord(w, isWordChar);
    SubEdgesWithCore(w, isWordChar);
    StripPaddedSlice(w, lead, |w| - trail, lead > 0, trail > 0);
  }

  /** `StripPadded` for a slice whose end characters are not whitespace. */
  lemma StripPaddedSlice(w: string, i: nat, j: nat, before: bool, after: bool)
    requires i < j <= |w| && !IsSpace(w[i]) && !IsSpace(w[j - 1])
    ensures Strip(Pad(w[i..j], before, after)) == w[i..j]
  {
    SliceEdges(w, i, j);
    StripPadded(w[i..j], before, after);
  }

  /** With a word character present, each edge run becomes one space around the stretch between them. */
  lemma SubEdgesWithCore(w: string, isWordChar: char -> bool)
    requires LeadingNonWord(w, isWordChar) < |w|
    ensures var lead, trail := LeadingNonWord(w, isWordChar), TrailingNonWord(w, isWordChar);
      lead + trail < |w| &&
      SubEdges(w, isWordChar) == Pad(w[lead..|w| - trail], lead > 0, trail > 0)
  {
    EdgeRunsApart(w, isWordChar);
  }

  /** The stretch between the edge runs is non-empty and begins and ends with a word character. */
  lemma CoreEdges(w: string, isWordChar: char -> bool)
    requires LeadingNonWord(w, isWordChar) < |w|
    ensures var lead, trail := LeadingNonWord(w, isWordChar), TrailingNonWord(w, isWordChar);
      lead + trail < |w| &&
      var core := w[lead..|w| - trail];
      core != [] && core[0] == w[lead] && core[|core| - 1] == w[|w| - 1 - trail]
      && isWordChar(core[0]) && isWordChar(core[|core| - 1])
  {
    var lead, trail := LeadingNonWord(w, isWordChar), TrailingNonWord(w, isWordChar);
    LeadingRun(w, isWordChar);
    TrailingRun(w, isWordChar);
    SliceEdges(w, lead, |w| - trail);
  }

  /** In a token with a word character, the leading and trailing runs do not meet. */
  lemma EdgeRunsApart(w: string, isWordChar: char -> bool)
    ensures LeadingNonWord(w, isWordChar) < |w| ==> LeadingNonWord(w, isWordChar) + TrailingNonWord(w, isWordChar) < |w|
  {
    LeadingRun(w, isWordChar);
    TrailingRun(w, isWordChar);
  }

  lemma SliceEdges(w: string, i: nat, j: nat)
    requires i < j <= |w|
    ensures w[i..j] != [] && w[i..j][0] == w[i] && w[i..j][|w[i..j]| - 1] == w[j - 1]
  {
  }

  /** A cleaned token holds no whitespace, and is empty or begins and ends with a word character. */
  lemma CleanWordShape(w: string, isWordChar: char -> bool)
    requires NoSpace(w)
    requires forall c :: isWordChar(c) ==> !IsSpace(c)
    ensures var k := CleanWord(w, isWordChar);
      NoSpace(k) && (k == [] || (isWordChar(k[0]) && isWordChar(k[|k| - 1])))
  {
    CleanWordCore(w, isWordChar);
    if CleanWord(w, isWordChar) != [] {
      NoSpaceSlice(w, LeadingNonWord(w, isWordChar), |w| - TrailingNonWord(w, isWordChar));
    }
  }

  lemma NoSpaceSlice(s: string, i: nat, j: nat)
    requires NoSpace(s) && i <= j <= |s|
    ensures NoSpace(s[i..j])
  {
    forall k | 0 <= k < j - i ensures !IsSpace(s[i..j][k]) {
      assert s[i..j][k] == s[i + k];
    }
  }

  /**
   * Every key `update_dict` derives from a text holds no whitespace, and is
   * empty or begins and ends with a word character.
   */
  lemma FilteredWordsShape(text: string, env: Collaborators)
    requires forall c :: env.isWordChar(c) ==> !IsSpace(c)
    ensures forall k :: k in FilteredWords(text, env) ==>
      NoSpace(k) && (k == [] || (env.isWordChar(k[0]) && env.isWordChar(k[|k| - 1])))
  {
    forall k | k in FilteredWords(text, env)
      ensures NoSpace(k) && (k == [] || (env.isWordChar(k[0]) && env.isWordChar(k[|k| - 1])))
    {
      FilteredWordShape(text, env, k);
    }
  }

  lemma FilteredWordShape(text: string, env: Collaborators, k: string)
    requires forall c :: env.isWordChar(c) ==> !IsSpace(c)
    requires k in FilteredWords(text, env)
    ensures NoSpace(k) && (k == [] || (env.isWordChar(k[0]) && env.isWordChar(k[|k| - 1])))
  {
    var w :| w in Split(text) && Kept(w, env.stopWords, env.lower) && CleanWord(w, env.isWordChar) == k;
    SplitPieces(text);
    CleanWordShape(w, env.isWordChar);
  }

  /**
   * A token made only of non-word characters that passes the filter, such as an
   * ellipsis, becomes the empty key.
   */
  lemma EllipsisBecomesEmptyKey(text: string, env: Collaborators)
    requires "..." in Split(text)
    requires env.lower("...") == "..." && "..." !in env.stopWords
    requires !env.isWordChar('.')
    ensures "" in FilteredWords(text, env)
  {
    EllipsisIsNotPunctuation();
    assert Kept("...", env.stopWords, env.lower);
    EllipsisCleansToEmpty(env.isWordChar);
  }

  /** An ellipsis has no word character, so cleaning leaves nothing of it. */
  lemma EllipsisCleansToEmpty(isWordChar: char -> bool)
    requires !isWordChar('.')
    ensures CleanWord("...", isWordChar) == ""
  {
    var dots := "...";
    assert forall k :: 0 <= k < |dots| ==> dots[k] == '.';
    NonWordRun(dots, isWordChar, 0);
    CleanWordWithoutCore(dots, isWordChar);
  }

  // ---------------------------------------------------------------------------
  // Properties of the memory update

  /**
   * The memory only grows: every old entry is kept with its value, every word
   * becomes a key, and the new keys are exactly the words that were not keys,
   * each mapped to its translation.
   */
  lemma MergeGrows(memory: map<string, string>, words: set<string>, translate: string -> string)
    ensures var m := Merge(memory, words, translate);
      && (forall k :: k in memory ==> k in m && m[k] == memory[k])
      && words <= m.Keys
      && m.Keys - memory.Keys == words - memory.Keys
      && (forall k :: k in m && k !in memory ==> m[k] == translate(k))
  {
    MergeKeys(memory, words, translate);
  }

  /** Merging the same words a second time changes nothing and needs no translation. */
  lemma MergeIdempotent(memory: map<string, string>, words: set<string>, translate: string -> string)
    ensures var m := Merge(memory, words, translate);
      Merge(m, words, translate) == m && words - m.Keys == {}
  {
    var m := Merge(memory, words, translate);
    MergeKeys(memory, words, translate);
    MergeKeys(m, words, translate);
  }

  /**
   * Running `update_dict` again with the same text on the memory it produced
   * leaves the memory as it is and calls the translator zero times.
   */
  lemma UpdateDictIdempotent(text: string, memory: map<string, string>, env: Collaborators)
    ensures var words := FilteredWords(text, env);
      var m := Merge(memory, words, TranslateWith(env));
      Merge(m, words, TranslateWith(env)) == m && |words - m.Keys| == 0
  {
    MergeIdempotent(memory, FilteredWords(text, env), TranslateWith(env));
  }
}
