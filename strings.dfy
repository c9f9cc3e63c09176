/**
 * The string operations shared by the translator, the lexical annotator and the
 * translation memory: `sep.join(...)`, `list.count(...)`, the substring test
 * `x in s` on two Python strings, and the stopword/punctuation filter that both
 * `TextProcess.process` and `update_dict` apply to a token.
 */
module Strings {

  /** `string.punctuation + '“”'`: the ASCII punctuation characters followed by the curly quotes. */
  const Punctuation: string := "!\"#$%&'()*+,-./:;<=>?@[\\]^_`{|}~“”"

  /** Python's `sep.join(xs)`. */
  function Join(sep: string, xs: seq<string>): string
  {
    if xs == [] then ""
    else if |xs| == 1 then xs[0]
    else Join(sep, xs[..|xs| - 1]) + sep + xs[|xs| - 1]
  }

  /** Joining two non-empty lists is joining their joins with one more separator. */
  lemma {:induction false} JoinAppend(sep: string, xs: seq<string>, ys: seq<string>)
    requires xs != [] && ys != []
    ensures Join(sep, xs + ys) == Join(sep, xs) + sep + Join(sep, ys)
  {
    var zs := xs + ys;
    var last := ys[|ys| - 1];
    if |ys| == 1 {
      assert zs[..|zs| - 1] == xs;
    } else {
      var ys' := ys[..|ys| - 1];
      assert zs[..|zs| - 1] == xs + ys' && zs[|zs| - 1] == last;
      JoinAppend(sep, xs, ys');
      var a, b := Join(sep, xs), Join(sep, ys');
      assert Join(sep, zs) == a + sep + b + sep + last;
      assert Join(sep, ys) == b + sep + last;
      assert a + sep + b + sep + last == a + sep + (b + sep + last);
    }
  }

  /** Joining prepends the first element, for lists of two or more. */
  lemma JoinCons(sep: string, x: string, ys: seq<string>)
    requires ys != []
    ensures Join(sep, [x] + ys) == x + sep + Join(sep, ys)
  {
    JoinAppend(sep, [x], ys);
  }

  /** An empty first element leaves only its separator in front. */
  lemma JoinLeadingEmpty(sep: string, xs: seq<string>)
    requires |xs| >= 2 && xs[0] == ""
    ensures Join(sep, xs) == sep + Join(sep, xs[1..])
  {
    assert xs == [""] + xs[1..];
    JoinCons(sep, "", xs[1..]);
  }

  /** Joining from the front: the first element, then a separator if more follow. */
  lemma JoinFront(sep: string, x: string, after: seq<string>)
    ensures Join(sep, [x] + after) == x + (if after != [] then sep else "") + Join(sep, after)
  {
    if after != [] {
      JoinCons(sep, x, after);
    } else {
      assert [x] + after == [x];
    }
  }

  /**
   * Every element of a join stands at its place, separated from its neighbours
   * by exactly one separator.
   */
  lemma JoinAt(sep: string, xs: seq<string>, i: nat)
    requires i < |xs|
    ensures Join(sep, xs) == Join(sep, xs[..i]) + (if i > 0 then sep else "") + xs[i]
                             + (if i + 1 < |xs| then sep else "") + Join(sep, xs[i + 1..])
  {
    var x, after := xs[i], xs[i + 1..];
    var post: string := if i + 1 < |xs| then sep else "";
    JoinFront(sep, x, after);
    assert xs[i..] == [x] + after;
    if i == 0 {
      assert xs == xs[i..];
    } else {
      JoinAtLater(sep, xs, i);
      var head := Join(sep, xs[..i]) + sep;
      assert head + (x + post + Join(sep, after)) == head + x + post + Join(sep, after);
    }
  }

  /** An element after the first follows the join of those before it and one separator. */
  lemma JoinAtLater(sep: string, xs: seq<string>, i: nat)
    requires 0 < i < |xs|
    ensures Join(sep, xs) == Join(sep, xs[..i]) + sep + Join(sep, xs[i..])
  {
    assert xs == xs[..i] + xs[i..];
    JoinAppend(sep, xs[..i], xs[i..]);
  }

  /** Python's `a in b` for two strings: `a` is a contiguous substring of `b`. */
  predicate IsSubstring(a: string, b: string)
  {
    a <= b || (b != [] && IsSubstring(a, b[1..]))
  }

  /** A substring by the recursive test is some slice of `b`. */
  lemma {:induction false} SubstringHasSlice(a: string, b: string)
    requires IsSubstring(a, b)
    ensures exists i, j :: 0 <= i <= j <= |b| && b[i..j] == a
  {
    if a <= b {
      assert b[0..|a|] == a;
    } else {
      SubstringHasSlice(a, b[1..]);
      var i, j :| 0 <= i <= j <= |b[1..]| && b[1..][i..j] == a;
      assert b[i + 1..j + 1] == a;
    }
  }

  /** Every slice of `b` passes the recursive substring test. */
  lemma {:induction false} SliceIsSubstring(a: string, b: string, i: nat, j: nat)
    requires i <= j <= |b| && b[i..j] == a
    ensures IsSubstring(a, b)
    decreases i
  {
    if i == 0 {
      assert a <= b;
    } else {
      assert b[1..][i - 1..j - 1] == a;
      SliceIsSubstring(a, b[1..], i - 1, j - 1);
    }
  }

  /** The recursive substring test agrees with "some slice of `b` equals `a`". */
  lemma IsSubstringIff(a: string, b: string)
    ensures IsSubstring(a, b) <==> exists i, j :: 0 <= i <= j <= |b| && b[i..j] == a
  {
    if IsSubstring(a, b) {
      SubstringHasSlice(a, b);
    }
    if exists i, j :: 0 <= i <= j <= |b| && b[i..j] == a {
      var i, j :| 0 <= i <= j <= |b| && b[i..j] == a;
      SliceIsSubstring(a, b, i, j);
    }
  }

  /** The empty string is a substring of every string, so an empty token is always filtered out. */
  lemma EmptyIsSubstring(b: string)
    ensures IsSubstring("", b)
  {
  }

  /** `Punctuation` around its only '.'. */
  lemma PunctuationAroundDot()
    ensures Punctuation == "!\"#$%&'()*+,-" + "." + "/:;<=>?@[\\]^_`{|}~“”"
  {
  }

  lemma NoOtherDot()
    ensures '.' !in "!\"#$%&'()*+,-" && '.' !in "/:;<=>?@[\\]^_`{|}~“”"
  {
  }

  /** '.' occurs in `Punctuation` once, at index 13. */
  lemma OnlyDot(k: int)
    requires 0 <= k < |Punctuation| && Punctuation[k] == '.'
    ensures k == 13
  {
    PunctuationAroundDot();
    NoOtherDot();
  }

  /** A slice equal to `a` starts with the first two characters of `a`. */
  lemma SliceStart(s: string, i: nat, j: nat, a: string)
    requires i <= j <= |s| && s[i..j] == a && |a| >= 2
    ensures i + 1 < |s| && s[i] == a[0] && s[i + 1] == a[1]
  {
    assert s[i..j][0] == s[i] && s[i..j][1] == s[i + 1];
  }

  /**
   * The filter tests substrings, not characters: an ellipsis token is not a
   * substring of `Punctuation` and passes it, ...
   */
  lemma EllipsisIsNotPunctuation()
    ensures !IsSubstring("...", Punctuation)
  {
    if IsSubstring("...", Punctuation) {
      SubstringHasSlice("...", Punctuation);
      var i, j :| 0 <= i <= j <= |Punctuation| && Punctuation[i..j] == "...";
      SliceStart(Punctuation, i, j, "...");
      OnlyDot(i);
      OnlyDot(i + 1);
    }
  }

  /** ... while "()", two punctuation characters that happen to be adjacent there, is filtered out. */
  lemma ParenthesesArePunctuation()
    ensures IsSubstring("()", Punctuation)
  {
    assert Punctuation[7] == '(' && Punctuation[8] == ')';
    assert Punctuation[7..9] == "()";
    IsSubstringIff("()", Punctuation);
  }

  /** Python's `xs.count(x)`. */
  function Count<T(==)>(xs: seq<T>, x: T): (n: nat)
    ensures n <= |xs|
    ensures n > 0 <==> x in xs
  {
    if xs == [] then 0
    else Count(xs[..|xs| - 1], x) + (if xs[|xs| - 1] == x then 1 else 0)
  }

  /** `Count` is the multiplicity of `x` in the multiset of `xs`. */
  lemma {:induction false} CountIsMultiplicity<T>(xs: seq<T>, x: T)
    ensures Count(xs, x) == multiset(xs)[x]
  {
    if xs != [] {
      var init := xs[..|xs| - 1];
      assert xs == init + [xs[|xs| - 1]];
      CountIsMultiplicity(init, x);
    }
  }

  /**
   * The filter that `TextProcess.process` and `update_dict` apply to each token:
   * its lowercase form is not a stopword and is not a substring of `Punctuation`.
   */
  predicate Kept(w: string, stopWords: set<string>, lower: string -> string)
  {
    lower(w) !in stopWords && !IsSubstring(lower(w), Punctuation)
  }
}
