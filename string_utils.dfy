/**
 * The general-purpose string helpers of `src/string-utils.ts`: `capitalize`,
 * `slugify` and `truncate`. The regular-expression replacements of `slugify`
 * are written out as recursive functions over the characters.
 */
module StringUtils {
  import opened Text

  // ---------------------------------------------------------------------------
  // capitalize
  // ---------------------------------------------------------------------------

  /** Upper-cases the first character; the empty string is returned as it is. */
  function Capitalize(s: string): (r: string)
    ensures |r| == |s|
    ensures s != [] ==> r[0] == UpperChar(s[0]) && !IsLower(r[0])
    ensures forall i :: 0 < i < |s| ==> r[i] == s[i]
  {
    if s == [] then s else [UpperChar(s[0])] + s[1..]
  }

  /** Capitalizing twice is capitalizing once. */
  lemma CapitalizeIdempotent(s: string)
    ensures Capitalize(Capitalize(s)) == Capitalize(s)
  {
  }

  /** The expectations of the `capitalize` unit tests. */
  lemma CapitalizeExamples()
    ensures Capitalize("hello") == "Hello"
    ensures Capitalize("") == ""
    ensures Capitalize("A") == "A"
    ensures Capitalize("hello world") == "Hello world"
  {
  }

  // ---------------------------------------------------------------------------
  // slugify
  // ---------------------------------------------------------------------------

  /** A character that `[^a-z0-9]` does not match. */
  predicate IsSlugChar(c: char) { IsLower(c) || IsDigit(c) }

  predicate AllSlugChars(s: string) {
    forall i :: 0 <= i < |s| ==> IsSlugChar(s[i])
  }

  /** Only `a-z`, `0-9` and `-`. */
  predicate SlugAlphabet(s: string) {
    forall i :: 0 <= i < |s| ==> IsSlugChar(s[i]) || s[i] == '-'
  }

  /** No two consecutive hyphens. */
  predicate NoDoubleHyphen(s: string) {
    forall i :: 0 <= i < |s| - 1 ==> s[i] != '-' || s[i + 1] != '-'
  }

  /** The shape of every `slugify` result. */
  predicate IsSlug(s: string) {
    && SlugAlphabet(s)
    && NoDoubleHyphen(s)
    && (s != [] ==> s[0] != '-' && s[|s| - 1] != '-')
  }

  /** Drops the run of separator characters (those matched by `[^a-z0-9]`) at the front. */
  function SkipSeparators(s: string): (r: string)
    ensures |r| <= |s|
    ensures r == s[|s| - |r|..]
    ensures r == [] || IsSlugChar(r[0])
    decreases |s|
  {
    if s == [] || IsSlugChar(s[0]) then s
    else
      var r := SkipSeparators(s[1..]);
      assert s[1..][|s| - 1 - |r|..] == s[|s| - |r|..];
      r
  }

  /**
   * `.replace(/[^a-z0-9]+/g, '-')`: every maximal run of separator characters
   * becomes one hyphen, every other character is kept.
   */
  function CollapseSeparators(s: string): string
    decreases |s|
  {
    if s == [] then []
    else if IsSlugChar(s[0]) then [s[0]] + CollapseSeparators(s[1..])
    else "-" + CollapseSeparators(SkipSeparators(s[1..]))
  }

  /** One slug character, or a hyphen in front of a slug character, keeps the shape. */
  lemma ConsKeepsShape(c: char, r: string)
    requires IsSlugChar(c) || (c == '-' && (r == [] || IsSlugChar(r[0])))
    requires SlugAlphabet(r) && NoDoubleHyphen(r)
    ensures SlugAlphabet([c] + r) && NoDoubleHyphen([c] + r)
  {
    var t := [c] + r;
    forall i | 0 <= i < |t| - 1 ensures t[i] != '-' || t[i + 1] != '-' {
      if i > 0 {
        assert t[i] == r[i - 1] && t[i + 1] == r[i];
      }
    }
  }

  /**
   * The collapse leaves only `a-z`, `0-9` and single hyphens, and what starts with
   * a slug character (or is empty) still does.
   */
  lemma {:induction false} CollapseShape(s: string)
    ensures SlugAlphabet(CollapseSeparators(s))
    ensures NoDoubleHyphen(CollapseSeparators(s))
    ensures s == [] || IsSlugChar(s[0]) ==> CollapseSeparators(s) == [] || IsSlugChar(CollapseSeparators(s)[0])
    decreases |s|
  {
    if s != [] {
      if IsSlugChar(s[0]) {
        CollapseShape(s[1..]);
        ConsKeepsShape(s[0], CollapseSeparators(s[1..]));
      } else {
        var t := SkipSeparators(s[1..]);
        CollapseShape(t);
        var r := CollapseSeparators(t);
        assert CollapseSeparators(s) == "-" + r;
        ConsKeepsShape('-', r);
      }
    }
  }

  predicate AllHyphens(s: string) {
    forall i :: 0 <= i < |s| ==> s[i] == '-'
  }

  /** `.replace(/^-+/, '')`. */
  function TrimLeadingHyphens(s: string): (r: string)
    ensures |r| <= |s|
    ensures r == s[|s| - |r|..]
    ensures r == [] || r[0] != '-'
    ensures s == [] || s[0] != '-' ==> r == s
    // Only hyphens are dropped.
    ensures AllHyphens(s[..|s| - |r|])
    decreases |s|
  {
    if s == [] || s[0] != '-' then s
    else
      var r := TrimLeadingHyphens(s[1..]);
      assert s[1..][|s| - 1 - |r|..] == s[|s| - |r|..];
      assert s[..|s| - |r|] == [s[0]] + s[1..][..|s| - 1 - |r|];
      r
  }

  /** `.replace(/-+$/, '')`. */
  function TrimTrailingHyphens(s: string): (r: string)
    ensures |r| <= |s|
    ensures r == s[..|r|]
    ensures r == [] || r[|r| - 1] != '-'
    ensures s == [] || s[|s| - 1] != '-' ==> r == s
    // Only hyphens are dropped.
    ensures AllHyphens(s[|r|..])
    decreases |s|
  {
    if s == [] || s[|s| - 1] != '-' then s
    else
      var r := TrimTrailingHyphens(s[..|s| - 1]);
      assert s[..|s| - 1][..|r|] == s[..|r|];
      assert s[|r|..] == s[..|s| - 1][|r|..] + [s[|s| - 1]];
      r
  }

  /**
   * `.replace(/^-+|-+$/g, '')`: the leading and the trailing run of hyphens go
   * (a string of hyphens only becomes empty).
   */
  function TrimHyphens(s: string): (r: string)
    ensures |r| <= |s|
    ensures r == [] || (r[0] != '-' && r[|r| - 1] != '-')
  {
    TrimTrailingHyphens(TrimLeadingHyphens(s))
  }

  /**
   * Only hyphens are removed: the result is a stretch of `s` with nothing but
   * hyphens before it and after it.
   */
  lemma TrimHyphensWindow(s: string)
    ensures var r, i := TrimHyphens(s), |s| - |TrimLeadingHyphens(s)|;
      && i + |r| <= |s| && s[i..i + |r|] == r && AllHyphens(s[..i]) && AllHyphens(s[i + |r|..])
  {
    var u := TrimLeadingHyphens(s);
    var r := TrimTrailingHyphens(u);
    assert TrimHyphens(s) == r;
    WindowOf(s, u, r);
  }

  /**
   * A prefix `r` of a suffix `u` of `s`, where only hyphens were cut each time,
   * sits at `|s| - |u|` with only hyphens around it.
   */
  lemma WindowOf(s: string, u: string, r: string)
    requires |u| <= |s| && u == s[|s| - |u|..] && AllHyphens(s[..|s| - |u|])
    requires |r| <= |u| && r == u[..|r|] && AllHyphens(u[|r|..])
    ensures var i := |s| - |u|;
      && i + |r| <= |s| && s[i..i + |r|] == r && AllHyphens(s[..i]) && AllHyphens(s[i + |r|..])
  {
    var i := |s| - |u|;
    assert s[i + |r|..] == u[|r|..];
  }

  /** `slugify(str)` of src/string-utils.ts. */
  function Slugify(s: string): string {
    TrimHyphens(CollapseSeparators(Lower(s)))
  }

  /** A contiguous piece of a string keeps its alphabet and its single hyphens. */
  lemma SliceKeepsShape(s: string, a: nat, b: nat)
    requires a <= b <= |s|
    requires SlugAlphabet(s) && NoDoubleHyphen(s)
    ensures SlugAlphabet(s[a..b]) && NoDoubleHyphen(s[a..b])
  {
    var t := s[a..b];
    forall i | 0 <= i < |t| - 1 ensures t[i] != '-' || t[i + 1] != '-' {
      assert t[i] == s[a + i] && t[i + 1] == s[a + i + 1];
    }
  }

  /** Trimming a string of the slug alphabet without double hyphens yields a slug. */
  lemma TrimHyphensShape(s: string)
    requires SlugAlphabet(s) && NoDoubleHyphen(s)
    ensures IsSlug(TrimHyphens(s))
  {
    TrimLeadingShape(s);
    TrimTrailingShape(TrimLeadingHyphens(s));
  }

  lemma TrimLeadingShape(s: string)
    requires SlugAlphabet(s) && NoDoubleHyphen(s)
    ensures var u := TrimLeadingHyphens(s); SlugAlphabet(u) && NoDoubleHyphen(u) && (u == [] || u[0] != '-')
  {
    var u := TrimLeadingHyphens(s);
    SliceKeepsShape(s, |s| - |u|, |s|);
  }

  lemma TrimTrailingShape(u: string)
    requires SlugAlphabet(u) && NoDoubleHyphen(u) && (u == [] || u[0] != '-')
    ensures IsSlug(TrimTrailingHyphens(u))
  {
    var v := TrimTrailingHyphens(u);
    SliceKeepsShape(u, 0, |v|);
    if v != [] {
      assert v[0] == u[0];
    }
  }

  /**
   * Every `slugify` result uses only `a-z`, `0-9` and `-`, neither starts nor ends
   * with a hyphen and never has two hyphens in a row.
   */
  lemma SlugifyShape(s: string)
    ensures IsSlug(Slugify(s))
  {
    CollapseShape(Lower(s));
    TrimHyphensShape(CollapseSeparators(Lower(s)));
  }

  /** Lower-casing leaves a string without upper-case letters unchanged. */
  lemma LowerOfLowered(s: string)
    requires forall i :: 0 <= i < |s| ==> !IsUpper(s[i])
    ensures Lower(s) == s
  {
  }

  /** Collapsing leaves a string of the slug alphabet without double hyphens unchanged. */
  lemma {:induction false} CollapseOfCollapsed(s: string)
    requires SlugAlphabet(s) && NoDoubleHyphen(s)
    ensures CollapseSeparators(s) == s
    decreases |s|
  {
    if s != [] {
      var rest := s[1..];
      SliceKeepsShape(s, 1, |s|);
      CollapseOfCollapsed(rest);
      if IsSlugChar(s[0]) {
        calc {
          CollapseSeparators(s);
          [s[0]] + CollapseSeparators(rest);
          [s[0]] + rest;
          s;
        }
      } else {
        assert rest == [] || IsSlugChar(rest[0]) by {
          if rest != [] {
            assert s[0] == '-' && s[1] == rest[0];
          }
        }
        calc {
          CollapseSeparators(s);
          "-" + CollapseSeparators(SkipSeparators(rest));
          { assert SkipSeparators(rest) == rest; }
          "-" + rest;
          s;
        }
      }
    }
  }

  /** A slug is a fixed point of `slugify`. */
  lemma SlugifyOfSlug(s: string)
    requires IsSlug(s)
    ensures Slugify(s) == s
  {
    LowerOfLowered(s);
    CollapseOfCollapsed(s);
  }

  /** Applying `slugify` to its own output changes nothing. */
  lemma SlugifyIdempotent(s: string)
    ensures Slugify(Slugify(s)) == Slugify(s)
  {
    SlugifyShape(s);
    SlugifyOfSlug(Slugify(s));
  }

  /** A slug character in front passes through the collapse unchanged. */
  lemma CollapseCons(c: char, s: string)
    requires IsSlugChar(c)
    ensures CollapseSeparators([c] + s) == [c] + CollapseSeparators(s)
  {
    assert ([c] + s)[0] == c && ([c] + s)[1..] == s;
  }

  /** A word of slug characters passes through the collapse unchanged. */
  lemma {:induction false} CollapseWord(w: string, t: string)
    requires AllSlugChars(w)
    ensures CollapseSeparators(w + t) == w + CollapseSeparators(t)
    decreases |w|
  {
    if w == [] {
      assert w + t == t;
    } else {
      var c, rest := w[0], w[1..];
      assert w == [c] + rest;
      assert AllSlugChars(rest);
      CollapseWord(rest, t);
      ConcatAssoc([c], rest, t);
      CollapseCons(c, rest + t);
      ConcatAssoc([c], rest, CollapseSeparators(t));
    }
  }

  /** A run of separators in front of a word (or of the end) becomes one hyphen. */
  lemma {:induction false} CollapseSeparatorRun(sep: string, t: string)
    requires sep != []
    requires forall i :: 0 <= i < |sep| ==> !IsSlugChar(sep[i])
    requires t == [] || IsSlugChar(t[0])
    ensures CollapseSeparators(sep + t) == "-" + CollapseSeparators(t)
    decreases |sep|
  {
    SkipRun(sep[1..], t);
    assert (sep + t)[1..] == sep[1..] + t;
  }

  lemma {:induction false} SkipRun(sep: string, t: string)
    requires forall i :: 0 <= i < |sep| ==> !IsSlugChar(sep[i])
    requires t == [] || IsSlugChar(t[0])
    ensures SkipSeparators(sep + t) == t
    decreases |sep|
  {
    if sep == [] {
      assert sep + t == t;
    } else {
      assert (sep + t)[1..] == sep[1..] + t;
      SkipRun(sep[1..], t);
    }
  }

  predicate AllSeparators(s: string) {
    forall i :: 0 <= i < |s| ==> !IsSlugChar(s[i])
  }

  /** A word followed by a run of separators: the word, then one hyphen. */
  lemma CollapseWordThenRun(w: string, sep: string, rest: string)
    requires AllSlugChars(w) && sep != [] && AllSeparators(sep)
    requires rest == [] || IsSlugChar(rest[0])
    ensures CollapseSeparators(w + (sep + rest)) == w + "-" + CollapseSeparators(rest)
  {
    CollapseSeparatorRun(sep, rest);
    CollapseWord(w, sep + rest);
  }

  /** The last word, followed by nothing or by a run of separators. */
  lemma CollapseLastWord(w: string, tail: string)
    requires AllSlugChars(w) && AllSeparators(tail)
    ensures CollapseSeparators(w + tail) == if tail == [] then w else w + "-"
  {
    if tail == [] {
      CollapseWord(w, []);
      assert w + [] == w;
    } else {
      CollapseSeparatorRun(tail, []);
      assert tail + [] == tail;
      CollapseWord(w, tail);
    }
  }

  lemma ConcatAssoc(a: string, b: string, c: string)
    ensures a + (b + c) == a + b + c
  {
  }

  /** Two words, each followed by a run of separators: the words, each followed by one hyphen. */
  lemma CollapseTwoWordsThenRun(a: string, sep1: string, b: string, sep2: string, rest: string)
    requires AllSlugChars(a) && sep1 != [] && AllSeparators(sep1)
    requires b != [] && AllSlugChars(b) && sep2 != [] && AllSeparators(sep2)
    requires rest == [] || IsSlugChar(rest[0])
    ensures CollapseSeparators(a + (sep1 + (b + (sep2 + rest)))) == a + "-" + (b + "-" + CollapseSeparators(rest))
  {
    var tail := b + (sep2 + rest);
    CollapseWordThenRun(b, sep2, rest);
    assert tail[0] == b[0];
    CollapseWordThenRun(a, sep1, tail);
  }

  /** Trimming a text that starts with a letter and ends with one hyphen at most. */
  lemma TrimAfterWords(c: string, tail: string)
    requires c != [] && c[0] != '-' && c[|c| - 1] != '-'
    ensures TrimHyphens(c + (if tail == [] then "" else "-")) == c
  {
    if tail != [] {
      assert (c + "-")[..|c|] == c;
    } else {
      assert c + "" == c;
    }
  }

  /** A text whose lower-cased form is one word of slug characters (and possibly a separator run) slugifies to the word. */
  lemma SlugifyOneWord(s: string, a: string, tail: string)
    requires Lower(s) == a + tail
    requires a != [] && AllSlugChars(a) && AllSeparators(tail)
    ensures Slugify(s) == a
  {
    CollapseLastWord(a, tail);
    TrimAfterWords(a, tail);
  }

  /**
   * A text whose lower-cased form is two words of slug characters separated by a
   * run of separators (and possibly followed by one) slugifies to the words
   * joined by a hyphen.
   */
  lemma SlugifyTwoWords(s: string, a: string, sep: string, b: string, tail: string)
    requires Lower(s) == a + (sep + (b + tail))
    requires a != [] && AllSlugChars(a) && b != [] && AllSlugChars(b)
    requires sep != [] && AllSeparators(sep) && AllSeparators(tail)
    ensures Slugify(s) == a + "-" + b
  {
    CollapseWordThenRun(a, sep, b + tail);
    CollapseLastWord(b, tail);
    var c := a + "-" + b;
    assert c[0] == a[0] && c[|c| - 1] == b[|b| - 1];
    assert CollapseSeparators(Lower(s)) == c + (if tail == [] then "" else "-");
    TrimAfterWords(c, tail);
  }

  /** Three words with separator runs between them (and possibly after them) collapse to the words joined by hyphens, then at most one hyphen. */
  lemma CollapseThreeWords(a: string, sep1: string, b: string, sep2: string, c: string, tail: string)
    requires AllSlugChars(a) && b != [] && AllSlugChars(b) && c != [] && AllSlugChars(c)
    requires sep1 != [] && AllSeparators(sep1) && sep2 != [] && AllSeparators(sep2) && AllSeparators(tail)
    ensures CollapseSeparators(a + (sep1 + (b + (sep2 + (c + tail))))) ==
      a + "-" + b + "-" + c + (if tail == [] then "" else "-")
  {
    var x: string := if tail == [] then "" else "-";
    var r := CollapseSeparators(c + tail);
    assert r == c + x by {
      CollapseLastWord(c, tail);
    }
    assert CollapseSeparators(a + (sep1 + (b + (sep2 + (c + tail))))) == a + "-" + (b + "-" + r) by {
      assert (c + tail)[0] == c[0];
      CollapseTwoWordsThenRun(a, sep1, b, sep2, c + tail);
    }
    var p := a + "-";
    ConcatAssoc(p, b + "-", c + x);
    ConcatAssoc(p, b, "-");
    ConcatAssoc(p + b + "-", c, x);
  }

  /** Three words with separator runs between them (and possibly after them) trim to the words joined by hyphens. */
  lemma TrimThreeWords(a: string, sep1: string, b: string, sep2: string, c: string, tail: string)
    requires a != [] && AllSlugChars(a) && b != [] && AllSlugChars(b) && c != [] && AllSlugChars(c)
    requires sep1 != [] && AllSeparators(sep1) && sep2 != [] && AllSeparators(sep2) && AllSeparators(tail)
    ensures TrimHyphens(CollapseSeparators(a + (sep1 + (b + (sep2 + (c + tail)))))) == a + "-" + b + "-" + c
  {
    CollapseThreeWords(a, sep1, b, sep2, c, tail);
    var d := a + "-" + b + "-" + c;
    assert d[0] == a[0] && d[|d| - 1] == c[|c| - 1];
    TrimAfterWords(d, tail);
  }

  /** The same for three words. */
  lemma SlugifyThreeWords(s: string, a: string, sep1: string, b: string, sep2: string, c: string, tail: string)
    requires Lower(s) == a + (sep1 + (b + (sep2 + (c + tail))))
    requires a != [] && AllSlugChars(a) && b != [] && AllSlugChars(b) && c != [] && AllSlugChars(c)
    requires sep1 != [] && AllSeparators(sep1) && sep2 != [] && AllSeparators(sep2) && AllSeparators(tail)
    ensures Slugify(s) == a + "-" + b + "-" + c
  {
    TrimThreeWords(a, sep1, b, sep2, c, tail);
  }

  /** The first expectation of the `slugify` unit tests. */
  lemma SlugifyHelloWorld()
    ensures Slugify("Hello World") == "hello-world"
  {
    LowerHelloWorld();
    SlugifyTwoWords("Hello World", "hello", " ", "world", []);
  }

  lemma LowerHelloWorld()
    ensures Lower("Hello World") == "hello" + (" " + "world")
    ensures "world" + [] == "world"
    ensures AllSeparators(" ") && AllSeparators([])
    ensures "hello" + "-" + "world" == "hello-world"
  {
  }

  /** The second expectation of the `slugify` unit tests: punctuation runs collapse. */
  lemma SlugifyPunctuation()
    ensures Slugify("Hello! @World#") == "hello-world"
  {
    LowerHelloPunctuation();
    SlugifyTwoWords("Hello! @World#", "hello", "! @", "world", "#");
  }

  lemma LowerHelloPunctuation()
    ensures Lower("Hello! @World#") == "hello" + ("! @" + ("world" + "#"))
    ensures AllSeparators("! @") && AllSeparators("#")
    ensures "hello" + "-" + "world" == "hello-world"
  {
  }

  // ---------------------------------------------------------------------------
  // truncate
  // ---------------------------------------------------------------------------

  function Max(a: int, b: int): int { if a < b then b else a }

  function Min(a: int, b: int): int { if a < b then a else b }

  /**
   * `s.slice(0, end)`: a negative `end` counts from the back of the string, and
   * the result is clamped to the string's bounds.
   */
  function SliceTo(s: string, end: int): (r: string)
    // Always a prefix of `s`.
    ensures |r| <= |s| && r == s[..|r|]
    // A non-negative end keeps that many characters, or all of them.
    ensures end >= 0 ==> |r| == Min(end, |s|)
    // A negative end drops that many characters from the back, or all of them.
    ensures end < 0 ==> |s| - |r| == Min(-end, |s|)
  {
    if end < 0 then s[..Max(0, |s| + end)] else if end > |s| then s else s[..end]
  }

  /**
   * `truncate(str, maxLength, suffix = '...')`: the empty string and every string
   * of at most `maxLength - |suffix|` characters come back unchanged; any other is
   * cut to its first `maxLength - |suffix|` characters and the suffix appended.
   */
  function Truncate(s: string, maxLength: int, suffix: string := "..."): (r: string)
    ensures s == [] || |s| <= maxLength - |suffix| ==> r == s
    ensures s != [] && |s| > maxLength - |suffix| && maxLength >= |suffix| ==>
      |r| == maxLength && EndsWith(r, suffix) && r[..maxLength - |suffix|] == s[..maxLength - |suffix|]
    ensures s != [] && |s| > maxLength - |suffix| && maxLength < |suffix| ==>
      r == s[..Max(0, |s| + maxLength - |suffix|)] + suffix
  {
    if s == [] then s
    else if |s| <= maxLength - |suffix| then s
    else SliceTo(s, maxLength - |suffix|) + suffix
  }

  /**
   * When the suffix fits in `maxLength`, the result equals the input exactly when
   * the input is empty, short enough, or already `maxLength` long and ending with
   * the suffix (the cut then rebuilds the same string).
   */
  lemma TruncateUnchangedIff(s: string, maxLength: int, suffix: string)
    requires maxLength >= |suffix|
    ensures Truncate(s, maxLength, suffix) == s <==>
      s == [] || |s| <= maxLength - |suffix| || (|s| == maxLength && EndsWith(s, suffix))
  {
    var r := Truncate(s, maxLength, suffix);
    if s != [] && |s| > maxLength - |suffix| {
      var e := maxLength - |suffix|;
      if |s| == maxLength && EndsWith(s, suffix) {
        assert s == s[..e] + s[e..];
      }
      if r == s {
        assert s[e..] == r[e..];
      }
    }
  }

  /**
   * A non-empty string whose length lies in (maxLength - |suffix|, maxLength] is
   * cut although it would fit in `maxLength`.
   */
  lemma TruncateCutsFittingString(s: string, maxLength: int, suffix: string)
    requires maxLength >= |suffix|
    requires s != [] && maxLength - |suffix| < |s| <= maxLength
    ensures Truncate(s, maxLength, suffix) == s[..maxLength - |suffix|] + suffix
  {
  }

  /** The expectations of the `truncate` unit tests, and a string that fits but is cut. */
  lemma TruncateExamples()
    ensures Truncate("Hello World", 8) == "Hello..."
    ensures Truncate("Hi", 10) == "Hi"
    ensures Truncate("Hello", 5) == "He..."
  {
    assert "Hello World"[..5] == "Hello";
    assert "Hello"[..2] == "He";
  }
}
