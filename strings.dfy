/**
 * The built-in Python `str` operations the text pipeline relies on, restricted
 * to ASCII: `str.lower()`, `str.split()` with no separator, `str.strip()` with
 * no argument, `str.replace(old, new)` and `str.count(sub)`.
 */
module Strings {

  /** The ASCII characters Python's `str.isspace()` accepts: the ones that
      `str.split()` and `str.strip()` treat as separators. */
  predicate IsSpace(c: char) {
    c == ' ' || (9 <= c as int <= 13) || (28 <= c as int <= 31)
  }

  predicate IsUpper(c: char) {
    'A' <= c <= 'Z'
  }

  /** A non-empty piece of text without whitespace: what `str.split()` returns. */
  predicate IsWord(w: string) {
    w != [] && forall i :: 0 <= i < |w| ==> !IsSpace(w[i])
  }

  // ---------------------------------------------------------------- lower

  function LowerChar(c: char): (d: char)
    ensures !IsUpper(d)
    ensures IsUpper(c) ==> d as int == c as int + 32
    ensures !IsUpper(c) ==> d == c
    ensures IsSpace(d) <==> IsSpace(c)
  {
    if IsUpper(c) then (c as int + 32) as char else c
  }

  /** `str.lower()` on ASCII text. */
  function Lower(s: string): (r: string)
    ensures |r| == |s|
    ensures forall i :: 0 <= i < |s| ==> r[i] == LowerChar(s[i])
  {
    if s == [] then [] else [LowerChar(s[0])] + Lower(s[1..])
  }

  // ---------------------------------------------------------------- split

  /** Length of the leading run of non-whitespace characters. */
  function WordSpan(s: string): (n: nat)
    ensures n <= |s|
    ensures forall i :: 0 <= i < n ==> !IsSpace(s[i])
    ensures n == |s| || IsSpace(s[n])
  {
    if s == [] || IsSpace(s[0]) then 0 else 1 + WordSpan(s[1..])
  }

  /** `str.split()`: the maximal runs of non-whitespace characters, in order. */
  function Split(s: string): (words: seq<string>)
    ensures forall k :: 0 <= k < |words| ==> IsWord(words[k])
    decreases |s|
  {
    if s == [] then []
    else if IsSpace(s[0]) then Split(s[1..])
    else
      var n := WordSpan(s);
      [s[..n]] + Split(s[n..])
  }

  lemma {:induction false} WordSpanOfWord(w: string, t: string)
    requires forall i :: 0 <= i < |w| ==> !IsSpace(w[i])
    requires t == [] || IsSpace(t[0])
    ensures WordSpan(w + t) == |w|
  {
    if w != [] {
      assert (w + t)[1..] == w[1..] + t;
      WordSpanOfWord(w[1..], t);
    }
  }

  /** A word followed by nothing or by whitespace is split off as one piece. */
  lemma SplitWordThen(w: string, t: string)
    requires IsWord(w)
    requires t == [] || IsSpace(t[0])
    ensures Split(w + t) == [w] + Split(t)
  {
    WordSpanOfWord(w, t);
    assert (w + t)[..|w|] == w;
    assert (w + t)[|w|..] == t;
  }

  /** A whitespace character separates: the words of `a + [c] + b` are the
      words of `a` followed by the words of `b`. With `Split([]) == []` and
      `SplitWordThen`, this fixes `Split` on every text. */
  lemma {:induction false} SplitAtSpace(a: string, c: char, b: string)
    requires IsSpace(c)
    ensures Split(a + [c] + b) == Split(a) + Split(b)
    decreases |a|
  {
    if a == [] {
      SplitSpaceThen(c, b);
      assert [] + [c] + b == [c] + b;
    } else if IsSpace(a[0]) {
      SplitAtSpace(a[1..], c, b);
      SplitAtSpaceSkip(a, c, b);
    } else {
      var n := WordSpan(a);
      SplitAtSpace(a[n..], c, b);
      SplitAtSpaceWord(a, n, c, b);
    }
  }

  /** Leading whitespace is skipped. */
  lemma SplitSpaceThen(c: char, t: string)
    requires IsSpace(c)
    ensures Split([c] + t) == Split(t)
  {
    assert ([c] + t)[1..] == t;
  }

  /** The case of `SplitAtSpace` where `a` starts with whitespace. */
  lemma SplitAtSpaceSkip(a: string, c: char, b: string)
    requires a != [] && IsSpace(a[0])
    requires Split(a[1..] + [c] + b) == Split(a[1..]) + Split(b)
    ensures Split(a + [c] + b) == Split(a) + Split(b)
  {
    SplitSpaceThen(a[0], a[1..] + [c] + b);
    SplitSpaceThen(a[0], a[1..]);
    assert a + [c] + b == [a[0]] + (a[1..] + [c] + b);
    assert a == [a[0]] + a[1..];
  }

  /** The case of `SplitAtSpace` where `a` starts with a word of length `n`. */
  lemma SplitAtSpaceWord(a: string, n: nat, c: char, b: string)
    requires IsSpace(c) && a != [] && !IsSpace(a[0]) && n == WordSpan(a)
    requires Split(a[n..] + [c] + b) == Split(a[n..]) + Split(b)
    ensures Split(a + [c] + b) == Split(a) + Split(b)
  {
    var w, rest := a[..n], a[n..];
    SplitWordThenSpace(w, rest, c, b);
    assert a == w + rest;
    assert a + [c] + b == w + (rest + [c] + b);
  }

  /** The word case of `SplitAtSpace`, given its claim for the text after the word. */
  lemma SplitWordThenSpace(w: string, rest: string, c: char, b: string)
    requires IsWord(w) && IsSpace(c)
    requires rest == [] || IsSpace(rest[0])
    requires Split(rest + [c] + b) == Split(rest) + Split(b)
    ensures Split(w + (rest + [c] + b)) == Split(w + rest) + Split(b)
  {
    var t := rest + [c] + b;
    assert t[0] == if rest == [] then c else rest[0];
    SplitWordThen(w, t);
    SplitWordThen(w, rest);
  }

  /** Text made only of whitespace splits into nothing, and conversely. */
  lemma {:induction false} SplitEmpty(s: string)
    ensures Split(s) == [] <==> forall i :: 0 <= i < |s| ==> IsSpace(s[i])
  {
    if s != [] {
      if IsSpace(s[0]) {
        SplitEmpty(s[1..]);
        assert forall i :: 1 <= i < |s| ==> s[i] == s[1..][i - 1];
      }
    }
  }

  // ---------------------------------------------------------------- strip

  /** Length of the leading run of whitespace. */
  function LeadingSpace(s: string): (n: nat)
    ensures n <= |s|
    ensures forall k :: 0 <= k < n ==> IsSpace(s[k])
    ensures n == |s| || !IsSpace(s[n])
  {
    if s != [] && IsSpace(s[0]) then 1 + LeadingSpace(s[1..]) else 0
  }

  /** Length of the trailing run of whitespace. */
  function TrailingSpace(s: string): (n: nat)
    ensures n <= |s|
    ensures forall k :: |s| - n <= k < |s| ==> IsSpace(s[k])
    ensures n == |s| || !IsSpace(s[|s| - 1 - n])
  {
    if s != [] && IsSpace(s[|s| - 1]) then 1 + TrailingSpace(s[..|s| - 1]) else 0
  }

  /** `str.lstrip()`: what is left after the leading whitespace. */
  function TrimStart(s: string): (r: string)
    ensures |r| <= |s| && r == s[|s| - |r|..]
    ensures forall i :: 0 <= i < |s| - |r| ==> IsSpace(s[i])
    ensures r == [] || !IsSpace(r[0])
  {
    s[LeadingSpace(s)..]
  }

  /** `str.rstrip()`: what is left before the trailing whitespace. */
  function TrimEnd(s: string): (r: string)
    ensures |r| <= |s| && r == s[..|r|]
    ensures forall i :: |r| <= i < |s| ==> IsSpace(s[i])
    ensures r == [] || !IsSpace(r[|r| - 1])
  {
    s[..|s| - TrailingSpace(s)]
  }

  /** `str.strip()`: both ends trimmed. What is left is the slice of `s`
      between its leading and its trailing whitespace. */
  function Strip(s: string): (r: string)
    ensures |r| <= |s|
    ensures r == [] || (!IsSpace(r[0]) && !IsSpace(r[|r| - 1]))
    ensures var i := LeadingSpace(s);
            i + |r| <= |s| && r == s[i..i + |r|] &&
            (forall k :: 0 <= k < i ==> IsSpace(s[k])) &&
            (forall k :: i + |r| <= k < |s| ==> IsSpace(s[k]))
  {
    var t := TrimStart(s);
    SliceOfSuffix(s, t, TrimEnd(t));
    TrimEnd(t)
  }

  /** A prefix `r` of a suffix `t` of `s` is a slice of `s`, and whitespace
      after `r` in `t` is whitespace after it in `s`. */
  lemma SliceOfSuffix(s: string, t: string, r: string)
    requires |t| <= |s| && t == s[|s| - |t|..]
    requires |r| <= |t| && r == t[..|r|]
    requires forall k :: |r| <= k < |t| ==> IsSpace(t[k])
    ensures var i := |s| - |t|;
            r == s[i..i + |r|] && (forall k :: i + |r| <= k < |s| ==> IsSpace(s[k]))
  {
    var i := |s| - |t|;
    forall k | i + |r| <= k < |s|
      ensures IsSpace(s[k])
    {
      assert s[k] == t[k - i];
    }
  }

  /** A text with no whitespace at either end is its own strip. */
  lemma StripUnchanged(s: string)
    requires s == [] || (!IsSpace(s[0]) && !IsSpace(s[|s| - 1]))
    ensures Strip(s) == s
  {
    if s != [] {
      assert LeadingSpace(s) == 0;
    }
  }

  /** Lowering a text without capitals changes nothing. */
  lemma LowerUnchanged(s: string)
    requires forall k :: 0 <= k < |s| ==> !IsUpper(s[k])
    ensures Lower(s) == s
  {
  }

  /** Stripping removes only whitespace: a text already trimmed is kept. */
  lemma StripIdempotent(s: string)
    ensures Strip(Strip(s)) == Strip(s)
  {
    var r := Strip(s);
    assert r == [] || !IsSpace(r[0]);
  }

  // ------------------------------------------------------- replace, count

  predicate StartsWith(s: string, prefix: string) {
    |prefix| <= |s| && s[..|prefix|] == prefix
  }

  /** `s.replace(pat, rep)`: every non-overlapping occurrence of the literal
      `pat`, found from left to right, is replaced by `rep`. For an empty
      `pat`, Python puts `rep` before every character and at the end. */
  function Replace(s: string, pat: string, rep: string): (r: string)
    ensures pat != [] && |rep| <= |pat| ==> |r| <= |s|
    decreases |s|
  {
    if pat == [] then
      (if s == [] then rep else rep + [s[0]] + Replace(s[1..], pat, rep))
    else if s == [] then []
    else if StartsWith(s, pat) then rep + Replace(s[|pat|..], pat, rep)
    else [s[0]] + Replace(s[1..], pat, rep)
  }

  /** `s.count(pat)`: the number of non-overlapping occurrences of `pat`,
      found from left to right; `len(s) + 1` for an empty `pat`. */
  function Count(s: string, pat: string): (n: nat)
    ensures pat == [] ==> n == |s| + 1
    ensures pat != [] ==> n <= |s|
    decreases |s|
  {
    if pat == [] then |s| + 1
    else if s == [] then 0
    else if StartsWith(s, pat) then 1 + Count(s[|pat|..], pat)
    else Count(s[1..], pat)
  }

  /** Each replaced occurrence changes the length by `|rep| - |pat|`. */
  lemma ReplaceLength(s: string, pat: string, rep: string)
    ensures |Replace(s, pat, rep)| == |s| + Count(s, pat) * (|rep| - |pat|)
  {
    if pat == [] {
      ReplaceEmptyPatternLength(s, rep);
    } else {
      ReplaceShiftLength(s, pat, rep);
    }
  }

  lemma {:induction false} ReplaceEmptyPatternLength(s: string, rep: string)
    ensures |Replace(s, [], rep)| == |s| + (|s| + 1) * |rep|
  {
    if s != [] {
      ReplaceEmptyPatternLength(s[1..], rep);
      assert |Replace(s, [], rep)| == |rep| + 1 + |Replace(s[1..], [], rep)|;
    }
  }

  lemma {:induction false} ReplaceShiftLength(s: string, pat: string, rep: string)
    requires pat != []
    ensures |Replace(s, pat, rep)| + Count(s, pat) * |pat| == |s| + Count(s, pat) * |rep|
    decreases |s|
  {
    if s == [] {
    } else if StartsWith(s, pat) {
      var t := s[|pat|..];
      ReplaceShiftLength(t, pat, rep);
      var c, lp, lr := Count(t, pat), |pat|, |rep|;
      assert |t| == |s| - lp;
      assert |Replace(s, pat, rep)| == lr + |Replace(t, pat, rep)|;
      assert Count(s, pat) == c + 1;
      MulSucc(c, lp);
      MulSucc(c, lr);
    } else {
      ReplaceShiftLength(s[1..], pat, rep);
      assert |Replace(s, pat, rep)| == 1 + |Replace(s[1..], pat, rep)|;
    }
  }

  /** Arithmetic hint for `ReplaceShiftLength`, kept out of its context so that
      the solver does not search nonlinear terms there; not a property of the model. */
  lemma MulSucc(c: int, x: int)
    ensures (c + 1) * x == c * x + x
  {
  }

  /** A character that does not open the pattern is copied. */
  lemma ReplaceStep(s: string, pat: string, rep: string)
    requires pat != [] && s != [] && s[0] != pat[0]
    ensures Replace(s, pat, rep) == [s[0]] + Replace(s[1..], pat, rep)
  {
    if |pat| <= |s| {
      assert s[..|pat|][0] != pat[0];
    }
  }

  /** An occurrence at the front is replaced and skipped as a whole. */
  lemma ReplaceHit(u: string, pat: string, rep: string)
    requires pat != []
    ensures Replace(pat + u, pat, rep) == rep + Replace(u, pat, rep)
  {
    assert (pat + u)[..|pat|] == pat;
    assert (pat + u)[|pat|..] == u;
  }

  /** Characters that do not open the pattern are copied one by one. */
  lemma {:induction false} ReplaceKeepsPrefix(a: string, t: string, pat: string, rep: string)
    requires pat != []
    requires forall k :: 0 <= k < |a| ==> a[k] != pat[0]
    ensures Replace(a + t, pat, rep) == a + Replace(t, pat, rep)
  {
    if a != [] {
      var at, rest := a + t, a[1..];
      assert at[0] == a[0];
      ReplaceStep(at, pat, rep);
      assert at[1..] == rest + t;
      assert forall k :: 0 <= k < |rest| ==> rest[k] == a[k + 1];
      ReplaceKeepsPrefix(rest, t, pat, rep);
      SeqConsAppend(a, Replace(t, pat, rep));
    } else {
      assert a + t == t;
    }
  }

  lemma SeqConsAppend(a: string, u: string)
    requires a != []
    ensures [a[0]] + (a[1..] + u) == a + u
  {
    assert a == [a[0]] + a[1..];
  }

  /** A text in which the pattern's first character never appears holds no
      occurrence, so replacing leaves it as it was. */
  lemma {:induction false} ReplaceAbsent(s: string, pat: string, rep: string)
    requires pat != []
    requires forall i :: 0 <= i < |s| ==> s[i] != pat[0]
    ensures Count(s, pat) == 0
    ensures Replace(s, pat, rep) == s
  {
    if s != [] {
      assert !StartsWith(s, pat) by {
        if |pat| <= |s| {
          assert s[..|pat|][0] != pat[0];
        }
      }
      ReplaceAbsent(s[1..], pat, rep);
      assert [s[0]] + s[1..] == s;
    }
  }
}
