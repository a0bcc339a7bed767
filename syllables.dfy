/**
 * The reference reading of the syllable heuristic of `Content.count_syllable`:
 * a syllable is a maximal run of the vowels `aeiouy` in the lower-cased word,
 * a final `e` is taken to be silent, and every word has at least one syllable.
 */
module Syllables {
  import opened Strings

  predicate IsVowel(c: char) {
    c in "aeiouy"
  }

  /** Length of the leading run of vowels. */
  function VowelSpan(s: string): (n: nat)
    ensures n <= |s|
    ensures forall i :: 0 <= i < n ==> IsVowel(s[i])
    ensures n == |s| || !IsVowel(s[n])
  {
    if s == [] || !IsVowel(s[0]) then 0 else 1 + VowelSpan(s[1..])
  }

  /** Number of maximal runs of vowels in `s`: each run is counted once and
      skipped as a whole. */
  function VowelRuns(s: string): (r: nat)
    ensures r <= |s|
    decreases |s|
  {
    if s == [] then 0
    else if IsVowel(s[0]) then 1 + VowelRuns(s[VowelSpan(s)..])
    else VowelRuns(s[1..])
  }

  predicate EndsWithE(w: string) {
    w != [] && w[|w| - 1] == 'e'
  }

  /** The heuristic syllable count of a non-empty word. */
  function SyllableCount(word: string): (n: int)
    requires word != []
    ensures 1 <= n <= |word|
  {
    var w := Lower(word);
    var runs := VowelRuns(w) - (if EndsWithE(w) then 1 else 0);
    EndsWithVowel(w);
    if runs == 0 then 1 else runs
  }

  // ---------------------------------------------------------------- lemmas

  lemma {:induction false} VowelSpanAppend(s: string, t: string)
    ensures VowelSpan(s + t) == if VowelSpan(s) < |s| then VowelSpan(s) else |s| + VowelSpan(t)
  {
    if s == [] {
      assert s + t == t;
    } else if IsVowel(s[0]) {
      assert (s + t)[1..] == s[1..] + t;
      VowelSpanAppend(s[1..], t);
    }
  }

  /** Appending one character adds a run exactly when it is a vowel that
      does not continue a run already open at the end of `s`: the condition
      a left-to-right scan checks at each position. */
  lemma {:induction false} VowelRunsSnoc(s: string, c: char)
    ensures VowelRuns(s + [c]) ==
            VowelRuns(s) + if IsVowel(c) && (s == [] || !IsVowel(s[|s| - 1])) then 1 else 0
    decreases |s|
  {
    var sc := s + [c];
    if s == [] {
      assert sc == [c];
      assert sc[1..] == [];
    } else if IsVowel(s[0]) {
      var k := VowelSpan(s);
      VowelSpanAppend(s, [c]);
      if k < |s| {
        assert sc[k..] == s[k..] + [c];
        VowelRunsSnoc(s[k..], c);
      } else {
        var m := VowelSpan(sc);
        assert m == |s| || m == |s| + 1;
        assert sc[m..] == [] || sc[m..] == [c];
        assert s[k..] == [];
      }
    } else {
      assert sc[1..] == s[1..] + [c];
      VowelRunsSnoc(s[1..], c);
    }
  }

  /** A word ending in a vowel has at least one run, so the silent-`e`
      adjustment never goes below zero. */
  lemma {:induction false} EndsWithVowel(s: string)
    ensures s != [] && IsVowel(s[|s| - 1]) ==> VowelRuns(s) >= 1
    decreases |s|
  {
    if s != [] && IsVowel(s[|s| - 1]) {
      var p := s[..|s| - 1];
      assert s == p + [s[|s| - 1]];
      VowelRunsSnoc(p, s[|s| - 1]);
      EndsWithVowel(p);
    }
  }

  /** Runs are separated by at least one consonant, so a word of length `n`
      holds at most `(n + 1) / 2` of them. */
  lemma {:induction false} VowelRunsBound(s: string)
    ensures VowelRuns(s) <= (|s| + 1) / 2
    decreases |s|
  {
    if s != [] {
      if IsVowel(s[0]) {
        var rest := s[VowelSpan(s)..];
        if rest != [] {
          VowelRunsBound(rest[1..]);
        }
      } else {
        VowelRunsBound(s[1..]);
      }
    }
  }

  /** Position `i` opens a run: a vowel that is first or follows a non-vowel. */
  predicate IsRunStart(s: string, i: nat)
    requires i < |s|
  {
    IsVowel(s[i]) && (i == 0 || !IsVowel(s[i - 1]))
  }

  /** The number of positions below `n` that open a run. */
  function RunStarts(s: string, n: nat): nat
    requires n <= |s|
  {
    if n == 0 then 0 else RunStarts(s, n - 1) + (if IsRunStart(s, n - 1) then 1 else 0)
  }

  /** Counting whole runs and counting the positions that open a run agree,
      on every prefix. */
  lemma {:induction false} VowelRunsCountsRunStarts(s: string, n: nat)
    requires n <= |s|
    ensures VowelRuns(s[..n]) == RunStarts(s, n)
  {
    if n == 0 {
      assert s[..0] == [];
    } else {
      VowelRunsCountsRunStarts(s, n - 1);
      assert s[..n] == s[..n - 1] + [s[n - 1]];
      VowelRunsSnoc(s[..n - 1], s[n - 1]);
    }
  }

  /** "the" has one syllable: its only run is its final, silent `e`. */
  lemma SyllableCountThe()
    ensures SyllableCount("the") == 1
    ensures SyllableCount("The") == 1
  {
  }

  /** A word without vowels still has one syllable. */
  lemma SyllableCountNoVowel()
    ensures SyllableCount("bcd") == 1
  {
  }

  /** "bake": two runs, less the silent `e`. */
  lemma SyllableCountBake()
    ensures SyllableCount("bake") == 1
  {
  }
}
