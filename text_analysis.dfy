/**
 * The text-preprocessing core of textAnalysis.py: `rejoin_text`, the
 * stopword filter, the literal-replacement cleaning step, the syllable
 * counter and the `Content` record whose pipeline stages overwrite the
 * working text and update its count and status dictionaries.
 *
 * The NLTK sentence and word tokenizers are parameters of type
 * `string -> seq<string>` and the English stopword corpus is a parameter
 * of type `set<string>`.
 */
module TextAnalysis {
  import opened Wrappers
  import opened Strings
  import opened Syllables

  // ------------------------------------------------------------ rejoin_text

  /** `" ".join(list_of_text)`: an empty list joins to the empty string, and
      a non-empty one to its words plus one separating space per gap. */
  function RejoinText(words: seq<string>): (text: string)
    ensures words == [] ==> text == ""
    ensures |words| == 1 ==> text == words[0]
    ensures words != [] ==> |text| == TotalLength(words) + |words| - 1
  {
    if words == [] then ""
    else if |words| == 1 then words[0]
    else words[0] + " " + RejoinText(words[1..])
  }

  function TotalLength(words: seq<string>): nat {
    if words == [] then 0 else |words[0]| + TotalLength(words[1..])
  }

  /** Joining two non-empty lists puts exactly one space where they meet;
      with the two base cases this pins down `RejoinText` completely. */
  lemma {:induction false} RejoinAppend(a: seq<string>, b: seq<string>)
    requires a != [] && b != []
    ensures RejoinText(a + b) == RejoinText(a) + " " + RejoinText(b)
    decreases |a|
  {
    if |a| == 1 {
      assert (a + b)[1..] == b;
    } else {
      assert (a + b)[1..] == a[1..] + b;
      RejoinAppend(a[1..], b);
    }
  }

  /** `str.split()` undoes `rejoin_text` on a list of words. */
  lemma {:induction false} SplitRejoin(words: seq<string>)
    requires forall k :: 0 <= k < |words| ==> IsWord(words[k])
    ensures Split(RejoinText(words)) == words
  {
    if words == [] {
    } else if |words| == 1 {
      SplitWordThen(words[0], "");
      assert words[0] + "" == words[0];
    } else {
      SplitRejoin(words[1..]);
      SplitRejoinCons(words);
    }
  }

  /** The step of `SplitRejoin`: a word, a space and the join of the rest. */
  lemma SplitRejoinCons(words: seq<string>)
    requires |words| >= 2 && IsWord(words[0])
    requires Split(RejoinText(words[1..])) == words[1..]
    ensures Split(RejoinText(words)) == words
  {
    var rest := RejoinText(words[1..]);
    assert RejoinText(words) == words[0] + (" " + rest);
    SplitWordThen(words[0], " " + rest);
    assert (" " + rest)[1..] == rest;
    assert [words[0]] + words[1..] == words;
  }

  // ------------------------------------------------------- stopword filter

  /** The list comprehension of `remove_stopwords`: the words whose
      lower-case form is not a stopword, in their original order and case. */
  function FilterStopwords(words: seq<string>, stopWords: set<string>): (kept: seq<string>)
    ensures |kept| <= |words|
    ensures forall w :: w in kept <==> w in words && Lower(w) !in stopWords
  {
    if words == [] then []
    else if Lower(words[0]) in stopWords then FilterStopwords(words[1..], stopWords)
    else [words[0]] + FilterStopwords(words[1..], stopWords)
  }

  /** `a` is obtained from `b` by deleting elements. */
  predicate IsSubsequence(a: seq<string>, b: seq<string>) {
    a == [] ||
    (b != [] && ((a[0] == b[0] && IsSubsequence(a[1..], b[1..])) || IsSubsequence(a, b[1..])))
  }

  /** Filtering keeps the order of the words it keeps. */
  lemma {:induction false} FilterIsSubsequence(words: seq<string>, stopWords: set<string>)
    ensures IsSubsequence(FilterStopwords(words, stopWords), words)
  {
    if words != [] {
      FilterIsSubsequence(words[1..], stopWords);
      var rest := FilterStopwords(words[1..], stopWords);
      if Lower(words[0]) !in stopWords {
        assert ([words[0]] + rest)[1..] == rest;
      }
    }
  }

  /** Filtering a concatenation filters each part in place. */
  lemma {:induction false} FilterAppend(a: seq<string>, b: seq<string>, stopWords: set<string>)
    ensures FilterStopwords(a + b, stopWords) == FilterStopwords(a, stopWords) + FilterStopwords(b, stopWords)
  {
    if a == [] {
      assert a + b == b;
    } else {
      assert (a + b)[0] == a[0];
      assert (a + b)[1..] == a[1..] + b;
      FilterAppend(a[1..], b, stopWords);
    }
  }

  /** Filtering twice keeps what filtering once keeps. */
  lemma {:induction false} FilterIdempotent(words: seq<string>, stopWords: set<string>)
    ensures FilterStopwords(FilterStopwords(words, stopWords), stopWords) == FilterStopwords(words, stopWords)
  {
    if words != [] {
      FilterIdempotent(words[1..], stopWords);
      if Lower(words[0]) !in stopWords {
        var rest := FilterStopwords(words[1..], stopWords);
        assert ([words[0]] + rest)[1..] == rest;
      }
    }
  }

  /** The stopword stage is idempotent: splitting its rejoined output and
      filtering again gives back the same words, hence the same text and
      the same word count. */
  lemma StopwordRemovalIdempotent(text: string, stopWords: set<string>)
    ensures var kept := FilterStopwords(Split(text), stopWords);
            FilterStopwords(Split(RejoinText(kept)), stopWords) == kept
  {
    var words := Split(text);
    var kept := FilterStopwords(words, stopWords);
    assert forall k :: 0 <= k < |kept| ==> IsWord(kept[k]) by {
      forall k | 0 <= k < |kept| ensures IsWord(kept[k]) {
        assert kept[k] in kept;
      }
    }
    SplitRejoin(kept);
    FilterIdempotent(words, stopWords);
  }

  // ---------------------------------------------------------- clean_content

  /** The pattern arguments of `clean_content`'s `str.replace` calls: raw
      strings that `str.replace` matches literally, character for character. */
  const PunctuationPattern: string := "[^\\w\\s]"
  const DigitPattern: string := "\\d+"

  /** The characters of the two fixed patterns. */
  lemma PatternsNonEmpty()
    ensures PunctuationPattern == ['[', '^', '\\', 'w', '\\', 's', ']']
    ensures |PunctuationPattern| == 7 && |DigitPattern| == 3
  {
  }

  /** `custom_regex` is applied when it is truthy: given and non-empty. */
  predicate IsTruthy(custom: Option<string>) {
    custom.Some? && custom.value != ""
  }

  /** The working text after the enabled literal deletions, in the order
      `clean_content` applies them. Deleting never lengthens the text. */
  function Deletions(text: string, punctuations: bool, digits: bool, customRegex: Option<string>): (c: string)
    ensures |c| <= |text|
  {
    PatternsNonEmpty();
    var a := if punctuations then Replace(text, PunctuationPattern, "") else text;
    var b := if digits then Replace(a, DigitPattern, "") else a;
    if IsTruthy(customRegex) then Replace(b, customRegex.value, "") else b
  }

  /** The text `clean_content` hands to the word tokenizer: the working text
      after the enabled literal deletions, stripped and lower-cased. */
  function CleanText(text: string, punctuations: bool, digits: bool, customRegex: Option<string>): (cleaned: string)
    ensures |cleaned| <= |text|
    ensures forall i :: 0 <= i < |cleaned| ==> !IsUpper(cleaned[i])
    ensures cleaned == [] || (!IsSpace(cleaned[0]) && !IsSpace(cleaned[|cleaned| - 1]))
  {
    Lower(Strip(Deletions(text, punctuations, digits, customRegex)))
  }

  /** Because the replacements are literal, punctuation and digits survive
      cleaning: a text that holds no `[` and no `\` is only stripped and
      lower-cased, whatever the two switches say. */
  lemma CleanTextIsLiteral(text: string, punctuations: bool, digits: bool)
    requires forall i :: 0 <= i < |text| ==> text[i] != '[' && text[i] != '\\'
    ensures CleanText(text, punctuations, digits, None) == Lower(Strip(text))
  {
    ReplaceAbsent(text, PunctuationPattern, "");
    ReplaceAbsent(text, DigitPattern, "");
  }

  /** The punctuation pattern with a second copy of itself inserted after
      its first four characters: `[^\w[^\w\s]\s]`. */
  const NestedPattern: string := PunctuationPattern[..4] + PunctuationPattern + PunctuationPattern[4..]

  /** The deletions are one left-to-right pass, so deleting one occurrence
      can join the text around it into a new one, which a second cleaning
      then deletes: cleaning is not idempotent. */
  lemma CleanTextNotIdempotent()
    ensures CleanText(NestedPattern, true, false, None) == PunctuationPattern
    ensures CleanText(PunctuationPattern, true, false, None) == ""
  {
    CleanTextOfNested();
    CleanTextOfPattern();
  }

  lemma CleanTextOfNested()
    ensures CleanText(NestedPattern, true, false, None) == PunctuationPattern
  {
    CleanTextPunctuationOnly(NestedPattern);
    FirstPassJoinsPattern();
    PatternIsClean();
  }

  lemma CleanTextOfPattern()
    ensures CleanText(PunctuationPattern, true, false, None) == ""
  {
    CleanTextPunctuationOnly(PunctuationPattern);
    PatternsNonEmpty();
    ReplaceHit([], PunctuationPattern, "");
    assert PunctuationPattern + [] == PunctuationPattern;
    assert Replace([], PunctuationPattern, "") == [];
    assert Strip([]) == [];
  }

  lemma CleanTextPunctuationOnly(text: string)
    ensures CleanText(text, true, false, None) == Lower(Strip(Replace(text, PunctuationPattern, "")))
  {
  }

  /** One pass over the nested pattern deletes the inner occurrence only. */
  lemma FirstPassJoinsPattern()
    ensures Replace(NestedPattern, PunctuationPattern, "") == PunctuationPattern
  {
    PatternsNonEmpty();
    NestedFirstPass(PunctuationPattern);
  }

  /** For a pattern of seven characters whose first character occurs nowhere
      else in it, inserting a copy after its fourth character gives a text
      that one pass turns back into the pattern. */
  lemma NestedFirstPass(p: string)
    requires |p| == 7
    requires forall k :: 1 <= k < 7 ==> p[k] != p[0]
    ensures Replace(p[..4] + p + p[4..], p, "") == p
  {
    var a, b := p[1..4], p[4..];
    NestedInnerPass(p);
    NestedHeadKept(p);
    assert p[..4] + p + b == [p[0]] + (a + p + b);
    assert [p[0]] + (a + b) == p;
  }

  /** After the first character, one pass deletes the inserted copy. */
  lemma NestedInnerPass(p: string)
    requires |p| == 7
    requires forall k :: 1 <= k < 7 ==> p[k] != p[0]
    ensures Replace(p[1..4] + p + p[4..], p, "") == p[1..4] + p[4..]
  {
    var a, b := p[1..4], p[4..];
    assert forall k :: 0 <= k < |a| ==> a[k] == p[1 + k];
    assert forall k :: 0 <= k < |b| ==> b[k] == p[4 + k];
    ReplaceAbsent(b, p, "");
    ReplaceHit(b, p, "");
    ReplaceKeepsPrefix(a, p + b, p, "");
    assert a + p + b == a + (p + b);
  }

  /** The nested text does not start with the pattern, so its first
      character is kept. */
  lemma NestedHeadKept(p: string)
    requires |p| == 7
    requires forall k :: 1 <= k < 7 ==> p[k] != p[0]
    ensures Replace([p[0]] + (p[1..4] + p + p[4..]), p, "") ==
            [p[0]] + Replace(p[1..4] + p + p[4..], p, "")
  {
    var s1 := p[1..4] + p + p[4..];
    var s0 := [p[0]] + s1;
    assert !StartsWith(s0, p) by {
      assert s0[4] == p[0];
      assert s0[..|p|][4] == s0[4];
    }
    assert s0[1..] == s1;
  }

  /** The pattern text itself has no surrounding whitespace and no capitals. */
  lemma PatternIsClean()
    ensures Lower(Strip(PunctuationPattern)) == PunctuationPattern
  {
    var p := PunctuationPattern;
    StripUnchanged(p);
    LowerUnchanged(p);
  }

  // ---------------------------------------------------------------- Content

  /** The keys of `pre_process_status`. */
  datatype Stage = Tokenized | CleanedContent | POSTagged | Stemmed | StopwordsRemoved | SentimentAnalyzed

  /** The keys of `counts`. */
  datatype Tally = Sentences | Words | Characters

  const Stages: set<Stage> := {Tokenized, CleanedContent, POSTagged, Stemmed, StopwordsRemoved, SentimentAnalyzed}
  const Tallies: set<Tally> := {Sentences, Words, Characters}

  /** One article's text and its processing state. The original text and
      its source are never reassigned, so they are constants. */
  class Content {
    const content: string
    const source: Option<string>
    var preProcessed: Option<string>
    var preProcessStatus: map<Stage, Option<bool>>
    var counts: map<Tally, nat>

    /** Both dictionaries keep exactly the keys they are created with. */
    ghost predicate Valid()
      reads this
    {
      preProcessStatus.Keys == Stages && counts.Keys == Tallies
    }

    constructor (content: string, url: Option<string> := None)
      ensures Valid()
      ensures this.content == content && source == url
      ensures preProcessed == None
      ensures forall st :: st in Stages ==> preProcessStatus[st] == None
      ensures forall t :: t in Tallies ==> counts[t] == 0
    {
      this.content := content;
      source := url;
      preProcessed := None;
      preProcessStatus := map[Tokenized := None, CleanedContent := None, POSTagged := None,
                              Stemmed := None, StopwordsRemoved := None, SentimentAnalyzed := None];
      counts := map[Sentences := 0, Words := 0, Characters := 0];
    }

    /** Splits the original text into sentences with `sentTokenize`, records
        their number and keeps them joined by spaces as the working text. */
    method Tokenize(sentTokenize: string -> seq<string>) returns (sentences: seq<string>)
      requires Valid()
      modifies this
      ensures Valid()
      ensures sentences == sentTokenize(content)
      ensures counts == old(counts)[Sentences := |sentences|]
      ensures preProcessed == Some(RejoinText(sentences))
      ensures preProcessStatus == old(preProcessStatus)[Tokenized := Some(true)]
    {
      sentences := sentTokenize(content);
      counts := counts[Sentences := |sentences|];
      preProcessed := Some(RejoinText(sentences));
      preProcessStatus := preProcessStatus[Tokenized := Some(true)];
    }

    /** Drops the stopwords from the whitespace-split working text, records
        how many words are left and keeps them joined by spaces. The new
        working text is a fixed point: filtering it again keeps every word. */
    method RemoveStopwords(stopWords: set<string>) returns (kept: seq<string>)
      requires Valid()
      requires preProcessed.Some?
      modifies this
      ensures Valid()
      ensures kept == FilterStopwords(Split(old(preProcessed).value), stopWords)
      ensures counts == old(counts)[Words := |kept|]
      ensures counts[Words] <= |Split(old(preProcessed).value)|
      ensures preProcessed == Some(RejoinText(kept))
      ensures preProcessStatus == old(preProcessStatus)[StopwordsRemoved := Some(true)]
      ensures FilterStopwords(Split(preProcessed.value), stopWords) == kept
    {
      var allWords := Split(preProcessed.value);
      kept := FilterStopwords(allWords, stopWords);
      counts := counts[Words := |kept|];
      preProcessed := Some(RejoinText(kept));
      preProcessStatus := preProcessStatus[StopwordsRemoved := Some(true)];
      StopwordRemovalIdempotent(old(preProcessed).value, stopWords);
    }

    /** Applies the enabled literal replacements to the working text, strips
        and lower-cases it, splits it into words with `wordTokenize` and keeps
        them joined by spaces. The counts are not touched. */
    method CleanContent(wordTokenize: string -> seq<string>, punctuations: bool := true,
                        digits: bool := true, customRegex: Option<string> := None)
      requires Valid()
      requires preProcessed.Some?
      modifies this
      ensures Valid()
      ensures preProcessed ==
              Some(RejoinText(wordTokenize(CleanText(old(preProcessed).value, punctuations, digits, customRegex))))
      ensures preProcessStatus == old(preProcessStatus)[CleanedContent := Some(true)]
      ensures counts == old(counts)
    {
      var text := preProcessed.value;
      ghost var t0 := text;
      if punctuations {
        text := Replace(text, PunctuationPattern, "");
      }
      if digits {
        text := Replace(text, DigitPattern, "");
      }
      if IsTruthy(customRegex) {
        text := Replace(text, customRegex.value, "");
      }
      assert text == Deletions(t0, punctuations, digits, customRegex);
      text := Strip(text);
      assert Lower(text) == CleanText(t0, punctuations, digits, customRegex);
      var tokenizedWords := wordTokenize(Lower(text));
      preProcessed := Some(RejoinText(tokenizedWords));
      preProcessStatus := preProcessStatus[CleanedContent := Some(true)];
    }

    /** The syllable heuristic, scanning the lower-cased word once: a vowel
        opens a new run when it is the first character or follows a
        non-vowel. A word that is empty has no first character to look at,
        so the word must be non-empty. */
    static method CountSyllable(word: string) returns (count: int)
      requires word != []
      ensures count == SyllableCount(word)
      ensures 1 <= count <= |word|
    {
      var w := Lower(word);
      count := 0;
      if IsVowel(w[0]) {
        count := count + 1;
      }
      for index := 1 to |w|
        invariant count == RunStarts(w, index)
      {
        if IsVowel(w[index]) && !IsVowel(w[index - 1]) {
          count := count + 1;
        }
      }
      VowelRunsCountsRunStarts(w, |w|);
      assert w[..|w|] == w;
      EndsWithVowel(w);
      if EndsWithE(w) {
        count := count - 1;
      }
      if count == 0 {
        count := count + 1;
      }
    }
  }

  /** Two `clean_content` calls in a row, with `str.split` as the word
      tokenizer: the first leaves `[^\w\s]` as the working text and the
      second deletes it, so the method is not idempotent either. With a
      tokenizer that puts spaces around brackets the second call would find
      no pattern, so in general this depends on the tokenizer. */
  method CleanContentNotIdempotent() returns (first: Option<string>, second: Option<string>)
    ensures first == Some(PunctuationPattern)
    ensures second == Some("")
  {
    var c := new Content("");
    c.preProcessed := Some(NestedPattern);
    var tokenize := (s: string) => Split(s);
    CleanedWordsOfNested();
    CleanedWordsOfPattern();
    c.CleanContent(tokenize, true, false, None);
    first := c.preProcessed;
    c.CleanContent(tokenize, true, false, None);
    second := c.preProcessed;
  }

  /** `CleanTextNotIdempotent` followed by `str.split` and the space-join. */
  lemma CleanedWordsOfNested()
    ensures RejoinText(Split(CleanText(NestedPattern, true, false, None))) == PunctuationPattern
  {
    CleanTextOfNested();
    PatternsNonEmpty();
    SplitWordThen(PunctuationPattern, []);
    assert PunctuationPattern + [] == PunctuationPattern;
  }

  lemma CleanedWordsOfPattern()
    ensures RejoinText(Split(CleanText(PunctuationPattern, true, false, None))) == ""
  {
    CleanTextOfPattern();
  }
}
