# TextAnalysis core in Dafny

This project models the deterministic core of `textAnalysis.py`, a small news-article
preprocessing class. It covers:

- `rejoin_text`, which joins a list of strings with single spaces;
- the `Content` record: its constructor and the three pipeline stages `tokenize`,
  `remove_stopwords` and `clean_content`, each of which overwrites the working text
  `pre_processed` and updates the `counts` and `pre_process_status` dictionaries;
- the heuristic syllable counter `Content.count_syllable`.

The NLTK pieces the code calls are parameters. The sentence tokenizer (`nltk.sent_tokenize`)
and the word tokenizer (`nltk.word_tokenize`) are functions `string -> seq<string>`. The English
stopword corpus is a `set<string>`. The Python `str` operations the code relies on are modelled
on ASCII text in module `Strings`. These are `lower`, `split()`, `strip()` and `replace`.
Whitespace is Python's ASCII whitespace: space, tab, line feed, vertical tab, form feed,
carriage return and the separators `\x1c`–`\x1f`.

Layout:

- `wrappers.dfy`: `Option`, for Python's `None`-or-value fields.
- `strings.dfy`: module `Strings`, the `str` operations and their properties.
- `syllables.dfy`: module `Syllables`, the reference meaning of the syllable heuristic
  (maximal vowel runs, silent final `e`, floor of one).
- `text_analysis.dfy`: module `TextAnalysis`, with `RejoinText`, the stopword filter, the
  cleaning text transformation and the class `Content`.

`Content` is a class. `content` and `source` are assigned only in `__init__`, so they are
`const` fields and no stage can change them. `pre_processed` is an `Option<string>`.
The two dictionaries are `map` fields with datatype keys: `Stage` for `pre_process_status`
and `Tally` for `counts`. `Valid()` says that both dictionaries keep their original keys.
Each stage method states the whole new state as a map update of the old one, so the
entries it does not name keep their values. `count_syllable` is declared in the source
without `self`, so it works only when called through the class. It is the static
method `Content.CountSyllable`, a loop proved against `Syllables.SyllableCount`.

`clean_content` does not do what its docstring says (textAnalysis.py:181-183). The docstring
says it eliminates punctuation and digits, and the commented-out lines at
textAnalysis.py:185-186 show the intended `re.sub` calls. The code calls `str.replace` instead,
with the raw strings `[^\w\s]` and `\d+` as arguments. `str.replace` matches these literally,
not as regular expressions, so punctuation and digits stay in the text. The model follows the code:

- `CleanTextIsLiteral` proves that a text with no `[` and no `\` is only stripped and lowercased.
- `CleanTextNotIdempotent` proves that the deletion, strip and lowercase step is not
  idempotent. The deletion is one left-to-right pass, so deleting an occurrence can join its
  neighbours into a new one: `[^\w[^\w\s]\s]` cleans to `[^\w\s]`, and that cleans to the
  empty string. Whether a second `clean_content` call repeats this depends on the word
  tokenizer, because the call works on the space-joined tokens. `CleanContentNotIdempotent`
  gives two calls where it does, with `str.split` as the tokenizer. A tokenizer that puts
  spaces around brackets would leave no pattern for the second call.

Two further facts about the code:

- `remove_stopwords` lowercases each word only to test it against the set. It keeps the
  word in its original case.
- After the three modelled stages the working text is a single string, not a list.

## Model

| member | source | states |
|---|---|---|
| `Strings.Lower` | textAnalysis.py:164 | `str.lower()` on ASCII: the same length, and each character lowered on its own (upper-case letters shifted by 32, everything else kept) |
| `Strings.Split` | textAnalysis.py:109 | `str.split()`: every piece it returns is non-empty and free of whitespace; `SplitWordThen` and `SplitAtSpace` fix which pieces these are |
| `Strings.SplitAtSpace` | textAnalysis.py:109 | any whitespace character, whatever is around it, separates: the words of `a + [c] + b` are the words of `a` then the words of `b`; with the empty text and a word at the front, this fixes `str.split()` on every text, including leading, repeated and non-space whitespace |
| `Strings.SplitEmpty` | textAnalysis.py:109 | splitting gives no words exactly when the text is all whitespace |
| `Strings.TrimStart` | textAnalysis.py:197 | the result is a suffix of the input, everything cut off is whitespace, and the result does not start with whitespace |
| `Strings.TrimEnd` | textAnalysis.py:197 | the result is a prefix of the input, everything cut off is whitespace, and the result does not end with whitespace |
| `Strings.Strip` | textAnalysis.py:197 | `str.strip()` returns the slice of the text between its leading and its trailing whitespace: everything cut off at either end is whitespace, the middle is kept as it was, and the result has no whitespace at either end |
| `Strings.StripIdempotent` | textAnalysis.py:197 | stripping a stripped text changes nothing |
| `Strings.Replace` | textAnalysis.py:189-195 | `str.replace` with a literal pattern; for a non-empty pattern and a replacement no longer than it (the code always deletes), the result is never longer than the text |
| `Strings.Count` | textAnalysis.py:189 | `str.count`, which the code never calls: it exists only to state `ReplaceLength`; it gives `len + 1` for an empty pattern and at most `len` otherwise |
| `Strings.ReplaceLength` | textAnalysis.py:189 | the length after `replace` is the old length plus, for each non-overlapping occurrence counted as `str.count` counts it, the difference between the replacement and the pattern |
| `Strings.ReplaceAbsent` | textAnalysis.py:189-195 | a text that never contains the pattern's first character holds no occurrence and is returned unchanged |
| `Syllables.VowelRuns` | textAnalysis.py:164-171 | the number of maximal runs of `aeiouy` is at most the length of the text |
| `Syllables.VowelRunsSnoc` | textAnalysis.py:167-171 | appending a character adds one run exactly when it is a vowel at the start or after a non-vowel, which is the test the loop makes at each index |
| `Syllables.VowelRunsBound` | textAnalysis.py:164-171 | a text of length n holds at most (n + 1) / 2 vowel runs |
| `Syllables.EndsWithVowel` | textAnalysis.py:172-173 | a word ending in a vowel has at least one run, so subtracting one for a final `e` never goes negative |
| `Syllables.VowelRunsCountsRunStarts` | textAnalysis.py:167-171 | counting whole vowel runs equals counting the positions that open a run (a vowel first or after a non-vowel), on every prefix of the word |
| `Syllables.SyllableCount` | textAnalysis.py:164-176 | every non-empty word has at least one syllable and at most as many syllables as characters |
| `Syllables.SyllableCountThe` | textAnalysis.py:172-175 | "the" and "The" both have one syllable, because the run `e` is the silent final `e` and the floor restores it |
| `Syllables.SyllableCountNoVowel` | textAnalysis.py:174-175 | a word with no vowel ("bcd") has one syllable |
| `Syllables.SyllableCountBake` | textAnalysis.py:172-173 | "bake" has two vowel runs and a final `e`, so it has one syllable |
| `TextAnalysis.RejoinText` | textAnalysis.py:25-31 | `rejoin_text`: an empty list gives `""`, a one-element list gives its element unchanged, and a non-empty list gives its total length plus one space per gap (with `RejoinAppend` this fixes the join's contents) |
| `TextAnalysis.RejoinAppend` | textAnalysis.py:31 | joining two non-empty lists puts exactly one space between the two joins |
| `TextAnalysis.SplitRejoin` | textAnalysis.py:31 | when every element is non-empty and free of whitespace, `str.split()` of the joined text gives back the list |
| `TextAnalysis.FilterStopwords` | textAnalysis.py:110 | the kept words are never more than the input words; a word is kept exactly when it is one of the input words and its lower-case form is not in the stopword set, so every dropped word is a stopword |
| `TextAnalysis.FilterIsSubsequence` | textAnalysis.py:110 | the kept words appear in the same order as in the input |
| `TextAnalysis.FilterAppend` | textAnalysis.py:110 | filtering a concatenation is the concatenation of the filtered parts, so each word is judged in place |
| `TextAnalysis.FilterIdempotent` | textAnalysis.py:110 | filtering twice keeps the same words as filtering once |
| `TextAnalysis.StopwordRemovalIdempotent` | textAnalysis.py:109-113 | splitting the rejoined kept words and filtering again gives the same words, so a second `remove_stopwords` leaves the text and the word count unchanged |
| `TextAnalysis.Deletions` | textAnalysis.py:187-195 | the enabled literal deletions in the code's order, `custom_regex` only when it is truthy (given and non-empty); the result is never longer than the working text |
| `TextAnalysis.CleanText` | textAnalysis.py:187-198 | the text handed to the word tokenizer is no longer than the working text, has no upper-case letter and has no whitespace at either end |
| `TextAnalysis.CleanTextIsLiteral` | textAnalysis.py:188-192 | with the literal patterns, a text with no `[` and no `\` is only stripped and lower-cased, so its punctuation and digits survive |
| `TextAnalysis.CleanTextNotIdempotent` | textAnalysis.py:188-189 | one pass of deleting `[^\w\s]` turns `[^\w[^\w\s]\s]` into `[^\w\s]`, and a second cleaning turns that into `""`, so cleaning twice differs from cleaning once |
| `TextAnalysis.CleanContentNotIdempotent` | textAnalysis.py:187-200 | two `clean_content` calls on `[^\w[^\w\s]\s]`, with `str.split` as the word tokenizer and punctuation deletion only, leave `[^\w\s]` after the first and `""` after the second |
| `TextAnalysis.Content.constructor` | textAnalysis.py:41-49 | the text and source are the arguments, the working text is `None`, every status is `None` and every count is 0 |
| `TextAnalysis.Content.Tokenize` | textAnalysis.py:70-78 | returns the tokenizer's sentences; the sentence count is their number; the working text is their space-join; `tokenized` is True; all other counts and flags keep their values |
| `TextAnalysis.Content.RemoveStopwords` | textAnalysis.py:103-116 | returns the filtered split words; the word count is their number and at most the number of split words; the working text is their space-join; `stopwords_removed` is True; other counts and flags keep their values; filtering the new working text again keeps the same words |
| `TextAnalysis.Content.CleanContent` | textAnalysis.py:179-200 | the working text becomes the space-join of the word tokenizer's output on the cleaned text; `cleaned_content` is True; the other flags and all counts keep their values |
| `TextAnalysis.Content.CountSyllable` | textAnalysis.py:156-176 | the loop counts the positions that open a vowel run; after the final-`e` and floor adjustments its result equals the reference syllable count, which lies between 1 and the length of the word |

## Left out

- `nltk.sent_tokenize`, `nltk.word_tokenize` and the NLTK stopword corpus are foreign library code. They are parameters of the stage methods.
- `nltk.download` at import time is network I/O.
- `Content.POS_tagging` and `Content.stem` are only library calls (`nltk.pos_tag`, `SnowballStemmer`) and tuple reshaping. They also turn `pre_processed` into a list of pairs, which this model's `Option<string>` working text does not represent.
- `Content.sentiment_analysis` depends on the VADER analyzer and float scores. As written it cannot run: it writes to the undefined name `polarity` and passes `end=` to `list.append`.
- `Content.calculate_ari` is float arithmetic over undefined names.
- `Content.plot_word_cloud` renders an image with matplotlib/WordCloud and writes a file.
- The `pre_process` driver and the `__main__` block. They print, and they call the broken sentiment method or call `plot_word_cloud` without its required argument.
- The `TypeError` branch of `rejoin_text` is left out. It returns `None` for non-string elements, and the model's lists hold only strings.
- Unicode case folding and Unicode whitespace are left out. Lowercasing and whitespace are ASCII only.
- `Content.CleanContent`: `custom_regex` is a string, as the code's `str.replace` call needs. A compiled regular expression or any other non-string value, which would raise `TypeError`, is not modelled.
- `Content.RemoveStopwords` and `Content.CleanContent` require a working text. The code raises `AttributeError` when `pre_processed` is still `None` (the stages were called out of order), and the model does not cover that path.
- `Content.CleanContent`: no contract claims idempotence. Its deletion step `CleanText` is not idempotent, because the literal deletions make one pass only (`CleanTextNotIdempotent`). Whether the whole method is idempotent depends on `wordTokenize`: `CleanContentNotIdempotent` shows it is not with `str.split`, and with NLTK's tokenizer, which is not modelled, it is left open.
- `Content.CountSyllable` requires a non-empty word. The code raises `IndexError` on `word[0]` for an empty word, and the model does not cover that path.
