# reclassifier in Dafny

A verified model of the integer core of `reclassifier`, a Ruby library for
Bayesian text classification. It covers three pieces:

- **`Bayes`** (`bayes.dfy`) models the bookkeeping of `Reclassifier::Bayes`.
  - The state has four parts: a word-count table per label (`@classifications`, kept with its key order), a document count per label, a cache that every count update clears, and the `:clean` option.
  - `Classifier` is a class whose methods update these fields in place.
  - `train`/`untrain` fail with `UnknownClassification` on an unregistered label, and then nothing changes.
  - On success they move only the named label's document count and word table, and they leave the cache empty.
  - Untraining a text just trained restores every count.
  - Training two texts commutes, for the word tables and for the document counts.
  - `add_classification`/`remove_classification` insert and delete labels as a Ruby hash does.
- **`StringExt`** (`string_ext.dfy`) models the `String` extensions that turn text into a term-frequency table.
  - `word_hash_for_words` is a method with a loop, proved against the function `WordCounts`:
    - A token is counted exactly when it contains a non-word character, or when its lower-cased form is not a skip word and is longer than two characters.
    - It is counted under the stem of its lower-cased form.
    - Every count is positive, and the counts add up to the number of counted tokens.
  - `clean_word_hash` and `word_hash`:
    - The clean tokens are runs of word characters.
    - The punctuation runs of `word_hash` are each counted under their own key.
    - Whitespace splitting never yields an empty token, loses only whitespace, and undoes a join with single spaces.
  - `split_sentences` and `split_paragraphs` keep every delimiter as a piece of its own, follow the leftmost-match rule of `split` (with the text after each piece taken into account), drop trailing empty pieces, and their pieces concatenate back to the input.
- **`ArrayExt`** (`array_ext.dfy`) models `Array#sum_with_identity`.
  - It returns the identity for an empty array.
  - Otherwise it returns the sum of the elements, or of the block's images, and never adds the identity.

In the table, `lib/...` and `spec/...` paths are those of the Ruby repository.

## Model

| member | source | states |
|---|---|---|
| ArrayExt.SumWithIdentity | lib/reclassifier/core_ext/array.rb:2-9 | Empty array: the identity (default 0). Non-empty: the sum of the elements, computed as `reduce(:+)`, the left fold that starts at the first element. |
| ArrayExt.SumWithIdentityBy | lib/reclassifier/core_ext/array.rb:2-6 | With a block: the identity for an empty array, otherwise the sum of the block applied to every element (`map(&block).sum`). |
| ArrayExt.Map | lib/reclassifier/core_ext/array.rb:6 | `map(&block)` has one result per element, the block's value at that element. |
| ArrayExt.Reduce | lib/reclassifier/core_ext/array.rb:8 | `reduce(:+)` as a left fold of `+` started from `acc` equals `acc` plus the sum of the elements. |
| ArrayExt.IdentityIgnoredWhenNonEmpty | lib/reclassifier/core_ext/array.rb:3-9 | On a non-empty array the result does not depend on the identity argument. |
| ArrayExt.BlockIdentityAgrees | lib/reclassifier/core_ext/array.rb:5-9 | The block form with `{ \|x\| x }` gives the same result as the plain form, for every array and identity. |
| ArrayExt.Examples | spec/core_ext/array_spec.rb:5-11 | `[1,2,3]` sums to 6; `[]` gives 0. |
| StringExt.Lower | lib/reclassifier/core_ext/string.rb:17 | `downcase` keeps the length and lowers each ASCII capital, character by character. |
| StringExt.LowerKeepsClasses | lib/reclassifier/core_ext/string.rb:17-19 | Lower-casing neither creates nor removes word or non-word characters; a word with no word character is left as it is. |
| StringExt.DeletePunctuation | lib/reclassifier/core_ext/string.rb:6-11 | `gsub(/[^\w\s]/,"")` leaves only word and whitespace characters, all taken from the input, and is the identity on input that has only those. |
| StringExt.DeletePunctuationAppend | lib/reclassifier/core_ext/string.rb:6-11 | Deleting punctuation works character by character: it distributes over concatenation. |
| StringExt.DeletePunctuationKeeps | lib/reclassifier/core_ext/string.rb:6-11 | Every word or whitespace character survives as many times as it occurs in the input. |
| StringExt.WordsToSpaces | lib/reclassifier/core_ext/string.rb:6 | `gsub(/[\w]/," ")` keeps the length and leaves no word character. A position is whitespace afterwards exactly when it held a word or whitespace character before; every other character is unchanged. |
| StringExt.Tokens | lib/reclassifier/core_ext/string.rb:5-12 | `split`: every token is non-empty and free of whitespace, and is made of characters of the input. |
| StringExt.TokensSplitAtSpace | lib/reclassifier/core_ext/string.rb:6-11 | A whitespace character always ends a token: the tokens of `a + c + b`, for whitespace `c`, are those of `a` followed by those of `b`. |
| StringExt.TokensOfToken | lib/reclassifier/core_ext/string.rb:6-11 | A non-empty string without whitespace splits to itself. |
| StringExt.TokensOfBlank | lib/reclassifier/core_ext/string.rb:6-11 | A string of whitespace only has no tokens. |
| StringExt.RunLengthBeforeSpace | lib/reclassifier/core_ext/string.rb:6-11 | A run of non-whitespace ends at the first whitespace character, whatever follows it. |
| StringExt.TokensKeepNonSpace | lib/reclassifier/core_ext/string.rb:5-12 | The tokens, concatenated, are exactly the input with its whitespace removed. |
| StringExt.TokensOfJoin | lib/reclassifier/core_ext/string.rb:5-12 | Splitting a list of tokens joined by single spaces gives back that list. |
| StringExt.WordCounts | lib/reclassifier/core_ext/string.rb:14-25 | Every key of the table built by `word_hash_for_words` maps to a count of at least 1. |
| StringExt.WordHashForWords | lib/reclassifier/core_ext/string.rb:14-25 | The loop over the tokens (downcase, stem, filter, `d[key] ||= 0; d[key] += 1`) builds exactly `WordCounts`, so every count is positive. |
| StringExt.NormalisedIsLower | lib/reclassifier/core_ext/string.rb:17 | `Normalised`, the word after `downcase! if word =~ /[\w]+/`, equals the lower-cased word: a word without word characters has no letters to lower. |
| StringExt.KeyOf | lib/reclassifier/core_ext/string.rb:17-18 | A token's key is the stem of its lower-cased form, so words that differ only in case share a key. |
| StringExt.WordCountsAt | lib/reclassifier/core_ext/string.rb:17-22 | The count at a key is the number of counted tokens whose lower-cased stem is that key; a key is present iff such a token exists, so tokens sharing a stem share one entry. |
| StringExt.SingleToken | lib/reclassifier/core_ext/string.rb:17-22 | `Passes`, the filter, on a single token: it is counted iff it has a non-word character, or its lower-cased form is not a skip word and is longer than 2. The filter tests the unstemmed word, and the key is the stem of the lower-cased word. |
| StringExt.WordCountsTotal | lib/reclassifier/core_ext/string.rb:14-24 | The counts of the table add up to the number of tokens that pass the filter. |
| StringExt.OccurrencesPositive | lib/reclassifier/core_ext/string.rb:19-22 | A token that passes the filter contributes at least one occurrence to its key. |
| StringExt.CleanWordHash | lib/reclassifier/core_ext/string.rb:10-12 | `clean_word_hash`: every count is at least 1, and a text without word characters gives an empty hash. |
| StringExt.CleanTokensOfWordless | lib/reclassifier/core_ext/string.rb:10-12 | A text without word characters has no clean tokens. |
| StringExt.WordHash | lib/reclassifier/core_ext/string.rb:5-7 | `word_hash`: every count is at least 1, and every key of `clean_word_hash` is a key of `word_hash` with at least the same count. |
| StringExt.WordCountsGrow | lib/reclassifier/core_ext/string.rb:14-25 | Counting more tokens never loses a key nor lowers a count. |
| StringExt.CleanTokensAreWords | lib/reclassifier/core_ext/string.rb:10-12 | Every token that `clean_word_hash` counts is a non-empty run of word characters; no token it passes to the stemmer carries punctuation. |
| StringExt.PunctuationTokensAreSymbols | lib/reclassifier/core_ext/string.rb:5-7 | Every punctuation token of `word_hash` is a non-empty run of characters that are neither word nor whitespace. |
| StringExt.CleanTokenFilter | lib/reclassifier/core_ext/string.rb:10-19 | In clean mode a token is counted iff its lower-cased form is not a skip word and is longer than 2. |
| StringExt.PunctuationRunsCounted | lib/reclassifier/core_ext/string.rb:5-7 | Every punctuation run passes the filter whatever the skip list, keeps its own form as the word to stem, and its stem is a key of `word_hash`. |
| StringExt.DelimiterAt | lib/reclassifier/core_ext/string.rb:118-124 | The delimiter matched at the start of the text is one of the pattern's alternatives and is a prefix of the text. A result of 0 means that no alternative is a prefix of the text. |
| StringExt.DelimiterAtPrefix | lib/reclassifier/core_ext/string.rb:118-124 | A delimiter that matches on a prefix also matches on the whole text. |
| StringExt.Fields | lib/reclassifier/core_ext/string.rb:118-124 | `split` with a capture group alternates text and delimiter, so the number of fields is odd. |
| StringExt.DropTrailingEmpty | lib/reclassifier/core_ext/string.rb:118-124 | `split` drops exactly the trailing empty fields: the result is a prefix, ends in a non-empty piece, and only empty fields were dropped. |
| StringExt.FieldsConcat | lib/reclassifier/core_ext/string.rb:118-124 | The fields concatenate back to the text, after the text collected so far. |
| StringExt.FieldsShape | lib/reclassifier/core_ext/string.rb:118-124 | Leftmost matching, with the text that follows taken into account: each odd field is exactly the delimiter that matches where it starts. In an even field no delimiter starts at any position, even one that would run on into the following fields. |
| StringExt.DropTrailingEmptyShape | lib/reclassifier/core_ext/string.rb:118-124 | Dropping trailing empty fields keeps the leftmost-match shape of every remaining field. |
| StringExt.SplitSentences | lib/reclassifier/core_ext/string.rb:118-120 | `split_sentences`: the pieces concatenate back to the text and follow the leftmost-match rule, and the last piece is not empty, so the empty text has no pieces. |
| StringExt.SplitSentencesShape | lib/reclassifier/core_ext/string.rb:118-120 | Each `.`, `!` or `?` is a piece of its own at an odd position; the pieces at even positions contain none of them. |
| StringExt.SplitParagraphs | lib/reclassifier/core_ext/string.rb:122-124 | `split_paragraphs`: the pieces concatenate back to the text and follow the leftmost-match rule, so no break starts inside a text piece, even across its end. The last piece is not empty. |
| StringExt.SplitParagraphsShape | lib/reclassifier/core_ext/string.rb:122-124 | Each piece at an odd position is one paragraph break: `\n\n`, `\r\r` or `\r\n\r\n`. |
| Bayes.Classifier.constructor | lib/reclassifier/bayes.rb:24-30 | With the defaults (no labels, no options) nothing is registered and `:clean` is absent. The registered labels are exactly the given ones, each once and in first-appearance order, each with an empty word table. There are no document counts and the cache is `nil`. |
| Bayes.RegisteredFacts | lib/reclassifier/bayes.rb:24-30 | `Registered`, registering a list of labels one after another, yields each of them exactly once and nothing else. |
| Bayes.Classifier.Classifications | lib/reclassifier/bayes.rb:114-116 | `classifications` lists exactly the registered labels, each once. |
| Bayes.Classifier.CacheSet | lib/reclassifier/bayes.rb:187-189 | `cache_set?` is true only for a cache that is a non-empty hash (never for `nil`). |
| Bayes.Classifier.InvalidateCache | lib/reclassifier/bayes.rb:167-169 | The cache becomes an empty hash, so `cache_set?` is false; nothing else changes. |
| Bayes.Classifier.UpdateDocCount | lib/reclassifier/bayes.rb:193-197 | Adds `value` to the label's document count (absent reads as 0), changes no other label's count, and clears the cache. |
| Bayes.Classifier.EnsureClassificationExists | lib/reclassifier/bayes.rb:199-201 | Fails with `UnknownClassification(c)` iff `c` is not registered. |
| Bayes.Classifier.SmartWordHash | lib/reclassifier/bayes.rb:203-209 | The word hash with punctuation only when the `:clean` option is exactly `false`, the clean one otherwise (including when the option is absent). |
| Bayes.Classifier.Train | lib/reclassifier/bayes.rb:39-47 | Unregistered label: fails and changes nothing. Otherwise: the label's document count goes up by 1, its table gains the text's word counts, no other label changes, and `cache_set?` is false. |
| Bayes.Classifier.Untrain | lib/reclassifier/bayes.rb:57-65 | Unregistered label: fails and changes nothing. Otherwise: the label's document count goes down by 1, its table loses the text's counts at words it already has, no other label changes, and `cache_set?` is false. |
| Bayes.AddWordCounts | lib/reclassifier/bayes.rb:44-46 | The `+=` loop over the word hash yields `Trained`, whatever order the hash is visited in. |
| Bayes.SubtractWordCounts | lib/reclassifier/bayes.rb:62-64 | The guarded `-=` loop over the word hash yields `Untrained`, whatever order the hash is visited in. |
| Bayes.TrainedCounts | lib/reclassifier/bayes.rb:44-46 | `Trained`, the table after training: its words are the old words plus the text's, and each count is the old count plus the text's count. |
| Bayes.UntrainedCounts | lib/reclassifier/bayes.rb:62-64 | `Untrained`, the table after untraining: no word is inserted; each present word loses the text's count and absent words still read 0. |
| Bayes.TrainThenUntrain | lib/reclassifier/bayes.rb:39-65 | Untraining the text just trained restores every count (absent reads as 0). Words first introduced by the training stay as keys with count 0. |
| Bayes.TrainCommutes | lib/reclassifier/bayes.rb:44-46 | Training two texts under one label gives the same table in either order. |
| Bayes.TrainThenUntrainRestores | lib/reclassifier/bayes.rb:39-65 | `train(c, t)` then `untrain(c, t)` on a classifier restores `c`'s document count and every word count of `c`. The labels, the other labels' tables and the other document counts are unchanged, and the cache is not set. |
| Bayes.TrainTwice | lib/reclassifier/bayes.rb:39-47 | `train(c1, t1)` then `train(c2, t2)` leaves the word tables and document counts that training in the other order gives, and the cache not set. |
| Bayes.TrainingCommutes | lib/reclassifier/bayes.rb:39-47 | Training two labels (or one label twice) commutes, for the tables and for the document counts. |
| Bayes.AddLabelFacts | lib/reclassifier/bayes.rb:125-126 | `AddLabel`, storing a label: it becomes registered, the others stay, the key order stays free of duplicates, and storing it again changes nothing. |
| Bayes.RemoveLabelFacts | lib/reclassifier/bayes.rb:145 | `RemoveLabel`, deleting a label: exactly that label goes, the order stays free of duplicates, and deleting a label not registered changes nothing. |
| Bayes.AddThenRemove | lib/reclassifier/bayes.rb:125-148 | Adding a new label and then removing it gives back the previous key order. |
| Bayes.AddLabelCommutes | lib/reclassifier/bayes.rb:125-129 | Adding two labels gives the same set of labels in either order. |
| Bayes.Classifier.AddClassification | lib/reclassifier/bayes.rb:125-129 | Returns the label and registers it, at the end of the order if it is new. The label's table becomes empty even if it existed. Document counts and the cache are untouched. |
| Bayes.Classifier.RemoveClassification | lib/reclassifier/bayes.rb:138-148 | Returns the label if it was registered and `nil` otherwise. Afterwards the label is not registered, the other labels keep their order, and its document count and the cache are untouched. |

## Left out

- `calculate_scores` and `classify` (lib/reclassifier/bayes.rb:74-107) are not modelled: they are floating-point scoring (`Math.log`, a `Float` maximum).
  - They are the only code that writes cache entries, so in the model `cache_set?` is never true after construction.
  - They would raise on a `nil` cache (before any `train`, `untrain` or `invalidate_cache`); that is not modelled either.
- The `Reclassifier::WordHash` mixin, whose `word_hash`/`clean_word_hash` the classifier calls (lib/reclassifier/bayes.rb:12), is not part of this model.
  - The classifier takes those two functions as constants given to its constructor, and `SmartWordHash` models only the clean/raw dispatch between them.
  - That mixin is not the `String` extension: its tests split `'Payment-Transfer'` into two words, while `String#clean_word_hash` deletes the hyphen.
- `String#stem` comes from a stemming library and is a function parameter.
- Character classes and `downcase` are modelled on ASCII. Ruby's `downcase` of non-ASCII letters is not modelled.
- StringExt.WordHashForWords: the skip list is a parameter of the loop and of `WordCounts`.
  - `word_hash` and `clean_word_hash` always pass `CorpusSkipWords`, which holds the 80 words of `CORPUS_SKIP_WORDS` (lib/reclassifier/core_ext/string.rb:27-108). Membership in a set is membership in that array.
- Hash iteration order is not modelled for word tables.
  - The insertion order of `@classifications` is modelled, as `labelOrder`.
  - The results of `word_hash` are maps, and the loops of `train`/`untrain` are proved for any visiting order.
- Bayes.AddWordCounts, Bayes.SubtractWordCounts: the label's table is updated as a value and stored back once. Nothing observes the table between the loop's steps.
- `Hash.new(0)` defaults are modelled by reading an absent key as 0 (`Count`, `Get`). Hash keys are strings rather than Ruby symbols.
- Exceptions are modelled as a returned `Outcome`.
- `summary`, `paragraph_summary` and `perform_lsi` (lib/reclassifier/core_ext/string.rb:110-134) drive the LSI engine and are not modelled.
  - The LSI engine and content nodes are not part of this model.
  - Neither are `Vector#magnitude`/`normalize` and the `GSL::Vector` serialisation (floating point and a foreign library).
- Integers are unbounded, as Ruby's are.

`add_classification` on a label that already exists replaces its table with an empty one, although its comment says it "has no effect". The model follows the code. The label keeps its place in the key order, and its document count survives both this and `remove_classification`.
