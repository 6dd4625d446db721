/**
 * The `String` extensions that turn text into a term-frequency table
 * (`word_hash`, `clean_word_hash`, `word_hash_for_words`) and split text into
 * sentences and paragraphs (`split_sentences`, `split_paragraphs`).
 *
 * Character classes follow Ruby's regular expressions on ASCII: `\w` is
 * `[A-Za-z0-9_]` and `\s` (also the separator of `String#split` with no
 * argument) is space, tab, line feed, vertical tab, form feed and carriage
 * return. `String#stem` comes from a stemming library and is a parameter.
 */
module StringExt {

  // ---------------------------------------------------------------------------
  // Characters
  // ---------------------------------------------------------------------------

  /** Ruby's `\w`. */
  predicate IsWordChar(c: char)
  {
    'a' <= c <= 'z' || 'A' <= c <= 'Z' || '0' <= c <= '9' || c == '_'
  }

  /** Ruby's `\s`, and the separators of `String#split` without a pattern. */
  predicate IsSpaceChar(c: char)
  {
    c == ' ' || c == '\t' || c == '\n' || c == '\U{000B}' || c == '\U{000C}' || c == '\r'
  }

  /** `word =~ /[\w]+/`: the word contains at least one word character. */
  predicate HasWordChar(w: string)
  {
    exists i :: 0 <= i < |w| && IsWordChar(w[i])
  }

  /** `word =~ /[^\w]/`: the word contains at least one non-word character. */
  predicate HasNonWordChar(w: string)
  {
    exists i :: 0 <= i < |w| && !IsWordChar(w[i])
  }

  function LowerChar(c: char): char
  {
    if 'A' <= c <= 'Z' then (c as int + 32) as char else c
  }

  /** `downcase`, on ASCII letters. */
  function Lower(w: string): (r: string)
    ensures |r| == |w|
    ensures forall i :: 0 <= i < |w| ==> r[i] == LowerChar(w[i])
  {
    seq(|w|, i requires 0 <= i < |w| => LowerChar(w[i]))
  }

  /** Lower-casing keeps every character's class. */
  lemma LowerKeepsClasses(w: string)
    ensures HasWordChar(Lower(w)) == HasWordChar(w)
    ensures HasNonWordChar(Lower(w)) == HasNonWordChar(w)
    ensures !HasWordChar(w) ==> Lower(w) == w
  {
    var l := Lower(w);
    if HasWordChar(w) {
      var i :| 0 <= i < |w| && IsWordChar(w[i]);
      assert IsWordChar(l[i]);
    }
    if HasWordChar(l) {
      var i :| 0 <= i < |l| && IsWordChar(l[i]);
      assert IsWordChar(w[i]);
    }
    if HasNonWordChar(w) {
      var i :| 0 <= i < |w| && !IsWordChar(w[i]);
      assert !IsWordChar(l[i]);
    }
    if HasNonWordChar(l) {
      var i :| 0 <= i < |l| && !IsWordChar(l[i]);
      assert !IsWordChar(w[i]);
    }
  }

  // ---------------------------------------------------------------------------
  // Character-class rewriting and whitespace splitting
  // ---------------------------------------------------------------------------

  /** `gsub(/[^\w\s]/, "")`: delete every character that is neither a word character nor whitespace. */
  function DeletePunctuation(s: string): (r: string)
    ensures forall i :: 0 <= i < |r| ==> IsWordChar(r[i]) || IsSpaceChar(r[i])
    ensures forall i :: 0 <= i < |r| ==> r[i] in s
    ensures (forall i :: 0 <= i < |s| ==> IsWordChar(s[i]) || IsSpaceChar(s[i])) ==> r == s
  {
    if s == [] then []
    else if IsWordChar(s[0]) || IsSpaceChar(s[0]) then [s[0]] + DeletePunctuation(s[1..])
    else DeletePunctuation(s[1..])
  }

  /** Deleting punctuation works character by character, so it distributes over `+`. */
  lemma {:induction false} DeletePunctuationAppend(a: string, b: string)
    ensures DeletePunctuation(a + b) == DeletePunctuation(a) + DeletePunctuation(b)
  {
    if a == [] {
      assert a + b == b;
    } else {
      assert (a + b)[0] == a[0];
      assert (a + b)[1..] == a[1..] + b;
      DeletePunctuationAppend(a[1..], b);
    }
  }

  /** Every word and whitespace character survives, as often as it occurs. */
  lemma {:induction false} DeletePunctuationKeeps(s: string, c: char)
    requires IsWordChar(c) || IsSpaceChar(c)
    ensures multiset(DeletePunctuation(s))[c] == multiset(s)[c]
  {
    if s != [] {
      assert s == [s[0]] + s[1..];
      DeletePunctuationKeeps(s[1..], c);
    }
  }

  /** `gsub(/[\w]/, " ")`: every word character becomes a space; everything else stays. */
  function WordsToSpaces(s: string): (r: string)
    ensures |r| == |s|
    ensures forall i :: 0 <= i < |r| ==> !IsWordChar(r[i])
    ensures forall i :: 0 <= i < |r| ==> (IsSpaceChar(r[i]) <==> IsWordChar(s[i]) || IsSpaceChar(s[i]))
    ensures forall i :: 0 <= i < |r| && !IsSpaceChar(r[i]) ==> r[i] == s[i]
  {
    seq(|s|, i requires 0 <= i < |s| => if IsWordChar(s[i]) then ' ' else s[i])
  }

  /** A token of `split`: non-empty and free of whitespace. */
  predicate IsToken(t: string)
  {
    |t| > 0 && forall i :: 0 <= i < |t| ==> !IsSpaceChar(t[i])
  }

  /** The length of the leading run of non-whitespace characters. */
  function RunLength(s: string): (n: nat)
    ensures n <= |s|
    ensures forall i :: 0 <= i < n ==> !IsSpaceChar(s[i])
    ensures n < |s| ==> IsSpaceChar(s[n])
  {
    if s == [] || IsSpaceChar(s[0]) then 0 else 1 + RunLength(s[1..])
  }

  /**
   * `split` with no pattern: the maximal runs of non-whitespace characters,
   * ignoring leading, trailing and repeated whitespace.
   */
  function Tokens(s: string): (r: seq<string>)
    ensures forall k :: 0 <= k < |r| ==> IsToken(r[k])
    ensures forall k, i :: 0 <= k < |r| && 0 <= i < |r[k]| ==> r[k][i] in s
    decreases |s|
  {
    if s == [] then []
    else if IsSpaceChar(s[0]) then Tokens(s[1..])
    else
      var n := RunLength(s);
      [s[..n]] + Tokens(s[n..])
  }

  /** The concatenation of a list of strings. */
  function Concat(ps: seq<string>): string
  {
    if ps == [] then [] else Concat(ps[..|ps| - 1]) + ps[|ps| - 1]
  }

  lemma {:induction false} ConcatAppend(ps: seq<string>, qs: seq<string>)
    ensures Concat(ps + qs) == Concat(ps) + Concat(qs)
    decreases |qs|
  {
    if qs != [] {
      assert (ps + qs)[..|ps + qs| - 1] == ps + qs[..|qs| - 1];
      assert (ps + qs)[|ps + qs| - 1] == qs[|qs| - 1];
      ConcatAppend(ps, qs[..|qs| - 1]);
    } else {
      assert ps + qs == ps;
    }
  }

  /** The non-whitespace characters of a string, in order. */
  function NonSpace(s: string): string
  {
    if s == [] then [] else (if IsSpaceChar(s[0]) then [] else [s[0]]) + NonSpace(s[1..])
  }

  lemma {:induction false} NonSpaceAppend(s: string, t: string)
    ensures NonSpace(s + t) == NonSpace(s) + NonSpace(t)
  {
    if s != [] {
      assert (s + t)[1..] == s[1..] + t;
      assert (s + t)[0] == s[0];
      NonSpaceAppend(s[1..], t);
    } else {
      assert s + t == t;
    }
  }

  lemma {:induction false} NonSpaceOfToken(t: string)
    requires forall i :: 0 <= i < |t| ==> !IsSpaceChar(t[i])
    ensures NonSpace(t) == t
  {
    if t != [] {
      NonSpaceOfToken(t[1..]);
    }
  }

  /** Splitting loses only whitespace: the tokens, concatenated, are the input without its whitespace. */
  lemma {:induction false} TokensKeepNonSpace(s: string)
    ensures Concat(Tokens(s)) == NonSpace(s)
    decreases |s|
  {
    if s == [] {
    } else if IsSpaceChar(s[0]) {
      TokensKeepNonSpace(s[1..]);
    } else {
      var n := RunLength(s);
      TokensKeepNonSpace(s[n..]);
      ConcatAppend([s[..n]], Tokens(s[n..]));
      assert Concat([s[..n]]) == s[..n] by {
        assert [s[..n]][..0] == [];
      }
      assert s == s[..n] + s[n..];
      NonSpaceAppend(s[..n], s[n..]);
      NonSpaceOfToken(s[..n]);
    }
  }

  /** Tokens joined by single spaces, as `join(" ")` does. */
  function JoinWords(ts: seq<string>): string
  {
    if ts == [] then []
    else if |ts| == 1 then ts[0]
    else ts[0] + " " + JoinWords(ts[1..])
  }

  lemma {:induction false} RunLengthOfToken(t: string, rest: string)
    requires forall i :: 0 <= i < |t| ==> !IsSpaceChar(t[i])
    requires rest == [] || IsSpaceChar(rest[0])
    ensures RunLength(t + rest) == |t|
  {
    if t != [] {
      assert (t + rest)[1..] == t[1..] + rest;
      RunLengthOfToken(t[1..], rest);
    }
  }

  /** A run of non-whitespace ends at the first whitespace character. */
  lemma {:induction false} RunLengthBeforeSpace(a: string, c: char, b: string)
    requires IsSpaceChar(c)
    ensures RunLength(a + [c] + b) == RunLength(a)
  {
    if a != [] && !IsSpaceChar(a[0]) {
      assert (a + [c] + b)[0] == a[0];
      assert (a + [c] + b)[1..] == a[1..] + [c] + b;
      RunLengthBeforeSpace(a[1..], c, b);
    }
  }

  /** A whitespace character always separates tokens: none runs across it. */
  lemma {:induction false} TokensSplitAtSpace(a: string, c: char, b: string)
    requires IsSpaceChar(c)
    ensures Tokens(a + [c] + b) == Tokens(a) + Tokens(b)
    decreases |a|
  {
    var s := a + [c] + b;
    if a == [] {
      assert s[0] == c && s[1..] == b;
    } else if IsSpaceChar(a[0]) {
      assert s[0] == a[0];
      assert s[1..] == a[1..] + [c] + b;
      TokensSplitAtSpace(a[1..], c, b);
    } else {
      var m := RunLength(a);
      RunLengthBeforeSpace(a, c, b);
      assert s[0] == a[0];
      assert s[..m] == a[..m];
      assert s[m..] == a[m..] + [c] + b;
      TokensSplitAtSpace(a[m..], c, b);
    }
  }

  /** A text of whitespace only has no tokens. */
  lemma {:induction false} TokensOfBlank(s: string)
    requires forall i :: 0 <= i < |s| ==> IsSpaceChar(s[i])
    ensures Tokens(s) == []
  {
    if s != [] {
      TokensOfBlank(s[1..]);
    }
  }

  /** A single token splits to itself. */
  lemma TokensOfToken(t: string)
    requires IsToken(t)
    ensures Tokens(t) == [t]
  {
    RunLengthOfToken(t, []);
    assert t + [] == t;
    assert t[..|t|] == t && t[|t|..] == [];
  }

  /** Splitting is the inverse of joining with single spaces, for any list of tokens. */
  lemma {:induction false} TokensOfJoin(ts: seq<string>)
    requires forall k :: 0 <= k < |ts| ==> IsToken(ts[k])
    ensures Tokens(JoinWords(ts)) == ts
  {
    if |ts| == 1 {
      RunLengthOfToken(ts[0], []);
      assert ts[0] + [] == ts[0];
      assert ts[0][..|ts[0]|] == ts[0];
      assert ts[0][|ts[0]|..] == [];
      assert JoinWords(ts) == ts[0];
      assert Tokens(ts[0]) == [ts[0]] + Tokens([]);
    } else if |ts| > 1 {
      var rest := " " + JoinWords(ts[1..]);
      var s := ts[0] + rest;
      assert JoinWords(ts) == s;
      RunLengthOfToken(ts[0], rest);
      assert s[..|ts[0]|] == ts[0];
      assert s[|ts[0]|..] == rest;
      assert rest[1..] == JoinWords(ts[1..]);
      TokensOfJoin(ts[1..]);
    }
  }

  // ---------------------------------------------------------------------------
  // word_hash_for_words
  // ---------------------------------------------------------------------------

  /** `CORPUS_SKIP_WORDS`: words never counted on their own. */
  const CorpusSkipWords: set<string> := {
    "a", "again", "all", "along", "are", "also", "an", "and", "as", "at",
    "but", "by", "came", "can", "cant", "couldnt", "did", "didn", "didnt", "do",
    "doesnt", "dont", "ever", "first", "from", "have", "her", "here", "him", "how",
    "i", "if", "in", "into", "is", "isnt", "it", "itll", "just", "last",
    "least", "like", "most", "my", "new", "no", "not", "now", "of", "on",
    "or", "should", "sinc", "so", "some", "th", "than", "this", "that", "the",
    "their", "then", "those", "to", "told", "too", "true", "try", "until", "url",
    "us", "were", "when", "whether", "while", "with", "within", "yes", "you", "youll"
  }

  /**
   * `word.downcase! if word =~ /[\w]+/`: the word as it is filtered and stemmed.
   * A word without word characters has no letters, so the guarded `downcase!`
   * agrees with an unconditional one.
   */
  function Normalised(w: string): string
  {
    if HasWordChar(w) then Lower(w) else w
  }

  lemma NormalisedIsLower(w: string)
    ensures Normalised(w) == Lower(w)
  {
    LowerKeepsClasses(w);
  }

  /** The filter of `word_hash_for_words`, applied to the normalised word. */
  predicate Passes(w: string, skip: set<string>)
  {
    HasNonWordChar(w) || (w !in skip && |w| > 2)
  }

  /** The hash key a token contributes to: its normalised form, stemmed. Keys ignore case. */
  function KeyOf(w: string, stem: string -> string): (r: string)
    ensures r == stem(Lower(w))
  {
    NormalisedIsLower(w);
    stem(Normalised(w))
  }

  /** Count of `m` at `k`, reading an absent key as 0. */
  function Get(m: map<string, int>, k: string): int
  {
    if k in m then m[k] else 0
  }

  /**
   * The table `word_hash_for_words(words)` builds: the tokens visited from left to
   * right, each one that passes the filter adding 1 at its key.
   */
  function WordCounts(words: seq<string>, stem: string -> string, skip: set<string>): (d: map<string, int>)
    ensures forall k :: k in d ==> d[k] >= 1
  {
    if words == [] then map[]
    else
      var d := WordCounts(words[..|words| - 1], stem, skip);
      var w := Normalised(words[|words| - 1]);
      if Passes(w, skip) then d[stem(w) := Get(d, stem(w)) + 1] else d
  }

  /** `word_hash_for_words(words)`: one pass over the tokens, filling the hash `d`. */
  method WordHashForWords(words: seq<string>, stem: string -> string, skip: set<string>) returns (d: map<string, int>)
    ensures d == WordCounts(words, stem, skip)
    ensures forall k :: k in d ==> d[k] >= 1
  {
    d := map[];
    var i := 0;
    while i < |words|
      invariant 0 <= i <= |words|
      invariant d == WordCounts(words[..i], stem, skip)
    {
      var word := words[i];
      if HasWordChar(word) {
        word := Lower(word);
      }
      var key := stem(word);
      WordCountsNext(words, i, stem, skip, word);
      if Passes(word, skip) {
        ghost var before := d;
        if key !in d {
          d := d[key := 0];
        }
        assert d[key] == Get(before, key);
        d := d[key := d[key] + 1];
        MapUpdateTwice(before, key, 0, Get(before, key) + 1);
      }
      i := i + 1;
    }
    assert words[..i] == words;
  }

  lemma MapUpdateTwice(m: map<string, int>, k: string, a: int, b: int)
    ensures (if k in m then m else m[k := a])[k := b] == m[k := b]
  {
  }

  /** Visiting token `i`, normalised to `w`, extends the table of the first `i` tokens by that token's count. */
  lemma WordCountsNext(words: seq<string>, i: nat, stem: string -> string, skip: set<string>, w: string)
    requires i < |words|
    requires w == if HasWordChar(words[i]) then Lower(words[i]) else words[i]
    ensures var d := WordCounts(words[..i], stem, skip);
      WordCounts(words[..i + 1], stem, skip) == if Passes(w, skip) then d[stem(w) := Get(d, stem(w)) + 1] else d
  {
    assert words[..i + 1][..i] == words[..i];
  }

  /** The number of tokens that pass the filter and have key `k`. */
  function Occurrences(words: seq<string>, stem: string -> string, skip: set<string>, k: string): nat
  {
    if words == [] then 0
    else
      var w := words[|words| - 1];
      Occurrences(words[..|words| - 1], stem, skip, k)
        + (if Passes(Normalised(w), skip) && KeyOf(w, stem) == k then 1 else 0)
  }

  /** The number of tokens that pass the filter. */
  function CountedTokens(words: seq<string>, skip: set<string>): nat
  {
    if words == [] then 0
    else CountedTokens(words[..|words| - 1], skip) + (if Passes(Normalised(words[|words| - 1]), skip) then 1 else 0)
  }

  /**
   * Each key's count is the number of counted tokens with that key, and a key is
   * present exactly when some counted token has it: tokens sharing a stem share an entry.
   */
  lemma {:induction false} WordCountsAt(words: seq<string>, stem: string -> string, skip: set<string>, k: string)
    ensures Get(WordCounts(words, stem, skip), k) == Occurrences(words, stem, skip, k)
    ensures k in WordCounts(words, stem, skip) <==> Occurrences(words, stem, skip, k) > 0
  {
    if words != [] {
      WordCountsAt(words[..|words| - 1], stem, skip, k);
    }
  }

  /**
   * A single token is counted iff it contains a non-word character, or its
   * lower-cased form is not a skip word and is longer than two characters; it
   * is counted under the stem of its lower-cased form. The filter looks at the
   * unstemmed word.
   */
  lemma SingleToken(w: string, stem: string -> string, skip: set<string>)
    ensures WordCounts([w], stem, skip) ==
      if HasNonWordChar(w) || (Lower(w) !in skip && |w| > 2)
      then map[stem(Lower(w)) := 1]
      else map[]
  {
    LowerKeepsClasses(w);
    assert [w][..0] == [];
    assert Normalised(w) == Lower(w);
  }

  // Sum of the values of a table, over a set of its keys.
  ghost function SumOver(m: map<string, int>, keys: set<string>): int
    requires keys <= m.Keys
    decreases keys
  {
    if keys == {} then 0
    else
      var k :| k in keys;
      m[k] + SumOver(m, keys - {k})
  }

  lemma {:induction false} SumOverRemove(m: map<string, int>, keys: set<string>, k: string)
    requires keys <= m.Keys && k in keys
    ensures SumOver(m, keys) == m[k] + SumOver(m, keys - {k})
    decreases keys
  {
    var j :| j in keys && SumOver(m, keys) == m[j] + SumOver(m, keys - {j});
    if j != k {
      SumOverRemove(m, keys - {j}, k);
      SumOverRemove(m, keys - {k}, j);
      assert keys - {j} - {k} == keys - {k} - {j};
    }
  }

  lemma {:induction false} SumOverFrame(m: map<string, int>, m': map<string, int>, keys: set<string>)
    requires keys <= m.Keys && keys <= m'.Keys
    requires forall k :: k in keys ==> m[k] == m'[k]
    ensures SumOver(m, keys) == SumOver(m', keys)
    decreases keys
  {
    if keys != {} {
      var k :| k in keys;
      SumOverRemove(m, keys, k);
      SumOverRemove(m', keys, k);
      SumOverFrame(m, m', keys - {k});
    }
  }

  lemma SumOverIncrementPresent(m: map<string, int>, k: string)
    requires k in m
    ensures SumOver(m[k := m[k] + 1], m.Keys) == SumOver(m, m.Keys) + 1
  {
    var m' := m[k := m[k] + 1];
    var rest := m.Keys - {k};
    assert m'.Keys == m.Keys;
    SumOverRemove(m', m.Keys, k);
    SumOverRemove(m, m.Keys, k);
    SumOverFrame(m, m', rest);
  }

  lemma SumOverIncrementAbsent(m: map<string, int>, k: string)
    requires k !in m
    ensures SumOver(m[k := 1], m.Keys + {k}) == SumOver(m, m.Keys) + 1
  {
    var m' := m[k := 1];
    var keys := m.Keys + {k};
    assert m'.Keys == keys;
    SumOverRemove(m', keys, k);
    assert keys - {k} == m.Keys;
    SumOverFrame(m, m', m.Keys);
  }

  /** The counts of the table add up to the number of tokens that pass the filter. */
  lemma {:induction false} WordCountsTotal(words: seq<string>, stem: string -> string, skip: set<string>)
    ensures SumOver(WordCounts(words, stem, skip), WordCounts(words, stem, skip).Keys) == CountedTokens(words, skip)
  {
    if words != [] {
      var init := words[..|words| - 1];
      WordCountsTotal(init, stem, skip);
      var w := Normalised(words[|words| - 1]);
      var d := WordCounts(init, stem, skip);
      assert WordCounts(words, stem, skip) == if Passes(w, skip) then d[stem(w) := Get(d, stem(w)) + 1] else d;
      assert CountedTokens(words, skip) == CountedTokens(init, skip) + if Passes(w, skip) then 1 else 0;
      if Passes(w, skip) {
        var k := stem(w);
        if k in d {
          SumOverIncrementPresent(d, k);
          assert d[k := Get(d, k) + 1] == d[k := d[k] + 1];
          assert d[k := d[k] + 1].Keys == d.Keys;
        } else {
          SumOverIncrementAbsent(d, k);
          assert d[k := Get(d, k) + 1] == d[k := 1];
          assert d[k := 1].Keys == d.Keys + {k};
        }
      }
    }
  }

  // ---------------------------------------------------------------------------
  // word_hash and clean_word_hash
  // ---------------------------------------------------------------------------

  /** The tokens of `clean_word_hash`: split after deleting punctuation. */
  function CleanTokens(s: string): seq<string>
  {
    Tokens(DeletePunctuation(s))
  }

  /** The punctuation runs `word_hash` adds: split after turning word characters into spaces. */
  function PunctuationTokens(s: string): seq<string>
  {
    Tokens(WordsToSpaces(s))
  }

  /** `clean_word_hash`: stemmed words only, no punctuation. A text without word characters gives an empty hash. */
  function CleanWordHash(s: string, stem: string -> string): (r: map<string, int>)
    ensures forall k :: k in r ==> r[k] >= 1
    ensures (forall i :: 0 <= i < |s| ==> !IsWordChar(s[i])) ==> r == map[]
  {
    CleanTokensOfWordless(s);
    WordCounts(CleanTokens(s), stem, CorpusSkipWords)
  }

  /** Deleting punctuation from a text without word characters leaves only whitespace, so no tokens. */
  lemma CleanTokensOfWordless(s: string)
    ensures (forall i :: 0 <= i < |s| ==> !IsWordChar(s[i])) ==> CleanTokens(s) == []
  {
    if forall i :: 0 <= i < |s| ==> !IsWordChar(s[i]) {
      var d := DeletePunctuation(s);
      forall i | 0 <= i < |d| ensures IsSpaceChar(d[i]) {
        var j :| 0 <= j < |s| && s[j] == d[i];
      }
      TokensOfBlank(d);
    }
  }

  /**
   * `word_hash`: the clean tokens followed by the punctuation runs. It counts
   * every key of `clean_word_hash` at least as often, and may add punctuation keys.
   */
  function WordHash(s: string, stem: string -> string): (r: map<string, int>)
    ensures forall k :: k in r ==> r[k] >= 1
    ensures forall k :: k in CleanWordHash(s, stem) ==> k in r && r[k] >= CleanWordHash(s, stem)[k]
  {
    WordCountsGrow(CleanTokens(s), PunctuationTokens(s), stem, CorpusSkipWords);
    WordCounts(CleanTokens(s) + PunctuationTokens(s), stem, CorpusSkipWords)
  }

  /** More tokens never lose a key nor lower a count. */
  lemma {:induction false} WordCountsGrow(a: seq<string>, b: seq<string>, stem: string -> string, skip: set<string>)
    ensures forall k :: k in WordCounts(a, stem, skip) ==>
      k in WordCounts(a + b, stem, skip) && WordCounts(a + b, stem, skip)[k] >= WordCounts(a, stem, skip)[k]
  {
    if b == [] {
      assert a + b == a;
    } else {
      var ab := a + b;
      assert ab[..|ab| - 1] == a + b[..|b| - 1];
      WordCountsGrow(a, b[..|b| - 1], stem, skip);
    }
  }

  /** Every clean token is a non-empty run of word characters, so it never carries punctuation. */
  lemma CleanTokensAreWords(s: string)
    ensures forall k :: 0 <= k < |CleanTokens(s)| ==>
      |CleanTokens(s)[k]| > 0 && !HasNonWordChar(CleanTokens(s)[k])
  {
    var d := DeletePunctuation(s);
    var ts := Tokens(d);
    forall k | 0 <= k < |ts|
      ensures |ts[k]| > 0 && !HasNonWordChar(ts[k])
    {
      forall i | 0 <= i < |ts[k]|
        ensures IsWordChar(ts[k][i])
      {
        var c := ts[k][i];
        assert c in d;
        var j :| 0 <= j < |d| && d[j] == c;
        assert !IsSpaceChar(c);
      }
    }
  }

  /** Every punctuation token is a non-empty run of characters that are neither word nor whitespace. */
  lemma PunctuationTokensAreSymbols(s: string)
    ensures forall k :: 0 <= k < |PunctuationTokens(s)| ==>
      IsToken(PunctuationTokens(s)[k]) && !HasWordChar(PunctuationTokens(s)[k])
  {
    var d := WordsToSpaces(s);
    var ts := Tokens(d);
    forall k | 0 <= k < |ts|
      ensures !HasWordChar(ts[k])
    {
      forall i | 0 <= i < |ts[k]|
        ensures !IsWordChar(ts[k][i])
      {
        var c := ts[k][i];
        assert c in d;
      }
    }
  }

  /** In clean mode, a token is counted iff its lower-cased form is not a skip word and is longer than two characters. */
  lemma CleanTokenFilter(s: string, k: nat, skip: set<string>)
    requires k < |CleanTokens(s)|
    ensures Passes(Normalised(CleanTokens(s)[k]), skip) <==>
      Lower(CleanTokens(s)[k]) !in skip && |CleanTokens(s)[k]| > 2
  {
    var t := CleanTokens(s)[k];
    CleanTokensAreWords(s);
    LowerKeepsClasses(t);
    assert IsWordChar(t[0]);
    assert HasWordChar(t);
  }

  /**
   * Every punctuation run passes the filter whatever the skip list, under the stem
   * of the run itself, so `word_hash` has a key for it.
   */
  lemma PunctuationRunsCounted(s: string, stem: string -> string, k: nat)
    requires k < |PunctuationTokens(s)|
    ensures forall skip :: Passes(Normalised(PunctuationTokens(s)[k]), skip)
    ensures KeyOf(PunctuationTokens(s)[k], stem) == stem(PunctuationTokens(s)[k])
    ensures stem(PunctuationTokens(s)[k]) in WordHash(s, stem)
  {
    var ps := PunctuationTokens(s);
    var t := ps[k];
    PunctuationTokensAreSymbols(s);
    assert !IsWordChar(t[0]);
    assert HasNonWordChar(t);
    var words := CleanTokens(s) + ps;
    var n := |CleanTokens(s)| + k;
    assert words[n] == t;
    var skip := CorpusSkipWords;
    OccurrencesPositive(words, stem, skip, n);
    WordCountsAt(words, stem, skip, stem(t));
  }

  lemma {:induction false} OccurrencesPositive(words: seq<string>, stem: string -> string, skip: set<string>, n: nat)
    requires n < |words| && Passes(Normalised(words[n]), skip)
    ensures Occurrences(words, stem, skip, KeyOf(words[n], stem)) > 0
  {
    if n < |words| - 1 {
      OccurrencesPositive(words[..|words| - 1], stem, skip, n);
    }
  }

  // ---------------------------------------------------------------------------
  // split_sentences and split_paragraphs
  // ---------------------------------------------------------------------------

  /** Which delimiter `split` keeps: `/(\.|\!|\?)/` or `/(\n\n|\r\r|\r\n\r\n)/`. */
  datatype Splitter = Sentences | Paragraphs

  /** The alternatives of the capturing group, in the order the pattern tries them. */
  function Alternatives(sp: Splitter): seq<string>
  {
    match sp
    case Sentences => [".", "!", "?"]
    case Paragraphs => ["\n\n", "\r\r", "\r\n\r\n"]
  }

  predicate IsPrefixOf(d: string, s: string)
  {
    |d| <= |s| && s[..|d|] == d
  }

  /**
   * The length of the delimiter that matches at the start of `s`, or 0 when no
   * alternative is a prefix of `s`. No alternative is a prefix of another, so
   * at most one of them matches and the order in which they are tried does
   * not change the result.
   */
  function DelimiterAt(sp: Splitter, s: string): (n: nat)
    ensures n <= |s|
    ensures n > 0 ==> s[..n] in Alternatives(sp)
    ensures n == 0 ==> forall d :: d in Alternatives(sp) ==> !IsPrefixOf(d, s)
  {
    match sp
    case Sentences =>
      if |s| > 0 && (s[0] == '.' || s[0] == '!' || s[0] == '?') then
        assert s[..1] == [s[0]];
        1
      else 0
    case Paragraphs =>
      if |s| >= 2 && s[0] == '\n' && s[1] == '\n' then
        assert s[..2] == [s[0], s[1]];
        2
      else if |s| >= 2 && s[0] == '\r' && s[1] == '\r' then
        assert s[..2] == [s[0], s[1]];
        2
      else if |s| >= 4 && s[0] == '\r' && s[1] == '\n' && s[2] == '\r' && s[3] == '\n' then
        assert s[..4] == [s[0], s[1], s[2], s[3]];
        4
      else
        0
  }

  /** A match on a prefix is a match on the whole string. */
  lemma DelimiterAtPrefix(sp: Splitter, p: string, q: string)
    ensures DelimiterAt(sp, p) > 0 ==> DelimiterAt(sp, p + q) > 0
  {
    if |p| > 0 {
      assert (p + q)[0] == p[0];
    }
    if |p| >= 4 {
      assert (p + q)[1] == p[1] && (p + q)[2] == p[2] && (p + q)[3] == p[3];
    } else if |p| >= 2 {
      assert (p + q)[1] == p[1];
    }
  }

  /**
   * The fields of `split` with a capturing pattern, before trailing empty fields
   * are dropped: the text between delimiters, each delimiter kept as its own
   * field. `field` is the text collected since the last delimiter.
   */
  function Fields(sp: Splitter, s: string, field: string): (r: seq<string>)
    ensures |r| % 2 == 1
    decreases |s|
  {
    if s == [] then [field]
    else
      var n := DelimiterAt(sp, s);
      if n > 0 then [field, s[..n]] + Fields(sp, s[n..], [])
      else Fields(sp, s[1..], field + [s[0]])
  }

  /** `split` with no limit drops trailing empty strings. */
  function DropTrailingEmpty(ps: seq<string>): (r: seq<string>)
    ensures |r| <= |ps| && r == ps[..|r|]
    ensures r == [] || r[|r| - 1] != []
    ensures forall i :: |r| <= i < |ps| ==> ps[i] == []
  {
    if ps != [] && ps[|ps| - 1] == [] then DropTrailingEmpty(ps[..|ps| - 1]) else ps
  }

  /**
   * `split_sentences`: `split /(\.|\!|\?)/`. The pieces concatenate back to the
   * text, follow the leftmost-match rule, and the last one is not empty
   * (so the empty text has no pieces).
   */
  function SplitSentences(s: string): (r: seq<string>)
    ensures Concat(r) == s
    ensures WellSplit(Sentences, r)
    ensures r == [] || r[|r| - 1] != []
  {
    SplitFacts(Sentences, s);
    DropTrailingEmpty(Fields(Sentences, s, []))
  }

  /**
   * `split_paragraphs`: `split /(\n\n|\r\r|\r\n\r\n)/`. The pieces concatenate
   * back to the text, follow the leftmost-match rule, and the last one is not
   * empty (so the empty text has no pieces).
   */
  function SplitParagraphs(s: string): (r: seq<string>)
    ensures Concat(r) == s
    ensures WellSplit(Paragraphs, r)
    ensures r == [] || r[|r| - 1] != []
  {
    SplitFacts(Paragraphs, s);
    DropTrailingEmpty(Fields(Paragraphs, s, []))
  }

  /**
   * Piece `i` of a split, read in the context of the text after it: an odd
   * piece is exactly the delimiter that matches where it starts; an even piece
   * has no position where a delimiter starts, even one that would run on into
   * the following text. This is the leftmost-match rule of `split`.
   */
  ghost predicate PieceOk(sp: Splitter, ps: seq<string>, i: nat)
    requires i < |ps|
  {
    var rest := Concat(ps[i + 1..]);
    if i % 2 == 1 then |ps[i]| > 0 && DelimiterAt(sp, ps[i] + rest) == |ps[i]|
    else forall j :: 0 <= j < |ps[i]| ==> DelimiterAt(sp, ps[i][j..] + rest) == 0
  }

  ghost predicate WellSplit(sp: Splitter, ps: seq<string>)
  {
    forall i :: 0 <= i < |ps| ==> PieceOk(sp, ps, i)
  }

  lemma ConcatCons(a: string, ps: seq<string>)
    ensures Concat([a] + ps) == a + Concat(ps)
  {
    ConcatAppend([a], ps);
    assert [a][..0] == [];
    assert Concat([a]) == a;
  }

  lemma ConcatPair(a: string, b: string, rest: seq<string>)
    ensures Concat([a, b] + rest) == a + b + Concat(rest)
  {
    ConcatAppend([a, b], rest);
    assert [a, b][..1] == [a];
    assert [a][..0] == [];
    assert Concat([a]) == a;
    assert Concat([a, b]) == a + b;
  }

  lemma {:induction false} FieldsConcat(sp: Splitter, s: string, field: string)
    ensures Concat(Fields(sp, s, field)) == field + s
    decreases |s|
  {
    if s == [] {
      assert [field][..0] == [];
      assert Concat([field]) == field;
    } else if DelimiterAt(sp, s) > 0 {
      var n := DelimiterAt(sp, s);
      FieldsConcat(sp, s[n..], []);
      FieldsConcatAtDelimiter(sp, s, field, n);
    } else {
      FieldsConcat(sp, s[1..], field + [s[0]]);
      FieldsInText(sp, s, field);
      GrowField(field, s);
    }
  }

  lemma GrowField(field: string, s: string)
    requires s != []
    ensures field + [s[0]] + s[1..] == field + s
  {
    assert s == [s[0]] + s[1..];
  }

  lemma FieldsInText(sp: Splitter, s: string, field: string)
    requires s != [] && DelimiterAt(sp, s) == 0
    ensures Fields(sp, s, field) == Fields(sp, s[1..], field + [s[0]])
  {
  }

  lemma FieldsAtDelimiter(sp: Splitter, s: string, field: string, n: nat)
    requires n == DelimiterAt(sp, s) && n > 0
    ensures Fields(sp, s, field) == [field, s[..n]] + Fields(sp, s[n..], [])
  {
  }

  lemma FieldsConcatAtDelimiter(sp: Splitter, s: string, field: string, n: nat)
    requires n == DelimiterAt(sp, s) && n > 0
    requires Concat(Fields(sp, s[n..], [])) == s[n..]
    ensures Concat(Fields(sp, s, field)) == field + s
  {
    var rest := Fields(sp, s[n..], []);
    FieldsAtDelimiter(sp, s, field, n);
    ConcatPair(field, s[..n], rest);
    SliceJoin(s, n);
  }

  lemma {:induction false} FieldsShape(sp: Splitter, s: string, field: string)
    requires forall j :: 0 <= j < |field| ==> DelimiterAt(sp, field[j..] + s) == 0
    ensures WellSplit(sp, Fields(sp, s, field))
    decreases |s|
  {
    if s == [] {
      var r := Fields(sp, s, field);
      assert r == [field] && r[1..] == [];
      forall j | 0 <= j < |field| ensures DelimiterAt(sp, field[j..] + Concat(r[1..])) == 0 {
        assert field[j..] + s == field[j..] + Concat(r[1..]);
      }
      assert PieceOk(sp, r, 0);
    } else if DelimiterAt(sp, s) > 0 {
      var n := DelimiterAt(sp, s);
      FieldsShape(sp, s[n..], []);
      FieldsConcat(sp, s[n..], []);
      FieldsShapeAtDelimiter(sp, s, field, n);
    } else {
      var f := field + [s[0]];
      forall j | 0 <= j < |f| ensures DelimiterAt(sp, f[j..] + s[1..]) == 0 {
        if j < |field| {
          assert f[j..] + s[1..] == field[j..] + s;
        } else {
          assert f[j..] + s[1..] == s;
        }
      }
      FieldsShape(sp, s[1..], f);
      FieldsInText(sp, s, field);
    }
  }

  lemma FieldsShapeAtDelimiter(sp: Splitter, s: string, field: string, n: nat)
    requires n == DelimiterAt(sp, s) && n > 0
    requires forall j :: 0 <= j < |field| ==> DelimiterAt(sp, field[j..] + s) == 0
    requires WellSplit(sp, Fields(sp, s[n..], []))
    requires Concat(Fields(sp, s[n..], [])) == s[n..]
    ensures WellSplit(sp, Fields(sp, s, field))
  {
    var d, rest := s[..n], Fields(sp, s[n..], []);
    FieldsAtDelimiter(sp, s, field, n);
    SliceJoin(s, n);
    WellSplitCons(sp, field, d, rest, s);
  }

  lemma SliceJoin(s: string, n: nat)
    requires n <= |s|
    ensures s[..n] + s[n..] == s
  {
  }

  /** A split prefixed by a text piece and the delimiter after it. */
  lemma WellSplitCons(sp: Splitter, field: string, d: string, rest: seq<string>, t: string)
    requires WellSplit(sp, rest)
    requires t == d + Concat(rest)
    requires |d| > 0 && DelimiterAt(sp, t) == |d|
    requires forall j :: 0 <= j < |field| ==> DelimiterAt(sp, field[j..] + t) == 0
    ensures WellSplit(sp, [field, d] + rest)
  {
    var r := [field, d] + rest;
    assert r[1..] == [d] + rest;
    ConcatCons(d, rest);
    assert PieceOk(sp, r, 0);
    assert r[2..] == rest;
    assert PieceOk(sp, r, 1);
    forall i | 2 <= i < |r| ensures PieceOk(sp, r, i) {
      PieceOkShift(sp, [field, d], rest, i - 2);
    }
  }

  /** Putting two pieces in front of a split does not change how its pieces read. */
  lemma PieceOkShift(sp: Splitter, pre: seq<string>, rest: seq<string>, i: nat)
    requires |pre| == 2 && i < |rest| && PieceOk(sp, rest, i)
    ensures PieceOk(sp, pre + rest, i + 2)
  {
    var r := pre + rest;
    assert r[i + 2] == rest[i];
    assert r[i + 3..] == rest[i + 1..];
  }

  lemma DropTrailingEmptyConcat(ps: seq<string>)
    ensures Concat(DropTrailingEmpty(ps)) == Concat(ps)
  {
    var r := DropTrailingEmpty(ps);
    var tail := ps[|r|..];
    assert ps == r + tail;
    ConcatAppend(r, tail);
    EmptyConcat(tail);
  }

  lemma {:induction false} EmptyConcat(ps: seq<string>)
    requires forall i :: 0 <= i < |ps| ==> ps[i] == []
    ensures Concat(ps) == []
  {
    if ps != [] {
      EmptyConcat(ps[..|ps| - 1]);
    }
  }

  /** `split` with a capturing group loses nothing and follows the leftmost-match rule. */
  lemma SplitFacts(sp: Splitter, s: string)
    ensures Concat(DropTrailingEmpty(Fields(sp, s, []))) == s
    ensures WellSplit(sp, DropTrailingEmpty(Fields(sp, s, [])))
  {
    FieldsConcat(sp, s, []);
    DropTrailingEmptyConcat(Fields(sp, s, []));
    FieldsShape(sp, s, []);
    DropTrailingEmptyShape(sp, Fields(sp, s, []));
  }

  /** Dropping trailing empty pieces keeps the shape of a split. */
  lemma DropTrailingEmptyShape(sp: Splitter, ps: seq<string>)
    requires WellSplit(sp, ps)
    ensures WellSplit(sp, DropTrailingEmpty(ps))
  {
    var r := DropTrailingEmpty(ps);
    forall i | 0 <= i < |r| ensures PieceOk(sp, r, i) {
      PieceOkInPrefix(sp, ps, r, i);
    }
  }

  /** A piece keeps its shape when only empty pieces follow the prefix it is in. */
  lemma PieceOkInPrefix(sp: Splitter, ps: seq<string>, r: seq<string>, i: nat)
    requires i < |r| <= |ps| && r == ps[..|r|]
    requires forall k :: |r| <= k < |ps| ==> ps[k] == []
    requires PieceOk(sp, ps, i)
    ensures PieceOk(sp, r, i)
  {
    var tail := ps[|r|..];
    EmptyConcat(tail);
    assert ps[i + 1..] == r[i + 1..] + tail;
    ConcatAppend(r[i + 1..], tail);
    assert Concat(ps[i + 1..]) == Concat(r[i + 1..]);
  }

  /**
   * Each `.`, `!` or `?` is a piece of its own at an odd position, and the
   * pieces at even positions contain none of them.
   */
  lemma SplitSentencesShape(s: string)
    ensures forall i :: 0 <= i < |SplitSentences(s)| && i % 2 == 1 ==>
      SplitSentences(s)[i] in [".", "!", "?"]
    ensures forall i, j :: 0 <= i < |SplitSentences(s)| && i % 2 == 0 && 0 <= j < |SplitSentences(s)[i]| ==>
      SplitSentences(s)[i][j] !in ".!?"
  {
    var r := SplitSentences(s);
    forall i | 0 <= i < |r| && i % 2 == 1 ensures r[i] in [".", "!", "?"] {
      assert PieceOk(Sentences, r, i);
      var t := r[i] + Concat(r[i + 1..]);
      assert t[..|r[i]|] == r[i];
    }
    forall i, j | 0 <= i < |r| && i % 2 == 0 && 0 <= j < |r[i]| ensures r[i][j] !in ".!?" {
      assert PieceOk(Sentences, r, i);
      var t := r[i][j..] + Concat(r[i + 1..]);
      assert DelimiterAt(Sentences, t) == 0;
      assert t[0] == r[i][j];
    }
  }

  /**
   * `split_paragraphs` follows the leftmost-match rule. Each paragraph break
   * (`"\n\n"`, `"\r\r"` or `"\r\n\r\n"`) is a piece of its own at an odd
   * position, no break starts inside another piece, and the last piece is not empty.
   */
  lemma SplitParagraphsShape(s: string)
    ensures forall i :: 0 <= i < |SplitParagraphs(s)| && i % 2 == 1 ==>
      SplitParagraphs(s)[i] in ["\n\n", "\r\r", "\r\n\r\n"]
  {
    var r := SplitParagraphs(s);
    forall i | 0 <= i < |r| && i % 2 == 1 ensures r[i] in ["\n\n", "\r\r", "\r\n\r\n"] {
      assert PieceOk(Paragraphs, r, i);
      var t := r[i] + Concat(r[i + 1..]);
      assert t[..|r[i]|] == r[i];
    }
  }
}
