/**
 * The bookkeeping of the multinomial Naive Bayes classifier (after Manning,
 * Raghavan and Schuetze, "Introduction to Information Retrieval"): which labels
 * are registered, how many documents each label was trained on, how often each
 * word occurred in each label's training text, and a cache of derived
 * quantities that every change to the document counts clears. The
 * floating-point scoring that reads this state is not modelled.
 */
module Bayes {

  type Label = string
  type Word = string

  /** A word-count table, `Hash.new(0)`: an absent word reads as 0. */
  type WordTable = map<Word, int>

  datatype Option<T> = None | Some(value: T)

  /** `Reclassifier::UnknownClassificationError`. */
  datatype Error = UnknownClassification(classification: Label)

  datatype Outcome = Pass | Fail(error: Error)

  /**
   * The entries `calculate_scores` stores in the cache. That scoring is not
   * modelled, so no operation here creates them; they give the non-empty hash
   * that `cache_set?` looks for.
   */
  datatype CacheKey = TotalDocsClassifiedLog | WordsClassified

  /** `@cache`: `nil` until first invalidated, then a hash whose populated keys are recorded. */
  datatype Cache = Nil | Entries(keys: set<CacheKey>)

  /** Reading a table with default 0. */
  function Count(t: map<Word, int>, w: Word): int
  {
    if w in t then t[w] else 0
  }

  // ---------------------------------------------------------------------------
  // Word tables
  // ---------------------------------------------------------------------------

  /** The table after `table[word] += count` for every entry of the word hash `wh`. */
  function Trained(t: WordTable, wh: WordTable): WordTable
  {
    map w | w in t.Keys + wh.Keys :: Count(t, w) + Count(wh, w)
  }

  /** The table after `table[word] -= count if table.include?(word)` for every entry of `wh`. */
  function Untrained(t: WordTable, wh: WordTable): WordTable
  {
    map w | w in t.Keys :: t[w] - Count(wh, w)
  }

  /** The entries of `wh` at the keys in `ks`: the part of the word hash already visited. */
  function Restrict(wh: WordTable, ks: set<Word>): WordTable
    requires ks <= wh.Keys
  {
    map w | w in ks :: wh[w]
  }

  /** Training adds every count of the word hash to the table, and inserts the words it did not have. */
  lemma TrainedCounts(t: WordTable, wh: WordTable)
    ensures Trained(t, wh).Keys == t.Keys + wh.Keys
    ensures forall w :: Count(Trained(t, wh), w) == Count(t, w) + Count(wh, w)
  {
  }

  /** Untraining never inserts a word; it subtracts only at words the table already has. */
  lemma UntrainedCounts(t: WordTable, wh: WordTable)
    ensures Untrained(t, wh).Keys == t.Keys
    ensures forall w :: Count(Untrained(t, wh), w) == if w in t then t[w] - Count(wh, w) else 0
  {
  }

  /**
   * Untraining the text just trained restores every count (absent words read
   * as 0); the words the training introduced stay in the table with count 0.
   */
  lemma TrainThenUntrain(t: WordTable, wh: WordTable)
    ensures forall w :: Count(Untrained(Trained(t, wh), wh), w) == Count(t, w)
    ensures Untrained(Trained(t, wh), wh).Keys == t.Keys + wh.Keys
    ensures forall w :: w in wh && w !in t ==> Untrained(Trained(t, wh), wh)[w] == 0
  {
    TrainedCounts(t, wh);
    UntrainedCounts(Trained(t, wh), wh);
  }

  /** Training two texts under one label gives the same table in either order. */
  lemma TrainCommutes(t: WordTable, a: WordTable, b: WordTable)
    ensures Trained(Trained(t, a), b) == Trained(Trained(t, b), a)
  {
    TrainedCounts(t, a);
    TrainedCounts(t, b);
    TrainedCounts(Trained(t, a), b);
    TrainedCounts(Trained(t, b), a);
  }

  /** One more visited entry of the word hash is one more `+=` on the table. */
  lemma TrainedStep(t: WordTable, wh: WordTable, done: set<Word>, w: Word)
    requires done <= wh.Keys && w in wh && w !in done
    ensures Trained(t, Restrict(wh, done + {w})) ==
      Trained(t, Restrict(wh, done))[w := Count(Trained(t, Restrict(wh, done)), w) + wh[w]]
  {
  }

  /** One more visited entry of the word hash is one more guarded `-=` on the table. */
  lemma UntrainedStep(t: WordTable, wh: WordTable, done: set<Word>, w: Word)
    requires done <= wh.Keys && w in wh && w !in done
    ensures Untrained(t, Restrict(wh, done + {w})) ==
      var u := Untrained(t, Restrict(wh, done));
      if w in u then u[w := u[w] - wh[w]] else u
  {
  }

  /**
   * The loop of `train`: `@classifications[classification][word] += count` for
   * each entry of the word hash, in whatever order the hash is visited.
   */
  method AddWordCounts(table: WordTable, wh: WordTable) returns (r: WordTable)
    ensures r == Trained(table, wh)
  {
    r := table;
    var pending := wh.Keys;
    assert Restrict(wh, {}) == map[];
    assert Trained(table, map[]) == table;
    while pending != {}
      invariant pending <= wh.Keys
      invariant r == Trained(table, Restrict(wh, wh.Keys - pending))
      decreases pending
    {
      var word :| word in pending;
      ghost var done := wh.Keys - pending;
      TrainedStep(table, wh, done, word);
      r := r[word := Count(r, word) + wh[word]];
      pending := pending - {word};
      assert wh.Keys - pending == done + {word};
    }
    assert wh.Keys - pending == wh.Keys;
    assert Restrict(wh, wh.Keys) == wh;
  }

  /**
   * The loop of `untrain`: `@classifications[classification][word] -= count` for
   * each entry of the word hash that the table already has.
   */
  method SubtractWordCounts(table: WordTable, wh: WordTable) returns (r: WordTable)
    ensures r == Untrained(table, wh)
  {
    r := table;
    var pending := wh.Keys;
    assert Restrict(wh, {}) == map[];
    assert Untrained(table, map[]) == table;
    while pending != {}
      invariant pending <= wh.Keys
      invariant r == Untrained(table, Restrict(wh, wh.Keys - pending))
      decreases pending
    {
      var word :| word in pending;
      ghost var done := wh.Keys - pending;
      UntrainedStep(table, wh, done, word);
      if word in r {
        r := r[word := r[word] - wh[word]];
      }
      pending := pending - {word};
      assert wh.Keys - pending == done + {word};
    }
    assert wh.Keys - pending == wh.Keys;
    assert Restrict(wh, wh.Keys) == wh;
  }

  // ---------------------------------------------------------------------------
  // Registered labels, in the insertion order of the `@classifications` hash
  // ---------------------------------------------------------------------------

  predicate Distinct(s: seq<Label>)
  {
    forall i, j :: 0 <= i < j < |s| ==> s[i] != s[j]
  }

  /** Storing a key in a hash: a new key goes last, an existing key keeps its place. */
  function AddLabel(order: seq<Label>, c: Label): seq<Label>
  {
    if c in order then order else order + [c]
  }

  /** Deleting a key from a hash: the others keep their order. */
  function RemoveLabel(order: seq<Label>, c: Label): seq<Label>
  {
    if order == [] then []
    else (if order[0] == c then [] else [order[0]]) + RemoveLabel(order[1..], c)
  }

  /** The key order after registering `labels` one after another, as the constructor does. */
  function Registered(labels: seq<Label>): seq<Label>
  {
    if labels == [] then [] else AddLabel(Registered(labels[..|labels| - 1]), labels[|labels| - 1])
  }

  /** Adding makes the label a member, keeps the others, and keeps the order free of duplicates. */
  lemma AddLabelFacts(order: seq<Label>, c: Label)
    ensures forall l :: l in AddLabel(order, c) <==> l in order || l == c
    ensures Distinct(order) ==> Distinct(AddLabel(order, c))
    ensures AddLabel(AddLabel(order, c), c) == AddLabel(order, c)
  {
  }

  /** Removing takes exactly that label out and keeps the order free of duplicates. */
  lemma {:induction false} RemoveLabelFacts(order: seq<Label>, c: Label)
    ensures forall l :: l in RemoveLabel(order, c) <==> l in order && l != c
    ensures Distinct(order) ==> Distinct(RemoveLabel(order, c))
    ensures c !in order ==> RemoveLabel(order, c) == order
  {
    if order != [] {
      RemoveLabelFacts(order[1..], c);
      var head: seq<Label> := if order[0] == c then [] else [order[0]];
      var rest := RemoveLabel(order[1..], c);
      if Distinct(order) {
        assert order[0] !in order[1..];
        assert Distinct(order[1..]) by {
          forall i, j | 0 <= i < j < |order[1..]| ensures order[1..][i] != order[1..][j] {
            assert order[1..][i] == order[i + 1] && order[1..][j] == order[j + 1];
          }
        }
        assert forall x :: x in head ==> x !in rest;
        DistinctAppend(head, rest);
      }
    }
  }

  lemma DistinctAppend(s: seq<Label>, t: seq<Label>)
    requires Distinct(s) && Distinct(t)
    requires forall x :: x in s ==> x !in t
    ensures Distinct(s + t)
  {
    forall i, j | 0 <= i < j < |s + t| ensures (s + t)[i] != (s + t)[j] {
      if i < |s| && j >= |s| {
        assert (s + t)[i] in s && (s + t)[j] == t[j - |s|];
      }
    }
  }

  /** Adding a new label and removing it again gives back the label order from before. */
  lemma AddThenRemove(order: seq<Label>, c: Label)
    requires c !in order
    ensures RemoveLabel(AddLabel(order, c), c) == order
  {
    RemoveLabelAppend(order, c);
  }

  lemma {:induction false} RemoveLabelAppend(order: seq<Label>, c: Label)
    requires c !in order
    ensures RemoveLabel(order + [c], c) == order
  {
    if order != [] {
      assert (order + [c])[1..] == order[1..] + [c];
      RemoveLabelAppend(order[1..], c);
    } else {
      assert RemoveLabel([c], c) == [] + RemoveLabel([], c);
    }
  }

  /** Adding two labels gives the same set of labels in either order. */
  lemma AddLabelCommutes(order: seq<Label>, a: Label, b: Label)
    ensures forall l :: l in AddLabel(AddLabel(order, a), b) <==> l in AddLabel(AddLabel(order, b), a)
  {
    AddLabelFacts(order, a);
    AddLabelFacts(order, b);
    AddLabelFacts(AddLabel(order, a), b);
    AddLabelFacts(AddLabel(order, b), a);
  }

  lemma RegisteredNext(labels: seq<Label>, i: nat)
    requires i < |labels|
    ensures Registered(labels[..i + 1]) == AddLabel(Registered(labels[..i]), labels[i])
    ensures forall l :: l in labels[..i + 1] <==> l in labels[..i] || l == labels[i]
  {
    assert labels[..i + 1] == labels[..i] + [labels[i]];
    assert labels[..i + 1][..i] == labels[..i];
  }

  /** `@classifications[classification]` on the next label creates its empty table if it is new. */
  lemma RegisterTableStep(labels: seq<Label>, i: nat, tables: map<Label, WordTable>)
    requires i < |labels|
    requires forall l :: l in tables <==> l in labels[..i]
    requires forall l :: l in tables ==> tables[l] == map[]
    ensures var t := if labels[i] in tables then tables else tables[labels[i] := map[]];
      (forall l :: l in t <==> l in labels[..i + 1]) && forall l :: l in t ==> t[l] == map[]
  {
    RegisteredNext(labels, i);
  }

  /** The constructor registers exactly the given labels, each once, in order of first appearance. */
  lemma {:induction false} RegisteredFacts(labels: seq<Label>)
    ensures Distinct(Registered(labels))
    ensures forall l :: l in Registered(labels) <==> l in labels
  {
    if labels != [] {
      var init := labels[..|labels| - 1];
      RegisteredFacts(init);
      AddLabelFacts(Registered(init), labels[|labels| - 1]);
      assert labels == init + [labels[|labels| - 1]];
    }
  }

  // ---------------------------------------------------------------------------
  // The classifier
  // ---------------------------------------------------------------------------

  /** `Reclassifier::Bayes`. */
  class Classifier {
    /** `@classifications`: label to word-count table. */
    var classifications: map<Label, WordTable>
    /** The key order of `@classifications`. */
    var labelOrder: seq<Label>
    /** `@docs_in_classification_count`, `Hash.new(0)`. */
    var docsInClassificationCount: map<Label, int>
    /** `@cache`. */
    var cache: Cache
    /** The `:clean` entry of `@options`, if given. */
    const clean: Option<bool>
    /** `word_hash` of the `Reclassifier::WordHash` mixin: text to word counts, punctuation kept. */
    const wordHash: string -> WordTable
    /** `clean_word_hash` of the `Reclassifier::WordHash` mixin: text to word counts, punctuation dropped. */
    const cleanWordHash: string -> WordTable

    /** The key order lists each registered label exactly once. */
    ghost predicate Valid()
      reads this
    {
      Distinct(labelOrder) && forall l :: l in labelOrder <==> l in classifications
    }

    /**
     * `initialize(classifications = [], options = {})`: each given label is
     * registered with an empty word table; no document counts, no cache. With
     * no labels and no options, nothing is registered and `:clean` is absent.
     */
    constructor (wordHash: string -> WordTable, cleanWordHash: string -> WordTable,
                 labels: seq<Label> := [], clean: Option<bool> := None)
      ensures Valid()
      ensures labelOrder == Registered(labels)
      ensures forall l :: l in classifications <==> l in labels
      ensures forall l :: l in classifications ==> classifications[l] == map[]
      ensures docsInClassificationCount == map[] && cache == Nil
      ensures this.clean == clean && this.wordHash == wordHash && this.cleanWordHash == cleanWordHash
    {
      this.clean := clean;
      this.wordHash := wordHash;
      this.cleanWordHash := cleanWordHash;
      classifications := map[];
      labelOrder := [];
      docsInClassificationCount := map[];
      cache := Nil;
      new;
      var i := 0;
      while i < |labels|
        invariant 0 <= i <= |labels|
        invariant labelOrder == Registered(labels[..i])
        invariant forall l :: l in classifications <==> l in labels[..i]
        invariant forall l :: l in classifications ==> classifications[l] == map[]
        invariant docsInClassificationCount == map[] && cache == Nil
      {
        var c := labels[i];
        RegisteredNext(labels, i);
        RegisterTableStep(labels, i, classifications);
        if c !in classifications {
          classifications := classifications[c := map[]];
        }
        labelOrder := AddLabel(labelOrder, c);
        i := i + 1;
      }
      assert labels[..i] == labels;
      RegisteredFacts(labels);
    }

    /** `classifications`: the registered labels, each once, in registration order. */
    function Classifications(): (r: seq<Label>)
      reads this
      requires Valid()
      ensures Distinct(r)
      ensures forall l :: l in r <==> l in classifications
    {
      labelOrder
    }

    /** `cache_set?`: `@cache.present?`, false for `nil` and for an empty hash. */
    predicate CacheSet(): (r: bool)
      reads this
      ensures r ==> cache.Entries? && cache != Entries({})
    {
      cache.Entries? && cache.keys != {}
    }

    /** `invalidate_cache`: the cache becomes an empty hash. */
    method InvalidateCache()
      modifies this
      ensures cache == Entries({}) && !CacheSet()
      ensures classifications == old(classifications) && labelOrder == old(labelOrder)
      ensures docsInClassificationCount == old(docsInClassificationCount)
    {
      cache := Entries({});
    }

    /** `update_doc_count`: add `value` to the label's document count, then clear the cache. */
    method UpdateDocCount(c: Label, value: int)
      modifies this
      ensures docsInClassificationCount ==
        old(docsInClassificationCount)[c := Count(old(docsInClassificationCount), c) + value]
      ensures cache == Entries({})
      ensures classifications == old(classifications) && labelOrder == old(labelOrder)
    {
      docsInClassificationCount :=
        docsInClassificationCount[c := Count(docsInClassificationCount, c) + value];
      InvalidateCache();
    }

    /** `ensure_classification_exists`: fails with UnknownClassification for a label not registered. */
    method EnsureClassificationExists(c: Label) returns (r: Outcome)
      ensures r.Pass? <==> c in classifications
      ensures r.Fail? ==> r.error == UnknownClassification(c)
    {
      if c !in classifications {
        return Fail(UnknownClassification(c));
      }
      return Pass;
    }

    /**
     * `smart_word_hash`: punctuation is kept only when the `:clean` option is
     * exactly `false`; by default the clean table is used.
     */
    function SmartWordHash(text: string): (r: WordTable)
      ensures clean == Some(false) ==> r == wordHash(text)
      ensures clean != Some(false) ==> r == cleanWordHash(text)
    {
      if clean == Some(false) then wordHash(text) else cleanWordHash(text)
    }

    /**
     * `train(classification, text)`: for an unregistered label, fail before any
     * counter is touched; otherwise count one more document for the label, clear
     * the cache and add the text's word counts to the label's table.
     */
    method Train(c: Label, text: string) returns (r: Outcome)
      requires Valid()
      modifies this
      ensures Valid()
      ensures r.Pass? <==> c in old(classifications)
      ensures r.Fail? ==> r.error == UnknownClassification(c)
      ensures r.Fail? ==> (classifications == old(classifications) && labelOrder == old(labelOrder)
        && docsInClassificationCount == old(docsInClassificationCount) && cache == old(cache))
      ensures r.Pass? ==> (classifications ==
        old(classifications)[c := Trained(old(classifications)[c], SmartWordHash(text))])
      ensures r.Pass? ==> labelOrder == old(labelOrder)
      ensures r.Pass? ==> (docsInClassificationCount ==
        old(docsInClassificationCount)[c := Count(old(docsInClassificationCount), c) + 1])
      ensures r.Pass? ==> cache == Entries({}) && !CacheSet()
    {
      r := EnsureClassificationExists(c);
      if r.Fail? {
        return;
      }
      UpdateDocCount(c, 1);
      var table := AddWordCounts(classifications[c], SmartWordHash(text));
      classifications := classifications[c := table];
    }

    /**
     * `untrain(classification, text)`: for an unregistered label, fail before any
     * counter is touched; otherwise count one document fewer for the label, clear
     * the cache and subtract the text's word counts at the words the label's
     * table already has.
     */
    method Untrain(c: Label, text: string) returns (r: Outcome)
      requires Valid()
      modifies this
      ensures Valid()
      ensures r.Pass? <==> c in old(classifications)
      ensures r.Fail? ==> r.error == UnknownClassification(c)
      ensures r.Fail? ==> (classifications == old(classifications) && labelOrder == old(labelOrder)
        && docsInClassificationCount == old(docsInClassificationCount) && cache == old(cache))
      ensures r.Pass? ==> (classifications ==
        old(classifications)[c := Untrained(old(classifications)[c], SmartWordHash(text))])
      ensures r.Pass? ==> labelOrder == old(labelOrder)
      ensures r.Pass? ==> (docsInClassificationCount ==
        old(docsInClassificationCount)[c := Count(old(docsInClassificationCount), c) - 1])
      ensures r.Pass? ==> cache == Entries({}) && !CacheSet()
    {
      r := EnsureClassificationExists(c);
      if r.Fail? {
        return;
      }
      UpdateDocCount(c, -1);
      var table := SubtractWordCounts(classifications[c], SmartWordHash(text));
      classifications := classifications[c := table];
    }

    /**
     * `add_classification(classification)`: returns the label and stores an
     * empty table for it. A label already registered keeps its place but loses
     * its word counts. Document counts and the cache are not touched.
     */
    method AddClassification(c: Label) returns (r: Label)
      requires Valid()
      modifies this
      ensures Valid()
      ensures r == c && c in classifications
      ensures classifications == old(classifications)[c := map[]]
      ensures labelOrder == AddLabel(old(labelOrder), c)
      ensures docsInClassificationCount == old(docsInClassificationCount) && cache == old(cache)
    {
      AddLabelFacts(labelOrder, c);
      classifications := classifications[c := map[]];
      labelOrder := AddLabel(labelOrder, c);
      return c;
    }

    /**
     * `remove_classification(classification)`: returns the label if it was
     * registered and `nil` otherwise, and deletes it. Its document count and the
     * cache are not touched.
     */
    method RemoveClassification(c: Label) returns (r: Option<Label>)
      requires Valid()
      modifies this
      ensures Valid()
      ensures r == if c in old(classifications) then Some(c) else None
      ensures c !in classifications
      ensures classifications == old(classifications) - {c}
      ensures labelOrder == RemoveLabel(old(labelOrder), c)
      ensures docsInClassificationCount == old(docsInClassificationCount) && cache == old(cache)
    {
      r := if c in classifications then Some(c) else None;
      RemoveLabelFacts(labelOrder, c);
      classifications := classifications - {c};
      labelOrder := RemoveLabel(labelOrder, c);
    }
  }

  /**
   * Training a text and then untraining it restores the label's document count
   * and every word count, and leaves every other label as it was.
   */
  method TrainThenUntrainRestores(b: Classifier, c: Label, text: string)
    requires b.Valid() && c in b.classifications
    modifies b
    ensures b.Valid()
    ensures b.labelOrder == old(b.labelOrder) && b.classifications.Keys == old(b.classifications.Keys)
    ensures Count(b.docsInClassificationCount, c) == Count(old(b.docsInClassificationCount), c)
    ensures forall w :: Count(b.classifications[c], w) == Count(old(b.classifications[c]), w)
    ensures forall l :: l in b.classifications && l != c ==> b.classifications[l] == old(b.classifications[l])
    ensures forall l :: l != c ==> Count(b.docsInClassificationCount, l) == Count(old(b.docsInClassificationCount), l)
    ensures !b.CacheSet()
  {
    var r := b.Train(c, text);
    r := b.Untrain(c, text);
    TrainThenUntrain(old(b.classifications[c]), b.SmartWordHash(text));
  }

  /** The tables after training label `c` on a text whose word hash is `h`. */
  function TrainedAt(tables: map<Label, WordTable>, c: Label, h: WordTable): map<Label, WordTable>
    requires c in tables
  {
    tables[c := Trained(tables[c], h)]
  }

  /** The document counts after counting one more document for `c`. */
  function Incremented(docs: map<Label, int>, c: Label): map<Label, int>
  {
    docs[c := Count(docs, c) + 1]
  }

  /**
   * Training two documents gives the same classifier in either order: the word
   * tables and the document counts are those that training the second document
   * first would give.
   */
  method TrainTwice(b: Classifier, c1: Label, t1: string, c2: Label, t2: string)
    requires b.Valid() && c1 in b.classifications && c2 in b.classifications
    modifies b
    ensures b.Valid()
    ensures b.labelOrder == old(b.labelOrder)
    ensures b.docsInClassificationCount == Incremented(Incremented(old(b.docsInClassificationCount), c2), c1)
    ensures c2 in old(b.classifications) && c1 in TrainedAt(old(b.classifications), c2, b.SmartWordHash(t2))
    ensures b.classifications ==
      TrainedAt(TrainedAt(old(b.classifications), c2, b.SmartWordHash(t2)), c1, b.SmartWordHash(t1))
    ensures !b.CacheSet()
  {
    ghost var table0, docs0 := b.classifications, b.docsInClassificationCount;
    ghost var h1, h2 := b.SmartWordHash(t1), b.SmartWordHash(t2);
    var r := b.Train(c1, t1);
    ghost var table1, docs1 := b.classifications, b.docsInClassificationCount;
    assert table1 == TrainedAt(table0, c1, h1) && docs1 == Incremented(docs0, c1);
    r := b.Train(c2, t2);
    assert b.classifications == TrainedAt(table1, c2, h2) && b.docsInClassificationCount == Incremented(docs1, c2);
    TrainingCommutes(table0, docs0, c1, h1, c2, h2);
  }

  /**
   * Training label `c1` on word hash `h1` and label `c2` on `h2` gives the same
   * tables and document counts in either order, whether or not the labels differ.
   */
  lemma TrainingCommutes(tables: map<Label, WordTable>, docs: map<Label, int>,
                         c1: Label, h1: WordTable, c2: Label, h2: WordTable)
    requires c1 in tables && c2 in tables
    ensures TrainedAt(TrainedAt(tables, c1, h1), c2, h2) == TrainedAt(TrainedAt(tables, c2, h2), c1, h1)
    ensures Incremented(Incremented(docs, c1), c2) == Incremented(Incremented(docs, c2), c1)
  {
    if c1 == c2 {
      TrainCommutes(tables[c1], h1, h2);
    } else {
      UpdatesCommute(tables, c1, Trained(tables[c1], h1), c2, Trained(tables[c2], h2));
    }
  }

  lemma UpdatesCommute(m: map<Label, WordTable>, a: Label, x: WordTable, b: Label, y: WordTable)
    requires a != b
    ensures m[a := x][b := y] == m[b := y][a := x]
  {
  }
}
