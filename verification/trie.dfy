/**
 * The ranked prefix trie: its state, the invariant every node's completion cache keeps,
 * and the read-only operations (node allocation, prefix query, the cache-order check).
 *
 * A node is identified by the prefix it spells, so the parent of node p is p minus its last
 * character (whose value is p's label) and the children of p are p + [letter]. A word is
 * stored when its node owns a leaf; the leaf is identified by the same string.
 */
module PrefixTrie {
  import opened Pointers
  import opened Ascii

  /** Capacity of every node's completion cache. */
  const N: nat := 5

  /** Children per node, one per lowercase letter. */
  const MaxChildren: nat := 26

  type Word = string

  /** The non-NULL slots of a node's completions array, front first. */
  type Completions = c: seq<Word> | |c| <= N

  /**
   * `completions` has one key per allocated node, mapped to its cache of leaves;
   * `frequency` has one key per leaf, mapped to its occurrence count.
   */
  datatype Trie = Trie(completions: map<Word, Completions>, frequency: map<Word, nat>)

  /** Only lowercase letters can be stored: each one selects one of the 26 children. */
  predicate IsWord(w: string) { IsLowerWord(w) }

  predicate IsPrefix(p: string, s: string) { |p| <= |s| && s[..|p|] == p }

  function Parent(p: Word): Word
    requires |p| > 0
  {
    p[..|p| - 1]
  }

  /** Occurrence count of a word, 0 for a word that has no leaf. */
  function Freq(F: map<Word, nat>, w: Word): nat
  {
    if w in F then F[w] else 0
  }

  predicate Distinct(c: seq<Word>)
  {
    forall i, j :: 0 <= i < j < |c| ==> c[i] != c[j]
  }

  /** Every entry is a stored word of p's subtree. */
  predicate Members(p: Word, c: Completions, F: map<Word, nat>)
  {
    forall i :: 0 <= i < |c| ==> c[i] in F && IsPrefix(p, c[i])
  }

  /** Entries are ordered by non-increasing frequency. */
  predicate ByFrequency(c: Completions, F: map<Word, nat>)
  {
    forall i, j :: 0 <= i < j < |c| ==> Freq(F, c[j]) <= Freq(F, c[i])
  }

  /**
   * A stored word of p's subtree is left out only when the cache is full and the word is
   * no more frequent than the last entry.
   */
  predicate TopN(p: Word, c: Completions, F: map<Word, nat>)
  {
    forall x :: x in F && IsPrefix(p, x) && x !in c ==> |c| == N && F[x] <= Freq(F, c[N - 1])
  }

  /**
   * What the cache `c` of node `p` must satisfy under the frequencies `F`: its entries
   * are distinct stored words of p's subtree, sorted by non-increasing frequency, and
   * together they are a top-N selection of the subtree.
   */
  predicate CacheOk(p: Word, c: Completions, F: map<Word, nat>)
  {
    Distinct(c) && Members(p, c, F) && ByFrequency(c, F) && TopN(p, c, F)
  }

  /** The shape of the pointer structure: a root, parent links and leaves hanging off nodes. */
  predicate Structured(t: Trie)
  {
    && "" in t.completions
    && (forall p :: p in t.completions ==> IsWord(p))
    && (forall p :: p in t.completions && |p| > 0 ==> Parent(p) in t.completions)
    && t.frequency.Keys <= t.completions.Keys
  }

  /** The invariant of a trie built by the operations: the structure and every cache. */
  predicate Valid(t: Trie)
  {
    && Structured(t)
    && (forall p {:trigger CacheOk(p, t.completions[p], t.frequency)} :: p in t.completions ==>
          CacheOk(p, t.completions[p], t.frequency))
  }

  /** A freshly allocated node has no leaf and only NULL completions. */
  function AllocNode(): (c: Completions)
    ensures |c| == 0
  {
    []
  }

  /** The trie right after initialisation: a root node and nothing else. */
  function Init(): (t: Trie)
    ensures Valid(t)
    ensures t.completions.Keys == {""} && t.frequency == map[]
  {
    Trie(map["" := AllocNode()], map[])
  }

  /** Every prefix of an allocated node is allocated too. */
  lemma {:induction false} AncestorsExist(t: Trie, p: Word, j: nat)
    requires Structured(t) && p in t.completions && j <= |p|
    ensures p[..j] in t.completions
    decreases |p| - j
  {
    if j < |p| {
      AncestorsExist(t, p, j + 1);
      assert Parent(p[..j + 1]) == p[..j];
    } else {
      assert p[..j] == p;
    }
  }

  /** Follows child links from the root along `prefix`, giving NULL at the first missing child. */
  function Lookup(t: Trie, prefix: Word, k: nat): (r: Nullable<Completions>)
    requires k <= |prefix| && prefix[..k] in t.completions
    ensures r.NonNull? ==> prefix in t.completions && r.value == t.completions[prefix]
    decreases |prefix| - k
  {
    if k == |prefix| then
      assert prefix[..k] == prefix;
      NonNull(t.completions[prefix])
    else if prefix[..k + 1] !in t.completions then Null
    else Lookup(t, prefix, k + 1)
  }

  /**
   * The prefix query: NULL when the path for `prefix` is absent, otherwise the node's cache
   * in order (trie_getword rebuilds each leaf's word; see TrieListing.GetWord).
   */
  function GetWords(t: Trie, prefix: Word): (r: Nullable<Completions>)
    requires IsWord(prefix) && "" in t.completions
    ensures r.NonNull? ==> prefix in t.completions && r.value == t.completions[prefix]
  {
    assert prefix[..0] == "";
    Lookup(t, prefix, 0)
  }

  /**
   * On a valid trie the query finds a node exactly when `prefix` is allocated, and every
   * returned word is a stored word that extends the prefix, most frequent first.
   */
  lemma GetWordsSound(t: Trie, prefix: Word)
    requires Valid(t) && IsWord(prefix)
    ensures GetWords(t, prefix).NonNull? <==> prefix in t.completions
    ensures GetWords(t, prefix).NonNull? ==>
      var ws := GetWords(t, prefix).value;
      && (forall i :: 0 <= i < |ws| ==> ws[i] in t.frequency && IsPrefix(prefix, ws[i]))
      && (forall i, j :: 0 <= i < j < |ws| ==> t.frequency[ws[j]] <= t.frequency[ws[i]])
      && (forall i, j :: 0 <= i < j < |ws| ==> ws[i] != ws[j])
      && (forall x :: x in t.frequency && IsPrefix(prefix, x) && x !in ws ==>
            |ws| == N && t.frequency[x] <= t.frequency[ws[N - 1]])
  {
    if prefix in t.completions {
      LookupFinds(t, prefix, 0);
      assert CacheOk(prefix, t.completions[prefix], t.frequency);
    }
  }

  lemma {:induction false} LookupFinds(t: Trie, prefix: Word, k: nat)
    requires Structured(t) && prefix in t.completions && k <= |prefix|
    ensures prefix[..k] in t.completions
    ensures Lookup(t, prefix, k) == NonNull(t.completions[prefix])
    decreases |prefix| - k
  {
    AncestorsExist(t, prefix, k);
    if k < |prefix| {
      AncestorsExist(t, prefix, k + 1);
      LookupFinds(t, prefix, k + 1);
    }
  }

  /** Frequency of slot i of the C array: -1 for a NULL slot. */
  function SlotFreq(F: map<Word, nat>, c: Completions, i: nat): int
  {
    if i < |c| then Freq(F, c[i]) else -1
  }

  /** The slot frequencies of one node's C array (NULL counting as -1) never increase. */
  predicate SlotsNonIncreasing(F: map<Word, nat>, c: Completions)
  {
    forall i :: 0 < i < N ==> SlotFreq(F, c, i) <= SlotFreq(F, c, i - 1)
  }

  /**
   * The debugging check run after every learned word: at every node, the slot frequencies
   * (NULL counting as -1) never increase from front to back. It passes exactly when every
   * cache is sorted by frequency: the NULL slots trail by construction.
   */
  predicate CheckFreq(t: Trie): (ok: bool)
    ensures ok <==> forall p :: p in t.completions ==> ByFrequency(t.completions[p], t.frequency)
  {
    SlotsOrderEverywhere(t);
    forall p :: p in t.completions ==> SlotsNonIncreasing(t.frequency, t.completions[p])
  }

  lemma SlotsOrderEverywhere(t: Trie)
    ensures forall p :: p in t.completions ==>
      (SlotsNonIncreasing(t.frequency, t.completions[p]) <==> ByFrequency(t.completions[p], t.frequency))
  {
    forall p | p in t.completions
      ensures SlotsNonIncreasing(t.frequency, t.completions[p]) <==> ByFrequency(t.completions[p], t.frequency)
    {
      SlotsOrder(t.frequency, t.completions[p]);
    }
  }

  /** Adjacent slots in order is the same as the whole cache in order. */
  lemma SlotsOrder(F: map<Word, nat>, c: Completions)
    ensures SlotsNonIncreasing(F, c) <==> ByFrequency(c, F)
  {
    if SlotsNonIncreasing(F, c) {
      forall i, j | 0 <= i < j < |c|
        ensures Freq(F, c[j]) <= Freq(F, c[i])
      {
        SlotsChain(F, c, i, j);
      }
    }
    if ByFrequency(c, F) {
      forall i | 0 < i < N
        ensures SlotFreq(F, c, i) <= SlotFreq(F, c, i - 1)
      {
        if i < |c| {
          assert Freq(F, c[i]) <= Freq(F, c[i - 1]);
        }
      }
    }
  }

  /** Non-increasing adjacent slots chain into any two slots. */
  lemma {:induction false} SlotsChain(F: map<Word, nat>, c: Completions, i: nat, j: nat)
    requires SlotsNonIncreasing(F, c) && i <= j < |c|
    ensures Freq(F, c[j]) <= Freq(F, c[i])
    decreases j - i
  {
    if i < j {
      SlotsChain(F, c, i, j - 1);
      assert SlotFreq(F, c, j) <= SlotFreq(F, c, j - 1);
    }
  }

  lemma ValidPassesCheckFreq(t: Trie)
    requires Valid(t)
    ensures CheckFreq(t)
  {
    forall p | p in t.completions
      ensures ByFrequency(t.completions[p], t.frequency)
    {
      assert CacheOk(p, t.completions[p], t.frequency);
    }
  }
}
