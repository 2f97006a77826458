/**
 * Learning a word: trie_add creates the missing path and the leaf, then trie_update bumps
 * the leaf's frequency and repairs the completion cache of every node from the word's own
 * node up to the root, stopping early when a full cache cannot take the word.
 */
module TrieUpdate {
  import opened PrefixTrie

  /** The outcome of the update loop body at one node. */
  datatype Step = Break | Continue(completions: Completions)

  /**
   * Puts `w` at slot k, shifting slots k.. one place back; a full cache loses its last
   * entry.
   */
  function InsertAt(c: Completions, w: Word, k: nat): (r: Completions)
    requires k <= |c| && (|c| < N || k < N)
    ensures |r| == if |c| < N then |c| + 1 else N
    ensures forall a :: 0 <= a < k ==> r[a] == c[a]
    ensures r[k] == w
    ensures forall a :: k < a < |r| ==> r[a] == c[a - 1]
  {
    var grown := c[..k] + [w] + c[k..];
    if |c| < N then grown else grown[..N]
  }

  /**
   * The backward scan over the occupied slots i, i-1, ..., 0. Less or equally frequent
   * other entries are skipped; the first more frequent one fixes the insertion slot just
   * after it; meeting `w` itself starts swapping it forward past entries that are not more
   * frequent, and the node is done once it cannot move.
   */
  function Scan(F: map<Word, nat>, c: Completions, w: Word, i: int): (r: Step)
    requires -1 <= i < |c|
    requires |c| < N || Freq(F, c[|c| - 1]) <= Freq(F, w)
    ensures r.Continue?
    decreases i + 1
  {
    if i < 0 then Continue(InsertAt(c, w, 0))
    else if c[i] != w && Freq(F, c[i]) <= Freq(F, w) then Scan(F, c, w, i - 1)
    else if c[i] != w then Continue(InsertAt(c, w, i + 1))
    else if i == 0 || Freq(F, c[i - 1]) > Freq(F, w) then Continue(c)
    else Scan(F, c[i - 1 := w][i := c[i - 1]], w, i - 1)
  }

  /**
   * One node of the upward walk: an empty cache takes the word in slot 0; a full cache
   * whose last entry is strictly more frequent ends the walk; otherwise the scan decides.
   */
  function StepCache(F: map<Word, nat>, c: Completions, w: Word): (r: Step)
    ensures r.Break? <==> |c| == N && Freq(F, c[N - 1]) > Freq(F, w)
  {
    if |c| == 0 then Continue([w])
    else if |c| == N && Freq(F, c[N - 1]) > Freq(F, w) then Break
    else Scan(F, c, w, |c| - 1)
  }

  /**
   * Repairs the caches of w[..k], w[..k-1], ..., w[..0] in that order, using the
   * frequencies already bumped; a Break leaves the node and all its ancestors as they are.
   */
  function Propagate(t: Trie, w: Word, k: nat): (r: Trie)
    requires k <= |w|
    requires forall j :: 0 <= j <= k ==> w[..j] in t.completions
    ensures r.frequency == t.frequency
    ensures r.completions.Keys == t.completions.Keys
    ensures forall p :: p in t.completions && !(IsPrefix(p, w) && |p| <= k) ==>
      r.completions[p] == t.completions[p]
    decreases k
  {
    var p := w[..k];
    match StepCache(t.frequency, t.completions[p], w)
    case Break => t
    case Continue(c) =>
      var t' := t.(completions := t.completions[p := c]);
      if k == 0 then t'
      else
        assert forall j :: 0 <= j <= k - 1 ==> w[..j] in t'.completions;
        Propagate(t', w, k - 1)
  }

  /** Raises the leaf's frequency by one and repairs the caches on its path to the root. */
  function Update(t: Trie, w: Word): (r: Trie)
    requires w in t.frequency
    requires forall j :: 0 <= j <= |w| ==> w[..j] in t.completions
    ensures r.frequency == t.frequency[w := t.frequency[w] + 1]
    ensures r.completions.Keys == t.completions.Keys
  {
    Propagate(t.(frequency := Bumped(t.frequency, w)), w, |w|)
  }

  /** The frequency map after one more occurrence of w (an absent word counts from 0). */
  function Bumped(F: map<Word, nat>, w: Word): map<Word, nat>
  {
    F[w := Freq(F, w) + 1]
  }

  /** The nodes on the path of w, root included. */
  function Prefixes(w: Word): set<Word>
  {
    PathFrom(w, 0)
  }

  /** The nodes on the path of w from depth j down. */
  function PathFrom(w: Word, j: nat): set<Word>
  {
    set i | j <= i <= |w| :: w[..i]
  }

  /**
   * The node for prefix p, allocated by trie_alloc_node (no leaf, no completions) and hooked
   * under its parent, unless it is already there.
   */
  function Alloc(t: Trie, p: Word): (r: Trie)
    ensures r.frequency == t.frequency
    ensures r.completions.Keys == t.completions.Keys + {p}
    ensures forall q :: q in t.completions ==> r.completions[q] == t.completions[q]
    ensures p !in t.completions ==> r.completions[p] == []
  {
    if p in t.completions then t else t.(completions := t.completions[p := AllocNode()])
  }

  /**
   * trie_add from depth j on: the nodes of w's path from depth j down are allocated where
   * missing, then the word's node gets a leaf and trie_update counts the occurrence.
   */
  function AddFrom(t: Trie, w: Word, j: nat): (r: Trie)
    requires IsWord(w) && j <= |w| + 1
    requires forall i :: 0 <= i < j ==> w[..i] in t.completions
    ensures r.frequency == t.frequency[w := Freq(t.frequency, w) + 1]
    ensures r.completions.Keys == t.completions.Keys + PathFrom(w, j)
    decreases |w| + 1 - j
  {
    if j <= |w| then
      assert PathFrom(w, j) == {w[..j]} + PathFrom(w, j + 1);
      AddFrom(Alloc(t, w[..j]), w, j + 1)
    else
      assert PathFrom(w, j) == {};
      Count(t, w)
  }

  /** The end of trie_add: the word's node gets a leaf if it has none, and trie_update counts it. */
  function Count(t: Trie, w: Word): (r: Trie)
    requires IsWord(w) && forall i :: 0 <= i <= |w| ==> w[..i] in t.completions
    ensures r.frequency == t.frequency[w := Freq(t.frequency, w) + 1]
    ensures r.completions.Keys == t.completions.Keys
  {
    var withLeaf := AddLeaf(t, w);
    assert withLeaf.frequency[w := withLeaf.frequency[w] + 1] == t.frequency[w := Freq(t.frequency, w) + 1];
    Update(withLeaf, w)
  }

  /**
   * Learns one occurrence of `w`: the word's count rises by exactly one (a new word gets a
   * leaf at 0 first), no other count changes, and the only nodes created are those of w's path.
   */
  function Add(t: Trie, w: Word): (r: Trie)
    requires IsWord(w)
    ensures r.frequency == t.frequency[w := Freq(t.frequency, w) + 1]
    ensures r.completions.Keys == t.completions.Keys + Prefixes(w)
  {
    AddFrom(t, w, 0)
  }

  /** Gives the word's node a leaf of frequency 0 unless it already has one. */
  function AddLeaf(t: Trie, w: Word): (r: Trie)
    ensures r.completions == t.completions
    ensures w in r.frequency && Freq(r.frequency, w) == Freq(t.frequency, w)
    ensures forall x :: x != w ==> (x in r.frequency <==> x in t.frequency)
    ensures forall x :: x != w && x in t.frequency ==> r.frequency[x] == t.frequency[x]
  {
    if w in t.frequency then t else t.(frequency := t.frequency[w := 0])
  }
}
