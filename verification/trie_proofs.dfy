/**
 * The update keeps the trie valid: after every trie_add, every cache is a sorted top-N
 * selection of its subtree, which is what trie_checkfreq asserts.
 */
module TrieProofs {
  import opened PrefixTrie
  import opened TrieUpdate


  function SetOf(s: seq<Word>): set<Word>
  {
    set x | x in s
  }

  lemma {:induction false} SetOfCard(s: seq<Word>)
    ensures |SetOf(s)| <= |s|
    ensures Distinct(s) ==> |SetOf(s)| == |s|
  {
    if |s| > 0 {
      var init := s[..|s| - 1];
      SetOfCard(init);
      assert SetOf(s) == SetOf(init) + {s[|s| - 1]};
      if Distinct(s) {
        assert Distinct(init);
        assert s[|s| - 1] !in SetOf(init);
      }
    } else {
      assert SetOf(s) == {};
    }
  }

  lemma PrefixTransitive(a: string, b: string, c: string)
    requires IsPrefix(a, b) && IsPrefix(b, c)
    ensures IsPrefix(a, c)
  {
    assert c[..|a|] == c[..|b|][..|a|];
  }

  /** A cache outside the word's path sees no change from the bump. */
  lemma CacheOkOffPath(p: Word, c: Completions, F: map<Word, nat>, w: Word)
    requires CacheOk(p, c, F) && !IsPrefix(p, w)
    ensures CacheOk(p, c, Bumped(F, w))
  {
    var F' := Bumped(F, w);
    assert forall i :: 0 <= i < |c| ==> c[i] != w && Freq(F', c[i]) == Freq(F, c[i]);
  }

  /** A cache that does not hold the word keeps its order under the bump. */
  lemma ByFrequencyWithout(c: Completions, F: map<Word, nat>, w: Word)
    requires ByFrequency(c, F) && w !in c
    ensures ByFrequency(c, Bumped(F, w))
    ensures forall a :: 0 <= a < |c| ==> Freq(Bumped(F, w), c[a]) == Freq(F, c[a])
  {
  }

  /** Which words InsertAt keeps and drops. */
  lemma InsertShape(c: Completions, w: Word, k: nat)
    requires Distinct(c) && w !in c
    requires k <= |c| && (|c| < N || k < N)
    ensures Distinct(InsertAt(c, w, k))
    ensures forall a :: 0 <= a < |InsertAt(c, w, k)| ==>
      InsertAt(c, w, k)[a] == w || InsertAt(c, w, k)[a] in c
    ensures forall x :: x in c && x !in InsertAt(c, w, k) ==> |c| == N && x == c[N - 1]
  {
    var r := InsertAt(c, w, k);
    forall a, b | 0 <= a < b < |r|
      ensures r[a] != r[b]
    {
      if b < k {
      } else if b == k {
        assert r[a] == c[a];
      } else if a == k {
        assert r[b] == c[b - 1];
      } else if a < k {
        assert r[a] == c[a] && r[b] == c[b - 1];
      } else {
        assert r[a] == c[a - 1] && r[b] == c[b - 1];
      }
    }
    forall a | 0 <= a < |r|
      ensures r[a] == w || r[a] in c
    {
      if a < k { assert r[a] == c[a]; } else if a > k { assert r[a] == c[a - 1]; }
    }
    forall m | 0 <= m < |c| && !(|c| == N && m == N - 1)
      ensures c[m] in r
    {
      if m < k { assert r[m] == c[m]; } else { assert r[m + 1] == c[m]; }
    }
  }

  /** InsertAt at the slot splitting more from less frequent entries keeps the order. */
  lemma InsertOrder(c: Completions, w: Word, k: nat, G: map<Word, nat>)
    requires ByFrequency(c, G)
    requires k <= |c| && (|c| < N || k < N)
    requires forall a :: 0 <= a < k ==> Freq(G, c[a]) > Freq(G, w)
    requires forall b :: k <= b < |c| ==> Freq(G, c[b]) <= Freq(G, w)
    ensures ByFrequency(InsertAt(c, w, k), G)
    ensures |c| == N ==> Freq(G, InsertAt(c, w, k)[N - 1]) >= Freq(G, c[N - 1])
  {
    var r := InsertAt(c, w, k);
    forall a, b | 0 <= a < b < |r|
      ensures Freq(G, r[b]) <= Freq(G, r[a])
    {
      InsertPairOrder(c, w, k, G, a, b);
    }
    if |c| == N && k < N - 1 {
      assert r[N - 1] == c[N - 2];
    }
  }

  /** One pair of slots after InsertAt: the earlier one is at least as frequent. */
  lemma InsertPairOrder(c: Completions, w: Word, k: nat, G: map<Word, nat>, a: nat, b: nat)
    requires ByFrequency(c, G)
    requires k <= |c| && (|c| < N || k < N)
    requires forall a :: 0 <= a < k ==> Freq(G, c[a]) > Freq(G, w)
    requires forall b :: k <= b < |c| ==> Freq(G, c[b]) <= Freq(G, w)
    requires a < b < |InsertAt(c, w, k)|
    ensures Freq(G, InsertAt(c, w, k)[b]) <= Freq(G, InsertAt(c, w, k)[a])
  {
    var r := InsertAt(c, w, k);
    if b < k {
      assert r[a] == c[a] && r[b] == c[b];
    } else if b == k {
      assert r[a] == c[a];
    } else if a == k {
      assert r[b] == c[b - 1];
    } else if a < k {
      assert r[a] == c[a] && r[b] == c[b - 1];
    } else {
      assert r[a] == c[a - 1] && r[b] == c[b - 1];
    }
  }

  /** Inserting an absent word at the slot that splits more from less frequent entries. */
  lemma InsertOk(p: Word, c: Completions, w: Word, k: nat, F: map<Word, nat>)
    requires CacheOk(p, c, F) && IsPrefix(p, w) && w !in c
    requires k <= |c| && (|c| < N || k < N)
    requires forall a :: 0 <= a < k ==> Freq(Bumped(F, w), c[a]) > Bumped(F, w)[w]
    requires forall b :: k <= b < |c| ==> Freq(Bumped(F, w), c[b]) <= Bumped(F, w)[w]
    ensures CacheOk(p, InsertAt(c, w, k), Bumped(F, w))
  {
    var F' := Bumped(F, w);
    var r := InsertAt(c, w, k);
    ByFrequencyWithout(c, F, w);
    InsertShape(c, w, k);
    InsertOrder(c, w, k, F');
    assert Members(p, r, F');
    forall x | x in F' && IsPrefix(p, x) && x !in r
      ensures |r| == N && F'[x] <= Freq(F', r[N - 1])
    {
      assert x != w && x in F;
    }
  }

  /** The invariant of the forward swaps of `w`, which sits at slot i of `c`. */
  predicate Bubbling(p: Word, c: Completions, w: Word, i: nat, G: map<Word, nat>)
  {
    && i < |c| && c[i] == w
    && Distinct(c) && Members(p, c, G)
    // sorted apart from slot i, and nothing behind slot i outranks w
    && (forall a, b :: 0 <= a < b < |c| && a != i && b != i ==> Freq(G, c[b]) <= Freq(G, c[a]))
    && (forall b :: i < b < |c| ==> Freq(G, c[b]) <= Freq(G, w))
    // every stored word of the subtree left out is outranked by every entry
    && (forall x :: x in G && IsPrefix(p, x) && x !in c ==> |c| == N)
    && (forall x, a :: x in G && IsPrefix(p, x) && x !in c && 0 <= a < |c| ==> G[x] <= Freq(G, c[a]))
  }

  /** What swapping slots i-1 and i does to a sequence. */
  lemma SwapFacts(c: Completions, i: nat)
    requires 0 < i < |c|
    ensures var c' := c[i - 1 := c[i]][i := c[i - 1]];
      && (forall x :: x in c' <==> x in c)
      && (Distinct(c) ==> Distinct(c'))
  {
    var c' := c[i - 1 := c[i]][i := c[i - 1]];
    forall x
      ensures x in c' <==> x in c
    {
      if x in c {
        var m :| 0 <= m < |c| && c[m] == x;
        if m == i { assert c'[i - 1] == x; } else if m == i - 1 { assert c'[i] == x; } else { assert c'[m] == x; }
      }
      if x in c' {
        var m :| 0 <= m < |c'| && c'[m] == x;
        if m == i { assert c[i - 1] == x; } else if m == i - 1 { assert c[i] == x; } else { assert c[m] == x; }
      }
    }
    if Distinct(c) {
      forall a, b | 0 <= a < b < |c'|
        ensures c'[a] != c'[b]
      {
        var sa := if a == i - 1 then i else if a == i then i - 1 else a;
        var sb := if b == i - 1 then i else if b == i then i - 1 else b;
        assert c'[a] == c[sa] && c'[b] == c[sb] && sa != sb;
      }
    }
  }

  /** One swap keeps the bubbling invariant, one slot further forward. */
  lemma BubbleStep(p: Word, c: Completions, w: Word, i: nat, G: map<Word, nat>)
    requires Bubbling(p, c, w, i, G) && i > 0 && Freq(G, c[i - 1]) <= Freq(G, w)
    ensures Bubbling(p, c[i - 1 := w][i := c[i - 1]], w, i - 1, G)
  {
    var c' := c[i - 1 := w][i := c[i - 1]];
    SwapFacts(c, i);
    SwapSorted(c, i, G);
    SwapBounds(p, c, i, G);
    forall b | i - 1 < b < |c'|
      ensures Freq(G, c'[b]) <= Freq(G, w)
    {
      if b > i {
        assert c'[b] == c[b];
      }
    }
  }

  /** Swapping two slots keeps every entry a member and every outsider outranked. */
  lemma SwapBounds(p: Word, c: Completions, i: nat, G: map<Word, nat>)
    requires 0 < i < |c| && Members(p, c, G)
    requires forall x, a :: x in G && IsPrefix(p, x) && x !in c && 0 <= a < |c| ==> G[x] <= Freq(G, c[a])
    ensures var c' := c[i - 1 := c[i]][i := c[i - 1]];
      && Members(p, c', G)
      && (forall x, a :: x in G && IsPrefix(p, x) && x !in c' && 0 <= a < |c'| ==> G[x] <= Freq(G, c'[a]))
  {
    var c' := c[i - 1 := c[i]][i := c[i - 1]];
    SwapFacts(c, i);
    forall a | 0 <= a < |c'|
      ensures c'[a] in G && IsPrefix(p, c'[a])
      ensures forall x :: x in G && IsPrefix(p, x) && x !in c ==> G[x] <= Freq(G, c'[a])
    {
      var s := if a == i - 1 then i else if a == i then i - 1 else a;
      assert c'[a] == c[s];
    }
  }

  /** Swapping slots i-1 and i moves the one unsorted slot from i to i-1. */
  lemma SwapSorted(c: Completions, i: nat, G: map<Word, nat>)
    requires 0 < i < |c|
    requires forall a, b :: 0 <= a < b < |c| && a != i && b != i ==> Freq(G, c[b]) <= Freq(G, c[a])
    ensures var c' := c[i - 1 := c[i]][i := c[i - 1]];
      forall a, b :: 0 <= a < b < |c'| && a != i - 1 && b != i - 1 ==> Freq(G, c'[b]) <= Freq(G, c'[a])
  {
    var c' := c[i - 1 := c[i]][i := c[i - 1]];
    forall a, b | 0 <= a < b < |c'| && a != i - 1 && b != i - 1
      ensures Freq(G, c'[b]) <= Freq(G, c'[a])
    {
      if b == i {
        assert c'[b] == c[i - 1] && c'[a] == c[a];
      } else if a == i {
        assert c'[a] == c[i - 1] && c'[b] == c[b];
      } else {
        assert c'[a] == c[a] && c'[b] == c[b];
      }
    }
  }

  /** Once `w` cannot move, the cache is valid. */
  lemma BubbleDone(p: Word, c: Completions, w: Word, i: nat, G: map<Word, nat>)
    requires Bubbling(p, c, w, i, G) && (i == 0 || Freq(G, c[i - 1]) > Freq(G, w))
    ensures CacheOk(p, c, G)
  {
    forall a, b | 0 <= a < b < |c|
      ensures Freq(G, c[b]) <= Freq(G, c[a])
    {
      if b == i && a < i - 1 {
        assert Freq(G, c[i - 1]) <= Freq(G, c[a]);
      }
    }
    forall x | x in G && IsPrefix(p, x) && x !in c
      ensures |c| == N && G[x] <= Freq(G, c[N - 1])
    {
    }
  }

  /** The swaps of `w` toward the front end with a valid cache. */
  lemma {:induction false} BubbleOk(p: Word, c: Completions, w: Word, i: nat, G: map<Word, nat>)
    requires Bubbling(p, c, w, i, G)
    requires |c| < N || Freq(G, c[|c| - 1]) <= Freq(G, w)
    ensures Scan(G, c, w, i).Continue?
    ensures CacheOk(p, Scan(G, c, w, i).completions, G)
    decreases i
  {
    if i == 0 || Freq(G, c[i - 1]) > Freq(G, w) {
      BubbleDone(p, c, w, i, G);
    } else {
      BubbleStep(p, c, w, i, G);
      BubbleOk(p, c[i - 1 := w][i := c[i - 1]], w, i - 1, G);
    }
  }

  /** Meeting `w` in a valid cache under the old frequencies starts the bubbling. */
  lemma BubbleStart(p: Word, c: Completions, w: Word, i: nat, F: map<Word, nat>)
    requires CacheOk(p, c, F) && IsPrefix(p, w) && i < |c| && c[i] == w
    ensures Bubbling(p, c, w, i, Bumped(F, w))
  {
    var F' := Bumped(F, w);
    forall a, b | 0 <= a < b < |c| && a != i && b != i
      ensures Freq(F', c[b]) <= Freq(F', c[a])
    {
      assert Freq(F, c[b]) <= Freq(F, c[a]);
    }
    forall b | i < b < |c|
      ensures Freq(F', c[b]) <= Freq(F', w)
    {
      assert Freq(F, c[b]) <= Freq(F, c[i]);
    }
    forall x, a | x in F' && IsPrefix(p, x) && x !in c && 0 <= a < |c|
      ensures F'[x] <= Freq(F', c[a])
    {
      assert x in F && F[x] <= Freq(F, c[N - 1]);
      assert Freq(F, c[N - 1]) <= Freq(F, c[a]);
    }
  }

  /** The scan met a more frequent entry at slot i: `w` is absent and goes right after it. */
  lemma ScanMeetsHigher(p: Word, c: Completions, w: Word, i: nat, F: map<Word, nat>)
    requires CacheOk(p, c, F) && IsPrefix(p, w)
    requires i < |c| && c[i] != w && Freq(Bumped(F, w), c[i]) > Bumped(F, w)[w]
    requires |c| < N || Freq(Bumped(F, w), c[|c| - 1]) <= Bumped(F, w)[w]
    requires forall b :: i < b < |c| ==> c[b] != w && Freq(Bumped(F, w), c[b]) <= Bumped(F, w)[w]
    ensures Scan(Bumped(F, w), c, w, i) == Continue(InsertAt(c, w, i + 1))
    ensures CacheOk(p, InsertAt(c, w, i + 1), Bumped(F, w))
  {
    var F' := Bumped(F, w);
    var f := F'[w];
    forall a | 0 <= a < i
      ensures c[a] != w && Freq(F', c[a]) > f
    {
      assert Freq(F, c[i]) <= Freq(F, c[a]);
    }
    InsertOk(p, c, w, i + 1, F);
  }

  /** The backward scan, from slot i down, over entries already known to be no more frequent. */
  lemma {:induction false} ScanOk(p: Word, c: Completions, w: Word, i: int, F: map<Word, nat>)
    requires CacheOk(p, c, F) && IsPrefix(p, w)
    requires -1 <= i < |c|
    requires |c| < N || Freq(Bumped(F, w), c[|c| - 1]) <= Bumped(F, w)[w]
    requires forall b :: i < b < |c| ==> c[b] != w && Freq(Bumped(F, w), c[b]) <= Bumped(F, w)[w]
    ensures Scan(Bumped(F, w), c, w, i).Continue?
    ensures CacheOk(p, Scan(Bumped(F, w), c, w, i).completions, Bumped(F, w))
    decreases i + 1
  {
    var F' := Bumped(F, w);
    if i < 0 {
      InsertOk(p, c, w, 0, F);
    } else if c[i] != w && Freq(F', c[i]) <= F'[w] {
      ScanOk(p, c, w, i - 1, F);
    } else if c[i] != w {
      ScanMeetsHigher(p, c, w, i, F);
    } else {
      BubbleStart(p, c, w, i, F);
      BubbleOk(p, c, w, i, F');
    }
  }

  /**
   * One node of the walk keeps its cache valid under the bumped frequencies; when the walk
   * breaks, the word is not in that cache.
   */
  lemma StepPreserves(p: Word, c: Completions, w: Word, F: map<Word, nat>)
    requires CacheOk(p, c, F) && IsPrefix(p, w)
    ensures StepCache(Bumped(F, w), c, w).Break? ==> w !in c && CacheOk(p, c, Bumped(F, w))
    ensures StepCache(Bumped(F, w), c, w).Continue? ==>
      CacheOk(p, StepCache(Bumped(F, w), c, w).completions, Bumped(F, w))
  {
    var F' := Bumped(F, w);
    var f := F'[w];
    if |c| == 0 {
      assert forall x :: x in F' && IsPrefix(p, x) ==> x == w;
    } else if |c| == N && Freq(F', c[N - 1]) > f {
      assert w !in c;
      ByFrequencyWithout(c, F, w);
    } else {
      ScanOk(p, c, w, |c| - 1, F);
    }
  }

  /**
   * Where the backward scan leaves `w`: in the cache, behind only strictly more frequent
   * entries. An entry met again overtakes its equally frequent neighbours; an absent one goes
   * right after the last strictly more frequent entry, evicting an equally frequent last slot.
   */
  lemma {:induction false} ScanPlaces(G: map<Word, nat>, c: Completions, w: Word, i: int)
    requires -1 <= i < |c|
    requires |c| < N || Freq(G, c[|c| - 1]) <= Freq(G, w)
    requires Distinct(c)
    requires forall b :: i < b < |c| ==> c[b] != w
    requires forall a, b :: 0 <= a < b <= i && c[b] != w ==> Freq(G, c[b]) <= Freq(G, c[a])
    ensures var r := Scan(G, c, w, i).completions;
      && w in r
      && forall a, b :: 0 <= a < b < |r| && r[b] == w ==> Freq(G, r[a]) > Freq(G, w)
    decreases i + 1
  {
    if i < 0 {
      var r := InsertAt(c, w, 0);
      assert r[0] == w;
    } else if c[i] != w && Freq(G, c[i]) <= Freq(G, w) {
      ScanPlaces(G, c, w, i - 1);
    } else if c[i] != w {
      InsertPlaces(G, c, w, i);
    } else if i == 0 || Freq(G, c[i - 1]) > Freq(G, w) {
      StopPlaces(G, c, w, i);
    } else {
      var c' := c[i - 1 := w][i := c[i - 1]];
      SwapFacts(c, i);
      assert c' == c[i - 1 := c[i]][i := c[i - 1]];
      forall a, b | 0 <= a < b <= i - 1 && c'[b] != w
        ensures Freq(G, c'[b]) <= Freq(G, c'[a])
      {
        assert c'[a] == c[a] && c'[b] == c[b];
      }
      ScanPlaces(G, c', w, i - 1);
    }
  }

  /** An absent `w` goes right after slot i, the first more frequent entry the scan meets. */
  lemma InsertPlaces(G: map<Word, nat>, c: Completions, w: Word, i: nat)
    requires i < |c| && c[i] != w && Freq(G, c[i]) > Freq(G, w)
    requires |c| < N || Freq(G, c[|c| - 1]) <= Freq(G, w)
    requires forall b :: i < b < |c| ==> c[b] != w
    requires forall a, b :: 0 <= a < b <= i && c[b] != w ==> Freq(G, c[b]) <= Freq(G, c[a])
    ensures var r := InsertAt(c, w, i + 1);
      && w in r
      && forall a, b :: 0 <= a < b < |r| && r[b] == w ==> Freq(G, r[a]) > Freq(G, w)
  {
    var r := InsertAt(c, w, i + 1);
    assert r[i + 1] == w;
    forall a, b | 0 <= a < b < |r| && r[b] == w
      ensures Freq(G, r[a]) > Freq(G, w)
    {
      if b != i + 1 {
        assert false;
      } else if a < i {
        assert Freq(G, c[i]) <= Freq(G, c[a]);
      }
    }
  }

  /** `w` met at slot i cannot move: everything ahead of it is more frequent. */
  lemma StopPlaces(G: map<Word, nat>, c: Completions, w: Word, i: nat)
    requires i < |c| && c[i] == w && Distinct(c)
    requires i == 0 || Freq(G, c[i - 1]) > Freq(G, w)
    requires forall a, b :: 0 <= a < b <= i && c[b] != w ==> Freq(G, c[b]) <= Freq(G, c[a])
    ensures forall a, b :: 0 <= a < b < |c| && c[b] == w ==> Freq(G, c[a]) > Freq(G, w)
  {
    forall a, b | 0 <= a < b < |c| && c[b] == w
      ensures Freq(G, c[a]) > Freq(G, w)
    {
      assert b == i;
      if a < i - 1 {
        assert Freq(G, c[i - 1]) <= Freq(G, c[a]);
      }
    }
  }

  /**
   * The tie-break rules of one node: unless the walk breaks, the cache ends up holding `w`
   * and every entry ahead of it is strictly more frequent.
   */
  lemma StepPlaces(p: Word, c: Completions, w: Word, F: map<Word, nat>)
    requires CacheOk(p, c, F)
    ensures var G := Bumped(F, w);
      StepCache(G, c, w).Continue? ==>
        var r := StepCache(G, c, w).completions;
        && w in r
        && forall a, b :: 0 <= a < b < |r| && r[b] == w ==> Freq(G, r[a]) > Freq(G, w)
  {
    var G := Bumped(F, w);
    if |c| == 0 {
      assert [w][0] == w;
    } else if !(|c| == N && Freq(G, c[N - 1]) > Freq(G, w)) {
      forall a, b | 0 <= a < b <= |c| - 1 && c[b] != w
        ensures Freq(G, c[b]) <= Freq(G, c[a])
      {
        assert Freq(F, c[b]) <= Freq(F, c[a]);
      }
      ScanPlaces(G, c, w, |c| - 1);
    }
  }

  /** A cache of at most N distinct words that holds all N entries of a full cache holds nothing else. */
  lemma FullCacheCovers(cp: Completions, cq: Completions)
    requires Distinct(cp) && Distinct(cq) && |cp| == N
    requires forall a :: 0 <= a < |cp| ==> cp[a] in cq
    ensures |cq| == N && cq[N - 1] in cp
  {
    SetOfCard(cp);
    SetOfCard(cq);
    var extra := SetOf(cq) - SetOf(cp);
    assert SetOf(cq) == SetOf(cp) + extra && SetOf(cp) * extra == {};
    assert |SetOf(cq)| == |SetOf(cp)| + |extra|;
    assert |cq| == N && extra == {};
    assert cq[N - 1] in SetOf(cq);
  }

  /**
   * The early stop is sound: when a node breaks, every ancestor would break too, because
   * its cache already holds the node's N entries, all more frequent than the word.
   */
  lemma BreakPropagates(q: Word, cq: Completions, p: Word, cp: Completions, w: Word, F: map<Word, nat>)
    requires CacheOk(p, cp, F) && CacheOk(q, cq, F) && IsPrefix(q, p) && IsPrefix(p, w)
    requires StepCache(Bumped(F, w), cp, w).Break?
    ensures StepCache(Bumped(F, w), cq, w).Break?
  {
    var F' := Bumped(F, w);
    var f := F'[w];
    StepPreserves(p, cp, w, F);
    assert |cp| == N && w !in cp && ByFrequency(cp, F');
    forall a | 0 <= a < |cp|
      ensures Freq(F, cp[a]) > f
    {
      assert cp[a] != w;
      assert Freq(F', cp[N - 1]) <= Freq(F', cp[a]);
    }
    if !(|cq| == N && Freq(F', cq[N - 1]) > f) {
      forall a | 0 <= a < |cp|
        ensures cp[a] in cq
      {
        PrefixTransitive(q, p, cp[a]);
      }
      FullCacheCovers(cp, cq);
      assert false;
    }
  }

  /**
   * The state of the upward walk about to repair w[..k]: frequencies already bumped, the
   * caches of w[..k] .. w[..0] still valid for the old frequencies F, all others for the new.
   */
  predicate Walking(t: Trie, w: Word, k: nat, F: map<Word, nat>)
  {
    && Structured(t) && k <= |w|
    && t.frequency == Bumped(F, w)
    && (forall j :: 0 <= j <= k ==> w[..j] in t.completions)
    && (forall j {:trigger CacheOk(w[..j], t.completions[w[..j]], F)} :: 0 <= j <= k ==>
          CacheOk(w[..j], t.completions[w[..j]], F))
    && (forall p {:trigger CacheOk(p, t.completions[p], t.frequency)} ::
          p in t.completions && !(IsPrefix(p, w) && |p| <= k) ==> CacheOk(p, t.completions[p], t.frequency))
  }

  /** A break leaves every remaining cache valid as it stands. */
  lemma BreakKeepsValid(t: Trie, w: Word, k: nat, F: map<Word, nat>)
    requires Walking(t, w, k, F)
    requires StepCache(t.frequency, t.completions[w[..k]], w).Break?
    ensures Valid(t)
  {
    var p := w[..k];
    assert IsPrefix(p, w);
    forall j | 0 <= j <= k
      ensures CacheOk(w[..j], t.completions[w[..j]], t.frequency)
    {
      assert IsPrefix(w[..j], p) && IsPrefix(w[..j], w);
      BreakPropagates(w[..j], t.completions[w[..j]], p, t.completions[p], w, F);
      StepPreserves(w[..j], t.completions[w[..j]], w, F);
    }
    forall q | q in t.completions
      ensures CacheOk(q, t.completions[q], t.frequency)
    {
      if IsPrefix(q, w) && |q| <= k {
        assert q == w[..|q|];
      }
    }
  }

  /** Repairing w[..k] moves it to the repaired side of the walk. */
  lemma ContinueKeepsWalking(t: Trie, w: Word, k: nat, F: map<Word, nat>)
    requires Walking(t, w, k, F)
    requires StepCache(t.frequency, t.completions[w[..k]], w).Continue?
    ensures var t' := t.(completions := t.completions[w[..k] :=
                          StepCache(t.frequency, t.completions[w[..k]], w).completions]);
      k == 0 ==> Valid(t')
    ensures var t' := t.(completions := t.completions[w[..k] :=
                          StepCache(t.frequency, t.completions[w[..k]], w).completions]);
      k > 0 ==> Walking(t', w, k - 1, F)
  {
    var p := w[..k];
    assert IsPrefix(p, w);
    StepPreserves(p, t.completions[p], w, F);
    var t' := t.(completions := t.completions[p := StepCache(t.frequency, t.completions[p], w).completions]);
    forall q | q in t'.completions && !(IsPrefix(q, w) && |q| <= k - 1)
      ensures CacheOk(q, t'.completions[q], t'.frequency)
    {
    }
  }

  /** The upward walk from w[..k] to the root re-establishes validity. */
  lemma {:induction false} PropagatePreserves(t: Trie, w: Word, k: nat, F: map<Word, nat>)
    requires Walking(t, w, k, F)
    ensures Valid(Propagate(t, w, k))
    decreases k
  {
    var p := w[..k];
    var step := StepCache(t.frequency, t.completions[p], w);
    if step.Break? {
      BreakKeepsValid(t, w, k, F);
      assert Propagate(t, w, k) == t;
    } else {
      var t' := t.(completions := t.completions[p := step.completions]);
      ContinueKeepsWalking(t, w, k, F);
      if k > 0 {
        PropagatePreserves(t', w, k - 1, F);
        assert Propagate(t, w, k) == Propagate(t', w, k - 1);
        assert Valid(Propagate(t, w, k));
      } else {
        assert Propagate(t, w, k) == t';
      }
    }
  }

  /** Allocating the node of a prefix of a word whose parent is present keeps the trie valid. */
  lemma AllocPreserves(t: Trie, w: Word, j: nat)
    requires Valid(t) && IsWord(w) && j <= |w|
    requires j > 0 ==> w[..j - 1] in t.completions
    ensures Valid(Alloc(t, w[..j]))
  {
    var p := w[..j];
    var r := Alloc(t, p);
    if p !in t.completions {
      if j > 0 {
        assert Parent(p) == w[..j - 1];
      }
      forall x | x in r.frequency && IsPrefix(p, x)
        ensures false
      {
        AncestorsExist(t, x, |p|);
      }
      assert CacheOk(p, r.completions[p], r.frequency);
    }
  }

  /** Bumping a word whose path is allocated starts the upward walk at the word's own node. */
  lemma StartWalking(s: Trie, w: Word)
    requires Valid(s) && IsWord(w)
    requires forall j :: 0 <= j <= |w| ==> w[..j] in s.completions
    ensures Walking(s.(frequency := Bumped(s.frequency, w)), w, |w|, s.frequency)
  {
    var F := s.frequency;
    var bumped := s.(frequency := Bumped(F, w));
    assert w[..|w|] == w;
    assert bumped.frequency.Keys == F.Keys + {w};
    assert Structured(bumped);
    forall p | p in bumped.completions && !(IsPrefix(p, w) && |p| <= |w|)
      ensures CacheOk(p, bumped.completions[p], bumped.frequency)
    {
      CacheOkOffPath(p, bumped.completions[p], F, w);
    }
  }

  /** Counting one more occurrence of a word whose path is allocated keeps the trie valid. */
  lemma BumpPreserves(s: Trie, w: Word)
    requires Valid(s) && IsWord(w)
    requires forall j :: 0 <= j <= |w| ==> w[..j] in s.completions
    ensures Valid(Propagate(s.(frequency := Bumped(s.frequency, w)), w, |w|))
  {
    StartWalking(s, w);
    PropagatePreserves(s.(frequency := Bumped(s.frequency, w)), w, |w|, s.frequency);
  }

  /** Giving the word a leaf and counting it keeps the trie valid once its path is allocated. */
  lemma CountPreserves(t: Trie, w: Word)
    requires Valid(t) && IsWord(w)
    requires forall j :: 0 <= j <= |w| ==> w[..j] in t.completions
    ensures Valid(Count(t, w))
  {
    var withLeaf := AddLeaf(t, w);
    var bumped := t.(frequency := Bumped(t.frequency, w));
    assert withLeaf.(frequency := Bumped(withLeaf.frequency, w)) == bumped;
    BumpPreserves(t, w);
    assert Count(t, w) == Update(withLeaf, w) == Propagate(bumped, w, |w|);
  }

  /** Each step of the descent, and the final count, keep the trie valid. */
  lemma {:induction false} AddFromPreserves(t: Trie, w: Word, j: nat)
    requires Valid(t) && IsWord(w) && j <= |w| + 1
    requires forall i :: 0 <= i < j ==> w[..i] in t.completions
    ensures Valid(AddFrom(t, w, j))
    decreases |w| + 1 - j
  {
    if j <= |w| {
      AllocPreserves(t, w, j);
      AddFromPreserves(Alloc(t, w[..j]), w, j + 1);
    } else {
      CountPreserves(t, w);
    }
  }

  /** Learning a word keeps the trie valid. */
  lemma AddPreserves(t: Trie, w: Word)
    requires Valid(t) && IsWord(w)
    ensures Valid(Add(t, w))
  {
    AddFromPreserves(t, w, 0);
  }

  /** Learning an already stored word allocates no node. */
  lemma AddStoredWordKeepsNodes(t: Trie, w: Word)
    requires Valid(t) && IsWord(w) && w in t.frequency
    ensures Add(t, w).completions.Keys == t.completions.Keys
  {
    forall j | 0 <= j <= |w|
      ensures w[..j] in t.completions
    {
      AncestorsExist(t, w, j);
    }
  }

  /** Learning the same word n times. */
  function AddTimes(t: Trie, w: Word, n: nat): Trie
    requires IsWord(w)
    decreases n
  {
    if n == 0 then t else AddTimes(Add(t, w), w, n - 1)
  }

  /** n adds raise the word's count by exactly n and leave every other count alone. */
  lemma {:induction false} AddTimesFrequency(t: Trie, w: Word, n: nat)
    requires IsWord(w)
    ensures Freq(AddTimes(t, w, n).frequency, w) == Freq(t.frequency, w) + n
    ensures forall x :: x != w ==> Freq(AddTimes(t, w, n).frequency, x) == Freq(t.frequency, x)
    decreases n
  {
    if n > 0 {
      AddTimesFrequency(Add(t, w), w, n - 1);
    }
  }
}
