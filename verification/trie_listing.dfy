/**
 * Reading words back out of the trie: rebuilding a word from its leaf (trie_getword), the
 * padded prefix query (trie_getwords), the pre-order listing that trie_display writes and
 * trie_store saves, and loading a word list with one trie_add per word (trie_load).
 */
module TrieListing {
  import opened Pointers
  import opened Ascii
  import opened PrefixTrie
  import opened TrieUpdate
  import opened TrieProofs

  /**
   * trie_getword: walks from the leaf's node up to the root writing each node's label,
   * then reverses the buffer in place. The node reached after n steps is leaf[..|leaf| - n]
   * and its label is that prefix's last character.
   */
  method GetWord(leaf: Word) returns (word: string, len: nat)
    ensures word == leaf
    ensures len == |leaf|
  {
    var buffer: string := [];
    var node := leaf;
    while |node| > 0
      invariant |buffer| <= |leaf| && node == leaf[..|leaf| - |buffer|]
      invariant forall k :: 0 <= k < |buffer| ==> buffer[k] == leaf[|leaf| - 1 - k]
      decreases |node|
    {
      buffer := buffer + [node[|node| - 1]];
      node := Parent(node);
    }
    len := |buffer|;
    word := Reverse(buffer);
  }

  /** The in-place reversal at the end of trie_getword: swaps from both ends towards the middle. */
  method Reverse(s: string) returns (r: string)
    ensures |r| == |s|
    ensures forall k :: 0 <= k < |s| ==> r[k] == s[|s| - 1 - k]
  {
    r := s;
    var start, end := 0, |s| - 1;
    while start < end
      invariant 0 <= start <= |s| && start + end == |s| - 1 && |r| == |s|
      invariant forall k :: 0 <= k < start ==> r[k] == s[|s| - 1 - k]
      invariant forall k :: end < k < |s| ==> r[k] == s[|s| - 1 - k]
      invariant forall k :: start <= k <= end ==> r[k] == s[k]
      decreases end - start
    {
      r := r[start := r[end]][end := r[start]];
      start, end := start + 1, end - 1;
    }
  }

  /**
   * trie_getwords: NULL when the prefix's path is missing, otherwise the node's N slots in
   * order, each occupied slot rebuilt into its word and each NULL slot kept as Null.
   */
  method GetWordsPadded(t: Trie, prefix: Word) returns (r: Nullable<seq<Nullable<Word>>>)
    requires Valid(t) && IsWord(prefix)
    ensures r.Null? <==> prefix !in t.completions
    ensures r.NonNull? ==> |r.value| == N && forall i :: 0 <= i < N ==>
      r.value[i] == if i < |t.completions[prefix]| then NonNull(t.completions[prefix][i]) else Null
  {
    GetWordsSound(t, prefix);
    match GetWords(t, prefix)
    case Null =>
      r := Null;
    case NonNull(c) =>
      var words: seq<Nullable<Word>> := [];
      var i := 0;
      while i < N
        invariant 0 <= i <= N && |words| == i
        invariant forall k :: 0 <= k < i ==> words[k] == if k < |c| then NonNull(c[k]) else Null
      {
        if i < |c| {
          var word, _ := GetWord(c[i]);
          words := words + [NonNull(word)];
        } else {
          words := words + [Null];
        }
        i := i + 1;
      }
      r := NonNull(words);
  }

  /** The allocated nodes at or below p. */
  function Subtree(t: Trie, p: Word): set<Word>
  {
    set q | q in t.completions && IsPrefix(p, q)
  }

  lemma ChildSubtreeSmaller(t: Trie, p: Word, c: char)
    requires p in t.completions
    ensures Subtree(t, p + [c]) < Subtree(t, p)
  {
    forall q | q in Subtree(t, p + [c])
      ensures q in Subtree(t, p)
    {
      assert q[..|p|] == (p + [c])[..|p|];
    }
    assert p in Subtree(t, p);
  }

  /** The label of child slot i. */
  function Letter(i: nat): char
    requires i < MaxChildren
  {
    ('a' as int + i) as char
  }

  /**
   * trie_display: a NULL node lists nothing; otherwise the node's own word (when it owns a
   * leaf) comes first, then the listings of its 26 child slots in ascending order.
   */
  function Display(t: Trie, p: Word): (listing: seq<Word>)
    ensures p !in t.completions ==> listing == []
    ensures p in t.completions && p in t.frequency ==> |listing| > 0 && listing[0] == p
    decreases Subtree(t, p), 1, 0
  {
    if p !in t.completions then []
    else (if p in t.frequency then [p] else []) + Children(t, p, 0)
  }

  /** The listings of child slots i .. 25 of node p, in slot order. */
  function Children(t: Trie, p: Word, i: nat): seq<Word>
    requires p in t.completions && i <= MaxChildren
    decreases Subtree(t, p), 0, MaxChildren - i
  {
    if i == MaxChildren then []
    else
      ChildSubtreeSmaller(t, p, Letter(i));
      Display(t, p + [Letter(i)]) + Children(t, p, i + 1)
  }

  /** strcmp order: a proper prefix comes first, otherwise the first differing character decides. */
  predicate LexLess(a: string, b: string)
  {
    if |b| == 0 then false
    else if |a| == 0 then true
    else if a[0] != b[0] then a[0] < b[0]
    else LexLess(a[1..], b[1..])
  }

  /** Strictly increasing in strcmp order. */
  predicate Sorted(s: seq<string>)
  {
    forall i, j :: 0 <= i < j < |s| ==> LexLess(s[i], s[j])
  }

  lemma {:induction false} LexCommonPrefix(p: string, x: string, y: string)
    ensures LexLess(p + x, p + y) == LexLess(x, y)
    decreases |p|
  {
    if |p| > 0 {
      assert (p + x)[1..] == p[1..] + x;
      assert (p + y)[1..] == p[1..] + y;
      LexCommonPrefix(p[1..], x, y);
    } else {
      assert p + x == x && p + y == y;
    }
  }

  lemma {:induction false} LexIrreflexive(a: string)
    ensures !LexLess(a, a)
    decreases |a|
  {
    if |a| > 0 {
      LexIrreflexive(a[1..]);
    }
  }

  /** Everything listed under p extends p; everything listed from slot i on also has a letter >= i next. */
  lemma {:induction false} DisplayExtends(t: Trie, p: Word)
    ensures forall x :: x in Display(t, p) ==> IsPrefix(p, x)
    decreases Subtree(t, p), 1, 0
  {
    if p in t.completions {
      ChildrenExtend(t, p, 0);
    }
  }

  lemma {:induction false} ChildrenExtend(t: Trie, p: Word, i: nat)
    requires p in t.completions && i <= MaxChildren
    ensures forall x :: x in Children(t, p, i) ==>
      IsPrefix(p, x) && |x| > |p| && 'a' as int + i <= x[|p|] as int
    decreases Subtree(t, p), 0, MaxChildren - i
  {
    if i < MaxChildren {
      var q := p + [Letter(i)];
      ChildSubtreeSmaller(t, p, Letter(i));
      DisplayExtends(t, q);
      ChildrenExtend(t, p, i + 1);
      forall x | x in Display(t, q)
        ensures IsPrefix(p, x) && |x| > |p| && x[|p|] == Letter(i)
      {
        assert x[..|q|] == q;
        assert x[..|p|] == q[..|p|];
      }
    }
  }

  lemma SortedConcat(a: seq<string>, b: seq<string>)
    requires Sorted(a) && Sorted(b)
    requires forall x, y :: x in a && y in b ==> LexLess(x, y)
    ensures Sorted(a + b)
  {
    forall i, j | 0 <= i < j < |a + b|
      ensures LexLess((a + b)[i], (a + b)[j])
    {
      if j < |a| {
        assert (a + b)[i] == a[i] && (a + b)[j] == a[j];
      } else if i >= |a| {
        assert (a + b)[i] == b[i - |a|] && (a + b)[j] == b[j - |a|];
      } else {
        assert (a + b)[i] in a && (a + b)[j] in b;
      }
    }
  }

  /** Two words that share p and differ right after it are ordered by that character. */
  lemma LexAfterPrefix(p: string, x: string, y: string)
    requires IsPrefix(p, x) && IsPrefix(p, y) && |x| > |p| && |y| > |p| && x[|p|] < y[|p|]
    ensures LexLess(x, y)
  {
    assert x == p + x[|p|..] && y == p + y[|p|..];
    LexCommonPrefix(p, x[|p|..], y[|p|..]);
  }

  /** The listing is strictly increasing in strcmp order: pre-order with ascending children. */
  lemma {:induction false} DisplaySorted(t: Trie, p: Word)
    ensures Sorted(Display(t, p))
    decreases Subtree(t, p), 1, 0
  {
    if p in t.completions {
      var own: seq<Word> := if p in t.frequency then [p] else [];
      ChildrenSorted(t, p, 0);
      ChildrenExtend(t, p, 0);
      forall x, y | x in own && y in Children(t, p, 0)
        ensures LexLess(x, y)
      {
        assert y == p + y[|p|..];
        assert p == p + [];
        LexCommonPrefix(p, [], y[|p|..]);
      }
      SortedConcat(own, Children(t, p, 0));
    }
  }

  lemma {:induction false} ChildrenSorted(t: Trie, p: Word, i: nat)
    requires p in t.completions && i <= MaxChildren
    ensures Sorted(Children(t, p, i))
    decreases Subtree(t, p), 0, MaxChildren - i
  {
    if i < MaxChildren {
      var q := p + [Letter(i)];
      ChildSubtreeSmaller(t, p, Letter(i));
      DisplaySorted(t, q);
      ChildrenSorted(t, p, i + 1);
      DisplayExtends(t, q);
      ChildrenExtend(t, p, i + 1);
      forall x, y | x in Display(t, q) && y in Children(t, p, i + 1)
        ensures LexLess(x, y)
      {
        assert x[..|q|] == q;
        assert x[..|p|] == q[..|p|];
        LexAfterPrefix(p, x, y);
      }
      SortedConcat(Display(t, q), Children(t, p, i + 1));
    }
  }

  /** A strictly increasing listing repeats no word. */
  lemma SortedDistinct(s: seq<Word>)
    requires Sorted(s)
    ensures Distinct(s)
  {
    forall i, j | 0 <= i < j < |s|
      ensures s[i] != s[j]
    {
      LexIrreflexive(s[i]);
    }
  }

  /** A word extending p whose next letter is c extends p's child c. */
  lemma IntoChild(p: string, x: string, c: char)
    requires IsPrefix(p, x) && |x| > |p| && x[|p|] == c
    ensures IsPrefix(p + [c], x)
  {
    assert x[..|p| + 1] == x[..|p|] + [x[|p|]];
  }

  /** A word extending p's child c extends p with next letter c. */
  lemma FromChild(p: string, x: string, c: char)
    requires IsPrefix(p + [c], x)
    ensures IsPrefix(p, x) && |x| > |p| && x[|p|] == c
  {
    assert x[..|p| + 1] == p + [c];
    assert x[..|p|] == (p + [c])[..|p|];
  }

  /** On a well-formed trie, the listing under p holds exactly the stored words that extend p. */
  lemma {:induction false} DisplayMembers(t: Trie, p: Word)
    requires Structured(t)
    ensures forall x :: x in Display(t, p) <==> x in t.frequency && IsPrefix(p, x)
    decreases Subtree(t, p), 1, 0
  {
    if p in t.completions {
      ChildrenMembers(t, p, 0);
      forall x | x in t.frequency && IsPrefix(p, x) && x != p
        ensures |x| > |p| && 'a' as int <= x[|p|] as int
      {
        assert IsWord(x);
        assert x[..|p|] == p;
      }
    } else {
      forall x | x in t.frequency && IsPrefix(p, x)
        ensures false
      {
        AncestorsExist(t, x, |p|);
      }
    }
  }

  lemma {:induction false} ChildrenMembers(t: Trie, p: Word, i: nat)
    requires Structured(t) && p in t.completions && i <= MaxChildren
    ensures forall x :: x in Children(t, p, i) <==>
      x in t.frequency && IsPrefix(p, x) && |x| > |p| && 'a' as int + i <= x[|p|] as int
    decreases Subtree(t, p), 0, MaxChildren - i
  {
    if i < MaxChildren {
      var q := p + [Letter(i)];
      ChildSubtreeSmaller(t, p, Letter(i));
      DisplayMembers(t, q);
      ChildrenMembers(t, p, i + 1);
      forall x | x in t.frequency && IsPrefix(p, x) && |x| > |p| && 'a' as int + i <= x[|p|] as int
        ensures x in Display(t, q) || 'a' as int + i + 1 <= x[|p|] as int
      {
        if x[|p|] == Letter(i) {
          IntoChild(p, x, Letter(i));
        }
      }
      forall x | x in Display(t, q)
        ensures IsPrefix(p, x) && |x| > |p| && x[|p|] == Letter(i)
      {
        FromChild(p, x, Letter(i));
      }
    } else {
      forall x | x in t.frequency && IsPrefix(p, x) && |x| > |p|
        ensures x[|p|] as int < 'a' as int + i
      {
        assert IsWord(x);
      }
    }
  }

  /** trie_load: one trie_add per word of the list, in list order. */
  function Load(t: Trie, ws: seq<Word>): (r: Trie)
    requires forall i :: 0 <= i < |ws| ==> IsWord(ws[i])
    ensures t.completions.Keys <= r.completions.Keys
    ensures t.frequency.Keys <= r.frequency.Keys
    decreases |ws|
  {
    if |ws| == 0 then t else Load(Add(t, ws[0]), ws[1..])
  }

  /** Loading counts every occurrence in the list once more and touches no other count. */
  lemma {:induction false} LoadFrequency(t: Trie, ws: seq<Word>)
    requires forall i :: 0 <= i < |ws| ==> IsWord(ws[i])
    ensures forall x :: Freq(Load(t, ws).frequency, x) == Freq(t.frequency, x) + multiset(ws)[x]
    decreases |ws|
  {
    if |ws| > 0 {
      var t' := Add(t, ws[0]);
      LoadFrequency(t', ws[1..]);
      AddCounts(t, ws[0]);
      assert ws == [ws[0]] + ws[1..];
      assert Load(t, ws) == Load(t', ws[1..]);
      forall x
        ensures Freq(Load(t, ws).frequency, x) == Freq(t.frequency, x) + multiset(ws)[x]
      {
        assert multiset(ws)[x] == multiset(ws[1..])[x] + if x == ws[0] then 1 else 0;
      }
    }
  }

  /** One trie_add counts its word once more and leaves every other count alone. */
  lemma AddCounts(t: Trie, w: Word)
    requires IsWord(w)
    ensures forall x :: Freq(Add(t, w).frequency, x) == Freq(t.frequency, x) + if x == w then 1 else 0
  {
    var F := Add(t, w).frequency;
    assert F == t.frequency[w := Freq(t.frequency, w) + 1];
  }

  /** Loading gives exactly the listed words a leaf, besides those already stored. */
  lemma {:induction false} LoadWords(t: Trie, ws: seq<Word>)
    requires forall i :: 0 <= i < |ws| ==> IsWord(ws[i])
    ensures forall x :: x in Load(t, ws).frequency <==> x in t.frequency || x in ws
    decreases |ws|
  {
    if |ws| > 0 {
      var t' := Add(t, ws[0]);
      LoadWords(t', ws[1..]);
      assert t'.frequency.Keys == t.frequency.Keys + {ws[0]};
      assert Load(t, ws) == Load(t', ws[1..]);
      assert forall x :: x in ws <==> x == ws[0] || x in ws[1..];
    }
  }

  lemma {:induction false} LoadPreserves(t: Trie, ws: seq<Word>)
    requires Valid(t) && forall i :: 0 <= i < |ws| ==> IsWord(ws[i])
    ensures Valid(Load(t, ws))
    decreases |ws|
  {
    if |ws| > 0 {
      AddPreserves(t, ws[0]);
      LoadPreserves(Add(t, ws[0]), ws[1..]);
    }
  }

  /** Saving a trie loaded from a word list lists each word of the list exactly once, sorted. */
  lemma StoreAfterLoad(ws: seq<Word>)
    requires forall i :: 0 <= i < |ws| ==> IsWord(ws[i])
    ensures var listing := Display(Load(Init(), ws), "");
      && (forall x :: x in listing <==> x in ws)
      && Sorted(listing) && Distinct(listing)
  {
    var t := Load(Init(), ws);
    LoadPreserves(Init(), ws);
    LoadWords(Init(), ws);
    DisplayMembers(t, "");
    DisplaySorted(t, "");
    SortedDistinct(Display(t, ""));
  }

  /** A word that occurs once in a list of distinct words is counted once. */
  lemma {:induction false} DistinctCount(s: seq<Word>, x: Word)
    requires Distinct(s)
    ensures multiset(s)[x] == if x in s then 1 else 0
    decreases |s|
  {
    if |s| > 0 {
      assert s == [s[0]] + s[1..];
      assert Distinct(s[1..]);
      DistinctCount(s[1..], x);
      if x == s[0] {
        assert x !in s[1..];
      }
    }
  }

  /** The listing of a valid trie holds each stored word once, and nothing else. */
  lemma StoredListing(t: Trie)
    requires Valid(t)
    ensures var listing := Display(t, "");
      && (forall i :: 0 <= i < |listing| ==> IsWord(listing[i]))
      && (forall x :: x in listing <==> x in t.frequency)
      && Distinct(listing)
  {
    var listing := Display(t, "");
    DisplayMembers(t, "");
    assert forall i :: 0 <= i < |listing| ==> listing[i] in t.frequency;
    DisplaySorted(t, "");
    SortedDistinct(listing);
  }

  /** Loading a list without repeats into an empty trie stores exactly its words, each at frequency 1. */
  lemma LoadDistinct(ws: seq<Word>)
    requires Distinct(ws) && forall i :: 0 <= i < |ws| ==> IsWord(ws[i])
    ensures forall x :: x in Load(Init(), ws).frequency <==> x in ws
    ensures forall x :: x in ws ==> Load(Init(), ws).frequency[x] == 1
  {
    var loaded := Load(Init(), ws);
    LoadWords(Init(), ws);
    LoadFrequency(Init(), ws);
    forall x | x in ws
      ensures loaded.frequency[x] == 1
    {
      DistinctCount(ws, x);
      assert Freq(loaded.frequency, x) == multiset(ws)[x];
    }
  }

  /**
   * The dictionary file keeps no counts: loading what trie_store saved brings back exactly
   * the stored words, each at frequency 1.
   */
  lemma LoadAfterStore(t: Trie)
    requires Valid(t)
    ensures var listing := Display(t, "");
      && (forall i :: 0 <= i < |listing| ==> IsWord(listing[i]))
      && Load(Init(), listing).frequency.Keys == t.frequency.Keys
      && forall x :: x in t.frequency ==> Load(Init(), listing).frequency[x] == 1
  {
    StoredListing(t);
    LoadDistinct(Display(t, ""));
  }
}
