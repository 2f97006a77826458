/**
 * The line editor: a line buffer edited at its end only, a completion state, the candidate
 * list of the last completion request and the prefix it was made for. Words reach the trie
 * when a separator is typed after them and when a completion is accepted.
 *
 * The editor's trie is passed along with it (a Session) instead of living in a global.
 * Terminal output (echo, VT100 cursor moves, the candidate line) is not modelled.
 */
module LineEditor {
  import opened Pointers
  import opened Ascii
  import opened Helper
  import opened PrefixTrie
  import opened TrieUpdate
  import opened TrieProofs

  datatype CompletionState = ActiveCompl | InactiveCompl

  /**
   * `line` is the text of the line buffer up to its terminator; `completions` is the
   * candidate list shown by the last completion request (Null while no list was ever shown);
   * `prefix` is the lower-cased token that request completed.
   */
  datatype Console = Console(
    line: string,
    state: CompletionState,
    completions: Nullable<Completions>,
    prefix: Word)

  datatype Session = Session(console: Console, trie: Trie)

  /** The result of console_autocomplete: the new session and the returned status. */
  datatype Reply = Reply(session: Session, status: int)

  /**
   * console_init as intended: an empty line, no candidate list, completion inactive. The
   * source also needs linebuf[0] = '\0' for this; see InitAsWritten.
   */
  function Init(): (c: Console)
    ensures c.line == "" && c.state == InactiveCompl && c.completions == Null
  {
    Console("", InactiveCompl, Null, "")
  }

  /**
   * console_init as written: it stores '\0' only before the buffer, never in linebuf[0], and
   * interact's Console is an uninitialised local. The line is therefore whatever `stale` text
   * the stack held up to its first '\0'.
   */
  function InitAsWritten(stale: string): (c: Console)
    ensures c.line == stale && c.state == InactiveCompl && c.completions == Null
  {
    Console(stale, InactiveCompl, Null, "")
  }

  /**
   * Stale letters in the buffer are taken for typed ones: the first separator typed teaches
   * the trie the stale word, which was never typed. From Init the same key teaches nothing.
   */
  lemma StaleLineLearnsUntypedWord(t: Trie, stale: Word, sep: char)
    requires IsWord(stale) && |stale| > 0 && IsSeparator(sep)
    ensures Learn(t, InitAsWritten(stale).line, sep).frequency ==
      t.frequency[stale := Freq(t.frequency, stale) + 1]
  {
    var line := InitAsWritten(stale).line;
    assert PrevToken(line, 0) == stale by { WordIsOwnToken(stale); }
  }

  /** From Init, no key typed first teaches the trie anything. */
  lemma EmptyLineLearnsNothing(t: Trie, c: char)
    ensures Learn(t, Init().line, c) == t
  {
    assert PrevToken(Init().line, 0) == "";
  }

  /** A line holding a lowercase word and nothing else reads back as that word. */
  lemma WordIsOwnToken(w: Word)
    requires IsWord(w)
    ensures PrevToken(w, 0) == w
  {
    var tok := PrevToken(w, 0);
    assert w[..|w| - 0] == w;
    if |tok| < |w| {
      assert false;
    }
    assert w[|w| - |tok|..] == w;
    assert ToLowerStr(w) == w;
  }

  /**
   * Where the trailing run of letters of `s` begins. The scan in the source walks back over
   * letters and stops at the first non-letter, or at the '\0' stored just before the buffer.
   */
  function TokenStart(s: string): (k: nat)
    ensures k <= |s|
    ensures forall i :: k <= i < |s| ==> IsAlpha(s[i])
    ensures k == 0 || !IsAlpha(s[k - 1])
  {
    if |s| == 0 || !IsAlpha(s[|s| - 1]) then |s| else TokenStart(s[..|s| - 1])
  }

  /**
   * console_prevtoken: the line without its last `skip` characters ends in a maximal run of
   * letters, and the token is that run in lower case.
   */
  function PrevToken(line: string, skip: nat): (tok: Word)
    requires skip <= |line|
    ensures IsWord(tok)
    ensures var s := line[..|line| - skip];
      && |tok| <= |s|
      && tok == ToLowerStr(s[|s| - |tok|..])
      && (forall i :: |s| - |tok| <= i < |s| ==> IsAlpha(s[i]))
      && (|tok| == |s| || !IsAlpha(s[|s| - |tok| - 1]))
  {
    var s := line[..|line| - skip];
    ToLowerStr(s[TokenStart(s)..])
  }

  /**
   * The checks console_addsuffix asserts: the prefix fits in the line and in the word, the
   * word can be learned, and the typed end of the line is the word's beginning up to case.
   */
  predicate SuffixFits(c: Console, word: Word)
  {
    && IsWord(word)
    && |c.prefix| <= |c.line| && |c.prefix| <= |word|
    && ToLowerStr(c.line[|c.line| - |c.prefix|..]) == word[..|c.prefix|]
  }

  /**
   * `after` is `before` with its typed end (from `keep` on) completed into `w` by
   * strcat_casesens, followed by a space: the shape of a line once a completion is accepted.
   * The typed letters stay as typed and the rest of `w` follows in their casing.
   */
  predicate CompletesWith(before: string, keep: nat, w: Word, after: string)
  {
    && keep <= |before| && |before| - keep <= |w|
    && |after| == keep + |w| + 1
    && after[..keep] == before[..keep]
    && after[keep..|after| - 1] == StrcatCasesens(before[keep..], w).text
    && after[|after| - 1] == ' '
  }

  /**
   * console_addsuffix: the typed prefix at the end of the line is completed into `word` in the
   * prefix's casing, a space follows, and the word is learned.
   */
  function AddSuffix(s: Session, word: Word): (r: Session)
    requires SuffixFits(s.console, word)
    ensures CompletesWith(s.console.line, |s.console.line| - |s.console.prefix|, word, r.console.line)
    ensures r.console.state == s.console.state && r.console.completions == s.console.completions
    ensures r.console.prefix == s.console.prefix
    ensures r.trie.frequency == s.trie.frequency[word := Freq(s.trie.frequency, word) + 1]
  {
    var c := s.console;
    var keep := |c.line| - |c.prefix|;
    var learned := Add(s.trie, word);
    assert learned.frequency == s.trie.frequency[word := Freq(s.trie.frequency, word) + 1];
    Session(c.(line := Spliced(c.line, keep, word)), learned)
  }

  /**
   * The line with its typed end from `keep` on replaced by the completed word, in the typed
   * casing, and a space.
   */
  function Spliced(line: string, keep: nat, word: Word): (r: string)
    requires keep <= |line| && |line| - keep <= |word|
    requires ToLowerStr(line[keep..]) == word[..|line| - keep] && IsWord(word)
    ensures CompletesWith(line, keep, word, r)
  {
    var typed := line[keep..];
    var completed := StrcatCasesens(typed, word).text;
    CasesensKeepsWord(typed, word);
    var r := line[..keep] + completed + " ";
    assert r[keep..|r| - 1] == completed;
    r
  }

  /**
   * console_display_compline: the token before the cursor is looked up. With no node or no
   * candidate nothing changes; with one candidate it is completed at once; with two or more
   * they become the active candidate list.
   */
  function DisplayCompline(s: Session): (r: Session)
    requires Valid(s.trie)
    ensures r.console.state == ActiveCompl ==> r.console.line == s.console.line && r.trie == s.trie
    ensures r.console.line == s.console.line ==> r.trie == s.trie
    ensures r.console.line != s.console.line ==>
      && r.console.state == InactiveCompl
      && r.console.prefix == PrevToken(s.console.line, 0)
      && |r.console.line| > |s.console.line|
  {
    var tok := PrevToken(s.console.line, 0);
    match GetWords(s.trie, tok)
    case Null => s
    case NonNull(cands) =>
      if |cands| == 0 then s
      else if |cands| == 1 then
        CandidateFits(s.trie, tok, 0);
        TokenFits(s.console.(prefix := tok), cands[0]);
        CompleteAtOnce(s, tok, cands[0])
      else
        s.(console := s.console.(prefix := tok, state := ActiveCompl, completions := NonNull(cands)))
  }

  /** An entry of a node's cached list is a stored word extending the node's prefix. */
  lemma CandidateFits(t: Trie, tok: Word, i: nat)
    requires Valid(t) && tok in t.completions && i < |t.completions[tok]|
    ensures var w := t.completions[tok][i];
      IsWord(w) && Matches(t, tok, w)
  {
    assert CacheOk(tok, t.completions[tok], t.frequency);
  }

  /**
   * The single-candidate case of console_display_compline: the token before the cursor is
   * completed into `w` and learned, and the list stays inactive.
   */
  function CompleteAtOnce(s: Session, tok: Word, w: Word): (r: Session)
    requires SuffixFits(s.console.(prefix := tok), w)
    ensures CompletesWith(s.console.line, |s.console.line| - |tok|, w, r.console.line)
    ensures r.console.state == InactiveCompl && r.console.prefix == tok
    ensures r.console.completions == s.console.completions
    ensures r.trie.frequency == s.trie.frequency[w := Freq(s.trie.frequency, w) + 1]
  {
    var done := AddSuffix(s.(console := s.console.(prefix := tok)), w);
    done.(console := done.console.(state := InactiveCompl))
  }

  /** `x` is a stored word extending `tok`: one a completion request for `tok` may offer. */
  predicate Matches(t: Trie, tok: Word, x: Word)
  {
    x in t.frequency && IsPrefix(tok, x)
  }

  /** A stored word extending `tok` means the node of `tok` exists. */
  lemma MatchHasNode(t: Trie, tok: Word, x: Word)
    requires Valid(t) && Matches(t, tok, x)
    ensures tok in t.completions
  {
    AncestorsExist(t, x, |tok|);
  }

  /** A stored word extending `tok` that its node's list leaves out means the list is full. */
  lemma MissingMeansFull(t: Trie, tok: Word, x: Word)
    requires Valid(t) && tok in t.completions && Matches(t, tok, x)
    requires x !in t.completions[tok]
    ensures |t.completions[tok]| == N
    ensures t.frequency[x] <= Freq(t.frequency, t.completions[tok][N - 1])
  {
    assert CacheOk(tok, t.completions[tok], t.frequency);
  }

  /** Two slots of a node's list hold different words. */
  lemma EntriesDiffer(t: Trie, tok: Word, i: nat, j: nat)
    requires Valid(t) && tok in t.completions && i < j < |t.completions[tok]|
    ensures t.completions[tok][i] != t.completions[tok][j]
  {
    assert CacheOk(tok, t.completions[tok], t.frequency);
  }

  /** With no stored word extending the token, a completion request changes nothing. */
  lemma DisplayComplineNone(s: Session)
    requires Valid(s.trie) && forall x :: !Matches(s.trie, PrevToken(s.console.line, 0), x)
    ensures DisplayCompline(s) == s
  {
    var tok := PrevToken(s.console.line, 0);
    if tok in s.trie.completions && |s.trie.completions[tok]| > 0 {
      CandidateFits(s.trie, tok, 0);
      assert false;
    }
  }

  /** A token extended by exactly one stored word has that word as its whole cached list. */
  lemma SoleCandidate(t: Trie, tok: Word, w: Word)
    requires Valid(t) && IsWord(tok) && Matches(t, tok, w)
    requires forall x :: Matches(t, tok, x) ==> x == w
    ensures tok in t.completions && t.completions[tok] == [w]
  {
    MatchHasNode(t, tok, w);
    var cands := t.completions[tok];
    forall i | 0 <= i < |cands|
      ensures cands[i] == w
    {
      CandidateFits(t, tok, i);
    }
    if |cands| == 0 {
      MissingMeansFull(t, tok, w);
      assert false;
    }
    if |cands| > 1 {
      EntriesDiffer(t, tok, 0, 1);
      assert false;
    }
  }

  /**
   * With exactly one stored word extending the token, a completion request is the immediate
   * completion with that word: the line is completed, the word learned, the list left inactive.
   */
  lemma DisplayComplineSole(s: Session, w: Word)
    requires Valid(s.trie) && Matches(s.trie, PrevToken(s.console.line, 0), w)
    requires forall x :: Matches(s.trie, PrevToken(s.console.line, 0), x) ==> x == w
    ensures var tok := PrevToken(s.console.line, 0);
      && SuffixFits(s.console.(prefix := tok), w)
      && DisplayCompline(s) == CompleteAtOnce(s, tok, w)
  {
    var tok := PrevToken(s.console.line, 0);
    SoleCandidate(s.trie, tok, w);
    CandidateFits(s.trie, tok, 0);
    TokenFits(s.console.(prefix := tok), w);
    DisplayComplineOne(s, tok, w);
  }

  /** A token whose node caches a single word is completed with that word. */
  lemma DisplayComplineOne(s: Session, tok: Word, w: Word)
    requires Valid(s.trie) && tok == PrevToken(s.console.line, 0)
    requires tok in s.trie.completions && s.trie.completions[tok] == [w]
    requires SuffixFits(s.console.(prefix := tok), w)
    ensures DisplayCompline(s) == CompleteAtOnce(s, tok, w)
  {
    LookupFinds(s.trie, tok, 0);
  }

  /**
   * With two or more stored words extending the token, a completion request shows them: the
   * list becomes active and holds the most frequent of them, most frequent first, while the
   * line and the trie are untouched.
   */
  lemma DisplayComplineList(s: Session, a: Word, b: Word)
    requires Valid(s.trie) && a != b
    requires Matches(s.trie, PrevToken(s.console.line, 0), a)
    requires Matches(s.trie, PrevToken(s.console.line, 0), b)
    ensures var r, tok := DisplayCompline(s), PrevToken(s.console.line, 0);
      && r.console.state == ActiveCompl && r.console.prefix == tok
      && r.console.line == s.console.line && r.trie == s.trie
      && r.console.completions.NonNull?
      && var v := r.console.completions.value;
      && 2 <= |v|
      && (forall i :: 0 <= i < |v| ==> Matches(s.trie, tok, v[i]))
      && (forall i, j :: 0 <= i < j < |v| ==> v[i] != v[j])
      && (forall i, j :: 0 <= i < j < |v| ==> s.trie.frequency[v[j]] <= s.trie.frequency[v[i]])
      && (forall x :: Matches(s.trie, tok, x) && x !in v ==>
            |v| == N && s.trie.frequency[x] <= s.trie.frequency[v[N - 1]])
  {
    var tok := PrevToken(s.console.line, 0);
    ListOfMatches(s.trie, tok, a, b);
    var cands := s.trie.completions[tok];
    GetWordsSound(s.trie, tok);
    assert GetWords(s.trie, tok) == NonNull(cands);
    assert DisplayCompline(s) ==
      s.(console := s.console.(prefix := tok, state := ActiveCompl, completions := NonNull(cands)));
  }

  /**
   * Two distinct stored words extending `tok` put at least two entries in its node's cache,
   * all of them matches, distinct, most frequent first, and missing a match only when full.
   */
  lemma ListOfMatches(t: Trie, tok: Word, a: Word, b: Word)
    requires Valid(t) && a != b && Matches(t, tok, a) && Matches(t, tok, b)
    ensures tok in t.completions
    ensures var v := t.completions[tok];
      && 2 <= |v|
      && (forall i :: 0 <= i < |v| ==> Matches(t, tok, v[i]))
      && (forall i, j :: 0 <= i < j < |v| ==> v[i] != v[j])
      && (forall i, j :: 0 <= i < j < |v| ==> t.frequency[v[j]] <= t.frequency[v[i]])
      && (forall x :: Matches(t, tok, x) && x !in v ==>
            |v| == N && t.frequency[x] <= t.frequency[v[N - 1]])
  {
    MatchHasNode(t, tok, a);
    var cands := t.completions[tok];
    if |cands| < 2 {
      if a !in cands {
        MissingMeansFull(t, tok, a);
        assert false;
      }
      if b !in cands {
        MissingMeansFull(t, tok, b);
        assert false;
      }
      assert false;
    }
    GetWordsSound(t, tok);
    forall i | 0 <= i < |cands|
      ensures Matches(t, tok, cands[i])
    {
      CandidateFits(t, tok, i);
    }
    forall x | Matches(t, tok, x) && x !in cands
      ensures |cands| == N && t.frequency[x] <= t.frequency[cands[N - 1]]
    {
      MissingMeansFull(t, tok, x);
    }
  }

  /** A stored word that extends the token before the cursor completes the line. */
  lemma TokenFits(c: Console, word: Word)
    requires c.prefix == PrevToken(c.line, 0)
    requires IsWord(word) && IsPrefix(c.prefix, word)
    ensures SuffixFits(c, word)
  {
    assert c.line[..|c.line| - 0] == c.line;
  }

  /** console_flush: leaves an active candidate list; the line buffer is untouched. */
  function Flush(c: Console): (r: Console)
    ensures c.state != ActiveCompl ==> r == c
    ensures r.state == InactiveCompl
    ensures r.line == c.line && r.completions == c.completions && r.prefix == c.prefix
  {
    if c.state != ActiveCompl then
      assert c.state == InactiveCompl;
      c
    else c.(state := InactiveCompl)
  }

  /** The candidate in slot `choice` of the N-slot array; Null stands for a NULL slot. */
  function Slot(cands: Completions, choice: nat): Nullable<Word>
    requires choice < N
  {
    if choice < |cands| then NonNull(cands[choice]) else Null
  }

  /**
   * The guard of console_autocomplete as written: active, a list present, choice < N. It lets
   * through every negative choice, and the source then reads completions[choice] outside the
   * N-slot array.
   */
  predicate GuardAsWritten(c: Console, choice: int)
  {
    c.state == ActiveCompl && c.completions.NonNull? && !(choice >= N)
  }

  /** The guard with the missing lower bound: it admits exactly the slots of the array. */
  predicate Guard(c: Console, choice: int)
  {
    c.state == ActiveCompl && c.completions.NonNull? && 0 <= choice < N
  }

  /** Completing the typed "Jav" into "java" keeps the capital: the line becomes "Java ". */
  lemma AddSuffixKeepsCase(t: Trie)
    ensures AddSuffix(Session(Console("Jav", ActiveCompl, Null, "jav"), t), "java").console.line == "Java "
  {
    var s := Session(Console("Jav", ActiveCompl, Null, "jav"), t);
    assert ToLowerStr("Jav") == "jav";
    assert "java"[..3] == "jav";
    var after := AddSuffix(s, "java").console.line;
    CasesensExamples();
    assert "Jav"[0..] == "Jav";
    assert after[0..4] == "Java";
  }

  /** The digit keys: key d asks for slot d - '1', so '1' is slot 0 and '0' is slot -1. */
  function KeyChoice(key: char): (choice: int)
    requires IsDigit(key)
    ensures -1 <= choice < 9
    ensures choice == -1 <==> key == '0'
  {
    key as int - '1' as int
  }

  /** Key '0' on an active list passes the guard as written with a slot outside the array. */
  lemma ZeroKeyEscapesGuard(c: Console)
    requires c.state == ActiveCompl && c.completions.NonNull?
    ensures GuardAsWritten(c, KeyChoice('0')) && KeyChoice('0') == -1
    ensures !Guard(c, KeyChoice('0'))
  {
  }

  /** Whatever passes the corrected guard is a slot of the array. */
  lemma GuardInBounds(c: Console, choice: int)
    ensures Guard(c, choice) <==> GuardAsWritten(c, choice) && 0 <= choice
    ensures Guard(c, choice) ==> 0 <= choice < N
  {
  }

  /**
   * The editor invariant: the trie is valid, and an active list belongs to the current line:
   * it was computed for the token before the cursor and every candidate extends that token.
   */
  predicate Inv(s: Session)
  {
    && Valid(s.trie)
    && (s.console.state == ActiveCompl ==>
          && s.console.completions.NonNull?
          && |s.console.completions.value| >= 2
          && s.console.prefix == PrevToken(s.console.line, 0)
          && forall i :: 0 <= i < |s.console.completions.value| ==>
               IsWord(s.console.completions.value[i])
               && IsPrefix(s.console.prefix, s.console.completions.value[i]))
  }

  /**
   * console_autocomplete, with the corrected guard: status -1 and no change unless the list
   * is active and `choice` names an occupied slot; otherwise that candidate completes the
   * line, the list is dismissed and the status is 0.
   */
  function Autocomplete(s: Session, choice: int): (r: Reply)
    requires Inv(s)
    ensures r.status == -1 || r.status == 0
    ensures r.status == -1 <==>
      !Guard(s.console, choice) || Slot(s.console.completions.value, choice).Null?
    ensures r.status == -1 ==> r.session == s
    ensures r.status == 0 ==>
      && 0 <= choice < |s.console.completions.value|
      && SuffixFits(s.console, s.console.completions.value[choice])
      && r.session == Accept(s, s.console.completions.value[choice])
  {
    if s.console.state != ActiveCompl then Reply(s, -1)
    else if s.console.completions.Null? || choice >= N || choice < 0 then Reply(s, -1)
    else match Slot(s.console.completions.value, choice)
      case Null => Reply(s, -1)
      case NonNull(word) =>
        assert SuffixFits(s.console, word) by { TokenFits(s.console, word); }
        Reply(Accept(s, word), 0)
  }

  /**
   * An accepted completion: the typed prefix is completed into `word` and learned, and the
   * list is dismissed.
   */
  function Accept(s: Session, word: Word): (r: Session)
    requires SuffixFits(s.console, word)
    ensures CompletesWith(s.console.line, |s.console.line| - |s.console.prefix|, word, r.console.line)
    ensures r.console.state == InactiveCompl
    ensures r.console.completions == s.console.completions && r.console.prefix == s.console.prefix
    ensures r.trie.frequency == s.trie.frequency[word := Freq(s.trie.frequency, word) + 1]
  {
    var done := AddSuffix(s, word);
    done.(console := Flush(done.console))
  }

  /**
   * console_append: c goes at the end of the line (a newline empties it), the list becomes
   * inactive, and the trie learns what `Learn` says.
   */
  function Append(s: Session, c: char): (r: Session)
    requires c != '\0'
    ensures c != '\n' ==> r.console.line == s.console.line + [c]
    ensures c == '\n' ==> r.console.line == ""
    ensures r.console.state == InactiveCompl
    ensures r.console.completions == s.console.completions && r.console.prefix == s.console.prefix
    ensures r.trie == Learn(s.trie, s.console.line, c)
  {
    var line := s.console.line + [c];
    Session(s.console.(line := if c == '\n' then "" else line, state := InactiveCompl),
      Learn(s.trie, s.console.line, c))
  }

  /**
   * The learning step of console_append: a separator typed after a non-empty token counts one
   * more occurrence of that token; anything else leaves the trie alone.
   */
  function Learn(t: Trie, line: string, c: char): (r: Trie)
    ensures var tok := PrevToken(line, 0);
      IsSeparator(c) && |tok| > 0 ==> r.frequency == t.frequency[tok := Freq(t.frequency, tok) + 1]
    ensures var tok := PrevToken(line, 0);
      !(IsSeparator(c) && |tok| > 0) ==> r == t
  {
    PrevTokenSkip(line, c);
    if IsSeparator(c) && |PrevToken(line + [c], 1)| > 0 then Add(t, PrevToken(line + [c], 1)) else t
  }

  /** Skipping the character just typed leaves the token that was before the cursor. */
  lemma PrevTokenSkip(line: string, c: char)
    ensures PrevToken(line + [c], 1) == PrevToken(line, 0)
  {
    assert (line + [c])[..|line + [c]| - 1] == line[..|line| - 0];
  }

  /** console_erase: nothing happens on an empty line; otherwise the last character goes. */
  function Erase(c: Console): (r: Console)
    ensures |c.line| == 0 ==> r == c
    ensures |c.line| > 0 ==> r.line == c.line[..|c.line| - 1] && r.state == InactiveCompl
    ensures r.completions == c.completions && r.prefix == c.prefix
  {
    if |c.line| == 0 then c else c.(line := c.line[..|c.line| - 1], state := InactiveCompl)
  }

  /** A fresh editor on a fresh trie satisfies the editor invariant. */
  lemma InitInv()
    ensures Inv(Session(Init(), PrefixTrie.Init()))
  {
  }

  /** Typing a character keeps the invariant, and the trie passes trie_checkfreq afterwards. */
  lemma AppendPreserves(s: Session, c: char)
    requires Inv(s) && c != '\0'
    ensures Inv(Append(s, c))
    ensures CheckFreq(Append(s, c).trie)
  {
    var tok := PrevToken(s.console.line, 0);
    if IsSeparator(c) && |tok| > 0 {
      PrevTokenSkip(s.console.line, c);
      AddPreserves(s.trie, tok);
      assert Append(s, c).trie == Add(s.trie, tok);
    }
    ValidPassesCheckFreq(Append(s, c).trie);
  }

  /** Erasing and dismissing the list keep the invariant. */
  lemma EraseFlushPreserve(s: Session)
    requires Inv(s)
    ensures Inv(s.(console := Erase(s.console)))
    ensures Inv(s.(console := Flush(s.console)))
  {
  }

  /** A completion request keeps the invariant: a new list is one for the current token. */
  lemma DisplayComplinePreserves(s: Session)
    requires Inv(s)
    ensures Inv(DisplayCompline(s))
  {
    var tok := PrevToken(s.console.line, 0);
    match GetWords(s.trie, tok)
    case Null =>
    case NonNull(cands) =>
      if |cands| == 1 {
        CandidateFits(s.trie, tok, 0);
        TokenFits(s.console.(prefix := tok), cands[0]);
        AddPreserves(s.trie, cands[0]);
      } else if |cands| > 1 {
        forall i | 0 <= i < |cands|
          ensures IsWord(cands[i]) && IsPrefix(tok, cands[i])
        {
          CandidateFits(s.trie, tok, i);
        }
      }
  }

  /** Accepting a completion keeps the invariant. */
  lemma AutocompletePreserves(s: Session, choice: int)
    requires Inv(s)
    ensures Inv(Autocomplete(s, choice).session)
  {
    var r := Autocomplete(s, choice);
    if r.status == 0 {
      var word := s.console.completions.value[choice];
      AddPreserves(s.trie, word);
    }
  }

  /** Erasing what was just typed restores the line. */
  lemma EraseAfterAppend(s: Session, c: char)
    requires c != '\0' && c != '\n'
    ensures Erase(Append(s, c).console).line == s.console.line
    ensures Erase(Append(s, c).console).state == InactiveCompl
  {
    assert (s.console.line + [c])[..|s.console.line|] == s.console.line;
  }
}
