# dict-autocomp in Dafny

This is a model of the core of dict-autocomp, a terminal typing assistant. It has two parts:

- **The ranked prefix trie.** Each node caches the (at most) N = 5 most frequent words of its subtree, in frequency order. `trie_add` learns one more occurrence of a word. `trie_update` repairs the caches from the word's node up to the root. `trie_getwords` answers a prefix query. `trie_display` lists the dictionary.
- **The line editor.** It keeps a line buffer that is edited at its end. It also keeps a completion state (active / inactive), the candidate list of the last completion request, and the prefix that list was made for. Words reach the trie when a separator follows them and when a completion is accepted.

A node is identified by the prefix that leads to it, so the trie is two maps:

- `completions`: each allocated node's cache, as the sequence of its non-NULL slots;
- `frequency`: the leaf count of each stored word.

The parent of a node is its prefix without the last letter. Its children are the prefix plus one letter. The editor is an immutable record. Its trie travels with it (a `Session`) instead of living in a global.

Modules:

| file | module | models |
|---|---|---|
| pointers.dfy | Pointers | `Nullable` (a NULL pointer or a value) |
| ascii.dfy | Ascii | ASCII `ctype` classification and case mapping |
| helper.dfy | Helper | `is_separator`, `strcat_casesens` |
| trie.dfy | PrefixTrie | the node layout, the cache invariant, `trie_init`, `trie_getwords`, `trie_checkfreq` |
| trie_update.dfy | TrieUpdate | `trie_alloc_node`, `trie_add`, `trie_update` |
| trie_proofs.dfy | TrieProofs | that `trie_add` keeps every cache valid, the tie-break rules and the early stop |
| trie_listing.dfy | TrieListing | `trie_getword`, the padded `trie_getwords` result, `trie_display`/`trie_store` as a listing, `trie_load` as repeated adds |
| console.dfy | LineEditor | `console_*` and the digit-key mapping of `interact` |

The cache invariant (`PrefixTrie.CacheOk`) says that a node's cache:

- holds distinct stored words of its subtree;
- is sorted by non-increasing frequency;
- leaves out a stored word of the subtree only when it is full, and then only a word no more frequent than its last entry.

Where the code and its own comments or documentation differ, the model follows the code:

- `trie_add` accepts the empty word. It counts an occurrence at the root.
- A full cache whose last entry has the same frequency as the updated word evicts that entry. The scan skips entries with `frequency <= freq`.
- When the word is already cached but cannot move forward, the update goes on to the parent node. The `goto` lands inside the node loop.
- `strcat_casesens` decides upper case from the second character of the typed prefix. A one-letter capital prefix therefore gives all capitals: "J" + "java" is "JAVA".
- `console_erase` on an empty line returns before setting the state, so the state is kept.
- `console_append` never clears `completions`. It only sets the state to inactive.
- The one-candidate case of `console_display_compline` leaves `completions` as it was.

## Model

| member | source | states |
|---|---|---|
| Ascii.ToLowerStr | src/console.c:49-50 | the lower-cased token has the same length, and each character is its original's `tolower` |
| Ascii.ToUpperStr | src/helper.c:34-35 | the upper-cased suffix has the same length, and each character is its original's `toupper` |
| Helper.SeparatorClasses | src/helper.c:12-15 | a separator is exactly punctuation, space or newline; letters, digits and tab never are |
| Helper.CaseOf | src/helper.c:20-21 | lower-case mode exactly when the prefix is empty or starts lower-case; capitalised mode exactly when a non-lower first letter is followed by a lower-case one; all-caps otherwise |
| Helper.StrcatCasesens | src/helper.c:17-43 | the result is as long as the completion; the typed prefix is untouched; the returned offset is the prefix length; the appended part is the completion's tail, upper-cased exactly in all-caps mode |
| Helper.CasesensKeepsWord | src/helper.c:17-43 | when the prefix matches the completion up to case, the completed text lower-cases back to the completion |
| Helper.CasesensKeepsCase | src/helper.c:20-35 | the completed text has the same case mode as the typed prefix |
| Helper.CasesensExamples | src/helper.c:20-35 | "jav", "Jav", "JAV" and "J" completed with "java" give "java", "Java", "JAVA" and "JAVA" |
| PrefixTrie.AllocNode | src/trie.c:12-27 | a new node has an empty cache |
| PrefixTrie.Init | src/trie.c:128-131 | the new trie is the root alone, stores no word and satisfies the cache invariant |
| PrefixTrie.AncestorsExist | include/trie.h:18-25 | in a well-formed trie every prefix of an allocated node is an allocated node: parent links reach the root |
| PrefixTrie.Lookup | src/trie.c:190-198 | a found node is the node of the whole prefix, and the answer is its cache |
| PrefixTrie.LookupFinds | src/trie.c:190-198 | when the prefix's node exists, the walk reaches it and returns its cache |
| PrefixTrie.GetWords | src/trie.c:182-222 | an answer is the cache of the prefix's own node |
| PrefixTrie.GetWordsSound | src/trie.c:182-222 | NULL exactly when the prefix has no node; otherwise distinct stored words extending the prefix, most frequent first; a stored match is missing only from a full answer and is no more frequent than its last word |
| PrefixTrie.ValidPassesCheckFreq | src/trie.c:284-303 | every node passes `trie_checkfreq`: slot frequencies never increase, with a NULL slot counting -1 |
| PrefixTrie.CheckFreq | src/trie.c:284-303 | the recursive check passes exactly when every node's cache is in non-increasing frequency order |
| PrefixTrie.SlotsOrder | src/trie.c:294-301 | comparing each slot with the one before it, NULL slots counting -1, is the same as the whole cache being in frequency order |
| PrefixTrie.SlotsChain | src/trie.c:294-301 | when neighbouring slots never increase in frequency, no later slot is more frequent than an earlier one |
| TrieUpdate.InsertAt | src/trie.c:85-94 | slots before k are kept, the word is at k, later entries move back one place, and a full cache loses its last entry |
| TrieUpdate.Scan | src/trie.c:58-83 | the backward scan always settles the node; it never ends the walk |
| TrieUpdate.StepCache | src/trie.c:36-53 | the walk stops at a node exactly when its cache is full and its last entry is strictly more frequent than the word |
| TrieUpdate.Propagate | src/trie.c:34-98 | the repair changes no count, creates or removes no node, and touches no node off the word's path |
| TrieUpdate.Update | src/trie.c:30-99 | the leaf's count goes up by exactly one, and no node is created or removed |
| TrieUpdate.Alloc | src/trie.c:155-167 | a missing path node is created with an empty cache; existing nodes and all counts are kept |
| TrieUpdate.AddFrom | src/trie.c:155-178 | from depth j down, the path is allocated and the word counted once more |
| TrieUpdate.Count | src/trie.c:171-178 | with its path present, the word's count rises by one and no node is created |
| TrieUpdate.Add | src/trie.c:148-179 | the word's count rises by one (from 0 for a new word), every other count is kept, and the nodes added are exactly its missing prefixes |
| TrieUpdate.AddLeaf | src/trie.c:171-176 | a new word gets a leaf at count 0; a stored word keeps its leaf and count |
| TrieProofs.InsertShape | src/trie.c:85-94 | inserting an absent word into a distinct cache keeps it distinct, and the only word lost is the last entry of a full cache |
| TrieProofs.InsertPairOrder | src/trie.c:85-94 | after inserting the word behind the strictly more frequent entries, any two entries of the cache are in frequency order |
| TrieProofs.InsertOrder | src/trie.c:85-94 | inserting after the strictly more frequent entries keeps the cache sorted |
| TrieProofs.InsertOk | src/trie.c:85-94 | inserting an absent word at its place keeps the cache invariant under the bumped counts |
| TrieProofs.BubbleOk | src/trie.c:74-83 | swapping a cached word forward past entries that are not more frequent ends in a valid cache |
| TrieProofs.ScanOk | src/trie.c:58-94 | the scan from any slot, over later entries known to rank below, yields a valid cache |
| TrieProofs.StepPreserves | src/trie.c:36-94 | one node of the walk keeps its cache valid under the bumped counts; at a stop the word is not in that cache |
| TrieProofs.ScanPlaces | src/trie.c:58-94 | after the scan the word is cached, and every entry ahead of it is strictly more frequent |
| TrieProofs.InsertPlaces | src/trie.c:67-94 | when the scan stops at a strictly more frequent entry, the absent word is inserted right behind it and only more frequent entries precede it |
| TrieProofs.StopPlaces | src/trie.c:74-78 | when the cached word's left neighbour is strictly more frequent, every entry before the word is strictly more frequent |
| TrieProofs.StepPlaces | src/trie.c:64-94 | tie-breaks: unless the walk stops, the word ends up cached behind only strictly more frequent entries. A moved word overtakes equal neighbours; an absent word evicts an equal last entry |
| TrieProofs.BreakPropagates | src/trie.c:52-53 | when the walk stops at a node, every ancestor would stop too, so skipping the ancestors is sound |
| TrieProofs.PropagatePreserves | src/trie.c:34-98 | the upward walk leaves every cache valid |
| TrieProofs.AllocPreserves | src/trie.c:155-167 | allocating the next path node keeps the trie valid |
| TrieProofs.CountPreserves | src/trie.c:171-178 | creating the leaf and updating keeps the trie valid |
| TrieProofs.AddPreserves | src/trie.c:148-179 | `trie_add` of a lower-case word keeps every cache valid |
| TrieProofs.AddStoredWordKeepsNodes | src/trie.c:155-178 | re-adding a stored word creates no node |
| TrieProofs.AddTimesFrequency | src/trie.c:32 | after n adds of a word its count has risen by n, and every other count is kept |
| TrieListing.GetWord | src/trie.c:104-125 | the rebuilt word is the word of the leaf, and the returned length is its depth |
| TrieListing.Reverse | src/trie.c:117-122 | the in-place reversal puts the character at k in slot length-1-k |
| TrieListing.GetWordsPadded | src/trie.c:182-222 | NULL exactly when the prefix's path is missing; otherwise N slots holding the cache in order, with the NULL slots behind |
| TrieListing.Display | src/trie.c:267-282 | a missing node lists nothing; a node whose own prefix is a stored word lists that word first |
| TrieListing.DisplayMembers | src/trie.c:267-282 | a node's listing holds exactly the stored words extending its prefix |
| TrieListing.DisplaySorted | src/trie.c:267-282 | the pre-order listing with ascending children is in strict `strcmp` order |
| TrieListing.SortedDistinct | src/trie.c:267-282 | a strictly ordered listing has no repeats |
| TrieListing.StoredListing | src/trie.c:251-282 | the saved dictionary lists each stored word exactly once, sorted, and nothing else |
| TrieListing.Load | src/trie.c:238-245 | loading keeps every node and every stored word already present |
| TrieListing.LoadFrequency | src/trie.c:238-245 | loading raises each word's count by its number of occurrences in the list |
| TrieListing.LoadWords | src/trie.c:238-245 | loading stores exactly the listed words besides those already stored |
| TrieListing.LoadPreserves | src/trie.c:238-245 | loading keeps every cache valid |
| TrieListing.StoreAfterLoad | src/trie.c:225-282 | saving a freshly loaded list writes each listed word once, sorted |
| TrieListing.LoadAfterStore | src/trie.c:225-282 | loading a saved dictionary into a new trie stores exactly the saved words, each at count 1 |
| LineEditor.Init | src/console.c:16-22 | corrected: a new console has an empty line, no candidate list and completion inactive |
| LineEditor.InitAsWritten | src/console.c:16-22 | as written: the new console keeps whatever text was in the buffer, with no candidate list and completion inactive |
| LineEditor.StaleLineLearnsUntypedWord | src/console.c:16-22 | as written, a stale lowercase word left in the buffer is counted once more by the first separator typed, though it was never typed |
| LineEditor.EmptyLineLearnsNothing | src/console.c:16-22 | from the corrected start, the first key typed teaches the trie nothing |
| LineEditor.WordIsOwnToken | src/console.c:25-53 | a line that is one lowercase word reads back as that word |
| LineEditor.TokenStart | src/console.c:33-40 | the backward scan stops at the first non-letter or at the start of the line, and only letters lie after it |
| LineEditor.PrevToken | src/console.c:25-53 | the token is the lower-cased maximal run of letters at the end of the line minus its last `skip` characters |
| LineEditor.PrevTokenSkip | src/console.c:187-189 | skipping the character just typed gives back the token that was before the cursor |
| LineEditor.Spliced | src/console.c:59-69 | the line keeps everything before the typed prefix; the prefix keeps its letters as typed; the rest of the word follows in the prefix's case (all capitals in all-caps mode); one space ends the line |
| LineEditor.AddSuffix | src/console.c:55-80 | the typed prefix is completed into the word as `strcat_casesens` does it, so the typed letters are kept and the rest follows their case, then a space; the line length is old - prefix + word + 1; the word is counted once more |
| LineEditor.AddSuffixKeepsCase | src/helper.c:20-21 | completing the typed "Jav" with "java" gives the line "Java ": the capital typed is kept |
| LineEditor.CompleteAtOnce | src/console.c:96-108 | a single candidate completes the line in the typed prefix's case, is learned, caches the token as prefix and leaves completion inactive |
| LineEditor.DisplayCompline | src/console.c:83-125 | a completion request either activates a list and keeps the line and trie, or keeps the line and changes nothing in the trie, or lengthens the line, caching the token as prefix and leaving completion inactive |
| LineEditor.DisplayComplineNone | src/console.c:85-90 | with no stored word extending the token, nothing changes |
| LineEditor.DisplayComplineSole | src/console.c:85-108 | with exactly one stored word extending the token, the line is completed with it at once |
| LineEditor.ListOfMatches | src/console.c:85-123 | two distinct stored words extending the token mean the token's node exists and its cache holds at least two matching words, distinct and most frequent first, missing a match only when full |
| LineEditor.DisplayComplineList | src/console.c:85-123 | with two or more stored matches, the line and the trie are kept; completion becomes active; the list holds at least two distinct matches, most frequent first; a match is missing only from a full list and is no more frequent than its last entry |
| LineEditor.Flush | src/console.c:127-145 | nothing changes unless completion is active; afterwards it is inactive, with the line, list and prefix kept |
| LineEditor.GuardInBounds | src/console.c:153 | the corrected guard is the original guard plus `choice >= 0`, and it admits only slots of the array |
| LineEditor.Autocomplete | src/console.c:148-170 | -1 and no change exactly when completion is inactive, there is no list, the choice is out of range or the slot is NULL; otherwise 0, and the chosen candidate completes the line |
| LineEditor.Accept | src/console.c:161-167 | the chosen candidate completes the line in the typed prefix's case, is counted once more, and completion ends inactive |
| LineEditor.Learn | src/console.c:186-198 | a separator after a non-empty token counts that token once more; anything else leaves the trie as it was |
| LineEditor.Append | src/console.c:174-209 | the line grows by the character, or empties on newline; completion ends inactive; the trie learns the preceding token exactly when the character is a separator |
| LineEditor.Erase | src/console.c:212-234 | an empty line changes nothing; otherwise exactly the last character goes and completion becomes inactive |
| LineEditor.EraseAfterAppend | src/console.c:174-234 | erasing a character just typed (not a newline) restores the line |
| LineEditor.InitInv | src/console.c:16-22 | the starting editor and trie satisfy the editor invariant |
| LineEditor.AppendPreserves | src/console.c:174-209 | appending keeps the editor invariant, and the trie passes `trie_checkfreq` afterwards |
| LineEditor.EraseFlushPreserve | src/console.c:127-145 | erasing and flushing keep the editor invariant |
| LineEditor.DisplayComplinePreserves | src/console.c:83-125 | a completion request keeps the editor invariant: an active list has at least two candidates, all extending the token before the cursor |
| LineEditor.AutocompletePreserves | src/console.c:148-170 | accepting a candidate keeps the editor invariant |
| LineEditor.KeyChoice | src/term.c:30-31 | a digit key asks for a slot from -1 to 8, and -1 exactly for key '0' |
| LineEditor.ZeroKeyEscapesGuard | src/term.c:31 | key '0' asks for slot -1, which passes the guard as written but not the corrected one |

## Left out

- Terminal output is not modelled. This covers the echo of typed characters, the VT100 cursor moves, the candidate line and the printing of the completed suffix.
- The blocking read loop of `interact` in src/term.c is not modelled. Only its digit-key mapping (`KeyChoice`) is.
- `main`, argument parsing and building the dictionary path are not modelled, because they are plumbing.
- `trie_destroy` and all `malloc`/`free` are left out. The model has no pointers, so nothing needs freeing.
- The file handling of `trie_load` and `trie_store` (opening, `fgets`, newline stripping, exit on error) is left out. Load is a list of words; store is the listing of `trie_display`.
- The fixed capacities (`BUFSIZ` line and word buffers, the 128-byte prefix) are not modelled, because lines and words are unbounded.
- `trie_getwords` returns a pointer into one static array that the next call overwrites. The model returns a fresh list. This is equivalent for the editor, because the state only becomes active together with a freshly stored list.
- Character classification is plain ASCII. Locale-dependent `ctype` behaviour is not modelled.
- Leaf counts are unbounded naturals. The source keeps them in `size_t` and compares them with an `int` copy, so overflow is not modelled.
- The root node is passed explicitly rather than read from a global.
- TrieUpdate.Add: requires a lower-case word. The source asserts that every character is alphabetic and indexes children by `c - 'a'`, so an upper-case letter would index outside the child array.
- LineEditor.Autocomplete: rejects a negative choice, which the source does not (see Findings).

## Findings

| source | as written | input that shows it | evidently intended | confidence | as-written member | corrected member |
|---|---|---|---|---|---|---|
| src/console.c:153 | the guard `choice >= N` has no lower bound | key '0' on an active list: src/term.c:31 passes `'0' - '1'` = -1, which passes the guard, and `completions[-1]` is read | only slots 0..N-1 are accepted | not executed | LineEditor.ZeroKeyEscapesGuard | LineEditor.Autocomplete |
| src/console.c:16-22 | `console_init` stores '\0' only before the buffer and never in `linebuf[0]`, and src/term.c:12 declares the console as an uninitialised local | the stack held "ab" where the buffer lies; the user types ' ' first, and "ab" is counted as a typed word | the line starts empty | not executed | LineEditor.StaleLineLearnsUntypedWord | LineEditor.Init |
