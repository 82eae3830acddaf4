# Wikibot link search, modelled in Dafny

Wikibot looks for a chain of Wikipedia links from a source page to a target
page. Its search engine (class `WikiApi`) first builds a word-frequency
table of the target page's text. It then explores pages one at a time. For
each explored page it scores the outbound links by how often the words of
each link title occur in the target page, and keeps the best
`neighbors_to_check` of them. If one of those top links names the target,
the search stops. Otherwise the unvisited top links join the frontier. The
breadth-first search (`bfs_search`) uses a FIFO queue as the frontier. The
greedy search (`greedy_search`) uses a `heapq` min-heap keyed by the
negated score. Every explored page is recorded with its parent, and so is
the target once it is found. An adjacency dict records which page led to
which. `trace_path_backwards` follows the parent chain back from the
target.

The project also models three smaller parts:

- the console version of the engine (top-level `wikiAPI_functions.py`):
  its word-frequency table and its prioritised list of a page's links;
- the editing rules of the GUI's text boxes (`TypeFuncs`);
- the settings-file reader (`Settings`).

Modules, in dependency order:

| module | file | models |
|---|---|---|
| `Options` | options.dfy | `Option` |
| `Text` | text.dfy | ASCII `str.upper`/`lower`, `\w+` and `str.split()` tokenising, dict-key deduplication |
| `Ranking` | ranking.dfy | `sorted(..., reverse=True)` as a stable sort, Python slicing `[:n]` |
| `WordCounts` | wordcounts.dfy | `Counter` over the non-stop-word tokens, sorted by count |
| `Registry` | registry.dfy | the visited `WikiPage` objects, the adjacency dict, the parent chain |
| `Heap` | heap.dfy | the `heapq` frontier and Python's tuple order |
| `Relevance` | relevance.dfy | the page source, the target's word frequencies, the link scorer |
| `Engine` | engine.dfy | class `WikiApi`: both searches, `search`, path tracing, the getters |
| `Prioritizer` | prioritizer.dfy | the console version's `get_word_frequency` and `get_prioritized_titles` |
| `TypeFuncs` | typefuncs.dfy | `backspace`, `type_alphanum`, `type_numeric` on a text-box class |
| `Settings` | settings.dfy | `Settings.__init__`: line clean-up in an array, then `key=value` parsing |

The model is functional where the source only computes. It is imperative
where the source changes state:

- `WikiApi` is a class whose fields are the visited records, the adjacency
  dict and the target object's state. Its search methods modify them and
  are proved against the predicates `Searching` (the loop invariant) and
  `Searched` (the outcome).
- The text box is a class whose methods update its text and size.
- The settings file is an `array` of lines, cleaned in place.

The encyclopedia, the English word-frequency corpus (`wordfreq`) and
`math.log10` are collaborators outside the core. They become the fields of
an `Oracle` value: a function from a title to its links (or a missing page,
or a failed fetch), a function from a title to its text, a rarity function
and a logarithm function.

Points worth knowing about the source:

- Both stop-word sets have 57 words.
- The scorer's sort is stable. Links with equal scores keep their link
  order (`Relevance.CandidatesKeepTiesInLinkOrder`).
- A page that does not exist is not an error. The fetch helpers return the
  string `"Page not found"`, and the callers iterate over it one character
  at a time (`Relevance.MissingPageLinksAreCharacters`,
  `Prioritizer.MissingCurrentPageGivesCharacters`). They also test
  membership on it as a substring (`Prioritizer.MissingTargetMatchesSubstrings`).
- Only a failed fetch of a page's links (an exception from the library)
  is caught by the searches. The page has already been recorded in the
  visited set and in the adjacency dict by then; only its links are
  dropped, none of them is queued (`Engine.WikiApi.ExploreEntry`,
  `Engine.QueuedLinks`).
- `neighbors_to_check` is not validated. A negative value slices off the
  last entries, as Python's `[:n]` does (`Relevance.CandidatesBounded`).
- In `settings.py`, the guard `len(data) == 0` can never be true, because
  a split gives at least one piece. A known key without `=` therefore
  reaches `data[1]` and raises `IndexError`, and nothing catches it
  (`Settings.KeyWithoutValueRaises`).

## Model

| member | source | states |
|---|---|---|
| Text.Upper | Wikibot/wikiapi/wikiAPI_functions.py:63 | `text.upper()`: same length; each character upper-cased, no ASCII lower-case letter left, word and space classes kept |
| Text.Lower | wikiAPI_functions.py:57 | `text.lower()`: same length; each character lower-cased, no upper-case letter left |
| Text.RunLength | Wikibot/wikiapi/wikiAPI_functions.py:63 | the longest leading run of class characters: all of them in the class, the next one not |
| Text.Runs | Wikibot/wikiapi/wikiAPI_functions.py:63 | `re.findall(r'\w+', ...)` / `str.split()`: every token is non-empty and made of class characters only |
| Text.RunsKeepEveryClassChar | Wikibot/wikiapi/wikiAPI_functions.py:63 | tokenising loses no class character: the tokens joined are exactly the class characters of the text, in order |
| Text.RunsOfRun | wikiAPI_functions.py:73 | a string made only of class characters is one token |
| Text.KeepAppend | Wikibot/wikiapi/wikiAPI_functions.py:63 | filtering the characters of a concatenation filters each part |
| Text.Dedup | Wikibot/wikiapi/wikiAPI_functions.py:164 | the keys of a dict built from a list: the same elements, each once |
| Text.DedupKeepsOrder | wikiAPI_functions.py:73 | the dict keys keep the order of first occurrence |
| Text.IndexOf | Wikibot/wikiapi/wikiAPI_functions.py:144-146 | the first position holding an element |
| Text.DistinctAfterPermutation | Wikibot/wikiapi/wikiAPI_functions.py:186 | reordering a list without repetitions keeps it without repetitions |
| WordCounts.Without | Wikibot/wikiapi/wikiAPI_functions.py:66 | the tokens not in the stop-word set, in order: exactly those, each as often as before |
| WordCounts.WithoutOnlyStopWords | Wikibot/wikiapi/wikiAPI_functions.py:161 | a list made only of stop words leaves nothing |
| WordCounts.Lookup | Wikibot/wikiapi/wikiAPI_functions.py:170-178 | `word in d` / `d[word]`: found exactly when the word is a key, with that key's count |
| WordCounts.FrequenciesCountTokens | Wikibot/wikiapi/wikiAPI_functions.py:63-69 | the sorted frequency dict holds exactly the counted tokens, each once, each with its number of occurrences, by decreasing count |
| WordCounts.LowerTableHasNoCapitals | wikiAPI_functions.py:57-63 | a word with a capital letter is never a key of the table built from lower-cased text |
| WordCounts.TokensComeFromText | Wikibot/wikiapi/wikiAPI_functions.py:63 | every character of a token occurs in the text |
| Ranking.Insert | Wikibot/wikiapi/wikiAPI_functions.py:186 | one insertion step of the sort: keeps the list sorted and adds exactly the element |
| Ranking.SortDesc | Wikibot/wikiapi/wikiAPI_functions.py:186 | `sorted(..., key, reverse=True)`: a permutation of the input, by non-increasing key |
| Ranking.SortDescStable | Wikibot/wikiapi/wikiAPI_functions.py:186 | the sort is stable: the elements with any one key value keep their input order |
| Ranking.InsertStable | Wikibot/wikiapi/wikiAPI_functions.py:186 | one insertion step keeps the elements of every key value in their order |
| Ranking.SliceStop | Wikibot/wikiapi/wikiAPI_functions.py:187 | the length `[:n]` keeps: `min(n, len)` for `n >= 0`, `max(0, len + n)` otherwise |
| Ranking.PrefixHoldsTheBest | Wikibot/wikiapi/wikiAPI_functions.py:187 | an element left out of the first `m` of a sorted permutation has a key no larger than any of them |
| Ranking.WithKeyPrefix | Wikibot/wikiapi/wikiAPI_functions.py:187 | the elements with a key value, taken from a list, are those from its first `m` followed by those from the rest |
| Heap.StrLessTotal | Wikibot/wikiapi/wikiAPI_functions.py:320 | Python's string `<` orders any two different strings |
| Heap.StrLessTransitive | Wikibot/wikiapi/wikiAPI_functions.py:320 | Python's string `<` is transitive |
| Heap.StrLessIrreflexive | Wikibot/wikiapi/wikiAPI_functions.py:320 | no string is smaller than itself |
| Heap.EntryLessTotal | Wikibot/wikiapi/wikiAPI_functions.py:320 | the tuple order on `(-score, (title, parent))` orders any two different entries |
| Heap.EntryLessTransitive | Wikibot/wikiapi/wikiAPI_functions.py:320 | the tuple order is transitive |
| Heap.EntryLessIrreflexive | Wikibot/wikiapi/wikiAPI_functions.py:320 | no entry is smaller than itself |
| Heap.LeastIndex | Wikibot/wikiapi/wikiAPI_functions.py:281 | `heappop` takes an entry that no entry is smaller than, so one with the least priority (the best score) |
| Heap.PoppedIsLeast | Wikibot/wikiapi/wikiAPI_functions.py:281 | the popped entry is smaller than every other entry of the heap |
| Heap.RemoveAt | Wikibot/wikiapi/wikiAPI_functions.py:281 | after the pop the heap holds exactly the other entries |
| Heap.Pages | Wikibot/wikiapi/wikiAPI_functions.py:281 | the `(title, parent)` pairs of the heap, entry by entry |
| Relevance.Characters | Wikibot/wikiapi/wikiAPI_functions.py:164 | iterating over a string gives its one-character strings, in order |
| Relevance.PageWordFrequency | Wikibot/wikiapi/wikiAPI_functions.py:56-70 | definition: the sentinel when the page text is `"Page not found"`, otherwise the counted table of the upper-cased non-stop tokens (its properties: `Relevance.PageWordFrequencyCounts`) |
| Relevance.TitleScore | Wikibot/wikiapi/wikiAPI_functions.py:162-181 | definition: the mean contribution of the title's non-stop words, and 0 when it has none (its properties: `Relevance.ScoreWithoutUniqueness`, `Relevance.StopWordTitleScoresZero`) |
| Relevance.Candidates | Wikibot/wikiapi/wikiAPI_functions.py:154-187 | definition: raised when the link fetch fails; otherwise the scored links sorted by decreasing score and cut to `[:neighbors_to_check]` (its properties: the `Relevance.Candidates*` lemmas) |
| Relevance.PageWordFrequencyCounts | Wikibot/wikiapi/wikiAPI_functions.py:56-70 | for a page that was found, the dict holds each upper-cased non-stop-word token with its count, each once, by decreasing count; it becomes the target's `word_frequency` |
| Relevance.MissingPageWordFrequency | Wikibot/wikiapi/wikiAPI_functions.py:19 | a missing target gives the sentinel, and its `word_frequency` stays the empty dict |
| Relevance.ScoreAll | Wikibot/wikiapi/wikiAPI_functions.py:164-183 | `links_and_indices` before sorting: every considered title paired with its relation score, in link order |
| Relevance.RankedEntries | Wikibot/wikiapi/wikiAPI_functions.py:186 | sorting keeps each entry a considered title with its own score |
| Relevance.DistinctPrefix | Wikibot/wikiapi/wikiAPI_functions.py:186-187 | the kept entries name no title twice |
| Relevance.CandidatesBounded | Wikibot/wikiapi/wikiAPI_functions.py:157-187 | the scorer raises exactly when fetching the links fails; otherwise it returns `[:neighbors_to_check]` of the links, so at most `n` for `n >= 0` |
| Relevance.CandidatesAreScoredLinks | Wikibot/wikiapi/wikiAPI_functions.py:154-187 | every returned key is a link title of the page, each once, with its own relation score |
| Relevance.CandidateTitlesAreLinks | Wikibot/wikiapi/wikiAPI_functions.py:157-164 | the returned titles are links of the page (none when the scorer raised) |
| Relevance.CandidatesAreBest | Wikibot/wikiapi/wikiAPI_functions.py:186-187 | the result is best first, and every link left out scores no more than any link kept |
| Relevance.BestFirstTop | Wikibot/wikiapi/wikiAPI_functions.py:186-187 | a leading part of a best-first ordering is best first, and every title outside it scores no more |
| Relevance.CandidatesKeepTiesInLinkOrder | Wikibot/wikiapi/wikiAPI_functions.py:186-187 | for each score value, the links kept with that score are the first ones with it in link order |
| Relevance.StopWordTitleScoresZero | Wikibot/wikiapi/wikiAPI_functions.py:179-182 | a title made only of stop words scores 0 (the division by zero is caught) |
| Relevance.ScoreWithoutUniqueness | Wikibot/wikiapi/wikiAPI_functions.py:177-182 | with `adjust_for_word_uniqueness` off, a title's score is the mean target frequency of its non-stop words |
| Relevance.WordSumWithoutUniqueness | Wikibot/wikiapi/wikiAPI_functions.py:177-178 | with the weight fixed at 1, `total_freq` is the sum of the target frequencies of the words |
| Relevance.NoTargetWordsScoreZero | Wikibot/wikiapi/wikiAPI_functions.py:168-183 | with an empty target dict every link scores 0 |
| Relevance.MissingPageLinksAreCharacters | Wikibot/wikiapi/wikiAPI_functions.py:30-31 | a missing page is not an error: its "links" are characters of `"Page not found"` |
| Registry.PageTitles | Wikibot/wikiapi/wikiAPI_functions.py:144-145 | the titles of the visited objects, object by object |
| Registry.PathTo | Wikibot/wikiapi/wikiAPI_functions.py:190-201 | definition: the titles along the parent chain from the source to record `i`, each step moving to the first record with the parent's title (its properties: `Registry.PathEnds`, `Registry.PathSteps`, `Registry.TracedPathEdges`) |
| Registry.DistinctTitlesCount | Wikibot/wikiapi/wikiAPI_functions.py:132-133 | records with distinct titles: the set has as many objects as there are titles |
| Registry.EmptyRegistry | Wikibot/wikiapi/wikiAPI_functions.py:221-222 | the cleared registry and dict satisfy the registry invariant |
| Registry.RecordVisit | Wikibot/wikiapi/wikiAPI_functions.py:233-241 | recording an explored page keeps the invariant; the page joins its parent's list and gets an empty list |
| Registry.RecordKeepsShape | Wikibot/wikiapi/wikiAPI_functions.py:233-241 | recording a new child of a recorded page keeps the registry's shape: start record first, parents earlier, distinct non-empty titles, no early title matching the target |
| Registry.AdjacencyAfterStart | Wikibot/wikiapi/wikiAPI_functions.py:238-241 | after the start page the dict is `{source: []}` |
| Registry.AdjacencyAfterVisit | Wikibot/wikiapi/wikiAPI_functions.py:238-241 | the two dict updates for a recorded page equal the dict of the longer record list |
| Registry.AdjacencyAfterTarget | Wikibot/wikiapi/wikiAPI_functions.py:251-254 | the two dict updates for the target equal the dict of the record list with the target added |
| Registry.RecordTarget | Wikibot/wikiapi/wikiAPI_functions.py:251-252 | adding the target object under an explored page gives a found registry with that parent |
| Registry.TargetAdded | Wikibot/wikiapi/wikiAPI_functions.py:251-254 | the target record and the two dict updates together keep the invariant |
| Registry.ChildListed | Wikibot/wikiapi/wikiAPI_functions.py:239 | every recorded page is listed under its parent |
| Registry.NoRecordHasParent | Wikibot/wikiapi/wikiAPI_functions.py:239-241 | a title not yet recorded is nobody's parent, so its new list is empty |
| Registry.ParentIndex | Wikibot/wikiapi/wikiAPI_functions.py:197 | the record the trace moves to comes earlier and carries the parent's title |
| Registry.ParentIndexIsFirst | Wikibot/wikiapi/wikiAPI_functions.py:143-146 | it is the first object with that title, the one the lookup returns |
| Registry.FoundChain | Wikibot/wikiapi/wikiAPI_functions.py:191 | a found registry starts at the source record and ends at the target record |
| Registry.TraceStep | Wikibot/wikiapi/wikiAPI_functions.py:195-197 | one step of the trace loop keeps "collected so far, reversed, completes the path" |
| Registry.TraceLast | Wikibot/wikiapi/wikiAPI_functions.py:198-200 | the two final appends and the reversal finish the path |
| Registry.PathEnds | Wikibot/wikiapi/wikiAPI_functions.py:190-201 | the traced path starts at the source, ends at the traced record and has at least two titles |
| Registry.PathSteps | Wikibot/wikiapi/wikiAPI_functions.py:195-198 | each step of the path goes from a page to a page recorded with it as parent |
| Registry.LinkIsEdge | Wikibot/wikiapi/wikiAPI_functions.py:239-254 | when source and target differ, a page recorded under a parent is in that parent's list of the final dict |
| Registry.LinksAreEdges | Wikibot/wikiapi/wikiAPI_functions.py:239-254 | a chain of recorded parent links is a chain of dict edges |
| Registry.TracedPathEdges | Wikibot/wikiapi/wikiAPI_functions.py:190-201 | when source and target differ, each step of the traced path is an edge of the adjacency dict |
| Registry.ReverseAppend | Wikibot/wikiapi/wikiAPI_functions.py:200 | `list.reverse()` puts the last element appended first |
| Engine.UpperAll | Wikibot/wikiapi/wikiAPI_functions.py:249 | `[word.upper() for word in ...]`, element by element |
| Engine.Unvisited | Wikibot/wikiapi/wikiAPI_functions.py:262-264 | definition: the entries a page's top links add to the queue, one `(link, page)` per link that has no object, in link order (its properties: `Engine.UnvisitedStep`, `Engine.UnvisitedBounded`) |
| Engine.Pushes | Wikibot/wikiapi/wikiAPI_functions.py:317-320 | definition: the heap entries a page's top links add, one `(-score, (link, page))` per link that has no object, in link order (its properties: `Engine.PushesStep`, `Engine.PushesBounded`) |
| Engine.MentionsIsExists | Wikibot/wikiapi/wikiAPI_functions.py:249 | the detection test holds exactly when some top link equals the target ignoring case |
| Engine.FrontPopped | Wikibot/wikiapi/wikiAPI_functions.py:226 | `popleft` takes the first entry and leaves the others |
| Engine.HeapPopped | Wikibot/wikiapi/wikiAPI_functions.py:281 | `heappop` takes one entry and leaves the others |
| Engine.Visitable | Wikibot/wikiapi/wikiAPI_functions.py:229-235 | an entry that is not skipped is a new, non-empty title of the universe, reached from a recorded page and not the target |
| Engine.SkipKeeps | Wikibot/wikiapi/wikiAPI_functions.py:229-231 | skipping an entry whose page is recorded keeps the loop invariant |
| Engine.VisitKeeps | Wikibot/wikiapi/wikiAPI_functions.py:233-241 | recording a page whose top links miss the target leaves the invariant waiting for its links to be queued |
| Engine.PushKeeps | Wikibot/wikiapi/wikiAPI_functions.py:264 | queueing a top link of the expanded page keeps the frontier invariant |
| Engine.ExpandDone | Wikibot/wikiapi/wikiAPI_functions.py:262-264 | once every top link is recorded or queued, the loop invariant holds again |
| Engine.ReachedResult | Wikibot/wikiapi/wikiAPI_functions.py:249-255 | finding the target among the top links ends with the found outcome |
| Engine.ExhaustedResult | Wikibot/wikiapi/wikiAPI_functions.py:224-266 | an empty frontier ends with every top link explored and none naming the target |
| Engine.Progress | Wikibot/wikiapi/wikiAPI_functions.py:233-235 | recording a new page leaves fewer unrecorded pages of the universe |
| Engine.UnvisitedStep | Wikibot/wikiapi/wikiAPI_functions.py:262-264 | the queued entries after one more link |
| Engine.UnvisitedBounded | Wikibot/wikiapi/wikiAPI_functions.py:262-264 | a page adds at most one queue entry per top link |
| Engine.EnqueueStart | Wikibot/wikiapi/wikiAPI_functions.py:262 | the queueing loop starts with no link looked at |
| Engine.EnqueueStep | Wikibot/wikiapi/wikiAPI_functions.py:262-264 | looking at one more link queues it exactly when it has no object, keeping the frontier invariant |
| Engine.EnqueueSkip | Wikibot/wikiapi/wikiAPI_functions.py:263 | a link that already has an object adds nothing |
| Engine.EnqueuePush | Wikibot/wikiapi/wikiAPI_functions.py:264 | a link without an object is queued under the expanded page |
| Engine.EnqueueDone | Wikibot/wikiapi/wikiAPI_functions.py:262-264 | after all links the loop invariant holds and the queue grew by exactly the unvisited links |
| Engine.LookedPush | Wikibot/wikiapi/wikiAPI_functions.py:264 | a queued link counts as looked at |
| Engine.PushesStep | Wikibot/wikiapi/wikiAPI_functions.py:317-320 | the pushed entries after one more link, score negated |
| Engine.PushesBounded | Wikibot/wikiapi/wikiAPI_functions.py:317-320 | a page pushes at most one heap entry per top link |
| Engine.PagesAppend | Wikibot/wikiapi/wikiAPI_functions.py:320 | a push adds its `(title, parent)` pair to the heap's pairs |
| Engine.PushStart | Wikibot/wikiapi/wikiAPI_functions.py:317 | the push loop starts with no link looked at |
| Engine.PushStep | Wikibot/wikiapi/wikiAPI_functions.py:317-320 | looking at one more link pushes `(-score, (link, page))` exactly when it has no object |
| Engine.PushDone | Wikibot/wikiapi/wikiAPI_functions.py:317-320 | after all links the loop invariant holds and the heap grew by exactly the unvisited links |
| Engine.PoppedTitles | Wikibot/wikiapi/wikiAPI_functions.py:226 | the titles of the frontier after a pop are those before it, less at most the popped one |
| Engine.TopTitlesInUniverse | Wikibot/wikiapi/wikiAPI_functions.py:157-164 | the top links of a page of the universe are in the universe |
| Engine.FirstMatching | Wikibot/wikiapi/wikiAPI_functions.py:143-146 | the loop returns the first object with the title, or none exactly when no object has it |
| Engine.TraceBack | Wikibot/wikiapi/wikiAPI_functions.py:192-201 | the trace loop returns the parent chain from the source to the last record |
| Engine.TracedPath | Wikibot/wikiapi/wikiAPI_functions.py:190-201 | `None` exactly when the target is not recorded; otherwise the trace runs from the source to the target, along dict edges when the two differ |
| Engine.WikiApi.constructor | Wikibot/wikiapi/wikiAPI_functions.py:72-93 | the options are stored, the target's word frequencies are computed once, and the registry and dict start empty |
| Engine.WikiApi.TopsClosed | Wikibot/wikiapi/wikiAPI_functions.py:157-187 | the top links of the universe's pages stay in the universe |
| Engine.WikiApi.NumberOfVisitedSites | Wikibot/wikiapi/wikiAPI_functions.py:132-133 | the size of the visited set: one per explored title, plus the target object once found |
| Engine.WikiApi.GetObjectMatchingPageTitle | Wikibot/wikiapi/wikiAPI_functions.py:143-146 | the first visited object with the title, none exactly when there is none |
| Engine.WikiApi.TotalFrequency | Wikibot/wikiapi/wikiAPI_functions.py:168-178 | the loop's `total_freq` is the sum of count times weight over the title's words found in the target dict |
| Relevance.FoundContribution | Wikibot/wikiapi/wikiAPI_functions.py:170-178 | a title word found in the target dict with count `f` adds `f` times its weight (10, `-log10(freq) - 1` or 1) |
| Engine.WikiApi.MostSimilarLinksToTarget | Wikibot/wikiapi/wikiAPI_functions.py:154-187 | the method computes the scorer's result (whose properties are the `Relevance.Candidates*` lemmas) |
| Engine.WikiApi.AddVisited | Wikibot/wikiapi/wikiAPI_functions.py:233-241 | the page object joins the set and the dict is updated, keeping the class invariant |
| Engine.WikiApi.AddTarget | Wikibot/wikiapi/wikiAPI_functions.py:251-254 | the target object gets the page as parent, joins the set, and the dict is updated, keeping the invariant |
| Engine.WikiApi.VisitPage | Wikibot/wikiapi/wikiAPI_functions.py:233-255 | one exploration: record the page, then fail if the scorer raised, stop exactly when a top link names the target (ignoring case), or else hand back the top links |
| Engine.WikiApi.ExploredQueueing | Wikibot/wikiapi/wikiAPI_functions.py:257-262 | an exploration that did not find the target leaves its top links (none if the scorer raised) to queue |
| Engine.WikiApi.ExploreEntry | Wikibot/wikiapi/wikiAPI_functions.py:233-259 | the target found: the entry and then the target (with the entry as parent) are appended to the visited pages and the target's parent is the entry; otherwise only the entry is appended, the target's parent is unchanged, fewer pages are left, and the links still to queue are exactly what the scorer returned for the page (none when it raised) |
| Engine.QueuedLinks | Wikibot/wikiapi/wikiAPI_functions.py:256-264 | after a step that did not reach the target, the links left to queue are exactly the scorer's entries, and none when the scorer raised |
| Engine.WikiApi.FanOut | Wikibot/wikiapi/wikiAPI_functions.py:186-187 | for `neighbors_to_check >= 0` a page has at most that many top links, and the scorer returns at most that many entries |
| Engine.WikiApi.AlreadyVisited | Wikibot/wikiapi/wikiAPI_functions.py:229-230 | the skip test: not the start entry and the page already has an object |
| Engine.WikiApi.EnqueueUnvisited | Wikibot/wikiapi/wikiAPI_functions.py:262-264 | the queue grows by exactly the top links without an object, in order, and the loop invariant holds |
| Engine.WikiApi.BfsVisit | Wikibot/wikiapi/wikiAPI_functions.py:226-264 | one iteration of the BFS loop: a skipped entry changes neither the visited pages nor the queue; otherwise the target found appends the entry and the target, or the entry is appended, the queue becomes the old queue followed by the page's top links without an object (FIFO), and fewer pages are left; for `neighbors_to_check >= 0` the queue grows by at most that many entries |
| Engine.WikiApi.BfsExpand | Wikibot/wikiapi/wikiAPI_functions.py:233-264 | exploring an unskipped entry: the target found appends the entry and the target and sets the target's parent; otherwise the entry is appended, the queue becomes the old queue followed by the page's top links without an object, fewer pages are left, and for `neighbors_to_check >= 0` at most that many entries are added |
| Engine.WikiApi.ClearRegistry | Wikibot/wikiapi/wikiAPI_functions.py:221-222 | the set and the dict are emptied |
| Engine.WikiApi.BfsSearch | Wikibot/wikiapi/wikiAPI_functions.py:219-266 | the BFS ends with the search outcome (target found among the last explored page's top links and no earlier one's, or every reachable top link explored without it) and returns the matching message |
| Engine.WikiApi.PushUnvisited | Wikibot/wikiapi/wikiAPI_functions.py:317-320 | the heap grows by exactly the top links without an object, with negated scores, and the loop invariant holds |
| Engine.WikiApi.GreedyVisit | Wikibot/wikiapi/wikiAPI_functions.py:281-320 | one iteration of the greedy loop: a skipped entry changes neither the visited pages nor the heap; otherwise the target found appends the entry and the target, or the entry is appended, the heap becomes the old heap followed by one entry with negated score per top link without an object, and fewer pages are left; for `neighbors_to_check >= 0` the heap grows by at most that many entries |
| Engine.WikiApi.GreedyExpand | Wikibot/wikiapi/wikiAPI_functions.py:288-320 | exploring an unskipped entry: the target found appends the entry and the target and sets the target's parent; otherwise the entry is appended, the heap gains one entry with negated score per top link without an object, fewer pages are left, and for `neighbors_to_check >= 0` at most that many entries are added |
| Engine.WikiApi.GreedySearch | Wikibot/wikiapi/wikiAPI_functions.py:271-322 | the greedy search ends with the search outcome and returns the matching message; its `ensures` are those of `BfsSearch`, and the best-first pop order is stated by `Heap.LeastIndex`, which every iteration uses to pop |
| Engine.WikiApi.Search | Wikibot/wikiapi/wikiAPI_functions.py:325-329 | the search `use_bfs` selects ends with the search outcome |
| Engine.WikiApi.TracePathBackwards | Wikibot/wikiapi/wikiAPI_functions.py:190-201 | `None` exactly when the target is not recorded; otherwise the parent chain, from the source to the target, along dict edges when the two differ |
| Engine.WikiApi.GetLengthOfPath | Wikibot/wikiapi/wikiAPI_functions.py:136-139 | the traced path's length minus one (at least 1) when the target was found, 0 otherwise |
| Prioritizer.PageLinks | wikiAPI_functions.py:10-26 | the link titles, or the not-found result exactly when the page does not exist |
| Prioritizer.PageText | wikiAPI_functions.py:29-38 | the page text, or `"Page not found"` for a missing page |
| Prioritizer.WordFrequency | wikiAPI_functions.py:41-63 | the sentinel for a missing page, otherwise the table of the lower-cased text |
| Prioritizer.WordFrequencyCounts | wikiAPI_functions.py:41-63 | the table holds each lower-cased non-stop-word token with its count, each once, by non-increasing count |
| Prioritizer.AnyInFrequencyExists | wikiAPI_functions.py:82 | `any(...)` holds exactly when some word passes the membership test |
| Prioritizer.Selected | wikiAPI_functions.py:80-85 | reference definition: a title is selected exactly when it is visited, matches and was not already in the list |
| Prioritizer.Prioritize | wikiAPI_functions.py:80-85 | definition: the list the loop builds, appending each title that passes the test and is not yet listed (its properties: `Prioritizer.PrioritizeIsSelection`, `Prioritizer.PrioritizeDistinct`) |
| Prioritizer.Expected | wikiAPI_functions.py:65-87 | definition: the target first when the current page links to it, then the loop over the deduplicated link titles (its properties: `Prioritizer.TargetFirst`, `Prioritizer.NoDuplicates`, `Prioritizer.MatchingLinksInOrder`) |
| Prioritizer.IsSubstring | wikiAPI_functions.py:76-82 | definition: Python's `in` on two strings, a contiguous occurrence, the empty string occurring everywhere (its properties: `Prioritizer.SingleCharacterOccurs`, `Prioritizer.MissingTargetMatchesSubstrings`) |
| Prioritizer.PrioritizeIsSelection | wikiAPI_functions.py:79-85 | over distinct titles the loop's list is the start list followed by the selection |
| Prioritizer.SelectedInOrder | wikiAPI_functions.py:80-85 | the selection keeps the visiting order |
| Prioritizer.SelectedDistinct | wikiAPI_functions.py:84-85 | the selection has no repetition |
| Prioritizer.PrioritizeDistinct | wikiAPI_functions.py:84-85 | the loop never appends a title already in the list |
| Prioritizer.PrioritizedTitles | wikiAPI_functions.py:65-87 | the method returns the specified list for the two fetches' results |
| Prioritizer.PrioritizeLinks | wikiAPI_functions.py:67-77 | the target first when linked, then the loop over the deduplicated titles |
| Prioritizer.AppendMatching | wikiAPI_functions.py:80-85 | the `for` loop computes the reference list |
| Prioritizer.SingleCharacterOccurs | wikiAPI_functions.py:76 | a one-character string taken from a string is a substring of it |
| Prioritizer.TargetFirst | wikiAPI_functions.py:75-77 | the target comes first exactly when the current page links to it |
| Prioritizer.NoDuplicates | wikiAPI_functions.py:84-85 | the returned list has no repetition |
| Prioritizer.PrioritizeInLinkOrder | wikiAPI_functions.py:73-85 | after the start list come exactly the matching titles not in it, in link order |
| Prioritizer.AfterStartInLinkOrder | wikiAPI_functions.py:73-85 | titles taken in deduplicated order are in link order |
| Prioritizer.DedupOrder | wikiAPI_functions.py:73 | two titles keep their order after deduplication |
| Prioritizer.MatchingLinksInOrder | wikiAPI_functions.py:65-87 | after the leading target, exactly the links with a matching word that are not the target, in link order |
| Prioritizer.CapitalisedTitlesNotPrioritised | wikiAPI_functions.py:57-85 | matching is case-sensitive against lower-cased text: a title whose every word has a capital is never prioritised, except the linked target |
| Prioritizer.MissingTargetMatchesSubstrings | wikiAPI_functions.py:53-54 | for a missing target a title matches exactly when one of its words is a substring of `"Page not found"` |
| Prioritizer.MissingCurrentPageGivesCharacters | wikiAPI_functions.py:15-16 | for a missing current page every entry after the target is one character of `"Page not found"` |
| TypeFuncs.Typed | Wikibot/app/asset/typefuncs.py:22-38 | the text grows by the typed string exactly when the box is selected and one accepted character was typed, otherwise it is unchanged |
| TypeFuncs.Erased | Wikibot/app/asset/typefuncs.py:15-20 | a selected, non-empty text loses its last character; otherwise it is unchanged |
| TypeFuncs.EraseUndoesTyping | Wikibot/app/asset/typefuncs.py:15-29 | a backspace removes exactly the character that typing added |
| TypeFuncs.NumericTypingIsAlphanumTyping | Wikibot/app/asset/typefuncs.py:25-34 | typing into a numeric field does what typing into a plain one would, or nothing |
| TypeFuncs.TextBox.constructor | Wikibot/app/asset/typefuncs.py:7-10 | the box holds the given text, selection and sizes |
| TypeFuncs.TextBox.UpdateText | Wikibot/app/asset/typefuncs.py:12-13 | the text is replaced and nothing else changes |
| TypeFuncs.TextBox.Backspace | Wikibot/app/asset/typefuncs.py:15-20 | the text is erased as specified, the box is resized when a character size is known, and a fitted box stays fitted |
| TypeFuncs.TextBox.TypeAlphanum | Wikibot/app/asset/typefuncs.py:22-29 | a printable character (32..126) is appended as specified, with the resize, keeping a fitted box fitted |
| TypeFuncs.TextBox.TypeNumeric | Wikibot/app/asset/typefuncs.py:31-38 | a digit (48..57) is appended as specified, with the resize, keeping a fitted box fitted |
| Settings.StripLeading | Wikibot/startup/settings.py:14 | a suffix of the line whose dropped characters are all newlines and whose first character is not one |
| Settings.StripTrailing | Wikibot/startup/settings.py:14 | a prefix of the line whose dropped characters are all newlines and whose last character is not one |
| Settings.RemoveChar | Wikibot/startup/settings.py:15-16 | `replace(c, '')`: exactly the other characters remain, and the length shrinks by the number of `c` |
| Settings.Clean | Wikibot/startup/settings.py:14-16 | a cleaned line has no tab and no space, and takes its characters from the line |
| Settings.MapLinesAt | Wikibot/startup/settings.py:13-16 | the mapped list holds, at each index, the function of the original line |
| Settings.CleanedLines | Wikibot/startup/settings.py:13-16 | line `i` of the cleaned file is line `i` cleaned |
| Settings.CleanLines | Wikibot/startup/settings.py:13-16 | the array is cleaned in place, line by line |
| Settings.CleanLine | Wikibot/startup/settings.py:14-16 | the three clean-up steps give the cleaned line |
| Settings.Split | Wikibot/startup/settings.py:22 | `line.split('=')`: at least one piece, exactly one when there is no `=`, no piece holds `=` |
| Settings.SplitJoin | Wikibot/startup/settings.py:22 | joining the pieces with `=` gives the line back |
| Settings.SplitFirstPieces | Wikibot/startup/settings.py:22-29 | the key is the text before the first `=`, and the value piece follows it |
| Settings.Decimal | Wikibot/startup/settings.py:29 | a decimal rendering is non-empty and made of digits |
| Settings.DecimalValue | Wikibot/startup/settings.py:29 | the digits of a rendering spell the number |
| Settings.ParseDecimal | Wikibot/startup/settings.py:29 | `int(str(n)) == n` |
| Settings.ParseSignedDecimal | Wikibot/startup/settings.py:29 | `int('-' + str(n)) == -n` and `int('+' + str(n)) == n` |
| Settings.DigitsAreDigitPart | Wikibot/startup/settings.py:29 | a non-empty run of digits is a digit part `int()` accepts |
| Settings.ParseInt | Wikibot/startup/settings.py:29 | definition: `int()` in base 10, skipping tab, line feed, vertical tab, form feed, carriage return and space around an optional sign and digits with single underscores between them, `None` where `int()` raises `ValueError` (its properties: `Settings.ParseDecimal`, `Settings.ParseSignedDecimal`, `Settings.ParseIntCharacters`, `Settings.SeparatorRefused`, `Settings.SpacedDecimal`) |
| Settings.ParseNumber | Wikibot/startup/settings.py:29 | definition: what `int()` makes of the text between its whitespace, an optional sign and then a digit part, with `None` for anything else |
| Settings.ParseIntCharacters | Wikibot/startup/settings.py:29 | every character of a string `int()` accepts is skipped whitespace, a sign, a digit or an underscore |
| Settings.SeparatorRefused | Wikibot/startup/settings.py:29-32 | `int()` refuses any string holding one of the separators 0x1C..0x1F |
| Settings.SpacedDecimal | Wikibot/startup/settings.py:29 | `int()` skips its whitespace on both sides of a number |
| Settings.ParseLines | Wikibot/startup/settings.py:19-32 | the loop computes the settings for the lines, or the `IndexError` the first bad line raises |
| Settings.RaisedStays | Wikibot/startup/settings.py:29 | once a line raised, the later lines change nothing |
| Settings.Step | Wikibot/startup/settings.py:21-32 | definition: one line applied to the settings: an empty line or an unknown key keeps them, a known key without `=` raises `IndexError`, an integer value replaces the key's value, any other value keeps them |
| Settings.Parse | Wikibot/startup/settings.py:19-32 | definition: the defaults, then each line in turn, the first `IndexError` ending the reading (its properties: `Settings.ParseKeepsKeys`, `Settings.RaisedStays`, `Settings.LastAssignmentWins`, `Settings.UnassignedKeepsDefault`) |
| Settings.SplitAssignment | Wikibot/startup/settings.py:22 | `key=value` with no `=` in either part splits into exactly the key and the value |
| Settings.KeyNames | Wikibot/startup/settings.py:19 | every setting name is non-empty and holds no `=` |
| Settings.ParseAppend | Wikibot/startup/settings.py:20-32 | reading one more line is one more step from the settings so far |
| Settings.SeparatorValueSkipped | Wikibot/startup/settings.py:22-32 | a known key whose value holds a separator 0x1C..0x1F is skipped, so every setting keeps its value |
| Settings.ParseKeepsKeys | Wikibot/startup/settings.py:19-30 | the settings always have exactly the four default keys |
| Settings.Skipped | Wikibot/startup/settings.py:21-32 | an empty line, an unknown key or a non-integer value leaves every setting as it was |
| Settings.KeyWithoutValueRaises | Wikibot/startup/settings.py:25-29 | a known key without `=` raises `IndexError` |
| Settings.StepWithoutValue | Wikibot/startup/settings.py:21-29 | a line that is a known key and has no `=` raises `IndexError` at that line, whatever the values read so far |
| Settings.StepKeeps | Wikibot/startup/settings.py:28-30 | a line that does not assign a key keeps that key's value |
| Settings.LastAssignmentWins | Wikibot/startup/settings.py:20-30 | for a repeated key the last line that assigns it an integer wins |
| Settings.UnassignedKeepsDefault | Wikibot/startup/settings.py:19-30 | a setting no line assigns keeps its default |
| Settings.FourSettings | Wikibot/startup/settings.py:35-38 | the four attributes determine the settings map |
| Settings.Settings.constructor | Wikibot/startup/settings.py:35-38 | the four attributes take the four values |
| Settings.Load | Wikibot/startup/settings.py:7-38 | `Settings(filename)`: raises exactly when the parse of the cleaned lines raises; otherwise the cleaned lines are kept and the four attributes are the parsed settings |

## Left out

- Fetching pages over the network (`wikipediaapi`), the `wordfreq` corpus and `math.log10`: these are parameters, the fields of `Oracle`. Scores are exact reals, not IEEE floats.
- `print`, `logging.warning` and the `print_summary` / `print_categories_and_summary` helpers: output only.
- Reading the settings file: `Settings.Load` is given the file's lines.
- Unicode: upper/lower casing, `\w`, whitespace and `int()` digits are modelled for ASCII only.
- Settings.ParseInt: has no limit on the number of digits. Python 3.11 and later (and 3.9.14 and 3.10.7) refuse `int()` on a decimal string longer than 4300 digits with `ValueError`. Under those versions `settings.py` skips such a line with a warning, but the model assigns the value.
- Fetch failures that nothing catches: the target page's text is fetched in the constructor (`Wikibot/wikiapi/wikiAPI_functions.py` lines 90, 58 and 46) with no `try`, and the console version in the top-level `wikiAPI_functions.py` catches none of its fetches. In both cases the exception reaches the caller. The model's `Oracle.text` and `Prioritizer.Wiki` always answer, with a text or a missing page. Only the link fetch inside the searches can fail (`Relevance.Fetch.FetchFailed`), because that is the only one the source catches.
- The setters and getters outside the core (`set_source_page`, `set_target_page`, `reverse_adjust_for_word_uniqueness`, `set_neighbors_to_check`, `get_adjacency_list`, `get_names_of_all_visited_sites`, `get_adjust_for_word_uniqueness`, `get_neighbors_to_check`): not part of this model. `WikiPage.set_parent` is folded into the record a search creates.
- The GUI classes that mix in `TypeFuncs` and draw the box.
- Engine.WikiApi.BfsSearch: its `requires` assumes a finite set of titles (`universe`) that holds the source and every link of its pages. This is a termination measure the source does not state: on an infinite link graph the source may run forever. The same `requires` also excludes the empty title from `universe`, so an empty source title is outside the model. The searches use `""` as the parent of the start entry, so with an empty source title the start marker names a real page. Entries whose parent is the source then pass the revisit test unchecked (lines 229 and 284), they are never appended to the source's adjacency list (lines 238 and 293), and a page can be recorded twice.
- Engine.WikiApi.GreedySearch: the same termination assumption as `BfsSearch`, and the same exclusion of an empty source title.
- Engine.WikiApi.Search: the same termination assumption as `BfsSearch`, and the same exclusion of an empty source title.
- Engine.WikiApi.MostSimilarLinksToTarget: `similar` is a ghost const, fixed by the constructor, that records what the scorer returns for each page. The page source is assumed to answer the same way on every call.
- Engine.WikiApi.GetLengthOfPath: traces the path once. The source calls `trace_path_backwards` a second time when the first call found a path (line 138), and that call, reading the same unchanged state, returns the same path.
- Engine.FirstMatching: returns the earliest-created object. Python iterates the set of objects in hash order, and the results differ only when two objects share a title, which happens only when the target's title equals the source's.
- Heap.LeastIndex: the heap is an unordered sequence. `heapq`'s array layout is not modelled, only the fact that a pop takes an entry no other entry is smaller than.
- Prioritizer.PrioritizedTitles: the source fetches the current page's links twice (lines 73 and 76). The model fetches them once, assuming the page source answers the same way both times.
- Settings.CleanLines: the source writes each line back three times, once per clean-up step. The model cleans the line in a local and writes it once.
- TypeFuncs.TextBox.UpdateText: abstract in the source. Every box's override is modelled as storing the new text and nothing more.
- TypeFuncs.TextBox.Backspace: `dimensionsPx` may hold floats in the source. The model keeps integer sizes, which are what the resize writes.
