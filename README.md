# Word finder — a verified model

The system is an in-memory word search over a character matrix.

- **Builds the index.** `WordFinder` receives a rectangular grid of letters (1 to 64 rows, 1 to 64 columns). It checks the grid and builds its column strings by transposition. It then adds every suffix of every row and every column, lower-cased, to a prefix-count trie.
- **Ranks the words.** `Find` evaluates each word of a stream in order. `EvaluateWord` asks the trie how many indexed suffixes start with the lower-cased word; that is the number of horizontal and vertical occurrences. When the count is above zero, it offers the word and its count to `TopWords`.
- **Keeps the ten best.** `TopWords` holds at most ten distinct words, using a min-priority queue, a word set and a rising threshold. `GetTop` lists them by decreasing count.

The model keeps the program's shape:

- **Two classes.** `Trie` and `TrieNode` are classes whose nodes and counts are updated in place. Ghost fields map each path to its node, hold the set of nodes and the sequence of added strings.
- **The ranking.** `TopWords` is a class whose queue is a multiset of entries. Its `Add` is specified by a relation `Step` on abstract states. The relation leaves open which minimal entry is evicted, because the priority queue breaks ties in its own way.
- **The word finder.** `WordFinder` holds the trie and the ranking. Its invariant ties the trie's added strings to the suffixes of the grid's lines, and every ranked entry to its true number of occurrences.
- **The headline theorem.** After construction, for every nonempty query `q`, `StartsWith(Lower(q))` is the number of (line, start) pairs at which `Lower(q)` begins (the empty query gives 0): `WordFinder.IndexCount` states it over the finder's invariant, combining `IndexedCounts`, and `EvaluateWord` uses it with `Trie.StartsWith`. A separate left-to-right scanner (`ScanCount`) is proved to give the same count.
- **Validation.** `ValidateMatrix` returns a `Result`. `Create` returns the error the constructor would have thrown, or a new finder.
- **The demo.** `SampleRun.Execute` runs the demo of `MainTest.Execute` end to end. It proves that the result is `chill` first, then `cold` and `wind` in either order. `snow` is absent.
- **The demo's columns.** Besides `chill` in three rows, the demo grid spells `wind` in column 2 (`cwindii`) and `cold` in column 4 (`coldyll`), so the demo ranks three words, not one.
- **Single letters count twice.** Each cell lies on one row and one column, and both are indexed, so a one-letter word is counted once per direction: in a one-by-one grid `a`, the word `a` has count 2 (`Demo.SingleCellCountsTwice`). The model follows the code here.

Files:

- `wrappers.dfy`: `Option` and `Result`.
- `text.dfy`: ASCII letters and lower-casing.
- `trie.dfy`: the trie.
- `top_words.dfy`: the ranking.
- `word_finder.dfy`: validation, transposition, indexing, the word finder.
- `demo.dfy`: the sample grid and run.

## Model

| member | source | states |
|---|---|---|
| Text.IsLetter | Program.cs:232 | the ASCII model of `Char.IsLetter`: an upper- or lower-case Latin letter |
| Text.ToLower | Program.cs:122 | the result is never upper case; letters stay letters and non-letters stay non-letters; upper case moves by the fixed ASCII offset; anything else is unchanged |
| Text.Lower | Program.cs:211 | same length as the input, with every character lower-cased in place |
| Text.LowerSuffix | Program.cs:122 | lower-casing a suffix gives the matching suffix of the lower-cased line |
| Text.LowerIdempotent | Program.cs:211-214 | lower-casing a lower-cased word changes nothing, so the word offered to the ranking is already in its lower-case form |
| Tries.PrefixCountAppend | DataStructures/Trie.cs:5-17 | the number of added strings with prefix p is additive over concatenated sequences of additions |
| Tries.PrefixCountSnoc | DataStructures/Trie.cs:5-17 | one more added string raises the count of p by one exactly when p is a prefix of it |
| Tries.PrefixCountMonotone | DataStructures/Trie.cs:19-28 | extending a prefix never raises its count, so StartsWith(p + c) <= StartsWith(p) for nonempty p (StartsWith("") is always 0) |
| Tries.PrefixCountEmpty | DataStructures/Trie.cs:27 | the empty prefix matches every added string, which is why the root's zero count differs from it |
| Tries.PrefixCountNone | DataStructures/Trie.cs:24-25 | when no added string has prefix p, its count is 0 |
| Tries.TrieNode.constructor | Program.cs:292-296 | a new node has no children and count 0 |
| Tries.Trie.constructor | DataStructures/Trie.cs:3 | a new trie is a lone root at the empty path, with no children and count 0; it satisfies the invariant and has nothing added |
| Tries.Trie.NodeCountIsPrefixCount | DataStructures/Trie.cs:5-17 | under the invariant, the count stored at the node for p is the number of added strings starting with p, and the root counts 0 |
| Tries.Trie.Grow | DataStructures/Trie.cs:11-12 | a missing child is created fresh with count 0 at path + c, and the tree shape is kept |
| Tries.Trie.Child | DataStructures/Trie.cs:11-14 | the child for c exists afterwards and is the node at path + c; existing nodes keep their paths; only path + c can be new, with count 0 |
| Tries.Trie.Visit | DataStructures/Trie.cs:15 | incrementing the entered node extends the counted walk from path to path + c |
| Tries.Trie.Enter | DataStructures/Trie.cs:11-15 | one loop step: the shape and closure invariants hold, and every nonempty prefix of path + c is counted once more |
| Tries.Trie.Walk | DataStructures/Trie.cs:7-16 | after the loop, every nonempty prefix of the word has a node and has been counted once more; an empty word creates no node |
| Tries.Trie.Record | DataStructures/Trie.cs:5-17 | once counted, the word joins the added strings, and the invariant holds again |
| Tries.Trie.Add | DataStructures/Trie.cs:5-17 | the invariant is kept; the word is appended to the added strings; the count for every nonempty prefix of it rises by exactly 1 and every other count, including the root's, is unchanged; Add("") creates no node |
| Tries.Trie.PathPrefixes | DataStructures/Trie.cs:9-15 | every prefix of a path that has a node also has a node |
| Tries.Trie.NoNodeNoCount | DataStructures/Trie.cs:23-25 | a path with no node is a prefix of no added string |
| Tries.Trie.StartsWith | DataStructures/Trie.cs:19-28 | returns, without changing the trie, the number of added strings starting with p (0 when the walk breaks), and 0 for the empty string |
| Ranking.InsertNew | DataStructures/TopWords.cs:16-19 | enqueuing an entry whose word is not held keeps words distinct, adds the word to the word set, and grows the size by one |
| Ranking.RemoveHeld | DataStructures/TopWords.cs:23-24 | dequeuing a held entry keeps words distinct, drops exactly its word, and shrinks the size by one |
| Ranking.ExtremesExist | DataStructures/TopWords.cs:23 | a non-empty queue has an entry of minimal count and one of maximal count |
| Ranking.Step | DataStructures/TopWords.cs:11-28 | the relation that specifies `Add`: no change when the count does not beat the threshold or the word is held; otherwise the entry goes in, and when that makes 11 entries, `Evict` removes some entry of least count |
| Ranking.Evict | DataStructures/TopWords.cs:23-25 | the state after `Dequeue`: the removed entry leaves the queue, its word leaves the word set, and its count becomes the threshold |
| Ranking.StepKeepsInv | DataStructures/TopWords.cs:5-26 | Add keeps every invariant: at most capacity entries, the word set equals the queued words, words are distinct, no count is below the threshold, and the threshold never decreases |
| Ranking.StepBelowThreshold | DataStructures/TopWords.cs:13-16 | a count not above the threshold, or a word already held, changes nothing |
| Ranking.StepFirstWriteWins | DataStructures/TopWords.cs:16 | an entry already held stays the only entry for its word: no count update and no duplicate |
| Ranking.StepEntries | DataStructures/TopWords.cs:16-25 | after Add, every entry was there before or is the offered one |
| Ranking.StepInserts | DataStructures/TopWords.cs:16-20 | below capacity, a new word above the threshold is inserted alone and the threshold is unchanged |
| Ranking.StepEvicts | DataStructures/TopWords.cs:21-26 | at capacity the size stays 10: some entry of least count among the held ones and the offered one (possibly the offered one) is removed along with its word, and the threshold becomes its count; that threshold is at most the offered count and bounds every remaining and every previous count |
| Ranking.Words | Program.cs:161 | selects the word of every entry, position by position |
| Ranking.ListedDistinct | DataStructures/TopWords.cs:31-35 | a listing of the queue has as many entries as the queue, with distinct words |
| Ranking.TopWords.constructor | DataStructures/TopWords.cs:5-8 | starts empty with threshold 0 and satisfies the invariant |
| Ranking.TopWords.Add | DataStructures/TopWords.cs:11-29 | keeps the invariant, and the new state is related to the old one by Step |
| Ranking.TopWords.GetTop | DataStructures/TopWords.cs:31-35 | returns a permutation of the held entries, sorted by non-increasing count |
| WordFinding.Present | Program.cs:229 | the rows of a matrix with no missing row, in order |
| WordFinding.InRange | Program.cs:235 | `ValidRange`: a row count or row length from 1 to 64 |
| WordFinding.RowFits | Program.cs:229 | the per-row test of the `All` lambda: the row is present, of length 1 to 64, and as long as the first row |
| WordFinding.RowsFit | Program.cs:229 | every row is present, of length 1 to 64 and as long as the first row, exactly when the rows form a rectangle of valid width |
| WordFinding.AllLetters | Program.cs:232 | the `SelectMany(line => line).All(Char.IsLetter)` test: every character of every row is a letter |
| WordFinding.ValidateMatrix | Program.cs:220-236 | rejects, in this order: a missing matrix; a row count outside 1 to 64; a missing row, a row length outside 1 to 64, or a row of different length; a non-letter. The row-shape and the non-letter errors each hold exactly when the earlier checks pass and their own check fails. It succeeds exactly on a valid grid and then returns its rows |
| WordFinding.Columns | Program.cs:112-114 | as many columns as the first row is long, each as long as the grid is high, with column c at row r holding the grid's character at row r, column c |
| WordFinding.TransposeTwice | Program.cs:112-114 | the columns form a rectangle, and transposing them again gives back the grid |
| WordFinding.LineSuffixes | Program.cs:121-122 | one string per start position, namely the lower-cased suffix from there |
| WordFinding.Indexed | Program.cs:120-126 | the strings the constructor adds, in order: line by line, each line's lower-cased suffixes longest first |
| WordFinding.IndexedAppend | Program.cs:120-126 | indexing two lists of lines one after the other adds their suffix lists in order |
| WordFinding.OccurrencesAppend | Program.cs:120-126 | occurrence counts add over concatenated lists of lines |
| WordFinding.StartsAt | Program.cs:122 | p starts at i exactly when the next length-of-p characters of the line, lower-cased, spell p |
| WordFinding.VerticalStart | Program.cs:112-114 | p starts at row r of column c exactly when the cells below it in that column, lower-cased, spell p |
| WordFinding.CountSuffixesBelow | Program.cs:121-122 | the first n suffixes of a line contain as many strings starting with p as there are starts of p among the first n positions |
| WordFinding.CountSuffixes | Program.cs:121-122 | the suffixes of a line contain as many strings starting with p as there are starts of p in the line |
| WordFinding.IndexedCounts | Program.cs:120-126 | the indexed suffixes of all lines contain as many strings starting with p as there are (line, start) pairs for p |
| WordFinding.TooLongStartsNowhere | Program.cs:120-126 | a string longer than every line occurs nowhere |
| WordFinding.TooLongNeverOccurs | Program.cs:211 | a word longer than both grid dimensions has count 0 |
| WordFinding.SpellsFromMeaning | Program.cs:122 | the character-by-character comparison succeeds exactly when every remaining character matches |
| WordFinding.SpellsIffStarts | Program.cs:122 | the reference comparison at position i succeeds exactly when p starts at i |
| WordFinding.StartsFromStep | Program.cs:121-122 | the starts from position i split into start i itself and the starts from i + 1 |
| WordFinding.CountFromStarts | Program.cs:121-122 | the reference scanner's count from position i is the number of starts from i |
| WordFinding.CountLinesIsOccurrences | Program.cs:120-126 | the reference scan over the first n lines counts their occurrences |
| WordFinding.CountLinesCounts | Program.cs:120-126 | the reference scan over all lines counts their occurrences |
| WordFinding.ScanCountIsGridCount | Program.cs:120-126 | an independent scan of the rows and columns gives the count that the index promises |
| WordFinding.IndexLine | Program.cs:121-122 | adds a line's lower-cased suffixes, longest first, to the trie and keeps its invariant |
| WordFinding.IndexSuffixes | Program.cs:120-126 | adds the suffixes of every line, in order, and keeps the invariant |
| WordFinding.BuildIndex | Program.cs:112-126 | a fresh, valid trie holding the suffixes of the rows and then of the columns |
| WordFinding.Evaluates | Program.cs:211-214 | the relation that specifies `EvaluateWord`: when the word's occurrence count is positive, one `Add` step of the lower-cased word with that count; otherwise no change |
| WordFinding.EvaluatesIgnoresCase | Program.cs:211-214 | two queries that differ only in case act alike on the ranking |
| WordFinding.EvaluatesTruthful | Program.cs:211-214 | evaluating a word keeps every ranked entry a nonempty lower-case word paired with its true count |
| WordFinding.EvaluatesIgnored | Program.cs:213 | a word with no occurrence, or whose lower-case form is already held, leaves the ranking unchanged |
| WordFinding.EvaluatesInserted | Program.cs:213-214 | a word found more often than the threshold and not yet held goes in with its count while there is room |
| WordFinding.Reaches | Program.cs:142-143 | the fold of `Evaluates` that specifies the synchronous `foreach`: the ranking goes word by word, in stream order |
| WordFinding.ReachesSnoc | Program.cs:142-143 | a run over a word list followed by one more evaluation is a run over the longer list |
| WordFinding.ReachesNext | Program.cs:142-143 | the same, for a run over a growing prefix of the stream |
| WordFinding.WordFinder.constructor | Program.cs:106-130 | a valid finder over the grid whose trie indexes every row and column suffix and whose ranking is empty |
| WordFinding.WordFinder.IndexCount | Program.cs:120-126 | under the finder's invariant, the trie's count for a lower-cased query is its number of horizontal and vertical occurrences in the grid, and 0 for the empty query |
| WordFinding.WordFinder.EvaluateWord | Program.cs:205-217 | keeps the invariant; the ranking moves as the word's occurrence count dictates: unchanged when it is 0, else one Add of the lower-cased word with that count |
| WordFinding.WordFinder.Rank | Program.cs:213-214 | offering a found word keeps the invariant and moves the ranking by one Add step |
| WordFinding.WordFinder.Advance | Program.cs:142-143 | one loop step extends the run by the next word of the stream |
| WordFinding.WordFinder.EvaluateAll | Program.cs:142-143 | the ranking goes from its previous state through the whole stream in order, continuing from earlier calls |
| WordFinding.WordFinder.Report | Program.cs:161 | the result lists at most 10 distinct ranked words, each with positive true count, in non-increasing count order |
| WordFinding.WordFinder.RankedWords | Program.cs:161 | the words of a sorted listing of the ranking form such a report |
| WordFinding.WordFinder.Find | Program.cs:132-162 | the ranking has run through the stream in order from the state earlier calls left, and the result reports the ranked words: at most 10, distinct, occurring, by non-increasing count |
| WordFinding.Create | Program.cs:106-110 | a matrix that fails validation gives exactly that error; one that passes gives a new valid finder over its rows with an empty ranking |
| Demo.SampleIsGrid | Program.cs:79 | the demo matrix is a valid grid |
| Demo.SampleColumnsAre | Program.cs:112-114 | the demo's columns are afcpucc, bghqvhh, cwindii, dilsxll and coldyll |
| Demo.SampleWordsLower | Program.cs:80 | the demo words are already lower case |
| Demo.SampleScan | Program.cs:120-126 | in the demo grid, a lower-case word's count is its row occurrences plus its column occurrences |
| Demo.ChillInRows | Program.cs:79 | chill occurs 3 times across the rows |
| Demo.ChillInColumns | Program.cs:79 | chill occurs in no column |
| Demo.ColdInRows | Program.cs:79 | cold occurs in no row |
| Demo.ColdInColumns | Program.cs:79 | cold occurs once across the columns, in column 4 |
| Demo.WindInRows | Program.cs:79 | wind occurs in no row |
| Demo.WindInColumns | Program.cs:79 | wind occurs once across the columns, in column 2 |
| Demo.SnowInRows | Program.cs:79 | snow occurs in no row |
| Demo.SnowInColumns | Program.cs:79 | snow occurs in no column |
| Demo.SampleCounts | Program.cs:79-80 | the demo counts are chill 3, cold 1, wind 1 and snow 0 |
| Demo.SingleCellCountsTwice | Program.cs:120-126 | in a one-by-one grid, its letter is counted twice, once through the row and once through the column |
| SampleRun.SampleValidates | Program.cs:110 | the demo matrix passes validation unchanged |
| SampleRun.InsertedThen | DataStructures/TopWords.cs:16-20 | a run whose first word is new, above the threshold and fits continues from the state that holds it |
| SampleRun.IgnoredThen | DataStructures/TopWords.cs:13-16 | a run whose first word has no occurrence or is held continues from the same state |
| SampleRun.FirstTwoRanked | Program.cs:142-143 | the first two words of the demo stream both go in |
| SampleRun.LastThreeRanked | Program.cs:142-143 | of the last three, only chill goes in: snow does not occur and wind is already held |
| SampleRun.FiveWordRun | Program.cs:80 | a run over the demo-shaped stream ends holding exactly its three occurring words with their counts |
| SampleRun.ChillFirst | DataStructures/TopWords.cs:34 | three distinct words in non-increasing count order, where chill outnumbers the others, start with chill |
| SampleRun.SampleOrder | Program.cs:76-77 | what the demo prints is chill, then cold and wind in either order |
| SampleRun.Execute | Program.cs:65-81 | the demo returns three words: chill first, then cold and wind in either order; snow is not among them |

## Left out

- Letters and case: the model treats only ASCII letters. `Char.IsLetter` and the culture-sensitive `ToLower` on other scripts are not modelled.
- Concurrency: the `Task` and `Thread` modes of `Find` (Program.cs:146-152, 164-203) are not modelled. Nor are `ThreadingMode`, `ThreadCount`, the static `lock` in `TopWords.Add` or the `ConcurrentQueue`. Only the synchronous mode is modelled.
- The `default` branch of the mode switch is not modelled, because the synchronous mode is fixed.
- `ValidateFind` is not modelled, because the core never calls it.
- Timing and output: the `Stopwatch` calls and console output in the constructor, `Find` and the demo are I/O and are left out. `Execute` returns the words instead of printing them.
- The `trie == null` guard in `Find` (Program.cs:136-137) is not modelled. A finder exists only after its constructor has built the trie, so the guard cannot fire.
- Exceptions from the constructor become `Create`'s `Failure` values. The `null` matrix and rows become `None`.
- Null words: a `null` word stream makes `Find` throw at its `foreach` (Program.cs:142), and a `null` word makes `EvaluateWord` throw at `word.ToLower()` (Program.cs:211). The model's stream and words are plain sequences that cannot be null, so neither failure is modelled.
- Messages: the exceptions' message texts are not modelled, only which check fails.
- Integer width: trie counts and entry counts are unbounded integers. A 64 by 64 grid adds at most 8192 suffixes, so the C# `int` counters cannot overflow.
- Priority queue internals: the heap of `PriorityQueue` is not modelled. The queue is a multiset, and eviction picks some entry of minimal count. The choice among equal counts, and the order of equal counts in `GetTop`, are unspecified in the model, as they depend on the heap layout.
- Ranking.TopWords.GetTop: states a permutation sorted by count, not which of several equal-count entries comes first, because that order comes from the heap's internal layout.
- Duplicate copies of `TopWords`, `TrieNode`/`Trie` and the unit-test harness in Program.cs are the same code and are modelled once. The unit tests (UnitTests.cs) serve as evidence for the validation rules only.
- `Find`'s result is a lazy sequence in C#, enumerated once. The model returns the listed words directly.
