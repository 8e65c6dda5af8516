/** The word finder of Program.cs: it validates a grid of letters, indexes
    every suffix of every row and every column in a prefix-count trie, and
    ranks the query words that occur in the grid by how often they occur. */
module WordFinding {
  import opened Wrappers
  import opened Text
  import opened Tries
  import opened Ranking

  /** The most rows, and the most columns, a grid may have. */
  const MaxSide: nat := 64

  /** `ValidRange`: a row count or a row length the finder accepts. */
  predicate InRange(n: int) {
    1 <= n <= MaxSide
  }

  /** The construction errors, in the order they are checked. */
  datatype MatrixError =
    | NullMatrix                        // ArgumentNullException
    | RowCountOutOfRange(rowCount: nat) // the offending number of rows
    | RowOutOfShape                     // a null row, a bad length, or unequal lengths
    | NonLetter                         // a character that is not a letter

  /** All rows have the same length. */
  predicate Rectangular(g: seq<string>) {
    forall i, j :: 0 <= i < |g| && 0 <= j < |g| ==> |g[i]| == |g[j]|
  }

  predicate AllLetters(g: seq<string>) {
    forall i, j :: 0 <= i < |g| && 0 <= j < |g[i]| ==> IsLetter(g[i][j])
  }

  /** A grid the finder accepts: 1 to 64 rows of 1 to 64 letters each, all
      rows of the same length. */
  predicate IsGrid(g: seq<string>) {
    InRange(|g|) && InRange(|g[0]|) && Rectangular(g) && AllLetters(g)
  }

  predicate AllPresent(rows: seq<Option<string>>) {
    forall i :: 0 <= i < |rows| ==> rows[i].Some?
  }

  function Present(rows: seq<Option<string>>): (g: seq<string>)
    requires AllPresent(rows)
    ensures |g| == |rows| && forall i :: 0 <= i < |rows| ==> Some(g[i]) == rows[i]
  {
    seq(|rows|, i requires 0 <= i < |rows| => rows[i].value)
  }

  /** The per-row test of the source: present, of an accepted length, and
      as long as the first row. */
  predicate RowFits(rows: seq<Option<string>>, i: nat)
    requires i < |rows|
  {
    rows[i].Some? && InRange(|rows[i].value|) &&
    rows[0].Some? && |rows[i].value| == |rows[0].value|
  }

  /** `ValidateMatrix`, with `None` for a null matrix or a null row: the four
      checks in order, the first that fails giving the error. */
  function ValidateMatrix(matrix: Option<seq<Option<string>>>): (r: Result<seq<string>, MatrixError>)
    ensures matrix.None? ==> r == Failure(NullMatrix)
    ensures matrix.Some? && !InRange(|matrix.value|) ==>
              r == Failure(RowCountOutOfRange(|matrix.value|))
    ensures r == Failure(RowOutOfShape) <==>
              matrix.Some? && InRange(|matrix.value|) &&
              !(AllPresent(matrix.value) && Rectangular(Present(matrix.value)) &&
                InRange(|matrix.value[0].value|))
    ensures r == Failure(NonLetter) <==>
              matrix.Some? && AllPresent(matrix.value) &&
              |matrix.value| > 0 && !IsGrid(Present(matrix.value)) &&
              InRange(|matrix.value|) && Rectangular(Present(matrix.value)) &&
              InRange(|matrix.value[0].value|)
    ensures r.Success? <==> matrix.Some? && AllPresent(matrix.value) && IsGrid(Present(matrix.value))
    ensures r.Success? ==> r.value == Present(matrix.value)
  {
    if matrix.None? then Failure(NullMatrix)
    else
      var rows := matrix.value;
      if !InRange(|rows|) then Failure(RowCountOutOfRange(|rows|))
      else if !(forall i :: 0 <= i < |rows| ==> RowFits(rows, i)) then
        RowsFit(rows);
        Failure(RowOutOfShape)
      else
        RowsFit(rows);
        var g := Present(rows);
        if !AllLetters(g) then Failure(NonLetter) else Success(g)
  }

  /** The per-row test, for all rows, is the shape part of `IsGrid`. */
  lemma RowsFit(rows: seq<Option<string>>)
    requires |rows| > 0
    ensures (forall i :: 0 <= i < |rows| ==> RowFits(rows, i)) ==>
              AllPresent(rows) && Rectangular(Present(rows)) && InRange(|rows[0].value|)
    ensures AllPresent(rows) && Rectangular(Present(rows)) && InRange(|rows[0].value|) ==>
              forall i :: 0 <= i < |rows| ==> RowFits(rows, i)
  {
    if forall i :: 0 <= i < |rows| ==> RowFits(rows, i) {
      assert AllPresent(rows) by {
        forall i | 0 <= i < |rows|
          ensures rows[i].Some?
        {
          assert RowFits(rows, i);
        }
      }
      assert RowFits(rows, 0);
      var g := Present(rows);
      forall i, j | 0 <= i < |g| && 0 <= j < |g|
        ensures |g[i]| == |g[j]|
      {
        assert RowFits(rows, i) && RowFits(rows, j);
      }
    }
    if AllPresent(rows) && Rectangular(Present(rows)) && InRange(|rows[0].value|) {
      var g := Present(rows);
      forall i | 0 <= i < |rows|
        ensures RowFits(rows, i)
      {
        assert rows[i] == Some(g[i]) && rows[0] == Some(g[0]);
        assert |g[i]| == |g[0]|;
      }
    }
  }

  /** The vertical strings: column `c` read from top to bottom. */
  function Columns(g: seq<string>): (cols: seq<string>)
    requires |g| > 0 && Rectangular(g)
    ensures |cols| == |g[0]|
    ensures forall c :: 0 <= c < |cols| ==> |cols[c]| == |g|
    ensures forall c, r :: 0 <= c < |cols| && 0 <= r < |g| ==> cols[c][r] == g[r][c]
  {
    seq(|g[0]|, c requires 0 <= c < |g[0]| => seq(|g|, r requires 0 <= r < |g| => g[r][c]))
  }

  /** Transposing twice gives the grid back. */
  lemma TransposeTwice(g: seq<string>)
    requires |g| > 0 && Rectangular(g) && |g[0]| > 0
    ensures Rectangular(Columns(g)) && Columns(Columns(g)) == g
  {
    var cols := Columns(g);
    assert Rectangular(cols);
    var back := Columns(cols);
    assert |back| == |g|;
    forall r | 0 <= r < |g|
      ensures back[r] == g[r]
    {
      assert |back[r]| == |g[r]|;
    }
  }

  /** Every line the finder indexes: the rows, then the columns. */
  function Lines(g: seq<string>): (lines: seq<string>)
    requires |g| > 0 && Rectangular(g)
  {
    g + Columns(g)
  }

  /** The strings the constructor adds for one line: each suffix, longest
      first, lower-cased. */
  function LineSuffixes(line: string): (r: seq<string>)
    ensures |r| == |line|
    ensures forall i :: 0 <= i < |line| ==> r[i] == Lower(line[i..])
  {
    seq(|line|, i requires 0 <= i < |line| => Lower(line[i..]))
  }

  /** The strings added for a sequence of lines, in order. */
  function Indexed(lines: seq<string>): seq<string> {
    if lines == [] then []
    else Indexed(lines[..|lines| - 1]) + LineSuffixes(lines[|lines| - 1])
  }

  lemma {:induction false} IndexedAppend(a: seq<string>, b: seq<string>)
    ensures Indexed(a + b) == Indexed(a) + Indexed(b)
    decreases |b|
  {
    if b == [] {
      assert a + b == a;
    } else {
      assert (a + b)[..|a + b| - 1] == a + b[..|b| - 1];
      IndexedAppend(a, b[..|b| - 1]);
    }
  }

  /** The positions of `line` at which `p` starts, case-insensitively. */
  ghost function Starts(line: string, p: string): set<nat> {
    set i: nat | i < |line| && p <= Lower(line)[i..]
  }

  /** The number of (line, position) pairs at which `p` starts. */
  ghost function Occurrences(lines: seq<string>, p: string): nat {
    if lines == [] then 0
    else Occurrences(lines[..|lines| - 1], p) + |Starts(lines[|lines| - 1], p)|
  }

  lemma {:induction false} OccurrencesAppend(a: seq<string>, b: seq<string>, p: string)
    ensures Occurrences(a + b, p) == Occurrences(a, p) + Occurrences(b, p)
    decreases |b|
  {
    if b == [] {
      assert a + b == a;
    } else {
      assert (a + b)[..|a + b| - 1] == a + b[..|b| - 1];
      OccurrencesAppend(a, b[..|b| - 1], p);
    }
  }

  /** How often word `w` occurs in grid `g`, horizontally or vertically and
      ignoring case; the empty word counts as not occurring. */
  ghost function GridCount(g: seq<string>, w: string): nat
    requires |g| > 0 && Rectangular(g)
  {
    if w == [] then 0 else Occurrences(Lines(g), Lower(w))
  }

  /** `p` starts at position `i` of `line` exactly when the next |p|
      characters of the line, lower-cased, spell `p`. */
  lemma StartsAt(line: string, i: nat, p: string)
    requires i < |line|
    ensures i in Starts(line, p) <==>
              i + |p| <= |line| && forall k :: 0 <= k < |p| ==> p[k] == ToLower(line[i + k])
  {
    var low := Lower(line)[i..];
    if i + |p| <= |line| && forall k :: 0 <= k < |p| ==> p[k] == ToLower(line[i + k]) {
      assert low[..|p|] == p;
    }
  }

  /** A vertical occurrence, in terms of the grid's cells: `p` starts at row
      `r` of column `c` when the cells below, lower-cased, spell `p`. */
  lemma VerticalStart(g: seq<string>, c: nat, r: nat, p: string)
    requires |g| > 0 && Rectangular(g) && c < |g[0]| && r < |g|
    ensures r in Starts(Columns(g)[c], p) <==>
              r + |p| <= |g| && forall k :: 0 <= k < |p| ==> p[k] == ToLower(g[r + k][c])
  {
    StartsAt(Columns(g)[c], r, p);
  }

  /** The starts of `p` among the first `n` positions of `line`. */
  ghost function StartsBelow(line: string, p: string, n: nat): set<nat> {
    set i: nat | i < n && i < |line| && p <= Lower(line)[i..]
  }

  lemma StartsBelowStep(line: string, p: string, n: nat)
    requires 0 < n <= |line|
    ensures StartsBelow(line, p, n) ==
              StartsBelow(line, p, n - 1) + (if p <= Lower(line)[n - 1..] then {n - 1} else {})
  {
  }

  lemma {:induction false} CountSuffixesBelow(line: string, p: string, n: nat)
    requires n <= |line|
    ensures PrefixCount(LineSuffixes(line)[..n], p) == |StartsBelow(line, p, n)|
    decreases n
  {
    var sfx := LineSuffixes(line);
    if n == 0 {
      assert StartsBelow(line, p, 0) == {};
    } else {
      var before := StartsBelow(line, p, n - 1);
      CountSuffixesBelow(line, p, n - 1);
      assert sfx[..n][..n - 1] == sfx[..n - 1];
      assert sfx[..n][n - 1] == Lower(line[n - 1..]);
      LowerSuffix(line, n - 1);
      StartsBelowStep(line, p, n);
      assert n - 1 !in before;
      if p <= Lower(line)[n - 1..] {
        assert |before + {n - 1}| == |before| + 1;
      }
    }
  }

  /** Adding the suffixes of a line adds, to the count of `p`, the number of
      positions of the line at which `p` starts. */
  lemma CountSuffixes(line: string, p: string)
    ensures PrefixCount(LineSuffixes(line), p) == |Starts(line, p)|
  {
    CountSuffixesBelow(line, p, |line|);
    assert LineSuffixes(line)[..|line|] == LineSuffixes(line);
    assert StartsBelow(line, p, |line|) == Starts(line, p);
  }

  /** The index theorem: after every suffix of every line is added, the
      count for `p` is the number of (line, position) pairs where `p`
      starts. */
  lemma {:induction false} IndexedCounts(lines: seq<string>, p: string)
    ensures PrefixCount(Indexed(lines), p) == Occurrences(lines, p)
    decreases |lines|
  {
    if lines != [] {
      var init, last := lines[..|lines| - 1], lines[|lines| - 1];
      IndexedCounts(init, p);
      PrefixCountAppend(Indexed(init), LineSuffixes(last), p);
      CountSuffixes(last, p);
    }
  }

  /** A string longer than every line starts nowhere. */
  lemma {:induction false} TooLongStartsNowhere(lines: seq<string>, p: string)
    requires forall k :: 0 <= k < |lines| ==> |lines[k]| < |p|
    ensures Occurrences(lines, p) == 0
    decreases |lines|
  {
    if lines != [] {
      TooLongStartsNowhere(lines[..|lines| - 1], p);
      var last := lines[|lines| - 1];
      forall i: nat | i < |last|
        ensures !(p <= Lower(last)[i..])
      {
      }
      assert Starts(last, p) == {};
    }
  }

  /** A word longer than both sides of the grid never occurs. */
  lemma TooLongNeverOccurs(g: seq<string>, w: string)
    requires IsGrid(g) && |w| > |g| && |w| > |g[0]|
    ensures GridCount(g, w) == 0
  {
    TooLongStartsNowhere(Lines(g), Lower(w));
  }

  /** A reference count that can be evaluated: reading `line` from
      position `i`, do the lower-cased characters spell `p[k..]`? */
  function SpellsFrom(line: string, p: string, i: nat, k: nat): bool
    decreases |p| - k
  {
    if k >= |p| then true
    else i + k < |line| && ToLower(line[i + k]) == p[k] && SpellsFrom(line, p, i, k + 1)
  }

  /** Character `j` of `p` is the lower-cased character `i + j` of `line`. */
  predicate CharAt(line: string, p: string, i: nat, j: nat)
    requires j < |p|
  {
    i + j < |line| && p[j] == ToLower(line[i + j])
  }

  lemma {:induction false} SpellsFromMeaning(line: string, p: string, i: nat, k: nat)
    requires k <= |p|
    ensures SpellsFrom(line, p, i, k) <==> forall j :: k <= j < |p| ==> CharAt(line, p, i, j)
    decreases |p| - k
  {
    if k < |p| {
      SpellsFromMeaning(line, p, i, k + 1);
      if forall j :: k <= j < |p| ==> CharAt(line, p, i, j) {
        assert CharAt(line, p, i, k);
      }
    }
  }

  /** The number of positions from `i` on at which `line` spells `p`. */
  function CountFrom(line: string, p: string, i: nat): nat
    decreases |line| - i
  {
    if i >= |line| then 0
    else (if SpellsFrom(line, p, i, 0) then 1 else 0) + CountFrom(line, p, i + 1)
  }

  ghost function StartsFrom(line: string, p: string, i: nat): set<nat> {
    set j: nat | i <= j < |line| && p <= Lower(line)[j..]
  }

  /** The reference test agrees with `Starts`. */
  lemma SpellsIffStarts(line: string, p: string, i: nat)
    requires i < |line|
    ensures SpellsFrom(line, p, i, 0) <==> i in Starts(line, p)
  {
    StartsAt(line, i, p);
    SpellsFromMeaning(line, p, i, 0);
    if SpellsFrom(line, p, i, 0) {
      if |p| > 0 {
        assert CharAt(line, p, i, |p| - 1);
      }
      forall k | 0 <= k < |p|
        ensures p[k] == ToLower(line[i + k])
      {
        assert CharAt(line, p, i, k);
      }
    }
    if i in Starts(line, p) {
      forall j | 0 <= j < |p|
        ensures CharAt(line, p, i, j)
      {
      }
    }
  }

  lemma StartsFromStep(line: string, p: string, i: nat)
    requires i < |line|
    ensures StartsFrom(line, p, i) ==
              StartsFrom(line, p, i + 1) + (if i in Starts(line, p) then {i} else {})
  {
  }

  lemma {:induction false} CountFromStarts(line: string, p: string, i: nat)
    requires i <= |line|
    ensures CountFrom(line, p, i) == |StartsFrom(line, p, i)|
    decreases |line| - i
  {
    if i == |line| {
      assert StartsFrom(line, p, i) == {};
    } else {
      CountFromStarts(line, p, i + 1);
      SpellsIffStarts(line, p, i);
      StartsFromStep(line, p, i);
    }
  }

  /** The number of starts of `p` in the first `n` lines. */
  function CountLines(lines: seq<string>, p: string, n: nat): nat
    requires n <= |lines|
  {
    if n == 0 then 0 else CountLines(lines, p, n - 1) + CountFrom(lines[n - 1], p, 0)
  }

  lemma {:induction false} CountLinesIsOccurrences(lines: seq<string>, p: string, n: nat)
    requires n <= |lines|
    ensures CountLines(lines, p, n) == Occurrences(lines[..n], p)
    decreases n
  {
    if n > 0 {
      CountLinesIsOccurrences(lines, p, n - 1);
      assert lines[..n][..n - 1] == lines[..n - 1];
      CountFromStarts(lines[n - 1], p, 0);
      assert StartsFrom(lines[n - 1], p, 0) == Starts(lines[n - 1], p);
    }
  }

  /** The reference count agrees with the number of occurrences. */
  lemma CountLinesCounts(lines: seq<string>, p: string)
    ensures CountLines(lines, p, |lines|) == Occurrences(lines, p)
  {
    CountLinesIsOccurrences(lines, p, |lines|);
    assert lines[..|lines|] == lines;
  }

  /** The reference count of word `w` in grid `g`, by direct scanning. */
  function ScanCount(g: seq<string>, w: string): nat
    requires |g| > 0 && Rectangular(g)
  {
    if w == [] then 0 else CountLines(Lines(g), Lower(w), |Lines(g)|)
  }

  /** Scanning every line gives the number of occurrences. */
  lemma ScanCountIsGridCount(g: seq<string>, w: string)
    requires |g| > 0 && Rectangular(g)
    ensures ScanCount(g, w) == GridCount(g, w)
  {
    if w != [] {
      CountLinesCounts(Lines(g), Lower(w));
    }
  }

  /** Adds every lower-cased suffix of every line to `t`, line by line. */
  method IndexSuffixes(t: Trie, lines: seq<string>)
    requires t.Valid()
    modifies t, t.Repr
    ensures t.Valid() && fresh(t.Repr - old(t.Repr))
    ensures t.Added == old(t.Added) + Indexed(lines)
  {
    for k := 0 to |lines|
      invariant t.Valid() && fresh(t.Repr - old(t.Repr))
      invariant t.Added == old(t.Added) + Indexed(lines[..k])
    {
      IndexLine(t, lines[k]);
      assert lines[..k + 1][..k] == lines[..k];
    }
    assert lines[..|lines|] == lines;
  }

  /** Adds every lower-cased suffix of one line, longest first. */
  method IndexLine(t: Trie, line: string)
    requires t.Valid()
    modifies t, t.Repr
    ensures t.Valid() && fresh(t.Repr - old(t.Repr))
    ensures t.Added == old(t.Added) + LineSuffixes(line)
  {
    for i := 0 to |line|
      invariant t.Valid() && fresh(t.Repr - old(t.Repr))
      invariant t.Added == old(t.Added) + LineSuffixes(line)[..i]
    {
      t.Add(Lower(line[i..]));
      assert LineSuffixes(line)[..i + 1] == LineSuffixes(line)[..i] + [Lower(line[i..])];
    }
    assert LineSuffixes(line)[..|line|] == LineSuffixes(line);
  }

  /** The indexing part of the constructor: a new trie holding every
      lower-cased suffix of every row, then of every column. */
  method BuildIndex(grid: seq<string>) returns (t: Trie)
    requires IsGrid(grid)
    ensures fresh(t) && fresh(t.Repr)
    ensures t.Valid() && t.Added == Indexed(Lines(grid))
  {
    var verticalStrings := Columns(grid);
    t := new Trie();
    IndexSuffixes(t, grid);
    assert t.Added == Indexed(grid);
    IndexSuffixes(t, verticalStrings);
    IndexedAppend(grid, verticalStrings);
    assert Lines(grid) == grid + verticalStrings;
  }

  /** What `EvaluateWord(word)` does to the ranking `s`, giving `t`: offer
      the lower-cased word with its number of occurrences, if it occurs. */
  ghost predicate Evaluates(g: seq<string>, s: TopState, word: string, t: TopState)
  {
    |g| > 0 && Rectangular(g) &&
    var n := GridCount(g, word);
    if n > 0 then Step(s, Lower(word), n, t) else t == s
  }

  /** Queries that differ only in letter case are evaluated alike. */
  lemma EvaluatesIgnoresCase(g: seq<string>, s: TopState, w1: string, w2: string, t: TopState)
    requires Lower(w1) == Lower(w2)
    ensures Evaluates(g, s, w1, t) <==> Evaluates(g, s, w2, t)
  {
    assert |w1| == |Lower(w1)| == |w2|;
  }

  /** A ranked entry is a nonempty lower-cased word with its true number
      of occurrences. */
  ghost predicate Truthful(g: seq<string>, e: Entry)
    requires |g| > 0 && Rectangular(g)
  {
    e.word != [] && Lower(e.word) == e.word && e.count == GridCount(g, e.word)
  }

  /** Evaluating a word keeps every ranked entry truthful. */
  lemma EvaluatesTruthful(g: seq<string>, s: TopState, word: string, t: TopState)
    requires |g| > 0 && Rectangular(g) && Evaluates(g, s, word, t)
    requires forall e :: e in s.queue ==> Truthful(g, e)
    ensures forall e :: e in t.queue ==> Truthful(g, e)
  {
    if GridCount(g, word) > 0 {
      StepEntries(s, Lower(word), GridCount(g, word), t);
      LowerIdempotent(word);
    }
  }

  /** A word that does not occur, or whose lower-cased form is already
      ranked, leaves the ranking as it was. */
  lemma EvaluatesIgnored(g: seq<string>, s: TopState, word: string, t: TopState)
    requires |g| > 0 && Rectangular(g) && Evaluates(g, s, word, t)
    requires GridCount(g, word) == 0 || Lower(word) in s.itemSet
    ensures t == s
  {
  }

  /** A word that occurs more often than the threshold and is not yet
      ranked goes in with its count while there is room. */
  lemma EvaluatesInserted(g: seq<string>, s: TopState, word: string, t: TopState)
    requires |g| > 0 && Rectangular(g) && Evaluates(g, s, word, t)
    requires 0 <= s.minimumCount < GridCount(g, word) && Lower(word) !in s.itemSet
    requires |s.queue| < Capacity
    ensures t == TopState(s.queue + multiset{Entry(Lower(word), GridCount(g, word))},
                          s.itemSet + {Lower(word)}, s.minimumCount)
  {
  }

  /** Evaluating `words` in order can take the ranking from `s` to `t`. */
  ghost predicate Reaches(g: seq<string>, s: TopState, words: seq<string>, t: TopState)
    decreases |words|
  {
    if words == [] then t == s
    else exists m :: Evaluates(g, s, words[0], m) && Reaches(g, m, words[1..], t)
  }

  /** One more word at the end of a run. */
  lemma {:induction false} ReachesSnoc(g: seq<string>, s: TopState, words: seq<string>, m: TopState,
                                       w: string, t: TopState)
    requires Reaches(g, s, words, m) && Evaluates(g, m, w, t)
    ensures Reaches(g, s, words + [w], t)
    decreases |words|
  {
    if words == [] {
      assert words + [w] == [w];
      assert Reaches(g, t, [w][1..], t);
    } else {
      var m1 :| Evaluates(g, s, words[0], m1) && Reaches(g, m1, words[1..], m);
      ReachesSnoc(g, m1, words[1..], m, w, t);
      SnocTail(words, w);
    }
  }

  /** The same, for a run over a prefix of a word list. */
  lemma ReachesNext(g: seq<string>, s: TopState, words: seq<string>, i: nat, m: TopState, t: TopState)
    requires i < |words| && Reaches(g, s, words[..i], m) && Evaluates(g, m, words[i], t)
    ensures Reaches(g, s, words[..i + 1], t)
  {
    ReachesSnoc(g, s, words[..i], m, words[i], t);
    assert words[..i + 1] == words[..i] + [words[i]];
  }

  /** Appending at the end keeps the head and appends to the tail. */
  lemma SnocTail(words: seq<string>, w: string)
    requires words != []
    ensures (words + [w])[0] == words[0] && (words + [w])[1..] == words[1..] + [w]
  {
    assert (words + [w])[1..] == words[1..] + [w];
  }

  class WordFinder {
    const trie: Trie
    const topWords: TopWords
    /** The validated grid. */
    ghost const Grid: seq<string>

    /** The trie holds the suffixes of every row and column, and every
        ranked entry is a lower-cased word with its true number of
        occurrences. */
    ghost predicate Valid()
      reads this, trie, trie.Repr, topWords
    {
      IsGrid(Grid) && trie.Valid() && topWords.Valid() &&
      trie.Added == Indexed(Lines(Grid)) &&
      forall e :: e in topWords.queue ==> Truthful(Grid, e)
    }

    /** The constructor after `ValidateMatrix` has passed. */
    constructor (grid: seq<string>)
      requires IsGrid(grid)
      ensures Valid() && Grid == grid && topWords.State() == Initial()
      ensures fresh(trie) && fresh(trie.Repr) && fresh(topWords)
    {
      var index := BuildIndex(grid);
      trie := index;
      topWords := new TopWords();
      Grid := grid;
    }

    /** The index answers every query with its true count: the trie's
        reply to the lower-cased word `q` is the number of horizontal and
        vertical occurrences of `q` in the grid. */
    lemma IndexCount(q: string)
      requires Valid()
      ensures (if q == [] then 0 else PrefixCount(trie.Added, Lower(q))) == GridCount(Grid, q)
    {
      IndexedCounts(Lines(Grid), Lower(q));
    }

    /** Looks `word` up, lower-cased, and offers it with its count when the
        count is positive. */
    method EvaluateWord(word: string)
      requires Valid()
      modifies topWords
      ensures Valid() && Evaluates(Grid, old(topWords.State()), word, topWords.State())
    {
      var wordCount := trie.StartsWith(Lower(word));
      IndexCount(word);
      if wordCount > 0 {
        Rank(word, wordCount);
      }
    }

    /** The ranking half of `EvaluateWord`, for a word found `count` times. */
    method Rank(word: string, count: int)
      requires Valid() && 0 < count == GridCount(Grid, word)
      modifies topWords
      ensures Valid() && Step(old(topWords.State()), Lower(word), count, topWords.State())
    {
      topWords.Add(Lower(word), count);
      EvaluatesTruthful(Grid, old(topWords.State()), word, topWords.State());
    }

    /** `Find` in `Synchronous` mode: evaluates the words in order, then
        returns the ranked words. The ranking is not reset: it goes on from
        the state the previous calls left. */
    method Find(wordstream: seq<string>) returns (found: seq<string>)
      requires Valid()
      modifies topWords
      ensures Valid()
      ensures Reaches(Grid, old(topWords.State()), wordstream, topWords.State())
      ensures Reports(found)
    {
      EvaluateAll(wordstream);
      found := Report();
    }

    /** The loop of `Find`: every word of the stream, in order. */
    method EvaluateAll(wordstream: seq<string>)
      requires Valid()
      modifies topWords
      ensures Valid()
      ensures Reaches(Grid, old(topWords.State()), wordstream, topWords.State())
    {
      ghost var start := topWords.State();
      for i := 0 to |wordstream|
        invariant Valid()
        invariant Reaches(Grid, start, wordstream[..i], topWords.State())
      {
        Advance(start, wordstream, i);
      }
      assert wordstream[..|wordstream|] == wordstream;
    }

    /** One turn of `Find`'s loop: evaluating the next word extends the run. */
    method Advance(ghost start: TopState, wordstream: seq<string>, i: nat)
      requires Valid() && i < |wordstream| && Reaches(Grid, start, wordstream[..i], topWords.State())
      modifies topWords
      ensures Valid() && Reaches(Grid, start, wordstream[..i + 1], topWords.State())
    {
      ghost var before := topWords.State();
      EvaluateWord(wordstream[i]);
      ReachesNext(Grid, start, wordstream, i, before, topWords.State());
    }

    /** The closing step of `Find`: the ranked entries' words. */
    method Report() returns (found: seq<string>)
      requires Valid()
      ensures Reports(found)
    {
      var top := topWords.GetTop();
      found := Words(top);
      RankedWords(top);
    }

    /** `found` lists the ranked words, each once, each with its true
        positive number of occurrences, most frequent first. */
    ghost predicate Reports(found: seq<string>)
      reads this, topWords
    {
      IsGrid(Grid) &&
      |found| == |topWords.queue| <= Capacity &&
      (forall i, j :: 0 <= i < j < |found| ==> found[i] != found[j]) &&
      (forall i :: 0 <= i < |found| ==> Entry(found[i], GridCount(Grid, found[i])) in topWords.queue) &&
      (forall i :: 0 <= i < |found| ==> GridCount(Grid, found[i]) > 0) &&
      (forall i, j :: 0 <= i < j < |found| ==> GridCount(Grid, found[j]) <= GridCount(Grid, found[i]))
    }

    /** The words of the entries `GetTop` lists are a report of the ranking. */
    lemma RankedWords(top: seq<Entry>)
      requires Valid() && multiset(top) == topWords.queue && SortedByCount(top)
      ensures Reports(Words(top))
    {
      ListedDistinct(top, topWords.queue);
      forall i | 0 <= i < |top|
        ensures top[i] == Entry(top[i].word, GridCount(Grid, top[i].word)) && top[i].count > 0
      {
        assert top[i] in multiset(top);
      }
    }
  }

  /** `new WordFinder(matrix)`: validation first; a failed check is the
      exception the constructor throws. */
  method Create(matrix: Option<seq<Option<string>>>) returns (r: Result<WordFinder, MatrixError>)
    ensures ValidateMatrix(matrix).Failure? ==> r == Failure(ValidateMatrix(matrix).error)
    ensures ValidateMatrix(matrix).Success? ==>
              r.Success? && fresh(r.value) && fresh(r.value.topWords) && r.value.Valid() &&
              r.value.Grid == ValidateMatrix(matrix).value &&
              r.value.topWords.State() == Initial()
  {
    var v := ValidateMatrix(matrix);
    if v.Failure? {
      return Failure(v.error);
    }
    var finder := new WordFinder(v.value);
    return Success(finder);
  }
}
