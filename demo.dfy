/** The sample run of Program.cs: a 7-by-5 grid and five query words. */
module Demo {
  import opened Text
  import opened WordFinding

  const SampleRows: seq<string> := ["abcdc", "fgwio", "chill", "pqnsd", "uvdxy", "chill", "chill"]
  const SampleWords: seq<string> := ["cold", "wind", "snow", "chill", "wind"]

  /** The sample grid's columns, read top to bottom. */
  const SampleColumns: seq<string> := ["afcpucc", "bghqvhh", "cwindii", "dilsxll", "coldyll"]

  lemma SampleIsGrid()
    ensures IsGrid(SampleRows)
  {
  }

  lemma SampleColumnsAre()
    ensures Columns(SampleRows) == SampleColumns
  {
    var cols := Columns(SampleRows);
    forall c | 0 <= c < |SampleColumns|
      ensures cols[c] == SampleColumns[c]
    {
      assert |cols[c]| == |SampleColumns[c]|;
      forall r | 0 <= r < |SampleRows|
        ensures cols[c][r] == SampleColumns[c][r]
      {
      }
    }
  }

  /** The sample words are already in lower case. */
  lemma SampleWordsLower()
    ensures Lower("chill") == "chill" && Lower("cold") == "cold"
    ensures Lower("wind") == "wind" && Lower("snow") == "snow"
  {
  }

  /** In the sample grid a lower-case word occurs as often as a scan of
      its rows and its columns finds it. */
  lemma SampleScan(w: string)
    requires w != [] && Lower(w) == w
    ensures GridCount(SampleRows, w) == Occurrences(SampleRows, w) + Occurrences(SampleColumns, w)
  {
    SampleColumnsAre();
    OccurrencesAppend(SampleRows, SampleColumns, w);
  }

  lemma ChillInRows()
    ensures Occurrences(SampleRows, "chill") == 3
  {
    assert CountLines(SampleRows, "chill", 7) == 3 by {
      assert CountLines(SampleRows, "chill", 2) == 0;
      assert CountLines(SampleRows, "chill", 4) == 1;
      assert CountLines(SampleRows, "chill", 6) == 2;
    }
    CountLinesCounts(SampleRows, "chill");
  }

  lemma ChillInColumns()
    ensures Occurrences(SampleColumns, "chill") == 0
  {
    assert CountLines(SampleColumns, "chill", 5) == 0 by {
      assert CountLines(SampleColumns, "chill", 2) == 0;
      assert CountLines(SampleColumns, "chill", 4) == 0;
    }
    CountLinesCounts(SampleColumns, "chill");
  }

  lemma ColdInRows()
    ensures Occurrences(SampleRows, "cold") == 0
  {
    assert CountLines(SampleRows, "cold", 7) == 0 by {
      assert CountLines(SampleRows, "cold", 2) == 0;
      assert CountLines(SampleRows, "cold", 4) == 0;
      assert CountLines(SampleRows, "cold", 6) == 0;
    }
    CountLinesCounts(SampleRows, "cold");
  }

  lemma ColdInColumns()
    ensures Occurrences(SampleColumns, "cold") == 1
  {
    assert CountLines(SampleColumns, "cold", 5) == 1 by {
      assert CountLines(SampleColumns, "cold", 2) == 0;
      assert CountLines(SampleColumns, "cold", 4) == 0;
    }
    CountLinesCounts(SampleColumns, "cold");
  }

  lemma WindInRows()
    ensures Occurrences(SampleRows, "wind") == 0
  {
    assert CountLines(SampleRows, "wind", 7) == 0 by {
      assert CountLines(SampleRows, "wind", 2) == 0;
      assert CountLines(SampleRows, "wind", 4) == 0;
      assert CountLines(SampleRows, "wind", 6) == 0;
    }
    CountLinesCounts(SampleRows, "wind");
  }

  lemma WindInColumns()
    ensures Occurrences(SampleColumns, "wind") == 1
  {
    assert CountLines(SampleColumns, "wind", 5) == 1 by {
      assert CountLines(SampleColumns, "wind", 2) == 0;
      assert CountLines(SampleColumns, "wind", 4) == 1;
    }
    CountLinesCounts(SampleColumns, "wind");
  }

  lemma SnowInRows()
    ensures Occurrences(SampleRows, "snow") == 0
  {
    assert CountLines(SampleRows, "snow", 7) == 0 by {
      assert CountLines(SampleRows, "snow", 2) == 0;
      assert CountLines(SampleRows, "snow", 4) == 0;
      assert CountLines(SampleRows, "snow", 6) == 0;
    }
    CountLinesCounts(SampleRows, "snow");
  }

  lemma SnowInColumns()
    ensures Occurrences(SampleColumns, "snow") == 0
  {
    assert CountLines(SampleColumns, "snow", 5) == 0 by {
      assert CountLines(SampleColumns, "snow", 2) == 0;
      assert CountLines(SampleColumns, "snow", 4) == 0;
    }
    CountLinesCounts(SampleColumns, "snow");
  }

  /** "chill" lies in three rows; "cold" runs down the last column and
      "wind" down the third; "snow" is nowhere. */
  lemma SampleCounts()
    ensures GridCount(SampleRows, "chill") == 3
    ensures GridCount(SampleRows, "cold") == 1
    ensures GridCount(SampleRows, "wind") == 1
    ensures GridCount(SampleRows, "snow") == 0
  {
    SampleWordsLower();
    SampleScan("chill");
    ChillInRows();
    ChillInColumns();
    SampleScan("cold");
    ColdInRows();
    ColdInColumns();
    SampleScan("wind");
    WindInRows();
    WindInColumns();
    SampleScan("snow");
    SnowInRows();
    SnowInColumns();
  }

  /** Every cell lies on one row and one column, so in a one-by-one grid
      its single letter is counted twice. */
  lemma SingleCellCountsTwice()
    ensures GridCount(["a"], "a") == 2
  {
    var g := ["a"];
    var cols := Columns(g);
    assert |cols| == 1 && |cols[0]| == 1 && cols[0][0] == 'a';
    assert cols[0] == "a";
    assert cols == ["a"];
    assert Lines(g) == ["a", "a"];
    ScanCountIsGridCount(g, "a");
  }
}

module SampleRun {
  import opened Wrappers
  import opened Text
  import opened Ranking
  import opened WordFinding
  import opened Demo

  /** The sample matrix as the constructor receives it. */
  const SampleMatrix: Option<seq<Option<string>>> :=
    Some([Some("abcdc"), Some("fgwio"), Some("chill"), Some("pqnsd"), Some("uvdxy"), Some("chill"), Some("chill")])

  lemma SampleValidates()
    ensures ValidateMatrix(SampleMatrix) == Success(SampleRows)
  {
    assert Present(SampleMatrix.value) == SampleRows;
    SampleIsGrid();
  }

  /** A run whose first word goes into a queue with room continues from
      the state that holds it. */
  lemma InsertedThen(g: seq<string>, s: TopState, words: seq<string>, t: TopState)
    requires |g| > 0 && Rectangular(g) && words != [] && Lower(words[0]) == words[0]
    requires 0 <= s.minimumCount < GridCount(g, words[0]) && words[0] !in s.itemSet && |s.queue| < Capacity
    requires Reaches(g, s, words, t)
    ensures Reaches(g, TopState(s.queue + multiset{Entry(words[0], GridCount(g, words[0]))},
                                s.itemSet + {words[0]}, s.minimumCount), words[1..], t)
  {
    var m :| Evaluates(g, s, words[0], m) && Reaches(g, m, words[1..], t);
    EvaluatesInserted(g, s, words[0], m);
  }

  /** A run whose first word is absent from the grid or already ranked
      continues from the same state. */
  lemma IgnoredThen(g: seq<string>, s: TopState, words: seq<string>, t: TopState)
    requires |g| > 0 && Rectangular(g) && words != [] && Lower(words[0]) == words[0]
    requires GridCount(g, words[0]) == 0 || words[0] in s.itemSet
    requires Reaches(g, s, words, t)
    ensures Reaches(g, s, words[1..], t)
  {
    var m :| Evaluates(g, s, words[0], m) && Reaches(g, m, words[1..], t);
    EvaluatesIgnored(g, s, words[0], m);
  }

  /** The first two words of a run shaped like the sample's are both
      ranked. */
  lemma FirstTwoRanked(g: seq<string>, a: string, b: string, rest: seq<string>, t: TopState)
    requires |g| > 0 && Rectangular(g)
    requires Lower(a) == a && Lower(b) == b && a != b
    requires GridCount(g, a) > 0 && GridCount(g, b) > 0
    requires Reaches(g, Initial(), [a, b] + rest, t)
    ensures Reaches(g, TopState(multiset{} + multiset{Entry(a, GridCount(g, a))} + multiset{Entry(b, GridCount(g, b))},
                                {} + {a} + {b}, 0), rest, t)
  {
    var w0 := [a, b] + rest;
    var t0 := Initial();
    InsertedThen(g, t0, w0, t);
    var t1 := TopState(t0.queue + multiset{Entry(a, GridCount(g, a))}, t0.itemSet + {a}, 0);
    var w1 := w0[1..];
    assert w1 == [b] + rest;
    InsertedThen(g, t1, w1, t);
    assert w1[1..] == rest;
  }

  /** After those two, an absent word, a third present word and a repeat
      of the second add only the third. */
  lemma LastThreeRanked(g: seq<string>, s: TopState, b: string, d: string, c: string, t: TopState)
    requires |g| > 0 && Rectangular(g)
    requires Lower(b) == b && Lower(c) == c && Lower(d) == d
    requires b in s.itemSet && c !in s.itemSet && |s.queue| == 2 && s.minimumCount == 0
    requires GridCount(g, c) > 0 && GridCount(g, d) == 0
    requires Reaches(g, s, [d, c, b], t)
    ensures t.queue == s.queue + multiset{Entry(c, GridCount(g, c))}
  {
    var w2 := [d, c, b];
    IgnoredThen(g, s, w2, t);
    var w3 := w2[1..];
    assert w3 == [c, b];
    InsertedThen(g, s, w3, t);
    var t4 := TopState(s.queue + multiset{Entry(c, GridCount(g, c))}, s.itemSet + {c}, 0);
    var w4 := w3[1..];
    assert w4 == [b];
    IgnoredThen(g, t4, w4, t);
    assert w4[1..] == [];
  }

  /** A run over five words shaped like the sample's, where the third word
      is absent and the second repeats, ends with the three present words
      ranked with their counts. */
  lemma FiveWordRun(g: seq<string>, a: string, b: string, d: string, c: string, t: TopState)
    requires |g| > 0 && Rectangular(g)
    requires Lower(a) == a && Lower(b) == b && Lower(c) == c && Lower(d) == d
    requires a != b && a != c && b != c
    requires GridCount(g, a) > 0 && GridCount(g, b) > 0 && GridCount(g, c) > 0 && GridCount(g, d) == 0
    requires Reaches(g, Initial(), [a, b, d, c, b], t)
    ensures t.queue == multiset{Entry(a, GridCount(g, a)), Entry(b, GridCount(g, b)), Entry(c, GridCount(g, c))}
  {
    assert [a, b, d, c, b] == [a, b] + [d, c, b];
    FirstTwoRanked(g, a, b, [d, c, b], t);
    var s := TopState(multiset{} + multiset{Entry(a, GridCount(g, a))} + multiset{Entry(b, GridCount(g, b))},
                      {} + {a} + {b}, 0);
    LastThreeRanked(g, s, b, d, c, t);
  }

  /** Three distinct words drawn from "cold", "wind" and "chill", with
      "chill" counted above the other two and the counts non-increasing:
      "chill" comes first. */
  lemma ChillFirst(found: seq<string>, count: string -> int)
    requires |found| == 3 && forall i, j :: 0 <= i < j < 3 ==> found[i] != found[j]
    requires forall i :: 0 <= i < 3 ==> found[i] in {"cold", "wind", "chill"}
    requires count("cold") < count("chill") && count("wind") < count("chill")
    requires forall i, j :: 0 <= i < j < 3 ==> count(found[j]) <= count(found[i])
    ensures found[0] == "chill"
    ensures found[1..] == ["cold", "wind"] || found[1..] == ["wind", "cold"]
  {
    var a, b, c := found[0], found[1], found[2];
    assert a == "chill" || b == "chill" || c == "chill";
    assert count("chill") <= count(found[0]);
  }

  /** A report of that ranking puts "chill" first. */
  lemma SampleOrder(finder: WordFinder, found: seq<string>)
    requires finder.Grid == SampleRows && finder.Reports(found)
    requires finder.topWords.queue == multiset{Entry("cold", 1), Entry("wind", 1), Entry("chill", 3)}
    ensures |found| == 3 && found[0] == "chill"
    ensures found[1..] == ["cold", "wind"] || found[1..] == ["wind", "cold"]
  {
    SampleCounts();
    var q := finder.topWords.queue;
    forall i | 0 <= i < |found|
      ensures found[i] in {"cold", "wind", "chill"}
    {
      assert Entry(found[i], GridCount(SampleRows, found[i])) in q;
    }
    ChillFirst(found, w => if |SampleRows| > 0 && Rectangular(SampleRows) then GridCount(SampleRows, w) else 0);
  }

  /** `MainTest.Execute`: the sample finds "chill" first (three
      occurrences), then "cold" and "wind" (one each) in an order the
      ranking leaves open; "snow" does not occur. */
  method Execute() returns (found: seq<string>)
    ensures |found| == 3 && found[0] == "chill"
    ensures found[1..] == ["cold", "wind"] || found[1..] == ["wind", "cold"]
  {
    SampleValidates();
    var r := Create(SampleMatrix);
    var finder := r.value;
    found := finder.Find(SampleWords);
    SampleCounts();
    SampleWordsLower();
    assert "cold"[0] != "wind"[0] && "cold"[1] != "chill"[1] && "wind"[0] != "chill"[0];
    FiveWordRun(SampleRows, "cold", "wind", "snow", "chill", finder.topWords.State());
    SampleOrder(finder, found);
  }
}
