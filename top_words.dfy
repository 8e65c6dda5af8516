/** The bounded collection of the most frequent words, DataStructures/TopWords.cs.

    The source keeps a priority queue of (word, count) entries ordered by
    count, a hash set of the words in the queue, and a threshold
    `minimumCount` below which offers are ignored. The queue is modelled as
    a multiset of entries; `Dequeue` removes SOME entry of least count,
    chosen nondeterministically. */
module Ranking {

  datatype Entry = Entry(word: string, count: int)

  /** `capacity`: at most this many entries are kept. */
  const Capacity: nat := 10

  /** The fields of a `TopWords` object, as a value. */
  datatype TopState = TopState(queue: multiset<Entry>, itemSet: set<string>, minimumCount: int)

  /** The state of a newly created `TopWords`. */
  function Initial(): TopState {
    TopState(multiset{}, {}, 0)
  }

  ghost function WordsOf(q: multiset<Entry>): set<string> {
    set e | e in q :: e.word
  }

  /** No entry is held twice, and no word belongs to two entries. */
  ghost predicate DistinctWords(q: multiset<Entry>) {
    (forall e :: e in q ==> q[e] == 1) &&
    (forall e, f :: e in q && f in q && e.word == f.word ==> e == f)
  }

  /** `e` has the least count in `q`. */
  predicate IsMinimal(q: multiset<Entry>, e: Entry) {
    e in q && forall f :: f in q ==> e.count <= f.count
  }

  /** `e` has the greatest count in `q`. */
  predicate IsMaximal(q: multiset<Entry>, e: Entry) {
    e in q && forall f :: f in q ==> f.count <= e.count
  }

  /** The invariant the source keeps: at most `Capacity` entries with
      distinct words, `itemSet` holds exactly their words, and every held
      count is positive and at least the threshold. */
  ghost predicate Inv(s: TopState) {
    |s.queue| <= Capacity &&
    s.itemSet == WordsOf(s.queue) &&
    DistinctWords(s.queue) &&
    0 <= s.minimumCount &&
    forall e :: e in s.queue ==> 0 < e.count && s.minimumCount <= e.count
  }

  /** What one call `Add(w, c)` may do to state `s`, giving `t`: nothing
      when `c` does not beat the threshold or `w` is already held;
      otherwise the entry goes in, and when that makes `Capacity + 1`
      entries, one entry of least count (possibly the new one) goes out and
      its count becomes the threshold. */
  ghost predicate Step(s: TopState, w: string, c: int, t: TopState) {
    if c <= s.minimumCount || w in s.itemSet then t == s
    else
      var q := s.queue + multiset{Entry(w, c)};
      if |q| <= Capacity then t == TopState(q, s.itemSet + {w}, s.minimumCount)
      else exists e :: IsMinimal(q, e) && t == Evict(q, s.itemSet + {w}, e)
  }

  /** The state after `Dequeue` removed `e` from the full queue `q`. */
  function Evict(q: multiset<Entry>, items: set<string>, e: Entry): TopState {
    TopState(q - multiset{e}, items - {e.word}, e.count)
  }

  /** Inserting an entry for a word not yet held keeps the words distinct
      and adds that word. */
  lemma InsertNew(q: multiset<Entry>, n: Entry)
    requires DistinctWords(q) && n.word !in WordsOf(q)
    ensures DistinctWords(q + multiset{n})
    ensures WordsOf(q + multiset{n}) == WordsOf(q) + {n.word}
    ensures |q + multiset{n}| == |q| + 1
  {
    var q' := q + multiset{n};
    assert n !in q;
    forall e | e in q'
      ensures q'[e] == 1
    {
      if e != n { assert e in q; }
    }
    forall v | v in WordsOf(q')
      ensures v in WordsOf(q) + {n.word}
    {
      var e :| e in q' && e.word == v;
      if e != n { assert e in q; }
    }
    forall v | v in WordsOf(q) + {n.word}
      ensures v in WordsOf(q')
    {
      if v != n.word {
        var e :| e in q && e.word == v;
        assert e in q';
      }
    }
  }

  /** Removing a held entry keeps the words distinct and drops its word. */
  lemma RemoveHeld(q: multiset<Entry>, e: Entry)
    requires DistinctWords(q) && e in q
    ensures DistinctWords(q - multiset{e})
    ensures WordsOf(q - multiset{e}) == WordsOf(q) - {e.word}
    ensures |q - multiset{e}| == |q| - 1
  {
    var q' := q - multiset{e};
    assert q'[e] == 0;
    forall v | v in WordsOf(q')
      ensures v in WordsOf(q) - {e.word}
    {
      var f :| f in q' && f.word == v;
      assert f != e && f in q;
    }
    forall v | v in WordsOf(q) - {e.word}
      ensures v in WordsOf(q')
    {
      var f :| f in q && f.word == v;
      assert f != e && f in q';
    }
  }

  /** Every nonempty multiset of entries has an entry of least and one of
      greatest count. */
  lemma {:induction false} ExtremesExist(q: multiset<Entry>)
    requires q != multiset{}
    ensures exists e :: IsMinimal(q, e)
    ensures exists e :: IsMaximal(q, e)
    decreases |q|
  {
    var x :| x in q;
    var rest := q - multiset{x};
    assert forall f :: f in q ==> f == x || f in rest;
    if rest == multiset{} {
      assert IsMinimal(q, x) && IsMaximal(q, x);
    } else {
      ExtremesExist(rest);
      var lo :| IsMinimal(rest, lo);
      var hi :| IsMaximal(rest, hi);
      if x.count <= lo.count { assert IsMinimal(q, x); } else { assert IsMinimal(q, lo); }
      if hi.count <= x.count { assert IsMaximal(q, x); } else { assert IsMaximal(q, hi); }
    }
  }

  /** `Add` keeps the invariant and never lowers the threshold. */
  lemma StepKeepsInv(s: TopState, w: string, c: int, t: TopState)
    requires Inv(s) && Step(s, w, c, t)
    ensures Inv(t)
    ensures s.minimumCount <= t.minimumCount
  {
    if !(c <= s.minimumCount || w in s.itemSet) {
      var q := s.queue + multiset{Entry(w, c)};
      InsertNew(s.queue, Entry(w, c));
      if |q| > Capacity {
        var e :| IsMinimal(q, e) && t == Evict(q, s.itemSet + {w}, e);
        RemoveHeld(q, e);
        assert Entry(w, c) in q;
      }
    }
  }

  /** Offers whose count does not beat the threshold, or whose word is
      already held, change nothing; since the threshold starts at 0, no
      count <= 0 is ever stored. */
  lemma StepBelowThreshold(s: TopState, w: string, c: int, t: TopState)
    requires Step(s, w, c, t) && (c <= s.minimumCount || w in s.itemSet)
    ensures t == s
  {
  }

  /** First write wins: an entry, once held, is never replaced by another
      entry for the same word; it stays as it is or is evicted. */
  lemma StepFirstWriteWins(s: TopState, w: string, c: int, t: TopState, e: Entry)
    requires Inv(s) && Step(s, w, c, t) && e in s.queue
    ensures forall f :: f in t.queue && f.word == e.word ==> f == e
  {
    forall f | f in t.queue && f.word == e.word
      ensures f == e
    {
      if !(c <= s.minimumCount || w in s.itemSet) {
        assert f in s.queue + multiset{Entry(w, c)};
        assert w != e.word;
      }
    }
  }

  /** Every entry held afterwards was held before or is the one offered. */
  lemma StepEntries(s: TopState, w: string, c: int, t: TopState)
    requires Step(s, w, c, t)
    ensures forall f :: f in t.queue ==> f in s.queue || f == Entry(w, c)
  {
    if !(c <= s.minimumCount || w in s.itemSet) {
      var q := s.queue + multiset{Entry(w, c)};
      if |q| > Capacity {
        var e :| IsMinimal(q, e) && t == Evict(q, s.itemSet + {w}, e);
        assert forall f :: f in t.queue ==> f in q;
      }
    }
  }

  /** Below capacity, a new word that beats the threshold is inserted as it
      is, and the threshold stays. */
  lemma StepInserts(s: TopState, w: string, c: int, t: TopState)
    requires Inv(s) && Step(s, w, c, t)
    requires s.minimumCount < c && w !in s.itemSet && |s.queue| < Capacity
    ensures t.queue == s.queue + multiset{Entry(w, c)}
    ensures t.itemSet == s.itemSet + {w} && t.minimumCount == s.minimumCount
  {
  }

  /** On overflow exactly one entry goes: the size stays at `Capacity`, and
      the threshold becomes the count of the entry that went, which was a
      least count among the held entries and the offered one. */
  lemma StepEvicts(s: TopState, w: string, c: int, t: TopState)
    requires Inv(s) && Step(s, w, c, t)
    requires s.minimumCount < c && w !in s.itemSet && |s.queue| == Capacity
    ensures |t.queue| == Capacity
    ensures forall f :: f in t.queue ==> t.minimumCount <= f.count
    ensures t.minimumCount <= c
    ensures forall f :: f in s.queue ==> t.minimumCount <= f.count
    ensures exists e :: (IsMinimal(s.queue + multiset{Entry(w, c)}, e) &&
                         t.queue == s.queue + multiset{Entry(w, c)} - multiset{e} &&
                         t.itemSet == s.itemSet + {w} - {e.word} && t.minimumCount == e.count)
  {
    var q := s.queue + multiset{Entry(w, c)};
    var e :| IsMinimal(q, e) && t == Evict(q, s.itemSet + {w}, e);
    assert Entry(w, c) in q;
  }

  /** Counts never increase along `s`. */
  predicate SortedByCount(s: seq<Entry>) {
    forall i, j :: 0 <= i < j < |s| ==> s[j].count <= s[i].count
  }

  /** The words of a list of entries, in order: `Select(_ => _.word)`. */
  function Words(s: seq<Entry>): (r: seq<string>)
    ensures |r| == |s| && forall i :: 0 <= i < |s| ==> r[i] == s[i].word
  {
    if s == [] then [] else [s[0].word] + Words(s[1..])
  }

  /** An element that occurs at two positions occurs at least twice. */
  lemma {:induction false} TwoPositions(s: seq<Entry>, i: nat, j: nat)
    requires i < j < |s| && s[i] == s[j]
    ensures multiset(s)[s[i]] >= 2
  {
    assert s == s[..i] + [s[i]] + s[i + 1..j] + [s[j]] + s[j + 1..];
  }

  /** A list holding each entry of a multiset with distinct words once has
      distinct words, and as many as the multiset has entries. */
  lemma ListedDistinct(s: seq<Entry>, q: multiset<Entry>)
    requires multiset(s) == q && DistinctWords(q)
    ensures forall i, j :: 0 <= i < j < |s| ==> s[i].word != s[j].word
    ensures |s| == |q|
  {
    forall i, j | 0 <= i < j < |s|
      ensures s[i].word != s[j].word
    {
      assert s[i] in multiset(s) && s[j] in multiset(s);
      if s[i].word == s[j].word {
        TwoPositions(s, i, j);
      }
    }
  }

  class TopWords {
    var queue: multiset<Entry>
    var itemSet: set<string>
    var minimumCount: int

    ghost function State(): TopState
      reads this
    {
      TopState(queue, itemSet, minimumCount)
    }

    ghost predicate Valid()
      reads this
    {
      Inv(State())
    }

    constructor ()
      ensures Valid() && State() == Initial()
    {
      queue := multiset{};
      itemSet := {};
      minimumCount := 0;
    }

    /** Offers `(word, count)`. */
    method Add(word: string, count: int)
      requires Valid()
      modifies this
      ensures Valid() && Step(old(State()), word, count, State())
    {
      if count > minimumCount {
        if word !in itemSet {
          queue := queue + multiset{Entry(word, count)};
          itemSet := itemSet + {word};
          if |queue| > Capacity {
            ExtremesExist(queue);
            var removed :| IsMinimal(queue, removed);
            queue := queue - multiset{removed};
            itemSet := itemSet - {removed.word};
            minimumCount := removed.count;
          }
        }
      }
      StepKeepsInv(old(State()), word, count, State());
    }

    /** The held entries, highest count first; the order of equal counts is
        not specified. */
    method GetTop() returns (top: seq<Entry>)
      ensures multiset(top) == queue && SortedByCount(top)
    {
      top := [];
      var rest := queue;
      while rest != multiset{}
        invariant multiset(top) + rest == queue
        invariant SortedByCount(top)
        invariant forall i, f :: 0 <= i < |top| && f in rest ==> f.count <= top[i].count
        decreases |rest|
      {
        ExtremesExist(rest);
        var e :| IsMaximal(rest, e);
        assert multiset(top + [e]) == multiset(top) + multiset{e};
        top := top + [e];
        rest := rest - multiset{e};
      }
    }
  }
}
