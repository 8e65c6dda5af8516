/** The prefix-count trie of DataStructures/Trie.cs.

    Every node reached by a path `p` from the root counts how many added
    strings have `p` as a prefix. The abstract view is the sequence
    `Added` of strings given to `Add`; `PrefixCount(Added, p)` is what the
    node for `p` holds. */
module Tries {

  /** Number of strings in `words` that have `p` as a prefix. */
  function PrefixCount(words: seq<string>, p: string): (n: nat)
    ensures n <= |words|
  {
    if words == [] then 0
    else PrefixCount(words[..|words| - 1], p) + (if p <= words[|words| - 1] then 1 else 0)
  }

  /** Counting over a concatenation adds the counts of the two parts. */
  lemma {:induction false} PrefixCountAppend(a: seq<string>, b: seq<string>, p: string)
    ensures PrefixCount(a + b, p) == PrefixCount(a, p) + PrefixCount(b, p)
    decreases |b|
  {
    if b == [] {
      assert a + b == a;
    } else {
      var b' := b[..|b| - 1];
      assert (a + b)[..|a + b| - 1] == a + b';
      PrefixCountAppend(a, b', p);
    }
  }

  /** Adding one string raises the count of exactly its prefixes, by one. */
  lemma PrefixCountSnoc(words: seq<string>, w: string, p: string)
    ensures PrefixCount(words + [w], p) == PrefixCount(words, p) + (if p <= w then 1 else 0)
  {
    assert (words + [w])[..|words|] == words;
  }

  /** A longer prefix is shared by no more strings than a shorter one. */
  lemma {:induction false} PrefixCountMonotone(words: seq<string>, q: string, p: string)
    requires q <= p
    ensures PrefixCount(words, p) <= PrefixCount(words, q)
    decreases |words|
  {
    if words != [] {
      PrefixCountMonotone(words[..|words| - 1], q, p);
    }
  }

  /** If no string has `p` as a prefix, the count of `p` is zero. */
  lemma {:induction false} PrefixCountNone(words: seq<string>, p: string)
    requires forall j :: 0 <= j < |words| ==> !(p <= words[j])
    ensures PrefixCount(words, p) == 0
    decreases |words|
  {
    if words != [] {
      PrefixCountNone(words[..|words| - 1], p);
    }
  }

  /** Every string starts with the empty prefix. */
  lemma {:induction false} PrefixCountEmpty(words: seq<string>)
    ensures PrefixCount(words, "") == |words|
    decreases |words|
  {
    if words != [] {
      PrefixCountEmpty(words[..|words| - 1]);
    }
  }

  lemma PrefixIsTake(p: string, s: string)
    requires |p| <= |s|
    ensures p <= s <==> s[..|p|] == p
  {
  }

  lemma InitLast(q: string)
    requires q != []
    ensures q[..|q| - 1] + [q[|q| - 1]] == q
  {
  }

  lemma SnocInjective(p: string, d: char, q: string, c: char)
    requires p + [d] == q + [c]
    ensures p == q && d == c
  {
    assert p == (p + [d])[..|p|];
    assert q == (q + [c])[..|q|];
  }

  lemma PrefixOfSnoc(path: string, c: char, p: string)
    ensures p <= path + [c] <==> p <= path || p == path + [c]
  {
    if p <= path + [c] && p != path + [c] {
      assert p == (path + [c])[..|p|] == path[..|p|];
    }
  }

  /** `TrieNode` (Program.cs): a dictionary of children and a count. The
      ghost `path` is the string that leads from the root to the node. */
  class TrieNode {
    var children: map<char, TrieNode>
    var count: int
    ghost const path: string

    constructor (ghost path: string)
      ensures children == map[] && count == 0 && this.path == path
    {
      children := map[];
      count := 0;
      this.path := path;
    }
  }

  class Trie {
    const root: TrieNode

    /** The strings added so far, in order. */
    ghost var Added: seq<string>
    /** The node reached by each path from the root. */
    ghost var Nodes: map<string, TrieNode>
    /** Every node of the trie. */
    ghost var Repr: set<TrieNode>

    /** The root sits at the empty path and every path names a node of Repr. */
    ghost predicate Framed()
      reads this
    {
      "" in Nodes && Nodes[""] == root && root in Repr &&
      forall p :: p in Nodes ==> Nodes[p] in Repr && Nodes[p].path == p
    }

    /** The nodes form a tree: the children of the node at `p` are exactly
        the nodes at the paths `p + [c]`. */
    ghost predicate Shaped()
      reads this, Repr`children
    {
      Framed() &&
      (forall p, c {:trigger c in Nodes[p].children} :: p in Nodes && c in Nodes[p].children ==>
         p + [c] in Nodes && Nodes[p].children[c] == Nodes[p + [c]]) &&
      (forall p, c {:trigger p + [c] in Nodes} :: p + [c] in Nodes ==> p in Nodes && c in Nodes[p].children)
    }

    /** Every prefix of every added string has a node. */
    ghost predicate Closed()
      reads this
    {
      forall j, k :: 0 <= j < |Added| && 0 <= k <= |Added[j]| ==> Added[j][..k] in Nodes
    }

    /** The root counts nothing, and the node at every nonempty path `p`
        counts the added strings that start with `p`. */
    ghost predicate Counted()
      reads this, Repr`count
    {
      Framed() && root.count == 0 &&
      forall p :: p in Nodes && p != [] ==> Nodes[p].count == PrefixCount(Added, p)
    }

    /** The object invariant. */
    ghost predicate Valid()
      reads this, Repr
    {
      Shaped() && Closed() && Counted()
    }

    /** The count stored at the node for `p`, or 0 when there is no node. */
    ghost function NodeCount(p: string): int
      reads this, Repr`count
      requires Framed()
    {
      if p in Nodes then Nodes[p].count else 0
    }

    /** Abstractly, every node counts the added strings it is a prefix of,
        except the root, which counts nothing. */
    lemma NodeCountIsPrefixCount(p: string)
      requires Closed() && Counted()
      ensures NodeCount(p) == if p == [] then 0 else PrefixCount(Added, p)
    {
      if p !in Nodes && p != [] {
        NoNodeNoCount(p);
      }
    }

    constructor ()
      ensures Valid() && fresh(Repr)
      ensures Added == [] && Nodes == map["" := root] && Repr == {root}
      ensures root.children == map[] && root.count == 0
    {
      var r := new TrieNode("");
      root := r;
      Added := [];
      Nodes := map["" := r];
      Repr := {r};
    }

    /** `currentNode.children[c]`, created empty first when missing. */
    method Child(ghost path: string, node: TrieNode, c: char) returns (child: TrieNode)
      requires Shaped() && path in Nodes && node == Nodes[path]
      modifies this`Nodes, this`Repr, node`children
      ensures Shaped() && fresh(Repr - old(Repr))
      ensures path + [c] in Nodes && child == Nodes[path + [c]]
      ensures forall p :: p in old(Nodes) ==> p in Nodes && Nodes[p] == old(Nodes[p])
      ensures forall p :: p in Nodes && p !in old(Nodes) ==> p == path + [c] && child.count == 0
    {
      if c !in node.children {
        Grow(path, node, c);
      }
      child := node.children[c];
    }

    /** The missing child for `c`, created with a zero count. */
    method Grow(ghost path: string, node: TrieNode, c: char)
      requires Shaped() && path in Nodes && node == Nodes[path] && c !in node.children
      modifies this`Nodes, this`Repr, node`children
      ensures Shaped() && c in node.children && fresh(node.children[c])
      ensures Nodes == old(Nodes)[path + [c] := node.children[c]] && path + [c] !in old(Nodes)
      ensures Repr == old(Repr) + {node.children[c]} && node.children[c].count == 0
    {
      assert path + [c] !in Nodes;
      var n := new TrieNode(path + [c]);
      node.children := node.children[c := n];
      Nodes := Nodes[path + [c] := n];
      Repr := Repr + {n};
      assert Framed();
      forall p, d | p in Nodes && d in Nodes[p].children
        ensures p + [d] in Nodes && Nodes[p].children[d] == Nodes[p + [d]]
      {
        if p == path { } else { assert Nodes[p] == old(Nodes[p]); }
      }
      forall p, d | p + [d] in Nodes
        ensures p in Nodes && d in Nodes[p].children
      {
        if p + [d] == path + [c] { SnocInjective(p, d, path, c); }
      }
    }

    /** `Counted`, except that the nonempty prefixes of `walked` have
        already been counted once more: the state of `Add` part way along
        a word. */
    ghost predicate CountedAlong(walked: string)
      reads this, Repr`count
    {
      Framed() && root.count == 0 &&
      forall p :: p in Nodes && p != [] ==>
        Nodes[p].count == PrefixCount(Added, p) + (if p <= walked then 1 else 0)
    }

    /** One step of `Add`: move from the node at `path` to its child for
        `c`, creating the child when missing, and count the visit. */
    method Enter(ghost path: string, current: TrieNode, c: char) returns (next: TrieNode)
      requires Shaped() && Closed() && CountedAlong(path)
      requires path in Nodes && current == Nodes[path]
      modifies this`Nodes, this`Repr, Repr
      ensures Shaped() && Closed() && CountedAlong(path + [c]) && Added == old(Added)
      ensures fresh(Repr - old(Repr))
      ensures forall p :: p in old(Nodes) ==> p in Nodes && Nodes[p] == old(Nodes[p])
      ensures path + [c] in Nodes && next == Nodes[path + [c]]
    {
      if path + [c] !in Nodes {
        NoNodeNoCount(path + [c]);
      }
      next := Child(path, current, c);
      Visit(path, c, next);
    }

    /** `currentNode.count++` on the node just entered. */
    method Visit(ghost path: string, c: char, next: TrieNode)
      requires CountedAlong(path) && path + [c] in Nodes && next == Nodes[path + [c]]
      modifies next`count
      ensures CountedAlong(path + [c])
    {
      next.count := next.count + 1;
      forall p | p in Nodes
        ensures p <= path + [c] <==> p <= path || p == path + [c]
      {
        PrefixOfSnoc(path, c, p);
      }
    }

    /** Walks `word`, creating missing children and adding 1 to the count of
        every node entered. */
    method Add(word: string)
      requires Valid()
      modifies this, Repr
      ensures Valid() && fresh(Repr - old(Repr))
      ensures Added == old(Added) + [word]
      ensures forall p :: NodeCount(p) == old(NodeCount(p)) + (if p != [] && p <= word then 1 else 0)
      ensures word == [] ==> Nodes == old(Nodes)
    {
      forall p
        ensures NodeCount(p) == if p == [] then 0 else PrefixCount(Added, p)
      {
        NodeCountIsPrefixCount(p);
      }
      Walk(word);
      Record(word);
    }

    /** The loop of `Add`: enters, creating it when missing, the node of
        every nonempty prefix of `word` and adds 1 to its count. */
    method Walk(word: string)
      requires Valid()
      modifies this`Nodes, this`Repr, Repr
      ensures Shaped() && Closed() && CountedAlong(word) && Added == old(Added)
      ensures word in Nodes && fresh(Repr - old(Repr))
      ensures word == [] ==> Nodes == old(Nodes)
    {
      var current := root;
      var i := 0;
      while i < |word|
        invariant 0 <= i <= |word|
        invariant Shaped() && Closed() && CountedAlong(word[..i]) && Added == old(Added)
        invariant fresh(Repr - old(Repr))
        invariant forall p :: p in old(Nodes) ==> p in Nodes && Nodes[p] == old(Nodes[p])
        invariant word[..i] in Nodes && current == Nodes[word[..i]]
        invariant i == 0 ==> Nodes == old(Nodes)
      {
        assert word[..i] + [word[i]] == word[..i + 1];
        current := Enter(word[..i], current, word[i]);
        i := i + 1;
      }
      assert word[..|word|] == word;
    }

    /** Once the walk has counted every prefix of `word`, the word is
        recorded as added. */
    ghost method Record(word: string)
      requires Shaped() && Closed() && CountedAlong(word) && word in Nodes
      modifies this`Added
      ensures Valid() && Added == old(Added) + [word]
      ensures forall p :: NodeCount(p) ==
                (if p == [] then 0 else PrefixCount(old(Added), p)) + (if p != [] && p <= word then 1 else 0)
    {
      PathPrefixes(word);
      forall p | p in Nodes && p != []
        ensures Nodes[p].count == PrefixCount(Added + [word], p)
      {
        PrefixCountSnoc(Added, word, p);
      }
      Added := Added + [word];
      forall p
        ensures NodeCount(p) ==
          (if p == [] then 0 else PrefixCount(old(Added), p)) + (if p != [] && p <= word then 1 else 0)
      {
        NodeCountIsPrefixCount(p);
        PrefixCountSnoc(old(Added), word, p);
      }
    }

    /** Every prefix of a path with a node has a node. */
    lemma {:induction false} PathPrefixes(q: string)
      requires Shaped() && q in Nodes
      ensures forall k :: 0 <= k <= |q| ==> q[..k] in Nodes
      decreases |q|
    {
      if q != [] {
        var q', c := q[..|q| - 1], q[|q| - 1];
        InitLast(q);
        PathPrefixes(q');
        forall k | 0 <= k <= |q|
          ensures q[..k] in Nodes
        {
          if k < |q| {
            assert q[..k] == q'[..k];
          } else {
            assert q[..k] == q;
          }
        }
      }
    }

    /** A path without a node is a prefix of no added string. */
    lemma NoNodeNoCount(p: string)
      requires Closed() && p !in Nodes
      ensures PrefixCount(Added, p) == 0
    {
      forall j | 0 <= j < |Added|
        ensures !(p <= Added[j])
      {
        if |p| <= |Added[j]| {
          assert Added[j][..|p|] in Nodes;
          PrefixIsTake(p, Added[j]);
        }
      }
      PrefixCountNone(Added, p);
    }

    /** Follows `p` from the root; 0 as soon as a character has no child,
        otherwise the count of the node reached. */
    method StartsWith(p: string) returns (n: int)
      requires Valid()
      ensures n == if p == [] then 0 else PrefixCount(Added, p)
    {
      var current := root;
      var i := 0;
      while i < |p|
        invariant 0 <= i <= |p|
        invariant p[..i] in Nodes && current == Nodes[p[..i]]
      {
        var c := p[i];
        assert p[..i] + [c] == p[..i + 1];
        if c !in current.children {
          // No node for p[..i + 1]: no added string starts with it, nor with p.
          NoNodeNoCount(p[..i + 1]);
          PrefixCountMonotone(Added, p[..i + 1], p);
          return 0;
        }
        current := current.children[c];
        i := i + 1;
      }
      assert p[..|p|] == p;
      return current.count;
    }
  }
}
