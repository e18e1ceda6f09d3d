/**
  The completion trie: a tree of characters in which a node marks the end of a
  stored word. nyash's `Trie` owns its children in a `HashMap<char, Trie>`; they
  are kept here as an arena: every node lives in `nodes` and a child is the index of another
  node. The ghost field `paths` records the string leading to each node and
  `Words` is the set of words the trie stores.
 */
module PrefixTrie {
  import opened Wrappers
  import opened Seqs

  datatype Node = Node(children: map<char, nat>, endOfWord: bool)

  /** The node that `Trie::new` creates: no children, no word ends here. */
  const EmptyNode := Node(map[], false)

  /** Follows the characters of `s` from node `n`; `None` as soon as a character has no child. */
  function Walk(nodes: seq<Node>, n: nat, s: string): (r: Option<nat>)
    ensures r.Some? ==> r.value < |nodes|
    decreases |s|
  {
    if n >= |nodes| then None
    else if s == [] then Some(n)
    else if s[0] in nodes[n].children then Walk(nodes, nodes[n].children[s[0]], s[1..])
    else None
  }

  /** `s` leads from node `n` to a node that ends a word. */
  predicate Ends(nodes: seq<Node>, n: nat, s: string) {
    var r := Walk(nodes, n, s);
    r.Some? && nodes[r.value].endOfWord
  }

  /** The trie rooted at node 0 stores `w`. */
  predicate Stores(nodes: seq<Node>, w: string) {
    Ends(nodes, 0, w)
  }

  /**
    The arena is a tree: the root is node 0, every child comes after its parent,
    and a child's path is its parent's path followed by the edge character.
   */
  ghost predicate Shape(nodes: seq<Node>, paths: seq<string>) {
    |nodes| > 0 && |paths| == |nodes| && paths[0] == [] &&
    forall n, c :: 0 <= n < |nodes| && c in nodes[n].children ==>
      n < nodes[n].children[c] < |nodes| && paths[nodes[n].children[c]] == paths[n] + [c]
  }

  /** Node `cur` gains a new, empty child along `c`: `entry(c).or_insert_with(Trie::new)`. */
  function AddChild(nodes: seq<Node>, cur: nat, c: char): (r: seq<Node>)
    requires cur < |nodes|
    ensures |r| == |nodes| + 1 && r[|nodes|] == EmptyNode
    ensures r[cur].children == nodes[cur].children[c := |nodes|]
  {
    nodes[cur := nodes[cur].(children := nodes[cur].children[c := |nodes|])] + [EmptyNode]
  }

  /** Node `cur` is marked as the end of a word. */
  function MarkEnd(nodes: seq<Node>, cur: nat): (r: seq<Node>)
    requires cur < |nodes|
    ensures |r| == |nodes| && r[cur].endOfWord
  {
    nodes[cur := nodes[cur].(endOfWord := true)]
  }

  /** Every later word of `s` is no prefix of an earlier one: a word comes before its extensions. */
  predicate PrefixOrdered(s: seq<string>) {
    forall i, j :: 0 <= i < j < |s| ==> !IsPrefix(s[j], s[i])
  }

  /** `seg` holds exactly the words below `node`, spelled from `prefix`. */
  ghost predicate Below(nodes: seq<Node>, node: nat, prefix: string, seg: seq<string>) {
    forall v :: v in seg <==> IsPrefix(prefix, v) && Ends(nodes, node, v[|prefix|..])
  }

  /** `seg` holds exactly the words below `node` that are the node's own or lie under a child in `done`. */
  ghost predicate Collected(nodes: seq<Node>, node: nat, prefix: string, seg: seq<string>, done: set<char>) {
    forall v :: v in seg <==>
      IsPrefix(prefix, v) && Ends(nodes, node, v[|prefix|..]) && (|v| == |prefix| || v[|prefix|] in done)
  }

  // ---------------------------------------------------------------------------
  // Walking.

  /** Walking `s + t` is walking `s` and then `t` from where `s` ended. */
  lemma {:induction false} WalkAppend(nodes: seq<Node>, n: nat, s: string, t: string)
    ensures Walk(nodes, n, s + t) == match Walk(nodes, n, s)
                                     case None => None
                                     case Some(m) => Walk(nodes, m, t)
    decreases |s|
  {
    if n >= |nodes| {
    } else if s == [] {
      assert s + t == t;
    } else {
      assert (s + t)[0] == s[0] && (s + t)[1..] == s[1..] + t;
      if s[0] in nodes[n].children {
        WalkAppend(nodes, nodes[n].children[s[0]], s[1..], t);
      }
    }
  }

  /** A walk that succeeds ends on the node whose path is the start's path followed by `s`. */
  lemma {:induction false} WalkPath(nodes: seq<Node>, paths: seq<string>, n: nat, s: string)
    requires Shape(nodes, paths) && n < |nodes| && Walk(nodes, n, s).Some?
    ensures paths[Walk(nodes, n, s).value] == paths[n] + s
    decreases |s|
  {
    if s == [] {
      assert paths[n] + s == paths[n];
    } else {
      var m := nodes[n].children[s[0]];
      WalkPath(nodes, paths, m, s[1..]);
      assert paths[n] + [s[0]] + s[1..] == paths[n] + s;
    }
  }

  /** Walks depend on the edges only, not on which nodes end a word. */
  lemma {:induction false} WalkSameEdges(a: seq<Node>, b: seq<Node>, n: nat, s: string)
    requires |a| == |b| && forall i :: 0 <= i < |a| ==> a[i].children == b[i].children
    ensures Walk(a, n, s) == Walk(b, n, s)
    decreases |s|
  {
    if n < |a| && s != [] && s[0] in a[n].children {
      WalkSameEdges(a, b, a[n].children[s[0]], s[1..]);
    }
  }

  /**
    A new child leaves every walk that succeeded unchanged; a walk that failed
    still fails, or now ends on the new node.
   */
  lemma {:induction false} WalkAddChild(nodes: seq<Node>, cur: nat, c: char, n: nat, s: string)
    requires cur < |nodes| && c !in nodes[cur].children
    ensures Walk(nodes, n, s).Some? ==> Walk(AddChild(nodes, cur, c), n, s) == Walk(nodes, n, s)
    ensures Walk(nodes, n, s).None? ==>
      Walk(AddChild(nodes, cur, c), n, s) in {None, Some(|nodes|)}
    decreases |s|
  {
    var grown := AddChild(nodes, cur, c);
    if n == |nodes| {
      assert grown[n].children == map[];
    } else if n < |nodes| && s != [] {
      assert grown[n].children == if n == cur then nodes[n].children[c := |nodes|] else nodes[n].children;
      if n == cur && s[0] == c {
        WalkAddChild(nodes, cur, c, |nodes|, s[1..]);
      } else if s[0] in nodes[n].children {
        WalkAddChild(nodes, cur, c, nodes[n].children[s[0]], s[1..]);
      }
    }
  }

  // ---------------------------------------------------------------------------
  // The two updates `insert` makes, and what they do to the stored words.

  lemma AddChildKeepsShape(nodes: seq<Node>, paths: seq<string>, cur: nat, c: char)
    requires Shape(nodes, paths) && cur < |nodes| && c !in nodes[cur].children
    ensures Shape(AddChild(nodes, cur, c), paths + [paths[cur] + [c]])
  {
    var grown, grownPaths := AddChild(nodes, cur, c), paths + [paths[cur] + [c]];
    forall n, d | 0 <= n < |grown| && d in grown[n].children
      ensures n < grown[n].children[d] < |grown|
      ensures grownPaths[grown[n].children[d]] == grownPaths[n] + [d]
    {
      if n == cur && d == c {
      } else {
        assert n < |nodes| && grown[n].children[d] == nodes[n].children[d];
      }
    }
  }

  lemma AddChildKeepsWords(nodes: seq<Node>, cur: nat, c: char, w: string)
    requires cur < |nodes| && c !in nodes[cur].children
    ensures Stores(AddChild(nodes, cur, c), w) <==> Stores(nodes, w)
  {
    WalkAddChild(nodes, cur, c, 0, w);
  }

  /** Growing the tree along the path being inserted keeps its shape, its words and the walk so far. */
  lemma Grow(nodes: seq<Node>, paths: seq<string>, cur: nat, c: char, prefix: string)
    requires Shape(nodes, paths) && cur < |nodes| && c !in nodes[cur].children
    requires Walk(nodes, 0, prefix) == Some(cur)
    ensures Shape(AddChild(nodes, cur, c), paths + [paths[cur] + [c]])
    ensures forall w :: Stores(AddChild(nodes, cur, c), w) <==> Stores(nodes, w)
    ensures Walk(AddChild(nodes, cur, c), 0, prefix) == Some(cur)
  {
    WalkAddChild(nodes, cur, c, 0, prefix);
    AddChildKeepsShape(nodes, paths, cur, c);
    forall w ensures Stores(AddChild(nodes, cur, c), w) <==> Stores(nodes, w) {
      AddChildKeepsWords(nodes, cur, c, w);
    }
  }

  /** One more character of `word`, along an existing edge, extends the walk by that edge. */
  lemma Advance(nodes: seq<Node>, word: string, i: nat, cur: nat)
    requires i < |word| && Walk(nodes, 0, word[..i]) == Some(cur) && word[i] in nodes[cur].children
    ensures Walk(nodes, 0, word[..i + 1]) == Walk(nodes, nodes[cur].children[word[i]], [])
  {
    assert word[..i + 1] == word[..i] + [word[i]];
    WalkAppend(nodes, 0, word[..i], [word[i]]);
  }

  /** Along a stored word every edge already exists. */
  lemma StoredHasEdge(nodes: seq<Node>, word: string, i: nat, cur: nat)
    requires Stores(nodes, word) && i < |word| && Walk(nodes, 0, word[..i]) == Some(cur)
    ensures word[i] in nodes[cur].children
  {
    assert word == word[..i] + word[i..];
    WalkAppend(nodes, 0, word[..i], word[i..]);
  }

  /** Marking the node that `word` leads to adds `word` to the stored words and nothing else. */
  lemma MarkEndAddsWord(nodes: seq<Node>, paths: seq<string>, cur: nat, word: string)
    requires Shape(nodes, paths) && Walk(nodes, 0, word) == Some(cur)
    ensures Shape(MarkEnd(nodes, cur), paths)
    ensures forall w :: Stores(MarkEnd(nodes, cur), w) <==> Stores(nodes, w) || w == word
  {
    var marked := MarkEnd(nodes, cur);
    assert forall i :: 0 <= i < |nodes| ==> marked[i].children == nodes[i].children;
    forall w ensures Stores(marked, w) <==> Stores(nodes, w) || w == word {
      WalkSameEdges(marked, nodes, 0, w);
      var r := Walk(nodes, 0, w);
      if r == Some(cur) {
        WalkPath(nodes, paths, 0, w);
        WalkPath(nodes, paths, 0, word);
        assert w == paths[cur] == word;
      }
    }
  }

  /** No stored word extends a string that is not a path of the tree. */
  lemma DeadPrefix(nodes: seq<Node>, p: string, v: string)
    requires Walk(nodes, 0, p) == None && IsPrefix(p, v)
    ensures !Stores(nodes, v)
  {
    assert v == p + v[|p|..];
    WalkAppend(nodes, 0, p, v[|p|..]);
  }

  /** Below the node that `p` leads to, the words that end are the stored words extending `p`. */
  lemma EndsBelow(nodes: seq<Node>, p: string, n: nat, v: string)
    requires Walk(nodes, 0, p) == Some(n) && IsPrefix(p, v)
    ensures Ends(nodes, n, v[|p|..]) <==> Stores(nodes, v)
  {
    assert v == p + v[|p|..];
    WalkAppend(nodes, 0, p, v[|p|..]);
  }

  /** The words below child `ch` of `node` are the words below `node` that continue with `ch`. */
  lemma ChildWords(nodes: seq<Node>, node: nat, prefix: string, ch: char, v: string)
    requires node < |nodes| && ch in nodes[node].children
    ensures (IsPrefix(prefix + [ch], v) && Ends(nodes, nodes[node].children[ch], v[|prefix| + 1..]))
        <==> (IsPrefix(prefix, v) && |v| > |prefix| && v[|prefix|] == ch && Ends(nodes, node, v[|prefix|..]))
  {
    if IsPrefix(prefix, v) && |v| > |prefix| {
      var s := v[|prefix|..];
      assert s[0] == v[|prefix|] && s[1..] == v[|prefix| + 1..];
      assert IsPrefix(prefix + [ch], v) <==> v[|prefix|] == ch by {
        assert v[..|prefix| + 1] == v[..|prefix|] + [v[|prefix|]];
      }
    }
  }

  lemma PrefixOrderedConcat(a: seq<string>, b: seq<string>)
    requires PrefixOrdered(a) && PrefixOrdered(b)
    requires forall x, y :: x in a && y in b ==> !IsPrefix(y, x)
    ensures PrefixOrdered(a + b)
  {
    forall i, j | 0 <= i < j < |a + b| ensures !IsPrefix((a + b)[j], (a + b)[i]) {
      if j < |a| {
        assert (a + b)[i] == a[i] && (a + b)[j] == a[j];
      } else if i < |a| {
        assert (a + b)[i] == a[i] && (a + b)[j] == b[j - |a|];
        assert a[i] in a && b[j - |a|] in b;
      } else {
        assert (a + b)[i] == b[i - |a|] && (a + b)[j] == b[j - |a|];
      }
    }
  }

  /** A sequence that extends `acc + seg` is `acc` followed by `seg` and the new part. */
  lemma Extend<T>(res: seq<T>, acc: seq<T>, seg: seq<T>, before: seq<T>)
    requires before == acc + seg && |before| <= |res| && res[..|before|] == before
    ensures res == acc + (seg + res[|before|..])
  {
    assert res == before + res[|before|..];
  }

  /** Before any child is visited, only the node's own word is collected. */
  lemma CollectStart(nodes: seq<Node>, node: nat, prefix: string)
    requires node < |nodes|
    ensures Collected(nodes, node, prefix, if nodes[node].endOfWord then [prefix] else [], {})
  {
    forall v | IsPrefix(prefix, v) && |v| == |prefix| ensures v == prefix && v[|prefix|..] == [] { }
  }

  /** Visiting one more child appends that child's words, keeping the segment free of repeats and ordered. */
  lemma CollectStep(nodes: seq<Node>, node: nat, prefix: string, ch: char,
                    seg: seq<string>, more: seq<string>, done: set<char>)
    requires node < |nodes| && ch in nodes[node].children && ch !in done
    requires Collected(nodes, node, prefix, seg, done) && NoDup(seg) && PrefixOrdered(seg)
    requires Below(nodes, nodes[node].children[ch], prefix + [ch], more) && NoDup(more) && PrefixOrdered(more)
    ensures Collected(nodes, node, prefix, seg + more, done + {ch})
    ensures NoDup(seg + more) && PrefixOrdered(seg + more)
  {
    forall v ensures v in more <==>
      IsPrefix(prefix, v) && |v| > |prefix| && v[|prefix|] == ch && Ends(nodes, node, v[|prefix|..])
    {
      ChildWords(nodes, node, prefix, ch, v);
    }
    NoDupConcat(seg, more);
    PrefixOrderedConcat(seg, more);
  }

  /** Once every child is visited, the segment holds all the words below the node. */
  lemma CollectDone(nodes: seq<Node>, node: nat, prefix: string, seg: seq<string>)
    requires node < |nodes| && Collected(nodes, node, prefix, seg, nodes[node].children.Keys)
    ensures Below(nodes, node, prefix, seg)
  {
    forall v | IsPrefix(prefix, v) && |v| > |prefix| && Ends(nodes, node, v[|prefix|..])
      ensures v[|prefix|] in nodes[node].children
    {
      assert v[|prefix|..][0] == v[|prefix|];
    }
  }

  // ---------------------------------------------------------------------------

  class Trie {
    var nodes: seq<Node>
    ghost var paths: seq<string>
    ghost var Words: set<string>

    ghost predicate Valid()
      reads this
    {
      Shape(nodes, paths) && forall w :: w in Words <==> Stores(nodes, w)
    }

    /** A trie with no words. */
    constructor ()
      ensures Valid() && Words == {}
    {
      nodes := [EmptyNode];
      paths := [[]];
      Words := {};
      new;
      forall w ensures !Stores(nodes, w) {
        if w != [] {
          assert Walk(nodes, 0, w) == None;
        }
      }
    }

    /** Stores `word`; a word that is already stored leaves the trie exactly as it was. */
    method Insert(word: string)
      requires Valid()
      modifies this
      ensures Valid()
      ensures Words == old(Words) + {word}
      ensures word in old(Words) ==> nodes == old(nodes)
    {
      var cur := 0;
      for i := 0 to |word|
        invariant Shape(nodes, paths) && Words == old(Words)
        invariant forall w :: w in Words <==> Stores(nodes, w)
        invariant cur < |nodes| && Walk(nodes, 0, word[..i]) == Some(cur)
        invariant word in old(Words) ==> nodes == old(nodes)
      {
        var c := word[i];
        if word in old(Words) {
          StoredHasEdge(nodes, word, i, cur);
        }
        if c !in nodes[cur].children {
          Grow(nodes, paths, cur, c, word[..i]);
          nodes := AddChild(nodes, cur, c);
          paths := paths + [paths[cur] + [c]];
        }
        Advance(nodes, word, i, cur);
        cur := nodes[cur].children[c];
      }
      assert word[..|word|] == word;
      MarkEndAddsWord(nodes, paths, cur, word);
      nodes := MarkEnd(nodes, cur);
      Words := Words + {word};
    }

    /**
      The stored words that extend `word`, each once and each before its own
      extensions; none for the empty string.
     */
    method WithPrefix(word: string) returns (res: seq<string>)
      requires Valid()
      ensures forall v :: v in res <==> word != [] && IsPrefix(word, v) && v in Words
      ensures NoDup(res) && PrefixOrdered(res)
      ensures word == [] || Walk(nodes, 0, word) == None ==> res == []
    {
      res := [];
      if word == [] {
        return;
      }
      var cur := 0;
      for i := 0 to |word|
        invariant cur < |nodes| && Walk(nodes, 0, word[..i]) == Some(cur)
      {
        assert word[..i + 1] == word[..i] + [word[i]];
        WalkAppend(nodes, 0, word[..i], [word[i]]);
        if word[i] in nodes[cur].children {
          cur := nodes[cur].children[word[i]];
        } else {
          forall v | IsPrefix(word, v) ensures !Stores(nodes, v) {
            DeadPrefix(nodes, word[..i + 1], v);
          }
          return;
        }
      }
      assert word[..|word|] == word;
      res := CollectWords(cur, word, res);
      assert res[0..] == res;
      forall v | IsPrefix(word, v) ensures Ends(nodes, cur, v[|word|..]) <==> Stores(nodes, v) {
        EndsBelow(nodes, word, cur, v);
      }
    }

    /**
      Appends to `acc` the words below `node`, spelled from `prefix`: the node's own
      word first, then the words of each child in turn, in no particular order of
      the children.
     */
    method CollectWords(node: nat, prefix: string, acc: seq<string>) returns (res: seq<string>)
      requires Shape(nodes, paths) && node < |nodes|
      ensures |acc| <= |res| && res[..|acc|] == acc
      ensures Below(nodes, node, prefix, res[|acc|..])
      ensures NoDup(res[|acc|..]) && PrefixOrdered(res[|acc|..])
      ensures nodes[node].endOfWord ==> |res| > |acc| && res[|acc|] == prefix
      decreases |nodes| - node
    {
      res := acc;
      if nodes[node].endOfWord {
        res := res + [prefix];
      }
      CollectStart(nodes, node, prefix);
      ghost var seg := res[|acc|..];
      var keys := nodes[node].children.Keys;
      while keys != {}
        invariant keys <= nodes[node].children.Keys
        invariant res == acc + seg
        invariant Collected(nodes, node, prefix, seg, nodes[node].children.Keys - keys)
        invariant NoDup(seg) && PrefixOrdered(seg)
        invariant nodes[node].endOfWord ==> |seg| > 0 && seg[0] == prefix
        decreases |keys|
      {
        var ch :| ch in keys;
        var before := res;
        res := CollectWords(nodes[node].children[ch], prefix + [ch], res);
        var more := res[|before|..];
        CollectStep(nodes, node, prefix, ch, seg, more, nodes[node].children.Keys - keys);
        Extend(res, acc, seg, before);
        seg := seg + more;
        keys := keys - {ch};
        assert nodes[node].children.Keys - keys == (nodes[node].children.Keys - (keys + {ch})) + {ch};
      }
      assert res[|acc|..] == seg;
      CollectDone(nodes, node, prefix, res[|acc|..]);
    }
  }

  /**
    When exactly two of four stored words extend `p`, a result that lists exactly
    the stored words extending `p`, with no repeats, is those two in some order.
   */
  lemma TwoOfFour(r: seq<string>, words: set<string>, p: string, a: string, b: string, c: string, d: string)
    requires forall v :: v in r <==> p != [] && IsPrefix(p, v) && v in words
    requires NoDup(r) && words == {a, b, c, d} && p != [] && a != b
    requires IsPrefix(p, a) && IsPrefix(p, b) && !IsPrefix(p, c) && !IsPrefix(p, d)
    ensures r == [a, b] || r == [b, a]
  {
    assert Elements(r) == {a, b};
    NoDupCardinality(r);
    assert r[0] in r && r[1] in r;
  }

  /** The words of the trie's own example that extend "Hi mo". */
  lemma HiMoWords(r: seq<string>, words: set<string>)
    requires words == {"Hi mom", "Hi mother", "Hi father", "apple"}
    requires forall v :: v in r <==> "Hi mo" != [] && IsPrefix("Hi mo", v) && v in words
    requires NoDup(r)
    ensures r == ["Hi mom", "Hi mother"] || r == ["Hi mother", "Hi mom"]
  {
    assert IsPrefix("Hi mo", "Hi mom") && IsPrefix("Hi mo", "Hi mother");
    NotPrefixAt("Hi mo", "Hi father", 3);
    NotPrefixAt("Hi mo", "apple", 0);
    assert "Hi mom"[5] != "Hi mother"[5];
    TwoOfFour(r, words, "Hi mo", "Hi mom", "Hi mother", "Hi father", "apple");
  }

  /** The trie of the example: "Hi mom", "Hi mother", "Hi father" and "apple", stored in that order. */
  method ExampleTrie() returns (t: Trie)
    ensures fresh(t) && t.Valid()
    ensures t.Words == {"Hi mom", "Hi mother", "Hi father", "apple"}
  {
    t := new Trie();
    t.Insert("Hi mom");
    t.Insert("Hi mother");
    t.Insert("Hi father");
    t.Insert("apple");
  }

  /**
    The trie's own example: the words extending "Hi mo" are "Hi mom" and
    "Hi mother". They sit under two different children of the node for "Hi mo",
    so which comes first depends on the order the children are visited in.
   */
  method HiMoExample() returns (r: seq<string>)
    ensures r == ["Hi mom", "Hi mother"] || r == ["Hi mother", "Hi mom"]
  {
    var t := ExampleTrie();
    r := t.WithPrefix("Hi mo");
    HiMoWords(r, t.Words);
  }
}
