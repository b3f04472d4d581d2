/**
 The nested-list junction tree `[id, keys, (sep_id, sep_keys, child_tree), ...]`
 as a rose tree. A separator tuple `(sep_id, sep_keys, child)` behaves, for
 every traversal, like a node whose only child is `child` (its slice `[2:]`
 is `(child,)`), so one node type serves cliques and separators alike.
 */
module Tree {
  import opened Wrappers

  datatype Node = Node(id: nat, keys: seq<int>, kids: seq<Node>)

  /** What `yield_id_and_keys` produces: a flat stream of ids and key lists. */
  datatype Item = Id(id: nat) | Keys(keys: seq<int>)

  /** What `yield_clique_pairs` produces: one tuple per parent/child edge. */
  datatype Pair = Pair(parentId: nat, parentKeys: seq<int>, childId: nat, childKeys: seq<int>)

  // ---------------------------------------------------------------------------
  // Shape

  /** A clique node whose every child is a separator holding exactly one
      subtree, which is again a junction tree. */
  predicate IsJunctionTree(t: Node)
    decreases t
  {
    forall i :: 0 <= i < |t.kids| ==>
      |t.kids[i].kids| == 1 && IsJunctionTree(t.kids[i].kids[0])
  }

  function Size(t: Node): nat
    decreases t, 1
  {
    1 + SizeOf(t.kids)
  }

  function SizeOf(f: seq<Node>): nat
    decreases f, 0
  {
    if f == [] then 0 else Size(f[0]) + SizeOf(f[1..])
  }

  /** The direct children of every node of a forest, left to right. */
  function Children(f: seq<Node>): seq<Node>
  {
    if f == [] then [] else f[0].kids + Children(f[1..])
  }

  // ---------------------------------------------------------------------------
  // Reference orders

  /** Depth-first pre-order: a node, then each child's subtree left to right. */
  function PreOrder(t: Node): (r: seq<Node>)
    decreases t, 1
  {
    [t] + PreOrderOf(t.kids)
  }

  function PreOrderOf(f: seq<Node>): seq<Node>
    decreases f, 0
  {
    if f == [] then [] else PreOrder(f[0]) + PreOrderOf(f[1..])
  }

  /** Level order: the whole current level, then the level below it. */
  function LevelOrder(f: seq<Node>): seq<Node>
    decreases SizeOf(f)
  {
    if f == [] then []
    else
      ChildrenSize(f);
      f + LevelOrder(Children(f))
  }

  /** The prefix of `xs` up to and including the first node whose id is
      `stop`; all of `xs` when there is none (or `stop` is None). */
  function Upto(xs: seq<Node>, stop: Option<nat>): seq<Node>
  {
    if xs == [] then []
    else if stop == Some(xs[0].id) then [xs[0]]
    else [xs[0]] + Upto(xs[1..], stop)
  }

  /** No node of `xs` carries the stop id. */
  predicate Unstopped(xs: seq<Node>, stop: Option<nat>)
  {
    forall i :: 0 <= i < |xs| ==> stop != Some(xs[i].id)
  }

  /** Concatenation of `f` applied to each node: `yield from func(tree)`. */
  function Emit<T>(xs: seq<Node>, f: Node -> seq<T>): seq<T>
  {
    if xs == [] then [] else f(xs[0]) + Emit(xs[1..], f)
  }

  /** `yield_id_and_keys`. */
  function IdAndKeys(t: Node): seq<Item>
  {
    [Id(t.id), Keys(t.keys)]
  }

  /** `yield_clique_pairs`: one pair per direct child, in child order. */
  function CliquePairs(t: Node): (r: seq<Pair>)
    ensures |r| == |t.kids|
    ensures forall i :: 0 <= i < |r| ==>
      r[i] == Pair(t.id, t.keys, t.kids[i].id, t.kids[i].keys)
  {
    seq(|t.kids|, i requires 0 <= i < |t.kids| =>
      Pair(t.id, t.keys, t.kids[i].id, t.kids[i].keys))
  }

  function Reverse<T>(s: seq<T>): seq<T>
  {
    if s == [] then [] else [s[|s| - 1]] + Reverse(s[..|s| - 1])
  }

  /** All node ids of a tree are pairwise distinct. */
  predicate UniqueIds(xs: seq<Node>)
  {
    forall i, j :: 0 <= i < j < |xs| ==> xs[i].id != xs[j].id
  }

  /** No element of `xs` occurs twice. */
  predicate NoDup<T(==)>(xs: seq<T>)
  {
    forall i, j :: 0 <= i < j < |xs| ==> xs[i] != xs[j]
  }

  // ---------------------------------------------------------------------------
  // Algebra of the reference orders

  lemma {:induction false} SizeOfAppend(a: seq<Node>, b: seq<Node>)
    ensures SizeOf(a + b) == SizeOf(a) + SizeOf(b)
    decreases |a|
  {
    if a == [] {
      assert a + b == b;
    } else {
      assert (a + b)[1..] == a[1..] + b;
      SizeOfAppend(a[1..], b);
    }
  }

  lemma {:induction false} ChildrenAppend(a: seq<Node>, b: seq<Node>)
    ensures Children(a + b) == Children(a) + Children(b)
    decreases |a|
  {
    if a == [] {
      assert a + b == b;
    } else {
      assert (a + b)[1..] == a[1..] + b;
      ChildrenAppend(a[1..], b);
    }
  }

  /** Each level below a non-empty forest is strictly smaller. */
  lemma {:induction false} ChildrenSize(f: seq<Node>)
    ensures SizeOf(Children(f)) + |f| == SizeOf(f)
    decreases |f|
  {
    if f != [] {
      ChildrenSize(f[1..]);
      SizeOfAppend(f[0].kids, Children(f[1..]));
    }
  }

  lemma {:induction false} PreOrderOfAppend(a: seq<Node>, b: seq<Node>)
    ensures PreOrderOf(a + b) == PreOrderOf(a) + PreOrderOf(b)
    decreases |a|
  {
    if a == [] {
      assert a + b == b;
    } else {
      assert (a + b)[1..] == a[1..] + b;
      PreOrderOfAppend(a[1..], b);
    }
  }

  lemma {:induction false} EmitAppend<T>(a: seq<Node>, b: seq<Node>, f: Node -> seq<T>)
    ensures Emit(a + b, f) == Emit(a, f) + Emit(b, f)
    decreases |a|
  {
    if a == [] {
      assert a + b == b;
    } else {
      assert (a + b)[1..] == a[1..] + b;
      EmitAppend(a[1..], b, f);
    }
  }

  lemma {:induction false} UptoAppend(a: seq<Node>, b: seq<Node>, stop: Option<nat>)
    requires Unstopped(a, stop)
    ensures Upto(a + b, stop) == a + Upto(b, stop)
    decreases |a|
  {
    if a == [] {
      assert a + b == b;
    } else {
      assert (a + b)[1..] == a[1..] + b;
      UptoAppend(a[1..], b, stop);
    }
  }

  lemma {:induction false} UptoUnstopped(a: seq<Node>, stop: Option<nat>)
    requires Unstopped(a, stop)
    ensures Upto(a, stop) == a
  {
    UptoAppend(a, [], stop);
    assert a + [] == a;
  }

  lemma {:induction false} ReverseAppend<T>(a: seq<T>, b: seq<T>)
    ensures Reverse(a + b) == Reverse(b) + Reverse(a)
    decreases |b|
  {
    if b == [] {
      assert a + b == a;
    } else {
      var ab := a + b;
      var b' := b[..|b| - 1];
      assert ab[|ab| - 1] == b[|b| - 1];
      assert ab[..|ab| - 1] == a + b';
      ReverseAppend(a, b');
      calc {
        Reverse(ab);
        [b[|b| - 1]] + Reverse(a + b');
        [b[|b| - 1]] + (Reverse(b') + Reverse(a));
        ([b[|b| - 1]] + Reverse(b')) + Reverse(a);
        Reverse(b) + Reverse(a);
      }
    }
  }

  lemma {:induction false} ReverseLength<T>(s: seq<T>)
    ensures |Reverse(s)| == |s|
    decreases |s|
  {
    if s != [] {
      ReverseLength(s[..|s| - 1]);
    }
  }

  lemma {:induction false} ReverseReverse<T>(s: seq<T>)
    ensures Reverse(Reverse(s)) == s
    decreases |s|
  {
    if s != [] {
      var last := s[|s| - 1];
      var init := s[..|s| - 1];
      ReverseReverse(init);
      ReverseAppend([last], Reverse(init));
      assert Reverse([last]) == [last] by {
        assert [last][..0] == [];
      }
      assert s == init + [last];
    }
  }

  // ---------------------------------------------------------------------------
  // Properties of the two orders

  /** The level-order from a forest is one level, then the level-order of the
      next one; more generally a queue `a + b` is drained as `a` followed by
      the drain of `b` with `a`'s children appended. */
  lemma {:induction false} LevelOrderOfLevel(f: seq<Node>)
    requires f != []
    ensures LevelOrder(f) == f + LevelOrder(Children(f))
  {
  }

  lemma {:induction false} PreOrderLength(t: Node)
    ensures |PreOrder(t)| == Size(t)
    decreases t, 1
  {
    PreOrderOfLength(t.kids);
  }

  lemma {:induction false} PreOrderOfLength(f: seq<Node>)
    ensures |PreOrderOf(f)| == SizeOf(f)
    decreases f, 0
  {
    if f != [] {
      PreOrderLength(f[0]);
      PreOrderOfLength(f[1..]);
    }
  }

  /** Pre-order of a forest holds the roots plus the pre-order of the level
      below them, as a multiset. */
  lemma {:induction false} PreOrderOfLevels(f: seq<Node>)
    ensures multiset(PreOrderOf(f)) == multiset(f) + multiset(PreOrderOf(Children(f)))
    decreases |f|
  {
    if f != [] {
      PreOrderOfLevels(f[1..]);
      PreOrderOfAppend(f[0].kids, Children(f[1..]));
      assert f == [f[0]] + f[1..];
    }
  }

  /** Breadth-first and depth-first visit the same nodes, each as often. */
  lemma {:induction false} LevelOrderPermutesPreOrder(f: seq<Node>)
    ensures multiset(LevelOrder(f)) == multiset(PreOrderOf(f))
    decreases SizeOf(f)
  {
    if f != [] {
      ChildrenSize(f);
      LevelOrderPermutesPreOrder(Children(f));
      PreOrderOfLevels(f);
    }
  }

  lemma {:induction false} PreOrderOfSingle(t: Node)
    ensures PreOrderOf([t]) == PreOrder(t)
  {
    assert [t][1..] == [];
  }

  /** Every node of the tree is visited by both orders, the same number of
      times, and there are exactly `Size(t)` visits. */
  lemma {:induction false} TraversalOrdersAgree(t: Node)
    ensures multiset(LevelOrder([t])) == multiset(PreOrder(t))
    ensures |LevelOrder([t])| == |PreOrder(t)| == Size(t)
    ensures PreOrder(t)[0] == t && LevelOrder([t])[0] == t
  {
    LevelOrderPermutesPreOrder([t]);
    PreOrderOfSingle(t);
    PreOrderLength(t);
    assert |multiset(LevelOrder([t]))| == |multiset(PreOrder(t))|;
  }

  /** `yield_id_and_keys` over a visit order: ids at even positions, key
      lists at odd positions, two items per node. */
  lemma {:induction false} EmitIdAndKeys(xs: seq<Node>)
    ensures |Emit(xs, IdAndKeys)| == 2 * |xs|
    ensures forall i :: 0 <= i < |xs| ==>
      Emit(xs, IdAndKeys)[2 * i] == Id(xs[i].id) &&
      Emit(xs, IdAndKeys)[2 * i + 1] == Keys(xs[i].keys)
    decreases |xs|
  {
    if xs != [] {
      EmitIdAndKeys(xs[1..]);
      var e := Emit(xs, IdAndKeys);
      assert e == [Id(xs[0].id), Keys(xs[0].keys)] + Emit(xs[1..], IdAndKeys);
      forall i | 1 <= i < |xs|
        ensures e[2 * i] == Id(xs[i].id) && e[2 * i + 1] == Keys(xs[i].keys)
      {
        assert e[2 * i] == Emit(xs[1..], IdAndKeys)[2 * (i - 1)];
        assert e[2 * i + 1] == Emit(xs[1..], IdAndKeys)[2 * (i - 1) + 1];
      }
    }
  }

  /** Pairs emitted over a forest: one per direct child of a visited node. */
  lemma {:induction false} EmitPairsLength(xs: seq<Node>)
    ensures |Emit(xs, CliquePairs)| == |Children(xs)|
    decreases |xs|
  {
    if xs != [] {
      EmitPairsLength(xs[1..]);
    }
  }

  lemma {:induction false} ChildrenOfPreOrder(t: Node)
    ensures |Children(PreOrder(t))| + 1 == Size(t)
    decreases t, 1
  {
    ChildrenOfPreOrderOf(t.kids);
    ChildrenAppend([t], PreOrderOf(t.kids));
    assert Children([t]) == t.kids by {
      assert [t][1..] == [];
    }
  }

  lemma {:induction false} ChildrenOfPreOrderOf(f: seq<Node>)
    ensures |Children(PreOrderOf(f))| + |f| == SizeOf(f)
    decreases f, 0
  {
    if f != [] {
      ChildrenOfPreOrder(f[0]);
      ChildrenOfPreOrderOf(f[1..]);
      ChildrenAppend(PreOrder(f[0]), PreOrderOf(f[1..]));
    }
  }

  /** `e` is the pair of some node `p` of `xs` with its direct child `c`. */
  predicate EdgePair(xs: seq<Node>, c: Node, e: Pair)
  {
    exists p :: p in xs && c in p.kids && e == Pair(p.id, p.keys, c.id, c.keys)
  }

  /** Pairs emitted over a forest, position by position: pair `i` joins the
      `i`-th direct child of the visited nodes to the node it hangs from. */
  lemma {:induction false} EmitPairsEdges(xs: seq<Node>)
    ensures |Emit(xs, CliquePairs)| == |Children(xs)|
    ensures forall i :: 0 <= i < |Children(xs)| ==> EdgePair(xs, Children(xs)[i], Emit(xs, CliquePairs)[i])
    decreases |xs|
  {
    EmitPairsLength(xs);
    if xs != [] {
      EmitPairsEdges(xs[1..]);
      var head, rest := CliquePairs(xs[0]), Emit(xs[1..], CliquePairs);
      var kids, later := xs[0].kids, Children(xs[1..]);
      assert Emit(xs, CliquePairs) == head + rest;
      assert Children(xs) == kids + later;
      forall i | 0 <= i < |Children(xs)|
        ensures EdgePair(xs, Children(xs)[i], Emit(xs, CliquePairs)[i])
      {
        if i < |kids| {
          assert Children(xs)[i] == kids[i] && Emit(xs, CliquePairs)[i] == head[i];
          assert xs[0] in xs && kids[i] in xs[0].kids;
        } else {
          var j := i - |kids|;
          assert Children(xs)[i] == later[j] && Emit(xs, CliquePairs)[i] == rest[j];
          assert EdgePair(xs[1..], later[j], rest[j]);
          var p :| p in xs[1..] && later[j] in p.kids && rest[j] == Pair(p.id, p.keys, later[j].id, later[j].keys);
          assert p in xs;
        }
      }
    }
  }

  /** Every node below the root of a tree is a direct child of a visited
      node exactly as often as it occurs after the root in pre-order. */
  lemma {:induction false} ChildrenOfPreOrderCount(t: Node)
    ensures multiset(Children(PreOrder(t))) == multiset(PreOrderOf(t.kids))
    decreases t, 1
  {
    ChildrenOfPreOrderOfCount(t.kids);
    ChildrenAppend([t], PreOrderOf(t.kids));
    assert Children([t]) == t.kids by {
      assert [t][1..] == [];
    }
  }

  lemma {:induction false} ChildrenOfPreOrderOfCount(f: seq<Node>)
    ensures multiset(f) + multiset(Children(PreOrderOf(f))) == multiset(PreOrderOf(f))
    decreases f, 0
  {
    if f != [] {
      var root, rest := f[0], f[1..];
      var below, after := PreOrderOf(root.kids), PreOrderOf(rest);
      ChildrenOfPreOrderCount(root);
      ChildrenOfPreOrderOfCount(rest);
      ChildrenAppend(PreOrder(root), after);
      assert f == [root] + rest;
      assert PreOrderOf(f) == [root] + below + after;
      CountsAdd(multiset(f), multiset([root]), multiset(rest), multiset(below), multiset(after),
        multiset(Children(PreOrder(root))), multiset(Children(after)));
    }
  }

  /** The multiset bookkeeping of one step of `ChildrenOfPreOrderOfCount`. */
  lemma CountsAdd<T>(all: multiset<T>, root: multiset<T>, rest: multiset<T>, below: multiset<T>,
                     after: multiset<T>, rootKids: multiset<T>, afterKids: multiset<T>)
    requires all == root + rest && rootKids == below && rest + afterKids == after
    ensures all + (rootKids + afterKids) == root + below + after
  {
  }

  /** A full traversal with `yield_clique_pairs` yields one pair per edge of
      the tree: pair `i` joins the `i`-th child met to the node it hangs from,
      every node but the root is such a child exactly once per occurrence,
      and there is one pair fewer than there are nodes. */
  lemma {:induction false} PairsPerEdge(t: Node)
    ensures |Emit(PreOrder(t), CliquePairs)| == Size(t) - 1
    ensures |Emit(PreOrder(t), CliquePairs)| == |Children(PreOrder(t))|
    ensures forall i :: 0 <= i < |Children(PreOrder(t))| ==>
      EdgePair(PreOrder(t), Children(PreOrder(t))[i], Emit(PreOrder(t), CliquePairs)[i])
    ensures multiset(Children(PreOrder(t))) == multiset(PreOrder(t)[1..])
  {
    EmitPairsEdges(PreOrder(t));
    ChildrenOfPreOrder(t);
    ChildrenOfPreOrderCount(t);
    assert PreOrder(t)[1..] == PreOrderOf(t.kids);
  }
}
