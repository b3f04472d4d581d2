/**
 The bookkeeping of `JunctionTree` in junction_tree.py: re-keying a tree with
 label indices (`map_keys`), the per-node tables built by the constructor, and
 the key position lookup `get_key_ix`.
 */
module Junction {
  import opened Wrappers
  import opened Tree
  import opened KeyLabels

  /** The constructor's index tables. `cliqueOrder` is the insertion order
      of the `clique_keys` dictionary, which its iteration follows. */
  datatype Tables = Tables(
    cliqueKeys: map<nat, seq<int>>,
    cliqueOrder: seq<nat>,
    cliquesToTrees: map<nat, nat>,
    treeCliques: seq<seq<nat>>,
    keysToCliques: map<int, seq<nat>>)

  datatype JunctionTree = JunctionTree(
    keySizes: map<int, nat>,
    labels: map<int, nat>,
    sortedLabels: seq<int>,
    struct: seq<Node>,
    tables: Tables)

  // ---------------------------------------------------------------------------
  // map_keys

  /** Every key of every node of `t` has an entry in `lookup`. */
  predicate KeysIn(t: Node, lookup: map<int, int>)
    decreases t
  {
    && (forall j :: 0 <= j < |t.keys| ==> t.keys[j] in lookup)
    && (forall i :: 0 <= i < |t.kids| ==> KeysIn(t.kids[i], lookup))
  }

  function MapSeq(keys: seq<int>, lookup: map<int, int>): (r: seq<int>)
    requires forall j :: 0 <= j < |keys| ==> keys[j] in lookup
    ensures |r| == |keys|
    ensures forall i :: 0 <= i < |keys| ==> r[i] == lookup[keys[i]]
  {
    seq(|keys|, i requires 0 <= i < |keys| => lookup[keys[i]])
  }

  /** The tree with each clique and separator key `k` replaced by
      `lookup[k]`: the structure `map_keys` returns. */
  function Relabel(t: Node, lookup: map<int, int>): Node
    requires KeysIn(t, lookup)
    decreases t, 1
  {
    Node(t.id, MapSeq(t.keys, lookup), RelabelAll(t.kids, lookup))
  }

  function RelabelAll(f: seq<Node>, lookup: map<int, int>): (r: seq<Node>)
    requires forall i :: 0 <= i < |f| ==> KeysIn(f[i], lookup)
    ensures |r| == |f|
    decreases f, 0
  {
    if f == [] then [] else [Relabel(f[0], lookup)] + RelabelAll(f[1..], lookup)
  }

  /** `after` is `before` with every key `k` replaced by `lookup[k]`: same
      id, same number of children, same number of keys. */
  predicate Rekeyed(before: Node, after: Node, lookup: map<int, int>)
  {
    && after.id == before.id
    && |after.kids| == |before.kids|
    && |after.keys| == |before.keys|
    && forall j :: 0 <= j < |before.keys| ==> before.keys[j] in lookup && after.keys[j] == lookup[before.keys[j]]
  }

  /** `map_keys`: a re-keyed copy of the tree (the input, deep-copied first,
      is never changed), or `KeyError` when some key has no index. */
  function MapKeys(t: Node, lookup: map<int, int>): (r: Result<Node>)
    requires IsJunctionTree(t)
    ensures r.Failure? <==> !KeysIn(t, lookup)
    ensures r.Failure? ==> r.error == KeyError
    ensures r.Success? ==> IsJunctionTree(r.value) && |PreOrder(r.value)| == |PreOrder(t)|
    ensures r.Success? ==> forall i :: 0 <= i < |PreOrder(t)| ==> Rekeyed(PreOrder(t)[i], PreOrder(r.value)[i], lookup)
  {
    if KeysIn(t, lookup) then
      RelabelKeepsShape(t, lookup);
      PreOrderRelabel(t, lookup);
      RelabelAllIndex(PreOrder(t), lookup);
      Success(Relabel(t, lookup))
    else
      Failure(KeyError)
  }

  lemma {:induction false} RelabelAllIndex(f: seq<Node>, lookup: map<int, int>)
    requires forall i :: 0 <= i < |f| ==> KeysIn(f[i], lookup)
    ensures forall i :: 0 <= i < |f| ==> RelabelAll(f, lookup)[i] == Relabel(f[i], lookup)
    decreases |f|
  {
    if f != [] {
      RelabelAllIndex(f[1..], lookup);
      forall i | 1 <= i < |f|
        ensures RelabelAll(f, lookup)[i] == Relabel(f[i], lookup)
      {
        assert f[i] == f[1..][i - 1];
      }
    }
  }

  lemma {:induction false} RelabelAllAppend(a: seq<Node>, b: seq<Node>, lookup: map<int, int>)
    requires forall i :: 0 <= i < |a| ==> KeysIn(a[i], lookup)
    requires forall i :: 0 <= i < |b| ==> KeysIn(b[i], lookup)
    ensures forall i :: 0 <= i < |a + b| ==> KeysIn((a + b)[i], lookup)
    ensures RelabelAll(a + b, lookup) == RelabelAll(a, lookup) + RelabelAll(b, lookup)
    decreases |a|
  {
    assert forall i :: 0 <= i < |a + b| ==> KeysIn((a + b)[i], lookup) by {
      forall i | 0 <= i < |a + b| ensures KeysIn((a + b)[i], lookup) {
        if i >= |a| {
          assert (a + b)[i] == b[i - |a|];
        }
      }
    }
    if a == [] {
      assert a + b == b;
    } else {
      assert (a + b)[1..] == a[1..] + b;
      RelabelAllAppend(a[1..], b, lookup);
    }
  }

  /** Every subtree met in pre-order has all its keys covered too. */
  lemma {:induction false} KeysInPreOrder(t: Node, lookup: map<int, int>)
    requires KeysIn(t, lookup)
    ensures forall i :: 0 <= i < |PreOrder(t)| ==> KeysIn(PreOrder(t)[i], lookup)
    decreases t, 1
  {
    KeysInPreOrderOf(t.kids, lookup);
    assert PreOrder(t) == [t] + PreOrderOf(t.kids);
  }

  lemma {:induction false} KeysInPreOrderOf(f: seq<Node>, lookup: map<int, int>)
    requires forall i :: 0 <= i < |f| ==> KeysIn(f[i], lookup)
    ensures forall i :: 0 <= i < |PreOrderOf(f)| ==> KeysIn(PreOrderOf(f)[i], lookup)
    decreases f, 0
  {
    if f != [] {
      KeysInPreOrder(f[0], lookup);
      KeysInPreOrderOf(f[1..], lookup);
      var a := PreOrder(f[0]);
      var b := PreOrderOf(f[1..]);
      forall i | 0 <= i < |a + b| ensures KeysIn((a + b)[i], lookup) {
        if i >= |a| {
          assert (a + b)[i] == b[i - |a|];
        }
      }
    }
  }

  /** Re-keying commutes with pre-order: node for node, the same ids and the
      same child counts, with every key mapped. */
  lemma {:induction false} PreOrderRelabel(t: Node, lookup: map<int, int>)
    requires KeysIn(t, lookup)
    ensures forall i :: 0 <= i < |PreOrder(t)| ==> KeysIn(PreOrder(t)[i], lookup)
    ensures PreOrder(Relabel(t, lookup)) == RelabelAll(PreOrder(t), lookup)
    decreases t, 1
  {
    KeysInPreOrder(t, lookup);
    KeysInPreOrderOf(t.kids, lookup);
    PreOrderOfRelabel(t.kids, lookup);
    RelabelAllAppend([t], PreOrderOf(t.kids), lookup);
    assert RelabelAll([t], lookup) == [Relabel(t, lookup)] by {
      assert [t][1..] == [];
    }
  }

  lemma {:induction false} PreOrderOfRelabel(f: seq<Node>, lookup: map<int, int>)
    requires forall i :: 0 <= i < |f| ==> KeysIn(f[i], lookup)
    ensures forall i :: 0 <= i < |PreOrderOf(f)| ==> KeysIn(PreOrderOf(f)[i], lookup)
    ensures PreOrderOf(RelabelAll(f, lookup)) == RelabelAll(PreOrderOf(f), lookup)
    decreases f, 0
  {
    KeysInPreOrderOf(f, lookup);
    if f != [] {
      PreOrderRelabel(f[0], lookup);
      PreOrderOfRelabel(f[1..], lookup);
      KeysInPreOrder(f[0], lookup);
      KeysInPreOrderOf(f[1..], lookup);
      RelabelAllAppend(PreOrder(f[0]), PreOrderOf(f[1..]), lookup);
    }
  }

  /** Re-keying keeps the junction-tree shape. */
  lemma {:induction false} RelabelKeepsShape(t: Node, lookup: map<int, int>)
    requires KeysIn(t, lookup) && IsJunctionTree(t)
    ensures IsJunctionTree(Relabel(t, lookup))
    decreases t
  {
    RelabelAllIndex(t.kids, lookup);
    forall i | 0 <= i < |t.kids|
      ensures |Relabel(t, lookup).kids[i].kids| == 1
      ensures IsJunctionTree(Relabel(t, lookup).kids[i].kids[0])
    {
      var sep := t.kids[i];
      RelabelAllIndex(sep.kids, lookup);
      RelabelKeepsShape(sep.kids[0], lookup);
    }
  }

  /** `back` undoes `lookup` on every key `lookup` knows. */
  predicate Undoes(back: map<int, int>, lookup: map<int, int>)
  {
    forall k :: k in lookup ==> lookup[k] in back && back[lookup[k]] == k
  }

  /** Re-keying with an inverse table restores the original tree. */
  lemma {:induction false} RelabelRoundTrip(t: Node, lookup: map<int, int>, back: map<int, int>)
    requires KeysIn(t, lookup) && Undoes(back, lookup)
    ensures KeysIn(Relabel(t, lookup), back)
    ensures Relabel(Relabel(t, lookup), back) == t
    decreases t, 1
  {
    RelabelAllRoundTrip(t.kids, lookup, back);
    var mapped := MapSeq(t.keys, lookup);
    forall j | 0 <= j < |mapped|
      ensures mapped[j] in back && back[mapped[j]] == t.keys[j]
    {
      var k := t.keys[j];
      assert k in lookup;
      assert Undoes(back, lookup);
      assert lookup[k] in back && back[lookup[k]] == k;
      assert mapped[j] == lookup[k];
    }
    assert MapSeq(mapped, back) == t.keys;
  }

  lemma {:induction false} RelabelAllRoundTrip(f: seq<Node>, lookup: map<int, int>, back: map<int, int>)
    requires forall i :: 0 <= i < |f| ==> KeysIn(f[i], lookup)
    requires Undoes(back, lookup)
    ensures forall i :: 0 <= i < |f| ==> KeysIn(RelabelAll(f, lookup)[i], back)
    ensures RelabelAll(RelabelAll(f, lookup), back) == f
    decreases f, 0
  {
    RelabelAllIndex(f, lookup);
    if f != [] {
      RelabelRoundTrip(f[0], lookup, back);
      RelabelAllRoundTrip(f[1..], lookup, back);
      var r := RelabelAll(f, lookup);
      assert r[1..] == RelabelAll(f[1..], lookup);
      assert f == [f[0]] + f[1..];
    }
  }

  /** The sorted label list read as a table from index back to label. */
  function IndexToLabel(sorted: seq<int>): (back: map<int, int>)
    ensures forall i :: i in back <==> 0 <= i < |sorted|
    ensures forall i :: 0 <= i < |sorted| ==> back[i] == sorted[i]
  {
    map i | 0 <= i < |sorted| :: sorted[i]
  }

  /** Re-keying with `labels` and back with `sorted_labels` is the identity. */
  lemma LabelsRoundTrip(t: Node, keySizes: map<int, nat>)
    requires KeysIn(t, Labels(keySizes))
    ensures KeysIn(Relabel(t, Labels(keySizes)), IndexToLabel(SortedLabels(keySizes.Keys)))
    ensures Relabel(Relabel(t, Labels(keySizes)), IndexToLabel(SortedLabels(keySizes.Keys))) == t
  {
    LabelsAreRanks(keySizes, Labels(keySizes), SortedLabels(keySizes.Keys));
    RelabelRoundTrip(t, Labels(keySizes), IndexToLabel(SortedLabels(keySizes.Keys)));
  }

  // ---------------------------------------------------------------------------
  // The constructor's index tables

  /** A node met by the constructor, with the index of its tree. */
  datatype Visit = Visit(node: Node, tree: nat)

  function TreeVisits(t: Node, ti: nat): (r: seq<Visit>)
    ensures |r| == |PreOrder(t)|
    ensures forall i :: 0 <= i < |r| ==> r[i] == Visit(PreOrder(t)[i], ti)
  {
    seq(|PreOrder(t)|, i requires 0 <= i < |PreOrder(t)| => Visit(PreOrder(t)[i], ti))
  }

  /** Every node of every tree, tree after tree, each in depth-first
      pre-order: the order in which the constructor records them. */
  function Visits(trees: seq<Node>): (r: seq<Visit>)
    ensures forall i :: 0 <= i < |r| ==> r[i].tree < |trees|
  {
    if trees == [] then []
    else Visits(trees[..|trees| - 1]) + TreeVisits(trees[|trees| - 1], |trees| - 1)
  }

  function Ids(vs: seq<Visit>): (r: seq<nat>)
    ensures |r| == |vs|
    ensures forall i :: 0 <= i < |vs| ==> r[i] == vs[i].node.id
  {
    seq(|vs|, i requires 0 <= i < |vs| => vs[i].node.id)
  }

  function Count(xs: seq<int>, x: int): nat
  {
    if xs == [] then 0 else (if xs[0] == x then 1 else 0) + Count(xs[1..], x)
  }

  function Repeat(id: nat, n: nat): (r: seq<nat>)
    ensures |r| == n && forall i :: 0 <= i < n ==> r[i] == id
  {
    seq(n, _ => id)
  }

  function Get(m: map<int, seq<nat>>, k: int): seq<nat>
  {
    if k in m then m[k] else []
  }

  /** `for key in keys: keys_to_cliques.setdefault(key, []);
      keys_to_cliques[key].append(id)`. */
  function AddKeys(m: map<int, seq<nat>>, keys: seq<int>, id: nat): map<int, seq<nat>>
    decreases |keys|
  {
    if keys == [] then m else AddKeys(m[keys[0] := Get(m, keys[0]) + [id]], keys[1..], id)
  }

  /** One pass of the constructor's loop body for one visited node. */
  function Record(tb: Tables, v: Visit): Tables
    requires v.tree < |tb.treeCliques|
  {
    var id := v.node.id;
    tb.(cliqueKeys := tb.cliqueKeys[id := v.node.keys],
        cliqueOrder := if id in tb.cliqueKeys then tb.cliqueOrder else tb.cliqueOrder + [id],
        cliquesToTrees := tb.cliquesToTrees[id := v.tree],
        treeCliques := tb.treeCliques[v.tree := tb.treeCliques[v.tree] + [id]],
        keysToCliques := AddKeys(tb.keysToCliques, v.node.keys, id))
  }

  /** The tables after recording `vs` in order, starting from empty ones
      (`tree_cliques` with one separate list per tree). */
  function RecordAll(vs: seq<Visit>, n: nat): (tb: Tables)
    requires forall i :: 0 <= i < |vs| ==> vs[i].tree < n
    ensures |tb.treeCliques| == n
  {
    if vs == [] then Tables(map[], [], map[], seq(n, _ => []), map[])
    else Record(RecordAll(vs[..|vs| - 1], n), vs[|vs| - 1])
  }

  /** The constructor, with each tree traversed directly: labels and sorted
      labels from the key sizes, every tree re-keyed (`KeyError` when some
      key has no size), and the tables recorded over all trees. */
  function Build(keySizes: map<int, nat>, trees: seq<Node>): (r: Result<JunctionTree>)
    requires forall i :: 0 <= i < |trees| ==> IsJunctionTree(trees[i])
    ensures r.Failure? <==> exists i :: 0 <= i < |trees| && !KeysIn(trees[i], Labels(keySizes))
    ensures r.Failure? ==> r.error == KeyError
    ensures r.Success? ==> (
      && |r.value.struct| == |trees|
      && forall i :: 0 <= i < |trees| ==> MapKeys(trees[i], Labels(keySizes)) == Success(r.value.struct[i]))
  {
    var labels := Labels(keySizes);
    if exists i :: 0 <= i < |trees| && !KeysIn(trees[i], labels) then
      Failure(KeyError)
    else
      var struct := seq(|trees|, i requires 0 <= i < |trees| => Relabel(trees[i], labels));
      Success(JunctionTree(keySizes, labels, SortedLabels(keySizes.Keys), struct,
                           RecordAll(Visits(struct), |trees|)))
  }

  // ---------------------------------------------------------------------------
  // What the tables hold

  /** The ids the fold appends for key `k`: each visit contributes its id
      once per occurrence of `k` among its keys. */
  function KeyIds(vs: seq<Visit>, k: int): seq<nat>
  {
    if vs == [] then []
    else KeyIds(vs[..|vs| - 1], k) + Repeat(vs[|vs| - 1].node.id, Count(vs[|vs| - 1].node.keys, k))
  }

  /** The ids, in visit order, of the visited nodes whose keys contain `k`. */
  function ContainingIds(vs: seq<Visit>, k: int): seq<nat>
  {
    if vs == [] then []
    else ContainingIds(vs[..|vs| - 1], k) + (if k in vs[|vs| - 1].node.keys then [vs[|vs| - 1].node.id] else [])
  }

  /** The ids, in visit order, of the visited nodes of tree `ti`. */
  function TreeIds(vs: seq<Visit>, ti: nat): seq<nat>
  {
    if vs == [] then []
    else TreeIds(vs[..|vs| - 1], ti) + (if vs[|vs| - 1].tree == ti then [vs[|vs| - 1].node.id] else [])
  }

  /** No later visit carries the id of visit `i`. */
  predicate LastVisit(vs: seq<Visit>, i: nat)
    requires i < |vs|
  {
    forall j :: i < j < |vs| ==> vs[j].node.id != vs[i].node.id
  }

  lemma {:induction false} AddKeysSpec(m: map<int, seq<nat>>, keys: seq<int>, id: nat)
    ensures forall k :: Get(AddKeys(m, keys, id), k) == Get(m, k) + Repeat(id, Count(keys, k))
    ensures forall k :: k in AddKeys(m, keys, id) <==> k in m || k in keys
    ensures (forall k :: k in m ==> m[k] != []) ==>
      forall k :: k in AddKeys(m, keys, id) ==> AddKeys(m, keys, id)[k] != []
    decreases |keys|
  {
    if keys != [] {
      var m' := m[keys[0] := Get(m, keys[0]) + [id]];
      AddKeysSpec(m', keys[1..], id);
      forall k ensures Get(AddKeys(m, keys, id), k) == Get(m, k) + Repeat(id, Count(keys, k)) {
        if k == keys[0] {
          assert Repeat(id, Count(keys, k)) == [id] + Repeat(id, Count(keys[1..], k));
        } else {
          assert Repeat(id, Count(keys, k)) == Repeat(id, Count(keys[1..], k));
        }
      }
      assert forall k :: k in keys <==> k == keys[0] || k in keys[1..];
    }
  }

  /** The clique tables hold exactly the visited ids; the order lists each
      once, in first-visit order. */
  lemma {:induction false} RecordAllIds(vs: seq<Visit>, n: nat)
    requires forall i :: 0 <= i < |vs| ==> vs[i].tree < n
    ensures forall id :: id in RecordAll(vs, n).cliqueKeys <==> id in Ids(vs)
    ensures forall id :: id in RecordAll(vs, n).cliquesToTrees <==> id in Ids(vs)
    ensures forall id :: id in RecordAll(vs, n).cliqueOrder <==> id in Ids(vs)
    ensures NoDup(RecordAll(vs, n).cliqueOrder)
    ensures NoDup(Ids(vs)) ==> RecordAll(vs, n).cliqueOrder == Ids(vs)
  {
    if vs != [] {
      var init := vs[..|vs| - 1];
      var id := vs[|vs| - 1].node.id;
      RecordAllIds(init, n);
      assert Ids(vs) == Ids(init) + [id];
      if NoDup(Ids(vs)) {
        assert NoDup(Ids(init)) by {
          assert forall i :: 0 <= i < |init| ==> Ids(init)[i] == Ids(vs)[i];
        }
        assert id !in Ids(init) by {
          assert forall i :: 0 <= i < |init| ==> Ids(init)[i] == Ids(vs)[i] != Ids(vs)[|vs| - 1];
        }
      }
    }
  }

  /** A later visit of an id overwrites its keys and tree: each table holds
      what the id's last visit recorded. */
  lemma {:induction false} RecordAllLast(vs: seq<Visit>, n: nat)
    requires forall i :: 0 <= i < |vs| ==> vs[i].tree < n
    ensures forall i :: 0 <= i < |vs| && LastVisit(vs, i) ==>
      && vs[i].node.id in RecordAll(vs, n).cliqueKeys
      && RecordAll(vs, n).cliqueKeys[vs[i].node.id] == vs[i].node.keys
      && vs[i].node.id in RecordAll(vs, n).cliquesToTrees
      && RecordAll(vs, n).cliquesToTrees[vs[i].node.id] == vs[i].tree
  {
    if vs != [] {
      var init := vs[..|vs| - 1];
      RecordAllLast(init, n);
      forall i | 0 <= i < |vs| && LastVisit(vs, i)
        ensures vs[i].node.id in RecordAll(vs, n).cliqueKeys
        ensures RecordAll(vs, n).cliqueKeys[vs[i].node.id] == vs[i].node.keys
        ensures vs[i].node.id in RecordAll(vs, n).cliquesToTrees
        ensures RecordAll(vs, n).cliquesToTrees[vs[i].node.id] == vs[i].tree
      {
        if i < |init| {
          assert vs[i] == init[i];
          assert LastVisit(init, i);
        }
      }
    }
  }

  /** Tree `ti`'s entry lists the ids visited in that tree. */
  lemma {:induction false} RecordAllTrees(vs: seq<Visit>, n: nat)
    requires forall i :: 0 <= i < |vs| ==> vs[i].tree < n
    ensures forall ti :: 0 <= ti < n ==> RecordAll(vs, n).treeCliques[ti] == TreeIds(vs, ti)
  {
    if vs != [] {
      RecordAllTrees(vs[..|vs| - 1], n);
    }
  }

  /** Key `k`'s entry lists an id once per occurrence of `k` in a visited
      node, and no key maps to an empty list. */
  lemma {:induction false} RecordAllKeys(vs: seq<Visit>, n: nat)
    requires forall i :: 0 <= i < |vs| ==> vs[i].tree < n
    ensures forall k :: Get(RecordAll(vs, n).keysToCliques, k) == KeyIds(vs, k)
    ensures forall k :: k in RecordAll(vs, n).keysToCliques ==> RecordAll(vs, n).keysToCliques[k] != []
  {
    if vs != [] {
      var init := vs[..|vs| - 1];
      RecordAllKeys(init, n);
      AddKeysSpec(RecordAll(init, n).keysToCliques, vs[|vs| - 1].node.keys, vs[|vs| - 1].node.id);
    }
  }

  lemma {:induction false} CountNoDup(xs: seq<int>, x: int)
    requires NoDup(xs)
    ensures Count(xs, x) == if x in xs then 1 else 0
    decreases |xs|
  {
    if xs != [] {
      assert NoDup(xs[1..]) by {
        assert forall i :: 0 <= i < |xs| - 1 ==> xs[1..][i] == xs[i + 1];
      }
      CountNoDup(xs[1..], x);
      assert x in xs <==> x == xs[0] || x in xs[1..];
      if x == xs[0] {
        assert x !in xs[1..] by {
          assert forall i :: 0 <= i < |xs| - 1 ==> xs[1..][i] == xs[i + 1] != xs[0];
        }
      }
    }
  }

  /** Without repeated keys inside a node, each node adds its id at most
      once: the fold lists exactly the containing nodes. */
  lemma {:induction false} KeyIdsAreContainingIds(vs: seq<Visit>, k: int)
    requires forall i :: 0 <= i < |vs| ==> NoDup(vs[i].node.keys)
    ensures KeyIds(vs, k) == ContainingIds(vs, k)
  {
    if vs != [] {
      KeyIdsAreContainingIds(vs[..|vs| - 1], k);
      CountNoDup(vs[|vs| - 1].node.keys, k);
    }
  }

  lemma {:induction false} ContainingIdsMembers(vs: seq<Visit>, k: int)
    ensures forall id :: id in ContainingIds(vs, k) <==>
      exists i :: 0 <= i < |vs| && vs[i].node.id == id && k in vs[i].node.keys
    ensures NoDup(Ids(vs)) ==> NoDup(ContainingIds(vs, k))
  {
    if vs != [] {
      var init := vs[..|vs| - 1];
      ContainingIdsMembers(init, k);
      assert forall i :: 0 <= i < |init| ==> init[i] == vs[i];
      if NoDup(Ids(vs)) {
        assert NoDup(Ids(init)) by {
          assert forall i :: 0 <= i < |init| ==> Ids(init)[i] == Ids(vs)[i];
        }
        var last := vs[|vs| - 1].node.id;
        assert last !in ContainingIds(init, k) by {
          assert forall i :: 0 <= i < |init| ==> Ids(vs)[i] != Ids(vs)[|vs| - 1];
        }
      }
    }
  }

  lemma {:induction false} TreeIdsOfVisits(trees: seq<Node>, ti: nat)
    requires ti < |trees|
    ensures TreeIds(Visits(trees), ti) == Ids(TreeVisits(trees[ti], ti))
    decreases |trees|
  {
    var init := trees[..|trees| - 1];
    var last := |trees| - 1;
    TreeIdsAppend(Visits(init), TreeVisits(trees[last], last), ti);
    if ti < last {
      TreeIdsOfVisits(init, ti);
      TreeIdsOther(TreeVisits(trees[last], last), ti);
      assert init[ti] == trees[ti];
    } else {
      TreeIdsNone(Visits(init), ti);
      TreeIdsSame(TreeVisits(trees[last], last), ti);
    }
  }

  lemma {:induction false} TreeIdsAppend(a: seq<Visit>, b: seq<Visit>, ti: nat)
    ensures TreeIds(a + b, ti) == TreeIds(a, ti) + TreeIds(b, ti)
    decreases |b|
  {
    if b == [] {
      assert a + b == a;
    } else {
      assert (a + b)[..|a + b| - 1] == a + b[..|b| - 1];
      TreeIdsAppend(a, b[..|b| - 1], ti);
    }
  }

  lemma {:induction false} TreeIdsOther(vs: seq<Visit>, ti: nat)
    requires forall i :: 0 <= i < |vs| ==> vs[i].tree != ti
    ensures TreeIds(vs, ti) == []
  {
    if vs != [] {
      TreeIdsOther(vs[..|vs| - 1], ti);
    }
  }

  lemma {:induction false} TreeIdsNone(vs: seq<Visit>, ti: nat)
    requires forall i :: 0 <= i < |vs| ==> vs[i].tree < ti
    ensures TreeIds(vs, ti) == []
  {
    TreeIdsOther(vs, ti);
  }

  lemma {:induction false} TreeIdsSame(vs: seq<Visit>, ti: nat)
    requires forall i :: 0 <= i < |vs| ==> vs[i].tree == ti
    ensures TreeIds(vs, ti) == Ids(vs)
  {
    if vs != [] {
      TreeIdsSame(vs[..|vs| - 1], ti);
    }
  }

  // ---------------------------------------------------------------------------
  // The tables of a built junction tree

  /** The table invariants over key indices `0 .. nLabels - 1`: the clique
      order lists every recorded id once; each node's keys are distinct
      indices; and `keysToCliques` is exactly the inverse of `cliqueKeys`,
      with no empty and no repeated entries. */
  predicate IndexedTables(t: Tables, nLabels: nat)
  {
    && NoDup(t.cliqueOrder)
    && (forall id :: id in t.cliqueOrder ==> id in t.cliqueKeys)
    && (forall id :: id in t.cliqueKeys ==> id in t.cliqueOrder)
    && (forall id :: id in t.cliqueKeys ==> NoDup(t.cliqueKeys[id]))
    && (forall id, j :: id in t.cliqueKeys && 0 <= j < |t.cliqueKeys[id]| ==> 0 <= t.cliqueKeys[id][j] < nLabels)
    && (forall k :: k in t.keysToCliques ==> t.keysToCliques[k] != [] && NoDup(t.keysToCliques[k]))
    && (forall k, id :: k in t.keysToCliques && id in t.keysToCliques[k] ==> id in t.cliqueKeys && k in t.cliqueKeys[id])
    && (forall id, k :: id in t.cliqueKeys && k in t.cliqueKeys[id] ==> k in t.keysToCliques && id in t.keysToCliques[k])
  }

  /** What the constructor establishes and the later operations rely on:
      `labels` and `sorted_labels` are mutually inverse over the key sizes,
      and the tables are indexed over the label indices. */
  predicate Indexed(jt: JunctionTree)
  {
    && jt.labels.Keys == jt.keySizes.Keys
    && |jt.sortedLabels| == |jt.keySizes|
    && (forall i :: 0 <= i < |jt.sortedLabels| ==> jt.sortedLabels[i] in jt.labels && jt.labels[jt.sortedLabels[i]] == i)
    && (forall k :: k in jt.labels ==> jt.labels[k] < |jt.sortedLabels| && jt.sortedLabels[jt.labels[k]] == k)
    && IndexedTables(jt.tables, |jt.sortedLabels|)
  }

  /** With distinct ids, each recorded id's keys are those of its visit. */
  lemma RecordedKeys(vs: seq<Visit>, n: nat, id: nat) returns (i: nat)
    requires forall i :: 0 <= i < |vs| ==> vs[i].tree < n
    requires NoDup(Ids(vs)) && id in RecordAll(vs, n).cliqueKeys
    ensures i < |vs| && vs[i].node.id == id && RecordAll(vs, n).cliqueKeys[id] == vs[i].node.keys
  {
    RecordAllIds(vs, n);
    RecordAllLast(vs, n);
    assert id in Ids(vs);
    i :| 0 <= i < |vs| && Ids(vs)[i] == id;
    assert LastVisit(vs, i);
  }

  /** Without repeated keys in a node, key `k`'s entry lists the containing
      nodes once each. */
  lemma RecordedKeyLists(vs: seq<Visit>, n: nat, k: int)
    requires forall i :: 0 <= i < |vs| ==> vs[i].tree < n
    requires forall i :: 0 <= i < |vs| ==> NoDup(vs[i].node.keys)
    ensures Get(RecordAll(vs, n).keysToCliques, k) == ContainingIds(vs, k)
    ensures NoDup(Ids(vs)) ==> NoDup(ContainingIds(vs, k))
    ensures forall id :: id in ContainingIds(vs, k) <==>
      exists i :: 0 <= i < |vs| && vs[i].node.id == id && k in vs[i].node.keys
  {
    RecordAllKeys(vs, n);
    KeyIdsAreContainingIds(vs, k);
    ContainingIdsMembers(vs, k);
  }

  /** Recording visits with distinct ids and duplicate-free keys below
      `nLabels` yields indexed tables. */
  lemma RecordAllIndexed(vs: seq<Visit>, n: nat, nLabels: nat)
    requires forall i :: 0 <= i < |vs| ==> vs[i].tree < n
    requires NoDup(Ids(vs))
    requires forall i :: 0 <= i < |vs| ==> NoDup(vs[i].node.keys)
    requires forall i, j :: 0 <= i < |vs| && 0 <= j < |vs[i].node.keys| ==> 0 <= vs[i].node.keys[j] < nLabels
    ensures IndexedTables(RecordAll(vs, n), nLabels)
  {
    var t := RecordAll(vs, n);
    RecordedOrder(vs, n);
    RecordedKeysInRange(vs, n, nLabels);
    RecordedListsDistinct(vs, n);
    RecordedListsHold(vs, n);
    RecordedKeysListed(vs, n);
    TablesIndexed(t, nLabels);
  }

  /** The conjuncts of `IndexedTables`, gathered. */
  lemma TablesIndexed(t: Tables, nLabels: nat)
    requires NoDup(t.cliqueOrder)
    requires (forall id :: id in t.cliqueOrder ==> id in t.cliqueKeys)
    requires (forall id :: id in t.cliqueKeys ==> id in t.cliqueOrder)
    requires forall id :: id in t.cliqueKeys ==>
      NoDup(t.cliqueKeys[id]) && forall j :: 0 <= j < |t.cliqueKeys[id]| ==> 0 <= t.cliqueKeys[id][j] < nLabels
    requires forall k :: k in t.keysToCliques ==> t.keysToCliques[k] != [] && NoDup(t.keysToCliques[k])
    requires forall k, id :: k in t.keysToCliques && id in t.keysToCliques[k] ==> id in t.cliqueKeys && k in t.cliqueKeys[id]
    requires forall id, k :: id in t.cliqueKeys && k in t.cliqueKeys[id] ==> k in t.keysToCliques && id in t.keysToCliques[k]
    ensures IndexedTables(t, nLabels)
  {
  }

  lemma RecordedOrder(vs: seq<Visit>, n: nat)
    requires forall i :: 0 <= i < |vs| ==> vs[i].tree < n
    ensures var t := RecordAll(vs, n);
      && NoDup(t.cliqueOrder)
      && (forall id :: id in t.cliqueOrder ==> id in t.cliqueKeys)
      && (forall id :: id in t.cliqueKeys ==> id in t.cliqueOrder)
  {
    RecordAllIds(vs, n);
  }

  lemma RecordedKeysInRange(vs: seq<Visit>, n: nat, nLabels: nat)
    requires forall i :: 0 <= i < |vs| ==> vs[i].tree < n
    requires NoDup(Ids(vs))
    requires forall i :: 0 <= i < |vs| ==> NoDup(vs[i].node.keys)
    requires forall i, j :: 0 <= i < |vs| && 0 <= j < |vs[i].node.keys| ==> 0 <= vs[i].node.keys[j] < nLabels
    ensures var t := RecordAll(vs, n);
      forall id :: id in t.cliqueKeys ==>
        NoDup(t.cliqueKeys[id]) && forall j :: 0 <= j < |t.cliqueKeys[id]| ==> 0 <= t.cliqueKeys[id][j] < nLabels
  {
    var t := RecordAll(vs, n);
    forall id | id in t.cliqueKeys
      ensures NoDup(t.cliqueKeys[id])
      ensures forall j :: 0 <= j < |t.cliqueKeys[id]| ==> 0 <= t.cliqueKeys[id][j] < nLabels
    {
      var i := RecordedKeys(vs, n, id);
    }
  }

  lemma RecordedListsDistinct(vs: seq<Visit>, n: nat)
    requires forall i :: 0 <= i < |vs| ==> vs[i].tree < n
    requires NoDup(Ids(vs))
    requires forall i :: 0 <= i < |vs| ==> NoDup(vs[i].node.keys)
    ensures var t := RecordAll(vs, n);
      forall k :: k in t.keysToCliques ==> t.keysToCliques[k] != [] && NoDup(t.keysToCliques[k])
  {
    var t := RecordAll(vs, n);
    forall k | k in t.keysToCliques
      ensures t.keysToCliques[k] != [] && NoDup(t.keysToCliques[k])
    {
      RecordAllKeys(vs, n);
      RecordedKeyLists(vs, n, k);
    }
  }

  lemma RecordedListsHold(vs: seq<Visit>, n: nat)
    requires forall i :: 0 <= i < |vs| ==> vs[i].tree < n
    requires NoDup(Ids(vs))
    requires forall i :: 0 <= i < |vs| ==> NoDup(vs[i].node.keys)
    ensures var t := RecordAll(vs, n);
      forall k, id :: k in t.keysToCliques && id in t.keysToCliques[k] ==> id in t.cliqueKeys && k in t.cliqueKeys[id]
  {
    var t := RecordAll(vs, n);
    RecordAllIds(vs, n);
    forall k, id | k in t.keysToCliques && id in t.keysToCliques[k]
      ensures id in t.cliqueKeys && k in t.cliqueKeys[id]
    {
      RecordedKeyLists(vs, n, k);
      var i :| 0 <= i < |vs| && vs[i].node.id == id && k in vs[i].node.keys;
      RecordAllLast(vs, n);
      assert LastVisit(vs, i);
    }
  }

  lemma RecordedKeysListed(vs: seq<Visit>, n: nat)
    requires forall i :: 0 <= i < |vs| ==> vs[i].tree < n
    requires NoDup(Ids(vs))
    requires forall i :: 0 <= i < |vs| ==> NoDup(vs[i].node.keys)
    ensures var t := RecordAll(vs, n);
      forall id, k :: id in t.cliqueKeys && k in t.cliqueKeys[id] ==> k in t.keysToCliques && id in t.keysToCliques[k]
  {
    var t := RecordAll(vs, n);
    forall id, k | id in t.cliqueKeys && k in t.cliqueKeys[id]
      ensures k in t.keysToCliques && id in t.keysToCliques[k]
    {
      var i := RecordedKeys(vs, n, id);
      RecordedKeyLists(vs, n, k);
      assert id in ContainingIds(vs, k);
      RecordAllKeys(vs, n);
    }
  }

  lemma MapSeqNoDup(keys: seq<int>, lookup: map<int, nat>)
    requires forall j :: 0 <= j < |keys| ==> keys[j] in lookup
    requires NoDup(keys) && Injective(lookup)
    ensures NoDup(MapSeq(keys, lookup))
  {
    var r := MapSeq(keys, lookup);
    forall i, j | 0 <= i < j < |r| ensures r[i] != r[j] {
      assert keys[i] != keys[j];
    }
  }

  /** The visits of re-keyed trees are the visits of the originals, in the
      same order and with the same ids and trees, with every key mapped. */
  lemma {:induction false} VisitsRekeyed(trees: seq<Node>, struct: seq<Node>, lookup: map<int, int>)
    requires |struct| == |trees|
    requires forall i :: 0 <= i < |trees| ==>
      IsJunctionTree(trees[i]) && MapKeys(trees[i], lookup) == Success(struct[i])
    ensures |Visits(struct)| == |Visits(trees)|
    ensures forall i :: 0 <= i < |Visits(trees)| ==>
      Visits(struct)[i].tree == Visits(trees)[i].tree &&
      Rekeyed(Visits(trees)[i].node, Visits(struct)[i].node, lookup)
    decreases |trees|
  {
    if trees != [] {
      var n := |trees| - 1;
      VisitsRekeyed(trees[..n], struct[..n], lookup);
      var a: seq<Visit>, b: seq<Visit> := Visits(trees[..n]), TreeVisits(trees[n], n);
      var a': seq<Visit>, b': seq<Visit> := Visits(struct[..n]), TreeVisits(struct[n], n);
      assert Visits(trees) == a + b;
      assert Visits(struct) == a' + b';
      forall i | 0 <= i < |a + b|
        ensures (a' + b')[i].tree == (a + b)[i].tree
        ensures Rekeyed((a + b)[i].node, (a' + b')[i].node, lookup)
      {
        if i >= |a| {
          assert (a + b)[i] == b[i - |a|];
          assert (a' + b')[i] == b'[i - |a|];
        }
      }
    }
  }

  /** Re-keying leaves the ids of the visits alone. */
  lemma IdsRekeyed(vs: seq<Visit>, vs': seq<Visit>, lookup: map<int, int>)
    requires |vs'| == |vs|
    requires forall i :: 0 <= i < |vs| ==> Rekeyed(vs[i].node, vs'[i].node, lookup)
    ensures Ids(vs') == Ids(vs)
  {
  }

  /** Under an injective re-keying, a node holds `lookup[k]` after exactly
      when it held `k` before. */
  lemma HoldsRekeyed(before: Node, after: Node, lookup: map<int, nat>, k: int)
    requires Rekeyed(before, after, lookup) && Injective(lookup) && k in lookup
    ensures lookup[k] in after.keys <==> k in before.keys
  {
    if k in before.keys {
      var j :| 0 <= j < |before.keys| && before.keys[j] == k;
      assert after.keys[j] == lookup[k];
    }
    if lookup[k] in after.keys {
      var j :| 0 <= j < |after.keys| && after.keys[j] == lookup[k];
      var k' := before.keys[j];
      assert k' in lookup && lookup[k'] == lookup[k];
      assert k' == k;
    }
  }

  /** Under an injective re-keying, the nodes containing `lookup[k]` after
      are the nodes containing `k` before. */
  lemma {:induction false} ContainingIdsRekeyed(vs: seq<Visit>, vs': seq<Visit>, lookup: map<int, nat>, k: int)
    requires |vs'| == |vs| && Injective(lookup) && k in lookup
    requires forall i :: 0 <= i < |vs| ==> Rekeyed(vs[i].node, vs'[i].node, lookup)
    ensures ContainingIds(vs', lookup[k]) == ContainingIds(vs, k)
  {
    if vs != [] {
      var n := |vs| - 1;
      ContainingIdsRekeyed(vs[..n], vs'[..n], lookup, k);
      HoldsRekeyed(vs[n].node, vs'[n].node, lookup, k);
    }
  }

  /** The visits of the built trees are those of the input trees re-keyed
      with the labels' indices, keys duplicate-free and below the label
      count when the input's are. */
  lemma BuildVisits(keySizes: map<int, nat>, trees: seq<Node>, jt: JunctionTree)
    requires forall i :: 0 <= i < |trees| ==> IsJunctionTree(trees[i])
    requires Build(keySizes, trees) == Success(jt)
    ensures |Visits(jt.struct)| == |Visits(trees)|
    ensures forall i :: 0 <= i < |Visits(trees)| ==>
      Visits(jt.struct)[i].tree == Visits(trees)[i].tree &&
      Rekeyed(Visits(trees)[i].node, Visits(jt.struct)[i].node, Labels(keySizes))
    ensures Ids(Visits(jt.struct)) == Ids(Visits(trees))
    ensures forall i, j :: 0 <= i < |Visits(trees)| && 0 <= j < |Visits(jt.struct)[i].node.keys| ==>
      0 <= Visits(jt.struct)[i].node.keys[j] < |keySizes|
    ensures (forall i :: 0 <= i < |Visits(trees)| ==> NoDup(Visits(trees)[i].node.keys)) ==>
      forall i :: 0 <= i < |Visits(trees)| ==> NoDup(Visits(jt.struct)[i].node.keys)
  {
    var labels := Labels(keySizes);
    LabelsAreRanks(keySizes, labels, SortedLabels(keySizes.Keys));
    VisitsRekeyed(trees, jt.struct, labels);
    RekeyedVisitFacts(Visits(trees), Visits(jt.struct), labels, |keySizes|);
  }

  /** Re-keying visits with an injective table into `0 .. count - 1` keeps
      their ids, bounds their keys and keeps keys duplicate-free. */
  lemma RekeyedVisitFacts(vs: seq<Visit>, vs': seq<Visit>, labels: map<int, nat>, count: nat)
    requires |vs'| == |vs|
    requires forall i :: 0 <= i < |vs| ==> Rekeyed(vs[i].node, vs'[i].node, labels)
    requires Injective(labels) && forall k :: k in labels ==> labels[k] < count
    ensures Ids(vs') == Ids(vs)
    ensures forall i, j :: 0 <= i < |vs| && 0 <= j < |vs'[i].node.keys| ==> 0 <= vs'[i].node.keys[j] < count
    ensures (forall i :: 0 <= i < |vs| ==> NoDup(vs[i].node.keys)) ==>
      forall i :: 0 <= i < |vs| ==> NoDup(vs'[i].node.keys)
  {
    IdsRekeyed(vs, vs', labels);
    forall i | 0 <= i < |vs'|
      ensures vs'[i].node.keys == MapSeq(vs[i].node.keys, labels)
    {
      assert Rekeyed(vs[i].node, vs'[i].node, labels);
    }
    forall i, j | 0 <= i < |vs| && 0 <= j < |vs'[i].node.keys|
      ensures 0 <= vs'[i].node.keys[j] < count
    {
      assert Rekeyed(vs[i].node, vs'[i].node, labels);
      var k := vs[i].node.keys[j];
      assert k in labels && vs'[i].node.keys[j] == labels[k];
      assert labels[k] < count;
    }
    if forall i :: 0 <= i < |vs| ==> NoDup(vs[i].node.keys) {
      forall i | 0 <= i < |vs'| ensures NoDup(vs'[i].node.keys) {
        MapSeqNoDup(vs[i].node.keys, labels);
      }
    }
  }

  /** When node ids are unique across the trees and no node repeats a key,
      the built junction tree is indexed, and its clique order is the
      depth-first visit order of the trees. */
  lemma BuildIndexes(keySizes: map<int, nat>, trees: seq<Node>)
    requires forall i :: 0 <= i < |trees| ==> IsJunctionTree(trees[i])
    requires Build(keySizes, trees).Success?
    requires NoDup(Ids(Visits(trees)))
    requires forall i :: 0 <= i < |Visits(trees)| ==> NoDup(Visits(trees)[i].node.keys)
    ensures Indexed(Build(keySizes, trees).value)
    ensures Build(keySizes, trees).value.tables.cliqueOrder == Ids(Visits(trees))
  {
    var jt := Build(keySizes, trees).value;
    var vs' := Visits(jt.struct);
    assert jt.keySizes == keySizes && jt.labels == Labels(keySizes) && jt.sortedLabels == SortedLabels(keySizes.Keys);
    assert jt.tables == RecordAll(vs', |trees|);
    BuildVisits(keySizes, trees, jt);
    RecordAllIndexed(vs', |trees|, |keySizes|);
    RecordAllIds(vs', |trees|);
    BuiltLabels(keySizes, jt);
  }

  /** The label tables of a junction tree built over `keySizes` undo each
      other; with indexed tables the tree is indexed. */
  lemma BuiltLabels(keySizes: map<int, nat>, jt: JunctionTree)
    requires jt.keySizes == keySizes && jt.labels == Labels(keySizes) && jt.sortedLabels == SortedLabels(keySizes.Keys)
    requires IndexedTables(jt.tables, |keySizes|)
    ensures Indexed(jt)
  {
    LabelsAreRanks(keySizes, jt.labels, jt.sortedLabels);
    LabelsIndexed(keySizes, jt);
  }

  /** A junction tree whose label tables undo each other over the labels
      of `keySizes` and whose tables are indexed over `|keySizes|` labels is
      indexed. */
  lemma LabelsIndexed(keySizes: map<int, nat>, jt: JunctionTree)
    requires jt.keySizes == keySizes && jt.labels.Keys == keySizes.Keys && |jt.sortedLabels| == |keySizes|
    requires forall k :: k in keySizes ==> jt.labels[k] < |keySizes| && jt.sortedLabels[jt.labels[k]] == k
    requires forall i :: 0 <= i < |keySizes| ==> jt.sortedLabels[i] in jt.labels && jt.labels[jt.sortedLabels[i]] == i
    requires IndexedTables(jt.tables, |keySizes|)
    ensures Indexed(jt)
  {
  }

  /** `clique_keys` maps each id to its node's key list re-keyed, and
      `cliques_to_trees` to its tree, when node ids are unique. */
  lemma BuildCliqueKeys(keySizes: map<int, nat>, trees: seq<Node>)
    requires forall i :: 0 <= i < |trees| ==> IsJunctionTree(trees[i])
    requires Build(keySizes, trees).Success?
    requires NoDup(Ids(Visits(trees)))
    ensures forall i :: 0 <= i < |Visits(trees)| ==>
      var v := Visits(trees)[i];
      var t := Build(keySizes, trees).value.tables;
      && v.node.id in t.cliqueKeys
      && Rekeyed(v.node, Node(v.node.id, t.cliqueKeys[v.node.id], v.node.kids), Labels(keySizes))
      && v.node.id in t.cliquesToTrees && t.cliquesToTrees[v.node.id] == v.tree
  {
    var jt := Build(keySizes, trees).value;
    var vs, vs' := Visits(trees), Visits(jt.struct);
    var t := jt.tables;
    BuildVisits(keySizes, trees, jt);
    RecordAllLast(vs', |trees|);
    forall i | 0 <= i < |vs|
      ensures vs[i].node.id in t.cliqueKeys
      ensures Rekeyed(vs[i].node, Node(vs[i].node.id, t.cliqueKeys[vs[i].node.id], vs[i].node.kids), Labels(keySizes))
      ensures vs[i].node.id in t.cliquesToTrees && t.cliquesToTrees[vs[i].node.id] == vs[i].tree
    {
      assert LastVisit(vs', i) by {
        forall j | i < j < |vs'| ensures vs'[j].node.id != vs'[i].node.id {
          assert Ids(vs)[j] != Ids(vs)[i];
        }
      }
      assert vs'[i].node.id == vs[i].node.id;
      assert t.cliqueKeys[vs[i].node.id] == vs'[i].node.keys;
      assert Rekeyed(vs[i].node, vs'[i].node, Labels(keySizes));
    }
  }

  /** `tree_cliques` lists each tree's ids in depth-first pre-order. */
  lemma BuildTreeCliques(keySizes: map<int, nat>, trees: seq<Node>)
    requires forall i :: 0 <= i < |trees| ==> IsJunctionTree(trees[i])
    requires Build(keySizes, trees).Success?
    ensures forall ti :: 0 <= ti < |trees| ==>
      Build(keySizes, trees).value.tables.treeCliques[ti] == Ids(TreeVisits(trees[ti], ti))
  {
    var jt := Build(keySizes, trees).value;
    var labels := Labels(keySizes);
    assert jt.tables == RecordAll(Visits(jt.struct), |trees|);
    RecordAllTrees(Visits(jt.struct), |trees|);
    forall ti | 0 <= ti < |trees|
      ensures jt.tables.treeCliques[ti] == Ids(TreeVisits(trees[ti], ti))
    {
      TreeIdsOfVisits(jt.struct, ti);
      assert MapKeys(trees[ti], labels) == Success(jt.struct[ti]);
      TreeVisitIdsRekeyed(trees[ti], jt.struct[ti], labels, ti);
    }
  }

  /** A re-keyed tree's visits carry the same ids in the same order. */
  lemma TreeVisitIdsRekeyed(t: Node, t': Node, lookup: map<int, int>, ti: nat)
    requires |PreOrder(t')| == |PreOrder(t)|
    requires forall j :: 0 <= j < |PreOrder(t)| ==> Rekeyed(PreOrder(t)[j], PreOrder(t')[j], lookup)
    ensures Ids(TreeVisits(t', ti)) == Ids(TreeVisits(t, ti))
  {
  }

  /** `keys_to_cliques` lists, under each label's index, exactly the ids of
      the nodes holding that label, in visit order, when no node repeats a
      key. */
  lemma BuildKeysToCliques(keySizes: map<int, nat>, trees: seq<Node>)
    requires forall i :: 0 <= i < |trees| ==> IsJunctionTree(trees[i])
    requires Build(keySizes, trees).Success?
    requires forall i :: 0 <= i < |Visits(trees)| ==> NoDup(Visits(trees)[i].node.keys)
    ensures forall k :: k in keySizes ==>
      Get(Build(keySizes, trees).value.tables.keysToCliques, Labels(keySizes)[k]) == ContainingIds(Visits(trees), k)
  {
    var jt := Build(keySizes, trees).value;
    var labels := Labels(keySizes);
    var vs, vs' := Visits(trees), Visits(jt.struct);
    LabelsAreRanks(keySizes, labels, SortedLabels(keySizes.Keys));
    BuildVisits(keySizes, trees, jt);
    forall k | k in keySizes
      ensures Get(jt.tables.keysToCliques, labels[k]) == ContainingIds(vs, k)
    {
      ContainingIdsRekeyed(vs, vs', labels, k);
      RecordedKeyLists(vs', |trees|, labels[k]);
    }
  }

  // ---------------------------------------------------------------------------
  // The constructor as written

  /** Python list indexing: element `i`, or `IndexError`. */
  function ListItem(xs: seq<Node>, i: nat): (r: Result<Node>)
    ensures r.Success? <==> i < |xs|
    ensures r.Success? ==> r.value == xs[i]
    ensures r.Failure? ==> r.error == IndexError
  {
    if i < |xs| then Success(xs[i]) else Failure(IndexError)
  }

  /** `__init__` as written: the first re-keyed tree is walked as
      `df_traverse([indexed_tree])`, whose first node is the one-element
      wrapper list; reading that node's keys, element 1 of the wrapper,
      raises `IndexError`. Only the empty forest builds. */
  function BuildAsWritten(keySizes: map<int, nat>, trees: seq<Node>): (r: Result<JunctionTree>)
    requires forall i :: 0 <= i < |trees| ==> IsJunctionTree(trees[i])
    ensures r.Success? <==> trees == []
    ensures trees != [] ==> r.Failure? && (r.error == IndexError <==> KeysIn(trees[0], Labels(keySizes)))
  {
    if trees == [] then Build(keySizes, trees)
    else
      match MapKeys(trees[0], Labels(keySizes))
      case Failure(e) => Failure(e)
      case Success(indexed) =>
        Failure(ListItem([indexed], 1).error)
  }

  /** A one-clique tree over a known label: the constructor as written
      fails on it, the corrected one builds it. */
  lemma SingleCliqueFailsAsWritten()
    ensures BuildAsWritten(map[7 := 2], [Node(0, [7], [])]) == Failure(IndexError)
    ensures Build(map[7 := 2], [Node(0, [7], [])]).Success?
  {
    SingleLabel(7, 2);
    assert KeysIn(Node(0, [7], []), Labels(map[7 := 2]));
  }

  /** The entries `tree_cliques = [[]] * len(trees)` builds are one shared
      list, so every append reaches every tree's entry. */
  function SharedAppends(vs: seq<Visit>): (r: seq<nat>)
    ensures r == Ids(vs)
  {
    if vs == [] then []
    else
      var r := SharedAppends(vs[..|vs| - 1]) + [vs[|vs| - 1].node.id];
      assert Ids(vs) == Ids(vs[..|vs| - 1]) + [vs[|vs| - 1].node.id];
      r
  }

  /** `tree_cliques` as written: every tree's entry lists the ids of all trees. */
  function TreeCliquesAsWritten(vs: seq<Visit>, n: nat): (r: seq<seq<nat>>)
    ensures |r| == n
    ensures forall ti :: 0 <= ti < n ==> r[ti] == Ids(vs)
  {
    var shared := SharedAppends(vs);
    seq(n, _ => shared)
  }

  /** Two one-clique trees: as written, tree 0's entry also lists tree 1's
      clique; the corrected tables keep them apart. */
  lemma TreeCliquesAlias()
    ensures TreeCliquesAsWritten(Visits([Node(0, [1], []), Node(1, [2], [])]), 2)[0] == [0, 1]
    ensures RecordAll(Visits([Node(0, [1], []), Node(1, [2], [])]), 2).treeCliques[0] == [0]
  {
    var trees := [Node(0, [1], []), Node(1, [2], [])];
    assert trees[..1] == [Node(0, [1], [])];
    assert [Node(0, [1], [])][..0] == [];
    var vs := Visits(trees);
    assert PreOrder(Node(0, [1], [])) == [Node(0, [1], [])];
    assert PreOrder(Node(1, [2], [])) == [Node(1, [2], [])];
    assert vs == [Visit(Node(0, [1], []), 0), Visit(Node(1, [2], []), 1)];
    RecordAllTrees(vs, 2);
    assert vs[..1] == [Visit(Node(0, [1], []), 0)];
    assert vs[..1][..0] == [];
    assert TreeIds(vs[..1], 0) == [0];
    assert TreeIds(vs, 0) == [0];
  }

  // ---------------------------------------------------------------------------
  // get_key_ix

  /** `get_key_ix`: the position of a label's index among a clique's keys.
      An unknown clique or label raises `KeyError`, which the handler does
      not catch; an index the clique lacks gives None. */
  function GetKeyIx(jt: JunctionTree, cliqueIx: nat, keyLabel: int): (r: Result<Option<nat>>)
    ensures r.Failure? <==> cliqueIx !in jt.tables.cliqueKeys || keyLabel !in jt.labels
    ensures r.Failure? ==> r.error == KeyError
    ensures r.Success? ==> (
      var keys := jt.tables.cliqueKeys[cliqueIx];
      && (r.value.None? <==> jt.labels[keyLabel] !in keys)
      && (r.value.Some? ==> r.value.value < |keys| && keys[r.value.value] == jt.labels[keyLabel]
                            && jt.labels[keyLabel] !in keys[..r.value.value]))
  {
    if cliqueIx !in jt.tables.cliqueKeys then Failure(KeyError)
    else match FindKey(jt.labels, keyLabel)
      case Failure(e) => Failure(e)
      case Success(ix) => Success(IndexOf(jt.tables.cliqueKeys[cliqueIx], ix))
  }

  /** In an indexed junction tree, the position `get_key_ix` reports holds
      the label back through `sorted_labels`, and it is found exactly for
      the cliques `keys_to_cliques` lists for that label. */
  lemma GetKeyIxInverts(jt: JunctionTree, cliqueIx: nat, keyLabel: int)
    requires Indexed(jt) && cliqueIx in jt.tables.cliqueKeys && keyLabel in jt.labels
    ensures GetKeyIx(jt, cliqueIx, keyLabel).Success?
    ensures GetKeyIx(jt, cliqueIx, keyLabel).value.Some? <==>
      jt.labels[keyLabel] in jt.tables.keysToCliques && cliqueIx in jt.tables.keysToCliques[jt.labels[keyLabel]]
    ensures GetKeyIx(jt, cliqueIx, keyLabel).value.Some? ==>
      jt.sortedLabels[jt.tables.cliqueKeys[cliqueIx][GetKeyIx(jt, cliqueIx, keyLabel).value.value]] == keyLabel
  {
  }

  /** Recording one node with one key. */
  lemma RecordSingle(node: Node, k: int)
    requires node.keys == [k]
    ensures RecordAll([Visit(node, 0)], 1) ==
      Tables(map[node.id := [k]], [node.id], map[node.id := 0], [[node.id]], map[k := [node.id]])
  {
    var empty: map<int, seq<nat>> := map[];
    assert [Visit(node, 0)][..0] == [];
    assert [k][1..] == [];
    assert Get(empty, k) + [node.id] == [node.id];
    assert AddKeys(empty, [k], node.id) == AddKeys(map[k := [node.id]], [], node.id);
    assert seq(1, _ => [])[0 := [] + [node.id]] == [[node.id]];
  }

  /** The junction tree of a single node with a single key: the key gets
      index 0, and every table holds just that node. */
  lemma SingleNodeBuild(id: nat, k: int, size: nat)
    ensures Build(map[k := size], [Node(id, [k], [])]) ==
      Success(JunctionTree(map[k := size], map[k := 0], [k], [Node(id, [0], [])],
        Tables(map[id := [0]], [id], map[id := 0], [[id]], map[0 := [id]])))
  {
    SingleLabel(k, size);
    var trees := [Node(id, [k], [])];
    assert KeysIn(trees[0], map[k := 0]);
    var node := Node(id, [0], []);
    assert MapSeq([k], map[k := 0]) == [0];
    assert Relabel(trees[0], map[k := 0]) == node;
    var labels := Labels(map[k := size]);
    assert !exists i :: 0 <= i < |trees| && !KeysIn(trees[i], labels);
    var struct := [node];
    assert seq(|trees|, i requires 0 <= i < |trees| => Relabel(trees[i], labels)) == struct;
    assert struct[..0] == [];
    assert PreOrder(node) == [node];
    assert Visits(struct) == [Visit(node, 0)];
    RecordSingle(node, 0);
    assert SortedLabels(map[k := size].Keys) == [k] by {
      assert map[k := size].Keys == {k};
    }
  }
}
