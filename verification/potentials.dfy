/**
 `JunctionTree.init_potentials` in junction_tree.py, with potentials kept
 abstract: a node's initial potential is an all-ones array over its keys'
 sizes, times the factors placed in it. Each factor goes to the first node,
 in `clique_keys` order, whose keys include all of the factor's keys.
 */
module Potentials {
  import opened Wrappers
  import opened Tree
  import opened KeyLabels
  import opened Junction

  /** An all-ones array of `shape` multiplied by the listed factors, given
      by their positions in the factor list, in the order they were
      multiplied in. */
  datatype Potential = Potential(shape: seq<nat>, factors: seq<nat>)

  /** `[key_sizes[labels[ix]] for ix in clique_keys]`: axis `j` of a node's
      potential has the size of the label whose index is the node's `j`-th
      key. */
  function AxisSizes(jt: JunctionTree, keys: seq<int>): (r: seq<nat>)
    requires Indexed(jt)
    requires forall j :: 0 <= j < |keys| ==> 0 <= keys[j] < |jt.sortedLabels|
    ensures |r| == |keys|
    ensures forall j, l :: 0 <= j < |keys| && l in jt.labels && jt.labels[l] == keys[j] ==> r[j] == jt.keySizes[l]
  {
    seq(|keys|, j requires 0 <= j < |keys| => jt.keySizes[jt.sortedLabels[keys[j]]])
  }

  /** `[tree.find_key(key) for key in factor]`: a factor's key indices, or
      `KeyError` when one of its labels is unknown. */
  function MapFactor(labels: map<int, nat>, factor: seq<int>): (r: Result<seq<int>>)
    ensures r.Failure? <==> exists j :: 0 <= j < |factor| && factor[j] !in labels
    ensures r.Failure? ==> r.error == KeyError
    ensures r.Success? ==> (
      && |r.value| == |factor|
      && forall j :: 0 <= j < |factor| ==> factor[j] in labels && r.value[j] == labels[factor[j]])
  {
    if exists j :: 0 <= j < |factor| && factor[j] !in labels then Failure(KeyError)
    else Success(seq(|factor|, j requires 0 <= j < |factor| => labels[factor[j]]))
  }

  /** Over the label table of `keySizes`, a factor's key indices are below
      the label count and name its labels back through the sorted list; a
      label without a size raises `KeyError`. */
  lemma MapFactorNamesLabels(keySizes: map<int, nat>, factor: seq<int>)
    ensures var r := MapFactor(Labels(keySizes), factor);
      && (r.Failure? <==> exists j :: 0 <= j < |factor| && factor[j] !in keySizes)
      && (r.Success? ==> |r.value| == |factor| && forall j :: 0 <= j < |factor| ==>
            0 <= r.value[j] < |keySizes| && SortedLabels(keySizes.Keys)[r.value[j]] == factor[j])
  {
    LabelsAreRanks(keySizes, Labels(keySizes), SortedLabels(keySizes.Keys));
  }

  /** `set(factor_keys).issubset(clique_keys)`. */
  predicate Covers(keys: seq<int>, factorKeys: seq<int>)
  {
    forall j :: 0 <= j < |factorKeys| ==> factorKeys[j] in keys
  }

  /** The position in `order` of the first node whose keys cover the
      factor's, or None when no node does. */
  function FirstCovering(order: seq<nat>, cliqueKeys: map<nat, seq<int>>, factorKeys: seq<int>): (r: Option<nat>)
    requires forall q :: 0 <= q < |order| ==> order[q] in cliqueKeys
    ensures r.Some? ==> (
      && r.value < |order|
      && Covers(cliqueKeys[order[r.value]], factorKeys)
      && forall q :: 0 <= q < r.value ==> !Covers(cliqueKeys[order[q]], factorKeys))
    ensures r.None? <==> forall q :: 0 <= q < |order| ==> !Covers(cliqueKeys[order[q]], factorKeys)
  {
    if order == [] then None
    else if Covers(cliqueKeys[order[0]], factorKeys) then Some(0)
    else match FirstCovering(order[1..], cliqueKeys, factorKeys)
      case None => None
      case Some(p) => Some(p + 1)
  }

  /** The node a factor with key indices `factorKeys` is multiplied into. */
  function Placement(jt: JunctionTree, factorKeys: seq<int>): (r: Option<nat>)
    requires Indexed(jt)
    ensures r.Some? ==> r.value in jt.tables.cliqueKeys && Covers(jt.tables.cliqueKeys[r.value], factorKeys)
    ensures r.None? <==> forall id :: id in jt.tables.cliqueKeys ==> !Covers(jt.tables.cliqueKeys[id], factorKeys)
  {
    var order := jt.tables.cliqueOrder;
    match FirstCovering(order, jt.tables.cliqueKeys, factorKeys)
    case None =>
      assert forall id :: id in jt.tables.cliqueKeys ==> id in order;
      None
    case Some(p) => Some(order[p])
  }

  /** No node before the placement, in `clique_keys` order, covers the factor. */
  lemma PlacementIsFirst(jt: JunctionTree, factorKeys: seq<int>, q: nat)
    requires Indexed(jt) && Placement(jt, factorKeys).Some?
    requires q < |jt.tables.cliqueOrder| && jt.tables.cliqueOrder[q] == Placement(jt, factorKeys).value
    ensures forall q' :: 0 <= q' < q ==> !Covers(jt.tables.cliqueKeys[jt.tables.cliqueOrder[q']], factorKeys)
  {
    var order := jt.tables.cliqueOrder;
    var p := FirstCovering(order, jt.tables.cliqueKeys, factorKeys).value;
    assert order[p] == order[q];
    assert p == q;
  }

  /** Every label of every factor has an index. */
  predicate KnownLabels(labels: map<int, nat>, factors: seq<seq<int>>)
  {
    forall i, j :: 0 <= i < |factors| && 0 <= j < |factors[i]| ==> factors[i][j] in labels
  }

  /** Factor `i`'s placement, with its labels known. */
  function PlacementOf(jt: JunctionTree, factors: seq<seq<int>>, i: nat): Option<nat>
    requires Indexed(jt) && KnownLabels(jt.labels, factors) && i < |factors|
  {
    Placement(jt, MapSeq(factors[i], jt.labels))
  }

  /** The factor loop of `init_potentials`, given each factor's placement:
      factor `i` is appended to the list of the node it is placed in, or
      skipped when it has none. Each node's list holds exactly the factors
      placed in it, in increasing order. */
  function Bucket(places: seq<Option<nat>>, ids: set<nat>): (r: map<nat, seq<nat>>)
    requires forall i :: 0 <= i < |places| && places[i].Some? ==> places[i].value in ids
    ensures r.Keys == ids
    ensures forall id, i :: id in r && 0 <= i < |places| ==> (i in r[id] <==> places[i] == Some(id))
    ensures forall id, a :: id in r && 0 <= a < |r[id]| ==> r[id][a] < |places|
    ensures forall id, a, b :: id in r && 0 <= a < b < |r[id]| ==> r[id][a] < r[id][b]
  {
    if places == [] then map id | id in ids :: []
    else
      var n := |places| - 1;
      var p := Bucket(places[..n], ids);
      assert |places[..n]| == n;
      assert forall i :: 0 <= i < n ==> places[..n][i] == places[i];
      match places[n]
      case None => p
      case Some(id) =>
        PlacedStep(p, id, n);
        p[id := p[id] + [n]]
  }

  /** Appending `n` to one list, above all entries: membership of every
      smaller index is unchanged and `n` joins that list only. */
  lemma PlacedStep(p: map<nat, seq<nat>>, id: nat, n: nat)
    requires id in p
    requires forall id', a :: id' in p && 0 <= a < |p[id']| ==> p[id'][a] < n
    ensures forall id', i :: id' in p && i < n ==> (i in p[id := p[id] + [n]][id'] <==> i in p[id'])
    ensures forall id' :: id' in p ==> (n in p[id := p[id] + [n]][id'] <==> id' == id)
  {
  }

  /** The placements of all factors, their labels known. */
  function Placements(jt: JunctionTree, factors: seq<seq<int>>): (r: seq<Option<nat>>)
    requires Indexed(jt) && KnownLabels(jt.labels, factors)
    ensures |r| == |factors|
    ensures forall i :: 0 <= i < |r| ==> r[i] == PlacementOf(jt, factors, i)
    ensures forall i :: 0 <= i < |r| && r[i].Some? ==> r[i].value in jt.tables.cliqueKeys
  {
    seq(|factors|, i requires 0 <= i < |factors| => PlacementOf(jt, factors, i))
  }

  /** `init_potentials`, with the potentials keyed by node id: every node's
      potential is all-ones over its keys' sizes, and each factor is
      multiplied into exactly its placement, in factor order; a factor no
      node covers is skipped. An unknown factor label raises `KeyError`. */
  function InitPotentials(jt: JunctionTree, factors: seq<seq<int>>): (r: Result<map<nat, Potential>>)
    requires Indexed(jt)
    ensures r.Failure? <==> !KnownLabels(jt.labels, factors)
    ensures r.Failure? ==> r.error == KeyError
    ensures r.Success? ==> r.value.Keys == jt.tables.cliqueKeys.Keys
    ensures r.Success? ==> forall id :: id in r.value ==>
      r.value[id].shape == AxisSizes(jt, jt.tables.cliqueKeys[id])
    ensures r.Success? ==> forall id, i :: id in r.value && 0 <= i < |factors| ==>
      (i in r.value[id].factors <==> PlacementOf(jt, factors, i) == Some(id))
    ensures r.Success? ==> forall id, a :: id in r.value && 0 <= a < |r.value[id].factors| ==>
      r.value[id].factors[a] < |factors|
    ensures r.Success? ==> forall id, a, b :: id in r.value && 0 <= a < b < |r.value[id].factors| ==>
      r.value[id].factors[a] < r.value[id].factors[b]
  {
    if !KnownLabels(jt.labels, factors) then Failure(KeyError)
    else
      var places := Placements(jt, factors);
      var placed := Bucket(places, jt.tables.cliqueKeys.Keys);
      var pots := map id | id in jt.tables.cliqueKeys :: Potential(AxisSizes(jt, jt.tables.cliqueKeys[id]), placed[id]);
      assert forall id :: id in pots ==> pots[id].factors == placed[id];
      Success(pots)
  }

  /** A factor lands in at most one node. */
  lemma FactorPlacedOnce(jt: JunctionTree, factors: seq<seq<int>>, pots: map<nat, Potential>, i: nat)
    requires Indexed(jt) && InitPotentials(jt, factors) == Success(pots) && i < |factors|
    ensures forall id1, id2 :: id1 in pots && id2 in pots && i in pots[id1].factors && i in pots[id2].factors ==> id1 == id2
  {
    forall id1, id2 | id1 in pots && id2 in pots && i in pots[id1].factors && i in pots[id2].factors
      ensures id1 == id2
    {
      assert PlacementOf(jt, factors, i) == Some(id1);
      assert PlacementOf(jt, factors, i) == Some(id2);
    }
  }

  /** A factor lands in some node exactly when some node's keys cover the
      factor's keys; a factor no node covers is skipped. */
  lemma FactorPlacedIffCovered(jt: JunctionTree, factors: seq<seq<int>>, pots: map<nat, Potential>, i: nat)
    requires Indexed(jt) && InitPotentials(jt, factors) == Success(pots) && i < |factors|
    ensures (exists id :: id in pots && i in pots[id].factors) <==>
      exists id :: id in jt.tables.cliqueKeys && Covers(jt.tables.cliqueKeys[id], MapSeq(factors[i], jt.labels))
  {
    var fk := MapSeq(factors[i], jt.labels);
    var place := PlacementOf(jt, factors, i);
    if place.Some? {
      var id := place.value;
      assert id in jt.tables.cliqueKeys && Covers(jt.tables.cliqueKeys[id], fk);
      assert id in pots && i in pots[id].factors;
    } else {
      assert forall id :: id in jt.tables.cliqueKeys ==> !Covers(jt.tables.cliqueKeys[id], fk);
      forall id | id in pots ensures i !in pots[id].factors {
        assert PlacementOf(jt, factors, i) != Some(id);
      }
    }
  }

  /** Every label of a placed factor is, by its index, a key of the node
      the factor lands in. */
  lemma FactorLabelsInNode(jt: JunctionTree, factors: seq<seq<int>>, pots: map<nat, Potential>, i: nat, id: nat)
    requires Indexed(jt) && InitPotentials(jt, factors) == Success(pots) && i < |factors|
    requires id in pots && i in pots[id].factors
    ensures forall l :: l in factors[i] ==> l in jt.labels && jt.labels[l] in jt.tables.cliqueKeys[id]
  {
    var fk := MapSeq(factors[i], jt.labels);
    assert PlacementOf(jt, factors, i) == Some(id);
    assert Covers(jt.tables.cliqueKeys[id], fk);
    forall l | l in factors[i]
      ensures l in jt.labels && jt.labels[l] in jt.tables.cliqueKeys[id]
    {
      var j :| 0 <= j < |factors[i]| && factors[i][j] == l;
      assert fk[j] == jt.labels[l];
    }
  }

  // ---------------------------------------------------------------------------
  // The potentials list as written

  /** `len(list(bf_traverse(tree.get_struct()))) / 2`: the walk takes the
      list of trees for a node, reading trees 0 and 1 as its id and keys
      (`IndexError` with fewer than two trees) and trees 2 onward as its
      children, so the list gets one slot for itself and one per node of
      trees 2 onward. */
  function SlotCountAsWritten(struct: seq<Node>): (r: Result<nat>)
    ensures r.Failure? <==> |struct| < 2
    ensures r.Failure? ==> r.error == IndexError
    ensures r.Success? ==> r.value == 1 + |LevelOrder(struct[2..])|
  {
    if |struct| < 2 then Failure(IndexError)
    else
      LevelOrderPermutesPreOrder(struct[2..]);
      PreOrderOfLength(struct[2..]);
      assert |multiset(LevelOrder(struct[2..]))| == |multiset(PreOrderOf(struct[2..]))|;
      Success(1 + SizeOf(struct[2..]))
  }

  /** `init_potentials` as written: a list of `SlotCountAsWritten` slots,
      indexed by node id (`IndexError` for an id past its end); slots of no
      node keep their empty-list placeholder, None here. */
  function InitPotentialsAsWritten(jt: JunctionTree, factors: seq<seq<int>>): (r: Result<seq<Option<Potential>>>)
    requires Indexed(jt)
    ensures |jt.struct| < 2 ==> r == Failure(IndexError)
    ensures r.Success? ==> InitPotentials(jt, factors).Success? && forall id :: id in jt.tables.cliqueKeys ==>
      id < |r.value| && r.value[id] == Some(InitPotentials(jt, factors).value[id])
  {
    match SlotCountAsWritten(jt.struct)
    case Failure(e) => Failure(e)
    case Success(n) =>
      if exists id :: id in jt.tables.cliqueKeys && id >= n then Failure(IndexError)
      else match InitPotentials(jt, factors)
        case Failure(e) => Failure(e)
        case Success(m) => Success(seq(n, i requires 0 <= i < n => if i in m then Some(m[i]) else None))
  }

  /** The junction tree of one node, id 0, over one label, 7, of size 2. */
  const OneNode := JunctionTree(map[7 := 2], map[7 := 0], [7], [Node(0, [0], [])],
    Tables(map[0 := [0]], [0], map[0 := 0], [[0]], map[0 := [0]]))

  lemma OneNodeBuilds()
    ensures Build(map[7 := 2], [Node(0, [7], [])]) == Success(OneNode)
  {
    SingleNodeBuild(0, 7, 2);
  }

  lemma OneNodeIndexed()
    ensures Indexed(OneNode)
  {
    var t := OneNode.tables;
    assert OneNode.labels.Keys == OneNode.keySizes.Keys;
    assert forall id :: id in t.cliqueKeys ==> id == 0;
    assert forall k :: k in t.keysToCliques ==> k == 0;
    assert IndexedTables(t, 1);
  }

  /** On that tree the corrected initial potentials exist, one for node 0,
      while the list as written cannot even be sized. */
  lemma OneTreePotentialsFail()
    ensures Build(map[7 := 2], [Node(0, [7], [])]) == Success(OneNode)
    ensures Indexed(OneNode)
    ensures InitPotentials(OneNode, []).Success?
    ensures InitPotentials(OneNode, []).value.Keys == {0}
    ensures InitPotentialsAsWritten(OneNode, []) == Failure(IndexError)
  {
    OneNodeBuilds();
    OneNodePotentials();
    OneNodeAsWritten();
  }

  lemma OneNodePotentials()
    ensures Indexed(OneNode) && InitPotentials(OneNode, []).Success? && InitPotentials(OneNode, []).value.Keys == {0}
  {
    OneNodeIndexed();
    assert KnownLabels(OneNode.labels, []);
    assert OneNode.tables.cliqueKeys.Keys == {0};
  }

  lemma OneNodeAsWritten()
    ensures Indexed(OneNode) && InitPotentialsAsWritten(OneNode, []) == Failure(IndexError)
  {
    OneNodeIndexed();
    assert |OneNode.struct| < 2;
  }
}
