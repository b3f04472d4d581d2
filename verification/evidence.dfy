/**
 Evidence and marginals in junction_tree.py: the likelihood vectors and the
 shrink mapping `JunctionTree.observe` builds, and the guards, the choice of
 node and axis, and the normalising constant of `JunctionTree.marginalize`.
 Potential values stay abstract; only shapes and indices are modelled.
 */
module Evidence {
  import opened Wrappers
  import opened Tree
  import opened KeyLabels
  import opened Junction
  import opened Potentials

  // ---------------------------------------------------------------------------
  // Likelihoods

  function SumInts(xs: seq<int>): int
  {
    if xs == [] then 0 else xs[0] + SumInts(xs[1..])
  }

  /** The likelihood vector of a label of `size` values: one-hot at the
      observed value when the label is observed, all ones otherwise. */
  function Likelihood(size: nat, observed: Option<int>): (r: seq<int>)
    ensures |r| == size
    ensures forall j :: 0 <= j < size ==> r[j] == if observed.None? || j == observed.value then 1 else 0
  {
    seq(size, j requires 0 <= j < size => if observed.None? || j == observed.value then 1 else 0)
  }

  /** An unobserved label's vector sums to its size; an observed one's to 1
      when the value is in range and to 0 when it is not. */
  lemma {:induction false} LikelihoodMass(size: nat, observed: Option<int>)
    ensures SumInts(Likelihood(size, observed)) ==
      if observed.None? then size
      else if 0 <= observed.value < size then 1
      else 0
  {
    LikelihoodMassFrom(size, observed, 0);
  }

  lemma {:induction false} LikelihoodMassFrom(size: nat, observed: Option<int>, lo: nat)
    requires lo <= size
    ensures SumInts(Likelihood(size, observed)[lo..]) ==
      if observed.None? then size - lo
      else if lo <= observed.value < size then 1
      else 0
    decreases size - lo
  {
    var l := Likelihood(size, observed);
    if lo < size {
      LikelihoodMassFrom(size, observed, lo + 1);
      assert l[lo..][1..] == l[lo + 1..];
    } else {
      assert l[lo..] == [];
    }
  }

  /** `observe`'s likelihood table: one vector per sorted label, sized by the
      label's key size. Observed labels outside the sorted labels are not
      given one. */
  function Likelihoods(jt: JunctionTree, data: map<int, int>): (r: map<int, seq<int>>)
    requires forall i :: 0 <= i < |jt.sortedLabels| ==> jt.sortedLabels[i] in jt.keySizes
    ensures forall l :: l in r <==> l in jt.sortedLabels
    ensures forall l :: l in r ==> (
      && |r[l]| == jt.keySizes[l]
      && (l in data ==> forall j :: 0 <= j < |r[l]| ==> r[l][j] == if j == data[l] then 1 else 0)
      && (l !in data ==> forall j :: 0 <= j < |r[l]| ==> r[l][j] == 1))
  {
    map l | l in jt.sortedLabels :: Likelihood(jt.keySizes[l], if l in data then Some(data[l]) else None)
  }

  /** Each vector of `observe`'s likelihood table sums to the label's size
      when the label is unobserved, and to 1 or 0 as the observed value is
      in range or not. */
  lemma LikelihoodsMass(jt: JunctionTree, data: map<int, int>, l: int)
    requires forall i :: 0 <= i < |jt.sortedLabels| ==> jt.sortedLabels[i] in jt.keySizes
    requires l in jt.sortedLabels
    ensures l in Likelihoods(jt, data) && l in jt.keySizes
    ensures SumInts(Likelihoods(jt, data)[l]) ==
      if l !in data then jt.keySizes[l]
      else if 0 <= data[l] < jt.keySizes[l] then 1
      else 0
  {
    LikelihoodMass(jt.keySizes[l], if l in data then Some(data[l]) else None);
  }

  // ---------------------------------------------------------------------------
  // The shrink mapping

  /** One position of an array indexer: `slice(None)` or an observed value. */
  datatype Index = Full | At(value: int)

  /** A node's shrink entry: the indexer over its axes and the keys left. */
  datatype Shrink = Shrink(indexer: seq<Index>, keys: seq<int>)

  /** `keys` without the members of `gone`, in their order. */
  function Without(keys: seq<int>, gone: set<int>): (r: seq<int>)
    ensures forall k :: k in r <==> k in keys && k !in gone
    ensures |r| <= |keys|
  {
    if keys == [] then []
    else (if keys[0] in gone then [] else [keys[0]]) + Without(keys[1..], gone)
  }

  /** `list.remove`: drop the first occurrence of `x`, keeping the other
      elements in order. */
  function RemoveFirst(xs: seq<int>, x: int): (r: seq<int>)
    ensures x in xs ==> |r| == |xs| - 1
    ensures x in xs ==> var i := IndexOf(xs, x).value; r == xs[..i] + xs[i + 1..]
    ensures x !in xs ==> r == xs
  {
    if xs == [] then []
    else if xs[0] == x then xs[1..]
    else
      var rest := RemoveFirst(xs[1..], x);
      if x in xs[1..] then
        DropBehindHead(xs, IndexOf(xs[1..], x).value, rest);
        [xs[0]] + rest
      else
        [xs[0]] + rest
  }

  /** Keeping the head in front of a tail with position `i` dropped drops
      position `i + 1` of the whole. */
  lemma DropBehindHead(xs: seq<int>, i: nat, rest: seq<int>)
    requires i + 1 < |xs|
    requires rest == xs[1..][..i] + xs[1..][i + 1..]
    ensures [xs[0]] + rest == xs[..i + 1] + xs[i + 2..]
  {
    assert xs[..i + 1] == [xs[0]] + xs[1..][..i];
    assert xs[i + 2..] == xs[1..][i + 1..];
  }

  /** The key indices observed: index `ix` maps to the value observed for
      its label `sorted_labels[ix]`. */
  function Observed(jt: JunctionTree, data: map<int, int>, labels: set<int>): (obs: map<int, int>)
    ensures forall ix :: ix in obs <==>
      0 <= ix < |jt.sortedLabels| && jt.sortedLabels[ix] in data && jt.sortedLabels[ix] in labels
    ensures forall ix :: ix in obs ==> obs[ix] == data[jt.sortedLabels[ix]]
  {
    map ix | 0 <= ix < |jt.sortedLabels| && jt.sortedLabels[ix] in data && jt.sortedLabels[ix] in labels
      :: data[jt.sortedLabels[ix]]
  }

  /** The shrink entry of a node with key indices `keys` once the indices in
      `obs` are observed: the indexer holds the observed value at each
      observed key's axis and a full slice elsewhere, and the unobserved
      keys remain, in order. */
  function Shrunk(keys: seq<int>, obs: map<int, int>): Shrink
  {
    Shrink(Indexer(keys, obs), Without(keys, obs.Keys))
  }

  /** One index per axis: the observed value, or a full slice. */
  function Indexer(keys: seq<int>, obs: map<int, int>): seq<Index>
  {
    seq(|keys|, j requires 0 <= j < |keys| => if keys[j] in obs then At(obs[keys[j]]) else Full)
  }

  /** The potentials list matches the clique table: slot `i` is node `i`,
      with one axis per key, and every node has a slot. */
  predicate Aligned(jt: JunctionTree, pots: seq<Potential>)
  {
    && (forall i :: 0 <= i < |pots| ==> i in jt.tables.cliqueKeys && |pots[i].shape| == |jt.tables.cliqueKeys[i]|)
    && (forall id :: id in jt.tables.cliqueKeys ==> id < |pots|)
  }

  lemma {:induction false} WithoutNothing(keys: seq<int>)
    ensures Without(keys, {}) == keys
  {
    if keys != [] {
      WithoutNothing(keys[1..]);
      assert keys == [keys[0]] + keys[1..];
    }
  }

  lemma {:induction false} WithoutAbsent(keys: seq<int>, gone: set<int>, x: int)
    requires x !in keys
    ensures Without(keys, gone + {x}) == Without(keys, gone)
  {
    if keys != [] {
      WithoutAbsent(keys[1..], gone, x);
    }
  }

  lemma NoDupTail(keys: seq<int>)
    requires NoDup(keys) && keys != []
    ensures NoDup(keys[1..]) && keys[0] !in keys[1..]
  {
    forall i, j | 0 <= i < j < |keys| - 1 ensures keys[1..][i] != keys[1..][j] {
      assert keys[1..][i] == keys[i + 1] && keys[1..][j] == keys[j + 1];
    }
    forall i | 0 <= i < |keys| - 1 ensures keys[1..][i] != keys[0] {
      assert keys[1..][i] == keys[i + 1];
    }
  }

  /** Removing a key that occurs once from the shrunk list is filtering it. */
  lemma {:induction false} RemoveFromWithout(keys: seq<int>, gone: set<int>, x: int)
    requires NoDup(keys) && x !in gone
    ensures RemoveFirst(Without(keys, gone), x) == Without(keys, gone + {x})
  {
    if keys != [] {
      NoDupTail(keys);
      var k := keys[0];
      var rest := Without(keys[1..], gone);
      if k == x {
        assert Without(keys, gone) == [x] + rest;
        assert ([x] + rest)[1..] == rest;
        assert Without(keys, gone + {x}) == Without(keys[1..], gone + {x});
        WithoutAbsent(keys[1..], gone, x);
      } else {
        RemoveFromWithout(keys[1..], gone, x);
        if k in gone {
          assert Without(keys, gone) == rest;
          assert Without(keys, gone + {x}) == Without(keys[1..], gone + {x});
        } else {
          assert Without(keys, gone) == [k] + rest;
          assert ([k] + rest)[0] == k && ([k] + rest)[1..] == rest;
          assert Without(keys, gone + {x}) == [k] + Without(keys[1..], gone + {x});
        }
      }
    }
  }

  /** Observing a key a node does not hold leaves its entry alone. */
  lemma ShrunkAbsent(keys: seq<int>, obs: map<int, int>, x: int, v: int)
    requires x !in keys
    ensures Shrunk(keys, obs[x := v]) == Shrunk(keys, obs)
  {
    assert obs[x := v].Keys == obs.Keys + {x};
    WithoutAbsent(keys, obs.Keys, x);
  }

  /** Observing a key sets the indexer at its first position. */
  lemma IndexerPresent(keys: seq<int>, obs: map<int, int>, x: int, v: int, pos: nat)
    requires NoDup(keys) && pos < |keys| && keys[pos] == x
    ensures Indexer(keys, obs[x := v]) == Indexer(keys, obs)[pos := At(v)]
  {
    var before := Indexer(keys, obs);
    var after := Indexer(keys, obs[x := v]);
    forall j | 0 <= j < |keys| ensures after[j] == before[pos := At(v)][j] {
      if j != pos {
        assert keys[j] != x;
      }
    }
  }

  /** Observing a key a node holds once: set its axis and remove it. */
  lemma ShrunkPresent(keys: seq<int>, obs: map<int, int>, x: int, v: int)
    requires NoDup(keys) && x in keys && x !in obs
    ensures IndexOf(keys, x).Some?
    ensures var e := Shrunk(keys, obs);
      Shrunk(keys, obs[x := v]) == Shrink(e.indexer[IndexOf(keys, x).value := At(v)], RemoveFirst(e.keys, x))
  {
    IndexerPresent(keys, obs, x, v, IndexOf(keys, x).value);
    assert obs[x := v].Keys == obs.Keys + {x};
    RemoveFromWithout(keys, obs.Keys, x);
  }

  /** Some observed label has no index, or its index is in no node. */
  predicate UnplacedEvidence(jt: JunctionTree, data: map<int, int>)
  {
    exists l :: l in data && (l !in jt.labels || jt.labels[l] !in jt.tables.keysToCliques)
  }

  /** The shrink mapping of `observe`: for each potential, its indexer and
      shrunk key list after all of `data` is observed, or `KeyError` for an
      observed label with no index or no node. The clique table itself is
      not changed. */
  method ShrinkMapping(jt: JunctionTree, pots: seq<Potential>, data: map<int, int>) returns (r: Result<seq<Shrink>>)
    requires Indexed(jt) && Aligned(jt, pots)
    ensures r.Failure? <==> UnplacedEvidence(jt, data)
    ensures r.Failure? ==> r.error == KeyError
    ensures r.Success? ==> |r.value| == |pots| && forall i :: 0 <= i < |pots| ==>
      r.value[i] == Shrunk(jt.tables.cliqueKeys[i], Observed(jt, data, data.Keys))
    ensures r.Success? ==> forall i :: 0 <= i < |pots| ==>
      Pinned(jt, data, jt.tables.cliqueKeys[i], r.value[i])
  {
    var cliqueKeys := jt.tables.cliqueKeys;
    var entries := seq(|pots|, i requires 0 <= i < |pots| => Shrink(seq(|pots[i].shape|, _ => Full), cliqueKeys[i]));
    InitialEntries(jt, pots, data, entries);
    ListedNodes(jt, pots);
    r := ObserveAll(jt, data, entries);
    if r.Success? {
      AllPinned(jt, data, r.value);
    }
  }

  /** `labels` and `sorted_labels` are mutually inverse. */
  predicate LabelsInverse(jt: JunctionTree)
  {
    && (forall i :: 0 <= i < |jt.sortedLabels| ==> jt.sortedLabels[i] in jt.labels && jt.labels[jt.sortedLabels[i]] == i)
    && (forall k :: k in jt.labels ==> jt.labels[k] < |jt.sortedLabels| && jt.sortedLabels[jt.labels[k]] == k)
  }

  /** The outer loop of `observe`: each observed label's index is looked
      up and the nodes listed for it are shrunk. */
  method ObserveAll(jt: JunctionTree, data: map<int, int>, entries: seq<Shrink>) returns (r: Result<seq<Shrink>>)
    requires LabelsInverse(jt) && Listed(jt.tables.cliqueKeys, jt.tables.keysToCliques, |entries|)
    requires ShrunkAll(jt.tables.cliqueKeys, entries, Observed(jt, data, {}))
    ensures r.Failure? <==> UnplacedEvidence(jt, data)
    ensures r.Failure? ==> r.error == KeyError
    ensures r.Success? ==> |r.value| == |entries| && ShrunkAll(jt.tables.cliqueKeys, r.value, Observed(jt, data, data.Keys))
  {
    var current := entries;
    var todo := data.Keys;
    ghost var done: set<int> := {};
    while todo != {}
      invariant todo <= data.Keys && done == data.Keys - todo
      invariant |current| == |entries|
      invariant forall l :: l in done ==> l in jt.labels && jt.labels[l] in jt.tables.keysToCliques
      invariant ShrunkAll(jt.tables.cliqueKeys, current, Observed(jt, data, done))
      decreases todo
    {
      HasElement(todo);
      var l :| l in todo;
      if l !in jt.labels || jt.labels[l] !in jt.tables.keysToCliques {
        return Failure(KeyError);
      }
      var ix := jt.labels[l];
      ghost var obs := Observed(jt, data, done);
      ObserveOne(jt, data, done, l);
      current := ShrinkNodes(jt.tables.cliqueKeys, jt.tables.keysToCliques[ix], current, ix, data[l], obs);
      todo := todo - {l};
      done := done + {l};
    }
    assert done == data.Keys;
    return Success(current);
  }

  /** Every entry is node `i`'s shrink entry once the indices in `obs` are
      observed. */
  predicate ShrunkAll(cliqueKeys: map<nat, seq<int>>, entries: seq<Shrink>, obs: map<int, int>)
  {
    forall i :: 0 <= i < |entries| ==> i in cliqueKeys && entries[i] == Shrunk(cliqueKeys[i], obs)
  }

  /** Before any evidence, an entry is full slices over the node's keys. */
  lemma FullEntry(keys: seq<int>, n: nat)
    requires n == |keys|
    ensures Shrink(seq(n, _ => Full), keys) == Shrunk(keys, map[])
  {
    WithoutNothing(keys);
    var none: map<int, int> := map[];
    assert none.Keys == {};
    var indexer := Indexer(keys, none);
    assert indexer == seq(n, _ => Full);
  }

  lemma InitialEntries(jt: JunctionTree, pots: seq<Potential>, data: map<int, int>, entries: seq<Shrink>)
    requires Aligned(jt, pots) && |entries| == |pots|
    requires forall i :: 0 <= i < |pots| ==>
      entries[i] == Shrink(seq(|pots[i].shape|, _ => Full), jt.tables.cliqueKeys[i])
    ensures ShrunkAll(jt.tables.cliqueKeys, entries, Observed(jt, data, {}))
  {
    assert Observed(jt, data, {}) == map[];
    forall i | 0 <= i < |pots| ensures entries[i] == Shrunk(jt.tables.cliqueKeys[i], map[]) {
      FullEntry(jt.tables.cliqueKeys[i], |pots[i].shape|);
    }
  }

  /** Observing one more label extends the observed indices by its index. */
  lemma ObserveOne(jt: JunctionTree, data: map<int, int>, done: set<int>, l: int)
    requires LabelsInverse(jt) && l in data && l in jt.labels && l !in done
    ensures jt.labels[l] !in Observed(jt, data, done)
    ensures Observed(jt, data, done + {l}) == Observed(jt, data, done)[jt.labels[l] := data[l]]
  {
  }

  /** The nodes listed for index `ix` are distinct nodes below `n`, each
      holding `ix` among distinct keys, and every node below `n` holding
      `ix` is listed. */
  predicate ListedFor(cliqueKeys: map<nat, seq<int>>, cliques: seq<nat>, ix: int, n: nat)
  {
    && NoDup(cliques)
    && (forall p :: 0 <= p < |cliques| ==>
          cliques[p] < n && cliques[p] in cliqueKeys && ix in cliqueKeys[cliques[p]] && NoDup(cliqueKeys[cliques[p]]))
    && (forall i :: 0 <= i < n && i in cliqueKeys && ix in cliqueKeys[i] ==> i in cliques)
  }

  predicate Listed(cliqueKeys: map<nat, seq<int>>, keysToCliques: map<int, seq<nat>>, n: nat)
  {
    forall ix :: ix in keysToCliques ==> ListedFor(cliqueKeys, keysToCliques[ix], ix, n)
  }

  /** What `Indexed` says about the nodes `keys_to_cliques` lists for each
      index when the potentials are aligned with the clique table. */
  lemma ListedNodes(jt: JunctionTree, pots: seq<Potential>)
    requires Indexed(jt) && Aligned(jt, pots)
    ensures Listed(jt.tables.cliqueKeys, jt.tables.keysToCliques, |pots|)
  {
    forall ix | ix in jt.tables.keysToCliques
      ensures ListedFor(jt.tables.cliqueKeys, jt.tables.keysToCliques[ix], ix, |pots|)
    {
      var cliques: seq<nat> := jt.tables.keysToCliques[ix];
      forall p | 0 <= p < |cliques|
        ensures cliques[p] < |pots| && cliques[p] in jt.tables.cliqueKeys
          && ix in jt.tables.cliqueKeys[cliques[p]] && NoDup(jt.tables.cliqueKeys[cliques[p]])
      {
        var c := cliques[p];
        assert c in cliques;
        assert c in jt.tables.cliqueKeys && ix in jt.tables.cliqueKeys[c];
      }
    }
  }

  /** Entry `i` has the indices of `after` observed if node `i` is among
      `done`, and those of `obs` otherwise. */
  predicate ShrunkSome(cliqueKeys: map<nat, seq<int>>, r: seq<Shrink>, done: seq<nat>, obs: map<int, int>,
                       after: map<int, int>)
  {
    forall i :: 0 <= i < |r| ==> i in cliqueKeys && r[i] == Shrunk(cliqueKeys[i], if i in done then after else obs)
  }

  /** One step of the inner loop of `observe`: node `cliques[p]` gets its
      entry shrunk. */
  lemma ShrinkStep(cliqueKeys: map<nat, seq<int>>, cliques: seq<nat>, r: seq<Shrink>, p: nat, ix: int, v: int,
                   obs: map<int, int>)
    requires p < |cliques| && NoDup(cliques)
    requires cliques[p] < |r| && cliques[p] in cliqueKeys && ix in cliqueKeys[cliques[p]] && NoDup(cliqueKeys[cliques[p]])
    requires ix !in obs
    requires ShrunkSome(cliqueKeys, r, cliques[..p], obs, obs[ix := v])
    ensures IndexOf(cliqueKeys[cliques[p]], ix).Some?
    ensures var c := cliques[p];
      ShrunkSome(cliqueKeys, r[c := Shrink(r[c].indexer[IndexOf(cliqueKeys[c], ix).value := At(v)],
                                           RemoveFirst(r[c].keys, ix))],
                 cliques[..p + 1], obs, obs[ix := v])
  {
    var c := cliques[p];
    var after := obs[ix := v];
    assert c !in cliques[..p] by {
      assert forall q :: 0 <= q < p ==> cliques[..p][q] == cliques[q] != cliques[p];
    }
    assert r[c] == Shrunk(cliqueKeys[c], obs);
    ShrunkPresent(cliqueKeys[c], obs, ix, v);
    var e := r[c];
    var shrunk := Shrink(e.indexer[IndexOf(cliqueKeys[c], ix).value := At(v)], RemoveFirst(e.keys, ix));
    assert shrunk == Shrunk(cliqueKeys[c], after);
    assert cliques[..p + 1] == cliques[..p] + [c];
    ShrunkSomeUpdate(cliqueKeys, r, cliques[..p], c, obs, after, shrunk);
  }

  /** Replacing one not yet shrunk entry by its shrunk form extends the
      shrunk part by that node. */
  lemma ShrunkSomeUpdate(cliqueKeys: map<nat, seq<int>>, r: seq<Shrink>, done: seq<nat>, c: nat,
                         obs: map<int, int>, after: map<int, int>, shrunk: Shrink)
    requires c < |r| && c in cliqueKeys && c !in done
    requires ShrunkSome(cliqueKeys, r, done, obs, after)
    requires shrunk == Shrunk(cliqueKeys[c], after)
    ensures ShrunkSome(cliqueKeys, r[c := shrunk], done + [c], obs, after)
  {
    var r' := r[c := shrunk];
    forall i | 0 <= i < |r'|
      ensures i in cliqueKeys && r'[i] == Shrunk(cliqueKeys[i], if i in done + [c] then after else obs)
    {
      if i != c {
        assert r'[i] == r[i];
        assert (i in done + [c]) == (i in done);
      }
    }
  }

  /** The inner loop of `observe`: every node listed for index `ix` gets
      `ix` removed from its shrunk keys and its indexer set to `v` at the
      axis of `ix`; the nodes not listed do not hold `ix`. */
  method ShrinkNodes(cliqueKeys: map<nat, seq<int>>, cliques: seq<nat>, entries: seq<Shrink>, ix: int, v: int,
                     ghost obs: map<int, int>) returns (r: seq<Shrink>)
    requires ShrunkAll(cliqueKeys, entries, obs)
    requires ListedFor(cliqueKeys, cliques, ix, |entries|)
    requires ix !in obs
    ensures |r| == |entries|
    ensures ShrunkAll(cliqueKeys, r, obs[ix := v])
  {
    r := entries;
    var p := 0;
    while p < |cliques|
      invariant p <= |cliques|
      invariant |r| == |entries|
      invariant ShrunkSome(cliqueKeys, r, cliques[..p], obs, obs[ix := v])
    {
      var c := cliques[p];
      ShrinkStep(cliqueKeys, cliques, r, p, ix, v, obs);
      var pos := IndexOf(cliqueKeys[c], ix).value;
      r := r[c := Shrink(r[c].indexer[pos := At(v)], RemoveFirst(r[c].keys, ix))];
      p := p + 1;
    }
    assert cliques[..p] == cliques;
    forall i | 0 <= i < |entries|
      ensures i in cliqueKeys && r[i] == Shrunk(cliqueKeys[i], obs[ix := v])
    {
      if i !in cliques {
        assert ix !in cliqueKeys[i];
        ShrunkAbsent(cliqueKeys[i], obs, ix, v);
      }
    }
  }

  /** Read per axis: an axis of the entry is pinned exactly when the label
      of its key was observed, to the observed value, and the keys left are
      the node's keys whose labels were not observed. */
  ghost predicate Pinned(jt: JunctionTree, data: map<int, int>, keys: seq<int>, e: Shrink)
    requires forall j :: 0 <= j < |keys| ==> 0 <= keys[j] < |jt.sortedLabels|
  {
    && |e.indexer| == |keys|
    && (forall j :: 0 <= j < |keys| ==>
          e.indexer[j] == if jt.sortedLabels[keys[j]] in data then At(data[jt.sortedLabels[keys[j]]]) else Full)
    && (forall k :: k in e.keys <==> k in keys && jt.sortedLabels[k] !in data)
  }

  lemma AllPinned(jt: JunctionTree, data: map<int, int>, entries: seq<Shrink>)
    requires forall id, j :: id in jt.tables.cliqueKeys && 0 <= j < |jt.tables.cliqueKeys[id]| ==>
      0 <= jt.tables.cliqueKeys[id][j] < |jt.sortedLabels|
    requires ShrunkAll(jt.tables.cliqueKeys, entries, Observed(jt, data, data.Keys))
    ensures forall i :: 0 <= i < |entries| ==> Pinned(jt, data, jt.tables.cliqueKeys[i], entries[i])
  {
    forall i | 0 <= i < |entries| ensures Pinned(jt, data, jt.tables.cliqueKeys[i], entries[i]) {
      ShrunkMeaning(jt, data, jt.tables.cliqueKeys[i]);
    }
  }

  lemma ShrunkMeaning(jt: JunctionTree, data: map<int, int>, keys: seq<int>)
    requires forall j :: 0 <= j < |keys| ==> 0 <= keys[j] < |jt.sortedLabels|
    ensures Pinned(jt, data, keys, Shrunk(keys, Observed(jt, data, data.Keys)))
  {
  }

  // ---------------------------------------------------------------------------
  // marginalize

  /** The node and the axis of its potential that `marginalize` sums onto. */
  datatype Target = Target(clique: nat, axis: nat)

  /** The last position of `v` in `xs`: the entry a dictionary built by
      `for i, k in enumerate(xs): m[k] = i` keeps for `v`. */
  function LastIndexOf(xs: seq<int>, v: int): (r: Option<nat>)
    ensures r.Some? ==> r.value < |xs| && xs[r.value] == v && v !in xs[r.value + 1..]
    ensures r.None? <==> v !in xs
  {
    if xs == [] then None
    else if xs[|xs| - 1] == v then Some(|xs| - 1)
    else
      var r := LastIndexOf(xs[..|xs| - 1], v);
      assert xs == xs[..|xs| - 1] + [xs[|xs| - 1]];
      if r.Some? then
        assert xs[r.value + 1..] == xs[..|xs| - 1][r.value + 1..] + [xs[|xs| - 1]];
        r
      else r
  }

  /** The guards of `marginalize` and the node and axis it sums onto: more
      than one label raises `NotImplementedError` before anything else; a
      label without a size raises `ValueError`; an empty list raises
      `IndexError`; then the first node listed for the label's index is
      used (`KeyError` when there is none), its potential must exist
      (`IndexError`) and its keys must hold the index (`KeyError`). */
  function MarginalTarget(jt: JunctionTree, pots: seq<Potential>, keyLabels: seq<int>): (r: Result<Target>)
    ensures |keyLabels| > 1 ==> r == Failure(NotImplementedError)
    ensures |keyLabels| == 1 && keyLabels[0] !in jt.keySizes ==> r == Failure(ValueError)
    ensures keyLabels == [] ==> r == Failure(IndexError)
    ensures r.Success? ==> (
      && |keyLabels| == 1
      && keyLabels[0] in jt.keySizes && keyLabels[0] in jt.labels
      && jt.labels[keyLabels[0]] in jt.tables.keysToCliques
      && jt.tables.keysToCliques[jt.labels[keyLabels[0]]] != []
      && r.value.clique == jt.tables.keysToCliques[jt.labels[keyLabels[0]]][0]
      && r.value.clique < |pots|
      && r.value.clique in jt.tables.cliqueKeys
      && r.value.axis < |jt.tables.cliqueKeys[r.value.clique]|
      && jt.tables.cliqueKeys[r.value.clique][r.value.axis] == jt.labels[keyLabels[0]])
  {
    if |keyLabels| > 1 then Failure(NotImplementedError)
    else if exists i :: 0 <= i < |keyLabels| && keyLabels[i] !in jt.keySizes then Failure(ValueError)
    else if keyLabels == [] then Failure(IndexError)
    else match FindKey(jt.labels, keyLabels[0])
      case Failure(e) => Failure(e)
      case Success(ix) =>
        if ix !in jt.tables.keysToCliques then Failure(KeyError)
        else if jt.tables.keysToCliques[ix] == [] then Failure(IndexError)
        else
          var c := jt.tables.keysToCliques[ix][0];
          if c !in jt.tables.cliqueKeys then Failure(KeyError)
          else if c >= |pots| then Failure(IndexError)
          else match LastIndexOf(jt.tables.cliqueKeys[c], ix)
            case None => Failure(KeyError)
            case Some(axis) => Success(Target(c, axis))
  }

  /** On an indexed junction tree with aligned potentials, a single known
      label fails only with `KeyError` when no node is listed for its
      index, and otherwise sums onto the first node listed. */
  lemma MarginalTargetIndexed(jt: JunctionTree, pots: seq<Potential>, l: int)
    requires Indexed(jt) && Aligned(jt, pots) && l in jt.keySizes
    ensures MarginalTarget(jt, pots, [l]).Failure? <==> jt.labels[l] !in jt.tables.keysToCliques
    ensures MarginalTarget(jt, pots, [l]).Failure? ==> MarginalTarget(jt, pots, [l]).error == KeyError
    ensures MarginalTarget(jt, pots, [l]).Success? ==>
      MarginalTarget(jt, pots, [l]).value.clique == jt.tables.keysToCliques[jt.labels[l]][0]
  {
    var ix := jt.labels[l];
    if ix in jt.tables.keysToCliques {
      var c := jt.tables.keysToCliques[ix][0];
      assert c in jt.tables.keysToCliques[ix];
      assert c in jt.tables.cliqueKeys && ix in jt.tables.cliqueKeys[c];
    }
  }

  /** On a built junction tree with aligned potentials, a single known
      label fails only when no node holds it; otherwise `marginalize` sums
      onto the first node, in depth-first visit order, that holds it. */
  lemma MarginalizesFirstHolder(keySizes: map<int, nat>, trees: seq<Node>, jt: JunctionTree, pots: seq<Potential>, l: int)
    requires forall i :: 0 <= i < |trees| ==> IsJunctionTree(trees[i])
    requires NoDup(Ids(Visits(trees)))
    requires forall i :: 0 <= i < |Visits(trees)| ==> NoDup(Visits(trees)[i].node.keys)
    requires l in keySizes && Aligned(jt, pots)
    requires Build(keySizes, trees) == Success(jt)
    ensures MarginalTarget(jt, pots, [l]).Failure? <==> ContainingIds(Visits(trees), l) == []
    ensures MarginalTarget(jt, pots, [l]).Failure? ==> MarginalTarget(jt, pots, [l]).error == KeyError
    ensures MarginalTarget(jt, pots, [l]).Success? ==>
      ContainingIds(Visits(trees), l) != [] && MarginalTarget(jt, pots, [l]).value.clique == ContainingIds(Visits(trees), l)[0]
  {
    BuildIndexes(keySizes, trees);
    BuildKeysToCliques(keySizes, trees);
    MarginalTargetIndexed(jt, pots, l);
  }

  // ---------------------------------------------------------------------------
  // Normalisation

  function Sum(xs: seq<real>): real
  {
    if xs == [] then 0.0 else xs[0] + Sum(xs[1..])
  }

  function Scale(xs: seq<real>, z: real): (r: seq<real>)
    requires z != 0.0
    ensures |r| == |xs|
    ensures forall i :: 0 <= i < |xs| ==> r[i] * z == xs[i]
  {
    if xs == [] then [] else [xs[0] / z] + Scale(xs[1..], z)
  }

  /** Scaling distributes over one step of a sum. */
  lemma Distribute(head: real, tail: real, z: real, x: real, rest: real)
    requires head * z == x && tail * z == rest
    ensures (head + tail) * z == x + rest
  {
  }

  lemma {:induction false} SumScale(xs: seq<real>, z: real)
    requires z != 0.0
    ensures Sum(Scale(xs, z)) * z == Sum(xs)
  {
    if xs != [] {
      var ys, tail := Scale(xs, z), Scale(xs[1..], z);
      SumScale(xs[1..], z);
      assert ys[1..] == tail;
      assert Sum(ys) == ys[0] + Sum(tail);
      Distribute(ys[0], Sum(tail), z, xs[0], Sum(xs[1..]));
    }
  }

  /** `Z = 1. if not normalize else np.sum(value)`, with a zero `Z`
      replaced by 1: never zero, 1 unless normalising, the total otherwise. */
  function NormalizingConstant(normalize: bool, total: real): (z: real)
    ensures z != 0.0
    ensures !normalize ==> z == 1.0
    ensures normalize && total != 0.0 ==> z == total
    ensures normalize && total == 0.0 ==> z == 1.0
  {
    if !normalize then 1.0 else if total == 0.0 then 1.0 else total
  }

  /** `value / Z` over exact reals: unchanged unless normalising, and
      summing to 1 when normalising a marginal of non-zero total. */
  function Normalized(value: seq<real>, normalize: bool): (r: seq<real>)
    ensures |r| == |value|
    ensures !normalize || Sum(value) == 0.0 ==> r == value
    ensures normalize && Sum(value) != 0.0 ==> r == Scale(value, Sum(value))
    ensures normalize && Sum(value) != 0.0 ==> Sum(r) == 1.0
  {
    var z := NormalizingConstant(normalize, Sum(value));
    var r := Scale(value, z);
    SumScale(value, z);
    if z == 1.0 then
      assert forall i :: 0 <= i < |value| ==> r[i] == value[i];
      r
    else
      WholeShare(Sum(r), z);
      r
  }

  /** A share that, scaled by a non-zero total, gives the total, is 1. */
  lemma WholeShare(share: real, z: real)
    requires z != 0.0 && share * z == z
    ensures share == 1.0
  {
  }
}
