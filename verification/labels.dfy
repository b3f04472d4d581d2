/**
 Key labels and their indices. Every key label is given an index, its rank
 among all labels in sorted order; trees are re-keyed with these indices and
 `sorted_labels` turns an index back into its label.
 */
module KeyLabels {
  import opened Wrappers

  predicate StrictlySorted(xs: seq<int>)
  {
    forall i, j :: 0 <= i < j < |xs| ==> xs[i] < xs[j]
  }

  /** `labels` is a bijection between `keys` and `0 .. |keys| - 1`. */
  predicate Injective(labels: map<int, nat>)
  {
    forall a, b :: a in labels && b in labels && labels[a] == labels[b] ==> a == b
  }

  lemma HasElement(s: set<int>)
    requires s != {}
    ensures exists y :: y in s
  {
    assert (forall y :: y !in s) ==> s == {};
  }

  lemma {:induction false} SetHasMin(s: set<int>)
    requires s != {}
    ensures exists m :: m in s && forall x :: x in s ==> m <= x
    decreases |s|
  {
    HasElement(s);
    var y :| y in s;
    if s != {y} {
      SetHasMin(s - {y});
      var m :| m in s - {y} && forall x :: x in s - {y} ==> m <= x;
      var least := if y < m then y else m;
      forall x | x in s
        ensures least <= x
      {
        if x != y {
          assert x in s - {y};
        }
      }
      assert least in s;
    } else {
      forall x | x in s
        ensures y <= x
      {
        assert x in {y};
      }
    }
  }

  function Min(s: set<int>): (m: int)
    requires s != {}
    ensures m in s && forall x :: x in s ==> m <= x
  {
    SetHasMin(s);
    var m :| m in s && forall x :: x in s ==> m <= x;
    m
  }

  /** `sorted(key_sizes.keys())`. */
  function SortedLabels(s: set<int>): (r: seq<int>)
    ensures StrictlySorted(r)
    ensures forall x :: x in r <==> x in s
    ensures |r| == |s|
    decreases |s|
  {
    if s == {} then []
    else
      var m := Min(s);
      var rest := SortedLabels(s - {m});
      assert forall i :: 0 <= i < |rest| ==> m < rest[i] by {
        forall i | 0 <= i < |rest| ensures m < rest[i] {
          assert rest[i] in s - {m};
        }
      }
      [m] + rest
  }

  /** `{label: i for i, label in enumerate(sorted_labels)}`. */
  function LabelIndex(sorted: seq<int>): (labels: map<int, nat>)
    requires StrictlySorted(sorted)
    ensures forall x :: x in labels <==> x in sorted
    ensures forall i :: 0 <= i < |sorted| ==> labels[sorted[i]] == i
  {
    map i | 0 <= i < |sorted| :: sorted[i] := i
  }

  /** The `labels` table of a junction tree over `keySizes`. */
  function Labels(keySizes: map<int, nat>): map<int, nat>
  {
    LabelIndex(SortedLabels(keySizes.Keys))
  }

  /** Index i holds the label with index i: labels and sorted labels are
      mutually inverse, the index order is the label order, and every index
      is below the number of labels. */
  lemma LabelsAreRanks(keySizes: map<int, nat>, labels: map<int, nat>, sorted: seq<int>)
    requires labels == Labels(keySizes) && sorted == SortedLabels(keySizes.Keys)
    ensures labels.Keys == keySizes.Keys
    ensures |sorted| == |keySizes|
    ensures forall k :: k in keySizes ==> labels[k] < |keySizes| && sorted[labels[k]] == k
    ensures forall i :: 0 <= i < |keySizes| ==> sorted[i] in labels && labels[sorted[i]] == i
    ensures forall a, b :: a in keySizes && b in keySizes ==> (a < b <==> labels[a] < labels[b])
    ensures Injective(labels)
  {
    assert |keySizes| == |keySizes.Keys|;
    RanksOf(keySizes.Keys, labels, sorted);
  }

  /** The same over any strictly sorted listing of a set and the table of
      its positions. */
  lemma RanksOf(keys: set<int>, labels: map<int, nat>, sorted: seq<int>)
    requires StrictlySorted(sorted) && |sorted| == |keys| && forall x :: x in sorted <==> x in keys
    requires forall x :: x in labels <==> x in sorted
    requires forall i :: 0 <= i < |sorted| ==> sorted[i] in labels && labels[sorted[i]] == i
    ensures labels.Keys == keys
    ensures forall k :: k in keys ==> labels[k] < |sorted| && sorted[labels[k]] == k
    ensures forall a, b :: a in keys && b in keys ==> (a < b <==> labels[a] < labels[b])
    ensures Injective(labels)
  {
    assert labels.Keys == keys by {
      forall x ensures x in labels.Keys <==> x in keys {
        assert x in labels <==> x in sorted;
      }
    }
    forall k | k in keys
      ensures labels[k] < |sorted| && sorted[labels[k]] == k
    {
      var i :| 0 <= i < |sorted| && sorted[i] == k;
    }
    forall a, b | a in keys && b in keys
      ensures a < b <==> labels[a] < labels[b]
    {
      var i :| 0 <= i < |sorted| && sorted[i] == a;
      var j :| 0 <= j < |sorted| && sorted[j] == b;
    }
  }

  /** `_get_labels`: an array of `len(labels)` slots, slot `labels[k]`
      receiving `k`. A slot is filled exactly when some label has that index;
      for an injective table, slot `labels[k]` holds `k`. */
  method GetLabels(labels: map<int, nat>) returns (r: seq<Option<int>>)
    requires forall k :: k in labels ==> labels[k] < |labels|
    ensures |r| == |labels|
    ensures forall i :: 0 <= i < |r| ==> (r[i].Some? <==> exists k :: k in labels && labels[k] == i)
    ensures forall i :: 0 <= i < |r| && r[i].Some? ==> r[i].value in labels && labels[r[i].value] == i
    ensures Injective(labels) ==> forall k :: k in labels ==> r[labels[k]] == Some(k)
  {
    r := seq(|labels|, _ => None);
    var todo := labels.Keys;
    while todo != {}
      invariant todo <= labels.Keys
      invariant |r| == |labels|
      invariant forall i :: 0 <= i < |r| ==>
        (r[i].Some? <==> exists k :: k in labels.Keys - todo && labels[k] == i)
      invariant forall i :: 0 <= i < |r| && r[i].Some? ==>
        r[i].value in labels && r[i].value !in todo && labels[r[i].value] == i
      decreases todo
    {
      HasElement(todo);
      var k :| k in todo;
      r := r[labels[k] := Some(k)];
      todo := todo - {k};
    }
    if Injective(labels) {
      forall k | k in labels
        ensures r[labels[k]] == Some(k)
      {
        var i := labels[k];
        assert k in labels && labels[k] == i;
        assert r[i].Some?;
        var v := r[i].value;
        assert v in labels && labels[v] == labels[k];
        assert v == k;
      }
    }
  }

  /** `_get_labels` run on the `labels` table of `keySizes` fills every
      slot, slot `i` holding the `i`-th label in sorted order: it rebuilds
      the sorted label list. */
  method GetLabelsSorted(keySizes: map<int, nat>) returns (r: seq<Option<int>>)
    ensures |r| == |SortedLabels(keySizes.Keys)|
    ensures forall i :: 0 <= i < |r| ==> r[i] == Some(SortedLabels(keySizes.Keys)[i])
  {
    var labels := Labels(keySizes);
    var sorted := SortedLabels(keySizes.Keys);
    LabelsAreRanks(keySizes, labels, sorted);
    assert |labels| == |keySizes| by {
      assert labels.Keys == keySizes.Keys;
    }
    r := GetLabels(labels);
    forall i | 0 <= i < |r|
      ensures r[i] == Some(sorted[i])
    {
      assert sorted[i] in labels && labels[sorted[i]] == i;
    }
  }

  /** `list.index`, with the `ValueError` of a missing element caught as
      None: the first position of `v` in `xs`. `JunctionTree.find_var` is
      this applied to the sorted label list. */
  function IndexOf(xs: seq<int>, v: int): (r: Option<nat>)
    ensures r.Some? ==> r.value < |xs| && xs[r.value] == v && v !in xs[..r.value]
    ensures r.None? <==> v !in xs
  {
    if xs == [] then None
    else if xs[0] == v then Some(0)
    else match IndexOf(xs[1..], v)
      case None => None
      case Some(i) =>
        assert xs[..i + 1] == [xs[0]] + xs[1..][..i];
        Some(i + 1)
  }

  /** `find_key`: the index of a label. A missing label raises `KeyError`
      (the handler only catches `ValueError`). */
  function FindKey(labels: map<int, nat>, k: int): (r: Result<nat>)
    ensures r.Success? <==> k in labels
    ensures r.Success? ==> r.value == labels[k]
    ensures r.Failure? ==> r.error == KeyError
  {
    if k in labels then Success(labels[k]) else Failure(KeyError)
  }

  /** On the label table of `keySizes`, `find_key` gives a known label an
      index below the label count that names the label back through the
      sorted list; an unknown label raises `KeyError`. */
  lemma FindKeyNamesLabel(keySizes: map<int, nat>, k: int)
    ensures var r := FindKey(Labels(keySizes), k);
      && (r.Success? <==> k in keySizes)
      && (r.Failure? ==> r.error == KeyError)
      && (r.Success? ==> r.value < |keySizes| && SortedLabels(keySizes.Keys)[r.value] == k)
  {
    LabelsAreRanks(keySizes, Labels(keySizes), SortedLabels(keySizes.Keys));
  }

  /** The older `find_var` and the newer `find_key` agree: a label's position
      in the sorted list is its index, and both report a missing label. */
  lemma FindKeyAgreesWithFindVar(keySizes: map<int, nat>, k: int)
    ensures IndexOf(SortedLabels(keySizes.Keys), k) ==
      if k in keySizes then Some(Labels(keySizes)[k]) else None
    ensures FindKey(Labels(keySizes), k).Success? <==> IndexOf(SortedLabels(keySizes.Keys), k).Some?
  {
    var sorted := SortedLabels(keySizes.Keys);
    LabelsAreRanks(keySizes, Labels(keySizes), sorted);
    var r := IndexOf(sorted, k);
    if r.Some? {
      var i := Labels(keySizes)[k];
      assert sorted[i] == k == sorted[r.value];
    }
  }

  /** A single label gets index 0. */
  lemma SingleLabel(k: int, size: nat)
    ensures SortedLabels({k}) == [k]
    ensures Labels(map[k := size]) == map[k := 0]
  {
    assert {k} - {k} == {};
    assert map[k := size].Keys == {k};
  }
}
