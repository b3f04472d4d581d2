# Junction tree bookkeeping, modelled in Dafny

This project models the discrete layer of a small Python junction-tree
library: the nested-list tree walks of `bp.py` and the index tables of the
`JunctionTree` class in `junction_tree.py`.

A junction tree is written in the library as `[id, keys, (sep_id, sep_keys, child_tree), ...]`.
Because `tuple[2:]` of a separator tuple is `(child_tree,)`, the walks treat
a separator as a node with exactly one child. Here both cliques and
separators are one rose-tree datatype, `Tree.Node(id, keys, kids)`.
`Tree.IsJunctionTree` says every clique's kids are single-kid separators.

The modules follow the source:

- `Tree` (tree.dfy): nodes, the pre-order and level-order reference
  orders, the emitted `id, keys` stream, and parent/child pairs.
- `Traverse` (traverse.dfy): `df_traverse` and `bf_traverse` as stack and
  queue loops with the early stop at a given id, `get_clique_keys`, and the
  key→node search `get_clique`.
- `KeyLabels` (labels.dfy): the rank of each label in sorted order
  (`labels`), its inverse `sorted_labels` (`_get_labels`), `find_key`, and
  the older `find_var`.
- `Junction` (junction.dfy): `map_keys`, and the constructor's tables
  `clique_keys`, `cliques_to_trees`, `tree_cliques` and `keys_to_cliques`.
  Also `get_key_ix`.
- `Potentials` (potentials.dfy): the shapes of the initial potentials and
  the rule that puts each factor into the first node that covers it
  (`init_potentials`).
- `Evidence` (evidence.dfy): the likelihood vectors and shrink mapping of
  `observe`, and the guards, the choice of node and axis, and the
  normalising constant of `marginalize`.
- `Wrappers` (wrappers.dfy): `Option`, and `Result` with the Python
  exception raised (`KeyError`, `ValueError`, `IndexError`,
  `NotImplementedError`, `RuntimeError`).

Python exceptions are `Failure` values, not preconditions, wherever the
source can raise them. Potential values stay abstract. A potential is its
shape plus the indices of the factors multiplied into it.

Where the code and the documentation disagree, the model follows the code:

- `find_key` is documented to return None for an unknown label. It reads
  `self.labels[key_label]`, which raises `KeyError`, and its handler
  catches only `ValueError`. `KeyLabels.FindKey` therefore fails with
  `KeyError`.
- `get_key_ix` does not catch that `KeyError`, nor the `KeyError` of an
  unknown node. It returns None only when the index is missing from the
  node's keys.

## Model

| member | source | states |
|---|---|---|
| Tree.PairsPerEdge | bp.py:408-410 | pairing every node of a tree in pre-order gives one tuple per edge: tuple `i` joins the `i`-th child met to the node it hangs from, every node but the root is met as a child exactly once, and there are size minus one tuples |
| Tree.EmitIdAndKeys | bp.py:404-406 | the `yield_id_and_keys` stream over nodes is twice as long as the node list, id at even and keys at odd positions |
| Tree.TraversalOrdersAgree | bp.py:413-443 | breadth-first and depth-first order visit the same nodes, each once, both starting at the root |
| Tree.LevelOrderPermutesPreOrder | bp.py:421-427 | level order is a permutation of pre-order over any forest |
| Traverse.DfWalk | bp.py:437-443 | the stack loop emits the pre-order stream up to and including the first node with the stop id, and reports whether it stopped |
| Traverse.DfTraverse | bp.py:429-443 | depth-first output is the pre-order stream, cut after the node with the stop id when there is one |
| Traverse.DfTraversePep479 | bp.py:438-442 | as run on Python 3.7 and later: `RuntimeError` exactly when the stop id is met, otherwise the full pre-order stream |
| Traverse.BfWalk | bp.py:421-427 | the FIFO loop emits the level-order stream up to and including the first node with the stop id, and reports whether it stopped |
| Traverse.BfTraverse | bp.py:413-427 | breadth-first output is the level-order stream, cut after the node with the stop id when there is one |
| Traverse.BfTraversePep479 | bp.py:422-426 | as run on Python 3.7 and later: `RuntimeError` exactly when the stop id is met, otherwise the full level-order stream |
| Traverse.UptoFirst | bp.py:416-419 | the stopped walk ends at the first node carrying the stop id |
| Traverse.EarlyStopEndsAtNode | bp.py:416-419 | a stopped stream ends with the stop node's id and keys, after two items per node visited |
| Traverse.FirstWithId | bp.py:445-452 | the first position in a walk holding a given id, or None exactly when no node has it |
| Traverse.GetCliqueKeys | bp.py:445-452 | None exactly when no node has the id; otherwise the keys of the first such node in level order, which with unique ids are that node's keys |
| Traverse.GetCliqueKeysPep479 | bp.py:451-452 | as run on Python 3.7 and later: `RuntimeError` when the id is present, None when it is absent, so keys are never returned |
| Traverse.FirstContaining | bp.py:324-340 | the id of the first node in a walk whose keys hold the key, or None exactly when no node holds it |
| Traverse.FirstContainingAppend | bp.py:332-338 | a search over two walks in turn finds the first walk's match if it has one, else the second's |
| Traverse.GetClique | bp.py:324-340 | the search as written: a key of the root gives the root's id; any id returned belongs to a node holding the key; a key held nowhere gives None |
| Traverse.GetCliqueFirstIsPreOrderFirst | bp.py:324-340 | with `is not None` in place of the truth test, the search returns the first node in pre-order holding the key |
| Traverse.GetCliqueAgreesWithoutZero | bp.py:336-338 | when no node below the root has id 0, the search as written and the corrected search agree |
| Traverse.LocatesCliqueOfKey | test_bp.py:465-468 | on `[0,[0,1],(1,[1],[2,[1,2]])]` key 2 is found in node 2 |
| Traverse.ZeroIdIsPassedOver | bp.py:336-338 | a key held only by a node with id 0 below the root is reported missing, where the first holder is node 0 |
| KeyLabels.SortedLabels | junction_tree.py:8 | the labels strictly ascending, each once, exactly the key-size labels |
| KeyLabels.LabelsAreRanks | junction_tree.py:8-9 | `labels` and `sorted_labels` are mutual inverses over the labels, every index is below the label count, and indices order as labels do |
| KeyLabels.GetLabels | junction_tree.py:94-103 | the slot list holds one slot per label; a slot is filled exactly when some label has that index, and slot `labels[k]` holds `k` |
| KeyLabels.GetLabelsSorted | junction_tree.py:94-103 | run on the constructor's `labels`, `_get_labels` fills every slot and slot `i` holds the `i`-th label in sorted order, so `sorted_labels` is the sorted key list |
| KeyLabels.IndexOf | bp.py:503-508 | the first position of the label, or None exactly when it is absent |
| KeyLabels.FindKeyNamesLabel | junction_tree.py:34-53 | on the label table, a known label's index is below the label count and names the label back through `sorted_labels`; an unknown label raises `KeyError` |
| KeyLabels.FindKeyAgreesWithFindVar | bp.py:500-508 | a label's position in the sorted list is its index: `find_var` and `find_key` agree, and both report a missing label |
| Junction.MapKeys | junction_tree.py:131-170 | `KeyError` exactly when some clique or separator key has no lookup entry; otherwise a tree of the same shape whose every node has the same id and its keys looked up |
| Junction.PreOrderRelabel | junction_tree.py:151-167 | relabelling commutes with the pre-order walk |
| Junction.RelabelKeepsShape | junction_tree.py:160-167 | relabelling keeps a junction tree a junction tree |
| Junction.RelabelRoundTrip | junction_tree.py:149-170 | relabelling with a lookup and then with its inverse gives back the original tree |
| Junction.LabelsRoundTrip | junction_tree.py:131-170 | relabelling with `labels` and back with `sorted_labels` gives back the caller's tree |
| Junction.Visits | junction_tree.py:15-21 | every visit is tagged with the position of an existing tree |
| Junction.AddKeysSpec | junction_tree.py:25-27 | after `setdefault` and `append`, each key's list gains the id once per occurrence of the key; keys present stay non-empty |
| Junction.RecordAllIds | junction_tree.py:19-23 | the recorded ids are exactly the visited ids; `clique_keys` order has no repeats and, with distinct ids, is the visit order |
| Junction.RecordAllLast | junction_tree.py:22-23 | the last visit of an id decides its recorded keys and tree |
| Junction.RecordAllTrees | junction_tree.py:24 | with one list per tree, entry `t` lists the ids visited in tree `t`, in order |
| Junction.RecordAllKeys | junction_tree.py:25-27 | each key lists one id per occurrence of the key in a visited node, in visit order; listed keys are non-empty |
| Junction.KeyIdsAreContainingIds | junction_tree.py:25-27 | when no node repeats a key, a key's list is the ids of the nodes holding it |
| Junction.ContainingIdsMembers | junction_tree.py:25-27 | an id is listed for a key exactly when a visited node with that id holds the key, and distinct ids give a list without repeats |
| Junction.RecordAllIndexed | junction_tree.py:15-27 | with distinct ids and keys, the recorded tables are mutually inverse: a node is listed for a key exactly when the node holds the key |
| Junction.Build | junction_tree.py:6-27 | `KeyError` exactly when some tree has a label without a size; otherwise one relabelled tree per input tree |
| Junction.BuildIndexes | junction_tree.py:8-27 | a built tree is indexed: inverse label tables, tables over label indices that are mutual inverses, and node order equal to visit order |
| Junction.BuildCliqueKeys | junction_tree.py:19-23 | every visited node's id maps to its relabelled keys and to the tree it came from |
| Junction.BuildTreeCliques | junction_tree.py:12-24 | with one list per tree, each tree lists its own nodes' ids in pre-order |
| Junction.BuildKeysToCliques | junction_tree.py:25-27 | each label's index lists, in visit order, the ids of the caller's nodes that hold the label |
| Junction.BuildAsWritten | junction_tree.py:15-18 | as written: only the empty forest builds; otherwise the first tree fails, with `IndexError` exactly when its labels all have sizes |
| Junction.SingleCliqueFailsAsWritten | junction_tree.py:18 | a one-node tree with a known label fails as written and builds when corrected |
| Junction.SharedAppends | junction_tree.py:12 | appending every visit to one shared list gives all visited ids |
| Junction.TreeCliquesAsWritten | junction_tree.py:12 | as written every tree's entry is the same list of all visited ids |
| Junction.TreeCliquesAlias | junction_tree.py:12 | with line 18 corrected, on two one-node trees the first entry as written is `[0, 1]`, where it should be `[0]` |
| Junction.GetKeyIx | junction_tree.py:55-77 | `KeyError` exactly when the node or the label is unknown; None exactly when the label's index is not among the node's keys; otherwise its first position there |
| Junction.GetKeyIxInverts | junction_tree.py:72-77 | on an indexed tree a position is found exactly when the node is listed for the label's index, and the key at that position names the label |
| Potentials.AxisSizes | junction_tree.py:235 | one axis per node key, each sized by the key size of the label with that index |
| Potentials.MapFactorNamesLabels | junction_tree.py:242 | `KeyError` exactly when a factor label has no size; otherwise each key index is below the label count and names the factor's label back through `sorted_labels` |
| Potentials.FirstCovering | junction_tree.py:244-257 | the first node in table order whose keys contain all the factor's keys, or None exactly when none does |
| Potentials.Placement | junction_tree.py:244-257 | the chosen node exists and covers the factor; None exactly when no node covers it |
| Potentials.PlacementIsFirst | junction_tree.py:244-257 | no node earlier in table order covers the factor |
| Potentials.Bucket | junction_tree.py:240-257 | one entry per node, listing in increasing order exactly the factors placed there |
| Potentials.PlacedStep | junction_tree.py:250-257 | placing factor `n` in one node adds it there and nowhere else |
| Potentials.InitPotentials | junction_tree.py:232-259 | `KeyError` exactly when a factor has an unknown label; otherwise one potential per node, shaped by its keys, with a factor in it exactly when that node is the factor's placement |
| Potentials.FactorPlacedOnce | junction_tree.py:244-257 | no factor is multiplied into two nodes |
| Potentials.FactorPlacedIffCovered | junction_tree.py:244-257 | a factor is used exactly when some node covers its keys, and is skipped otherwise |
| Potentials.FactorLabelsInNode | junction_tree.py:242-245 | every label of a placed factor is a key of the node it is placed in |
| Potentials.SlotCountAsWritten | junction_tree.py:224-226 | as written the list size comes from walking the list of trees as one tree: `IndexError` for fewer than two trees |
| Potentials.InitPotentialsAsWritten | junction_tree.py:224-235 | as written: `IndexError` for fewer than two trees; when it succeeds each node's slot holds the corrected potential |
| Potentials.OneNodeBuilds | junction_tree.py:6-27 | the example tree builds to the stated object |
| Potentials.OneNodeIndexed | junction_tree.py:6-27 | the example tree is indexed |
| Potentials.OneTreePotentialsFail | junction_tree.py:224-226 | with line 18 corrected, for one one-node tree the corrected potentials exist while the code as written raises `IndexError` |
| Evidence.LikelihoodMass | junction_tree.py:284-288 | an unobserved vector sums to the label's size; an observed one to 1 in range and to 0 out of range |
| Evidence.LikelihoodsMass | junction_tree.py:284-288 | every sorted label gets a vector, which sums to the label's size when unobserved, and to 1 or 0 as the observed value is in range or not |
| Evidence.Without | junction_tree.py:329-330 | the keys left are exactly those not removed, never more than before |
| Evidence.RemoveFirst | junction_tree.py:330 | `list.remove` drops the first occurrence of the value, keeping the other elements in order, and changes nothing when the value is absent |
| Evidence.RemoveFromWithout | junction_tree.py:329-330 | removing a key held once from the shrunk list equals filtering it out |
| Evidence.ShrunkAbsent | junction_tree.py:329-334 | observing a key a node does not hold leaves its entry unchanged |
| Evidence.ShrunkPresent | junction_tree.py:330-334 | observing a key a node holds once removes it from the shrunk keys and pins its axis to the value |
| Evidence.FullEntry | junction_tree.py:292-298 | the starting entry, full slices over the node's keys, is the entry with nothing observed |
| Evidence.InitialEntries | junction_tree.py:292-298 | with aligned potentials, every starting entry is the entry with nothing observed |
| Evidence.ObserveOne | junction_tree.py:302-304 | observing one more label extends the observed indices by that label's index |
| Evidence.ListedNodes | junction_tree.py:329-333 | for every index, the nodes listed for it are distinct, have a potential, hold the index once, and are the only nodes holding it |
| Evidence.ShrinkStep | junction_tree.py:329-334 | shrinking one listed node turns its entry into the entry with the new index observed and leaves every other entry alone |
| Evidence.ShrinkNodes | junction_tree.py:329-334 | after the inner loop every entry is the node's entry with the new index observed |
| Evidence.ObserveAll | junction_tree.py:302-334 | `KeyError` exactly when an observed label has no index or no node; otherwise every entry is the node's entry with all observed indices applied |
| Evidence.ShrinkMapping | junction_tree.py:292-338 | `KeyError` exactly when an observed label has no index or no node; otherwise per node an axis is pinned exactly when its label was observed, to that value, and the node's other keys remain in order |
| Evidence.ShrunkMeaning | junction_tree.py:292-334 | read per axis, a shrink entry pins exactly the axes of observed labels and keeps exactly the unobserved keys |
| Evidence.LastIndexOf | junction_tree.py:411-415 | the position a rebuilt `{key: position}` dictionary keeps: the last occurrence, or None exactly when absent |
| Evidence.MarginalTarget | junction_tree.py:397-422 | more than one label raises `NotImplementedError` first; a label without a size raises `ValueError`; no labels raise `IndexError`; success sums over the first node listed for the label's index at an axis holding that index |
| Evidence.MarginalTargetIndexed | junction_tree.py:405-407 | on an indexed tree a known label fails only with `KeyError` when no node holds its index, and otherwise uses the first node listed |
| Evidence.MarginalizesFirstHolder | junction_tree.py:405-407 | on a built tree the node summed over is the first node, in depth-first visit order, holding the label, and failure means no node holds it |
| Evidence.SumScale | junction_tree.py:431 | dividing every entry by a non-zero constant divides the sum by it |
| Evidence.Normalized | junction_tree.py:427-431 | unchanged unless normalising a non-zero total; then every entry is divided by the total, and the result sums to 1 |

## Left out

- The triangulation, spanning-tree, initialise, collect, distribute and Hugin functions of `bp.py` (lines 122-322): they are stubs without behaviour.
- `eliminate_variables`, `compute_marginal`, `project` and `absorb` (bp.py:203-351): they are `np.einsum` tensor arithmetic on floats.
- The factor products of `init_potentials` and the likelihood products of `observe`: these are tensor numerics too. A potential carries its shape and the indices of its factors instead.
- The node search of `observe` (junction_tree.py:305-310): it calls `bp.get_clique_of_key`, which `bp.py` does not define. With the constructor corrected, a known label on a non-empty forest raises `AttributeError` there. An unknown label raises `KeyError` earlier, at junction_tree.py:304. On an empty forest the loop never binds `clique_keys`, and line 315 raises `UnboundLocalError`. The model follows the evidently intended path.
- The `compute_marginal` call of `marginalize` and its `ValueError` handler returning 0.0: these are numeric.
- Evidence.Normalized: divides over exact reals, so floating-point rounding is not modelled.
- `from_factor_graph` and `propagate` (junction_tree.py:174-202, 342-376): they call functions that are missing or take other arguments.
- `bp.JunctionTree.get_clique`, `get_clique_of_var` and `get_var_idx`, and `bp.observe` (bp.py:353-370, 510-555): they use undefined names or recurse with the wrong arguments.
- `SumProduct.update`: it uses undefined names.
- The first `generate_potential_pairs` (bp.py:372-402): it is shadowed by the later one, which returns an empty list.
- The getters of `JunctionTree`: they only read fields. `get_clique_sepset` reads a field the constructor never sets.
- The `separators == ()` leaf test of `get_clique`: for list trees it is always false. The loop over no separators then returns None all the same.
- Junction.Build: requires every tree to be well formed (`Tree.IsJunctionTree`). The unpacking errors of malformed lists are not modelled.
- Junction.MapKeys: requires a well-formed tree, for the same reason. It also treats every key list as its own: `copy.deepcopy` keeps lists that the input shares, and `keys[i] = lookup[k]` rewrites them in place, so a list shared by two nodes is looked up twice. On `ks = [7]; [0, ks, (1, ks, [2, ks])]` with `{7: 0}` the second pass raises `KeyError`, where the model succeeds.
- Traverse.GetClique: requires a well-formed tree (`Tree.IsJunctionTree`). The unpacking errors of a malformed separator are not modelled.
- Potentials.InitPotentials: requires the constructor's invariant (`Junction.Indexed`). It returns potentials keyed by node id; the list as written is `Potentials.InitPotentialsAsWritten`.
- Potentials.AxisSizes: requires the constructor's invariant, under which every node key is a label index.
- Potentials.OneTreePotentialsFail: states which nodes get a potential, not the shape of the potential.
- Evidence.Likelihoods: requires every sorted label to have a size, which the constructor guarantees. The `KeyError` otherwise is not modelled.
- Evidence.ShrinkMapping: requires the constructor's invariant and a potentials list aligned with the node table. The errors of a list that is not aligned are not modelled. A list longer than the node table raises `KeyError` at `self.clique_keys[i]` (junction_tree.py:295). A node id beyond the list raises `IndexError` at `shrink_mapping[clique_ix]` (junction_tree.py:330). A potential with fewer axes than its node has keys raises `IndexError` at line 334. The `ValueError` of `.remove` (junction_tree.py:330) comes from a node id shared by two visited nodes: `clique_keys[id]` keeps only the keys of the last visit (junction_tree.py:22), while `keys_to_cliques` lists the id under the keys of both. For example, `[0, [a], (0, [b], [1, [b]])]` observing `a` removes `a` from a key list that no longer holds it. A node that repeats a key is listed twice under that key (junction_tree.py:26); both removals succeed, and line 334 pins the first matching axis twice and leaves the second one free. The model excludes both inputs through the constructor's invariant (`Indexed`: distinct node ids and duplicate-free key lists). `data` is processed in an arbitrary order, and the contract shows the result does not depend on it.
- Evidence.MarginalTarget: gives the node and axis summed over, not the marginal itself.

## Findings

| source | as written | input that shows it | evidently intended | confidence | as-written member | corrected member |
|---|---|---|---|---|---|---|
| junction_tree.py:18 | `bp.df_traverse([indexed_tree])` walks a one-element list as a tree, whose `tree[1]` raises `IndexError` | `JunctionTree({7: 2}, [[0, [7]]])` | walk `indexed_tree` itself | high, not executed | Junction.BuildAsWritten | Junction.BuildIndexes |
| junction_tree.py:12 | `[[]]*len(trees)` makes every `tree_cliques` entry one shared list | latent behind the line-18 `IndexError`, which stops the constructor at the first tree; once line 18 is corrected, two trees `[0, [1]]` and `[1, [2]]` leave entry 0 as `[0, 1]` | one fresh list per tree | high, not executed | Junction.TreeCliquesAlias | Junction.BuildTreeCliques |
| bp.py:441-442 | `raise StopIteration` inside a generator becomes `RuntimeError` from Python 3.7 (PEP 479) | `df_traverse([0, [1]], 0)` | `return` at the stop node | medium (depends on the Python version), not executed | Traverse.DfTraversePep479 | Traverse.DfTraverse |
| bp.py:425-426 | the same `raise StopIteration` in the breadth-first walk | `bf_traverse([0, [1]], 0)` | `return` at the stop node | medium (depends on the Python version), not executed | Traverse.BfTraversePep479 | Traverse.BfTraverse |
| bp.py:451-452 | `get_clique_keys` therefore never returns keys: a present id raises `RuntimeError` | `get_clique_keys([0, [1]], 0)` | `[1]` | medium (depends on the Python version), not executed | Traverse.GetCliqueKeysPep479 | Traverse.GetCliqueKeys |
| junction_tree.py:224-226 | the potentials list is sized by walking `get_struct()`, a list of trees, as if it were one tree | latent behind the line-18 `IndexError`, since as written no non-empty forest builds; once line 18 is corrected, one tree `[0, [7]]` with sizes `{7: 2}` makes `tree[1]` of the one-element list raise `IndexError` | one slot per node id | high, not executed | Potentials.OneTreePotentialsFail | Potentials.InitPotentials |
| bp.py:336-338 | `if clique_idx:` takes a found id 0 for "not found" | `get_clique([5, [1], (3, [2], [0, [7]])], 7)` returns None | `if clique_idx is not None:` | high, not executed | Traverse.ZeroIdIsPassedOver | Traverse.GetCliqueFirstIsPreOrderFirst |
