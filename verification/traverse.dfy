/**
 The traversals and lookups over one junction tree: breadth-first and
 depth-first traversal with an optional early stop, key -> node search,
 and id -> keys lookup.
 */
module Traverse {
  import opened Wrappers
  import opened Tree

  // ---------------------------------------------------------------------------
  // Depth-first traversal

  /** The nodes a stack still has to produce, top (last element) first. */
  ghost function DfPending(stack: seq<Node>): seq<Node>
  {
    PreOrderOf(Reverse(stack))
  }

  lemma DfPendingStart(t: Node)
    ensures DfPending([t]) == PreOrder(t)
  {
    assert Reverse([t]) == [t] by {
      assert [t][..0] == [];
    }
    PreOrderOfSingle(t);
  }

  /** Popping the top node and pushing its children reversed leaves the
      remaining pre-order unchanged. */
  lemma DfPendingPop(stack: seq<Node>)
    requires stack != []
    ensures var n := stack[|stack| - 1];
      DfPending(stack) == [n] + DfPending(stack[..|stack| - 1] + Reverse(n.kids))
  {
    var n := stack[|stack| - 1];
    var rest := stack[..|stack| - 1];
    assert Reverse(stack) == [n] + Reverse(rest);
    PreOrderOfAppend([n], Reverse(rest));
    PreOrderOfSingle(n);
    ReverseAppend(rest, Reverse(n.kids));
    ReverseReverse(n.kids);
    PreOrderOfAppend(n.kids, Reverse(rest));
  }

  lemma EmitSnoc<T>(xs: seq<Node>, n: Node, f: Node -> seq<T>)
    ensures Emit(xs + [n], f) == Emit(xs, f) + f(n)
  {
    EmitAppend(xs, [n], f);
    assert Emit([n], f) == f(n) by {
      assert [n][1..] == [];
    }
  }

  /** Once the pending order starts with a node carrying the stop id, the
      cut-off order is what has been visited plus that node. */
  lemma StopHere(xs: seq<Node>, visited: seq<Node>, n: Node, rest: seq<Node>, stop: Option<nat>)
    requires xs == visited + [n] + rest
    requires Unstopped(visited, stop) && stop == Some(n.id)
    ensures Upto(xs, stop) == visited + [n]
    ensures !Unstopped(xs, stop)
  {
    assert xs == visited + ([n] + rest);
    UptoAppend(visited, [n] + rest, stop);
    assert xs[|visited|] == n;
  }

  /** One step of either walk: the next pending node joins the visited
      prefix, and the walk either stops there or keeps going unstopped. */
  lemma Advance(order: seq<Node>, visited: seq<Node>, n: Node, rest: seq<Node>, stop: Option<nat>)
    requires order == visited + [n] + rest && Unstopped(visited, stop)
    ensures (visited + [n]) + rest == order && |visited| < |order|
    ensures stop != Some(n.id) ==> Unstopped(visited + [n], stop)
    ensures stop == Some(n.id) ==> Upto(order, stop) == visited + [n] && !Unstopped(order, stop)
  {
    if stop == Some(n.id) {
      StopHere(order, visited, n, rest, stop);
    } else {
      forall i | 0 <= i < |visited| + 1 ensures stop != Some((visited + [n])[i].id) {
        if i < |visited| {
          assert (visited + [n])[i] == visited[i];
        }
      }
    }
  }

  /** One turn of the stack loop, as `Advance` states it for the stack's
      pending order. */
  lemma DfStep(order: seq<Node>, visited: seq<Node>, stack: seq<Node>, stop: Option<nat>)
    requires stack != [] && visited + DfPending(stack) == order && Unstopped(visited, stop)
    ensures var n := stack[|stack| - 1]; var next := stack[..|stack| - 1] + Reverse(n.kids);
      && (visited + [n]) + DfPending(next) == order
      && |visited| < |order|
      && (stop != Some(n.id) ==> Unstopped(visited + [n], stop))
      && (stop == Some(n.id) ==> Upto(order, stop) == visited + [n] && !Unstopped(order, stop))
  {
    var n := stack[|stack| - 1];
    DfPendingPop(stack);
    Advance(order, visited, n, DfPending(stack[..|stack| - 1] + Reverse(n.kids)), stop);
  }

  /** The stack loop of `df_traverse`: pop the last node, emit `f` of it,
      stop after the node whose id is `stop`, otherwise push its children
      reversed. `stopped` tells whether the early stop fired. */
  method DfWalk<T>(t: Node, stop: Option<nat>, f: Node -> seq<T>) returns (out: seq<T>, stopped: bool)
    ensures out == Emit(Upto(PreOrder(t), stop), f)
    ensures stopped <==> !Unstopped(PreOrder(t), stop)
  {
    ghost var order := PreOrder(t);
    var stack := [t];
    out := [];
    stopped := false;
    ghost var visited: seq<Node> := [];
    DfPendingStart(t);
    while stack != []
      invariant visited + DfPending(stack) == order
      invariant Unstopped(visited, stop)
      invariant out == Emit(visited, f)
      decreases |order| - |visited|
    {
      var n := stack[|stack| - 1];
      var next := stack[..|stack| - 1] + Reverse(n.kids);
      DfStep(order, visited, stack, stop);
      EmitSnoc(visited, n, f);
      out := out + f(n);
      visited := visited + [n];
      if stop == Some(n.id) {
        stopped := true;
        return;
      }
      stack := next;
    }
    assert DfPending([]) == [] by {
      assert Reverse<Node>([]) == [];
    }
    assert visited == order;
    UptoUnstopped(visited, stop);
  }

  /** `df_traverse` as documented: pre-order, children left to right,
      ending with the node whose id is `stop` when there is one. */
  method DfTraverse<T>(t: Node, stop: Option<nat>, f: Node -> seq<T>) returns (out: seq<T>)
    ensures out == Emit(Upto(PreOrder(t), stop), f)
  {
    var stopped;
    out, stopped := DfWalk(t, stop, f);
  }

  /** `df_traverse` as executed by Python 3.7 and later: the `StopIteration`
      raised inside the generator turns into a `RuntimeError` (PEP 479). */
  method DfTraversePep479<T>(t: Node, stop: Option<nat>, f: Node -> seq<T>) returns (r: Result<seq<T>>)
    ensures r.Failure? <==> !Unstopped(PreOrder(t), stop)
    ensures r.Failure? ==> r.error == RuntimeError
    ensures r.Success? ==> r.value == Emit(PreOrder(t), f)
  {
    var out, stopped := DfWalk(t, stop, f);
    if stopped {
      r := Failure(RuntimeError);
    } else {
      UptoUnstopped(PreOrder(t), stop);
      r := Success(out);
    }
  }

  // ---------------------------------------------------------------------------
  // Breadth-first traversal

  /** The nodes a queue still has to produce when its first `r` entries are
      the unvisited rest of one level and the others are children already
      discovered below that level. */
  ghost function BfPending(queue: seq<Node>, r: nat): seq<Node>
    requires r <= |queue|
  {
    queue[..r] + LevelOrder(queue[r..] + Children(queue[..r]))
  }

  lemma BfPendingStart(t: Node)
    ensures BfPending([t], 1) == LevelOrder([t])
  {
    assert Children([t]) == t.kids by {
      assert [t][1..] == [];
    }
    assert [t][1..] + Children([t]) == t.kids;
    assert [t][..1] == [t];
    LevelOrderOfLevel([t]);
  }

  /** A queue holding only discovered children is itself a full level. */
  lemma BfPendingResplit(queue: seq<Node>)
    requires queue != []
    ensures BfPending(queue, 0) == BfPending(queue, |queue|)
  {
    assert queue[..0] == [] && queue[0..] == queue && queue[..|queue|] == queue;
    assert queue[|queue|..] + Children(queue) == Children(queue);
    assert queue[0..] + Children(queue[..0]) == queue;
  }

  /** Popping the front node and appending its children leaves the
      remaining level order unchanged. */
  lemma BfPendingPop(queue: seq<Node>, r: nat)
    requires 1 <= r <= |queue|
    ensures var q := queue[1..] + queue[0].kids;
      r - 1 <= |q| && BfPending(queue, r) == [queue[0]] + BfPending(q, r - 1)
  {
    var n := queue[0];
    var q := queue[1..] + n.kids;
    var level := queue[..r];
    assert level[1..] == queue[1..r] == q[..r - 1];
    assert Children(level) == n.kids + Children(queue[1..r]);
    assert q[r - 1..] == queue[r..] + n.kids;
    assert level == [n] + queue[1..r];
    assert queue[r..] + Children(level) == q[r - 1..] + Children(q[..r - 1]);
  }

  /** One turn of the queue loop, as `Advance` states it for the queue's
      pending order. */
  lemma BfStep(order: seq<Node>, visited: seq<Node>, queue: seq<Node>, r: nat, stop: Option<nat>)
    requires 1 <= r <= |queue| && visited + BfPending(queue, r) == order && Unstopped(visited, stop)
    ensures var n := queue[0]; var q := queue[1..] + n.kids;
      && r - 1 <= |q|
      && (visited + [n]) + BfPending(q, r - 1) == order
      && |visited| < |order|
      && (stop != Some(n.id) ==> Unstopped(visited + [n], stop))
      && (stop == Some(n.id) ==> Upto(order, stop) == visited + [n] && !Unstopped(order, stop))
  {
    var n := queue[0];
    var q := queue[1..] + n.kids;
    BfPendingPop(queue, r);
    Advance(order, visited, n, BfPending(q, r - 1), stop);
  }

  /** The queue loop of `bf_traverse`: pop the first node, emit `f` of it,
      stop after the node whose id is `stop`, otherwise append its children. */
  method BfWalk<T>(t: Node, stop: Option<nat>, f: Node -> seq<T>) returns (out: seq<T>, stopped: bool)
    ensures out == Emit(Upto(LevelOrder([t]), stop), f)
    ensures stopped <==> !Unstopped(LevelOrder([t]), stop)
  {
    ghost var order := LevelOrder([t]);
    var queue := [t];
    out := [];
    stopped := false;
    ghost var visited: seq<Node> := [];
    ghost var r: nat := 1;
    BfPendingStart(t);
    while queue != []
      invariant r <= |queue|
      invariant visited + BfPending(queue, r) == order
      invariant Unstopped(visited, stop)
      invariant out == Emit(visited, f)
      decreases |order| - |visited|
    {
      if r == 0 {
        BfPendingResplit(queue);
        r := |queue|;
      }
      var n := queue[0];
      var q := queue[1..] + n.kids;
      BfStep(order, visited, queue, r, stop);
      EmitSnoc(visited, n, f);
      out := out + f(n);
      visited := visited + [n];
      if stop == Some(n.id) {
        stopped := true;
        return;
      }
      queue := q;
      r := r - 1;
    }
    assert BfPending(queue, r) == [] by {
      assert queue[..r] == [] && queue[r..] == [] && Children([]) == [];
    }
    assert visited == order;
    UptoUnstopped(visited, stop);
  }

  /** `bf_traverse` as documented: level order, ending with the node whose
      id is `stop` when there is one. */
  method BfTraverse<T>(t: Node, stop: Option<nat>, f: Node -> seq<T>) returns (out: seq<T>)
    ensures out == Emit(Upto(LevelOrder([t]), stop), f)
  {
    var stopped;
    out, stopped := BfWalk(t, stop, f);
  }

  /** `bf_traverse` as executed by Python 3.7 and later (PEP 479). */
  method BfTraversePep479<T>(t: Node, stop: Option<nat>, f: Node -> seq<T>) returns (r: Result<seq<T>>)
    ensures r.Failure? <==> !Unstopped(LevelOrder([t]), stop)
    ensures r.Failure? ==> r.error == RuntimeError
    ensures r.Success? ==> r.value == Emit(LevelOrder([t]), f)
  {
    var out, stopped := BfWalk(t, stop, f);
    if stopped {
      r := Failure(RuntimeError);
    } else {
      UptoUnstopped(LevelOrder([t]), stop);
      r := Success(out);
    }
  }

  // ---------------------------------------------------------------------------
  // Early stop

  /** Cutting at the first node with the stop id keeps exactly the prefix
      through that node. */
  lemma {:induction false} UptoFirst(xs: seq<Node>, stop: Option<nat>, i: nat)
    requires i < |xs| && stop == Some(xs[i].id) && Unstopped(xs[..i], stop)
    ensures Upto(xs, stop) == xs[..i + 1]
  {
    assert xs == xs[..i] + xs[i..];
    UptoAppend(xs[..i], xs[i..], stop);
    assert xs[..i + 1] == xs[..i] + [xs[i]];
  }

  /** When some node carries the stop id, a traversal's output ends with
      that node's id and keys, and no node before it carries the id. */
  lemma EarlyStopEndsAtNode(xs: seq<Node>, c: nat, i: nat)
    requires i < |xs| && xs[i].id == c && Unstopped(xs[..i], Some(c))
    ensures var out := Emit(Upto(xs, Some(c)), IdAndKeys);
      |out| == 2 * (i + 1) &&
      out[|out| - 2] == Id(c) && out[|out| - 1] == Keys(xs[i].keys)
  {
    UptoFirst(xs, Some(c), i);
    EmitIdAndKeys(xs[..i + 1]);
  }

  /** The first node of `xs` carrying id `c`, if any. */
  function FirstWithId(xs: seq<Node>, c: nat): (r: Option<nat>)
    ensures r.Some? ==> r.value < |xs| && xs[r.value].id == c && Unstopped(xs[..r.value], Some(c))
    ensures r.None? <==> Unstopped(xs, Some(c))
  {
    if xs == [] then None
    else if xs[0].id == c then Some(0)
    else match FirstWithId(xs[1..], c)
      case None => None
      case Some(i) =>
        assert xs[..i + 1] == [xs[0]] + xs[1..][..i];
        Some(i + 1)
  }

  // ---------------------------------------------------------------------------
  // Id -> keys lookup

  /** `get_clique_keys`: breadth-first traversal stopping at `c`; the keys of
      the last node emitted when its id is `c`, None otherwise. The result is
      the key list of the first node with id `c` in level order. */
  method GetCliqueKeys(t: Node, c: nat) returns (r: Option<seq<int>>)
    ensures r.None? <==> Unstopped(LevelOrder([t]), Some(c))
    ensures r.Some? ==> FirstWithId(LevelOrder([t]), c).Some? &&
                        r.value == LevelOrder([t])[FirstWithId(LevelOrder([t]), c).value].keys
    ensures UniqueIds(LevelOrder([t])) ==>
              (forall i :: 0 <= i < |LevelOrder([t])| && LevelOrder([t])[i].id == c ==>
                             r == Some(LevelOrder([t])[i].keys))
  {
    var flist := BfTraverse(t, Some(c), IdAndKeys);
    ghost var xs := LevelOrder([t]);
    TraversalOrdersAgree(t);
    StopOutput(xs, c);
    r := if flist[|flist| - 2] == Id(c) then Some(flist[|flist| - 1].keys) else None;
    if UniqueIds(xs) {
      forall i | 0 <= i < |xs| && xs[i].id == c ensures r == Some(xs[i].keys) {
        FirstWithIdUnique(xs, c, i);
      }
    }
  }

  /** The last two items of a stopping `IdAndKeys` traversal are the id and
      keys of the stop node when there is one; otherwise the last id is not
      the stop id. */
  lemma StopOutput(xs: seq<Node>, c: nat)
    requires xs != []
    ensures var out := Emit(Upto(xs, Some(c)), IdAndKeys);
      && |out| >= 2
      && (out[|out| - 2] == Id(c) <==> FirstWithId(xs, c).Some?)
      && (FirstWithId(xs, c).Some? ==> out[|out| - 1] == Keys(xs[FirstWithId(xs, c).value].keys))
  {
    match FirstWithId(xs, c) {
      case Some(i) =>
        EarlyStopEndsAtNode(xs, c, i);
      case None =>
        UptoUnstopped(xs, Some(c));
        EmitIdAndKeys(xs);
        assert Emit(xs, IdAndKeys)[2 * (|xs| - 1)] == Id(xs[|xs| - 1].id);
    }
  }

  /** With unique ids, the first node carrying an id is the node carrying it. */
  lemma FirstWithIdUnique(xs: seq<Node>, c: nat, i: nat)
    requires UniqueIds(xs) && i < |xs| && xs[i].id == c
    ensures FirstWithId(xs, c) == Some(i)
  {
    var r := FirstWithId(xs, c);
    assert r.Some? by {
      assert !Unstopped(xs, Some(c));
    }
  }

  /** `get_clique_keys` under PEP 479: whenever the id is present the early
      stop raises `RuntimeError`, so no key list is ever returned. */
  method GetCliqueKeysPep479(t: Node, c: nat) returns (r: Result<Option<seq<int>>>)
    ensures r.Failure? <==> !Unstopped(LevelOrder([t]), Some(c))
    ensures r.Failure? ==> r.error == RuntimeError
    ensures r.Success? ==> r.value == None
  {
    var flist := BfTraversePep479(t, Some(c), IdAndKeys);
    if flist.Failure? {
      return Failure(flist.error);
    }
    ghost var xs := LevelOrder([t]);
    TraversalOrdersAgree(t);
    EmitIdAndKeys(xs);
    assert flist.value[2 * (|xs| - 1)] == Id(xs[|xs| - 1].id);
    var items := flist.value;
    var last := items[|items| - 1];
    r := Success(if items[|items| - 2] == Id(c) then
                   match last case Keys(ks) => Some(ks) case Id(_) => None
                 else None);
  }

  // ---------------------------------------------------------------------------
  // Key -> node search

  /** The id of the first node of `xs` whose key list contains `k`. */
  function FirstContaining(xs: seq<Node>, k: int): (r: Option<nat>)
    ensures r.Some? ==>
              (exists i :: 0 <= i < |xs| && xs[i].id == r.value && k in xs[i].keys &&
                           forall j :: 0 <= j < i ==> k !in xs[j].keys)
    ensures r.None? <==> forall i :: 0 <= i < |xs| ==> k !in xs[i].keys
  {
    if xs == [] then None
    else if k in xs[0].keys then Some(xs[0].id)
    else
      var r := FirstContaining(xs[1..], k);
      assert forall i :: 1 <= i < |xs| ==> xs[i] == xs[1..][i - 1];
      r
  }

  /** `get_clique` as written: the root's id when `k` is among its keys;
      otherwise, separator by separator, the separator's id when `k` is among
      its keys, else the subtree's answer -- except that a subtree answer of
      id 0 is falsy in `if clique_idx:` and is passed over. */
  function GetClique(t: Node, k: int): (r: Option<nat>)
    requires IsJunctionTree(t)
    ensures k in t.keys ==> r == Some(t.id)
    ensures r.Some? ==> HasNodeWithKey(PreOrder(t), r.value, k)
    ensures (forall n :: n in PreOrder(t) ==> k !in n.keys) ==> r == None
    decreases t, 1
  {
    assert PreOrder(t) == [t] + PreOrderOf(t.kids);
    if k in t.keys then
      Some(t.id)
    else
      var r := ScanSeparators(t.kids, k);
      assert r.Some? ==> HasNodeWithKey(PreOrder(t), r.value, k) by {
        if r.Some? {
          var n :| n in PreOrderOf(t.kids) && n.id == r.value && k in n.keys;
          assert n in PreOrder(t);
        }
      }
      r
  }

  function ScanSeparators(seps: seq<Node>, k: int): (r: Option<nat>)
    requires forall i :: 0 <= i < |seps| ==> |seps[i].kids| == 1 && IsJunctionTree(seps[i].kids[0])
    ensures r.Some? ==> HasNodeWithKey(PreOrderOf(seps), r.value, k)
    decreases seps, 0
  {
    if seps == [] then None
    else
      var sep, child := seps[0], seps[0].kids[0];
      SeparatorPreOrder(sep);
      assert PreOrderOf(seps) == [sep] + PreOrder(child) + PreOrderOf(seps[1..]);
      if k in sep.keys then
        assert sep in PreOrderOf(seps);
        Some(sep.id)
      else
        var sub := GetClique(child, k);
        if sub.Some? && sub.value != 0 then
          var n :| n in PreOrder(child) && n.id == sub.value && k in n.keys;
          assert n in PreOrderOf(seps);
          sub
        else
          var rest := ScanSeparators(seps[1..], k);
          assert rest.Some? ==> HasNodeWithKey(PreOrderOf(seps), rest.value, k) by {
            if rest.Some? {
              var n :| n in PreOrderOf(seps[1..]) && n.id == rest.value && k in n.keys;
              assert n in PreOrderOf(seps);
            }
          }
          rest
  }

  /** `get_clique` with the evidently intended test `is not None`. */
  function GetCliqueFirst(t: Node, k: int): Option<nat>
    requires IsJunctionTree(t)
    decreases t, 1
  {
    if k in t.keys then Some(t.id) else ScanSeparatorsFirst(t.kids, k)
  }

  function ScanSeparatorsFirst(seps: seq<Node>, k: int): Option<nat>
    requires forall i :: 0 <= i < |seps| ==> |seps[i].kids| == 1 && IsJunctionTree(seps[i].kids[0])
    decreases seps, 0
  {
    if seps == [] then None
    else if k in seps[0].keys then Some(seps[0].id)
    else
      var sub := GetCliqueFirst(seps[0].kids[0], k);
      if sub.Some? then sub else ScanSeparatorsFirst(seps[1..], k)
  }

  // ---------------------------------------------------------------------------
  // Properties of the key -> node search

  /** Some node of `xs` has id `i` and `k` among its keys. */
  predicate HasNodeWithKey(xs: seq<Node>, i: nat, k: int)
  {
    exists n :: n in xs && n.id == i && k in n.keys
  }

  lemma {:induction false} FirstContainingAppend(a: seq<Node>, b: seq<Node>, k: int)
    ensures FirstContaining(a + b, k) ==
      if FirstContaining(a, k).Some? then FirstContaining(a, k) else FirstContaining(b, k)
    decreases |a|
  {
    if a == [] {
      assert a + b == b;
    } else {
      assert (a + b)[1..] == a[1..] + b;
      FirstContainingAppend(a[1..], b, k);
    }
  }

  /** A separator's pre-order is the separator, then its one subtree. */
  lemma SeparatorPreOrder(sep: Node)
    requires |sep.kids| == 1
    ensures PreOrder(sep) == [sep] + PreOrder(sep.kids[0])
  {
    assert sep.kids == [sep.kids[0]];
    PreOrderOfSingle(sep.kids[0]);
  }

  /** With `is not None`, the search returns the first node in depth-first
      pre-order whose keys contain `k`: a separator is examined before the
      subtree below it, and earlier siblings before later ones. */
  lemma {:induction false} GetCliqueFirstIsPreOrderFirst(t: Node, k: int)
    requires IsJunctionTree(t)
    ensures GetCliqueFirst(t, k) == FirstContaining(PreOrder(t), k)
    decreases t, 1
  {
    ScanFirstIsPreOrderFirst(t.kids, k);
    FirstContainingAppend([t], PreOrderOf(t.kids), k);
  }

  lemma {:induction false} ScanFirstIsPreOrderFirst(seps: seq<Node>, k: int)
    requires forall i :: 0 <= i < |seps| ==> |seps[i].kids| == 1 && IsJunctionTree(seps[i].kids[0])
    ensures ScanSeparatorsFirst(seps, k) == FirstContaining(PreOrderOf(seps), k)
    decreases seps, 0
  {
    if seps != [] {
      var sep := seps[0];
      var child := sep.kids[0];
      GetCliqueFirstIsPreOrderFirst(child, k);
      ScanFirstIsPreOrderFirst(seps[1..], k);
      SeparatorPreOrder(sep);
      FirstContainingAppend([sep], PreOrder(child), k);
      FirstContainingAppend(PreOrder(sep), PreOrderOf(seps[1..]), k);
    }
  }

  /** When no node below the root has id 0, the falsy-zero test never fires
      and the search as written agrees with the intended one. */
  lemma {:induction false} GetCliqueAgreesWithoutZero(t: Node, k: int)
    requires IsJunctionTree(t)
    requires forall n :: n in PreOrderOf(t.kids) ==> n.id != 0
    ensures GetClique(t, k) == GetCliqueFirst(t, k)
    decreases t, 1
  {
    ScanAgreesWithoutZero(t.kids, k);
  }

  lemma {:induction false} ScanAgreesWithoutZero(seps: seq<Node>, k: int)
    requires forall i :: 0 <= i < |seps| ==> |seps[i].kids| == 1 && IsJunctionTree(seps[i].kids[0])
    requires forall n :: n in PreOrderOf(seps) ==> n.id != 0
    ensures ScanSeparators(seps, k) == ScanSeparatorsFirst(seps, k)
    decreases seps, 0
  {
    if seps != [] {
      var sep := seps[0];
      var child := sep.kids[0];
      SeparatorPreOrder(sep);
      assert PreOrderOf(seps) == [sep] + PreOrder(child) + PreOrderOf(seps[1..]);
      assert forall n :: n in PreOrderOf(child.kids) ==> n in PreOrder(child);
      GetCliqueAgreesWithoutZero(child, k);
      ScanAgreesWithoutZero(seps[1..], k);
      if GetClique(child, k).Some? {
        var n :| n in PreOrder(child) && n.id == GetClique(child, k).value && k in n.keys;
        assert n in PreOrderOf(seps);
      }
    }
  }

  /** The library's own example: in `[0, [0, 1], (1, [1], [2, [1, 2]])]`
      key 2 is found in clique 2. */
  lemma LocatesCliqueOfKey()
    ensures GetClique(Node(0, [0, 1], [Node(1, [1], [Node(2, [1, 2], [])])]), 2) == Some(2)
  {
  }

  /** `[5, [1], (3, [2], [0, [7]])]`: key 7 sits only in clique 0, which the
      search as written reports as absent. */
  lemma ZeroIdIsPassedOver()
    ensures var t := Node(5, [1], [Node(3, [2], [Node(0, [7], [])])]);
      IsJunctionTree(t) && GetClique(t, 7) == None && GetCliqueFirst(t, 7) == Some(0)
  {
  }
}
