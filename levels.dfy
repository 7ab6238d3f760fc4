/**
 * Depths in a widget forest. A search starts from the roots at depth 0;
 * what a widget contains sits one level deeper. `BfsLevels` is the search
 * walk with each widget's depth carried along, `DfsLevels` an independent
 * depth-first enumeration of every widget of the forest with its depth. The
 * walk is proved to list exactly the widgets `BfsQ` lists, to be a
 * permutation of the enumeration, and to be in non-decreasing depth: the
 * first widget a search stops at is a shallowest one.
 */
module Levels {
  import opened Toolkit
  import opened Traversal

  /** A widget together with its depth in the forest a search starts from. */
  datatype Leveled = Leveled(node: Node, depth: int)

  /** The widgets of a sequence of leveled widgets, depths dropped. */
  function Nodes(t: seq<Leveled>): (s: seq<Node>)
    ensures |s| == |t|
  {
    if t == [] then [] else [t[0].node] + Nodes(t[1..])
  }

  /** The widgets of `s`, all at depth `d`. */
  function AtDepth(s: seq<Node>, d: int): (t: seq<Leveled>)
    ensures |t| == |s|
  {
    if s == [] then [] else [Leveled(s[0], d)] + AtDepth(s[1..], d)
  }

  lemma {:induction false} NodesIndex(t: seq<Leveled>)
    ensures forall i :: 0 <= i < |t| ==> Nodes(t)[i] == t[i].node
    decreases |t|
  {
    if t != [] {
      NodesIndex(t[1..]);
    }
  }

  lemma {:induction false} AtDepthIndex(s: seq<Node>, d: int)
    ensures forall i :: 0 <= i < |s| ==> AtDepth(s, d)[i] == Leveled(s[i], d)
    decreases |s|
  {
    if s != [] {
      AtDepthIndex(s[1..], d);
    }
  }

  lemma {:induction false} NodesAppend(a: seq<Leveled>, b: seq<Leveled>)
    ensures Nodes(a + b) == Nodes(a) + Nodes(b)
    decreases |a|
  {
    if a != [] {
      assert (a + b)[0] == a[0];
      assert (a + b)[1..] == a[1..] + b;
      NodesAppend(a[1..], b);
    } else {
      assert a + b == b;
    }
  }

  lemma {:induction false} NodesAtDepth(s: seq<Node>, d: int)
    ensures Nodes(AtDepth(s, d)) == s
    decreases |s|
  {
    if s != [] {
      NodesAtDepth(s[1..], d);
      assert s == [s[0]] + s[1..];
    }
  }

  /** The number of widgets in the trees of a leveled queue. */
  function LSize(t: seq<Leveled>): nat {
    if t == [] then 0 else Size(t[0].node) + LSize(t[1..])
  }

  lemma {:induction false} LSizeAppend(a: seq<Leveled>, b: seq<Leveled>)
    ensures LSize(a + b) == LSize(a) + LSize(b)
    decreases |a|
  {
    if a != [] {
      assert (a + b)[0] == a[0];
      assert (a + b)[1..] == a[1..] + b;
      LSizeAppend(a[1..], b);
    } else {
      assert a + b == b;
    }
  }

  lemma {:induction false} LSizeAtDepth(s: seq<Node>, d: int)
    ensures LSize(AtDepth(s, d)) == QSize(s)
    decreases |s|
  {
    if s != [] {
      LSizeAtDepth(s[1..], d);
    }
  }

  /** Replacing the head of a leveled queue by smaller trees at the tail shrinks the queue. */
  lemma LSizeStep(t: seq<Leveled>, e: seq<Node>, d: int)
    requires t != [] && QSize(e) < Size(t[0].node)
    ensures LSize(t[1..] + AtDepth(e, d)) < LSize(t)
  {
    LSizeAppend(t[1..], AtDepth(e, d));
    LSizeAtDepth(e, d);
  }

  /** One step of a leveled walk (drop the head, append its contents one level deeper) shrinks the queue. */
  lemma LeveledShrinks(axis: Axis, t: seq<Leveled>)
    requires t != []
    ensures LSize(t[1..] + AtDepth(Expand(axis, t[0].node), t[0].depth + 1)) < LSize(t)
  {
    ExpandSmaller(axis, t[0].node);
    LSizeStep(t, Expand(axis, t[0].node), t[0].depth + 1);
  }

  /** The breadth-first walk of a leveled queue: a widget's contents join the queue one level deeper. */
  ghost function BfsLevels(axis: Axis, t: seq<Leveled>): seq<Leveled>
    decreases LSize(t)
  {
    if t == [] then []
    else
      LeveledShrinks(axis, t);
      [t[0]] + BfsLevels(axis, t[1..] + AtDepth(Expand(axis, t[0].node), t[0].depth + 1))
  }

  /** Depth-first enumeration of the tree `n` whose root sits at depth `d`: the root, then its contents one level deeper. */
  ghost function DfsTree(axis: Axis, n: Node, d: int): seq<Leveled>
    decreases n
  {
    // `Expand(axis, n)`, spelled out so that termination is structural
    var inner := match axis
      case ComponentAxis => if IsInstance(n.kind, Container) then DfsLevels(axis, n.children, d + 1) else []
      case MenuAxis => if IsInstance(n.kind, JMenu) then DfsLevels(axis, n.menuChildren, d + 1) else [];
    [Leveled(n, d)] + inner
  }

  lemma DfsTreeExpands(axis: Axis, n: Node, d: int)
    ensures DfsTree(axis, n, d) == [Leveled(n, d)] + DfsLevels(axis, Expand(axis, n), d + 1)
  {
  }

  /** Depth-first enumeration of the forest `q` whose roots sit at depth `d`: each tree in turn. */
  ghost function DfsLevels(axis: Axis, q: seq<Node>, d: int): seq<Leveled>
    decreases q
  {
    if q == [] then [] else DfsTree(axis, q[0], d) + DfsLevels(axis, q[1..], d)
  }

  /** The depth-first enumerations of the trees of a leveled queue, one after the other. */
  ghost function DfsOfQueue(axis: Axis, t: seq<Leveled>): seq<Leveled>
    decreases |t|
  {
    if t == [] then [] else DfsTree(axis, t[0].node, t[0].depth) + DfsOfQueue(axis, t[1..])
  }

  /** The search walk from `roots`, each widget with its depth. */
  ghost function Levels(axis: Axis, roots: seq<Node>): seq<Leveled> {
    BfsLevels(axis, AtDepth(roots, 0))
  }

  /** Every widget of the forest below `roots` (the roots included) with its depth. */
  ghost function ForestLevels(axis: Axis, roots: seq<Node>): seq<Leveled> {
    DfsLevels(axis, roots, 0)
  }

  /** Depths never decrease along `t`. */
  ghost predicate DepthSorted(t: seq<Leveled>) {
    forall i, j :: 0 <= i < j < |t| ==> t[i].depth <= t[j].depth
  }

  /** No depth in `t` exceeds the head's by more than one. */
  ghost predicate WithinOneLevel(t: seq<Leveled>) {
    t != [] ==> forall i :: 0 <= i < |t| ==> t[i].depth <= t[0].depth + 1
  }

  /** The leveled walk tests the same widgets in the same order as the search. */
  lemma {:induction false} BfsLevelsNodes(axis: Axis, t: seq<Leveled>)
    ensures Nodes(BfsLevels(axis, t)) == BfsQ(axis, Nodes(t))
    decreases LSize(t)
  {
    if t != [] {
      var e := AtDepth(Expand(axis, t[0].node), t[0].depth + 1);
      var next := t[1..] + e;
      LeveledShrinks(axis, t);
      BfsLevelsNodes(axis, next);
      assert Nodes(t[1..]) == Nodes(t)[1..];
      NodesAtDepth(Expand(axis, t[0].node), t[0].depth + 1);
      NodesAppend(t[1..], e);
      ExpandShrinks(axis, Nodes(t));
      NodesAppend([t[0]], BfsLevels(axis, next));
      assert Nodes([t[0]]) == [Nodes(t)[0]];
    }
  }

  /** The leveled enumeration lists the same widgets in the same order as `Preorder`. */
  lemma {:induction false} DfsLevelsNodes(axis: Axis, q: seq<Node>, d: int)
    ensures Nodes(DfsLevels(axis, q, d)) == Preorder(axis, q)
    decreases QSize(q)
  {
    if q != [] {
      ExpandShrinks(axis, q);
      ExpandSmaller(axis, q[0]);
      DfsLevelsNodes(axis, Expand(axis, q[0]), d + 1);
      DfsLevelsNodes(axis, q[1..], d);
      var inner := DfsLevels(axis, Expand(axis, q[0]), d + 1);
      NodesAppend(DfsTree(axis, q[0], d), DfsLevels(axis, q[1..], d));
      NodesAppend([Leveled(q[0], d)], inner);
      assert Nodes([Leveled(q[0], d)]) == [q[0]];
    }
  }

  lemma ConcatStep(whole: seq<Leveled>, left: seq<Leveled>, head: seq<Leveled>,
                   tail: seq<Leveled>, leftTail: seq<Leveled>, right: seq<Leveled>)
    requires whole == head + tail && left == head + leftTail && tail == leftTail + right
    ensures whole == left + right
  {
  }

  lemma {:induction false} DfsOfQueueAppend(axis: Axis, a: seq<Leveled>, b: seq<Leveled>)
    ensures DfsOfQueue(axis, a + b) == DfsOfQueue(axis, a) + DfsOfQueue(axis, b)
    decreases |a|
  {
    if a != [] {
      assert (a + b)[0] == a[0];
      assert (a + b)[1..] == a[1..] + b;
      DfsOfQueueAppend(axis, a[1..], b);
      ConcatStep(DfsOfQueue(axis, a + b), DfsOfQueue(axis, a), DfsTree(axis, a[0].node, a[0].depth),
                 DfsOfQueue(axis, a[1..] + b), DfsOfQueue(axis, a[1..]), DfsOfQueue(axis, b));
    } else {
      assert a + b == b;
    }
  }

  /** Enumerating trees whose roots share a depth, one by one, is enumerating the forest. */
  lemma {:induction false} DfsOfQueueAtDepth(axis: Axis, s: seq<Node>, d: int)
    ensures DfsOfQueue(axis, AtDepth(s, d)) == DfsLevels(axis, s, d)
    decreases |s|
  {
    if s != [] {
      assert AtDepth(s, d)[0] == Leveled(s[0], d);
      assert AtDepth(s, d)[1..] == AtDepth(s[1..], d);
      DfsOfQueueAtDepth(axis, s[1..], d);
    }
  }

  lemma MultisetStep(x: Leveled, bfs: seq<Leveled>, bfsNext: seq<Leveled>, dfs: seq<Leveled>, dfsNext: seq<Leveled>,
                     rest: seq<Leveled>, below: seq<Leveled>)
    requires bfs == [x] + bfsNext && multiset(bfsNext) == multiset(dfsNext)
    requires dfsNext == rest + below && dfs == [x] + below + rest
    ensures multiset(bfs) == multiset(dfs)
  {
  }

  lemma BfsLevelsUnfold(axis: Axis, t: seq<Leveled>)
    requires t != []
    ensures BfsLevels(axis, t) == [t[0]] + BfsLevels(axis, t[1..] + AtDepth(Expand(axis, t[0].node), t[0].depth + 1))
  {
  }

  lemma DfsOfQueueUnfold(axis: Axis, t: seq<Leveled>)
    requires t != []
    ensures DfsOfQueue(axis, t) == [t[0]] + DfsLevels(axis, Expand(axis, t[0].node), t[0].depth + 1) + DfsOfQueue(axis, t[1..])
  {
    DfsTreeExpands(axis, t[0].node, t[0].depth);
  }

  /** One step of the walk keeps it a permutation of the depth-first enumeration. */
  lemma PermutationStep(axis: Axis, t: seq<Leveled>)
    requires t != []
    requires var next := t[1..] + AtDepth(Expand(axis, t[0].node), t[0].depth + 1);
             multiset(BfsLevels(axis, next)) == multiset(DfsOfQueue(axis, next))
    ensures multiset(BfsLevels(axis, t)) == multiset(DfsOfQueue(axis, t))
  {
    var inner := Expand(axis, t[0].node);
    var e := AtDepth(inner, t[0].depth + 1);
    DfsOfQueueAppend(axis, t[1..], e);
    DfsOfQueueAtDepth(axis, inner, t[0].depth + 1);
    var below := DfsLevels(axis, inner, t[0].depth + 1);
    BfsLevelsUnfold(axis, t);
    DfsOfQueueUnfold(axis, t);
    MultisetStep(t[0], BfsLevels(axis, t), BfsLevels(axis, t[1..] + e), DfsOfQueue(axis, t), DfsOfQueue(axis, t[1..] + e),
                 DfsOfQueue(axis, t[1..]), below);
  }

  /** The leveled walk lists every widget of the queue's trees at its depth, each as often as it occurs there. */
  lemma {:induction false} BfsLevelsIsPermutation(axis: Axis, t: seq<Leveled>)
    ensures multiset(BfsLevels(axis, t)) == multiset(DfsOfQueue(axis, t))
    decreases LSize(t)
  {
    if t != [] {
      LeveledShrinks(axis, t);
      BfsLevelsIsPermutation(axis, t[1..] + AtDepth(Expand(axis, t[0].node), t[0].depth + 1));
      PermutationStep(axis, t);
    }
  }

  /** Two depth-sorted sequences, the second no shallower than the first, concatenate to a depth-sorted one. */
  lemma SortedConcat(a: seq<Leveled>, b: seq<Leveled>)
    requires DepthSorted(a) && DepthSorted(b)
    requires forall i, j :: 0 <= i < |a| && 0 <= j < |b| ==> a[i].depth <= b[j].depth
    ensures DepthSorted(a + b)
  {
    var c := a + b;
    forall i, j | 0 <= i < j < |c|
      ensures c[i].depth <= c[j].depth
    {
      if j < |a| {
        assert c[i] == a[i] && c[j] == a[j];
      } else if i < |a| {
        assert c[i] == a[i] && c[j] == b[j - |a|];
      } else {
        assert c[i] == b[i - |a|] && c[j] == b[j - |a|];
      }
    }
  }

  /** The queue after one step of a depth-sorted queue stays depth-sorted, within one level, and no shallower. */
  lemma StepKeepsOrder(axis: Axis, t: seq<Leveled>)
    requires t != [] && DepthSorted(t) && WithinOneLevel(t)
    ensures var next := t[1..] + AtDepth(Expand(axis, t[0].node), t[0].depth + 1);
            DepthSorted(next) && WithinOneLevel(next) && (next != [] ==> t[0].depth <= next[0].depth)
  {
    var d := t[0].depth;
    var rest := t[1..];
    var e := AtDepth(Expand(axis, t[0].node), d + 1);
    var next := rest + e;
    AtDepthIndex(Expand(axis, t[0].node), d + 1);
    forall i | 0 <= i < |rest|
      ensures d <= rest[i].depth <= d + 1
    {
      assert rest[i] == t[i + 1];
    }
    forall i, j | 0 <= i < j < |rest|
      ensures rest[i].depth <= rest[j].depth
    {
      assert rest[i] == t[i + 1] && rest[j] == t[j + 1];
    }
    SortedConcat(rest, e);
    forall i | 0 <= i < |next|
      ensures d <= next[i].depth <= d + 1
    {
      if i < |rest| {
        assert next[i] == rest[i];
      } else {
        assert next[i] == e[i - |rest|];
      }
    }
  }

  /** Breadth-first order from a depth-sorted queue whose depths span at most one level is depth-sorted. */
  lemma {:induction false} BfsLevelsSorted(axis: Axis, t: seq<Leveled>)
    requires DepthSorted(t) && WithinOneLevel(t)
    ensures DepthSorted(BfsLevels(axis, t))
    ensures t != [] ==> BfsLevels(axis, t) != [] && BfsLevels(axis, t)[0] == t[0]
    decreases LSize(t)
  {
    if t != [] {
      var next := t[1..] + AtDepth(Expand(axis, t[0].node), t[0].depth + 1);
      LeveledShrinks(axis, t);
      StepKeepsOrder(axis, t);
      BfsLevelsSorted(axis, next);
      var rest := BfsLevels(axis, next);
      assert BfsLevels(axis, t) == [t[0]] + rest;
      SortedConcat([t[0]], rest);
    }
  }

  /** The roots, all at one depth, form a depth-sorted queue within one level. */
  lemma AtDepthIsSorted(s: seq<Node>, d: int)
    ensures DepthSorted(AtDepth(s, d)) && WithinOneLevel(AtDepth(s, d))
  {
    AtDepthIndex(s, d);
  }

  /** The search walk with depths lists the widgets `BfsQ` lists, in the same order. */
  lemma WalkNodes(axis: Axis, roots: seq<Node>)
    ensures Nodes(Levels(axis, roots)) == BfsQ(axis, roots)
  {
    NodesAtDepth(roots, 0);
    BfsLevelsNodes(axis, AtDepth(roots, 0));
  }

  /** The forest enumeration with depths lists the widgets `Preorder` lists, in the same order. */
  lemma ForestNodes(axis: Axis, roots: seq<Node>)
    ensures Nodes(ForestLevels(axis, roots)) == Preorder(axis, roots)
  {
    DfsLevelsNodes(axis, roots, 0);
  }

  /** The walk holds every widget of the forest at its depth, as often as it occurs there. */
  lemma WalkIsPermutationOfForest(axis: Axis, roots: seq<Node>)
    ensures multiset(Levels(axis, roots)) == multiset(ForestLevels(axis, roots))
  {
    BfsLevelsIsPermutation(axis, AtDepth(roots, 0));
    DfsOfQueueAtDepth(axis, roots, 0);
  }

  /** The walk's depths never decrease. */
  lemma WalkIsSorted(axis: Axis, roots: seq<Node>)
    ensures DepthSorted(Levels(axis, roots))
  {
    AtDepthIsSorted(roots, 0);
    BfsLevelsSorted(axis, AtDepth(roots, 0));
  }

  /**
   * The search walk from `roots` lists the same widgets as `BfsQ`, each with
   * its depth; it holds every widget of the forest at its depth exactly as
   * often as it occurs there, and its depths never decrease.
   */
  lemma WalkIsDepthOrdered(axis: Axis, roots: seq<Node>)
    ensures Nodes(Levels(axis, roots)) == BfsQ(axis, roots)
    ensures Nodes(ForestLevels(axis, roots)) == Preorder(axis, roots)
    ensures multiset(Levels(axis, roots)) == multiset(ForestLevels(axis, roots))
    ensures DepthSorted(Levels(axis, roots))
  {
    WalkNodes(axis, roots);
    ForestNodes(axis, roots);
    WalkIsPermutationOfForest(axis, roots);
    WalkIsSorted(axis, roots);
  }

  /** `n` occurs in `forest` at a depth no greater than that of any widget `stop` holds for. */
  ghost predicate IsShallowest(forest: seq<Leveled>, stop: Node -> bool, n: Node) {
    exists d :: Leveled(n, d) in forest && forall p :: p in forest && stop(p.node) ==> d <= p.depth
  }

  /**
   * In a depth-sorted walk that holds the widgets of `forest` at their
   * depths, the first widget for which `stop` holds is a shallowest one.
   */
  lemma FirstStopInSorted(walk: seq<Leveled>, forest: seq<Leveled>, k: int, stop: Node -> bool)
    requires DepthSorted(walk) && multiset(walk) == multiset(forest)
    requires 0 <= k < |walk| && forall j :: 0 <= j < k ==> !stop(walk[j].node)
    ensures IsShallowest(forest, stop, walk[k].node)
  {
    assert walk[k] in multiset(forest);
    forall p | p in forest && stop(p.node)
      ensures walk[k].depth <= p.depth
    {
      assert p in multiset(walk);
      var j :| 0 <= j < |walk| && walk[j] == p;
    }
    assert Leveled(walk[k].node, walk[k].depth) in forest;
  }

  /**
   * The first widget of the search walk for which `stop` holds is a
   * shallowest such widget of the forest: the walk never reaches a deeper
   * widget before a shallower one.
   */
  lemma FirstInWalkIsShallowest(axis: Axis, roots: seq<Node>, k: int, stop: Node -> bool)
    requires 0 <= k < |BfsQ(axis, roots)|
    requires forall j :: 0 <= j < k ==> !stop(BfsQ(axis, roots)[j])
    ensures IsShallowest(ForestLevels(axis, roots), stop, BfsQ(axis, roots)[k])
  {
    WalkIsDepthOrdered(axis, roots);
    var walk := Levels(axis, roots);
    NodesIndex(walk);
    FirstStopInSorted(walk, ForestLevels(axis, roots), k, stop);
  }

  /** The elements of `t` whose widget `accept` accepts, with their depths. */
  function OnNode(accept: Node -> bool): Leveled -> bool {
    (p: Leveled) => accept(p.node)
  }

  lemma {:induction false} NodesFilter(accept: Node -> bool, t: seq<Leveled>)
    ensures Nodes(Filter(OnNode(accept), t)) == Filter(accept, Nodes(t))
  {
    if t != [] {
      NodesFilter(accept, t[1..]);
      var head := if accept(t[0].node) then [t[0]] else [];
      NodesAppend(head, Filter(OnNode(accept), t[1..]));
      assert Nodes(t)[0] == t[0].node && Nodes(t)[1..] == Nodes(t[1..]);
      assert Nodes(head) == if accept(t[0].node) then [t[0].node] else [];
    }
  }

  /** Filtering keeps depth order. */
  lemma {:induction false} FilterKeepsDepthOrder(p: Leveled -> bool, t: seq<Leveled>)
    requires DepthSorted(t)
    ensures DepthSorted(Filter(p, t))
  {
    if t != [] {
      FilterKeepsDepthOrder(p, t[1..]);
      var rest := Filter(p, t[1..]);
      FilterMembership(p, t[1..]);
      var all := Filter(p, t);
      if p(t[0]) {
        assert all == [t[0]] + rest;
        forall i, j | 0 <= i < j < |all|
          ensures all[i].depth <= all[j].depth
        {
          assert all[j] == rest[j - 1];
          assert rest[j - 1] in t[1..];
          if i > 0 {
            assert all[i] == rest[i - 1];
          }
        }
      } else {
        assert all == rest;
      }
    }
  }

  /** The widgets a collecting search gathers from `roots`, in search order, with their depths. */
  ghost function CollectedLevels(axis: Axis, roots: seq<Node>, accept: Node -> bool): seq<Leveled> {
    Filter(OnNode(accept), Levels(axis, roots))
  }

  /**
   * The gathered widgets are the filtered search walk, in non-decreasing
   * depth, and each accepted widget of the forest occurs among them at its
   * depth exactly as often as it occurs in the forest.
   */
  lemma CollectedInDepthOrder(axis: Axis, roots: seq<Node>, accept: Node -> bool)
    ensures Nodes(CollectedLevels(axis, roots, accept)) == Filter(accept, BfsQ(axis, roots))
    ensures DepthSorted(CollectedLevels(axis, roots, accept))
    ensures multiset(CollectedLevels(axis, roots, accept))
            == multiset(Filter(OnNode(accept), ForestLevels(axis, roots)))
  {
    WalkIsDepthOrdered(axis, roots);
    NodesFilter(accept, Levels(axis, roots));
    FilterKeepsDepthOrder(OnNode(accept), Levels(axis, roots));
    FilterPermutation(OnNode(accept), Levels(axis, roots), ForestLevels(axis, roots));
  }
}
