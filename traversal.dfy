/**
 * The order in which Gooey's searches visit a widget tree. A search starts
 * from a queue of roots, removes the head, tests it, and (when it descends)
 * appends what the head contains to the tail: breadth-first order. `BfsQ`
 * is that order as a function of the queue; `Preorder` is an independent
 * depth-first enumeration of the same forest, used to state which widgets a
 * search covers.
 */
module Traversal {
  import opened Lang
  import opened Toolkit

  /**
   * What a search descends into: container searches use `getComponents()`
   * of a `java.awt.Container`; menu searches use `getMenuComponents()` of a
   * `JMenu`. Other widgets are leaves for that search.
   */
  datatype Axis = ComponentAxis | MenuAxis

  function Expand(axis: Axis, n: Node): seq<Node> {
    match axis
    case ComponentAxis => if IsInstance(n.kind, Container) then n.children else []
    case MenuAxis => if IsInstance(n.kind, JMenu) then n.menuChildren else []
  }

  lemma {:induction false} QSizeAppend(a: seq<Node>, b: seq<Node>)
    ensures QSize(a + b) == QSize(a) + QSize(b)
    decreases |a|
  {
    if a != [] {
      assert (a + b)[0] == a[0];
      assert (a + b)[1..] == a[1..] + b;
      QSizeAppend(a[1..], b);
    } else {
      assert a + b == b;
    }
  }

  /** What a widget contributes to the queue is smaller than the widget. */
  lemma ExpandSmaller(axis: Axis, n: Node)
    ensures QSize(Expand(axis, n)) < Size(n)
  {
  }

  /** One step of a search (drop the head, append what it contains) shrinks the queue. */
  lemma ExpandShrinks(axis: Axis, q: seq<Node>)
    requires q != []
    ensures QSize(q[1..] + Expand(axis, q[0])) < QSize(q)
    ensures QSize(q[1..]) < QSize(q)
  {
    QSizeAppend(q[1..], Expand(axis, q[0]));
    ExpandSmaller(axis, q[0]);
  }

  /** The breadth-first visiting order of the queue `q`. */
  ghost function BfsQ(axis: Axis, q: seq<Node>): seq<Node>
    decreases QSize(q)
  {
    if q == [] then []
    else
      ExpandShrinks(axis, q);
      [q[0]] + BfsQ(axis, q[1..] + Expand(axis, q[0]))
  }

  /** Depth-first enumeration of the forest `q`: each tree, then its contents, then the rest. */
  ghost function Preorder(axis: Axis, q: seq<Node>): seq<Node>
    decreases QSize(q)
  {
    if q == [] then []
    else
      ExpandShrinks(axis, q);
      ExpandSmaller(axis, q[0]);
      [q[0]] + Preorder(axis, Expand(axis, q[0])) + Preorder(axis, q[1..])
  }

  /** The nodes a search tests: the whole forest when nested, the roots alone when flat. */
  ghost function SearchOrder(axis: Axis, roots: seq<Node>, nested: bool): seq<Node> {
    if nested then BfsQ(axis, roots) else roots
  }

  /**
   * One step of a search: the head of the queue is tested first, then the
   * queue that remains once the head is removed and, when nested, what the
   * head contains is appended.
   */
  lemma SearchOrderStep(axis: Axis, q: seq<Node>, nested: bool)
    requires q != []
    ensures var next := q[1..] + (if nested then Expand(axis, q[0]) else []);
            SearchOrder(axis, q, nested) == [q[0]] + SearchOrder(axis, next, nested)
            && QSize(next) < QSize(q)
  {
    ExpandShrinks(axis, q);
    if !nested {
      assert q[1..] + [] == q[1..];
      assert q == [q[0]] + q[1..];
    }
  }

  /** The elements of `s` that `p` accepts, in their order in `s`. */
  function Filter<T(!new)>(p: T -> bool, s: seq<T>): (r: seq<T>)
    ensures |r| <= |s|
  {
    if s == [] then []
    else (if p(s[0]) then [s[0]] else []) + Filter(p, s[1..])
  }

  /** `Filter` keeps exactly the elements that `p` accepts. */
  lemma {:induction false} FilterMembership<T(!new)>(p: T -> bool, s: seq<T>)
    ensures forall x :: x in Filter(p, s) <==> x in s && p(x)
  {
    if s != [] {
      FilterMembership(p, s[1..]);
      assert s == [s[0]] + s[1..];
    }
  }

  /** `Filter` keeps every accepted element as often as it occurs, and nothing else. */
  lemma {:induction false} FilterCount<T(!new)>(p: T -> bool, s: seq<T>, x: T)
    ensures multiset(Filter(p, s))[x] == if p(x) then multiset(s)[x] else 0
  {
    if s != [] {
      FilterCount(p, s[1..], x);
      assert s == [s[0]] + s[1..];
      assert multiset(s) == multiset([s[0]]) + multiset(s[1..]);
      var head := if p(s[0]) then [s[0]] else [];
      assert multiset(Filter(p, s)) == multiset(head) + multiset(Filter(p, s[1..]));
    }
  }

  /** Filtering distributes over concatenation. */
  lemma {:induction false} FilterAppend<T(!new)>(p: T -> bool, a: seq<T>, b: seq<T>)
    ensures Filter(p, a + b) == Filter(p, a) + Filter(p, b)
    decreases |a|
  {
    if a == [] {
      assert a + b == b;
    } else {
      var head := if p(a[0]) then [a[0]] else [];
      assert (a + b)[0] == a[0];
      assert (a + b)[1..] == a[1..] + b;
      FilterAppend(p, a[1..], b);
      calc {
        Filter(p, a + b);
        head + Filter(p, a[1..] + b);
        head + (Filter(p, a[1..]) + Filter(p, b));
        (head + Filter(p, a[1..])) + Filter(p, b);
      }
    }
  }

  /** Filtering a sequence extended by one element. */
  lemma FilterSnoc<T(!new)>(p: T -> bool, s: seq<T>, x: T)
    ensures Filter(p, s + [x]) == Filter(p, s) + (if p(x) then [x] else [])
  {
    FilterAppend(p, s, [x]);
    assert [x][1..] == [];
  }

  /** Filtering two permutations of each other yields permutations of each other. */
  lemma FilterPermutation<T(!new)>(p: T -> bool, a: seq<T>, b: seq<T>)
    requires multiset(a) == multiset(b)
    ensures multiset(Filter(p, a)) == multiset(Filter(p, b))
  {
    forall x | true
      ensures multiset(Filter(p, a))[x] == multiset(Filter(p, b))[x]
    {
      FilterCount(p, a, x);
      FilterCount(p, b, x);
    }
  }

  lemma {:induction false} PreorderAppend(axis: Axis, a: seq<Node>, b: seq<Node>)
    ensures Preorder(axis, a + b) == Preorder(axis, a) + Preorder(axis, b)
    decreases |a|
  {
    if a != [] {
      assert (a + b)[0] == a[0];
      assert (a + b)[1..] == a[1..] + b;
      PreorderAppend(axis, a[1..], b);
    } else {
      assert a + b == b;
    }
  }

  /**
   * Breadth-first order visits exactly the widgets of the forest, each as
   * often as it occurs: it is a permutation of the depth-first enumeration.
   */
  lemma {:induction false} BfsIsPermutationOfPreorder(axis: Axis, q: seq<Node>)
    ensures multiset(BfsQ(axis, q)) == multiset(Preorder(axis, q))
    decreases QSize(q)
  {
    if q != [] {
      var e := Expand(axis, q[0]);
      ExpandShrinks(axis, q);
      BfsIsPermutationOfPreorder(axis, q[1..] + e);
      PreorderAppend(axis, q[1..], e);
    }
  }

  /** The queue's own widgets come first, in queue order: the roots are tested before anything below them. */
  lemma {:induction false} BfsStartsWithQueue(axis: Axis, q: seq<Node>)
    ensures |q| <= |BfsQ(axis, q)| && BfsQ(axis, q)[..|q|] == q
    decreases QSize(q)
  {
    if q != [] {
      var e := Expand(axis, q[0]);
      ExpandShrinks(axis, q);
      BfsStartsWithQueue(axis, q[1..] + e);
      var rest := BfsQ(axis, q[1..] + e);
      assert rest[..|q| - 1] == (q[1..] + e)[..|q| - 1] == q[1..];
      assert BfsQ(axis, q)[..|q|] == [q[0]] + rest[..|q| - 1];
    }
  }

  /** The same, position by position. */
  lemma BfsAgreesWithQueue(axis: Axis, q: seq<Node>)
    ensures |q| <= |BfsQ(axis, q)|
    ensures forall j :: 0 <= j < |q| ==> BfsQ(axis, q)[j] == q[j]
  {
    BfsStartsWithQueue(axis, q);
    var b := BfsQ(axis, q);
    forall j | 0 <= j < |q|
      ensures b[j] == q[j]
    {
      assert b[..|q|][j] == b[j];
    }
  }

  /** Every widget of the forest `q` is no larger than the whole forest. */
  lemma {:induction false} PreorderSizes(axis: Axis, q: seq<Node>)
    ensures forall x :: x in Preorder(axis, q) ==> Size(x) <= QSize(q)
    decreases QSize(q)
  {
    if q != [] {
      ExpandShrinks(axis, q);
      ExpandSmaller(axis, q[0]);
      PreorderSizes(axis, Expand(axis, q[0]));
      PreorderSizes(axis, q[1..]);
    }
  }

  /** The roots of a forest are among its widgets. */
  lemma {:induction false} RootsInPreorder(axis: Axis, q: seq<Node>)
    ensures forall x :: x in q ==> x in Preorder(axis, q)
    decreases QSize(q)
  {
    if q != [] {
      ExpandShrinks(axis, q);
      RootsInPreorder(axis, q[1..]);
      assert q == [q[0]] + q[1..];
    }
  }

  /**
   * A search seeded with a widget's own children (or menu entries) never
   * tests that widget itself, in either order.
   */
  lemma NeverVisitsSeed(axis: Axis, n: Node)
    ensures n !in Preorder(axis, n.children) && n !in BfsQ(axis, n.children)
    ensures n !in Preorder(axis, n.menuChildren) && n !in BfsQ(axis, n.menuChildren)
    ensures n !in n.children && n !in n.menuChildren
  {
    RootsInPreorder(axis, n.children);
    RootsInPreorder(axis, n.menuChildren);
    PreorderSizes(axis, n.children);
    PreorderSizes(axis, n.menuChildren);
    BfsIsPermutationOfPreorder(axis, n.children);
    BfsIsPermutationOfPreorder(axis, n.menuChildren);
    assert multiset(BfsQ(axis, n.children))[n] == multiset(Preorder(axis, n.children))[n];
    assert multiset(BfsQ(axis, n.menuChildren))[n] == multiset(Preorder(axis, n.menuChildren))[n];
  }

  /** A widget is visited by the breadth-first walk exactly when the depth-first enumeration lists it. */
  lemma BfsCoversPreorder(axis: Axis, q: seq<Node>, x: Node)
    ensures x in BfsQ(axis, q) <==> x in Preorder(axis, q)
  {
    BfsIsPermutationOfPreorder(axis, q);
    assert multiset(BfsQ(axis, q))[x] == multiset(Preorder(axis, q))[x];
  }
}
