/**
 * `Gooey`: the static entry points tests call. The component search engine
 * walks a widget tree breadth-first from a container's children and returns
 * the first widget a criterion accepts (or all of them); the menu search
 * does the same over menu entries; `capture` resets a task, arms the
 * listener with its criterion, lets it run, hands the captured window to
 * the test, rethrows what the task recorded and reports a missing window.
 */
module Gooey {
  import opened Lang
  import opened Toolkit
  import opened Traversal
  import opened Tasks
  import opened Levels

  /** The options of `GooeyFlag`. Only the presence of `SearchFlat` and `MatchByName` is ever tested. */
  datatype Flag = SearchFlat | SearchNested | MatchByName | MatchByText

  /** Whether `value` occurs in `values` (`have`). */
  method Have<T(==)>(values: seq<T>, value: T) returns (found: bool)
    ensures found <==> value in values
  {
    for i := 0 to |values|
      invariant forall j :: 0 <= j < i ==> values[j] != value
    {
      if values[i] == value {
        return true;
      }
    }
    return false;
  }

  /** A search descends below the roots unless `SearchFlat` is present; nothing else is looked at. */
  predicate IsNested(flags: seq<Flag>) {
    SearchFlat !in flags
  }

  /** A menu search compares names when `MatchByName` is present, displayed texts otherwise. */
  predicate ByName(flags: seq<Flag>) {
    MatchByName in flags
  }

  // ---------------------------------------------------------------------
  // Specification of a first-match search
  // ---------------------------------------------------------------------

  /** The widgets a search can reach: the whole forest when nested, the roots when flat. */
  ghost function Scope(axis: Axis, roots: seq<Node>, nested: bool): seq<Node> {
    if nested then Preorder(axis, roots) else roots
  }

  /** A search tests exactly the widgets it can reach. */
  lemma OrderCoversScope(axis: Axis, roots: seq<Node>, nested: bool)
    ensures forall x :: x in SearchOrder(axis, roots, nested) <==> x in Scope(axis, roots, nested)
  {
    forall x
      ensures x in SearchOrder(axis, roots, nested) <==> x in Scope(axis, roots, nested)
    {
      if nested {
        BfsCoversPreorder(axis, roots, x);
      }
    }
  }

  ghost predicate NoneAccepted(s: seq<Node>, accept: Node -> bool) {
    forall j :: 0 <= j < |s| ==> !accept(s[j])
  }

  /** Position `k` of `order` is the first one `accept` accepts. */
  ghost predicate FirstAcceptedAt(order: seq<Node>, k: int, accept: Node -> bool) {
    0 <= k < |order| && accept(order[k]) && forall j :: 0 <= j < k ==> !accept(order[j])
  }

  /**
   * `r` is the outcome of testing `order` front to back: the first accepted
   * widget, or an AssertionError carrying `message` when none is accepted.
   */
  ghost predicate IsFirstMatch(order: seq<Node>, accept: Node -> bool, message: string, r: Outcome<Node>) {
    match r
    case Returned(n) =>
      exists k :: FirstAcceptedAt(order, k, accept) && order[k] == n
    case Threw(e) =>
      e == AssertionError(message) && NoneAccepted(order, accept)
  }

  /** The specification determines the outcome: no two outcomes both satisfy it. */
  lemma FirstMatchIsUnique(order: seq<Node>, accept: Node -> bool, message: string, r1: Outcome<Node>, r2: Outcome<Node>)
    requires IsFirstMatch(order, accept, message, r1) && IsFirstMatch(order, accept, message, r2)
    ensures r1 == r2
  {
  }

  /**
   * What a first-match search reports about the reachable widgets: a found
   * widget is accepted and reachable; the search fails exactly when no
   * reachable widget is accepted, and then with `message`.
   */
  lemma FirstMatchInScope(axis: Axis, roots: seq<Node>, nested: bool, accept: Node -> bool, message: string, r: Outcome<Node>)
    requires IsFirstMatch(SearchOrder(axis, roots, nested), accept, message, r)
    ensures r.Returned? ==> accept(r.value) && r.value in Scope(axis, roots, nested)
    ensures r.Threw? <==> forall x :: x in Scope(axis, roots, nested) ==> !accept(x)
    ensures r.Threw? ==> r.error == AssertionError(message)
  {
    OrderCoversScope(axis, roots, nested);
  }

  /**
   * When one of the roots is accepted, the nested search returns exactly
   * what the flat search returns: the roots are tested before anything
   * below them.
   */
  lemma NestedPrefersDirectChildren(axis: Axis, roots: seq<Node>, accept: Node -> bool, message: string, r: Outcome<Node>)
    requires exists i :: 0 <= i < |roots| && accept(roots[i])
    requires IsFirstMatch(BfsQ(axis, roots), accept, message, r)
    ensures IsFirstMatch(roots, accept, message, r)
  {
    var order := BfsQ(axis, roots);
    BfsAgreesWithQueue(axis, roots);
    if r.Returned? {
      var k :| FirstAcceptedAt(order, k, accept) && order[k] == r.value;
      var i :| 0 <= i < |roots| && accept(roots[i]);
      assert k <= i;
      assert FirstAcceptedAt(roots, k, accept);
    }
  }

  /**
   * A nested first-match search returns a shallowest accepted widget: no
   * accepted widget of the forest lies at a smaller depth.
   */
  lemma FirstMatchIsShallowest(axis: Axis, roots: seq<Node>, accept: Node -> bool, message: string, r: Outcome<Node>)
    requires IsFirstMatch(BfsQ(axis, roots), accept, message, r)
    ensures r.Returned? ==> IsShallowest(ForestLevels(axis, roots), accept, r.value)
  {
    if r.Returned? {
      var k :| FirstAcceptedAt(BfsQ(axis, roots), k, accept) && BfsQ(axis, roots)[k] == r.value;
      FirstInWalkIsShallowest(axis, roots, k, accept);
    }
  }

  // ---------------------------------------------------------------------
  // The component search engine
  // ---------------------------------------------------------------------

  /** Finding `c` accepted right after the rejected `visited` is a first match. */
  lemma FoundFirst(order: seq<Node>, visited: seq<Node>, c: Node, rest: seq<Node>, accept: Node -> bool, message: string)
    requires order == visited + ([c] + rest)
    requires NoneAccepted(visited, accept) && accept(c)
    ensures IsFirstMatch(order, accept, message, Returned(c))
  {
    assert FirstAcceptedAt(order, |visited|, accept);
  }

  /** A rejected `c` joins the tested prefix. */
  lemma RejectedStep(order: seq<Node>, visited: seq<Node>, c: Node, rest: seq<Node>, accept: Node -> bool)
    requires order == visited + ([c] + rest)
    requires NoneAccepted(visited, accept) && !accept(c)
    ensures order == (visited + [c]) + rest && NoneAccepted(visited + [c], accept)
  {
  }

  /**
   * The private `getComponent`: test the container's children breadth-first
   * (only the children themselves with `SearchFlat`) and return the first
   * one `accept` accepts, else fail with `message`. The container itself is
   * never tested.
   */
  method FindComponent(message: string, container: Node, accept: Node -> bool, flags: seq<Flag>)
    returns (r: Outcome<Node>)
    requires IsInstance(container.kind, Container)
    ensures IsFirstMatch(SearchOrder(ComponentAxis, container.children, IsNested(flags)), accept, message, r)
    ensures r.Returned? ==> accept(r.value) && r.value in Scope(ComponentAxis, container.children, IsNested(flags))
    ensures r.Returned? ==> r.value != container
    ensures r.Returned? && IsNested(flags) ==> IsShallowest(ForestLevels(ComponentAxis, container.children), accept, r.value)
    ensures r.Threw? <==> forall x :: x in Scope(ComponentAxis, container.children, IsNested(flags)) ==> !accept(x)
    ensures r.Threw? ==> r.error == AssertionError(message)
  {
    var flat := Have(flags, SearchFlat);
    var goNested := !flat;
    ghost var order := SearchOrder(ComponentAxis, container.children, goNested);
    var queue := container.children;
    ghost var visited: seq<Node> := [];
    while queue != []
      invariant order == visited + SearchOrder(ComponentAxis, queue, goNested)
      invariant NoneAccepted(visited, accept)
      decreases QSize(queue)
    {
      var c := queue[0];
      SearchOrderStep(ComponentAxis, queue, goNested);
      ghost var next := queue[1..] + (if goNested then Expand(ComponentAxis, c) else []);
      queue := queue[1..];
      if accept(c) {
        r := Returned(c);
        FoundFirst(order, visited, c, SearchOrder(ComponentAxis, next, goNested), accept, message);
        FirstMatchInScope(ComponentAxis, container.children, goNested, accept, message, r);
        NeverVisitsSeed(ComponentAxis, container);
        if goNested {
          FirstMatchIsShallowest(ComponentAxis, container.children, accept, message, r);
        }
        return;
      }
      if goNested && IsInstance(c.kind, Container) {
        queue := queue + c.children;
      }
      assert queue == next;
      RejectedStep(order, visited, c, SearchOrder(ComponentAxis, next, goNested), accept);
      visited := visited + [c];
    }
    assert order == visited + [];
    r := Threw(AssertionError(message));
    FirstMatchInScope(ComponentAxis, container.children, goNested, accept, message, r);
  }

  /** Filtering the next widget then the rest: `c` is collected exactly when accepted. */
  lemma FilterStep(accept: Node -> bool, found: seq<Node>, c: Node, rest: seq<Node>)
    ensures found + Filter(accept, [c] + rest)
            == (if accept(c) then found + [c] else found) + Filter(accept, rest)
  {
  }

  /**
   * `getComponents`: every widget below the container that `accept`
   * accepts, in breadth-first order. Accepted widgets are descended into as
   * well, and the search never fails.
   */
  method GetComponents(container: Node, accept: Node -> bool) returns (found: seq<Node>)
    requires IsInstance(container.kind, Container)
    ensures found == Filter(accept, BfsQ(ComponentAxis, container.children))
    ensures multiset(found) == multiset(Filter(accept, Preorder(ComponentAxis, container.children)))
    ensures forall x :: x in found <==> x in Preorder(ComponentAxis, container.children) && accept(x)
    ensures found == [] <==> forall x :: x in Preorder(ComponentAxis, container.children) ==> !accept(x)
    ensures found == Nodes(CollectedLevels(ComponentAxis, container.children, accept))
    ensures DepthSorted(CollectedLevels(ComponentAxis, container.children, accept))
    ensures multiset(CollectedLevels(ComponentAxis, container.children, accept))
            == multiset(Filter(OnNode(accept), ForestLevels(ComponentAxis, container.children)))
  {
    found := [];
    ghost var order := BfsQ(ComponentAxis, container.children);
    var queue := container.children;
    while queue != []
      invariant Filter(accept, order) == found + Filter(accept, BfsQ(ComponentAxis, queue))
      decreases QSize(queue)
    {
      var c := queue[0];
      SearchOrderStep(ComponentAxis, queue, true);
      ghost var next := queue[1..] + Expand(ComponentAxis, c);
      FilterStep(accept, found, c, BfsQ(ComponentAxis, next));
      queue := queue[1..];
      if accept(c) {
        found := found + [c];
      }
      if IsInstance(c.kind, Container) {
        queue := queue + c.children;
      }
      assert queue == next;
    }
    GetComponentsSummary(container, accept, found);
    CollectedInDepthOrder(ComponentAxis, container.children, accept);
  }

  /** The properties of the collected list, from its characterisation as a filtered walk. */
  lemma GetComponentsSummary(container: Node, accept: Node -> bool, found: seq<Node>)
    requires found == Filter(accept, BfsQ(ComponentAxis, container.children))
    ensures multiset(found) == multiset(Filter(accept, Preorder(ComponentAxis, container.children)))
    ensures forall x :: x in found <==> x in Preorder(ComponentAxis, container.children) && accept(x)
    ensures found == [] <==> forall x :: x in Preorder(ComponentAxis, container.children) ==> !accept(x)
  {
    BfsIsPermutationOfPreorder(ComponentAxis, container.children);
    FilterPermutation(accept, BfsQ(ComponentAxis, container.children), Preorder(ComponentAxis, container.children));
    FilterMembership(accept, BfsQ(ComponentAxis, container.children));
    forall x
      ensures x in found <==> x in Preorder(ComponentAxis, container.children) && accept(x)
    {
      BfsCoversPreorder(ComponentAxis, container.children, x);
    }
    if found != [] {
      assert found[0] in found;
    }
  }

  /**
   * `getComponent` and `getComponents` agree: over the same order and
   * criterion, the single lookup succeeds exactly when the collected list is
   * non-empty, and then returns the list's first element.
   */
  lemma FirstMatchHeadsFilter(order: seq<Node>, accept: Node -> bool, message: string, r: Outcome<Node>)
    requires IsFirstMatch(order, accept, message, r)
    ensures r.Returned? <==> Filter(accept, order) != []
    ensures r.Returned? ==> Filter(accept, order)[0] == r.value
  {
    match r
    case Returned(n) =>
      var k :| FirstAcceptedAt(order, k, accept) && order[k] == n;
      FilterStartsWithFirst(order, k, accept);
    case Threw(_) =>
      FilterOfRejected(order, accept);
  }

  /** The filtered list starts with the first accepted element. */
  lemma {:induction false} FilterStartsWithFirst(s: seq<Node>, k: int, accept: Node -> bool)
    requires FirstAcceptedAt(s, k, accept)
    ensures Filter(accept, s) != [] && Filter(accept, s)[0] == s[k]
    decreases k
  {
    if k > 0 {
      assert !accept(s[0]);
      assert FirstAcceptedAt(s[1..], k - 1, accept);
      FilterStartsWithFirst(s[1..], k - 1, accept);
    }
  }

  lemma FilterOfRejected(s: seq<Node>, accept: Node -> bool)
    requires NoneAccepted(s, accept)
    ensures Filter(accept, s) == []
  {
  }

  // ---------------------------------------------------------------------
  // Public lookups and their criteria
  // ---------------------------------------------------------------------

  /** The widget is a `cls` whose name equals `name`, when a name is given. */
  predicate HasTypeAndName(n: Node, cls: Kind, name: Option<string>) {
    IsInstance(n.kind, cls) && (name.None? || n.name == name)
  }

  /** The widget is a `cls` that displays exactly `text`. */
  predicate Displays(n: Node, cls: Kind, text: string) {
    IsInstance(n.kind, cls) && n.text == Some(text)
  }

  function TypeCriterion(cls: Kind): Node -> bool {
    (n: Node) => IsInstance(n.kind, cls)
  }

  function TypeNameCriterion(cls: Kind, name: Option<string>): Node -> bool {
    (n: Node) => HasTypeAndName(n, cls, name)
  }

  function DisplayCriterion(cls: Kind, text: string): Node -> bool {
    (n: Node) => Displays(n, cls, text)
  }

  function ComponentMessage(cls: Kind, name: Option<string>): string {
    "No \"" + ClassName(cls) + "\" component" + (if name.None? then "" else " '" + name.value + "'") + " found"
  }

  function LabelMessage(text: string): string {
    "No label \"" + text + "\" found"
  }

  function ButtonMessage(text: string): string {
    "No button \"" + text + "\" found"
  }

  /**
   * `getComponent(container, swing, name, flags)`: the first `cls` named
   * `name` (any name when none is given) in breadth-first order.
   */
  method GetComponentNamed(container: Node, cls: Kind, name: Option<string>, flags: seq<Flag>)
    returns (r: Outcome<Node>)
    requires IsInstance(container.kind, Container)
    ensures IsFirstMatch(SearchOrder(ComponentAxis, container.children, IsNested(flags)),
                         TypeNameCriterion(cls, name), ComponentMessage(cls, name), r)
    ensures r.Returned? ==> HasTypeAndName(r.value, cls, name)
                            && r.value in Scope(ComponentAxis, container.children, IsNested(flags))
    ensures r.Threw? <==> forall x :: x in Scope(ComponentAxis, container.children, IsNested(flags)) ==> !HasTypeAndName(x, cls, name)
    ensures r.Threw? ==> r.error == AssertionError(ComponentMessage(cls, name))
  {
    r := FindComponent(ComponentMessage(cls, name), container, TypeNameCriterion(cls, name), flags);
  }

  /** `getComponent(container, swing)`: the first `cls` of any name, searching nested. */
  method GetComponentOfType(container: Node, cls: Kind) returns (r: Outcome<Node>)
    requires IsInstance(container.kind, Container)
    ensures IsFirstMatch(BfsQ(ComponentAxis, container.children), TypeNameCriterion(cls, None), ComponentMessage(cls, None), r)
    ensures r.Returned? ==> IsInstance(r.value.kind, cls) && r.value in Preorder(ComponentAxis, container.children)
    ensures r.Threw? <==> forall x :: x in Preorder(ComponentAxis, container.children) ==> !IsInstance(x.kind, cls)
    ensures r.Threw? ==> r.error == AssertionError("No \"" + ClassName(cls) + "\" component found")
  {
    r := GetComponentNamed(container, cls, None, []);
    assert IsNested([]);
    forall x ensures HasTypeAndName(x, cls, None) <==> IsInstance(x.kind, cls) { }
  }

  /** `getLabel`: the first `JLabel` displaying exactly `text`, searching nested. */
  method GetLabel(container: Node, text: string) returns (r: Outcome<Node>)
    requires IsInstance(container.kind, Container)
    ensures IsFirstMatch(BfsQ(ComponentAxis, container.children), DisplayCriterion(JLabel, text), LabelMessage(text), r)
    ensures r.Returned? ==> Displays(r.value, JLabel, text) && r.value in Preorder(ComponentAxis, container.children)
    ensures r.Threw? <==> forall x :: x in Preorder(ComponentAxis, container.children) ==> !Displays(x, JLabel, text)
    ensures r.Threw? ==> r.error == AssertionError(LabelMessage(text))
  {
    r := FindComponent(LabelMessage(text), container, DisplayCriterion(JLabel, text), []);
    assert IsNested([]);
    forall x ensures DisplayCriterion(JLabel, text)(x) == Displays(x, JLabel, text) { }
  }

  /** `getButton`: the first `JButton` displaying exactly `text`, searching nested. */
  method GetButton(container: Node, text: string) returns (r: Outcome<Node>)
    requires IsInstance(container.kind, Container)
    ensures IsFirstMatch(BfsQ(ComponentAxis, container.children), DisplayCriterion(JButton, text), ButtonMessage(text), r)
    ensures r.Returned? ==> Displays(r.value, JButton, text) && r.value in Preorder(ComponentAxis, container.children)
    ensures r.Threw? <==> forall x :: x in Preorder(ComponentAxis, container.children) ==> !Displays(x, JButton, text)
    ensures r.Threw? ==> r.error == AssertionError(ButtonMessage(text))
  {
    r := FindComponent(ButtonMessage(text), container, DisplayCriterion(JButton, text), []);
    assert IsNested([]);
    forall x ensures DisplayCriterion(JButton, text)(x) == Displays(x, JButton, text) { }
  }

  /** `getComponents(container, swing)`: every `cls` below the container, breadth-first. */
  method GetComponentsOfType(container: Node, cls: Kind) returns (found: seq<Node>)
    requires IsInstance(container.kind, Container)
    ensures found == Filter(TypeCriterion(cls), BfsQ(ComponentAxis, container.children))
    ensures multiset(found) == multiset(Filter(TypeCriterion(cls), Preorder(ComponentAxis, container.children)))
    ensures forall x :: x in found <==> x in Preorder(ComponentAxis, container.children) && IsInstance(x.kind, cls)
  {
    found := GetComponents(container, TypeCriterion(cls));
  }

  /**
   * A widget that the type-and-name lookup finds is among the widgets that
   * `getComponents` collects for the same class, whatever the flags.
   */
  lemma NamedMatchIsCollected(container: Node, cls: Kind, name: Option<string>, nested: bool, message: string, r: Outcome<Node>)
    requires IsFirstMatch(SearchOrder(ComponentAxis, container.children, nested), TypeNameCriterion(cls, name), message, r)
    ensures r.Returned? ==> r.value in Filter(TypeCriterion(cls), BfsQ(ComponentAxis, container.children))
  {
    FirstMatchInScope(ComponentAxis, container.children, nested, TypeNameCriterion(cls, name), message, r);
    if r.Returned? {
      RootsInPreorder(ComponentAxis, container.children);
      BfsCoversPreorder(ComponentAxis, container.children, r.value);
      FilterMembership(TypeCriterion(cls), BfsQ(ComponentAxis, container.children));
      assert TypeCriterion(cls)(r.value);
    }
  }

  /** Every widget is a `java.awt.Component`: asking for that class collects the whole walk. */
  lemma {:induction false} EveryWidgetIsAComponent(q: seq<Node>)
    ensures Filter(TypeCriterion(Component), q) == q
  {
    if q != [] {
      InstanceOfAncestors(q[0].kind);
      EveryWidgetIsAComponent(q[1..]);
      assert q == [q[0]] + q[1..];
    }
  }

  // ---------------------------------------------------------------------
  // The menu search engine
  // ---------------------------------------------------------------------

  /** The string a menu search compares: the name with `MatchByName`, else the displayed text. */
  function MenuLabel(n: Node, byName: bool): Option<string> {
    if byName then n.name else n.text
  }

  /**
   * The criterion of the private `getMenu`: only a `cls` is compared, and
   * comparing a null name or text throws a NullPointerException.
   */
  function MenuCriterion(cls: Kind, byName: bool, text: string): Node -> Outcome<bool> {
    (n: Node) =>
      if !IsInstance(n.kind, cls) then Returned(false)
      else if MenuLabel(n, byName).None? then Threw(NullPointer)
      else Returned(MenuLabel(n, byName).value == text)
  }

  function MenuMessage(text: string): string {
    "No menu \"" + text + "\" found"
  }

  ghost predicate AllRejected(s: seq<Node>, verdict: Node -> Outcome<bool>) {
    forall j :: 0 <= j < |s| ==> verdict(s[j]) == Returned(false)
  }

  /** The search stops at position `k` of `order`: the first test that does not answer no. */
  ghost predicate FirstStopAt(order: seq<Node>, k: int, verdict: Node -> Outcome<bool>) {
    0 <= k < |order| && verdict(order[k]) != Returned(false)
    && forall j :: 0 <= j < k ==> verdict(order[j]) == Returned(false)
  }

  /**
   * `r` is the outcome of testing `order` front to back with a criterion
   * that may throw: the first accepted widget, or what the first throwing
   * test threw, or `No menu "<text>" found` when every test said no.
   */
  ghost predicate IsFirstMenuMatch(order: seq<Node>, verdict: Node -> Outcome<bool>, text: string, r: Outcome<Node>) {
    match r
    case Returned(n) =>
      exists k :: FirstStopAt(order, k, verdict) && order[k] == n && verdict(n) == Returned(true)
    case Threw(e) =>
      || (e == AssertionError(MenuMessage(text)) && AllRejected(order, verdict))
      || (exists k :: FirstStopAt(order, k, verdict) && verdict(order[k]) == Threw(e))
  }

  /** When the menu criterion answers no, throws, or says yes. */
  lemma MenuCriterionCases(cls: Kind, byName: bool, text: string, x: Node)
    ensures MenuCriterion(cls, byName, text)(x) == Returned(false) <==>
              !IsInstance(x.kind, cls) || (MenuLabel(x, byName).Some? && MenuLabel(x, byName) != Some(text))
    ensures MenuCriterion(cls, byName, text)(x) == Returned(true) <==>
              IsInstance(x.kind, cls) && MenuLabel(x, byName) == Some(text)
    ensures MenuCriterion(cls, byName, text)(x).Threw? ==>
              MenuCriterion(cls, byName, text)(x) == Threw(NullPointer)
              && IsInstance(x.kind, cls) && MenuLabel(x, byName).None?
  {
  }

  /** What a menu search reports about the order it tested. */
  lemma FirstMenuMatchInOrder(order: seq<Node>, cls: Kind, byName: bool, text: string, r: Outcome<Node>)
    requires IsFirstMenuMatch(order, MenuCriterion(cls, byName, text), text, r)
    ensures r.Returned? ==> IsInstance(r.value.kind, cls) && MenuLabel(r.value, byName) == Some(text) && r.value in order
    ensures r.Threw? ==> r.error == AssertionError(MenuMessage(text)) || r.error == NullPointer
    ensures r == Threw(NullPointer) ==>
              exists x :: x in order && IsInstance(x.kind, cls) && MenuLabel(x, byName).None?
    ensures r == Threw(AssertionError(MenuMessage(text))) <==>
              AllRejected(order, MenuCriterion(cls, byName, text))
  {
  }

  /** What a menu search reports about the menu entries it can reach. */
  lemma FirstMenuMatchInScope(roots: seq<Node>, nested: bool, cls: Kind, byName: bool, text: string, r: Outcome<Node>)
    requires IsFirstMenuMatch(SearchOrder(MenuAxis, roots, nested), MenuCriterion(cls, byName, text), text, r)
    ensures r.Returned? ==> IsInstance(r.value.kind, cls) && MenuLabel(r.value, byName) == Some(text)
                            && r.value in Scope(MenuAxis, roots, nested)
    ensures r.Threw? ==> r.error == AssertionError(MenuMessage(text)) || r.error == NullPointer
    ensures r == Threw(NullPointer) ==>
              exists x :: x in Scope(MenuAxis, roots, nested) && IsInstance(x.kind, cls) && MenuLabel(x, byName).None?
    ensures r == Threw(AssertionError(MenuMessage(text))) <==>
              forall x :: x in Scope(MenuAxis, roots, nested) ==>
                !IsInstance(x.kind, cls) || (MenuLabel(x, byName).Some? && MenuLabel(x, byName) != Some(text))
  {
    var order := SearchOrder(MenuAxis, roots, nested);
    var verdict := MenuCriterion(cls, byName, text);
    FirstMenuMatchInOrder(order, cls, byName, text, r);
    OrderCoversScope(MenuAxis, roots, nested);
    forall x
      ensures verdict(x) == Returned(false) <==>
                !IsInstance(x.kind, cls) || (MenuLabel(x, byName).Some? && MenuLabel(x, byName) != Some(text))
    {
      MenuCriterionCases(cls, byName, text, x);
    }
    if AllRejected(order, verdict) {
      forall x | x in order
        ensures verdict(x) == Returned(false)
      {
        var j :| 0 <= j < |order| && order[j] == x;
      }
    }
  }

  /** The widgets whose menu test does not answer no: it accepts them or throws. */
  function Stops(verdict: Node -> Outcome<bool>): Node -> bool {
    (n: Node) => verdict(n) != Returned(false)
  }

  /**
   * A nested menu search returns a shallowest entry whose test does not
   * answer no: no entry that is accepted, or whose test throws, lies at a
   * smaller depth.
   */
  lemma FirstMenuMatchIsShallowest(roots: seq<Node>, verdict: Node -> Outcome<bool>, text: string, r: Outcome<Node>)
    requires IsFirstMenuMatch(BfsQ(MenuAxis, roots), verdict, text, r)
    ensures r.Returned? ==> IsShallowest(ForestLevels(MenuAxis, roots), Stops(verdict), r.value)
  {
    if r.Returned? {
      var k :| FirstStopAt(BfsQ(MenuAxis, roots), k, verdict) && BfsQ(MenuAxis, roots)[k] == r.value;
      FirstInWalkIsShallowest(MenuAxis, roots, k, Stops(verdict));
    }
  }

  /** A menu search stops at `c`, after the rejected `visited`, when `c` is accepted or its test throws. */
  lemma MenuStopped(order: seq<Node>, visited: seq<Node>, c: Node, rest: seq<Node>,
                    verdict: Node -> Outcome<bool>, text: string, r: Outcome<Node>)
    requires order == visited + ([c] + rest)
    requires AllRejected(visited, verdict)
    requires verdict(c).Threw? || verdict(c) == Returned(true)
    requires r == if verdict(c).Threw? then Threw(verdict(c).error) else Returned(c)
    ensures IsFirstMenuMatch(order, verdict, text, r)
  {
    assert FirstStopAt(order, |visited|, verdict);
  }

  /** An entry the criterion answers no for joins the tested prefix. */
  lemma MenuRejectedStep(order: seq<Node>, visited: seq<Node>, c: Node, rest: seq<Node>, verdict: Node -> Outcome<bool>)
    requires order == visited + ([c] + rest)
    requires AllRejected(visited, verdict) && verdict(c) == Returned(false)
    ensures order == (visited + [c]) + rest && AllRejected(visited + [c], verdict)
  {
  }

  /**
   * The walk of the private `getMenu`: test the entries breadth-first,
   * descending into non-matching `JMenu`s through their menu components
   * when `goNested`; stop at the first test that accepts or throws.
   */
  method SearchMenus(components: seq<Node>, criteria: Node -> Outcome<bool>, goNested: bool, text: string)
    returns (r: Outcome<Node>)
    ensures IsFirstMenuMatch(SearchOrder(MenuAxis, components, goNested), criteria, text, r)
  {
    ghost var order := SearchOrder(MenuAxis, components, goNested);
    var queue := components;
    ghost var visited: seq<Node> := [];
    while queue != []
      invariant order == visited + SearchOrder(MenuAxis, queue, goNested)
      invariant AllRejected(visited, criteria)
      decreases QSize(queue)
    {
      var c := queue[0];
      SearchOrderStep(MenuAxis, queue, goNested);
      ghost var next := queue[1..] + (if goNested then Expand(MenuAxis, c) else []);
      queue := queue[1..];
      var verdict := criteria(c);
      if verdict.Threw? || verdict.value {
        r := if verdict.Threw? then Threw(verdict.error) else Returned(c);
        MenuStopped(order, visited, c, SearchOrder(MenuAxis, next, goNested), criteria, text, r);
        return;
      }
      if goNested && IsInstance(c.kind, JMenu) {
        queue := queue + c.menuChildren;
      }
      assert queue == next;
      MenuRejectedStep(order, visited, c, SearchOrder(MenuAxis, next, goNested), criteria);
      visited := visited + [c];
    }
    assert order == visited + [];
    r := Threw(AssertionError(MenuMessage(text)));
  }

  /**
   * The private `getMenu`: build the criterion (an instance of `cls` whose
   * name, with `MatchByName`, or else displayed text equals `text`) and
   * search the entries, nested unless `SearchFlat` is present.
   */
  method FindMenu(components: seq<Node>, cls: Kind, text: string, flags: seq<Flag>) returns (r: Outcome<Node>)
    ensures IsFirstMenuMatch(SearchOrder(MenuAxis, components, IsNested(flags)),
                             MenuCriterion(cls, ByName(flags), text), text, r)
    ensures r.Returned? ==> IsInstance(r.value.kind, cls) && MenuLabel(r.value, ByName(flags)) == Some(text)
                            && r.value in Scope(MenuAxis, components, IsNested(flags))
    ensures r.Returned? && IsNested(flags) ==>
              IsShallowest(ForestLevels(MenuAxis, components), Stops(MenuCriterion(cls, ByName(flags), text)), r.value)
    ensures r.Threw? ==> r.error == AssertionError(MenuMessage(text)) || r.error == NullPointer
    ensures r == Threw(AssertionError(MenuMessage(text))) <==>
              forall x :: x in Scope(MenuAxis, components, IsNested(flags)) ==>
                !IsInstance(x.kind, cls)
                || (MenuLabel(x, ByName(flags)).Some? && MenuLabel(x, ByName(flags)) != Some(text))
  {
    var byName := Have(flags, MatchByName);
    var criteria := MenuCriterion(cls, byName, text);
    var flat := Have(flags, SearchFlat);
    r := SearchMenus(components, criteria, !flat, text);
    FirstMenuMatchInScope(components, !flat, cls, byName, text, r);
    if !flat {
      FirstMenuMatchIsShallowest(components, criteria, text, r);
    }
  }

  /** `getSubMenu(JMenuBar, text, flags)`: a `JMenu` reachable from the bar's menus. */
  method GetSubMenuOfBar(menubar: Node, text: string, flags: seq<Flag>) returns (r: Outcome<Node>)
    requires IsInstance(menubar.kind, JMenuBar)
    ensures IsFirstMenuMatch(SearchOrder(MenuAxis, menubar.children, IsNested(flags)),
                             MenuCriterion(JMenu, ByName(flags), text), text, r)
    ensures r.Returned? ==> IsInstance(r.value.kind, JMenu) && MenuLabel(r.value, ByName(flags)) == Some(text)
    ensures r.Threw? ==> r.error == AssertionError(MenuMessage(text)) || r.error == NullPointer
  {
    r := FindMenu(menubar.children, JMenu, text, flags);
  }

  /** `getSubMenu(JMenu, text, flags)`: a `JMenu` among (or below) the menu's entries. */
  method GetSubMenu(submenu: Node, text: string, flags: seq<Flag>) returns (r: Outcome<Node>)
    requires IsInstance(submenu.kind, JMenu)
    ensures IsFirstMenuMatch(SearchOrder(MenuAxis, submenu.menuChildren, IsNested(flags)),
                             MenuCriterion(JMenu, ByName(flags), text), text, r)
    ensures r.Returned? ==> IsInstance(r.value.kind, JMenu) && MenuLabel(r.value, ByName(flags)) == Some(text)
    ensures r.Returned? ==> r.value != submenu
    ensures r.Threw? ==> r.error == AssertionError(MenuMessage(text)) || r.error == NullPointer
  {
    r := FindMenu(submenu.menuChildren, JMenu, text, flags);
    if r.Returned? {
      NeverVisitsSeed(MenuAxis, submenu);
    }
  }

  /**
   * `getMenu(JMenu, text, flags)`: any `JMenuItem` among (or below) the
   * menu's entries; a `JMenu` qualifies too, being a `JMenuItem`.
   */
  method GetMenu(submenu: Node, text: string, flags: seq<Flag>) returns (r: Outcome<Node>)
    requires IsInstance(submenu.kind, JMenu)
    ensures IsFirstMenuMatch(SearchOrder(MenuAxis, submenu.menuChildren, IsNested(flags)),
                             MenuCriterion(JMenuItem, ByName(flags), text), text, r)
    ensures r.Returned? ==> IsInstance(r.value.kind, JMenuItem) && MenuLabel(r.value, ByName(flags)) == Some(text)
    ensures r.Returned? ==> r.value != submenu
    ensures r.Threw? ==> r.error == AssertionError(MenuMessage(text)) || r.error == NullPointer
  {
    r := FindMenu(submenu.menuChildren, JMenuItem, text, flags);
    if r.Returned? {
      NeverVisitsSeed(MenuAxis, submenu);
    }
  }

  // ---------------------------------------------------------------------
  // Menu bars, menu lists and tabs
  // ---------------------------------------------------------------------

  /** `getMenuBar`: the frame's menu bar, or an AssertionError when it has none. */
  function GetMenuBar(frame: FrameView): (r: Outcome<Node>)
    ensures r.Returned? <==> frame.jMenuBar.Some?
    ensures r.Returned? ==> r.value == frame.jMenuBar.value
    ensures r.Threw? ==> r.error == AssertionError("No menubar found")
  {
    match frame.jMenuBar
    case None => Threw(AssertionError("No menubar found"))
    case Some(bar) => Returned(bar)
  }

  /**
   * `getMenus(JMenuBar)`: one entry per component of the bar, in order, as
   * `JMenuBar.getMenu(i)` gives it: the component when it is a `JMenu`,
   * null otherwise. A null bar gives the empty list.
   */
  method GetMenusOfBar(menubar: Option<Node>) returns (result: seq<Option<Node>>)
    requires menubar.Some? ==> IsInstance(menubar.value.kind, JMenuBar)
    ensures menubar.None? ==> result == []
    ensures menubar.Some? ==> |result| == |menubar.value.children|
    ensures menubar.Some? ==> forall i :: 0 <= i < |result| ==>
              && (result[i].Some? <==> IsInstance(menubar.value.children[i].kind, JMenu))
              && (result[i].Some? ==> result[i].value == menubar.value.children[i])
  {
    result := [];
    if menubar.Some? {
      var bar := menubar.value;
      for i := 0 to |bar.children|
        invariant |result| == i
        invariant forall j :: 0 <= j < i ==>
                    && (result[j].Some? <==> IsInstance(bar.children[j].kind, JMenu))
                    && (result[j].Some? ==> result[j].value == bar.children[j])
      {
        var menu := if IsInstance(bar.children[i].kind, JMenu) then Some(bar.children[i]) else None;
        result := result + [menu];
      }
    }
  }

  predicate IsMenuItem(n: Node) {
    IsInstance(n.kind, JMenuItem)
  }

  /** `getMenus(JMenu)`: the menu's entries that are `JMenuItem`s, in order; separators are skipped. */
  method GetMenuItems(submenu: Node) returns (result: seq<Node>)
    requires IsInstance(submenu.kind, JMenu)
    ensures result == Filter(IsMenuItem, submenu.menuChildren)
    ensures forall x :: x in result <==> x in submenu.menuChildren && IsMenuItem(x)
  {
    result := [];
    var entries := submenu.menuChildren;
    ghost var seen: seq<Node> := [];
    for i := 0 to |entries|
      invariant seen == entries[..i]
      invariant result == Filter(IsMenuItem, seen)
    {
      FilterSnoc(IsMenuItem, seen, entries[i]);
      if IsMenuItem(entries[i]) {
        result := result + [entries[i]];
      }
      seen := seen + [entries[i]];
    }
    assert seen == entries;
    FilterMembership(IsMenuItem, entries);
  }

  /**
   * A flat `getMenu`/`getSubMenu` on a menu finds only an entry that
   * `getMenus` of the same menu lists.
   */
  lemma FlatMenuMatchIsListed(submenu: Node, cls: Kind, byName: bool, text: string, r: Outcome<Node>)
    requires IsInstance(cls, JMenuItem)
    requires IsFirstMenuMatch(SearchOrder(MenuAxis, submenu.menuChildren, false), MenuCriterion(cls, byName, text), text, r)
    ensures r.Returned? ==> r.value in Filter(IsMenuItem, submenu.menuChildren)
  {
    FirstMenuMatchInScope(submenu.menuChildren, false, cls, byName, text, r);
    FilterMembership(IsMenuItem, submenu.menuChildren);
    if r.Returned? {
      InstanceTransitive(r.value.kind, cls, JMenuItem);
    }
  }

  /** The index of the first tab titled `title`, or the tab count when there is none. */
  function FirstTitled(tabs: seq<Tab>, title: string): (i: nat)
    ensures i <= |tabs|
    ensures i < |tabs| ==> tabs[i].title == title
    ensures forall j :: 0 <= j < i ==> tabs[j].title != title
  {
    if tabs == [] then 0
    else if tabs[0].title == title then 0
    else 1 + FirstTitled(tabs[1..], title)
  }

  function TabMessage(title: string): string {
    "No tab \"" + title + "\" found"
  }

  /**
   * `getTab` as written: for the first tab titled `title` it returns
   * `getTabComponentAt`, the tab's custom title component, which is null
   * unless one was installed.
   */
  method GetTab(tabPane: seq<Tab>, title: string) returns (r: Outcome<Option<Node>>)
    ensures var i := FirstTitled(tabPane, title);
            r == if i < |tabPane| then Returned(tabPane[i].tabComponent) else Threw(AssertionError(TabMessage(title)))
  {
    for i := 0 to |tabPane|
      invariant forall j :: 0 <= j < i ==> tabPane[j].title != title
    {
      if tabPane[i].title == title {
        return Returned(tabPane[i].tabComponent);
      }
    }
    return Threw(AssertionError(TabMessage(title)));
  }

  /**
   * `getTab` as its documentation describes it: the component the first tab
   * titled `title` holds (`getComponentAt`), never null.
   */
  method GetTabContent(tabPane: seq<Tab>, title: string) returns (r: Outcome<Node>)
    ensures r.Returned? <==> exists i :: 0 <= i < |tabPane| && tabPane[i].title == title
    ensures r.Returned? ==> var i := FirstTitled(tabPane, title); i < |tabPane| && r.value == tabPane[i].content
    ensures r.Threw? ==> r.error == AssertionError(TabMessage(title))
  {
    for i := 0 to |tabPane|
      invariant forall j :: 0 <= j < i ==> tabPane[j].title != title
    {
      if tabPane[i].title == title {
        return Returned(tabPane[i].content);
      }
    }
    return Threw(AssertionError(TabMessage(title)));
  }

  /**
   * On a pane whose only tab, titled "A", shows a panel and has no custom
   * title component, `getTab(pane, "A")` as written returns null although
   * the tab exists, while the intended lookup returns the panel.
   */
  lemma GetTabReturnsNullForExistingTab()
    ensures var panel := Node(JPanel, None, None, [], []);
            var pane := [Tab("A", panel, None)];
            && FirstTitled(pane, "A") == 0
            && pane[FirstTitled(pane, "A")].tabComponent == None
            && pane[FirstTitled(pane, "A")].content == panel
  {
  }

  // ---------------------------------------------------------------------
  // capture
  // ---------------------------------------------------------------------

  const NoWindowDetected: string := "No window detected"

  /**
   * `capture(message, doRun)`. The dispatch thread's run of the task is
   * given by `invoke` (how the task's `invoke` ends), the listener's wait by
   * `target` (the captured window, or none on timeout) and the test's
   * verification by `handle` (how `handle(window)` ends). `armed` is the
   * criterion handed to the toolkit listener.
   */
  method Capture(message: string, task: GooeyWindow, invoke: Outcome<()>, target: Option<Node>, handle: Outcome<()>)
    returns (r: Outcome<()>, armed: EventCriteria)
    requires task.Valid()
    modifies task
    ensures task.Valid() && task.done
    ensures forall source, id :: armed.IsAccepted(source, id) <==> IsInstance(source, task.windowClass) && id == WINDOW_OPENED
    ensures task.exception == if invoke.Threw? && invoke.error.RuntimeException? then Some(invoke.error) else None
    ensures task.assertion == if invoke.Threw? && invoke.error.AssertionError? then Some(invoke.error) else None
    ensures target.Some? && handle.Threw? ==> r == handle
    ensures !(target.Some? && handle.Threw?) && invoke.Threw? && invoke.error.RuntimeException? ==> r == invoke
    ensures !(target.Some? && handle.Threw?) && invoke.Threw? && invoke.error.AssertionError? ==> r == invoke
    ensures target.None? && (invoke.Returned? || invoke.error.OtherThrowable?) ==> r == Threw(AssertionError(message))
    ensures target.Some? && handle.Returned? && (invoke.Returned? || invoke.error.OtherThrowable?) ==> r == Returned(())
  {
    task.Reset();
    armed := task.GetEventCriteria();
    var _ := task.Run(invoke);
    var window := target;
    if window.Some? && handle.Threw? {
      return handle, armed;
    }
    r := task.Finish();
    if r.Returned? && window.None? {
      r := Threw(AssertionError(message));
    }
  }

  /** `capture(doRun)`: `capture` with the message "No window detected". */
  method CaptureDefault(task: GooeyWindow, invoke: Outcome<()>, target: Option<Node>, handle: Outcome<()>)
    returns (r: Outcome<()>, armed: EventCriteria)
    requires task.Valid()
    modifies task
    ensures task.Valid() && task.done
    ensures forall source, id :: armed.IsAccepted(source, id) <==> IsInstance(source, task.windowClass) && id == WINDOW_OPENED
    ensures task.exception == if invoke.Threw? && invoke.error.RuntimeException? then Some(invoke.error) else None
    ensures task.assertion == if invoke.Threw? && invoke.error.AssertionError? then Some(invoke.error) else None
    ensures target.Some? && handle.Threw? ==> r == handle
    ensures !(target.Some? && handle.Threw?) && invoke.Threw? && invoke.error.RuntimeException? ==> r == invoke
    ensures !(target.Some? && handle.Threw?) && invoke.Threw? && invoke.error.AssertionError? ==> r == invoke
    ensures target.None? && (invoke.Returned? || invoke.error.OtherThrowable?) ==> r == Threw(AssertionError(NoWindowDetected))
    ensures target.Some? && handle.Returned? && (invoke.Returned? || invoke.error.OtherThrowable?) ==> r == Returned(())
  {
    r, armed := Capture(NoWindowDetected, task, invoke, target, handle);
  }
}
