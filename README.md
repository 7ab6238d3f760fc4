# Gooey in Dafny

Gooey is a small Java library for testing Swing programs. A test hands
`Gooey.capture` a `GooeyWindow` task whose `invoke` opens a window and whose
`handle` inspects it. Inside `handle`, the static lookups of `Gooey` find
widgets in the window's component tree: by class, class and name, label or
button text, menu text or name, and tab title.

This project models two parts of the library and proves properties about them:

- **The search engine.** Every lookup is the same queue-based
  breadth-first walk. It starts from a container's direct children, or from
  a menu's entries, and appends the contents of each rejected widget to the
  tail of the queue.
- **The task life cycle** (`run`, `reset`, `finish`, the window-opened
  event criterion) and the order in which `capture` reports outcomes.

Files:

- `lang.dfy` (module `Lang`): Java's `null` as `Option`, the three kinds of
  throwable the library tells apart, and `Outcome` (returns or throws).
- `toolkit.dfy` (module `Toolkit`): the Swing/AWT classes Gooey meets and
  their single-inheritance chain. `IsInstance` is `Class.isInstance`, so a
  `JMenu` is a `JMenuItem`. Widgets are values,
  `Node(kind, name, text, children, menuChildren)`. A frame has an optional
  menu bar, and a tab has a title, content and optional tab component.
- `traversal.dfy` (module `Traversal`): `BfsQ` is the breadth-first visiting
  order of a queue, decreasing on the total size of the queue. `Preorder` is
  an independent depth-first enumeration of the same forest. Proved:
  - the walk is a permutation of the forest;
  - it tests the queue's own widgets first;
  - it never tests the widget it was seeded from.
- `levels.dfy` (module `Levels`): depths in a widget forest. The roots sit
  at depth 0 and what a widget contains one level deeper. `BfsLevels` is the
  search walk with each widget's depth carried along. `DfsTree` and
  `DfsLevels` enumerate the forest depth-first with depths, independently.
  Proved:
  - the walk lists the same widgets as `BfsQ`;
  - it is a permutation of the depth-first enumeration, depths included;
  - its depths never decrease;
  - so the first widget a search stops at is a shallowest one.
- `gooey_window.dfy` (module `Tasks`): the class `GooeyWindow`. Its fields
  `exception`, `assertion` and `done` are updated in place. `criteria` is a
  `const`, so nothing after construction can replace it.
- `gooey.dfy` (module `Gooey`): the lookups. The three `while` loops are
  methods over a queue, each proved against `BfsQ`:
  - `FindComponent` (private `getComponent`);
  - `GetComponents`;
  - `SearchMenus`, the loop of the private `getMenu`, which `FindMenu` arms
    with its criterion.

  The public wrappers and their criteria, `have`, `getMenuBar`, both
  `getMenus`, `getTab` and `capture` are modelled in the same module.

The model follows the code where it differs from its documentation:

- The lookups are breadth-first, although the comment on
  `getComponent(container, swing)` says depth first.
- Only the presence of `SEARCH_FLAT` and `MATCH_BY_NAME` affects a search.
  The precedence of `NESTED` over `FLAT` and of `BY_TEXT` over `BY_NAME`,
  described in the menu lookups' comments, is not implemented. With
  `SEARCH_FLAT` present, a search is flat whatever else is present.
- In a menu search, a widget of the sought class whose compared string (its
  name or its text) is null makes the criterion throw a
  `NullPointerException`, which ends the search. `FindMenu` models this as
  an error outcome.

## Model

| member | source | states |
|---|---|---|
| Toolkit.InstanceOfAncestors | src/main/java/edu/cnu/cs/gooey/Gooey.java:346-349 | every class is an instance of itself and of `java.awt.Component` |
| Toolkit.AncestorsFollowSuper | src/main/java/edu/cnu/cs/gooey/Gooey.java:346-349 | the classes a widget is an instance of are its own class followed by those of its direct superclass |
| Toolkit.InstanceTransitive | src/main/java/edu/cnu/cs/gooey/Gooey.java:219-220 | `isInstance` is transitive along the superclass chain (a `JMenu` found as a `JMenuItem` subclass stays a `JMenuItem`) |
| Traversal.SearchOrderStep | src/main/java/edu/cnu/cs/gooey/Gooey.java:114-123 | one loop step: the head is tested first, then the tail, followed (when nested) by the head's contents; the queue measure decreases |
| Traversal.BfsIsPermutationOfPreorder | src/main/java/edu/cnu/cs/gooey/Gooey.java:110-126 | the breadth-first walk visits every widget of the forest exactly as often as it occurs in it (multiset equality with the depth-first enumeration) |
| Traversal.BfsStartsWithQueue | src/main/java/edu/cnu/cs/gooey/Gooey.java:112-119 | the widgets already in the queue are tested first, in queue order, before anything below them |
| Traversal.NeverVisitsSeed | src/main/java/edu/cnu/cs/gooey/Gooey.java:112-113 | a walk seeded with a widget's children or menu entries never tests the widget itself, in either order |
| Traversal.BfsCoversPreorder | src/main/java/edu/cnu/cs/gooey/Gooey.java:110-126 | a widget is visited by the walk if and only if it belongs to the forest |
| Traversal.FilterMembership | src/main/java/edu/cnu/cs/gooey/Gooey.java:381-385 | a widget is in the collected list if and only if the walk visits it and the criterion accepts it |
| Levels.BfsLevelsNodes | src/main/java/edu/cnu/cs/gooey/Gooey.java:112-123 | the walk with depths carried along tests the same widgets in the same order as the search loop |
| Levels.BfsLevelsSorted | src/main/java/edu/cnu/cs/gooey/Gooey.java:114-123 | a queue whose depths are sorted and span at most one level stays so as widgets are removed from the head and their contents, one level deeper, appended: the walk's depths never decrease |
| Levels.WalkIsDepthOrdered | src/main/java/edu/cnu/cs/gooey/Gooey.java:110-126 | the walk lists every widget of the forest at its depth, exactly as often as it occurs there, in non-decreasing depth |
| Levels.FirstInWalkIsShallowest | src/main/java/edu/cnu/cs/gooey/Gooey.java:113-125 | the first widget of the walk that stops a search has no stopping widget of the forest at a smaller depth |
| Levels.CollectedInDepthOrder | src/main/java/edu/cnu/cs/gooey/Gooey.java:377-392 | the collected widgets, with their depths, are the accepted widgets of the forest at their depths, in non-decreasing depth |
| Gooey.FirstMatchIsShallowest | src/main/java/edu/cnu/cs/gooey/Gooey.java:110-126 | a nested search's result is a shallowest accepted widget of the forest |
| Gooey.FirstMenuMatchIsShallowest | src/main/java/edu/cnu/cs/gooey/Gooey.java:229-244 | a nested menu search's result is a shallowest entry among those the criterion accepts or throws on |
| Gooey.Have | src/main/java/edu/cnu/cs/gooey/Gooey.java:135-142 | true if and only if some element equals the value |
| Gooey.FirstMatchIsUnique | src/main/java/edu/cnu/cs/gooey/Gooey.java:113-125 | the first-match specification allows exactly one outcome |
| Gooey.OrderCoversScope | src/main/java/edu/cnu/cs/gooey/Gooey.java:110-126 | a widget is tested by a search if and only if it is a root (flat) or belongs to the forest (nested) |
| Gooey.FirstMatchInScope | src/main/java/edu/cnu/cs/gooey/Gooey.java:113-125 | a found widget is accepted and reachable; the search fails if and only if no reachable widget is accepted, and then with the supplied message |
| Gooey.NestedPrefersDirectChildren | src/main/java/edu/cnu/cs/gooey/Gooey.java:112-123 | when a direct child is accepted, the nested search returns exactly what the flat search returns |
| Gooey.FindComponent | src/main/java/edu/cnu/cs/gooey/Gooey.java:110-126 | returns the first accepted widget in breadth-first order (children only with `SEARCH_FLAT`), with none accepted before it, so (nested) no accepted widget lies shallower; never the container itself; otherwise throws `AssertionError(message)`, exactly when no reachable widget is accepted |
| Gooey.GetComponents | src/main/java/edu/cnu/cs/gooey/Gooey.java:377-392 | never fails; returns the accepted widgets of the breadth-first walk in walk order, descending into accepted widgets too; as a multiset, exactly the accepted widgets of the subtree; in non-decreasing depth, each at its depth in the subtree; empty exactly when none is accepted |
| Gooey.GetComponentsSummary | src/main/java/edu/cnu/cs/gooey/Gooey.java:377-392 | a list filtered from the walk holds every accepted widget of the subtree as often as it occurs, and is empty if and only if none is accepted |
| Gooey.FirstMatchHeadsFilter | src/main/java/edu/cnu/cs/gooey/Gooey.java:110-126 | the single lookup succeeds exactly when the collected list for the same criterion is non-empty, and returns that list's first element |
| Gooey.GetComponentNamed | src/main/java/edu/cnu/cs/gooey/Gooey.java:341-351 | the first instance of the class whose name equals the given one (any name when it is null); fails with `No "<class>" component '<name>' found`, the name part omitted when null |
| Gooey.GetComponentOfType | src/main/java/edu/cnu/cs/gooey/Gooey.java:326-328 | the first instance of the class in a nested search; fails with `No "<class>" component found` exactly when the subtree holds no instance |
| Gooey.GetLabel | src/main/java/edu/cnu/cs/gooey/Gooey.java:83-97 | the first `JLabel` whose text equals the argument; fails with `No label "<text>" found` exactly when there is none |
| Gooey.GetButton | src/main/java/edu/cnu/cs/gooey/Gooey.java:152-166 | the first `JButton` whose text equals the argument; fails with `No button "<text>" found` exactly when there is none |
| Gooey.GetComponentsOfType | src/main/java/edu/cnu/cs/gooey/Gooey.java:360-367 | every instance of the class below the container, in breadth-first order, each exactly as often as it occurs |
| Gooey.NamedMatchIsCollected | src/main/java/edu/cnu/cs/gooey/Gooey.java:341-367 | what the class-and-name lookup finds, flat or nested, is in the list `getComponents` returns for that class |
| Gooey.EveryWidgetIsAComponent | src/main/java/edu/cnu/cs/gooey/Gooey.java:360-367 | collecting the class `java.awt.Component` keeps every widget of the walk |
| Gooey.MenuCriterionCases | src/main/java/edu/cnu/cs/gooey/Gooey.java:216-227 | the menu criterion rejects a widget of another class or with a different non-null name or text, accepts one of the class whose name or text (by flag) equals the argument, and throws a `NullPointerException` only for a widget of the class whose compared string is null |
| Gooey.SearchMenus | src/main/java/edu/cnu/cs/gooey/Gooey.java:229-244 | tests the entries in breadth-first order (roots only when flat): returns the first accepted widget, with every earlier test rejecting; stops with what the first throwing test threw; otherwise, once every test has rejected, fails with `No menu "<text>" found` |
| Gooey.FirstMenuMatchInScope | src/main/java/edu/cnu/cs/gooey/Gooey.java:213-245 | a found menu item is of the class and its name or text (by flag) equals the argument; a `NullPointerException` only when a reachable item of the class has a null string; `No menu "<text>" found` exactly when every reachable item is of another class or has a different non-null string |
| Gooey.FindMenu | src/main/java/edu/cnu/cs/gooey/Gooey.java:213-245 | builds the criterion from the flags and runs the walk: tests the entries breadth-first, descending into `JMenu`s through their menu components unless `SEARCH_FLAT` is present, comparing names if and only if `MATCH_BY_NAME` is present; returns the first match (when nested, no entry that matches or throws lies shallower), or what the first throwing test threw, or `No menu "<text>" found` |
| Gooey.GetSubMenuOfBar | src/main/java/edu/cnu/cs/gooey/Gooey.java:198-200 | a menu search for a `JMenu` over the menu bar's components |
| Gooey.GetSubMenu | src/main/java/edu/cnu/cs/gooey/Gooey.java:262-264 | a menu search for a `JMenu` over the menu's entries; never returns the menu itself |
| Gooey.GetMenu | src/main/java/edu/cnu/cs/gooey/Gooey.java:281-283 | a menu search for a `JMenuItem` (a `JMenu` included) over the menu's entries; never returns the menu itself |
| Gooey.GetMenuBar | src/main/java/edu/cnu/cs/gooey/Gooey.java:175-181 | returns the frame's menu bar if and only if it has one, else throws `AssertionError("No menubar found")` |
| Gooey.GetMenusOfBar | src/main/java/edu/cnu/cs/gooey/Gooey.java:291-300 | one entry per component of the bar, in order: the component when it is a `JMenu`, null otherwise; empty for a null bar |
| Gooey.GetMenuItems | src/main/java/edu/cnu/cs/gooey/Gooey.java:308-316 | exactly the menu's entries that are `JMenuItem`s, in order (separators skipped) |
| Gooey.FlatMenuMatchIsListed | src/main/java/edu/cnu/cs/gooey/Gooey.java:281-316 | what a flat menu lookup on a menu finds is among the items `getMenus` lists for that menu |
| Gooey.FirstTitled | src/main/java/edu/cnu/cs/gooey/Gooey.java:66-70 | the first index whose tab title equals the argument, or the tab count when there is none |
| Gooey.GetTab | src/main/java/edu/cnu/cs/gooey/Gooey.java:65-73 | as written: the tab component (`getTabComponentAt`) of the first tab with the title; `No tab "<title>" found` when there is none |
| Gooey.GetTabContent | src/main/java/edu/cnu/cs/gooey/Gooey.java:57-64 | as documented: the content of the first tab with the title; fails exactly when no tab has that title |
| Gooey.GetTabReturnsNullForExistingTab | src/main/java/edu/cnu/cs/gooey/Gooey.java:65-73 | a pane with one tab "A" and no custom tab component: the tab exists, the as-written lookup returns null, the intended lookup returns the panel |
| Gooey.Capture | src/main/java/edu/cnu/cs/gooey/Gooey.java:423-440 | arms the listener with the task's criterion (windows of its class being opened); afterwards the task is done and holds exactly what this run of `invoke` threw, nothing from an earlier run; an error from `handle` propagates and `finish` is skipped; otherwise a RuntimeException recorded by `invoke` wins, then its AssertionError; `AssertionError(message)` only when `invoke` recorded nothing and no window was captured; otherwise returns normally |
| Gooey.CaptureDefault | src/main/java/edu/cnu/cs/gooey/Gooey.java:406-408 | every outcome and effect of `capture`, with the message "No window detected" |
| Tasks.GooeyWindow.constructor | src/main/java/edu/cnu/cs/gooey/GooeyWindow.java:28-44 | a new task is not done and has recorded nothing |
| Tasks.GooeyWindow.GetEventCriteria | src/main/java/edu/cnu/cs/gooey/GooeyWindow.java:32-50 | the criterion accepts an event if and only if its source is an instance of the task's window class and its id is `WINDOW_OPENED` |
| Tasks.GooeyWindow.Run | src/main/java/edu/cnu/cs/gooey/GooeyWindow.java:53-63 | records a RuntimeException in `exception`, an AssertionError in `assertion`, lets any other throwable escape unrecorded, and sets `done` on every path |
| Tasks.GooeyWindow.Reset | src/main/java/edu/cnu/cs/gooey/GooeyWindow.java:67-71 | the task is again in the state of a fresh one |
| Tasks.GooeyWindow.Finish | src/main/java/edu/cnu/cs/gooey/GooeyWindow.java:73-90 | once `done`: throws the recorded RuntimeException, else the recorded AssertionError, else returns normally |
| Tasks.FramesAndDialogsAreDistinguished | src/main/java/edu/cnu/cs/gooey/GooeyWindow.java:32-43 | a frame task accepts only frames and a dialog task only dialogs, and no task accepts an event other than `WINDOW_OPENED` |

## Left out

- Threads and waiting are not modelled: the dispatch thread (`SwingUtilities.invokeLater`), the `synchronized` entry points, the toolkit listener's polling wait and its timeout. `Capture` takes the task's `invoke` outcome, the captured window (none on timeout) and the `handle` outcome as parameters, and runs `run` at the point where it is scheduled. So the model's task is done even when `handle` throws and `finish` is skipped; in Java the dispatch thread may still be running `invoke` then.
- Tasks.GooeyWindow.Finish: the loop that waits for `done` becomes the precondition `done`; what happens on an interrupt is not modelled.
- The toolkit listener (`GooeyToolkitListener`) is not part of this model. It is represented only by the criterion it is armed with and by the captured window passed to `Capture`. Its registration in the static initializer is toolkit I/O.
- Swing behaviour beyond reading the tree is not modelled: clicking, showing and disposing windows, titles, layout.
- Null arguments are not modelled; text and title arguments are non-null strings. In Java:
  - a null container, menu bar, menu or frame throws a `NullPointerException` when first read, except `getMenus(JMenuBar)`, which returns an empty list (modelled);
  - a null class throws when the message is built (`getComponent`) or when the first widget is tested (`getComponents`, so an empty container gives an empty list);
  - a null text to `getMenu`/`getSubMenu` never matches (`str.equals(null)` is false), so the search ends in `No menu "null" found` unless a compared string is null;
  - a null title to `getTab` never matches and ends in `No tab "null" found`;
  - a null text to `getLabel`/`getButton` throws once a `JLabel`/`JButton` is tested, and otherwise ends in `No label "null" found` or `No button "null" found`;
  - a null criterion to `getComponents` throws once a widget is tested, so an empty container gives an empty list;
  - a null flag array, or a null element in it, throws in `have`.
- Widget names and texts are nullable and are modelled as such.
- Widget classes are the twenty that `Kind` lists. A widget of any other class (`JCheckBox`, a user's subclass) is not modelled; it has to be represented by its nearest listed superclass, which answers `isInstance` the same way for every listed class.
- `GooeyDialog` is `GooeyWindow` with the window class `JDialog`: a `GooeyWindow` constructed with `JDialog`.
- `GooeyFlag` is not part of this model beyond the four values `Flag` lists. Only `SearchFlat` and `MatchByName` are ever tested.
- Generic casts `(T) c` cannot fail here and are not modelled. The lookups return the widget as a `Node`.
- Gooey.GetComponents: the public `getComponents` accepts any `GooeyCriteria`, and the model takes any `Node -> bool`. A caller's criterion that throws, which would end the walk, is not modelled. Throwing is modelled only in the menu search, where the library's own criterion can throw.

## Findings

| source | as written | input that shows it | evidently intended | confidence | as-written member | corrected member |
|---|---|---|---|---|---|---|
| src/main/java/edu/cnu/cs/gooey/Gooey.java:65-73 | `getTab` returns `getTabComponentAt(i)`, the custom component that renders a tab's title, which is null unless one was installed | a pane with one tab titled "A" showing a panel, no custom tab component; `getTab(pane, "A")` returns null although the tab exists | return `getComponentAt(i)`, the component the tab holds, as the method's documentation says | medium, not executed | Gooey.GetTab, Gooey.GetTabReturnsNullForExistingTab | Gooey.GetTabContent |
