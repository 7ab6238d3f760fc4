/**
 * The part of the Swing/AWT widget toolkit that Gooey reads: the runtime
 * classes of components with their single-inheritance chain, and the widget
 * tree itself. Gooey never changes a widget, so widgets are values.
 */
module Toolkit {
  import opened Lang

  /** The runtime classes of the widgets a search can meet. */
  datatype Kind =
    | Component | Canvas | Container
    | Window | Frame | JFrame | Dialog | JDialog
    | JComponent | JPanel | JLabel | AbstractButton | JButton | JMenuItem | JMenu
    | JMenuBar | JSeparator | JTextComponent | JTextField | JTabbedPane

  /** Distance of a class from `java.awt.Component` in the inheritance chain. */
  function Depth(k: Kind): nat {
    match k
    case Component => 0
    case Canvas | Container => 1
    case Window | JComponent => 2
    case Frame | Dialog | JPanel | JLabel | AbstractButton | JMenuBar | JSeparator | JTextComponent | JTabbedPane => 3
    case JFrame | JDialog | JButton | JMenuItem | JTextField => 4
    case JMenu => 5
  }

  /** The direct superclass, as far as it is a component class. */
  function Super(k: Kind): (s: Option<Kind>)
    ensures s.None? <==> k == Component
    ensures s.Some? ==> Depth(s.value) + 1 == Depth(k)
  {
    match k
    case Component => None
    case Canvas | Container => Some(Component)
    case Window | JComponent => Some(Container)
    case Frame | Dialog => Some(Window)
    case JFrame => Some(Frame)
    case JDialog => Some(Dialog)
    case JPanel | JLabel | AbstractButton | JMenuBar | JSeparator | JTextComponent | JTabbedPane => Some(JComponent)
    case JButton | JMenuItem => Some(AbstractButton)
    case JMenu => Some(JMenuItem)
    case JTextField => Some(JTextComponent)
  }

  /**
   * The class itself and all its component superclasses. This repeats the
   * chain `Super` walks, written out as a table because a recursive
   * definition makes every `isInstance` test an unfolding for the solver;
   * `AncestorsFollowSuper` proves the table agrees with `Super`, and
   * `Super` agrees with `Depth` by its own contract.
   */
  function Ancestors(k: Kind): set<Kind> {
    match k
    case Component => {Component}
    case Canvas => {Canvas, Component}
    case Container => {Container, Component}
    case Window => {Window, Container, Component}
    case Frame => {Frame, Window, Container, Component}
    case JFrame => {JFrame, Frame, Window, Container, Component}
    case Dialog => {Dialog, Window, Container, Component}
    case JDialog => {JDialog, Dialog, Window, Container, Component}
    case JComponent => {JComponent, Container, Component}
    case JPanel => {JPanel, JComponent, Container, Component}
    case JLabel => {JLabel, JComponent, Container, Component}
    case AbstractButton => {AbstractButton, JComponent, Container, Component}
    case JButton => {JButton, AbstractButton, JComponent, Container, Component}
    case JMenuItem => {JMenuItem, AbstractButton, JComponent, Container, Component}
    case JMenu => {JMenu, JMenuItem, AbstractButton, JComponent, Container, Component}
    case JMenuBar => {JMenuBar, JComponent, Container, Component}
    case JSeparator => {JSeparator, JComponent, Container, Component}
    case JTextComponent => {JTextComponent, JComponent, Container, Component}
    case JTextField => {JTextField, JTextComponent, JComponent, Container, Component}
    case JTabbedPane => {JTabbedPane, JComponent, Container, Component}
  }

  /** `cls.isInstance(obj)` for an object whose runtime class is `k`. */
  predicate IsInstance(k: Kind, cls: Kind) {
    cls in Ancestors(k)
  }

  /** The table of ancestors is the class followed by the ancestors of its superclass. */
  lemma AncestorsFollowSuper(k: Kind)
    ensures Ancestors(k) == {k} + (if Super(k).Some? then Ancestors(Super(k).value) else {})
  {
  }

  /** `Class.getName()`: the fully qualified name. */
  function ClassName(k: Kind): string {
    match k
    case Component => "java.awt.Component"
    case Canvas => "java.awt.Canvas"
    case Container => "java.awt.Container"
    case Window => "java.awt.Window"
    case Frame => "java.awt.Frame"
    case JFrame => "javax.swing.JFrame"
    case Dialog => "java.awt.Dialog"
    case JDialog => "javax.swing.JDialog"
    case JComponent => "javax.swing.JComponent"
    case JPanel => "javax.swing.JPanel"
    case JLabel => "javax.swing.JLabel"
    case AbstractButton => "javax.swing.AbstractButton"
    case JButton => "javax.swing.JButton"
    case JMenuItem => "javax.swing.JMenuItem"
    case JMenu => "javax.swing.JMenu"
    case JMenuBar => "javax.swing.JMenuBar"
    case JSeparator => "javax.swing.JSeparator"
    case JTextComponent => "javax.swing.text.JTextComponent"
    case JTextField => "javax.swing.JTextField"
    case JTabbedPane => "javax.swing.JTabbedPane"
  }

  /** Every class is an instance of itself and of `java.awt.Component`. */
  lemma InstanceOfAncestors(k: Kind)
    ensures IsInstance(k, k) && IsInstance(k, Component)
  {
  }

  /** `isInstance` is transitive along the inheritance chain. */
  lemma {:induction false} InstanceTransitive(a: Kind, b: Kind, c: Kind)
    requires IsInstance(a, b) && IsInstance(b, c)
    ensures IsInstance(a, c)
    decreases Depth(a)
  {
    AncestorsFollowSuper(a);
    if a != b {
      InstanceTransitive(Super(a).value, b, c);
    }
  }

  /**
   * A widget as Gooey sees it: its runtime class, `getName()`, the text
   * it displays (`getText()` of labels and buttons), `getComponents()`,
   * and `getMenuComponents()` (the entries of a `JMenu`'s popup).
   */
  datatype Node = Node(kind: Kind, name: Option<string>, text: Option<string>,
                       children: seq<Node>, menuChildren: seq<Node>)

  /** The number of widgets in a tree, counting both kinds of children. */
  function Size(n: Node): (s: nat)
    ensures s >= 1
    decreases n
  {
    1 + QSize(n.children) + QSize(n.menuChildren)
  }

  /** The number of widgets in a sequence of trees. */
  function QSize(q: seq<Node>): nat
    decreases q
  {
    if q == [] then 0 else Size(q[0]) + QSize(q[1..])
  }

  /** A frame with the menu bar `getJMenuBar()` returns (null when it has none). */
  datatype FrameView = FrameView(window: Node, jMenuBar: Option<Node>)

  /**
   * One tab of a `JTabbedPane`: `getTitleAt`, `getComponentAt` (the content
   * the tab shows) and `getTabComponentAt` (the optional custom component
   * that renders the tab's title, null unless one was installed).
   */
  datatype Tab = Tab(title: string, content: Node, tabComponent: Option<Node>)
}
