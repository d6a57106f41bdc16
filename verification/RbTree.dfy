/**
  Red-black trees: the nodes as the program lays them out in memory, the
  tree they stand for, and the path from a position in that tree back to its
  root.
 */
module RbTree {

  /** The parent pointer and the colour, which the program packs into one word. */
  datatype ParentColor<T> = ParentColor(parent: RbNode?<T>, red: bool)

  /** A tree node; `item` is the rest of the structure the node is embedded in. */
  class RbNode<T> {
    const item: T
    var pc: ParentColor<T>
    var left: RbNode?<T>
    var right: RbNode?<T>

    constructor (item: T)
      ensures this.item == item
    {
      this.item := item;
      pc := ParentColor(null, true);
      left, right := null, null;
    }
  }

  class RbRoot<T> {
    var node: RbNode?<T>

    constructor ()
      ensures node == null
    {
      node := null;
    }
  }

  /** The tree a pointer structure stands for. */
  datatype Tree<T> = Leaf | Node(left: Tree<T>, node: RbNode<T>, red: bool, right: Tree<T>)

  /** A tree with one subtree cut out, read from the cut upwards. */
  datatype Ctx<T> =
    | Top
    | InLeft(up: Ctx<T>, node: RbNode<T>, red: bool, sib: Tree<T>)
    | InRight(up: Ctx<T>, node: RbNode<T>, red: bool, sib: Tree<T>)

  /** Puts a subtree back where the cut was. */
  ghost function Plug<T>(c: Ctx<T>, t: Tree<T>): Tree<T>
    decreases c
  {
    match c
    case Top => t
    case InLeft(up, x, red, r) => Plug(up, Node(t, x, red, r))
    case InRight(up, x, red, l) => Plug(up, Node(l, x, red, t))
  }

  // ---------------------------------------------------------------- contents

  ghost function Nodes<T>(t: Tree<T>): set<RbNode<T>>
  {
    match t
    case Leaf => {}
    case Node(l, x, _, r) => Nodes(l) + {x} + Nodes(r)
  }

  ghost function CtxNodes<T>(c: Ctx<T>): set<RbNode<T>>
  {
    match c
    case Top => {}
    case InLeft(up, x, _, s) => CtxNodes(up) + {x} + Nodes(s)
    case InRight(up, x, _, s) => CtxNodes(up) + {x} + Nodes(s)
  }

  /** The nodes in sort order. */
  ghost function Inorder<T>(t: Tree<T>): seq<RbNode<T>>
  {
    match t
    case Leaf => []
    case Node(l, x, _, r) => Inorder(l) + [x] + Inorder(r)
  }

  ghost function Before<T>(c: Ctx<T>): seq<RbNode<T>>
  {
    match c
    case Top => []
    case InLeft(up, _, _, _) => Before(up)
    case InRight(up, x, _, l) => Before(up) + Inorder(l) + [x]
  }

  ghost function After<T>(c: Ctx<T>): seq<RbNode<T>>
  {
    match c
    case Top => []
    case InLeft(up, x, _, r) => [x] + Inorder(r) + After(up)
    case InRight(up, _, _, _) => After(up)
  }

  lemma Regroup<X>(a: seq<X>, b: seq<X>, c: seq<X>, d: seq<X>, e: seq<X>)
    ensures a + (b + c + d) + e == a + b + (c + d + e)
    ensures a + (b + c + d) + e == (a + b + c) + d + e
  {
  }

  /** Cutting a tree open does not change the order of its nodes. */
  lemma {:induction false} PlugInorder<T>(c: Ctx<T>, t: Tree<T>)
    ensures Inorder(Plug(c, t)) == Before(c) + Inorder(t) + After(c)
    decreases c
  {
    match c
    case Top =>
    case InLeft(up, x, red, r) =>
      PlugInorder(up, Node(t, x, red, r));
      Regroup(Before(up), Inorder(t), [x], Inorder(r), After(up));
    case InRight(up, x, red, l) =>
      PlugInorder(up, Node(l, x, red, t));
      Regroup(Before(up), Inorder(l), [x], Inorder(t), After(up));
  }

  lemma {:induction false} PlugNodes<T>(c: Ctx<T>, t: Tree<T>)
    ensures Nodes(Plug(c, t)) == CtxNodes(c) + Nodes(t)
    decreases c
  {
    match c
    case Top =>
    case InLeft(up, x, red, r) => PlugNodes(up, Node(t, x, red, r));
    case InRight(up, x, red, l) => PlugNodes(up, Node(l, x, red, t));
  }

  lemma {:induction false} InorderNodes<T>(t: Tree<T>)
    ensures forall x :: x in Nodes(t) ==> x in Inorder(t)
    ensures forall x :: x in Inorder(t) ==> x in Nodes(t)
  {
    match t
    case Leaf =>
    case Node(l, _, _, r) => InorderNodes(l); InorderNodes(r);
  }

  // ---------------------------------------------------------------- colours

  predicate Black<T>(t: Tree<T>) { t.Leaf? || !t.red }

  /** The number of black nodes on the leftmost path to a leaf. */
  function BlackHeight<T>(t: Tree<T>): nat
  {
    match t
    case Leaf => 0
    case Node(l, _, red, _) => BlackHeight(l) + if red then 0 else 1
  }

  /** No red node has a red child, and all paths to leaves carry the same number of black nodes. */
  ghost predicate Balanced<T>(t: Tree<T>)
  {
    match t
    case Leaf => true
    case Node(l, _, red, r) =>
      && Balanced(l) && Balanced(r)
      && BlackHeight(l) == BlackHeight(r)
      && (red ==> Black(l) && Black(r))
  }

  /** A context whose hole has no red parent (the place above the root counts as red). */
  predicate BlackAbove<T>(c: Ctx<T>) { !c.Top? && !c.red }

  /** Around the hole the tree is balanced, as far as it can be told, if the hole holds black height `h`. */
  ghost predicate CtxBalanced<T>(c: Ctx<T>, h: nat)
  {
    match c
    case Top => true
    case InLeft(up, _, red, s) =>
      && Balanced(s) && BlackHeight(s) == h
      && (red ==> Black(s) && BlackAbove(up))
      && CtxBalanced(up, h + if red then 0 else 1)
    case InRight(up, _, red, s) =>
      && Balanced(s) && BlackHeight(s) == h
      && (red ==> Black(s) && BlackAbove(up))
      && CtxBalanced(up, h + if red then 0 else 1)
  }

  /** The red-black properties of a whole tree. */
  ghost predicate RedBlack<T>(t: Tree<T>)
  {
    Balanced(t) && Black(t)
  }

  /** A whole tree is red-black exactly when what is in the hole and what is around it fit together. */
  lemma {:induction false} PlugRedBlack<T>(c: Ctx<T>, t: Tree<T>)
    ensures RedBlack(Plug(c, t)) <==>
            Balanced(t) && CtxBalanced(c, BlackHeight(t)) && (Black(t) || BlackAbove(c))
    decreases c
  {
    match c
    case Top =>
    case InLeft(up, x, red, r) => PlugRedBlack(up, Node(t, x, red, r));
    case InRight(up, x, red, l) => PlugRedBlack(up, Node(l, x, red, t));
  }

  // ---------------------------------------------------------------- no node twice

  /** No node is used twice. */
  ghost predicate Apart<T>(t: Tree<T>)
  {
    match t
    case Leaf => true
    case Node(l, x, _, r) =>
      x !in Nodes(l) && x !in Nodes(r) && Nodes(l) !! Nodes(r) && Apart(l) && Apart(r)
  }

  ghost predicate CtxApart<T>(c: Ctx<T>)
  {
    match c
    case Top => true
    case InLeft(up, x, _, s) =>
      x !in Nodes(s) && x !in CtxNodes(up) && Nodes(s) !! CtxNodes(up) && Apart(s) && CtxApart(up)
    case InRight(up, x, _, s) =>
      x !in Nodes(s) && x !in CtxNodes(up) && Nodes(s) !! CtxNodes(up) && Apart(s) && CtxApart(up)
  }

  ghost predicate Fits<T>(c: Ctx<T>, t: Tree<T>)
  {
    CtxApart(c) && Apart(t) && CtxNodes(c) !! Nodes(t)
  }

  lemma {:induction false} PlugApart<T>(c: Ctx<T>, t: Tree<T>)
    ensures Apart(Plug(c, t)) <==> Fits(c, t)
    decreases c
  {
    match c
    case Top =>
    case InLeft(up, x, red, r) => PlugApart(up, Node(t, x, red, r));
    case InRight(up, x, red, l) => PlugApart(up, Node(l, x, red, t));
  }

  // ---------------------------------------------------------------- rearranging

  /** The same nodes in the same order. */
  ghost predicate Same<T>(t: Tree<T>, t': Tree<T>)
  {
    Inorder(t) == Inorder(t') && Nodes(t) == Nodes(t') && (Apart(t) <==> Apart(t'))
  }

  lemma Reassociate<X>(a: seq<X>, b: seq<X>, c: seq<X>, d: seq<X>, e: seq<X>)
    ensures (a + b + c) + d + e == a + b + (c + d + e)
  {
  }

  /** A rotation changes neither the nodes nor their order, whatever colours it leaves. */
  lemma RotationSame<T>(a: Tree<T>, x: RbNode<T>, b: Tree<T>, y: RbNode<T>, c: Tree<T>,
                        xRed: bool, yRed: bool, xRed': bool, yRed': bool)
    ensures Same(Node(Node(a, x, xRed, b), y, yRed, c), Node(a, x, xRed', Node(b, y, yRed', c)))
  {
    Reassociate(Inorder(a), [x], Inorder(b), [y], Inorder(c));
  }

  /** Subtrees that are the same may stand for one another. */
  lemma PlugSame<T>(c: Ctx<T>, t: Tree<T>, t': Tree<T>)
    requires Same(t, t')
    ensures Same(Plug(c, t), Plug(c, t'))
  {
    PlugInorder(c, t);
    PlugInorder(c, t');
    PlugNodes(c, t);
    PlugNodes(c, t');
    PlugApart(c, t);
    PlugApart(c, t');
  }

  /** Nor does a double rotation. */
  lemma LeftRightSame<T>(a: Tree<T>, x: RbNode<T>, b: Tree<T>, z: RbNode<T>, c: Tree<T>, y: RbNode<T>, d: Tree<T>,
                         r1: bool, r2: bool, r3: bool, r1': bool, r2': bool, r3': bool)
    ensures Same(Node(Node(a, x, r1, Node(b, z, r2, c)), y, r3, d),
                 Node(Node(a, x, r1', b), z, r2', Node(c, y, r3', d)))
  {
    var xt, xt' := Node(a, x, r1, Node(b, z, r2, c)), Node(Node(a, x, r1', b), z, r2, c);
    RotationSame(a, x, b, z, c, r1', r2, r1, r2);
    PlugSame(InLeft(Top, y, r3, d), xt, xt');
    assert Same(Node(xt, y, r3, d), Node(xt', y, r3, d));
    RotationSame(Node(a, x, r1', b), z, c, y, d, r2, r3, r2', r3');
  }

  lemma RightLeftSame<T>(a: Tree<T>, y: RbNode<T>, b: Tree<T>, z: RbNode<T>, c: Tree<T>, x: RbNode<T>, d: Tree<T>,
                         r1: bool, r2: bool, r3: bool, r1': bool, r2': bool, r3': bool)
    ensures Same(Node(a, y, r1, Node(Node(b, z, r2, c), x, r3, d)),
                 Node(Node(a, y, r1', b), z, r2', Node(c, x, r3', d)))
  {
    var xt, xt' := Node(Node(b, z, r2, c), x, r3, d), Node(b, z, r2, Node(c, x, r3', d));
    RotationSame(b, z, c, x, d, r2, r3, r2, r3');
    PlugSame(InRight(Top, y, r1, a), xt, xt');
    assert Same(Node(a, y, r1, xt), Node(a, y, r1, xt'));
    RotationSame(a, y, b, z, Node(c, x, r3', d), r1', r2', r1, r2);
  }

  // ---------------------------------------------------------------- memory

  /** The fields of one node. */
  datatype Cell<T> = Cell(pc: ParentColor<T>, left: RbNode?<T>, right: RbNode?<T>)

  /** The contents of the root pointer and of a set of nodes, with the elementary writes. */
  datatype Mem<T> = Mem(root: RbNode?<T>, cells: map<RbNode<T>, Cell<T>>) {

    ghost function SetPc(x: RbNode<T>, pc: ParentColor<T>): Mem<T>
      requires x in cells
    {
      Mem(root, cells[x := cells[x].(pc := pc)])
    }

    ghost function SetLeft(x: RbNode<T>, p: RbNode?<T>): Mem<T>
      requires x in cells
    {
      Mem(root, cells[x := cells[x].(left := p)])
    }

    ghost function SetRight(x: RbNode<T>, p: RbNode?<T>): Mem<T>
      requires x in cells
    {
      Mem(root, cells[x := cells[x].(right := p)])
    }

    /** Redirects the pointer that leads from `parent` (or the root) to `was`. */
    ghost function ChangeChild(was: RbNode<T>, now: RbNode?<T>, parent: RbNode?<T>): Mem<T>
      requires parent == null || parent in cells
    {
      if parent == null then Mem(now, cells)
      else if cells[parent].left == was then SetLeft(parent, now)
      else SetRight(parent, now)
    }
  }

  ghost function Memory<T>(root: RbRoot<T>, nodes: set<RbNode<T>>): Mem<T>
    reads root, nodes
  {
    Mem(root.node, map x | x in nodes :: Cell(x.pc, x.left, x.right))
  }

  /** `p` points to memory laid out as `t`, with parent link `up` at the root. */
  ghost predicate Shape<T>(m: Mem<T>, t: Tree<T>, p: RbNode?<T>, up: RbNode?<T>)
  {
    match t
    case Leaf => p == null
    case Node(l, x, red, r) =>
      && p == x && x in m.cells && m.cells[x].pc == ParentColor(up, red)
      && Shape(m, l, m.cells[x].left, x) && Shape(m, r, m.cells[x].right, x)
  }

  /** Memory around a hole: `hole` is the pointer that fills it, `parent` the node above it. */
  ghost predicate CtxShape<T>(m: Mem<T>, c: Ctx<T>, hole: RbNode?<T>, parent: RbNode?<T>)
    decreases c
  {
    match c
    case Top => m.root == hole && parent == null
    case InLeft(up, x, red, s) =>
      && parent == x && x in m.cells && m.cells[x].left == hole && m.cells[x].pc.red == red
      && Shape(m, s, m.cells[x].right, x) && CtxShape(m, up, x, m.cells[x].pc.parent)
    case InRight(up, x, red, s) =>
      && parent == x && x in m.cells && m.cells[x].right == hole && m.cells[x].pc.red == red
      && Shape(m, s, m.cells[x].left, x) && CtxShape(m, up, x, m.cells[x].pc.parent)
  }

  /** Memory is laid out as a subtree and what is around it. */
  ghost predicate Focus<T>(m: Mem<T>, c: Ctx<T>, t: Tree<T>, p: RbNode?<T>, parent: RbNode?<T>)
  {
    CtxShape(m, c, p, parent) && Shape(m, t, p, parent)
  }

  /** Memory is laid out as the tree `t`, each node used once. */
  ghost predicate Rooted<T>(m: Mem<T>, t: Tree<T>)
  {
    Apart(t) && Shape(m, t, m.root, null)
  }

  /** A tree is not disturbed by writes elsewhere. */
  lemma {:induction false} FrameShape<T>(m: Mem<T>, m': Mem<T>, t: Tree<T>, p: RbNode?<T>, up: RbNode?<T>)
    requires Shape(m, t, p, up)
    requires forall x :: x in Nodes(t) && x in m.cells ==> x in m'.cells && m'.cells[x] == m.cells[x]
    ensures Shape(m', t, p, up)
  {
    match t
    case Leaf =>
    case Node(l, x, _, r) =>
      FrameShape(m, m', l, m.cells[x].left, x);
      FrameShape(m, m', r, m.cells[x].right, x);
  }

  lemma {:induction false} FrameCtx<T>(m: Mem<T>, m': Mem<T>, c: Ctx<T>, hole: RbNode?<T>, parent: RbNode?<T>)
    requires CtxShape(m, c, hole, parent) && m'.root == m.root
    requires forall x :: x in CtxNodes(c) && x in m.cells ==> x in m'.cells && m'.cells[x] == m.cells[x]
    ensures CtxShape(m', c, hole, parent)
    decreases c
  {
    match c
    case Top =>
    case InLeft(up, x, _, s) =>
      FrameShape(m, m', s, m.cells[x].right, x);
      FrameCtx(m, m', up, x, m.cells[x].pc.parent);
    case InRight(up, x, _, s) =>
      FrameShape(m, m', s, m.cells[x].left, x);
      FrameCtx(m, m', up, x, m.cells[x].pc.parent);
  }

  /** Memory is laid out as a whole tree exactly when it is laid out as its two parts. */
  lemma {:induction false} PlugShape<T>(m: Mem<T>, c: Ctx<T>, t: Tree<T>, p: RbNode?<T>, parent: RbNode?<T>)
    requires CtxShape(m, c, p, parent) && Shape(m, t, p, parent)
    ensures Shape(m, Plug(c, t), m.root, null)
    decreases c
  {
    match c
    case Top =>
    case InLeft(up, x, red, r) => PlugShape(m, up, Node(t, x, red, r), x, m.cells[x].pc.parent);
    case InRight(up, x, red, l) => PlugShape(m, up, Node(l, x, red, t), x, m.cells[x].pc.parent);
  }

  /** `ChangeChild` replaces what fills the hole. */
  lemma ChangedChild<T>(m: Mem<T>, c: Ctx<T>, was: RbNode<T>, now: RbNode?<T>, parent: RbNode?<T>)
    requires CtxApart(c) && CtxShape(m, c, was, parent) && was !in CtxNodes(c)
    ensures CtxShape(m.ChangeChild(was, now, parent), c, now, parent)
  {
    var m' := m.ChangeChild(was, now, parent);
    match c
    case Top =>
    case InLeft(up, x, _, s) =>
      FrameShape(m, m', s, m.cells[x].right, x);
      FrameCtx(m, m', up, x, m.cells[x].pc.parent);
    case InRight(up, x, _, s) =>
      FrameShape(m, m', s, m.cells[x].left, x);
      FrameCtx(m, m', up, x, m.cells[x].pc.parent);
  }

  /** The subtree one level up. */
  ghost function Widen<T>(c: Ctx<T>, t: Tree<T>): Tree<T>
    requires !c.Top?
  {
    if c.InLeft? then Node(t, c.node, c.red, c.sib) else Node(c.sib, c.node, c.red, t)
  }

  /** A focus may be moved one level up. */
  lemma Widened<T>(m: Mem<T>, c: Ctx<T>, t: Tree<T>, p: RbNode?<T>, parent: RbNode?<T>)
    requires Fits(c, t) && Focus(m, c, t, p, parent) && !c.Top?
    ensures Plug(c, t) == Plug(c.up, Widen(c, t))
    ensures parent == c.node && parent in m.cells && m.cells[parent].pc.red == c.red
    ensures Fits(c.up, Widen(c, t)) && Focus(m, c.up, Widen(c, t), parent, m.cells[parent].pc.parent)
  {
  }

  /** A focus may be moved one level down. */
  lemma NarrowedLeft<T>(m: Mem<T>, c: Ctx<T>, w: Tree<T>, p: RbNode<T>, parent: RbNode?<T>)
    requires Fits(c, w) && Focus(m, c, w, p, parent) && w.Node?
    ensures w.node == p && p in m.cells
    ensures
      var c' := InLeft(c, w.node, w.red, w.right);
      Plug(c', w.left) == Plug(c, w) && Fits(c', w.left) && Focus(m, c', w.left, m.cells[p].left, p)
  {
  }

  lemma NarrowedRight<T>(m: Mem<T>, c: Ctx<T>, w: Tree<T>, p: RbNode<T>, parent: RbNode?<T>)
    requires Fits(c, w) && Focus(m, c, w, p, parent) && w.Node?
    ensures w.node == p && p in m.cells
    ensures
      var c' := InRight(c, w.node, w.red, w.left);
      Plug(c', w.right) == Plug(c, w) && Fits(c', w.right) && Focus(m, c', w.right, m.cells[p].right, p)
  {
  }
}
