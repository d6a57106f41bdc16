/**
  Rotations: what a rotation writes, and what it does to the tree in memory.
 */
module RbRotate {
  import opened RbTree

  ghost function Recolor<T>(t: Tree<T>, red: bool): Tree<T>
  {
    if t.Leaf? then t else Node(t.left, t.node, red, t.right)
  }

  lemma RecolorSame<T>(t: Tree<T>, red: bool)
    ensures Same(t, Recolor(t, red))
  {
  }

  lemma InMemory<T>(m: Mem<T>, t: Tree<T>, p: RbNode?<T>, up: RbNode?<T>)
    requires Shape(m, t, p, up)
    ensures p == null || (p in Nodes(t) && p in m.cells)
    ensures p == null <==> t.Leaf?
  {
  }

  lemma CtxInMemory<T>(m: Mem<T>, c: Ctx<T>, p: RbNode?<T>, up: RbNode?<T>)
    requires CtxShape(m, c, p, up)
    ensures up == null || (up in CtxNodes(c) && up in m.cells)
  {
  }

  /** A subtree survives a change of its root's parent and colour. */
  lemma Reparented<T>(m: Mem<T>, m': Mem<T>, t: Tree<T>, p: RbNode?<T>, up: RbNode?<T>, up': RbNode?<T>, red: bool)
    requires Apart(t) && Shape(m, t, p, up)
    requires p != null && p in m.cells ==> p in m'.cells && m'.cells[p] == m.cells[p].(pc := ParentColor(up', red))
    requires forall x :: x in Nodes(t) && x in m.cells && x != p ==> x in m'.cells && m'.cells[x] == m.cells[x]
    ensures Shape(m', Recolor(t, red), p, up')
  {
    if t.Node? {
      FrameShape(m, m', t.left, m.cells[p].left, p);
      FrameShape(m, m', t.right, m.cells[p].right, p);
    }
  }

  /** Apart from the nodes named, two memories agree. */
  ghost predicate Agree<T>(m: Mem<T>, m': Mem<T>, w1: RbNode?<T>, w2: RbNode?<T>, w3: RbNode?<T>,
                           w4: RbNode?<T>, w5: RbNode?<T>, w6: RbNode?<T>)
  {
    forall x :: x in m.cells && x != w1 && x != w2 && x != w3 && x != w4 && x != w5 && x != w6
      ==> x in m'.cells && m'.cells[x] == m.cells[x]
  }

  ghost predicate Clear<T>(t: Tree<T>, w1: RbNode?<T>, w2: RbNode?<T>, w3: RbNode?<T>,
                           w4: RbNode?<T>, w5: RbNode?<T>, w6: RbNode?<T>)
  {
    && w1 !in Nodes(t) && w2 !in Nodes(t) && w3 !in Nodes(t)
    && w4 !in Nodes(t) && w5 !in Nodes(t) && w6 !in Nodes(t)
  }

  /** A tree that holds none of the nodes written is not disturbed. */
  lemma Kept<T>(m: Mem<T>, m': Mem<T>, t: Tree<T>, p: RbNode?<T>, up: RbNode?<T>, w1: RbNode?<T>, w2: RbNode?<T>,
                w3: RbNode?<T>, w4: RbNode?<T>, w5: RbNode?<T>, w6: RbNode?<T>)
    requires Agree(m, m', w1, w2, w3, w4, w5, w6) && Clear(t, w1, w2, w3, w4, w5, w6)
    requires Shape(m, t, p, up)
    ensures Shape(m', t, p, up)
  {
    FrameShape(m, m', t, p, up);
  }

  /** A tree that holds none of the nodes written, but for its root, has only got a new parent and colour. */
  lemma Carried<T>(m: Mem<T>, m': Mem<T>, t: Tree<T>, p: RbNode?<T>, up: RbNode?<T>, up': RbNode<T>, red: bool,
                   w1: RbNode?<T>, w2: RbNode?<T>, w3: RbNode?<T>, w4: RbNode?<T>, w5: RbNode?<T>)
    requires Agree(m, m', p, w1, w2, w3, w4, w5) && Clear(t, w1, w2, w3, w4, w5, null)
    requires Apart(t) && Shape(m, t, p, up) && Moved(m, m', p, up', red)
    ensures Shape(m', Recolor(t, red), p, up')
  {
    Reparented(m, m', t, p, up, up', red);
  }

  ghost predicate CtxClear<T>(c: Ctx<T>, w1: RbNode?<T>, w2: RbNode?<T>, w3: RbNode?<T>, w4: RbNode?<T>, w5: RbNode?<T>)
  {
    w1 !in CtxNodes(c) && w2 !in CtxNodes(c) && w3 !in CtxNodes(c) && w4 !in CtxNodes(c) && w5 !in CtxNodes(c)
  }

  /** The place above survives when nothing in it is written. */
  lemma CtxKept<T>(m: Mem<T>, m': Mem<T>, c: Ctx<T>, hole: RbNode?<T>, parent: RbNode?<T>,
                   w1: RbNode?<T>, w2: RbNode?<T>, w3: RbNode?<T>, w4: RbNode?<T>, w5: RbNode?<T>)
    requires Agree(m, m', w1, w2, w3, w4, w5, null) && m'.root == m.root
    requires CtxShape(m, c, hole, parent) && CtxClear(c, w1, w2, w3, w4, w5)
    ensures CtxShape(m', c, hole, parent)
  {
    FrameCtx(m, m', c, hole, parent);
  }

  /** The place above survives when nothing in it is written but the pointer to `was`. */
  lemma Rehung<T>(m: Mem<T>, m': Mem<T>, c: Ctx<T>, was: RbNode<T>, now: RbNode?<T>, parent: RbNode?<T>,
                  w1: RbNode?<T>, w2: RbNode?<T>, w3: RbNode?<T>, w4: RbNode?<T>, w5: RbNode?<T>)
    requires Agree(m, m', w1, w2, w3, w4, w5, null) && m'.root == m.root
    requires CtxApart(c) && CtxShape(m, c, was, parent) && was !in CtxNodes(c) && CtxClear(c, w1, w2, w3, w4, w5)
    ensures parent == null || parent in m'.cells
    ensures CtxShape(m'.ChangeChild(was, now, parent), c, now, parent)
  {
    CtxInMemory(m, c, was, parent);
    CtxKept(m, m', c, was, parent, w1, w2, w3, w4, w5);
    ChangedChild(m', c, was, now, parent);
  }

  /** The root of a moved subtree has been given a new parent and colour. */
  ghost predicate Moved<T>(m: Mem<T>, m': Mem<T>, p: RbNode?<T>, up: RbNode<T>, red: bool)
  {
    p != null && p in m.cells ==> p in m'.cells && m'.cells[p] == m.cells[p].(pc := ParentColor(up, red))
  }

  /** A pointer is null or leads to a node that differs from all those named. */
  ghost predicate Elsewhere<T>(m: Mem<T>, p: RbNode?<T>, w1: RbNode?<T>, w2: RbNode?<T>, w3: RbNode?<T>,
                               w4: RbNode?<T>, w5: RbNode?<T>)
  {
    p == null || (p in m.cells && p != w1 && p != w2 && p != w3 && p != w4 && p != w5)
  }

  // ---------------------------------------------------------------- the writes

  method SetLeft<T>(x: RbNode<T>, p: RbNode?<T>, root: RbRoot<T>, ghost nodes: set<RbNode<T>>)
    requires x in nodes
    modifies x`left
    ensures Memory(root, nodes) == old(Memory(root, nodes)).SetLeft(x, p)
  {
    x.left := p;
  }

  method SetRight<T>(x: RbNode<T>, p: RbNode?<T>, root: RbRoot<T>, ghost nodes: set<RbNode<T>>)
    requires x in nodes
    modifies x`right
    ensures Memory(root, nodes) == old(Memory(root, nodes)).SetRight(x, p)
  {
    x.right := p;
  }

  method SetParentColor<T>(x: RbNode<T>, p: RbNode?<T>, red: bool, root: RbRoot<T>, ghost nodes: set<RbNode<T>>)
    requires x in nodes
    modifies x`pc
    ensures Memory(root, nodes) == old(Memory(root, nodes)).SetPc(x, ParentColor(p, red))
  {
    x.pc := ParentColor(p, red);
  }

  ghost function SetPcIf<T>(m: Mem<T>, x: RbNode?<T>, pc: ParentColor<T>): Mem<T>
    requires x == null || x in m.cells
  {
    if x == null then m else m.SetPc(x, pc)
  }

  ghost function SetParentIf<T>(m: Mem<T>, x: RbNode?<T>, p: RbNode<T>): Mem<T>
    requires x == null || x in m.cells
  {
    if x == null then m else m.SetPc(x, ParentColor(p, m.cells[x].pc.red))
  }

  method ChangeChild<T>(was: RbNode<T>, now: RbNode?<T>, parent: RbNode?<T>, root: RbRoot<T>,
                        ghost nodes: set<RbNode<T>>)
    requires parent == null || parent in nodes
    modifies root, parent
    ensures Memory(root, nodes) == old(Memory(root, nodes)).ChangeChild(was, now, parent)
  {
    if parent != null {
      if parent.left == was {
        parent.left := now;
      } else {
        parent.right := now;
      }
    } else {
      root.node := now;
    }
  }

  /** `now` takes over the parent and the colour of `was`, which becomes its child with colour `red`. */
  method RotateSetParents<T>(was: RbNode<T>, now: RbNode<T>, root: RbRoot<T>, red: bool, ghost nodes: set<RbNode<T>>)
    requires was in nodes && now in nodes && was != now
    requires was.pc.parent == null || was.pc.parent in nodes
    modifies root, was, now, was.pc.parent
    ensures Memory(root, nodes) ==
            old(Memory(root, nodes)).SetPc(now, old(was.pc)).SetPc(was, ParentColor(now, red))
              .ChangeChild(was, now, old(was.pc.parent))
  {
    var parent := was.pc.parent;
    SetParentColor(now, was.pc.parent, was.pc.red, root, nodes);
    SetParentColor(was, now, red, root, nodes);
    ChangeChild(was, now, parent, root, nodes);
  }

  /** What a right rotation of `x` over `y` writes. */
  ghost predicate RightWritten<T>(m: Mem<T>, m': Mem<T>, x: RbNode<T>, y: RbNode<T>, innerRed: bool, red: bool)
    requires x in m.cells && y in m.cells
  {
    var inner := m.cells[x].right;
    && Agree(m, m', x, y, inner, m.cells[y].pc.parent, null, null)
    && x in m'.cells && y in m'.cells
    && m'.cells[x] == m.cells[x].(pc := m.cells[y].pc, right := y)
    && m'.cells[y] == m.cells[y].(pc := ParentColor(x, red), left := inner)
    && Moved(m, m', inner, y, innerRed)
  }

  lemma RightRotation<T>(m: Mem<T>, m': Mem<T>, a: Tree<T>, x: RbNode<T>, xRed: bool, b: Tree<T>,
                         y: RbNode<T>, yRed: bool, c: Tree<T>, innerRed: bool, red: bool, par: RbNode?<T>)
    requires x in m.cells && y in m.cells && RightWritten(m, m', x, y, innerRed, red)
    requires Apart(Node(Node(a, x, xRed, b), y, yRed, c)) && par !in Nodes(Node(Node(a, x, xRed, b), y, yRed, c))
    requires Shape(m, Node(Node(a, x, xRed, b), y, yRed, c), y, par)
    ensures Shape(m', Node(a, x, yRed, Node(Recolor(b, innerRed), y, red, c)), x, par)
  {
    var t := Node(a, x, xRed, b);
    var inner := m.cells[x].right;
    assert Apart(t) && Shape(m, t, m.cells[y].left, y);
    assert Shape(m, b, inner, x) && Shape(m, a, m.cells[x].left, x);
    InMemory(m, b, inner, x);
    Kept(m, m', a, m.cells[x].left, x, x, y, inner, par, null, null);
    Kept(m, m', c, m.cells[y].right, y, x, y, inner, par, null, null);
    Carried(m, m', b, inner, x, y, innerRed, x, y, par, null, null);
    assert Shape(m', Node(Recolor(b, innerRed), y, red, c), y, x);
  }

  /** What a left rotation of `x` over `y` writes. */
  ghost predicate LeftWritten<T>(m: Mem<T>, m': Mem<T>, x: RbNode<T>, y: RbNode<T>, innerRed: bool, red: bool)
    requires x in m.cells && y in m.cells
  {
    var inner := m.cells[x].left;
    && Agree(m, m', x, y, inner, m.cells[y].pc.parent, null, null)
    && x in m'.cells && y in m'.cells
    && m'.cells[x] == m.cells[x].(pc := m.cells[y].pc, left := y)
    && m'.cells[y] == m.cells[y].(pc := ParentColor(x, red), right := inner)
    && Moved(m, m', inner, y, innerRed)
  }

  lemma LeftRotation<T>(m: Mem<T>, m': Mem<T>, a: Tree<T>, x: RbNode<T>, xRed: bool, b: Tree<T>,
                         y: RbNode<T>, yRed: bool, c: Tree<T>, innerRed: bool, red: bool, par: RbNode?<T>)
    requires x in m.cells && y in m.cells && LeftWritten(m, m', x, y, innerRed, red)
    requires Apart(Node(c, y, yRed, Node(b, x, xRed, a))) && par !in Nodes(Node(c, y, yRed, Node(b, x, xRed, a)))
    requires Shape(m, Node(c, y, yRed, Node(b, x, xRed, a)), y, par)
    ensures Shape(m', Node(Node(c, y, red, Recolor(b, innerRed)), x, yRed, a), x, par)
  {
    var t := Node(b, x, xRed, a);
    var inner := m.cells[x].left;
    assert Apart(t) && Shape(m, t, m.cells[y].right, y);
    assert Shape(m, b, inner, x) && Shape(m, a, m.cells[x].right, x);
    InMemory(m, b, inner, x);
    Kept(m, m', a, m.cells[x].right, x, x, y, inner, par, null, null);
    Kept(m, m', c, m.cells[y].left, y, x, y, inner, par, null, null);
    Carried(m, m', b, inner, x, y, innerRed, x, y, par, null, null);
    assert Shape(m', Node(c, y, red, Recolor(b, innerRed)), y, x);
  }

  /** What a double rotation writes: `x` is left below `y`, and `z`, right below `x`, goes over both. */
  ghost predicate LeftRightWritten<T>(m: Mem<T>, m': Mem<T>, x: RbNode<T>, z: RbNode<T>, y: RbNode<T>,
                                      bRed: bool, cRed: bool, xRed: bool, yRed: bool)
    requires x in m.cells && y in m.cells && z in m.cells
  {
    var zl, zr := m.cells[z].left, m.cells[z].right;
    && Agree(m, m', x, y, z, zl, zr, m.cells[y].pc.parent)
    && x in m'.cells && y in m'.cells && z in m'.cells
    && m'.cells[z] == m.cells[z].(pc := m.cells[y].pc, left := x, right := y)
    && m'.cells[x] == m.cells[x].(pc := ParentColor(z, xRed), right := zl)
    && m'.cells[y] == m.cells[y].(pc := ParentColor(z, yRed), left := zr)
    && Moved(m, m', zl, x, bRed) && Moved(m, m', zr, y, cRed)
  }

  lemma LeftRightRotation<T>(m: Mem<T>, m': Mem<T>, a: Tree<T>, x: RbNode<T>, r1: bool, b: Tree<T>,
                             z: RbNode<T>, r2: bool, c: Tree<T>, y: RbNode<T>, r3: bool, d: Tree<T>,
                             bRed: bool, cRed: bool, xRed: bool, yRed: bool, par: RbNode?<T>)
    requires x in m.cells && y in m.cells && z in m.cells
    requires LeftRightWritten(m, m', x, z, y, bRed, cRed, xRed, yRed)
    requires Apart(Node(Node(a, x, r1, Node(b, z, r2, c)), y, r3, d)) &&
             par !in Nodes(Node(Node(a, x, r1, Node(b, z, r2, c)), y, r3, d))
    requires Shape(m, Node(Node(a, x, r1, Node(b, z, r2, c)), y, r3, d), y, par)
    ensures Shape(m', Node(Node(a, x, xRed, Recolor(b, bRed)), z, r3, Node(Recolor(c, cRed), y, yRed, d)), z, par)
  {
    var zt := Node(b, z, r2, c);
    var xt := Node(a, x, r1, zt);
    var zl, zr := m.cells[z].left, m.cells[z].right;
    assert Apart(xt) && Shape(m, xt, m.cells[y].left, y);
    assert Apart(zt) && Shape(m, zt, m.cells[x].right, x);
    assert Shape(m, b, zl, z) && Shape(m, c, zr, z) && Shape(m, a, m.cells[x].left, x);
    InMemory(m, b, zl, z);
    InMemory(m, c, zr, z);
    Kept(m, m', a, m.cells[x].left, x, x, y, z, zl, zr, par);
    Kept(m, m', d, m.cells[y].right, y, x, y, z, zl, zr, par);
    Carried(m, m', b, zl, z, x, bRed, x, y, z, zr, par);
    Carried(m, m', c, zr, z, y, cRed, x, y, z, zl, par);
    assert Shape(m', Node(a, x, xRed, Recolor(b, bRed)), x, z);
    assert Shape(m', Node(Recolor(c, cRed), y, yRed, d), y, z);
  }

  /** What a double rotation writes: `x` is right below `y`, and `z`, left below `x`, goes over both. */
  ghost predicate RightLeftWritten<T>(m: Mem<T>, m': Mem<T>, x: RbNode<T>, z: RbNode<T>, y: RbNode<T>,
                                      bRed: bool, cRed: bool, xRed: bool, yRed: bool)
    requires x in m.cells && y in m.cells && z in m.cells
  {
    var zl, zr := m.cells[z].right, m.cells[z].left;
    && Agree(m, m', x, y, z, zl, zr, m.cells[y].pc.parent)
    && x in m'.cells && y in m'.cells && z in m'.cells
    && m'.cells[z] == m.cells[z].(pc := m.cells[y].pc, right := x, left := y)
    && m'.cells[x] == m.cells[x].(pc := ParentColor(z, xRed), left := zl)
    && m'.cells[y] == m.cells[y].(pc := ParentColor(z, yRed), right := zr)
    && Moved(m, m', zl, x, bRed) && Moved(m, m', zr, y, cRed)
  }

  lemma RightLeftRotation<T>(m: Mem<T>, m': Mem<T>, a: Tree<T>, x: RbNode<T>, r1: bool, b: Tree<T>,
                             z: RbNode<T>, r2: bool, c: Tree<T>, y: RbNode<T>, r3: bool, d: Tree<T>,
                             bRed: bool, cRed: bool, xRed: bool, yRed: bool, par: RbNode?<T>)
    requires x in m.cells && y in m.cells && z in m.cells
    requires RightLeftWritten(m, m', x, z, y, bRed, cRed, xRed, yRed)
    requires Apart(Node(d, y, r3, Node(Node(c, z, r2, b), x, r1, a))) &&
             par !in Nodes(Node(d, y, r3, Node(Node(c, z, r2, b), x, r1, a)))
    requires Shape(m, Node(d, y, r3, Node(Node(c, z, r2, b), x, r1, a)), y, par)
    ensures Shape(m', Node(Node(d, y, yRed, Recolor(c, cRed)), z, r3, Node(Recolor(b, bRed), x, xRed, a)), z, par)
  {
    var zt := Node(c, z, r2, b);
    var xt := Node(zt, x, r1, a);
    var zl, zr := m.cells[z].right, m.cells[z].left;
    assert Apart(xt) && Shape(m, xt, m.cells[y].right, y);
    assert Apart(zt) && Shape(m, zt, m.cells[x].left, x);
    assert Shape(m, b, zl, z) && Shape(m, c, zr, z) && Shape(m, a, m.cells[x].right, x);
    InMemory(m, b, zl, z);
    InMemory(m, c, zr, z);
    Kept(m, m', a, m.cells[x].right, x, x, y, z, zl, zr, par);
    Kept(m, m', d, m.cells[y].left, y, x, y, z, zl, zr, par);
    Carried(m, m', b, zl, z, x, bRed, x, y, z, zr, par);
    Carried(m, m', c, zr, z, y, cRed, x, y, z, zl, par);
    assert Shape(m', Node(Recolor(b, bRed), x, xRed, a), x, z);
    assert Shape(m', Node(d, y, yRed, Recolor(c, cRed)), y, z);
  }

  // ---------------------------------------------------------------- being done

  /** Memory holds a red-black tree with the nodes of `w` in their order. */
  ghost predicate Done<T>(m: Mem<T>, w: Tree<T>, w': Tree<T>)
  {
    Rooted(m, w') && RedBlack(w') && Same(w, w')
  }

  /** A finished focus is a finished tree. */
  lemma Finished<T>(m: Mem<T>, c: Ctx<T>, t: Tree<T>, t': Tree<T>, p: RbNode?<T>, parent: RbNode?<T>)
    requires Fits(c, t) && Same(t, t') && Focus(m, c, t', p, parent) && RedBlack(Plug(c, t'))
    ensures Done(m, Plug(c, t), Plug(c, t'))
  {
    PlugApart(c, t);
    PlugSame(c, t, t');
    PlugShape(m, c, t', p, parent);
  }
}
