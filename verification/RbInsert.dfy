/**
  Insertion into a red-black tree: rebalancing from a red leaf upwards.
 */
module RbInsert {
  import opened RbTree
  import opened RbRotate

  /** Case 2: the writes of the left rotation at the parent, which leave two stale links. */
  ghost function Case2Left<T>(m: Mem<T>, node: RbNode<T>, parent: RbNode<T>): Mem<T>
    requires node in m.cells && parent in m.cells
    requires m.cells[node].left == null || m.cells[node].left in m.cells
  {
    var tmp := m.cells[node].left;
    SetPcIf(m.SetRight(parent, tmp).SetLeft(node, parent), tmp, ParentColor(parent, false))
      .SetPc(parent, ParentColor(node, true))
  }

  /** Case 3: the writes of the right rotation at the grandparent, up to the pointer that leads to it. */
  ghost function Case3LeftBelow<T>(m: Mem<T>, parent: RbNode<T>, gparent: RbNode<T>, tmp: RbNode?<T>): Mem<T>
    requires parent in m.cells && gparent in m.cells && (tmp == null || tmp in m.cells) && tmp != gparent
  {
    SetPcIf(m.SetLeft(gparent, tmp).SetRight(parent, gparent), tmp, ParentColor(gparent, false))
      .SetPc(parent, m.cells[gparent].pc).SetPc(gparent, ParentColor(parent, true))
  }

  ghost function Case3Left<T>(m: Mem<T>, parent: RbNode<T>, gparent: RbNode<T>, tmp: RbNode?<T>): Mem<T>
    requires parent in m.cells && gparent in m.cells && (tmp == null || tmp in m.cells) && tmp != gparent
    requires m.cells[gparent].pc.parent == null || m.cells[gparent].pc.parent in m.cells
  {
    Case3LeftBelow(m, parent, gparent, tmp).ChangeChild(gparent, parent, m.cells[gparent].pc.parent)
  }

  method DoCase2Left<T>(node: RbNode<T>, parent: RbNode<T>, root: RbRoot<T>, ghost nodes: set<RbNode<T>>)
    requires node in nodes && parent in nodes && (node.left == null || node.left in nodes)
    modifies node, parent, node.left
    ensures Memory(root, nodes) == Case2Left(old(Memory(root, nodes)), node, parent)
  {
    var tmp := node.left;
    SetRight(parent, tmp, root, nodes);
    SetLeft(node, parent, root, nodes);
    if tmp != null {
      SetParentColor(tmp, parent, false, root, nodes);
    }
    SetParentColor(parent, node, true, root, nodes);
  }

  method DoCase3Left<T>(parent: RbNode<T>, gparent: RbNode<T>, tmp: RbNode?<T>, root: RbRoot<T>,
                        ghost nodes: set<RbNode<T>>)
    requires parent in nodes && gparent in nodes && (tmp == null || tmp in nodes) && tmp != gparent && parent != gparent
    requires gparent.pc.parent == null || gparent.pc.parent in nodes
    modifies root, parent, gparent, tmp, gparent.pc.parent
    ensures Memory(root, nodes) == Case3Left(old(Memory(root, nodes)), parent, gparent, tmp)
  {
    SetLeft(gparent, tmp, root, nodes);
    SetRight(parent, gparent, root, nodes);
    if tmp != null {
      SetParentColor(tmp, gparent, false, root, nodes);
    }
    RotateSetParents(gparent, parent, root, true, nodes);
  }

  lemma Case3LeftWrites<T>(m: Mem<T>, parent: RbNode<T>, gparent: RbNode<T>)
    requires parent in m.cells && gparent in m.cells && parent != gparent
    requires Elsewhere(m, m.cells[parent].right, parent, gparent, null, null, null)
    requires Elsewhere(m, m.cells[gparent].pc.parent, parent, gparent, m.cells[parent].right, null, null)
    ensures
      var tmp := m.cells[parent].right;
      var m3 := Case3LeftBelow(m, parent, gparent, tmp);
      Agree(m, m3, parent, gparent, tmp, null, null, null) && m3.root == m.root
    ensures RightWritten(m, Case3Left(m, parent, gparent, m.cells[parent].right), parent, gparent, false, true)
  {
  }

  lemma Case3LeftRotates<T>(m: Mem<T>, up: Ctx<T>, t: Tree<T>, parent: RbNode<T>, s: Tree<T>, gparent: RbNode<T>,
                            u: Tree<T>)
    requires gparent in m.cells && parent in m.cells && Black(s)
    requires Fits(up, Node(Node(t, parent, true, s), gparent, false, u))
    requires Focus(m, up, Node(Node(t, parent, true, s), gparent, false, u), gparent, m.cells[gparent].pc.parent)
    ensures
      var tmp, par := m.cells[parent].right, m.cells[gparent].pc.parent;
      && (tmp == null || tmp in m.cells) && tmp != gparent && (par == null || par in m.cells)
      && Focus(Case3Left(m, parent, gparent, tmp), up, Node(t, parent, false, Node(s, gparent, true, u)), parent, par)
  {
    var tmp, par := m.cells[parent].right, m.cells[gparent].pc.parent;
    var pt := Node(t, parent, true, s);
    assert Apart(pt) && Shape(m, pt, m.cells[gparent].left, gparent);
    InMemory(m, s, tmp, parent);
    CtxInMemory(m, up, gparent, par);
    Case3LeftWrites(m, parent, gparent);
    Rehung(m, Case3LeftBelow(m, parent, gparent, tmp), up, gparent, parent, par, parent, gparent, tmp, null, null);
    RightRotation(m, Case3Left(m, parent, gparent, tmp), t, parent, true, s, gparent, false, u, false, true, par);
    assert Recolor(s, false) == s;
  }

  /** What case 2 has written. */
  ghost predicate Case2LeftWritten<T>(m: Mem<T>, m2: Mem<T>, node: RbNode<T>, parent: RbNode<T>)
    requires node in m.cells && parent in m.cells
  {
    var tmp := m.cells[node].left;
    && Agree(m, m2, node, parent, tmp, null, null, null) && m2.root == m.root
    && node in m2.cells && m2.cells[node] == m.cells[node].(left := parent)
    && parent in m2.cells && m2.cells[parent] == m.cells[parent].(right := tmp, pc := ParentColor(node, true))
    && Moved(m, m2, tmp, parent, false)
  }

  lemma Case2LeftWrites<T>(m: Mem<T>, node: RbNode<T>, parent: RbNode<T>)
    requires node in m.cells && parent in m.cells && node != parent
    requires Elsewhere(m, m.cells[node].left, parent, node, null, null, null)
    ensures Case2LeftWritten(m, Case2Left(m, node, parent), node, parent)
  {
  }

  /** Cases 2 and 3 together make up a double rotation. */
  lemma Case23LeftCompose<T>(m: Mem<T>, m2: Mem<T>, m4: Mem<T>, node: RbNode<T>, parent: RbNode<T>, gparent: RbNode<T>)
    requires node in m.cells && parent in m.cells && gparent in m.cells
    requires parent != gparent && node != parent && node != gparent
    requires Elsewhere(m, m.cells[node].left, parent, gparent, node, m.cells[node].right, null)
    requires Elsewhere(m, m.cells[node].right, parent, gparent, node, null, null)
    requires Elsewhere(m, m.cells[gparent].pc.parent, parent, gparent, node, m.cells[node].left, m.cells[node].right)
    requires Case2LeftWritten(m, m2, node, parent)
    requires gparent in m2.cells && RightWritten(m2, m4, node, gparent, false, true)
    ensures LeftRightWritten(m, m4, parent, node, gparent, false, false, true, true)
  {
  }

  lemma Case23LeftRotates<T>(m: Mem<T>, up: Ctx<T>, s: Tree<T>, parent: RbNode<T>, b: Tree<T>, node: RbNode<T>,
                             c: Tree<T>,
                             gparent: RbNode<T>, u: Tree<T>)
    requires gparent in m.cells && parent in m.cells && node in m.cells && Black(b) && Black(c)
    requires Fits(up, Node(Node(s, parent, true, Node(b, node, true, c)), gparent, false, u))
    requires Focus(m, up, Node(Node(s, parent, true, Node(b, node, true, c)), gparent, false, u), gparent,
                   m.cells[gparent].pc.parent)
    ensures
      var tmp, tmp', par := m.cells[node].left, m.cells[node].right, m.cells[gparent].pc.parent;
      && (tmp == null || tmp in m.cells) && (tmp' == null || tmp' in m.cells) && (par == null || par in m.cells)
      && tmp' != gparent && gparent != node && tmp != gparent
      && var m2 := Case2Left(m, node, parent);
      && m2.cells[node].right == tmp' && m2.cells[gparent] == m.cells[gparent]
      && Focus(Case3Left(m2, node, gparent, tmp'), up,
               Node(Node(s, parent, true, b), node, false, Node(c, gparent, true, u)), node, par)
  {
    var tmp, tmp', par := m.cells[node].left, m.cells[node].right, m.cells[gparent].pc.parent;
    var nt := Node(b, node, true, c);
    var pt := Node(s, parent, true, nt);
    assert Apart(pt) && Shape(m, pt, m.cells[gparent].left, gparent);
    assert Apart(nt) && Shape(m, nt, m.cells[parent].right, parent);
    InMemory(m, b, tmp, node);
    InMemory(m, c, tmp', node);
    CtxInMemory(m, up, gparent, par);
    var m2 := Case2Left(m, node, parent);
    Case2LeftWrites(m, node, parent);
    Case3LeftWrites(m2, node, gparent);
    Case23LeftCompose(m, m2, Case3Left(m2, node, gparent, tmp'), node, parent, gparent);
    Rehung(m, Case3LeftBelow(m2, node, gparent, tmp'), up, gparent, node, par, parent, gparent, node, tmp, tmp');
    LeftRightRotation(m, Case3Left(m2, node, gparent, tmp'), s, parent, true, b, node, true, c, gparent, false, u,
                      false, false, true, true, par);
    assert Recolor(b, false) == b && Recolor(c, false) == c;
  }

  /** The colour flips of case 1. */
  ghost function Flip<T>(m: Mem<T>, tmp: RbNode<T>, parent: RbNode<T>, gparent: RbNode<T>): Mem<T>
    requires tmp in m.cells && parent in m.cells && gparent in m.cells
  {
    m.SetPc(tmp, ParentColor(gparent, false)).SetPc(parent, ParentColor(gparent, false))
     .SetPc(gparent, ParentColor(m.cells[gparent].pc.parent, true))
  }

  lemma FlipWrites<T>(m: Mem<T>, a: RbNode<T>, b: RbNode<T>, g: RbNode<T>)
    requires a in m.cells && b in m.cells && g in m.cells && a != b && a != g && b != g
    ensures
      var m' := Flip(m, a, b, g);
      && m' == Flip(m, b, a, g) && m'.root == m.root && Agree(m, m', a, b, g, null, null, null)
      && Moved(m, m', a, g, false) && Moved(m, m', b, g, false)
      && m'.cells[g] == m.cells[g].(pc := ParentColor(m.cells[g].pc.parent, true))
  {
  }

  lemma FlipShape<T>(m: Mem<T>, up: Ctx<T>, l: Tree<T>, g: RbNode<T>, r: Tree<T>, red: bool)
    requires g in m.cells && l.Node? && r.Node?
    requires Fits(up, Node(l, g, red, r)) && Focus(m, up, Node(l, g, red, r), g, m.cells[g].pc.parent)
    ensures l.node in m.cells && r.node in m.cells
    ensures Flip(m, l.node, r.node, g) == Flip(m, r.node, l.node, g)
    ensures Focus(Flip(m, l.node, r.node, g), up, Node(Recolor(l, false), g, true, Recolor(r, false)), g,
                  m.cells[g].pc.parent)
  {
    InMemory(m, l, m.cells[g].left, g);
    InMemory(m, r, m.cells[g].right, g);
    FlipWrites(m, l.node, r.node, g);
    var m' := Flip(m, l.node, r.node, g);
    CtxKept(m, m', up, g, m.cells[g].pc.parent, l.node, r.node, g, null, null);
    Carried(m, m', l, l.node, g, g, false, r.node, g, null, null, null);
    Carried(m, m', r, r.node, g, g, false, l.node, g, null, null, null);
  }

  // ---------------------------------------------------------------- balance

  /** What the loop keeps: a red subtree, balanced in itself, that can only clash with a red parent. */
  ghost predicate Clash<T>(c: Ctx<T>, t: Tree<T>)
  {
    t.Node? && t.red && Balanced(t) && CtxBalanced(c, BlackHeight(t))
  }

  ghost predicate Inv<T>(m: Mem<T>, c: Ctx<T>, t: Tree<T>, node: RbNode<T>, parent: RbNode?<T>)
  {
    Fits(c, t) && Focus(m, c, t, node, parent) && Clash(c, t)
  }

  /** The tree at the grandparent. */
  ghost function Grand<T>(c: Ctx<T>, t: Tree<T>): Tree<T>
    requires !c.Top? && !c.up.Top?
  {
    Widen(c.up, Widen(c, t))
  }

  ghost function Flipped<T>(w: Tree<T>): Tree<T>
    requires w.Node?
  {
    Node(Recolor(w.left, false), w.node, true, Recolor(w.right, false))
  }

  /** A red parent has a black grandparent, and flipping its colours moves the clash up two levels. */
  lemma FlipBalance<T>(c: Ctx<T>, t: Tree<T>)
    requires Clash(c, t) && !c.Top? && c.red
    ensures !c.up.Top? && !c.up.red
    ensures c.up.sib.Node? && c.up.sib.red ==>
            Clash(c.up.up, Flipped(Grand(c, t))) && Same(Grand(c, t), Flipped(Grand(c, t)))
  {
    if c.up.sib.Node? && c.up.sib.red {
      var p, u := Widen(c, t), c.up.sib;
      assert CtxBalanced(c.up, BlackHeight(t));
      assert Balanced(Recolor(p, false)) && BlackHeight(Recolor(p, false)) == BlackHeight(t) + 1;
      assert Balanced(Recolor(u, false)) && BlackHeight(Recolor(u, false)) == BlackHeight(t) + 1;
    }
  }

  lemma Case3LeftBalance<T>(c: Ctx<T>, t: Tree<T>)
    requires Clash(c, t) && c.InLeft? && c.red && c.up.InLeft? && !c.up.red && Black(c.up.sib)
    ensures
      var w' := Node(t, c.node, false, Node(c.sib, c.up.node, true, c.up.sib));
      Same(Grand(c, t), w') && RedBlack(Plug(c.up.up, w'))
  {
    assert CtxBalanced(c.up, BlackHeight(t));
    var g := Node(c.sib, c.up.node, true, c.up.sib);
    assert Balanced(g) && BlackHeight(g) == BlackHeight(t);
    PlugRedBlack(c.up.up, Node(t, c.node, false, g));
    RotationSame(t, c.node, c.sib, c.up.node, c.up.sib, true, false, false, true);
  }

  lemma Case23LeftBalance<T>(c: Ctx<T>, t: Tree<T>)
    requires Clash(c, t) && c.InRight? && c.red && c.up.InLeft? && !c.up.red && Black(c.up.sib)
    ensures
      var w' := Node(Node(c.sib, c.node, true, t.left), t.node, false, Node(t.right, c.up.node, true, c.up.sib));
      Same(Grand(c, t), w') && RedBlack(Plug(c.up.up, w'))
  {
    assert CtxBalanced(c.up, BlackHeight(t));
    var p, g := Node(c.sib, c.node, true, t.left), Node(t.right, c.up.node, true, c.up.sib);
    assert Balanced(p) && BlackHeight(p) == BlackHeight(t);
    assert Balanced(g) && BlackHeight(g) == BlackHeight(t);
    PlugRedBlack(c.up.up, Node(p, t.node, false, g));
    LeftRightSame(c.sib, c.node, t.left, t.node, t.right, c.up.node, c.up.sib, true, true, false, true, false, true);
  }

  // ---------------------------------------------------------------- the loop

  /** Looking up from a red parent: the grandparent exists, is black, and the focus may be moved there. */
  lemma LookUp<T>(m: Mem<T>, c: Ctx<T>, t: Tree<T>, node: RbNode<T>, parent: RbNode<T>)
    requires Inv(m, c, t, node, parent) && !c.Top? && c.red
    ensures parent == c.node && parent in m.cells && node in m.cells && node == t.node
    ensures !c.up.Top? && !c.up.red
    ensures m.cells[parent].pc == ParentColor(c.up.node, true) && c.up.node in m.cells && c.up.node != parent
    ensures
      var g := c.up.node;
      var u := if c.up.InLeft? then m.cells[g].right else m.cells[g].left;
      && (u == null || u in m.cells) && (u != null && m.cells[u].pc.red <==> !Black(c.up.sib)) && u != parent && u != g
      && (u != null <==> c.up.sib.Node?) && (c.up.sib.Node? ==> u == c.up.sib.node)
      && Plug(c, t) == Plug(c.up.up, Grand(c, t))
      && Fits(c.up.up, Grand(c, t)) && Focus(m, c.up.up, Grand(c, t), g, m.cells[g].pc.parent)
    ensures c.up.InLeft? <==> m.cells[c.up.node].right != parent
    ensures c.InLeft? ==> node == m.cells[parent].left && node != m.cells[parent].right
    ensures c.InRight? ==> node == m.cells[parent].right && node != m.cells[parent].left
  {
    FlipBalance(c, t);
    Widened(m, c, t, node, parent);
    Widened(m, c.up, Widen(c, t), parent, m.cells[parent].pc.parent);
    InMemory(m, c.up.sib, if c.up.InLeft? then m.cells[c.up.node].right else m.cells[c.up.node].left, c.up.node);
    InMemory(m, c.sib, if c.InLeft? then m.cells[parent].right else m.cells[parent].left, parent);
  }

  /** Case 1 moves the clash two levels up. */
  lemma FlipStep<T>(m: Mem<T>, c: Ctx<T>, t: Tree<T>, node: RbNode<T>, parent: RbNode<T>)
    requires Inv(m, c, t, node, parent) && !c.Top? && c.red && !c.up.Top? && !Black(c.up.sib)
    ensures c.node in m.cells && c.up.node in m.cells && c.up.sib.node in m.cells
    ensures Same(Plug(c, t), Plug(c.up.up, Flipped(Grand(c, t))))
    ensures Inv(Flip(m, c.up.sib.node, c.node, c.up.node), c.up.up, Flipped(Grand(c, t)),
                c.up.node, m.cells[c.up.node].pc.parent)
  {
    var w := Grand(c, t);
    LookUp(m, c, t, node, parent);
    FlipBalance(c, t);
    FlipShape(m, c.up.up, w.left, c.up.node, w.right, false);
    PlugSame(c.up.up, w, Flipped(w));
  }

  /** Case 3 finishes. */
  lemma Case3LeftStep<T>(m: Mem<T>, c: Ctx<T>, t: Tree<T>, node: RbNode<T>, parent: RbNode<T>)
    requires Inv(m, c, t, node, parent) && c.InLeft? && c.red && c.up.InLeft? && Black(c.up.sib)
    ensures parent == c.node && parent in m.cells && c.up.node in m.cells
    ensures
      var g := c.up.node;
      var tmp, par := m.cells[parent].right, m.cells[g].pc.parent;
      && (tmp == null || tmp in m.cells) && tmp != g && (par == null || par in m.cells)
      && Done(Case3Left(m, parent, g, tmp), Plug(c, t),
              Plug(c.up.up, Node(t, c.node, false, Node(c.sib, g, true, c.up.sib))))
  {
    LookUp(m, c, t, node, parent);
    Case3LeftBalance(c, t);
    var g := c.up.node;
    Case3LeftRotates(m, c.up.up, t, parent, c.sib, g, c.up.sib);
    Finished(Case3Left(m, parent, g, m.cells[parent].right), c.up.up, Grand(c, t),
             Node(t, c.node, false, Node(c.sib, g, true, c.up.sib)), parent, m.cells[g].pc.parent);
  }

  /** Cases 2 and 3 finish. */
  lemma Case23LeftStep<T>(m: Mem<T>, c: Ctx<T>, t: Tree<T>, node: RbNode<T>, parent: RbNode<T>)
    requires Inv(m, c, t, node, parent) && c.InRight? && c.red && c.up.InLeft? && Black(c.up.sib)
    ensures parent == c.node && parent in m.cells && c.up.node in m.cells && node in m.cells
    ensures
      var g := c.up.node;
      var tmp, tmp', par := m.cells[node].left, m.cells[node].right, m.cells[g].pc.parent;
      && (tmp == null || tmp in m.cells) && (tmp' == null || tmp' in m.cells) && (par == null || par in m.cells)
      && tmp' != g && g != node && tmp != g
      && var m2 := Case2Left(m, node, parent);
      && m2.cells[node].right == tmp' && m2.cells[g] == m.cells[g]
      && Done(Case3Left(m2, node, g, tmp'), Plug(c, t),
              Plug(c.up.up, Node(Node(c.sib, c.node, true, t.left), t.node, false, Node(t.right, g, true, c.up.sib))))
  {
    LookUp(m, c, t, node, parent);
    Case23LeftBalance(c, t);
    var g := c.up.node;
    Case23LeftRotates(m, c.up.up, c.sib, parent, t.left, node, t.right, g, c.up.sib);
    Finished(Case3Left(Case2Left(m, node, parent), node, g, m.cells[node].right), c.up.up, Grand(c, t),
             Node(Node(c.sib, c.node, true, t.left), t.node, false, Node(t.right, g, true, c.up.sib)), node,
                 m.cells[g].pc.parent);
  }

  /** One round with a red parent that is a left child: either done, or the clash is two levels up. */
  method FixLeft<T>(node: RbNode<T>, parent: RbNode<T>, gparent: RbNode<T>, root: RbRoot<T>,
                    ghost nodes: set<RbNode<T>>, ghost c: Ctx<T>, ghost t: Tree<T>)
    returns (next: RbNode?<T>, ghost w: Tree<T>)
    requires Inv(Memory(root, nodes), c, t, node, parent) && !c.Top? && c.red && c.up.InLeft? && gparent == c.up.node
    modifies root, nodes
    ensures next == null ==> Done(Memory(root, nodes), Plug(c, t), w)
    ensures next != null ==> next in nodes && Inv(Memory(root, nodes), c.up.up, w, next, next.pc.parent)
    ensures next != null ==> Same(Plug(c, t), Plug(c.up.up, w))
  {
    ghost var m := Memory(root, nodes);
    LookUp(m, c, t, node, parent);
    var tmp := gparent.right;
    if tmp != null && tmp.pc.red {
      FlipStep(m, c, t, node, parent);
      SetParentColor(tmp, gparent, false, root, nodes);
      SetParentColor(parent, gparent, false, root, nodes);
      next := gparent;
      SetParentColor(next, next.pc.parent, true, root, nodes);
      return next, Flipped(Grand(c, t));
    }
    next := null;
    tmp := parent.right;
    if node == tmp {
      Case23LeftStep(m, c, t, node, parent);
      DoCase2Left(node, parent, root, nodes);
      tmp := node.right;
      DoCase3Left(node, gparent, tmp, root, nodes);
      w := Plug(c.up.up, Node(Node(c.sib, c.node, true, t.left), t.node, false,
                              Node(t.right, gparent, true, c.up.sib)));
    } else {
      Case3LeftStep(m, c, t, node, parent);
      DoCase3Left(parent, gparent, tmp, root, nodes);
      w := Plug(c.up.up, Node(t, c.node, false, Node(c.sib, gparent, true, c.up.sib)));
    }
  }

  // ---------------------------------------------------------------- the mirror image

  /** Case 2: the writes of the right rotation at the parent, which leave two stale links. */
  ghost function Case2Right<T>(m: Mem<T>, node: RbNode<T>, parent: RbNode<T>): Mem<T>
    requires node in m.cells && parent in m.cells
    requires m.cells[node].right == null || m.cells[node].right in m.cells
  {
    var tmp := m.cells[node].right;
    SetPcIf(m.SetLeft(parent, tmp).SetRight(node, parent), tmp, ParentColor(parent, false))
      .SetPc(parent, ParentColor(node, true))
  }

  /** Case 3: the writes of the left rotation at the grandparent, up to the pointer that leads to it. */
  ghost function Case3RightBelow<T>(m: Mem<T>, parent: RbNode<T>, gparent: RbNode<T>, tmp: RbNode?<T>): Mem<T>
    requires parent in m.cells && gparent in m.cells && (tmp == null || tmp in m.cells) && tmp != gparent
  {
    SetPcIf(m.SetRight(gparent, tmp).SetLeft(parent, gparent), tmp, ParentColor(gparent, false))
      .SetPc(parent, m.cells[gparent].pc).SetPc(gparent, ParentColor(parent, true))
  }

  ghost function Case3Right<T>(m: Mem<T>, parent: RbNode<T>, gparent: RbNode<T>, tmp: RbNode?<T>): Mem<T>
    requires parent in m.cells && gparent in m.cells && (tmp == null || tmp in m.cells) && tmp != gparent
    requires m.cells[gparent].pc.parent == null || m.cells[gparent].pc.parent in m.cells
  {
    Case3RightBelow(m, parent, gparent, tmp).ChangeChild(gparent, parent, m.cells[gparent].pc.parent)
  }

  method DoCase2Right<T>(node: RbNode<T>, parent: RbNode<T>, root: RbRoot<T>, ghost nodes: set<RbNode<T>>)
    requires node in nodes && parent in nodes && (node.right == null || node.right in nodes)
    modifies node, parent, node.right
    ensures Memory(root, nodes) == Case2Right(old(Memory(root, nodes)), node, parent)
  {
    var tmp := node.right;
    SetLeft(parent, tmp, root, nodes);
    SetRight(node, parent, root, nodes);
    if tmp != null {
      SetParentColor(tmp, parent, false, root, nodes);
    }
    SetParentColor(parent, node, true, root, nodes);
  }

  method DoCase3Right<T>(parent: RbNode<T>, gparent: RbNode<T>, tmp: RbNode?<T>, root: RbRoot<T>,
                         ghost nodes: set<RbNode<T>>)
    requires parent in nodes && gparent in nodes && (tmp == null || tmp in nodes) && tmp != gparent && parent != gparent
    requires gparent.pc.parent == null || gparent.pc.parent in nodes
    modifies root, parent, gparent, tmp, gparent.pc.parent
    ensures Memory(root, nodes) == Case3Right(old(Memory(root, nodes)), parent, gparent, tmp)
  {
    SetRight(gparent, tmp, root, nodes);
    SetLeft(parent, gparent, root, nodes);
    if tmp != null {
      SetParentColor(tmp, gparent, false, root, nodes);
    }
    RotateSetParents(gparent, parent, root, true, nodes);
  }

  lemma Case3RightWrites<T>(m: Mem<T>, parent: RbNode<T>, gparent: RbNode<T>)
    requires parent in m.cells && gparent in m.cells && parent != gparent
    requires Elsewhere(m, m.cells[parent].left, parent, gparent, null, null, null)
    requires Elsewhere(m, m.cells[gparent].pc.parent, parent, gparent, m.cells[parent].left, null, null)
    ensures
      var tmp := m.cells[parent].left;
      var m3 := Case3RightBelow(m, parent, gparent, tmp);
      Agree(m, m3, parent, gparent, tmp, null, null, null) && m3.root == m.root
    ensures LeftWritten(m, Case3Right(m, parent, gparent, m.cells[parent].left), parent, gparent, false, true)
  {
  }

  lemma Case3RightRotates<T>(m: Mem<T>, up: Ctx<T>, t: Tree<T>, parent: RbNode<T>, s: Tree<T>, gparent: RbNode<T>,
                             u: Tree<T>)
    requires gparent in m.cells && parent in m.cells && Black(s)
    requires Fits(up, Node(u, gparent, false, Node(s, parent, true, t)))
    requires Focus(m, up, Node(u, gparent, false, Node(s, parent, true, t)), gparent, m.cells[gparent].pc.parent)
    ensures
      var tmp, par := m.cells[parent].left, m.cells[gparent].pc.parent;
      && (tmp == null || tmp in m.cells) && tmp != gparent && (par == null || par in m.cells)
      && Focus(Case3Right(m, parent, gparent, tmp), up, Node(Node(u, gparent, true, s), parent, false, t), parent, par)
  {
    var tmp, par := m.cells[parent].left, m.cells[gparent].pc.parent;
    var pt := Node(s, parent, true, t);
    assert Apart(pt) && Shape(m, pt, m.cells[gparent].right, gparent);
    InMemory(m, s, tmp, parent);
    CtxInMemory(m, up, gparent, par);
    Case3RightWrites(m, parent, gparent);
    Rehung(m, Case3RightBelow(m, parent, gparent, tmp), up, gparent, parent, par, parent, gparent, tmp, null, null);
    LeftRotation(m, Case3Right(m, parent, gparent, tmp), t, parent, true, s, gparent, false, u, false, true, par);
    assert Recolor(s, false) == s;
  }

  /** What case 2 has written. */
  ghost predicate Case2RightWritten<T>(m: Mem<T>, m2: Mem<T>, node: RbNode<T>, parent: RbNode<T>)
    requires node in m.cells && parent in m.cells
  {
    var tmp := m.cells[node].right;
    && Agree(m, m2, node, parent, tmp, null, null, null) && m2.root == m.root
    && node in m2.cells && m2.cells[node] == m.cells[node].(right := parent)
    && parent in m2.cells && m2.cells[parent] == m.cells[parent].(left := tmp, pc := ParentColor(node, true))
    && Moved(m, m2, tmp, parent, false)
  }

  lemma Case2RightWrites<T>(m: Mem<T>, node: RbNode<T>, parent: RbNode<T>)
    requires node in m.cells && parent in m.cells && node != parent
    requires Elsewhere(m, m.cells[node].right, parent, node, null, null, null)
    ensures Case2RightWritten(m, Case2Right(m, node, parent), node, parent)
  {
  }

  /** Cases 2 and 3 together make up a double rotation. */
  lemma Case23RightCompose<T>(m: Mem<T>, m2: Mem<T>, m4: Mem<T>, node: RbNode<T>, parent: RbNode<T>, gparent: RbNode<T>)
    requires node in m.cells && parent in m.cells && gparent in m.cells
    requires parent != gparent && node != parent && node != gparent
    requires Elsewhere(m, m.cells[node].right, parent, gparent, node, m.cells[node].left, null)
    requires Elsewhere(m, m.cells[node].left, parent, gparent, node, null, null)
    requires Elsewhere(m, m.cells[gparent].pc.parent, parent, gparent, node, m.cells[node].right, m.cells[node].left)
    requires Case2RightWritten(m, m2, node, parent)
    requires gparent in m2.cells && LeftWritten(m2, m4, node, gparent, false, true)
    ensures RightLeftWritten(m, m4, parent, node, gparent, false, false, true, true)
  {
  }

  lemma Case23RightRotates<T>(m: Mem<T>, up: Ctx<T>, s: Tree<T>, parent: RbNode<T>, b: Tree<T>, node: RbNode<T>,
                              c: Tree<T>,
                             gparent: RbNode<T>, u: Tree<T>)
    requires gparent in m.cells && parent in m.cells && node in m.cells && Black(b) && Black(c)
    requires Fits(up, Node(u, gparent, false, Node(Node(c, node, true, b), parent, true, s)))
    requires Focus(m, up, Node(u, gparent, false, Node(Node(c, node, true, b), parent, true, s)), gparent,
                   m.cells[gparent].pc.parent)
    ensures
      var tmp, tmp', par := m.cells[node].right, m.cells[node].left, m.cells[gparent].pc.parent;
      && (tmp == null || tmp in m.cells) && (tmp' == null || tmp' in m.cells) && (par == null || par in m.cells)
      && tmp' != gparent && gparent != node && tmp != gparent
      && var m2 := Case2Right(m, node, parent);
      && m2.cells[node].left == tmp' && m2.cells[gparent] == m.cells[gparent]
      && Focus(Case3Right(m2, node, gparent, tmp'), up,
               Node(Node(u, gparent, true, c), node, false, Node(b, parent, true, s)), node, par)
  {
    var tmp, tmp', par := m.cells[node].right, m.cells[node].left, m.cells[gparent].pc.parent;
    var nt := Node(c, node, true, b);
    var pt := Node(nt, parent, true, s);
    assert Apart(pt) && Shape(m, pt, m.cells[gparent].right, gparent);
    assert Apart(nt) && Shape(m, nt, m.cells[parent].left, parent);
    InMemory(m, b, tmp, node);
    InMemory(m, c, tmp', node);
    CtxInMemory(m, up, gparent, par);
    var m2 := Case2Right(m, node, parent);
    Case2RightWrites(m, node, parent);
    Case3RightWrites(m2, node, gparent);
    Case23RightCompose(m, m2, Case3Right(m2, node, gparent, tmp'), node, parent, gparent);
    Rehung(m, Case3RightBelow(m2, node, gparent, tmp'), up, gparent, node, par, parent, gparent, node, tmp, tmp');
    RightLeftRotation(m, Case3Right(m2, node, gparent, tmp'), s, parent, true, b, node, true, c, gparent, false, u,
                      false, false, true, true, par);
    assert Recolor(b, false) == b && Recolor(c, false) == c;
  }

  lemma Case3RightBalance<T>(c: Ctx<T>, t: Tree<T>)
    requires Clash(c, t) && c.InRight? && c.red && c.up.InRight? && !c.up.red && Black(c.up.sib)
    ensures
      var w' := Node(Node(c.up.sib, c.up.node, true, c.sib), c.node, false, t);
      Same(Grand(c, t), w') && RedBlack(Plug(c.up.up, w'))
  {
    assert CtxBalanced(c.up, BlackHeight(t));
    var g := Node(c.up.sib, c.up.node, true, c.sib);
    assert Balanced(g) && BlackHeight(g) == BlackHeight(t);
    PlugRedBlack(c.up.up, Node(g, c.node, false, t));
    RotationSame(c.up.sib, c.up.node, c.sib, c.node, t, true, false, false, true);
  }

  lemma Case23RightBalance<T>(c: Ctx<T>, t: Tree<T>)
    requires Clash(c, t) && c.InLeft? && c.red && c.up.InRight? && !c.up.red && Black(c.up.sib)
    ensures
      var w' := Node(Node(c.up.sib, c.up.node, true, t.left), t.node, false, Node(t.right, c.node, true, c.sib));
      Same(Grand(c, t), w') && RedBlack(Plug(c.up.up, w'))
  {
    assert CtxBalanced(c.up, BlackHeight(t));
    var p, g := Node(t.right, c.node, true, c.sib), Node(c.up.sib, c.up.node, true, t.left);
    assert Balanced(p) && BlackHeight(p) == BlackHeight(t);
    assert Balanced(g) && BlackHeight(g) == BlackHeight(t);
    PlugRedBlack(c.up.up, Node(g, t.node, false, p));
    RightLeftSame(c.up.sib, c.up.node, t.left, t.node, t.right, c.node, c.sib, false, true, true, true, false, true);
  }

  /** Case 3 finishes. */
  lemma Case3RightStep<T>(m: Mem<T>, c: Ctx<T>, t: Tree<T>, node: RbNode<T>, parent: RbNode<T>)
    requires Inv(m, c, t, node, parent) && c.InRight? && c.red && c.up.InRight? && Black(c.up.sib)
    ensures parent == c.node && parent in m.cells && c.up.node in m.cells
    ensures
      var g := c.up.node;
      var tmp, par := m.cells[parent].left, m.cells[g].pc.parent;
      && (tmp == null || tmp in m.cells) && tmp != g && (par == null || par in m.cells)
      && Done(Case3Right(m, parent, g, tmp), Plug(c, t),
              Plug(c.up.up, Node(Node(c.up.sib, g, true, c.sib), c.node, false, t)))
  {
    LookUp(m, c, t, node, parent);
    Case3RightBalance(c, t);
    var g := c.up.node;
    Case3RightRotates(m, c.up.up, t, parent, c.sib, g, c.up.sib);
    Finished(Case3Right(m, parent, g, m.cells[parent].left), c.up.up, Grand(c, t),
             Node(Node(c.up.sib, g, true, c.sib), c.node, false, t), parent, m.cells[g].pc.parent);
  }

  /** Cases 2 and 3 finish. */
  lemma Case23RightStep<T>(m: Mem<T>, c: Ctx<T>, t: Tree<T>, node: RbNode<T>, parent: RbNode<T>)
    requires Inv(m, c, t, node, parent) && c.InLeft? && c.red && c.up.InRight? && Black(c.up.sib)
    ensures parent == c.node && parent in m.cells && c.up.node in m.cells && node in m.cells
    ensures
      var g := c.up.node;
      var tmp, tmp', par := m.cells[node].right, m.cells[node].left, m.cells[g].pc.parent;
      && (tmp == null || tmp in m.cells) && (tmp' == null || tmp' in m.cells) && (par == null || par in m.cells)
      && tmp' != g && g != node && tmp != g
      && var m2 := Case2Right(m, node, parent);
      && m2.cells[node].left == tmp' && m2.cells[g] == m.cells[g]
      && Done(Case3Right(m2, node, g, tmp'), Plug(c, t),
              Plug(c.up.up, Node(Node(c.up.sib, g, true, t.left), t.node, false, Node(t.right, c.node, true, c.sib))))
  {
    LookUp(m, c, t, node, parent);
    Case23RightBalance(c, t);
    var g := c.up.node;
    Case23RightRotates(m, c.up.up, c.sib, parent, t.right, node, t.left, g, c.up.sib);
    Finished(Case3Right(Case2Right(m, node, parent), node, g, m.cells[node].left), c.up.up, Grand(c, t),
             Node(Node(c.up.sib, g, true, t.left), t.node, false, Node(t.right, c.node, true, c.sib)), node,
                 m.cells[g].pc.parent);
  }

  /** One round with a red parent that is a right child: either done, or the clash is two levels up. */
  method FixRight<T>(node: RbNode<T>, parent: RbNode<T>, gparent: RbNode<T>, root: RbRoot<T>,
                    ghost nodes: set<RbNode<T>>, ghost c: Ctx<T>, ghost t: Tree<T>)
    returns (next: RbNode?<T>, ghost w: Tree<T>)
    requires Inv(Memory(root, nodes), c, t, node, parent) && !c.Top? && c.red && c.up.InRight? && gparent == c.up.node
    modifies root, nodes
    ensures next == null ==> Done(Memory(root, nodes), Plug(c, t), w)
    ensures next != null ==> next in nodes && Inv(Memory(root, nodes), c.up.up, w, next, next.pc.parent)
    ensures next != null ==> Same(Plug(c, t), Plug(c.up.up, w))
  {
    ghost var m := Memory(root, nodes);
    LookUp(m, c, t, node, parent);
    var tmp := gparent.left;
    if tmp != null && tmp.pc.red {
      FlipStep(m, c, t, node, parent);
      SetParentColor(tmp, gparent, false, root, nodes);
      SetParentColor(parent, gparent, false, root, nodes);
      next := gparent;
      SetParentColor(next, next.pc.parent, true, root, nodes);
      return next, Flipped(Grand(c, t));
    }
    next := null;
    tmp := parent.left;
    if node == tmp {
      Case23RightStep(m, c, t, node, parent);
      DoCase2Right(node, parent, root, nodes);
      tmp := node.left;
      DoCase3Right(node, gparent, tmp, root, nodes);
      w := Plug(c.up.up, Node(Node(c.up.sib, gparent, true, t.left), t.node, false,
                              Node(t.right, c.node, true, c.sib)));
    } else {
      Case3RightStep(m, c, t, node, parent);
      DoCase3Right(parent, gparent, tmp, root, nodes);
      w := Plug(c.up.up, Node(Node(c.up.sib, gparent, true, c.sib), c.node, false, t));
    }
  }

  // ---------------------------------------------------------------- the loop

  lemma RootStep<T>(m: Mem<T>, c: Ctx<T>, t: Tree<T>, node: RbNode<T>)
    requires Inv(m, c, t, node, null)
    ensures node in m.cells
    ensures Done(m.SetPc(node, ParentColor(null, false)), Plug(c, t), Plug(c, Recolor(t, false)))
  {
    assert c.Top?;
    var m' := m.SetPc(node, ParentColor(null, false));
    Reparented(m, m', t, node, null, null, false);
    PlugRedBlack(c, Recolor(t, false));
  }

  lemma RedParent<T>(m: Mem<T>, c: Ctx<T>, t: Tree<T>, node: RbNode<T>, parent: RbNode<T>)
    requires Inv(m, c, t, node, parent)
    ensures !c.Top? && parent in m.cells && parent == c.node && m.cells[parent].pc.red == c.red
  {
  }

  lemma BlackParentStep<T>(m: Mem<T>, c: Ctx<T>, t: Tree<T>, node: RbNode<T>, parent: RbNode<T>)
    requires Inv(m, c, t, node, parent) && parent in m.cells && !m.cells[parent].pc.red
    ensures Done(m, Plug(c, t), Plug(c, t))
  {
    RedParent(m, c, t, node, parent);
    PlugRedBlack(c, t);
    Finished(m, c, t, t, node, parent);
  }

  /** One round with a red parent. */
  method FixRedParent<T>(node: RbNode<T>, parent: RbNode<T>, root: RbRoot<T>,
                         ghost nodes: set<RbNode<T>>, ghost c: Ctx<T>, ghost t: Tree<T>)
    returns (next: RbNode?<T>, ghost w: Tree<T>)
    requires Inv(Memory(root, nodes), c, t, node, parent) && parent in nodes && parent.pc.red
    modifies root, nodes
    ensures !c.Top? && !c.up.Top?
    ensures next == null ==> Done(Memory(root, nodes), Plug(c, t), w)
    ensures next != null ==> next in nodes && Inv(Memory(root, nodes), c.up.up, w, next, next.pc.parent)
    ensures next != null ==> Same(Plug(c, t), Plug(c.up.up, w))
  {
    RedParent(Memory(root, nodes), c, t, node, parent);
    LookUp(Memory(root, nodes), c, t, node, parent);
    var gparent := parent.pc.parent;
    var tmp := gparent.right;
    if parent != tmp {
      next, w := FixLeft(node, parent, gparent, root, nodes, c, t);
    } else {
      next, w := FixRight(node, parent, gparent, root, nodes, c, t);
    }
  }

  /**
    Restores the red-black properties after the red leaf `leaf` has been linked in at the hole of `c0`:
    the result is a red-black tree, laid out in memory, with the leaf in place and the rest in its old order.
   */
  method InsertColor<T>(leaf: RbNode<T>, root: RbRoot<T>, ghost nodes: set<RbNode<T>>, ghost c0: Ctx<T>)
    returns (ghost w: Tree<T>)
    requires leaf in nodes && Inv(Memory(root, nodes), c0, Node(Leaf, leaf, true, Leaf), leaf, leaf.pc.parent)
    modifies root, nodes
    ensures Rooted(Memory(root, nodes), w) && RedBlack(w)
    ensures Same(Plug(c0, Node(Leaf, leaf, true, Leaf)), w)
  {
    ghost var c, t := c0, Node(Leaf, leaf, true, Leaf);
    ghost var w0 := Plug(c0, t);
    var node: RbNode<T> := leaf;
    var parent := node.pc.parent;
    while true
      invariant node in nodes && parent == node.pc.parent
      invariant Inv(Memory(root, nodes), c, t, node, parent) && Same(w0, Plug(c, t))
      decreases c
    {
      ghost var m := Memory(root, nodes);
      CtxInMemory(m, c, node, parent);
      if parent == null {
        RootStep(m, c, t, node);
        SetParentColor(node, null, false, root, nodes);
        w := Plug(c, Recolor(t, false));
        break;
      } else if !parent.pc.red {
        BlackParentStep(m, c, t, node, parent);
        w := Plug(c, t);
        break;
      }
      var next;
      next, w := FixRedParent(node, parent, root, nodes, c, t);
      if next == null {
        break;
      }
      c, t := c.up.up, w;
      node, parent := next, next.pc.parent;
    }
  }

  // ---------------------------------------------------------------- linking a new node

  /** The writes of linking `node` as a red leaf, on the given side of `parent` or at the root. */
  ghost function Link<T>(m: Mem<T>, node: RbNode<T>, parent: RbNode?<T>, left: bool): Mem<T>
    requires node in m.cells && (parent == null || parent in m.cells)
  {
    var m1 := m.SetPc(node, ParentColor(parent, true)).SetLeft(node, null).SetRight(node, null);
    if parent == null then Mem(node, m1.cells) else if left then m1.SetLeft(parent, node) else m1.SetRight(parent, node)
  }

  lemma LinkStep<T>(m: Mem<T>, c: Ctx<T>, node: RbNode<T>, parent: RbNode?<T>)
    requires node in m.cells && node !in CtxNodes(c) && Fits(c, Leaf) && Focus(m, c, Leaf, null, parent) &&
             RedBlack(Plug(c, Leaf))
    ensures parent == null || parent in m.cells
    ensures Inv(Link(m, node, parent, c.InLeft?), c, Node(Leaf, node, true, Leaf), node, parent)
  {
    CtxInMemory(m, c, null, parent);
    PlugRedBlack(c, Leaf);
    var m', t := Link(m, node, parent, c.InLeft?), Node(Leaf, node, true, Leaf);
    assert Balanced(t) && BlackHeight(t) == 0 && Fits(c, t);
    assert m'.cells[node] == Cell(ParentColor(parent, true), null, null);
    assert Shape(m', t, node, parent);
    match c
    case Top =>
    case InLeft(up, x, _, s) =>
      FrameShape(m, m', s, m.cells[x].right, x);
      FrameCtx(m, m', up, x, m.cells[x].pc.parent);
    case InRight(up, x, _, s) =>
      FrameShape(m, m', s, m.cells[x].left, x);
      FrameCtx(m, m', up, x, m.cells[x].pc.parent);
  }

  lemma LinkedOrder<T>(c: Ctx<T>, node: RbNode<T>, w: Tree<T>)
    requires Same(Plug(c, Node(Leaf, node, true, Leaf)), w)
    ensures Inorder(w) == Before(c) + [node] + After(c) && Nodes(w) == CtxNodes(c) + {node}
  {
    var t := Node(Leaf, node, true, Leaf);
    PlugInorder(c, t);
    PlugNodes(c, t);
    assert Inorder(t) == [node];
  }

  method LinkNode<T>(node: RbNode<T>, parent: RbNode?<T>, left: bool, root: RbRoot<T>, ghost nodes: set<RbNode<T>>)
    requires node in nodes && (parent == null || parent in nodes)
    modifies root, node, parent
    ensures Memory(root, nodes) == Link(old(Memory(root, nodes)), node, parent, left)
  {
    SetParentColor(node, parent, true, root, nodes);
    SetLeft(node, null, root, nodes);
    SetRight(node, null, root, nodes);
    if parent == null {
      root.node := node;
    } else if left {
      SetLeft(parent, node, root, nodes);
    } else {
      SetRight(parent, node, root, nodes);
    }
  }

  /**
    Links `node` at the hole of `c` and rebalances: the new node ends up between what was before and after the hole.
   */
  method InsertAt<T>(node: RbNode<T>, parent: RbNode?<T>, left: bool, root: RbRoot<T>, ghost nodes: set<RbNode<T>>,
                     ghost c: Ctx<T>)
    returns (ghost w: Tree<T>)
    requires node in nodes && node !in CtxNodes(c) && left == c.InLeft?
    requires Fits(c, Leaf) && Focus(Memory(root, nodes), c, Leaf, null, parent) && RedBlack(Plug(c, Leaf))
    modifies root, nodes
    ensures Rooted(Memory(root, nodes), w) && RedBlack(w)
    ensures Inorder(w) == Before(c) + [node] + After(c) && Nodes(w) == CtxNodes(c) + {node}
  {
    ghost var t, m := Node(Leaf, node, true, Leaf), Memory(root, nodes);
    LinkStep(m, c, node, parent);
    LinkNode(node, parent, left, root, nodes);
    assert Shape(Link(m, node, parent, left), t, node, parent);
    w := InsertColor(node, root, nodes, c);
    LinkedOrder(c, node, w);
  }
}
