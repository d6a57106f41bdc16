/**
  Erasure from a red-black tree: taking a node out of the tree.
 */
module RbUnlink {
  import opened RbTree
  import opened RbRotate
  import opened Sequences
  import RbErase

  // ---------------------------------------------------------------- finding a position

  /** Every node of a tree is at the focus of some cut. */
  lemma {:induction false} Locate<T>(c: Ctx<T>, t: Tree<T>, x: RbNode<T>) returns (c': Ctx<T>, t': Tree<T>)
    requires x in Nodes(t)
    ensures Plug(c', t') == Plug(c, t) && t'.Node? && t'.node == x
    decreases t
  {
    if t.node == x {
      return c, t;
    } else if x in Nodes(t.left) {
      c', t' := Locate(InLeft(c, t.node, t.red, t.right), t.left, x);
    } else {
      c', t' := Locate(InRight(c, t.node, t.red, t.left), t.right, x);
    }
  }

  /** Memory laid out as a whole tree is laid out as each of its parts. */
  lemma {:induction false} UnplugShape<T>(m: Mem<T>, c: Ctx<T>, t: Tree<T>) returns (p: RbNode?<T>, parent: RbNode?<T>)
    requires Shape(m, Plug(c, t), m.root, null)
    ensures Focus(m, c, t, p, parent)
    ensures t.Node? ==> p == t.node && p in m.cells && m.cells[p].pc.parent == parent
    ensures parent == if c.Top? then null else c.node
    decreases c
  {
    if c.Top? {
      return m.root, null;
    }
    var x, par := UnplugShape(m, c.up, Widen(c, t));
    if c.InLeft? {
      return m.cells[x].left, x;
    } else {
      return m.cells[x].right, x;
    }
  }

  // ---------------------------------------------------------------- removal from the order

  lemma {:induction false} RemoveMiddle<X>(a: seq<X>, x: X, b: seq<X>)
    requires x !in a
    ensures Remove(a + [x] + b, x) == a + b
  {
    var s := a + [x] + b;
    if a == [] {
      assert s[0] == x && s[1..] == b && a + b == b;
    } else {
      RemoveMiddle(a[1..], x, b);
      assert s[0] == a[0] && s[1..] == a[1..] + [x] + b;
      assert a + b == [a[0]] + (a[1..] + b);
    }
  }

  // ---------------------------------------------------------------- a node with at most one child

  /** The child that takes the place of a node without a left, or without a right, child. */
  ghost function OnlyChild<T>(t: Tree<T>): Tree<T>
    requires t.Node? && (t.left.Leaf? || t.right.Leaf?)
  {
    if t.left.Leaf? then t.right else t.left
  }

  /** An only child is red under a black node; without a child, a red node leaves no gap and a black one a deficit. */
  lemma UnlinkBalance<T>(c: Ctx<T>, t: Tree<T>)
    requires RedBlack(Plug(c, t)) && t.Node? && (t.left.Leaf? || t.right.Leaf?)
    ensures OnlyChild(t).Node? ==> OnlyChild(t).red && !t.red && RedBlack(Plug(c, Recolor(OnlyChild(t), false)))
    ensures OnlyChild(t).Leaf? && (t.red || c.Top?) ==> RedBlack(Plug(c, Leaf))
    ensures OnlyChild(t).Leaf? && !t.red && !c.Top? ==> RbErase.Deficit(c, Leaf)
  {
    PlugRedBlack(c, t);
    PlugRedBlack(c, Leaf);
    var r := OnlyChild(t);
    if r.Node? {
      assert BlackHeight(r) == 0;
      PlugRedBlack(c, Recolor(r, false));
    }
  }

  lemma UnlinkFits<T>(c: Ctx<T>, t: Tree<T>)
    requires Fits(c, t) && t.Node? && (t.left.Leaf? || t.right.Leaf?)
    ensures Fits(c, Recolor(OnlyChild(t), false))
  {
    RecolorSame(OnlyChild(t), false);
  }

  /** Unlinking takes exactly the node out of the order. */
  lemma UnlinkInorder<T>(c: Ctx<T>, t: Tree<T>)
    requires Fits(c, t) && t.Node? && (t.left.Leaf? || t.right.Leaf?)
    ensures Inorder(Plug(c, Recolor(OnlyChild(t), false))) == Remove(Inorder(Plug(c, t)), t.node)
  {
    var r := Recolor(OnlyChild(t), false);
    RecolorSame(OnlyChild(t), false);
    PlugInorder(c, t);
    PlugInorder(c, r);
    BeforeNodes(c);
    InorderNodes(t.left);
    RemoveBetween(Before(c), Inorder(t.left), t.node, Inorder(t.right), After(c));
  }

  lemma UnlinkNodes<T>(c: Ctx<T>, t: Tree<T>)
    requires Fits(c, t) && t.Node? && (t.left.Leaf? || t.right.Leaf?)
    ensures Nodes(Plug(c, Recolor(OnlyChild(t), false))) == Nodes(Plug(c, t)) - {t.node}
  {
    RecolorSame(OnlyChild(t), false);
    PlugNodes(c, t);
    PlugNodes(c, Recolor(OnlyChild(t), false));
  }

  lemma RemoveBetween<X>(a: seq<X>, l: seq<X>, x: X, r: seq<X>, b: seq<X>)
    requires x !in a && x !in l && (l == [] || r == [])
    ensures Remove(a + (l + [x] + r) + b, x) == a + (if l == [] then r else l) + b
  {
    assert a + (l + [x] + r) + b == (a + l) + [x] + (r + b);
    RemoveMiddle(a + l, x, r + b);
    if l == [] {
      assert (a + l) + (r + b) == a + r + b;
    } else {
      assert (a + l) + (r + b) == a + l + b;
    }
  }

  lemma {:induction false} BeforeNodes<T>(c: Ctx<T>)
    ensures forall x :: x in Before(c) ==> x in CtxNodes(c)
  {
    match c
    case Top =>
    case InLeft(up, _, _, _) => BeforeNodes(up);
    case InRight(up, x, _, s) =>
      BeforeNodes(up);
      InorderNodes(s);
      forall y | y in Before(c) ensures y in CtxNodes(c) {
        assert y in Before(up) || y in Inorder(s) || y == x;
      }
  }

  /** The writes that put `child` in the place of `node`. */
  ghost function Unlink<T>(m: Mem<T>, node: RbNode<T>, child: RbNode?<T>): Mem<T>
    requires node in m.cells && (child == null || child in m.cells)
    requires m.cells[node].pc.parent == null || m.cells[node].pc.parent in m.cells
  {
    var pc := m.cells[node].pc;
    SetPcIf(m.ChangeChild(node, child, pc.parent), child, pc)
  }

  lemma UnlinkShape<T>(m: Mem<T>, c: Ctx<T>, t: Tree<T>)
    requires Fits(c, t) && t.Node? && (t.left.Leaf? || t.right.Leaf?) && t.node in m.cells
    requires Focus(m, c, t, t.node, m.cells[t.node].pc.parent) && (OnlyChild(t).Node? ==> !t.red)
    ensures
      var par, child := m.cells[t.node].pc.parent, if t.left.Leaf? then m.cells[t.node].right else m.cells[t.node].left;
      && (child == null || child in m.cells) && (par == null || par in m.cells) &&
         (child == null <==> OnlyChild(t).Leaf?)
      && Focus(Unlink(m, t.node, child), c, Recolor(OnlyChild(t), false), child, par)
  {
    var x, r := t.node, OnlyChild(t);
    var par, child := m.cells[x].pc.parent, if t.left.Leaf? then m.cells[x].right else m.cells[x].left;
    InMemory(m, r, child, x);
    CtxInMemory(m, c, x, par);
    ChangedChild(m, c, x, child, par);
    var m1 := m.ChangeChild(x, child, par);
    var m2 := Unlink(m, x, child);
    assert Agree(m1, m2, child, null, null, null, null, null);
    CtxKept(m1, m2, c, child, par, child, null, null, null, null);
    if r.Node? {
      Reparented(m, m2, r, child, x, par, false);
    }
  }

  // ---------------------------------------------------------------- a node with two children

  /**
    `succ` takes the left child, the parent and the colour of `node`; its own child, if any, goes black under
    `parent`.
   */
  ghost function TakeOver<T>(m: Mem<T>, node: RbNode<T>, succ: RbNode<T>, parent: RbNode<T>, child2: RbNode?<T>): Mem<T>
    requires node in m.cells && succ in m.cells && (child2 == null || child2 in m.cells)
    requires m.cells[node].left == null || m.cells[node].left in m.cells
    requires m.cells[node].pc.parent == null || m.cells[node].pc.parent in m.cells
  {
    var tmp, pc := m.cells[node].left, m.cells[node].pc;
    SetPcIf(SetParentIf(m.SetLeft(succ, tmp), tmp, succ).ChangeChild(node, succ, pc.parent).SetPc(succ, pc),
            child2, ParentColor(parent, false))
  }

  /** The successor, not a child of `node`, gives its place to its child and takes the right child of `node`. */
  ghost function Detach<T>(m: Mem<T>, succ: RbNode<T>, parent: RbNode<T>, child: RbNode<T>): Mem<T>
    requires succ in m.cells && parent in m.cells && child in m.cells
  {
    SetParentIf(m.SetLeft(parent, m.cells[succ].right).SetRight(succ, child), child, succ)
  }

  /** `mf` is `m1` with `succ` in the place of `node`. */
  ghost predicate Replacing<T>(m1: Mem<T>, mf: Mem<T>, node: RbNode<T>, succ: RbNode<T>)
    requires node in m1.cells
  {
    var l, r := m1.cells[node].left, m1.cells[node].right;
    && Agree(m1, mf, node, succ, l, r, m1.cells[node].pc.parent, null)
    && succ in mf.cells && mf.cells[succ] == m1.cells[node]
    && (l != null && l in m1.cells ==> Moved(m1, mf, l, succ, m1.cells[l].pc.red))
    && (r != null && r in m1.cells ==> Moved(m1, mf, r, succ, m1.cells[r].pc.red))
  }

  lemma NearWrites<T>(m: Mem<T>, node: RbNode<T>, succ: RbNode<T>, child2: RbNode?<T>)
    requires node in m.cells && succ in m.cells && node != succ
    requires m.cells[node].right == succ && m.cells[succ].right == child2 && m.cells[succ].pc.parent == node
    requires child2 != null ==> !m.cells[succ].pc.red
    requires m.cells[node].left != null && Elsewhere(m, m.cells[node].left, node, succ, child2, null, null)
    requires Elsewhere(m, child2, node, succ, null, null, null)
    requires Elsewhere(m, m.cells[node].pc.parent, node, succ, child2, m.cells[node].left, null)
    ensures Replacing(Unlink(m, succ, child2), TakeOver(m, node, succ, succ, child2), node, succ)
  {
  }

  /** What `Detach` writes. */
  ghost predicate Detached<T>(m: Mem<T>, m0: Mem<T>, succ: RbNode<T>, parent: RbNode<T>, child: RbNode<T>)
    requires succ in m.cells && parent in m.cells && child in m.cells
  {
    && Agree(m, m0, succ, parent, child, null, null, null) && m0.root == m.root
    && succ in m0.cells && m0.cells[succ] == m.cells[succ].(right := child)
    && parent in m0.cells && child in m0.cells
    && m0.cells[child].pc == ParentColor(succ, m.cells[child].pc.red) && m0.cells[child].right == m.cells[child].right
    && m0.cells[child].left == (if parent == child then m.cells[succ].right else m.cells[child].left)
    && (parent != child ==> m0.cells[parent] == m.cells[parent].(left := m.cells[succ].right))
  }

  lemma DetachWrites<T>(m: Mem<T>, succ: RbNode<T>, parent: RbNode<T>, child: RbNode<T>)
    requires succ in m.cells && parent in m.cells && child in m.cells && succ != parent && succ != child
    ensures Detached(m, Detach(m, succ, parent, child), succ, parent, child)
  {
  }

  /** What `TakeOver` writes, cell by cell. */
  lemma TakeOverWrites<T>(m: Mem<T>, node: RbNode<T>, succ: RbNode<T>, parent: RbNode<T>, child2: RbNode?<T>)
    requires node in m.cells && succ in m.cells && node != succ
    requires m.cells[node].left != null && Elsewhere(m, m.cells[node].left, node, succ, child2, null, null)
    requires Elsewhere(m, child2, node, succ, null, null, null)
    requires Elsewhere(m, m.cells[node].pc.parent, node, succ, child2, m.cells[node].left, null)
    ensures
      var mf, tmp := TakeOver(m, node, succ, parent, child2), m.cells[node].left;
      && Agree(m, mf, succ, tmp, child2, m.cells[node].pc.parent, null, null)
      && succ in mf.cells && mf.cells[succ] == m.cells[succ].(pc := m.cells[node].pc, left := tmp)
      && Moved(m, mf, tmp, succ, m.cells[tmp].pc.red) && Moved(m, mf, child2, parent, false)
  {
  }

  /** What unlinking writes below `parent`, cell by cell. */
  lemma UnlinkWrites<T>(m: Mem<T>, succ: RbNode<T>, parent: RbNode<T>, child2: RbNode?<T>)
    requires succ in m.cells && parent in m.cells && m.cells[succ].pc == ParentColor(parent, m.cells[succ].pc.red)
    requires m.cells[parent].left == succ && Elsewhere(m, child2, succ, parent, null, null, null)
    ensures
      var m1 := Unlink(m, succ, child2);
      && Agree(m, m1, parent, child2, null, null, null, null)
      && parent in m1.cells && m1.cells[parent] == m.cells[parent].(left := child2)
      && Moved(m, m1, child2, parent, m.cells[succ].pc.red)
  {
  }

  lemma FarWrites<T>(m: Mem<T>, m0: Mem<T>, node: RbNode<T>, succ: RbNode<T>, parent: RbNode<T>, child: RbNode<T>,
                     child2: RbNode?<T>)
    requires node in m.cells && succ in m.cells && child in m.cells && parent in m.cells
    requires node != succ && child != node && child != succ && parent != node && parent != succ
    requires m.cells[node].right == child && m.cells[succ].right == child2 && m.cells[succ].pc.parent == parent
    requires m.cells[parent].left == succ && (child2 != null ==> !m.cells[succ].pc.red)
    requires m.cells[node].left != null && Elsewhere(m, m.cells[node].left, node, succ, child2, child, parent)
    requires Elsewhere(m, child2, node, succ, child, parent, null)
    requires Elsewhere(m, m.cells[node].pc.parent, node, succ, child2, child, parent)
    requires m.cells[node].pc.parent != m.cells[node].left
    requires Detached(m, m0, succ, parent, child)
    ensures Replacing(Unlink(m, succ, child2), TakeOver(m0, node, succ, parent, child2), node, succ)
  {
    UnlinkWrites(m, succ, parent, child2);
    TakeOverWrites(m0, node, succ, parent, child2);
    FarReplaces(m, m0, Unlink(m, succ, child2), TakeOver(m0, node, succ, parent, child2), node, succ, parent, child,
                child2);
  }

  /** The two together put `succ` in the place of `node`, one cell at a time. */
  lemma FarReplaces<T>(m: Mem<T>, m0: Mem<T>, m1: Mem<T>, mf: Mem<T>, node: RbNode<T>, succ: RbNode<T>,
                       parent: RbNode<T>, child: RbNode<T>, child2: RbNode?<T>)
    requires node in m.cells && succ in m.cells && child in m.cells && parent in m.cells
    requires node != succ && child != node && child != succ && parent != node && parent != succ
    requires m.cells[node].right == child && m.cells[succ].right == child2
    requires child2 != null ==> !m.cells[succ].pc.red
    requires m.cells[node].left != null && Elsewhere(m, m.cells[node].left, node, succ, child2, child, parent)
    requires Elsewhere(m, child2, node, succ, child, parent, null)
    requires Elsewhere(m, m.cells[node].pc.parent, node, succ, child2, child, parent)
    requires Detached(m, m0, succ, parent, child)
    requires Agree(m, m1, parent, child2, null, null, null, null) && Moved(m, m1, child2, parent, m.cells[succ].pc.red)
    requires parent in m1.cells && m1.cells[parent] == m.cells[parent].(left := child2)
    requires Agree(m0, mf, succ, m.cells[node].left, child2, m.cells[node].pc.parent, null, null)
    requires succ in mf.cells && mf.cells[succ] == m0.cells[succ].(pc := m.cells[node].pc, left := m.cells[node].left)
    requires Moved(m0, mf, m.cells[node].left, succ, m.cells[m.cells[node].left].pc.red)
    requires Moved(m0, mf, child2, parent, false)
    requires forall x :: x in m1.cells ==> x in m.cells
    ensures node in m1.cells && Replacing(m1, mf, node, succ)
  {
    var l, par := m.cells[node].left, m.cells[node].pc.parent;
    assert m1.cells[node] == m.cells[node] && m1.cells[l] == m.cells[l] && m0.cells[l] == m.cells[l];
    assert m1.cells[child] == m.cells[child].(left := m1.cells[child].left);
    assert mf.cells[child] == m0.cells[child];
    forall x | x in m1.cells && x != node && x != succ && x != l && x != child && x != par
      ensures x in mf.cells && mf.cells[x] == m1.cells[x]
    {
      if x == child2 {
        assert m0.cells[x] == m.cells[x];
      } else if x == parent {
        assert mf.cells[x] == m0.cells[x];
      } else {
        assert m0.cells[x] == m.cells[x] == m1.cells[x];
      }
    }
  }

  /** Replacing one node by another that was not in the tree. */
  lemma ReplaceShape<T>(m1: Mem<T>, mf: Mem<T>, c: Ctx<T>, l: Tree<T>, x: RbNode<T>, red: bool, r: Tree<T>,
                        y: RbNode<T>)
    requires x in m1.cells && Replacing(m1, mf, x, y)
    requires Fits(c, Node(l, x, red, r)) && y !in Nodes(l) && y !in Nodes(r) && y !in CtxNodes(c) && x != y
    requires Focus(m1, c, Node(l, x, red, r), x, m1.cells[x].pc.parent)
    requires CtxShape(mf, c, y, m1.cells[x].pc.parent)
    ensures Fits(c, Node(l, y, red, r)) && Focus(mf, c, Node(l, y, red, r), y, m1.cells[x].pc.parent)
  {
    var lp, rp, par := m1.cells[x].left, m1.cells[x].right, m1.cells[x].pc.parent;
    InMemory(m1, l, lp, x);
    InMemory(m1, r, rp, x);
    CtxInMemory(m1, c, x, par);
    var lRed, rRed := lp != null && m1.cells[lp].pc.red, rp != null && m1.cells[rp].pc.red;
    Carried(m1, mf, l, lp, x, y, lRed, x, y, rp, par, null);
    Carried(m1, mf, r, rp, x, y, rRed, x, y, lp, par, null);
    assert Recolor(l, lRed) == l && Recolor(r, rRed) == r;
  }

  /** Above the place of `node`, only the pointer to it changes. */
  lemma TakeOverCtx<T>(m: Mem<T>, c: Ctx<T>, node: RbNode<T>, succ: RbNode<T>, parent: RbNode<T>, child2: RbNode?<T>)
    requires node in m.cells && succ in m.cells && (child2 == null || child2 in m.cells)
    requires m.cells[node].left == null || m.cells[node].left in m.cells
    requires CtxApart(c) && CtxShape(m, c, node, m.cells[node].pc.parent)
    requires node !in CtxNodes(c) && CtxClear(c, succ, m.cells[node].left, child2, null, null)
    ensures m.cells[node].pc.parent == null || m.cells[node].pc.parent in m.cells
    ensures CtxShape(TakeOver(m, node, succ, parent, child2), c, succ, m.cells[node].pc.parent)
  {
    var tmp, pc := m.cells[node].left, m.cells[node].pc;
    CtxInMemory(m, c, node, pc.parent);
    var ma := SetParentIf(m.SetLeft(succ, tmp), tmp, succ);
    Rehung(m, ma, c, node, succ, pc.parent, succ, tmp, null, null, null);
    var mb := ma.ChangeChild(node, succ, pc.parent);
    var mc := SetPcIf(mb.SetPc(succ, pc), child2, ParentColor(parent, false));
    assert Agree(mb, mc, succ, child2, null, null, null, null);
    CtxKept(mb, mc, c, succ, pc.parent, succ, child2, null, null, null);
  }

  // ---------------------------------------------------------------- the way down to the successor

  /** `e` goes down to the left only, from `base`. */
  ghost predicate Spine<T>(e: Ctx<T>, base: Ctx<T>)
  {
    e == base || (e.InLeft? && Spine(e.up, base))
  }

  ghost function Rebase<T>(e: Ctx<T>, base: Ctx<T>, base': Ctx<T>): Ctx<T>
    requires Spine(e, base)
  {
    if e == base then base' else InLeft(Rebase(e.up, base, base'), e.node, e.red, e.sib)
  }

  /** The subtree in the hole of `base` when `t` is in the hole of `e`. */
  ghost function Below<T>(e: Ctx<T>, base: Ctx<T>, t: Tree<T>): Tree<T>
    requires Spine(e, base)
    decreases e
  {
    if e == base then t else Below(e.up, base, Node(t, e.node, e.red, e.sib))
  }

  lemma {:induction false} SpinePlug<T>(e: Ctx<T>, base: Ctx<T>, base': Ctx<T>, t: Tree<T>)
    requires Spine(e, base)
    ensures Plug(e, t) == Plug(base, Below(e, base, t))
    ensures Plug(Rebase(e, base, base'), t) == Plug(base', Below(e, base, t))
    decreases e
  {
    if e != base {
      SpinePlug(e.up, base, base', Node(t, e.node, e.red, e.sib));
    }
  }

  lemma {:induction false} RebaseNodes<T>(e: Ctx<T>, c: Ctx<T>, x: RbNode<T>, y: RbNode<T>, red: bool, l: Tree<T>)
    requires Spine(e, InRight(c, x, red, l)) && CtxApart(e) && y !in CtxNodes(e)
    ensures x in CtxNodes(e)
    ensures CtxNodes(Rebase(e, InRight(c, x, red, l), InRight(c, y, red, l))) == CtxNodes(e) - {x} + {y}
  {
    if e != InRight(c, x, red, l) {
      RebaseNodes(e.up, c, x, y, red, l);
    }
  }

  lemma SpliceNodes<T>(e: Ctx<T>, c: Ctx<T>, node: RbNode<T>, red: bool, l: Tree<T>, t: Tree<T>)
    requires Spine(e, InRight(c, node, red, l)) && Fits(e, t) && t.Node? && t.left.Leaf?
    ensures
      var e' := Rebase(e, InRight(c, node, red, l), InRight(c, t.node, red, l));
      Nodes(Plug(e', Recolor(t.right, false))) == Nodes(Plug(e, t)) - {node}
  {
    RebaseNodes(e, c, node, t.node, red, l);
    RecolorSame(t.right, false);
    PlugNodes(e, t);
    PlugNodes(Rebase(e, InRight(c, node, red, l), InRight(c, t.node, red, l)), Recolor(t.right, false));
  }

  /** Putting `y` in the place of `x` at the base changes neither the colours nor the rest of the order. */
  lemma {:induction false} RebaseKeeps<T>(e: Ctx<T>, c: Ctx<T>, x: RbNode<T>, y: RbNode<T>, red: bool, l: Tree<T>,
                                          h: nat)
    requires Spine(e, InRight(c, x, red, l))
    ensures
      var e' := Rebase(e, InRight(c, x, red, l), InRight(c, y, red, l));
      && !e.Top? && !e'.Top? && e'.red == e.red && e'.node == (if e == InRight(c, x, red, l) then y else e.node)
      && (CtxBalanced(e', h) <==> CtxBalanced(e, h))
      && Before(e) == Before(c) + Inorder(l) + [x] && Before(e') == Before(c) + Inorder(l) + [y]
      && After(e') == After(e)
  {
    if e != InRight(c, x, red, l) {
      RebaseKeeps(e.up, c, x, y, red, l, h + if e.red then 0 else 1);
    }
  }

  lemma {:induction false} BelowContains<T>(e: Ctx<T>, base: Ctx<T>, t: Tree<T>)
    requires Spine(e, base)
    ensures Nodes(t) <= Nodes(Below(e, base, t))
    ensures e != base ==>
      var r := Below(e, base, t);
      e.node in Nodes(r) && r.Node? && r.node in CtxNodes(e)
    decreases e
  {
    if e != base {
      BelowContains(e.up, base, Node(t, e.node, e.red, e.sib));
    }
  }

  lemma RemoveFirst<X>(a: seq<X>, l: seq<X>, x: X, y: X, s: seq<X>, b: seq<X>)
    requires x !in a && x !in l
    ensures Remove((a + l + [x]) + ([] + [y] + s) + b, x) == (a + l + [y]) + s + b
  {
    RemoveMiddle(a + l, x, [y] + s + b);
    assert (a + l + [x]) + ([] + [y] + s) + b == (a + l) + [x] + ([y] + s + b);
    assert (a + l + [y]) + s + b == (a + l) + ([y] + s + b);
  }

  /** The base of a spine is as free of repeated nodes as the spine. */
  lemma SpineApart<T>(e: Ctx<T>, base: Ctx<T>, t: Tree<T>)
    requires Spine(e, base) && Fits(e, t)
    ensures CtxApart(base)
  {
    SpinePlug(e, base, base, t);
    PlugApart(e, t);
    PlugApart(base, Below(e, base, t));
  }

  /** With the successor in its place, exactly the node is gone from the order. */
  lemma SpliceInorder<T>(e: Ctx<T>, c: Ctx<T>, node: RbNode<T>, red: bool, l: Tree<T>, t: Tree<T>)
    requires Spine(e, InRight(c, node, red, l)) && Fits(e, t) && t.Node? && t.left.Leaf?
    ensures
      var e' := Rebase(e, InRight(c, node, red, l), InRight(c, t.node, red, l));
      Inorder(Plug(e', Recolor(t.right, false))) == Remove(Inorder(Plug(e, t)), node)
  {
    var e' := Rebase(e, InRight(c, node, red, l), InRight(c, t.node, red, l));
    RebaseKeeps(e, c, node, t.node, red, l, 0);
    SpineApart(e, InRight(c, node, red, l), t);
    PlugInorder(e, t);
    RecolorSame(t.right, false);
    PlugInorder(e', Recolor(t.right, false));
    BeforeNodes(c);
    InorderNodes(l);
    RemoveFirst(Before(c), Inorder(l), node, t.node, Inorder(t.right), After(e));
  }

  /** Where `node` and its surroundings are, before and after the successor is unlinked. */
  lemma SpliceFocus<T>(m: Mem<T>, e: Ctx<T>, c: Ctx<T>, node: RbNode<T>, red: bool, l: Tree<T>, t: Tree<T>)
    requires Spine(e, InRight(c, node, red, l)) && Fits(e, t) && Shape(m, Plug(e, t), m.root, null)
    ensures node in m.cells
    ensures
      var r := Below(e, InRight(c, node, red, l), t);
      Fits(c, Node(l, node, red, r)) && Focus(m, c, Node(l, node, red, r), node, m.cells[node].pc.parent)
  {
    var base := InRight(c, node, red, l);
    var w := Node(l, node, red, Below(e, base, t));
    SpinePlug(e, base, base, t);
    assert Plug(e, t) == Plug(c, w);
    PlugApart(e, t);
    PlugApart(c, w);
    var p, par := UnplugShape(m, c, w);
  }

  /** The tree after the successor has taken the place of the node. */
  lemma SpliceShape<T>(m1: Mem<T>, mf: Mem<T>, e: Ctx<T>, c: Ctx<T>, node: RbNode<T>, red: bool, l: Tree<T>,
                       succ: RbNode<T>, t: Tree<T>, p: RbNode?<T>, parent: RbNode?<T>)
    requires Spine(e, InRight(c, node, red, l)) && Fits(e, t) && Focus(m1, e, t, p, parent)
    requires succ !in CtxNodes(e) && succ !in Nodes(t)
    requires node in m1.cells && Replacing(m1, mf, node, succ) && CtxShape(mf, c, succ, m1.cells[node].pc.parent)
    ensures
      var e' := Rebase(e, InRight(c, node, red, l), InRight(c, succ, red, l));
      Rooted(mf, Plug(e', t)) && Fits(e', t)
  {
    var base, base' := InRight(c, node, red, l), InRight(c, succ, red, l);
    var r := Below(e, base, t);
    PlugShape(m1, e, t, p, parent);
    SpliceFocus(m1, e, c, node, red, l, t);
    SpinePlug(e, base, base', t);
    PlugNodes(e, t);
    PlugNodes(c, Node(l, node, red, r));
    assert Plug(e, t) == Plug(c, Node(l, node, red, r));
    assert node in CtxNodes(c) + Nodes(Node(l, node, red, r));
    ReplaceShape(m1, mf, c, l, node, red, r, succ);
    PlugShape(mf, c, Node(l, succ, red, r), succ, m1.cells[node].pc.parent);
    PlugApart(c, Node(l, succ, red, r));
    PlugApart(Rebase(e, base, base'), t);
  }

  // ---------------------------------------------------------------- the outcome

  /** After unlinking: either a red-black tree, or one with a black node missing at the hole of `d`. */
  ghost predicate Unlinked<T>(m: Mem<T>, w: Tree<T>, node: RbNode<T>, d: Ctx<T>, t: Tree<T>, short: bool)
  {
    && Rooted(m, Plug(d, t)) && Inorder(Plug(d, t)) == Remove(Inorder(w), node) &&
       Nodes(Plug(d, t)) == Nodes(w) - {node}
    && if short then t == Leaf && RbErase.Deficit(d, Leaf) else RedBlack(Plug(d, t))
  }

  lemma UnlinkStep<T>(m: Mem<T>, c: Ctx<T>, t: Tree<T>)
    requires Fits(c, t) && t.Node? && (t.left.Leaf? || t.right.Leaf?) && t.node in m.cells
    requires Focus(m, c, t, t.node, m.cells[t.node].pc.parent) && RedBlack(Plug(c, t))
    ensures
      var par, child := m.cells[t.node].pc.parent, if t.left.Leaf? then m.cells[t.node].right else m.cells[t.node].left;
      && (child == null || child in m.cells) && (par == null || par in m.cells) &&
         (child == null <==> OnlyChild(t).Leaf?)
      && (par == null <==> c.Top?) && (par != null ==> par == c.node)
      && m.cells[t.node].pc.red == t.red
      && Unlinked(Unlink(m, t.node, child), Plug(c, t), t.node, c, Recolor(OnlyChild(t), false),
                  child == null && !t.red && !c.Top?)
  {
    UnlinkBalance(c, t);
    UnlinkShape(m, c, t);
    UnlinkInorder(c, t);
    UnlinkFits(c, t);
    var r := Recolor(OnlyChild(t), false);
    PlugApart(c, r);
    UnlinkNodes(c, t);
    var child := if t.left.Leaf? then m.cells[t.node].right else m.cells[t.node].left;
    PlugShape(Unlink(m, t.node, child), c, r, child, m.cells[t.node].pc.parent);
  }

  lemma SpliceStep<T>(m: Mem<T>, mf: Mem<T>, e: Ctx<T>, c: Ctx<T>, node: RbNode<T>, red: bool, l: Tree<T>, t: Tree<T>)
    requires Spine(e, InRight(c, node, red, l)) && Fits(e, t) && t.Node? && t.left.Leaf? && t.node in m.cells
    requires Focus(m, e, t, t.node, m.cells[t.node].pc.parent) && RedBlack(Plug(e, t))
    requires
      var par, child2 := m.cells[t.node].pc.parent, m.cells[t.node].right;
      && (child2 == null || child2 in m.cells) && (par == null || par in m.cells)
      && var m1 := Unlink(m, t.node, child2);
      && node in m1.cells && Replacing(m1, mf, node, t.node) && CtxShape(mf, c, t.node, m1.cells[node].pc.parent)
    ensures
      var e' := Rebase(e, InRight(c, node, red, l), InRight(c, t.node, red, l));
      Unlinked(mf, Plug(e, t), node, e', Recolor(t.right, false), t.right.Leaf? && !t.red)
  {
    var e' := Rebase(e, InRight(c, node, red, l), InRight(c, t.node, red, l));
    var r, child2 := Recolor(t.right, false), m.cells[t.node].right;
    UnlinkBalance(e, t);
    UnlinkShape(m, e, t);
    UnlinkFits(e, t);
    RecolorSame(t.right, false);
    SpliceShape(Unlink(m, t.node, child2), mf, e, c, node, red, l, t.node, r, child2, m.cells[t.node].pc.parent);
    SpliceInorder(e, c, node, red, l, t);
    RebaseKeeps(e, c, node, t.node, red, l, BlackHeight(r));
    RebaseKeeps(e, c, node, t.node, red, l, 1);
    PlugRedBlack(e, r);
    PlugRedBlack(e', r);
    SpliceNodes(e, c, node, red, l, t);
  }

  /** The successor is the right child of the node. */
  lemma NearStep<T>(m: Mem<T>, c: Ctx<T>, node: RbNode<T>, red: bool, l: Tree<T>, t: Tree<T>)
    requires l.Node? && t.Node? && t.left.Leaf? && t.node in m.cells && node in m.cells
    requires Fits(InRight(c, node, red, l), t) && Focus(m, InRight(c, node, red, l), t, t.node, node)
    requires RedBlack(Plug(InRight(c, node, red, l), t))
    ensures
      var succ, tmp, par, child2 := t.node, m.cells[node].left, m.cells[node].pc.parent, m.cells[t.node].right;
      && tmp != null && tmp in m.cells && (par == null || par in m.cells) && (child2 == null || child2 in m.cells)
      && (child2 == null <==> t.right.Leaf?) && m.cells[succ].pc.red == t.red && succ != node && tmp != node &&
         tmp != succ
      && (child2 != null ==> child2 != succ)
      && Unlinked(TakeOver(m, node, succ, succ, child2), Plug(InRight(c, node, red, l), t), node,
                  InRight(c, succ, red, l), Recolor(t.right, false), child2 == null && !t.red)
  {
    var base := InRight(c, node, red, l);
    var succ, tmp, par, child2 := t.node, m.cells[node].left, m.cells[node].pc.parent, m.cells[t.node].right;
    InMemory(m, l, tmp, node);
    InMemory(m, t.right, child2, succ);
    CtxInMemory(m, c, node, par);
    UnlinkBalance(base, t);
    NearWrites(m, node, succ, child2);
    TakeOverCtx(m, c, node, succ, succ, child2);
    assert Unlink(m, succ, child2).cells[node].pc == m.cells[node].pc;
    SpliceStep(m, TakeOver(m, node, succ, succ, child2), base, c, node, red, l, t);
  }

  /** Where everything is when the successor is further down. */
  lemma FarApart<T>(m: Mem<T>, e: Ctx<T>, c: Ctx<T>, node: RbNode<T>, red: bool, l: Tree<T>, t: Tree<T>)
    requires Spine(e, InRight(c, node, red, l)) && e != InRight(c, node, red, l)
    requires l.Node? && t.Node? && t.left.Leaf? && t.node in m.cells
    requires Fits(e, t) && Focus(m, e, t, t.node, m.cells[t.node].pc.parent)
    ensures node in m.cells && e.node in m.cells && e.InLeft?
    ensures
      var succ, tmp, par, parent := t.node, m.cells[node].left, m.cells[node].pc.parent, e.node;
      var child, child2 := m.cells[node].right, m.cells[t.node].right;
      && tmp != null && child != null && child in m.cells && m.cells[parent].left == succ &&
         m.cells[succ].pc.parent == parent
      && node != succ && child != node && child != succ && parent != node && parent != succ
      && Elsewhere(m, tmp, node, succ, child2, child, parent) && Elsewhere(m, child2, node, succ, child, parent, null)
      && Elsewhere(m, par, node, succ, child2, child, parent) && par != tmp
      && (child2 == null <==> t.right.Leaf?) && m.cells[succ].pc.red == t.red
      && CtxApart(c) && CtxShape(m, c, node, par) && node !in CtxNodes(c)
      && CtxClear(c, succ, parent, child, child2, tmp)
  {
    var base := InRight(c, node, red, l);
    var r := Below(e, base, t);
    PlugShape(m, e, t, t.node, m.cells[t.node].pc.parent);
    SpliceFocus(m, e, c, node, red, l, t);
    BelowContains(e, base, t);
    InMemory(m, l, m.cells[node].left, node);
    InMemory(m, r, m.cells[node].right, node);
    InMemory(m, t.right, m.cells[t.node].right, t.node);
    CtxInMemory(m, c, node, m.cells[node].pc.parent);
    assert t.node in Nodes(t) && (t.right.Node? ==> t.right.node in Nodes(t));
  }

  /** The successor is further down. */
  lemma FarStep<T>(m: Mem<T>, e: Ctx<T>, c: Ctx<T>, node: RbNode<T>, red: bool, l: Tree<T>, t: Tree<T>)
    requires Spine(e, InRight(c, node, red, l)) && e != InRight(c, node, red, l)
    requires l.Node? && t.Node? && t.left.Leaf? && t.node in m.cells && RedBlack(Plug(e, t))
    requires Fits(e, t) && Focus(m, e, t, t.node, m.cells[t.node].pc.parent)
    ensures node in m.cells && e.node in m.cells
    ensures
      var succ, tmp, par, parent := t.node, m.cells[node].left, m.cells[node].pc.parent, e.node;
      var child, child2 := m.cells[node].right, m.cells[t.node].right;
      && child != null && child in m.cells && tmp != null && tmp in m.cells && (par == null || par in m.cells)
      && (child2 == null || child2 in m.cells) && (child2 == null <==> t.right.Leaf?) && m.cells[succ].pc.red == t.red
      && child != node && succ != node && parent != node && succ != child && succ != parent && child2 != succ &&
         child2 != node
      && tmp != child && tmp != parent && tmp != succ && tmp != node && child2 != child
      && var m0 := Detach(m, succ, parent, child);
      && m0.cells[node] == m.cells[node]
      && Unlinked(TakeOver(m0, node, succ, parent, child2), Plug(e, t), node,
                  Rebase(e, InRight(c, node, red, l), InRight(c, succ, red, l)), Recolor(t.right, false),
                  child2 == null && !t.red)
  {
    FarApart(m, e, c, node, red, l, t);
    var succ, tmp, par, parent := t.node, m.cells[node].left, m.cells[node].pc.parent, e.node;
    var child, child2 := m.cells[node].right, m.cells[t.node].right;
    UnlinkBalance(e, t);
    var m0 := Detach(m, succ, parent, child);
    DetachWrites(m, succ, parent, child);
    FarWrites(m, m0, node, succ, parent, child, child2);
    CtxKept(m, m0, c, node, par, succ, parent, child, null, null);
    TakeOverCtx(m0, c, node, succ, parent, child2);
    assert Unlink(m, succ, child2).cells[node].pc == m.cells[node].pc;
    SpliceStep(m, TakeOver(m0, node, succ, parent, child2), e, c, node, red, l, t);
  }

  // ---------------------------------------------------------------- the program

  /** Case 1: a node without a left child, or without a right child, gives its place to the other one. */
  method UnlinkNode<T>(node: RbNode<T>, child: RbNode?<T>, root: RbRoot<T>, ghost nodes: set<RbNode<T>>)
    returns (rebalance: RbNode?<T>)
    requires node in nodes && (child == null || child in nodes) && child != node
    requires node.pc.parent == null || (node.pc.parent in nodes && node.pc.parent != node)
    modifies root, node.pc.parent, child
    ensures Memory(root, nodes) == Unlink(old(Memory(root, nodes)), node, child)
    ensures rebalance == if child == null && !old(node.pc.red) then old(node.pc.parent) else null
  {
    var pc := node.pc;
    ChangeChild(node, child, pc.parent, root, nodes);
    if child != null {
      SetParentColor(child, pc.parent, pc.red, root, nodes);
      rebalance := null;
    } else {
      rebalance := if !pc.red then pc.parent else null;
    }
  }

  /** The common end of cases 2 and 3: the successor takes over the place of the node. */
  method TakeOverNode<T>(node: RbNode<T>, succ: RbNode<T>, parent: RbNode<T>, child2: RbNode?<T>,
                         root: RbRoot<T>, ghost nodes: set<RbNode<T>>)
    returns (rebalance: RbNode?<T>)
    requires node in nodes && succ in nodes && node != succ && (child2 == null || child2 in nodes) && child2 != succ
    requires node.left != null && node.left in nodes && node.left != node && node.left != succ
    requires node.pc.parent == null || node.pc.parent in nodes
    modifies root, nodes
    ensures Memory(root, nodes) == TakeOver(old(Memory(root, nodes)), node, succ, parent, child2)
    ensures rebalance == if child2 == null && !old(succ.pc.red) then parent else null
  {
    var tmp := node.left;
    ghost var m := Memory(root, nodes);
    SetLeft(succ, tmp, root, nodes);
    SetParentColor(tmp, succ, tmp.pc.red, root, nodes);
    var pc := node.pc;
    assert pc == m.cells[node].pc;
    ChangeChild(node, succ, pc.parent, root, nodes);
    assert Memory(root, nodes).cells[succ].pc == m.cells[succ].pc;
    if child2 != null {
      SetParentColor(succ, pc.parent, pc.red, root, nodes);
      SetParentColor(child2, parent, false, root, nodes);
      rebalance := null;
    } else {
      var pc2 := succ.pc;
      SetParentColor(succ, pc.parent, pc.red, root, nodes);
      rebalance := if !pc2.red then parent else null;
    }
  }

  /** Case 3: the way down to the leftmost node under the right child, which has a left child. */
  method FindSuccessor<T>(child: RbNode<T>, root: RbRoot<T>, ghost nodes: set<RbNode<T>>, ghost base: Ctx<T>,
                          ghost r: Tree<T>)
    returns (successor: RbNode<T>, parent: RbNode<T>, ghost e: Ctx<T>, ghost t: Tree<T>)
    requires base.InRight? && Fits(base, r) && Focus(Memory(root, nodes), base, r, child, base.node) && r.Node? &&
             child.left != null
    ensures Spine(e, base) && e.InLeft? && parent == e.node && Plug(e, t) == Plug(base, r)
    ensures t.Node? && t.left.Leaf? && successor == t.node && successor in nodes && parent in nodes
    ensures Fits(e, t) && Focus(Memory(root, nodes), e, t, successor, successor.pc.parent)
  {
    ghost var m := Memory(root, nodes);
    successor, e, t := child, base, r;
    var tmp: RbNode?<T> := child.left;
    NarrowedLeft(m, e, t, successor, e.node);
    parent := successor;
    e, t := InLeft(e, t.node, t.red, t.right), t.left;
    InMemory(m, t, tmp, parent);
    successor := tmp;
    tmp := tmp.left;
    while tmp != null
      invariant successor in nodes && parent in nodes && tmp == successor.left
      invariant Spine(e, base) && e.InLeft? && parent == e.node && Plug(e, t) == Plug(base, r)
      invariant t.Node? && Fits(e, t) && Focus(m, e, t, successor, parent)
      decreases t
    {
      NarrowedLeft(m, e, t, successor, parent);
      parent := successor;
      e, t := InLeft(e, t.node, t.red, t.right), t.left;
      InMemory(m, t, tmp, parent);
      successor := tmp;
      tmp := tmp.left;
    }
    InMemory(m, t.left, tmp, successor);
  }

  /** Case 3: the successor is further down. */
  method UnlinkFar<T>(node: RbNode<T>, child: RbNode<T>, root: RbRoot<T>, ghost nodes: set<RbNode<T>>,
                      ghost c: Ctx<T>, ghost n: Tree<T>)
    returns (rebalance: RbNode?<T>, ghost d: Ctx<T>, ghost t: Tree<T>)
    requires n.Node? && n.left.Node? && n.right.Node? && node == n.node && node in nodes && child == node.right &&
             child.left != null
    requires Fits(InRight(c, node, n.red, n.left), n.right) && RedBlack(Plug(c, n))
    requires Focus(Memory(root, nodes), InRight(c, node, n.red, n.left), n.right, child, node)
    modifies root, nodes
    ensures Unlinked(Memory(root, nodes), Plug(c, n), node, d, t, rebalance != null)
    ensures rebalance != null ==> rebalance in nodes && !d.Top? && rebalance == d.node
  {
    ghost var m, base := Memory(root, nodes), InRight(c, node, n.red, n.left);
    var successor, parent;
    ghost var e, s;
    successor, parent, e, s := FindSuccessor(child, root, nodes, base, n.right);
    FarStep(m, e, c, node, n.red, n.left, s);
    RebaseKeeps(e, c, node, successor, n.red, n.left, 0);
    var child2 := successor.right;
    DetachSuccessor(successor, parent, child, root, nodes);
    rebalance := TakeOverNode(node, successor, parent, child2, root, nodes);
    d, t := Rebase(e, base, InRight(c, successor, n.red, n.left)), Recolor(s.right, false);
  }

  /** The successor gives its place to its child and takes the right child of the node. */
  method DetachSuccessor<T>(successor: RbNode<T>, parent: RbNode<T>, child: RbNode<T>, root: RbRoot<T>,
                            ghost nodes: set<RbNode<T>>)
    requires successor in nodes && parent in nodes && child in nodes
    requires successor != parent && successor != child
    modifies parent, successor, child
    ensures Memory(root, nodes) == Detach(old(Memory(root, nodes)), successor, parent, child)
  {
    SetLeft(parent, successor.right, root, nodes);
    SetRight(successor, child, root, nodes);
    SetParentColor(child, successor, child.pc.red, root, nodes);
  }

  /** Cases 2 and 3: a node with two children. */
  method UnlinkInner<T>(node: RbNode<T>, child: RbNode<T>, root: RbRoot<T>, ghost nodes: set<RbNode<T>>,
                        ghost c: Ctx<T>, ghost n: Tree<T>)
    returns (rebalance: RbNode?<T>, ghost d: Ctx<T>, ghost t: Tree<T>)
    requires n.Node? && n.left.Node? && n.right.Node? && node == n.node && node in nodes && child == node.right
    requires Fits(c, n) && Focus(Memory(root, nodes), c, n, node, node.pc.parent) && RedBlack(Plug(c, n))
    modifies root, nodes
    ensures Unlinked(Memory(root, nodes), Plug(c, n), node, d, t, rebalance != null)
    ensures rebalance != null ==> rebalance in nodes && !d.Top? && rebalance == d.node
  {
    ghost var m := Memory(root, nodes);
    NarrowedRight(m, c, n, node, node.pc.parent);
    InMemory(m, n.right, child, node);
    if child.left == null {
      InMemory(m, n.right.left, child.left, child);
      NearStep(m, c, node, n.red, n.left, n.right);
      rebalance := TakeOverNode(node, child, child, child.right, root, nodes);
      d, t := InRight(c, child, n.red, n.left), Recolor(n.right.right, false);
    } else {
      rebalance, d, t := UnlinkFar(node, child, root, nodes, c, n);
    }
  }

  /** Takes `node` out of the tree; `rebalance` tells where a black node is then missing, if one is. */
  method UnlinkAny<T>(node: RbNode<T>, root: RbRoot<T>, ghost nodes: set<RbNode<T>>, ghost c: Ctx<T>, ghost n: Tree<T>)
    returns (rebalance: RbNode?<T>, ghost d: Ctx<T>, ghost t: Tree<T>)
    requires n.Node? && node == n.node && node in nodes
    requires Fits(c, n) && Focus(Memory(root, nodes), c, n, node, node.pc.parent) && RedBlack(Plug(c, n))
    modifies root, nodes
    ensures Unlinked(Memory(root, nodes), Plug(c, n), node, d, t, rebalance != null)
    ensures rebalance != null ==> rebalance in nodes && !d.Top? && rebalance == d.node
  {
    ghost var m := Memory(root, nodes);
    var child, tmp := node.right, node.left;
    InMemory(m, n.left, tmp, node);
    InMemory(m, n.right, child, node);
    CtxInMemory(m, c, node, node.pc.parent);
    if tmp == null {
      UnlinkStep(m, c, n);
      rebalance := UnlinkNode(node, child, root, nodes);
      d, t := c, Recolor(OnlyChild(n), false);
    } else if child == null {
      UnlinkStep(m, c, n);
      rebalance := UnlinkNode(node, tmp, root, nodes);
      d, t := c, Recolor(OnlyChild(n), false);
    } else {
      rebalance, d, t := UnlinkInner(node, child, root, nodes, c, n);
    }
  }

  /**
    Erases a node: the result is a red-black tree, laid out in memory, whose order is the old one with
    exactly that node left out.
   */
  method Erase<T>(node: RbNode<T>, root: RbRoot<T>, ghost nodes: set<RbNode<T>>, ghost w: Tree<T>)
    returns (ghost w': Tree<T>)
    requires Rooted(Memory(root, nodes), w) && RedBlack(w) && node in Nodes(w)
    modifies root, nodes
    ensures Rooted(Memory(root, nodes), w') && RedBlack(w')
    ensures Inorder(w') == Remove(Inorder(w), node) && Nodes(w') == Nodes(w) - {node}
  {
    ghost var m := Memory(root, nodes);
    ghost var c, n := Locate(Top, w, node);
    ghost var p, par := UnplugShape(m, c, n);
    PlugApart(c, n);
    var rebalance;
    ghost var d, t;
    rebalance, d, t := UnlinkAny(node, root, nodes, c, n);
    w' := Plug(d, t);
    if rebalance != null {
      PlugApart(d, t);
      p, par := UnplugShape(Memory(root, nodes), d, t);
      w' := RbErase.EraseColor(rebalance, root, nodes, d);
    }
  }
}
