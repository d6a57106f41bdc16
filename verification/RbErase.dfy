/**
  Erasure from a red-black tree: rebalancing from a missing black node upwards.
 */
module RbErase {
  import opened RbTree
  import opened RbRotate

  // ---------------------------------------------------------------- the writes of each case

  /** Case 1: the writes of the left rotation at the parent, up to the pointer that leads to it. */
  ghost function Case1LeftBelow<T>(m: Mem<T>, parent: RbNode<T>, sibling: RbNode<T>): Mem<T>
    requires parent in m.cells && sibling in m.cells && m.cells[sibling].left != null &&
             m.cells[sibling].left in m.cells
  {
    var tmp1 := m.cells[sibling].left;
    m.SetRight(parent, tmp1).SetLeft(sibling, parent).SetPc(tmp1, ParentColor(parent, false))
     .SetPc(sibling, m.cells[parent].pc).SetPc(parent, ParentColor(sibling, true))
  }

  ghost function Case1Left<T>(m: Mem<T>, parent: RbNode<T>, sibling: RbNode<T>): Mem<T>
    requires parent in m.cells && sibling in m.cells && m.cells[sibling].left != null &&
             m.cells[sibling].left in m.cells
    requires m.cells[parent].pc.parent == null || m.cells[parent].pc.parent in m.cells
  {
    Case1LeftBelow(m, parent, sibling).ChangeChild(parent, sibling, m.cells[parent].pc.parent)
  }

  method DoCase1Left<T>(parent: RbNode<T>, sibling: RbNode<T>, root: RbRoot<T>, ghost nodes: set<RbNode<T>>)
    returns (tmp1: RbNode<T>)
    requires parent in nodes && sibling in nodes && sibling.left != null && sibling.left in nodes
    requires parent.pc.parent == null || parent.pc.parent in nodes
    requires parent != sibling && sibling.left != parent
    modifies root, parent, sibling, sibling.left, parent.pc.parent
    ensures tmp1 == old(sibling.left)
    ensures Memory(root, nodes) == Case1Left(old(Memory(root, nodes)), parent, sibling)
  {
    tmp1 := sibling.left;
    SetRight(parent, tmp1, root, nodes);
    SetLeft(sibling, parent, root, nodes);
    SetParentColor(tmp1, parent, false, root, nodes);
    RotateSetParents(parent, sibling, root, true, nodes);
  }

  lemma Case1LeftWrites<T>(m: Mem<T>, parent: RbNode<T>, sibling: RbNode<T>)
    requires parent in m.cells && sibling in m.cells && m.cells[sibling].left != null && parent != sibling
    requires Elsewhere(m, m.cells[sibling].left, parent, sibling, null, null, null)
    requires Elsewhere(m, m.cells[parent].pc.parent, parent, sibling, m.cells[sibling].left, null, null)
    ensures
      var m3 := Case1LeftBelow(m, parent, sibling);
      Agree(m, m3, parent, sibling, m.cells[sibling].left, null, null, null) && m3.root == m.root
    ensures LeftWritten(m, Case1Left(m, parent, sibling), sibling, parent, false, true)
  {
  }

  /** Case 3: the writes of the right rotation at the sibling, which leave stale parent links. */
  ghost function Case3Left<T>(m: Mem<T>, parent: RbNode<T>, sibling: RbNode<T>, tmp2: RbNode<T>): Mem<T>
    requires parent in m.cells && sibling in m.cells && tmp2 in m.cells
    requires m.cells[tmp2].right == null || m.cells[tmp2].right in m.cells
  {
    var tmp1 := m.cells[tmp2].right;
    SetPcIf(m.SetLeft(sibling, tmp1).SetRight(tmp2, sibling).SetRight(parent, tmp2), tmp1, ParentColor(sibling, false))
  }

  method DoCase3Left<T>(parent: RbNode<T>, sibling: RbNode<T>, tmp2: RbNode<T>, root: RbRoot<T>,
                        ghost nodes: set<RbNode<T>>)
    requires parent in nodes && sibling in nodes && tmp2 in nodes && (tmp2.right == null || tmp2.right in nodes)
    modifies parent, sibling, tmp2, tmp2.right
    ensures Memory(root, nodes) == Case3Left(old(Memory(root, nodes)), parent, sibling, tmp2)
  {
    var tmp1 := tmp2.right;
    SetLeft(sibling, tmp1, root, nodes);
    SetRight(tmp2, sibling, root, nodes);
    SetRight(parent, tmp2, root, nodes);
    if tmp1 != null {
      SetParentColor(tmp1, sibling, false, root, nodes);
    }
  }

  /** What case 3 has written. */
  ghost predicate Case3LeftWritten<T>(m: Mem<T>, m3: Mem<T>, parent: RbNode<T>, sibling: RbNode<T>, tmp2: RbNode<T>)
    requires parent in m.cells && sibling in m.cells && tmp2 in m.cells
  {
    var tmp1 := m.cells[tmp2].right;
    && Agree(m, m3, parent, sibling, tmp2, tmp1, null, null) && m3.root == m.root
    && sibling in m3.cells && m3.cells[sibling] == m.cells[sibling].(left := tmp1)
    && tmp2 in m3.cells && m3.cells[tmp2] == m.cells[tmp2].(right := sibling)
    && parent in m3.cells && m3.cells[parent] == m.cells[parent].(right := tmp2)
    && Moved(m, m3, tmp1, sibling, false)
  }

  lemma Case3LeftWrites<T>(m: Mem<T>, parent: RbNode<T>, sibling: RbNode<T>, tmp2: RbNode<T>)
    requires parent in m.cells && sibling in m.cells && tmp2 in m.cells
    requires parent != sibling && parent != tmp2 && sibling != tmp2
    requires Elsewhere(m, m.cells[tmp2].right, parent, sibling, tmp2, null, null)
    ensures Case3LeftWritten(m, Case3Left(m, parent, sibling, tmp2), parent, sibling, tmp2)
  {
  }

  /** Case 4: the writes of the left rotation at the parent, up to the pointer that leads to it. */
  ghost function Case4LeftBelow<T>(m: Mem<T>, parent: RbNode<T>, sibling: RbNode<T>, tmp1: RbNode<T>): Mem<T>
    requires parent in m.cells && sibling in m.cells && tmp1 in m.cells
    requires m.cells[sibling].left == null || m.cells[sibling].left in m.cells
  {
    var tmp2 := m.cells[sibling].left;
    SetParentIf(m.SetRight(parent, tmp2).SetLeft(sibling, parent).SetPc(tmp1, ParentColor(sibling, false)), tmp2,
                parent)
      .SetPc(sibling, m.cells[parent].pc).SetPc(parent, ParentColor(sibling, false))
  }

  ghost function Case4Left<T>(m: Mem<T>, parent: RbNode<T>, sibling: RbNode<T>, tmp1: RbNode<T>): Mem<T>
    requires parent in m.cells && sibling in m.cells && tmp1 in m.cells
    requires m.cells[sibling].left == null || m.cells[sibling].left in m.cells
    requires m.cells[parent].pc.parent == null || m.cells[parent].pc.parent in m.cells
  {
    Case4LeftBelow(m, parent, sibling, tmp1).ChangeChild(parent, sibling, m.cells[parent].pc.parent)
  }

  method DoCase4Left<T>(parent: RbNode<T>, sibling: RbNode<T>, tmp1: RbNode<T>, root: RbRoot<T>,
                        ghost nodes: set<RbNode<T>>)
    requires parent in nodes && sibling in nodes && tmp1 in nodes && (sibling.left == null || sibling.left in nodes)
    requires parent.pc.parent == null || parent.pc.parent in nodes
    requires parent != sibling && tmp1 != parent && sibling.left != parent
    modifies root, parent, sibling, tmp1, sibling.left, parent.pc.parent
    ensures Memory(root, nodes) == Case4Left(old(Memory(root, nodes)), parent, sibling, tmp1)
  {
    var tmp2 := sibling.left;
    SetRight(parent, tmp2, root, nodes);
    SetLeft(sibling, parent, root, nodes);
    SetParentColor(tmp1, sibling, false, root, nodes);
    if tmp2 != null {
      SetParentColor(tmp2, parent, tmp2.pc.red, root, nodes);
    }
    RotateSetParents(parent, sibling, root, false, nodes);
  }

  /** What case 4 has written. */
  ghost predicate Case4LeftWritten<T>(m: Mem<T>, m4: Mem<T>, parent: RbNode<T>, sibling: RbNode<T>, tmp1: RbNode<T>)
    requires parent in m.cells && sibling in m.cells && tmp1 in m.cells
  {
    var tmp2 := m.cells[sibling].left;
    && Agree(m, m4, parent, sibling, tmp1, tmp2, m.cells[parent].pc.parent, null)
    && sibling in m4.cells && m4.cells[sibling] == m.cells[sibling].(pc := m.cells[parent].pc, left := parent)
    && parent in m4.cells && m4.cells[parent] == m.cells[parent].(pc := ParentColor(sibling, false), right := tmp2)
    && tmp1 in m4.cells && m4.cells[tmp1] == m.cells[tmp1].(pc := ParentColor(sibling, false))
    && (tmp2 != null && tmp2 in m.cells ==> Moved(m, m4, tmp2, parent, m.cells[tmp2].pc.red))
  }

  lemma Case4LeftBelowAgrees<T>(m: Mem<T>, parent: RbNode<T>, sibling: RbNode<T>, tmp1: RbNode<T>)
    requires parent in m.cells && sibling in m.cells && tmp1 in m.cells
    requires parent != sibling && parent != tmp1 && sibling != tmp1
    requires Elsewhere(m, m.cells[sibling].left, parent, sibling, tmp1, null, null)
    ensures
      var m3 := Case4LeftBelow(m, parent, sibling, tmp1);
      Agree(m, m3, parent, sibling, tmp1, m.cells[sibling].left, null, null) && m3.root == m.root
  {
  }

  lemma Case4LeftBelowWrites<T>(m: Mem<T>, parent: RbNode<T>, sibling: RbNode<T>, tmp1: RbNode<T>)
    requires parent in m.cells && sibling in m.cells && tmp1 in m.cells
    requires parent != sibling && parent != tmp1 && sibling != tmp1
    requires Elsewhere(m, m.cells[sibling].left, parent, sibling, tmp1, null, null)
    ensures Case4LeftWritten(m, Case4LeftBelow(m, parent, sibling, tmp1), parent, sibling, tmp1)
  {
  }

  lemma Case4LeftHung<T>(m: Mem<T>, m3: Mem<T>, parent: RbNode<T>, sibling: RbNode<T>, tmp1: RbNode<T>, par: RbNode?<T>)
    requires parent in m.cells && sibling in m.cells && tmp1 in m.cells && par == m.cells[parent].pc.parent
    requires Elsewhere(m, par, parent, sibling, tmp1, m.cells[sibling].left, null) && (par == null || par in m3.cells)
    requires Case4LeftWritten(m, m3, parent, sibling, tmp1)
    ensures Case4LeftWritten(m, m3.ChangeChild(parent, sibling, par), parent, sibling, tmp1)
  {
  }

  /** Cases 3 and 4 together make up a double rotation. */
  lemma Case34LeftCompose<T>(m: Mem<T>, m3: Mem<T>, m4: Mem<T>, parent: RbNode<T>, sibling: RbNode<T>, tmp2: RbNode<T>)
    requires parent in m.cells && sibling in m.cells && tmp2 in m.cells
    requires parent != sibling && parent != tmp2 && sibling != tmp2
    requires Elsewhere(m, m.cells[tmp2].right, parent, sibling, tmp2, m.cells[tmp2].left, null)
    requires Elsewhere(m, m.cells[tmp2].left, parent, sibling, tmp2, null, null)
    requires Elsewhere(m, m.cells[parent].pc.parent, parent, sibling, tmp2, m.cells[tmp2].left, m.cells[tmp2].right)
    requires m.cells[tmp2].left != null && m.cells[tmp2].left in m.cells ==> !m.cells[m.cells[tmp2].left].pc.red
    requires Case3LeftWritten(m, m3, parent, sibling, tmp2) && Case4LeftWritten(m3, m4, parent, tmp2, sibling)
    ensures RightLeftWritten(m, m4, sibling, tmp2, parent, false, false, false, false)
  {
  }

  // ---------------------------------------------------------------- the writes of each case

  /** Case 1: the writes of the right rotation at the parent, up to the pointer that leads to it. */
  ghost function Case1RightBelow<T>(m: Mem<T>, parent: RbNode<T>, sibling: RbNode<T>): Mem<T>
    requires parent in m.cells && sibling in m.cells && m.cells[sibling].right != null &&
             m.cells[sibling].right in m.cells
  {
    var tmp1 := m.cells[sibling].right;
    m.SetLeft(parent, tmp1).SetRight(sibling, parent).SetPc(tmp1, ParentColor(parent, false))
     .SetPc(sibling, m.cells[parent].pc).SetPc(parent, ParentColor(sibling, true))
  }

  ghost function Case1Right<T>(m: Mem<T>, parent: RbNode<T>, sibling: RbNode<T>): Mem<T>
    requires parent in m.cells && sibling in m.cells && m.cells[sibling].right != null &&
             m.cells[sibling].right in m.cells
    requires m.cells[parent].pc.parent == null || m.cells[parent].pc.parent in m.cells
  {
    Case1RightBelow(m, parent, sibling).ChangeChild(parent, sibling, m.cells[parent].pc.parent)
  }

  method DoCase1Right<T>(parent: RbNode<T>, sibling: RbNode<T>, root: RbRoot<T>, ghost nodes: set<RbNode<T>>)
    returns (tmp1: RbNode<T>)
    requires parent in nodes && sibling in nodes && sibling.right != null && sibling.right in nodes
    requires parent.pc.parent == null || parent.pc.parent in nodes
    requires parent != sibling && sibling.right != parent
    modifies root, parent, sibling, sibling.right, parent.pc.parent
    ensures tmp1 == old(sibling.right)
    ensures Memory(root, nodes) == Case1Right(old(Memory(root, nodes)), parent, sibling)
  {
    tmp1 := sibling.right;
    SetLeft(parent, tmp1, root, nodes);
    SetRight(sibling, parent, root, nodes);
    SetParentColor(tmp1, parent, false, root, nodes);
    RotateSetParents(parent, sibling, root, true, nodes);
  }

  lemma Case1RightWrites<T>(m: Mem<T>, parent: RbNode<T>, sibling: RbNode<T>)
    requires parent in m.cells && sibling in m.cells && m.cells[sibling].right != null && parent != sibling
    requires Elsewhere(m, m.cells[sibling].right, parent, sibling, null, null, null)
    requires Elsewhere(m, m.cells[parent].pc.parent, parent, sibling, m.cells[sibling].right, null, null)
    ensures
      var m3 := Case1RightBelow(m, parent, sibling);
      Agree(m, m3, parent, sibling, m.cells[sibling].right, null, null, null) && m3.root == m.root
    ensures RightWritten(m, Case1Right(m, parent, sibling), sibling, parent, false, true)
  {
  }

  /** Case 3: the writes of the left rotation at the sibling, which leave stale parent links. */
  ghost function Case3Right<T>(m: Mem<T>, parent: RbNode<T>, sibling: RbNode<T>, tmp2: RbNode<T>): Mem<T>
    requires parent in m.cells && sibling in m.cells && tmp2 in m.cells
    requires m.cells[tmp2].left == null || m.cells[tmp2].left in m.cells
  {
    var tmp1 := m.cells[tmp2].left;
    SetPcIf(m.SetRight(sibling, tmp1).SetLeft(tmp2, sibling).SetLeft(parent, tmp2), tmp1, ParentColor(sibling, false))
  }

  method DoCase3Right<T>(parent: RbNode<T>, sibling: RbNode<T>, tmp2: RbNode<T>, root: RbRoot<T>,
                         ghost nodes: set<RbNode<T>>)
    requires parent in nodes && sibling in nodes && tmp2 in nodes && (tmp2.left == null || tmp2.left in nodes)
    modifies parent, sibling, tmp2, tmp2.left
    ensures Memory(root, nodes) == Case3Right(old(Memory(root, nodes)), parent, sibling, tmp2)
  {
    var tmp1 := tmp2.left;
    SetRight(sibling, tmp1, root, nodes);
    SetLeft(tmp2, sibling, root, nodes);
    SetLeft(parent, tmp2, root, nodes);
    if tmp1 != null {
      SetParentColor(tmp1, sibling, false, root, nodes);
    }
  }

  /** What case 3 has written. */
  ghost predicate Case3RightWritten<T>(m: Mem<T>, m3: Mem<T>, parent: RbNode<T>, sibling: RbNode<T>, tmp2: RbNode<T>)
    requires parent in m.cells && sibling in m.cells && tmp2 in m.cells
  {
    var tmp1 := m.cells[tmp2].left;
    && Agree(m, m3, parent, sibling, tmp2, tmp1, null, null) && m3.root == m.root
    && sibling in m3.cells && m3.cells[sibling] == m.cells[sibling].(right := tmp1)
    && tmp2 in m3.cells && m3.cells[tmp2] == m.cells[tmp2].(left := sibling)
    && parent in m3.cells && m3.cells[parent] == m.cells[parent].(left := tmp2)
    && Moved(m, m3, tmp1, sibling, false)
  }

  lemma Case3RightWrites<T>(m: Mem<T>, parent: RbNode<T>, sibling: RbNode<T>, tmp2: RbNode<T>)
    requires parent in m.cells && sibling in m.cells && tmp2 in m.cells
    requires parent != sibling && parent != tmp2 && sibling != tmp2
    requires Elsewhere(m, m.cells[tmp2].left, parent, sibling, tmp2, null, null)
    ensures Case3RightWritten(m, Case3Right(m, parent, sibling, tmp2), parent, sibling, tmp2)
  {
  }

  /** Case 4: the writes of the right rotation at the parent, up to the pointer that leads to it. */
  ghost function Case4RightBelow<T>(m: Mem<T>, parent: RbNode<T>, sibling: RbNode<T>, tmp1: RbNode<T>): Mem<T>
    requires parent in m.cells && sibling in m.cells && tmp1 in m.cells
    requires m.cells[sibling].right == null || m.cells[sibling].right in m.cells
  {
    var tmp2 := m.cells[sibling].right;
    SetParentIf(m.SetLeft(parent, tmp2).SetRight(sibling, parent).SetPc(tmp1, ParentColor(sibling, false)), tmp2,
                parent)
      .SetPc(sibling, m.cells[parent].pc).SetPc(parent, ParentColor(sibling, false))
  }

  ghost function Case4Right<T>(m: Mem<T>, parent: RbNode<T>, sibling: RbNode<T>, tmp1: RbNode<T>): Mem<T>
    requires parent in m.cells && sibling in m.cells && tmp1 in m.cells
    requires m.cells[sibling].right == null || m.cells[sibling].right in m.cells
    requires m.cells[parent].pc.parent == null || m.cells[parent].pc.parent in m.cells
  {
    Case4RightBelow(m, parent, sibling, tmp1).ChangeChild(parent, sibling, m.cells[parent].pc.parent)
  }

  method DoCase4Right<T>(parent: RbNode<T>, sibling: RbNode<T>, tmp1: RbNode<T>, root: RbRoot<T>,
                         ghost nodes: set<RbNode<T>>)
    requires parent in nodes && sibling in nodes && tmp1 in nodes && (sibling.right == null || sibling.right in nodes)
    requires parent.pc.parent == null || parent.pc.parent in nodes
    requires parent != sibling && tmp1 != parent && sibling.right != parent
    modifies root, parent, sibling, tmp1, sibling.right, parent.pc.parent
    ensures Memory(root, nodes) == Case4Right(old(Memory(root, nodes)), parent, sibling, tmp1)
  {
    var tmp2 := sibling.right;
    SetLeft(parent, tmp2, root, nodes);
    SetRight(sibling, parent, root, nodes);
    SetParentColor(tmp1, sibling, false, root, nodes);
    if tmp2 != null {
      SetParentColor(tmp2, parent, tmp2.pc.red, root, nodes);
    }
    RotateSetParents(parent, sibling, root, false, nodes);
  }

  /** What case 4 has written. */
  ghost predicate Case4RightWritten<T>(m: Mem<T>, m4: Mem<T>, parent: RbNode<T>, sibling: RbNode<T>, tmp1: RbNode<T>)
    requires parent in m.cells && sibling in m.cells && tmp1 in m.cells
  {
    var tmp2 := m.cells[sibling].right;
    && Agree(m, m4, parent, sibling, tmp1, tmp2, m.cells[parent].pc.parent, null)
    && sibling in m4.cells && m4.cells[sibling] == m.cells[sibling].(pc := m.cells[parent].pc, right := parent)
    && parent in m4.cells && m4.cells[parent] == m.cells[parent].(pc := ParentColor(sibling, false), left := tmp2)
    && tmp1 in m4.cells && m4.cells[tmp1] == m.cells[tmp1].(pc := ParentColor(sibling, false))
    && (tmp2 != null && tmp2 in m.cells ==> Moved(m, m4, tmp2, parent, m.cells[tmp2].pc.red))
  }

  lemma Case4RightBelowAgrees<T>(m: Mem<T>, parent: RbNode<T>, sibling: RbNode<T>, tmp1: RbNode<T>)
    requires parent in m.cells && sibling in m.cells && tmp1 in m.cells
    requires parent != sibling && parent != tmp1 && sibling != tmp1
    requires Elsewhere(m, m.cells[sibling].right, parent, sibling, tmp1, null, null)
    ensures
      var m3 := Case4RightBelow(m, parent, sibling, tmp1);
      Agree(m, m3, parent, sibling, tmp1, m.cells[sibling].right, null, null) && m3.root == m.root
  {
  }

  lemma Case4RightBelowWrites<T>(m: Mem<T>, parent: RbNode<T>, sibling: RbNode<T>, tmp1: RbNode<T>)
    requires parent in m.cells && sibling in m.cells && tmp1 in m.cells
    requires parent != sibling && parent != tmp1 && sibling != tmp1
    requires Elsewhere(m, m.cells[sibling].right, parent, sibling, tmp1, null, null)
    ensures Case4RightWritten(m, Case4RightBelow(m, parent, sibling, tmp1), parent, sibling, tmp1)
  {
  }

  lemma Case4RightHung<T>(m: Mem<T>, m3: Mem<T>, parent: RbNode<T>, sibling: RbNode<T>, tmp1: RbNode<T>,
                          par: RbNode?<T>)
    requires parent in m.cells && sibling in m.cells && tmp1 in m.cells && par == m.cells[parent].pc.parent
    requires Elsewhere(m, par, parent, sibling, tmp1, m.cells[sibling].right, null) && (par == null || par in m3.cells)
    requires Case4RightWritten(m, m3, parent, sibling, tmp1)
    ensures Case4RightWritten(m, m3.ChangeChild(parent, sibling, par), parent, sibling, tmp1)
  {
  }

  /** Cases 3 and 4 together make up a double rotation. */
  lemma Case34RightCompose<T>(m: Mem<T>, m3: Mem<T>, m4: Mem<T>, parent: RbNode<T>, sibling: RbNode<T>, tmp2: RbNode<T>)
    requires parent in m.cells && sibling in m.cells && tmp2 in m.cells
    requires parent != sibling && parent != tmp2 && sibling != tmp2
    requires Elsewhere(m, m.cells[tmp2].left, parent, sibling, tmp2, m.cells[tmp2].right, null)
    requires Elsewhere(m, m.cells[tmp2].right, parent, sibling, tmp2, null, null)
    requires Elsewhere(m, m.cells[parent].pc.parent, parent, sibling, tmp2, m.cells[tmp2].right, m.cells[tmp2].left)
    requires m.cells[tmp2].right != null && m.cells[tmp2].right in m.cells ==> !m.cells[m.cells[tmp2].right].pc.red
    requires Case3RightWritten(m, m3, parent, sibling, tmp2) && Case4RightWritten(m3, m4, parent, tmp2, sibling)
    ensures LeftRightWritten(m, m4, sibling, tmp2, parent, false, false, false, false)
  {
  }

  // ---------------------------------------------------------------- balance

  /** What the loop keeps: the subtree is black, balanced in itself, and one black node short. */
  ghost predicate Deficit<T>(c: Ctx<T>, t: Tree<T>)
  {
    !c.Top? && Balanced(t) && Black(t) && CtxBalanced(c, BlackHeight(t) + 1)
  }

  ghost predicate Inv<T>(m: Mem<T>, c: Ctx<T>, t: Tree<T>, node: RbNode?<T>, parent: RbNode?<T>)
  {
    Fits(c, t) && Focus(m, c, t, node, parent) && Deficit(c, t)
  }

  /** A subtree that is a black node short has a sibling. */
  lemma LookAcross<T>(m: Mem<T>, c: Ctx<T>, t: Tree<T>, node: RbNode?<T>, parent: RbNode<T>)
    requires Inv(m, c, t, node, parent)
    ensures parent == c.node && parent in m.cells && m.cells[parent].pc.red == c.red
    ensures Plug(c, t) == Plug(c.up, Widen(c, t))
    ensures Fits(c.up, Widen(c, t)) && Focus(m, c.up, Widen(c, t), parent, m.cells[parent].pc.parent)
    ensures c.sib.Node? && c.sib.node in m.cells && m.cells[c.sib.node].pc.red == c.sib.red
    ensures c.sib.node == if c.InLeft? then m.cells[parent].right else m.cells[parent].left
    ensures c.InLeft? <==> m.cells[parent].right != node
    ensures
      var par := m.cells[parent].pc.parent;
      (par == null || par in m.cells) && (par == null <==> c.up.Top?)
    ensures
      var s := c.sib;
      var sl, sr := m.cells[s.node].left, m.cells[s.node].right;
      && (sl == null || sl in m.cells) && (Black(s.left) <==> sl == null || !m.cells[sl].pc.red) &&
         (sl != null <==> s.left.Node?)
      && (sr == null || sr in m.cells) && (Black(s.right) <==> sr == null || !m.cells[sr].pc.red) &&
         (sr != null <==> s.right.Node?)
      && (s.left.Node? ==> sl == s.left.node) && (s.right.Node? ==> sr == s.right.node)
  {
    Widened(m, c, t, node, parent);
    var s := c.sib;
    var sp := if c.InLeft? then m.cells[parent].right else m.cells[parent].left;
    assert Shape(m, s, sp, parent);
    InMemory(m, s.left, m.cells[s.node].left, s.node);
    InMemory(m, s.right, m.cells[s.node].right, s.node);
    InMemory(m, t, node, parent);
    CtxInMemory(m, c.up, parent, m.cells[parent].pc.parent);
  }

  /** Case 1 leaves a red parent and a black sibling. */
  lemma Case1LeftBalance<T>(c: Ctx<T>, t: Tree<T>)
    requires Deficit(c, t) && c.InLeft? && c.sib.Node? && c.sib.red
    ensures !c.red && c.sib.left.Node? && Black(c.sib.left)
    ensures
      var s := c.sib;
      var c' := InLeft(InLeft(c.up, s.node, false, s.right), c.node, true, s.left);
      Deficit(c', t) && Same(Widen(c, t), Node(Node(t, c.node, true, s.left), s.node, false, s.right))
  {
    var s := c.sib;
    assert Balanced(s.left) && Balanced(s.right);
    RotationSame(t, c.node, s.left, s.node, s.right, true, false, false, true);
    var c1 := InLeft(c.up, s.node, false, s.right);
    assert CtxBalanced(c1, BlackHeight(t) + 1);
  }

  lemma Case1LeftStep<T>(m: Mem<T>, c: Ctx<T>, t: Tree<T>, node: RbNode?<T>, parent: RbNode<T>)
    requires Inv(m, c, t, node, parent) && c.InLeft? && c.sib.Node? && c.sib.red
    ensures parent == c.node && parent in m.cells && c.sib.node in m.cells
    ensures
      var s := c.sib;
      var tmp1, par := m.cells[s.node].left, m.cells[parent].pc.parent;
      && tmp1 != null && tmp1 in m.cells && tmp1 != parent && (par == null || par in m.cells) && parent != s.node
      && s.left.Node? && tmp1 == s.left.node && Black(s.left)
      && var c' := InLeft(InLeft(c.up, s.node, false, s.right), c.node, true, s.left);
      && Inv(Case1Left(m, parent, s.node), c', t, node, parent)
      && Same(Plug(c, t), Plug(c', t))
  {
    LookAcross(m, c, t, node, parent);
    Case1LeftBalance(c, t);
    var s, w := c.sib, Widen(c, t);
    var tmp1, par := m.cells[s.node].left, m.cells[parent].pc.parent;
    assert Apart(s) && Shape(m, s, s.node, parent);
    Case1LeftWrites(m, parent, s.node);
    var m' := Case1Left(m, parent, s.node);
    Rehung(m, Case1LeftBelow(m, parent, s.node), c.up, parent, s.node, par, parent, s.node, tmp1, null, null);
    LeftRotation(m, m', s.right, s.node, true, s.left, parent, false, t, false, true, par);
    assert Recolor(s.left, false) == s.left;
    var w' := Node(Node(t, parent, true, s.left), s.node, false, s.right);
    assert Focus(m', c.up, w', s.node, par);
    PlugSame(c.up, w, w');
    PlugApart(c.up, w);
    PlugApart(c.up, w');
    NarrowedLeft(m', c.up, w', s.node, par);
    NarrowedLeft(m', InLeft(c.up, s.node, false, s.right), w'.left, parent, s.node);
  }

  lemma Case4LeftSame<T>(t: Tree<T>, x: RbNode<T>, red: bool, s: Tree<T>)
    requires s.Node? && !s.red
    ensures Same(Node(t, x, red, s), Node(Node(t, x, false, s.left), s.node, red, Recolor(s.right, false)))
  {
    var sr := Recolor(s.right, false);
    var s' := Node(s.left, s.node, false, sr);
    RecolorSame(s.right, false);
    PlugSame(InRight(Top, s.node, false, s.left), s.right, sr);
    assert Same(s, s');
    PlugSame(InRight(Top, x, red, t), s, s');
    assert Same(Node(t, x, red, s), Node(t, x, red, s'));
    RotationSame(t, x, s.left, s.node, sr, false, red, red, false);
  }

  lemma Case4LeftBalance<T>(c: Ctx<T>, t: Tree<T>)
    requires Deficit(c, t) && c.InLeft? && c.sib.Node? && !c.sib.red && !Black(c.sib.right)
    ensures
      var s := c.sib;
      RedBlack(Plug(c.up, Node(Node(t, c.node, false, s.left), s.node, c.red, Recolor(s.right, false))))
  {
    var s := c.sib;
    var sr := Recolor(s.right, false);
    assert Balanced(s.left) && Balanced(s.right);
    assert Balanced(sr) && BlackHeight(sr) == BlackHeight(t) + 1;
    var p := Node(t, c.node, false, s.left);
    assert Balanced(p) && BlackHeight(p) == BlackHeight(t) + 1;
    assert Balanced(Node(p, s.node, c.red, sr));
    PlugRedBlack(c.up, Node(p, s.node, c.red, sr));
  }

  lemma Case4LeftShape<T>(m: Mem<T>, m4: Mem<T>, t: Tree<T>, parent: RbNode<T>, red: bool, s: Tree<T>, par: RbNode?<T>)
    requires parent in m.cells && s.Node? && s.node in m.cells && s.right.Node? && s.right.node in m.cells
    requires Case4LeftWritten(m, m4, parent, s.node, s.right.node)
    requires Apart(Node(t, parent, red, s)) && par !in Nodes(Node(t, parent, red, s))
    requires Shape(m, Node(t, parent, red, s), parent, par)
    ensures Shape(m4, Node(Node(t, parent, false, s.left), s.node, red, Recolor(s.right, false)), s.node, par)
  {
    var tmp1, tmp2 := s.right.node, m.cells[s.node].left;
    assert Apart(s) && Shape(m, s, s.node, parent);
    assert Shape(m, s.right, m.cells[s.node].right, s.node);
    InMemory(m, s.left, tmp2, s.node);
    Kept(m, m4, t, m.cells[parent].left, parent, parent, s.node, tmp1, tmp2, par, null);
    Carried(m, m4, s.right, tmp1, s.node, s.node, false, parent, s.node, tmp2, par, null);
    var slRed := tmp2 != null && m.cells[tmp2].pc.red;
    Carried(m, m4, s.left, tmp2, s.node, parent, slRed, parent, s.node, tmp1, par, null);
    assert Recolor(s.left, slRed) == s.left;
    assert Shape(m4, Node(t, parent, false, s.left), parent, s.node);
  }

  /** Case 4 finishes. */
  lemma Case4LeftStep<T>(m: Mem<T>, c: Ctx<T>, t: Tree<T>, node: RbNode?<T>, parent: RbNode<T>)
    requires Inv(m, c, t, node, parent) && c.InLeft? && c.sib.Node? && !c.sib.red && !Black(c.sib.right)
    ensures parent == c.node && parent in m.cells && c.sib.node in m.cells && c.sib.right.node in m.cells
    ensures
      var s := c.sib;
      var tmp2, par := m.cells[s.node].left, m.cells[parent].pc.parent;
      && (tmp2 == null || tmp2 in m.cells) && tmp2 != parent && (par == null || par in m.cells)
      && parent != s.node && s.right.node != parent
      && Done(Case4Left(m, parent, s.node, s.right.node), Plug(c, t),
              Plug(c.up, Node(Node(t, c.node, false, s.left), s.node, c.red, Recolor(s.right, false))))
  {
    LookAcross(m, c, t, node, parent);
    Case4LeftBalance(c, t);
    Case4LeftSame(t, c.node, c.red, c.sib);
    var s := c.sib;
    var tmp1, tmp2, par := s.right.node, m.cells[s.node].left, m.cells[parent].pc.parent;
    assert Apart(s) && Shape(m, s, s.node, parent);
    InMemory(m, s.left, tmp2, s.node);
    Case4LeftBelowAgrees(m, parent, s.node, tmp1);
    Case4LeftBelowWrites(m, parent, s.node, tmp1);
    var m3 := Case4LeftBelow(m, parent, s.node, tmp1);
    Rehung(m, m3, c.up, parent, s.node, par, parent, s.node, tmp1, tmp2, null);
    Case4LeftHung(m, m3, parent, s.node, tmp1, par);
    var m4 := m3.ChangeChild(parent, s.node, par);
    Case4LeftShape(m, m4, t, parent, c.red, s, par);
    Finished(m4, c.up, Widen(c, t), Node(Node(t, c.node, false, s.left), s.node, c.red, Recolor(s.right, false)),
             s.node, par);
  }

  /** Case 1 leaves a red parent and a black sibling. */
  lemma Case1RightBalance<T>(c: Ctx<T>, t: Tree<T>)
    requires Deficit(c, t) && c.InRight? && c.sib.Node? && c.sib.red
    ensures !c.red && c.sib.right.Node? && Black(c.sib.right)
    ensures
      var s := c.sib;
      var c' := InRight(InRight(c.up, s.node, false, s.left), c.node, true, s.right);
      Deficit(c', t) && Same(Widen(c, t), Node(s.left, s.node, false, Node(s.right, c.node, true, t)))
  {
    var s := c.sib;
    assert Balanced(s.right) && Balanced(s.left);
    RotationSame(s.left, s.node, s.right, c.node, t, true, false, false, true);
    var c1 := InRight(c.up, s.node, false, s.left);
    assert CtxBalanced(c1, BlackHeight(t) + 1);
  }

  lemma Case1RightStep<T>(m: Mem<T>, c: Ctx<T>, t: Tree<T>, node: RbNode?<T>, parent: RbNode<T>)
    requires Inv(m, c, t, node, parent) && c.InRight? && c.sib.Node? && c.sib.red
    ensures parent == c.node && parent in m.cells && c.sib.node in m.cells
    ensures
      var s := c.sib;
      var tmp1, par := m.cells[s.node].right, m.cells[parent].pc.parent;
      && tmp1 != null && tmp1 in m.cells && tmp1 != parent && (par == null || par in m.cells) && parent != s.node
      && s.right.Node? && tmp1 == s.right.node && Black(s.right)
      && var c' := InRight(InRight(c.up, s.node, false, s.left), c.node, true, s.right);
      && Inv(Case1Right(m, parent, s.node), c', t, node, parent)
      && Same(Plug(c, t), Plug(c', t))
  {
    LookAcross(m, c, t, node, parent);
    Case1RightBalance(c, t);
    var s, w := c.sib, Widen(c, t);
    var tmp1, par := m.cells[s.node].right, m.cells[parent].pc.parent;
    assert Apart(s) && Shape(m, s, s.node, parent);
    Case1RightWrites(m, parent, s.node);
    var m' := Case1Right(m, parent, s.node);
    Rehung(m, Case1RightBelow(m, parent, s.node), c.up, parent, s.node, par, parent, s.node, tmp1, null, null);
    RightRotation(m, m', s.left, s.node, true, s.right, parent, false, t, false, true, par);
    assert Recolor(s.right, false) == s.right;
    var w' := Node(s.left, s.node, false, Node(s.right, parent, true, t));
    assert Focus(m', c.up, w', s.node, par);
    PlugSame(c.up, w, w');
    PlugApart(c.up, w);
    PlugApart(c.up, w');
    NarrowedRight(m', c.up, w', s.node, par);
    NarrowedRight(m', InRight(c.up, s.node, false, s.left), w'.right, parent, s.node);
  }

  lemma Case4RightSame<T>(t: Tree<T>, x: RbNode<T>, red: bool, s: Tree<T>)
    requires s.Node? && !s.red
    ensures Same(Node(s, x, red, t), Node(Recolor(s.left, false), s.node, red, Node(s.right, x, false, t)))
  {
    var sr := Recolor(s.left, false);
    var s' := Node(sr, s.node, false, s.right);
    RecolorSame(s.left, false);
    PlugSame(InLeft(Top, s.node, false, s.right), s.left, sr);
    assert Same(s, s');
    PlugSame(InLeft(Top, x, red, t), s, s');
    assert Same(Node(s, x, red, t), Node(s', x, red, t));
    RotationSame(sr, s.node, s.right, x, t, false, red, red, false);
  }

  lemma Case4RightBalance<T>(c: Ctx<T>, t: Tree<T>)
    requires Deficit(c, t) && c.InRight? && c.sib.Node? && !c.sib.red && !Black(c.sib.left)
    ensures
      var s := c.sib;
      RedBlack(Plug(c.up, Node(Recolor(s.left, false), s.node, c.red, Node(s.right, c.node, false, t))))
  {
    var s := c.sib;
    var sr := Recolor(s.left, false);
    assert Balanced(s.right) && Balanced(s.left);
    assert Balanced(sr) && BlackHeight(sr) == BlackHeight(t) + 1;
    var p := Node(s.right, c.node, false, t);
    assert Balanced(p) && BlackHeight(p) == BlackHeight(t) + 1;
    assert Balanced(Node(sr, s.node, c.red, p));
    PlugRedBlack(c.up, Node(sr, s.node, c.red, p));
  }

  lemma Case4RightShape<T>(m: Mem<T>, m4: Mem<T>, t: Tree<T>, parent: RbNode<T>, red: bool, s: Tree<T>, par: RbNode?<T>)
    requires parent in m.cells && s.Node? && s.node in m.cells && s.left.Node? && s.left.node in m.cells
    requires Case4RightWritten(m, m4, parent, s.node, s.left.node)
    requires Apart(Node(s, parent, red, t)) && par !in Nodes(Node(s, parent, red, t))
    requires Shape(m, Node(s, parent, red, t), parent, par)
    ensures Shape(m4, Node(Recolor(s.left, false), s.node, red, Node(s.right, parent, false, t)), s.node, par)
  {
    var tmp1, tmp2 := s.left.node, m.cells[s.node].right;
    assert Apart(s) && Shape(m, s, s.node, parent);
    assert Shape(m, s.left, m.cells[s.node].left, s.node);
    InMemory(m, s.right, tmp2, s.node);
    Kept(m, m4, t, m.cells[parent].right, parent, parent, s.node, tmp1, tmp2, par, null);
    Carried(m, m4, s.left, tmp1, s.node, s.node, false, parent, s.node, tmp2, par, null);
    var slRed := tmp2 != null && m.cells[tmp2].pc.red;
    Carried(m, m4, s.right, tmp2, s.node, parent, slRed, parent, s.node, tmp1, par, null);
    assert Recolor(s.right, slRed) == s.right;
    assert Shape(m4, Node(s.right, parent, false, t), parent, s.node);
  }

  /** Case 4 finishes. */
  lemma Case4RightStep<T>(m: Mem<T>, c: Ctx<T>, t: Tree<T>, node: RbNode?<T>, parent: RbNode<T>)
    requires Inv(m, c, t, node, parent) && c.InRight? && c.sib.Node? && !c.sib.red && !Black(c.sib.left)
    ensures parent == c.node && parent in m.cells && c.sib.node in m.cells && c.sib.left.node in m.cells
    ensures
      var s := c.sib;
      var tmp2, par := m.cells[s.node].right, m.cells[parent].pc.parent;
      && (tmp2 == null || tmp2 in m.cells) && tmp2 != parent && (par == null || par in m.cells)
      && parent != s.node && s.left.node != parent
      && Done(Case4Right(m, parent, s.node, s.left.node), Plug(c, t),
              Plug(c.up, Node(Recolor(s.left, false), s.node, c.red, Node(s.right, c.node, false, t))))
  {
    LookAcross(m, c, t, node, parent);
    Case4RightBalance(c, t);
    Case4RightSame(t, c.node, c.red, c.sib);
    var s := c.sib;
    var tmp1, tmp2, par := s.left.node, m.cells[s.node].right, m.cells[parent].pc.parent;
    assert Apart(s) && Shape(m, s, s.node, parent);
    InMemory(m, s.right, tmp2, s.node);
    Case4RightBelowAgrees(m, parent, s.node, tmp1);
    Case4RightBelowWrites(m, parent, s.node, tmp1);
    var m3 := Case4RightBelow(m, parent, s.node, tmp1);
    Rehung(m, m3, c.up, parent, s.node, par, parent, s.node, tmp1, tmp2, null);
    Case4RightHung(m, m3, parent, s.node, tmp1, par);
    var m4 := m3.ChangeChild(parent, s.node, par);
    Case4RightShape(m, m4, t, parent, c.red, s, par);
    Finished(m4, c.up, Widen(c, t), Node(Recolor(s.left, false), s.node, c.red, Node(s.right, c.node, false, t)),
             s.node, par);
  }

  lemma Case34LeftBalance<T>(c: Ctx<T>, t: Tree<T>)
    requires Deficit(c, t) && c.InLeft? && c.sib.Node? && !c.sib.red && !Black(c.sib.left) && Black(c.sib.right)
    ensures
      var s, z := c.sib, c.sib.left;
      && Balanced(z) && Black(z.left) && Black(z.right)
      && RedBlack(Plug(c.up, Node(Node(t, c.node, false, z.left), z.node, c.red,
                                  Node(z.right, s.node, false, s.right))))
  {
    var s, z := c.sib, c.sib.left;
    assert Balanced(z) && Balanced(s.right);
    assert Balanced(z.left) && Balanced(z.right);
    var p, g := Node(t, c.node, false, z.left), Node(z.right, s.node, false, s.right);
    assert Balanced(p) && Balanced(g);
    PlugRedBlack(c.up, Node(p, z.node, c.red, g));
  }

  /** Cases 3 and 4 finish. */
  lemma Case34LeftStep<T>(m: Mem<T>, c: Ctx<T>, t: Tree<T>, node: RbNode?<T>, parent: RbNode<T>)
    requires Inv(m, c, t, node, parent) && c.InLeft? && c.sib.Node? && !c.sib.red && !Black(c.sib.left) &&
             Black(c.sib.right)
    ensures parent == c.node && parent in m.cells && c.sib.node in m.cells && c.sib.left.node in m.cells
    ensures
      var s, z := c.sib, c.sib.left;
      var tmp1, tmp2, par := m.cells[z.node].right, m.cells[z.node].left, m.cells[parent].pc.parent;
      && (tmp1 == null || tmp1 in m.cells) && (tmp2 == null || tmp2 in m.cells) && (par == null || par in m.cells)
      && tmp2 != parent && parent != z.node && s.node != parent
      && var m3 := Case3Left(m, parent, s.node, z.node);
      && m3.cells[z.node].left == tmp2 && m3.cells[parent].pc == m.cells[parent].pc
      && Done(Case4Left(m3, parent, z.node, s.node), Plug(c, t),
              Plug(c.up, Node(Node(t, c.node, false, z.left), z.node, c.red, Node(z.right, s.node, false, s.right))))
  {
    LookAcross(m, c, t, node, parent);
    Case34LeftBalance(c, t);
    var s, z, par := c.sib, c.sib.left, m.cells[parent].pc.parent;
    var tmp1, tmp2 := m.cells[z.node].right, m.cells[z.node].left;
    assert Apart(s) && Shape(m, s, s.node, parent);
    assert Apart(z) && Shape(m, z, z.node, s.node);
    InMemory(m, z.left, tmp2, z.node);
    InMemory(m, z.right, tmp1, z.node);
    var m3 := Case3Left(m, parent, s.node, z.node);
    Case3LeftWrites(m, parent, s.node, z.node);
    Case4LeftBelowAgrees(m3, parent, z.node, s.node);
    Case4LeftBelowWrites(m3, parent, z.node, s.node);
    var m3' := Case4LeftBelow(m3, parent, z.node, s.node);
    Case34LeftFinish(m, m3, m3', c, t, parent);
  }

  /** What the writes of both cases make of the subtree. */
  lemma Case34LeftShape<T>(m: Mem<T>, m3: Mem<T>, m3': Mem<T>, c: Ctx<T>, t: Tree<T>, parent: RbNode<T>)
    requires c.InLeft? && c.sib.Node? && !c.sib.red && c.sib.left.Node? && c.sib.left.red
    requires parent in m.cells && c.sib.node in m.cells && c.sib.left.node in m.cells && parent == c.node
    requires Fits(c.up, Widen(c, t)) && Focus(m, c.up, Widen(c, t), parent, m.cells[parent].pc.parent)
    requires
      var s, z := c.sib, c.sib.left;
      && Black(z.left) && Black(z.right)
      && Case3LeftWritten(m, m3, parent, s.node, z.node)
      && Agree(m3, m3', parent, z.node, s.node, m3.cells[z.node].left, null, null) && m3'.root == m3.root
      && Case4LeftWritten(m3, m3', parent, z.node, s.node)
    ensures
      var s, z, par := c.sib, c.sib.left, m.cells[parent].pc.parent;
      && (par == null || par in m3'.cells)
      && Focus(m3'.ChangeChild(parent, z.node, par), c.up,
               Node(Node(t, c.node, false, z.left), z.node, c.red, Node(z.right, s.node, false, s.right)), z.node, par)
  {
    var s, z, par := c.sib, c.sib.left, m.cells[parent].pc.parent;
    var b, cc := z.left, z.right;
    var tmp1, tmp2 := m.cells[z.node].right, m.cells[z.node].left;
    assert Apart(s) && Shape(m, s, m.cells[parent].right, parent);
    assert Apart(z) && Shape(m, z, m.cells[s.node].left, s.node);
    InMemory(m, z.left, tmp2, z.node);
    InMemory(m, z.right, tmp1, z.node);
    CtxInMemory(m, c.up, parent, par);
    Rehung(m, m3', c.up, parent, z.node, par, parent, s.node, z.node, tmp1, tmp2);
    var m4 := m3'.ChangeChild(parent, z.node, par);
    Case4LeftHung(m3, m3', parent, z.node, s.node, par);
    Case34LeftCompose(m, m3, m4, parent, s.node, z.node);
    RightLeftRotation(m, m4, s.right, s.node, false, cc, z.node, true, b, parent, c.red, t, false, false, false,
                      false, par);
    assert Recolor(b, false) == b && Recolor(cc, false) == cc;
  }

  lemma Case34LeftFinish<T>(m: Mem<T>, m3: Mem<T>, m3': Mem<T>, c: Ctx<T>, t: Tree<T>, parent: RbNode<T>)
    requires c.InLeft? && c.sib.Node? && !c.sib.red && c.sib.left.Node? && c.sib.left.red
    requires parent in m.cells && c.sib.node in m.cells && c.sib.left.node in m.cells && parent == c.node
    requires Fits(c.up, Widen(c, t)) && Focus(m, c.up, Widen(c, t), parent, m.cells[parent].pc.parent)
    requires
      var s, z := c.sib, c.sib.left;
      && Black(z.left) && Black(z.right)
      && Case3LeftWritten(m, m3, parent, s.node, z.node)
      && Agree(m3, m3', parent, z.node, s.node, m3.cells[z.node].left, null, null) && m3'.root == m3.root
      && Case4LeftWritten(m3, m3', parent, z.node, s.node)
      && RedBlack(Plug(c.up, Node(Node(t, c.node, false, z.left), z.node, c.red,
                                  Node(z.right, s.node, false, s.right))))
    ensures
      var s, z, par := c.sib, c.sib.left, m.cells[parent].pc.parent;
      && (par == null || par in m3'.cells)
      && Done(m3'.ChangeChild(parent, z.node, par), Plug(c.up, Widen(c, t)),
              Plug(c.up, Node(Node(t, c.node, false, z.left), z.node, c.red, Node(z.right, s.node, false, s.right))))
  {
    var s, z, par := c.sib, c.sib.left, m.cells[parent].pc.parent;
    Case34LeftShape(m, m3, m3', c, t, parent);
    RightLeftSame(t, c.node, z.left, z.node, z.right, s.node, s.right, c.red, true, false, false, c.red, false);
    Finished(m3'.ChangeChild(parent, z.node, par), c.up, Widen(c, t),
             Node(Node(t, c.node, false, z.left), z.node, c.red, Node(z.right, s.node, false, s.right)), z.node, par);
  }

  lemma Case34RightBalance<T>(c: Ctx<T>, t: Tree<T>)
    requires Deficit(c, t) && c.InRight? && c.sib.Node? && !c.sib.red && !Black(c.sib.right) && Black(c.sib.left)
    ensures
      var s, z := c.sib, c.sib.right;
      && Balanced(z) && Black(z.right) && Black(z.left)
      && RedBlack(Plug(c.up, Node(Node(s.left, s.node, false, z.left), z.node, c.red, Node(z.right, c.node, false, t))))
  {
    var s, z := c.sib, c.sib.right;
    assert Balanced(z) && Balanced(s.left);
    assert Balanced(z.right) && Balanced(z.left);
    var p, g := Node(z.right, c.node, false, t), Node(s.left, s.node, false, z.left);
    assert Balanced(p) && Balanced(g);
    PlugRedBlack(c.up, Node(g, z.node, c.red, p));
  }

  /** Cases 3 and 4 finish. */
  lemma Case34RightStep<T>(m: Mem<T>, c: Ctx<T>, t: Tree<T>, node: RbNode?<T>, parent: RbNode<T>)
    requires Inv(m, c, t, node, parent) && c.InRight? && c.sib.Node? && !c.sib.red && !Black(c.sib.right) &&
             Black(c.sib.left)
    ensures parent == c.node && parent in m.cells && c.sib.node in m.cells && c.sib.right.node in m.cells
    ensures
      var s, z := c.sib, c.sib.right;
      var tmp1, tmp2, par := m.cells[z.node].left, m.cells[z.node].right, m.cells[parent].pc.parent;
      && (tmp1 == null || tmp1 in m.cells) && (tmp2 == null || tmp2 in m.cells) && (par == null || par in m.cells)
      && tmp2 != parent && parent != z.node && s.node != parent
      && var m3 := Case3Right(m, parent, s.node, z.node);
      && m3.cells[z.node].right == tmp2 && m3.cells[parent].pc == m.cells[parent].pc
      && Done(Case4Right(m3, parent, z.node, s.node), Plug(c, t),
              Plug(c.up, Node(Node(s.left, s.node, false, z.left), z.node, c.red, Node(z.right, c.node, false, t))))
  {
    LookAcross(m, c, t, node, parent);
    Case34RightBalance(c, t);
    var s, z, par := c.sib, c.sib.right, m.cells[parent].pc.parent;
    var tmp1, tmp2 := m.cells[z.node].left, m.cells[z.node].right;
    assert Apart(s) && Shape(m, s, s.node, parent);
    assert Apart(z) && Shape(m, z, z.node, s.node);
    InMemory(m, z.right, tmp2, z.node);
    InMemory(m, z.left, tmp1, z.node);
    var m3 := Case3Right(m, parent, s.node, z.node);
    Case3RightWrites(m, parent, s.node, z.node);
    Case4RightBelowAgrees(m3, parent, z.node, s.node);
    Case4RightBelowWrites(m3, parent, z.node, s.node);
    var m3' := Case4RightBelow(m3, parent, z.node, s.node);
    Case34RightFinish(m, m3, m3', c, t, parent);
  }

  /** What the writes of both cases make of the subtree. */
  lemma Case34RightShape<T>(m: Mem<T>, m3: Mem<T>, m3': Mem<T>, c: Ctx<T>, t: Tree<T>, parent: RbNode<T>)
    requires c.InRight? && c.sib.Node? && !c.sib.red && c.sib.right.Node? && c.sib.right.red
    requires parent in m.cells && c.sib.node in m.cells && c.sib.right.node in m.cells && parent == c.node
    requires Fits(c.up, Widen(c, t)) && Focus(m, c.up, Widen(c, t), parent, m.cells[parent].pc.parent)
    requires
      var s, z := c.sib, c.sib.right;
      && Black(z.right) && Black(z.left)
      && Case3RightWritten(m, m3, parent, s.node, z.node)
      && Agree(m3, m3', parent, z.node, s.node, m3.cells[z.node].right, null, null) && m3'.root == m3.root
      && Case4RightWritten(m3, m3', parent, z.node, s.node)
    ensures
      var s, z, par := c.sib, c.sib.right, m.cells[parent].pc.parent;
      && (par == null || par in m3'.cells)
      && Focus(m3'.ChangeChild(parent, z.node, par), c.up,
               Node(Node(s.left, s.node, false, z.left), z.node, c.red, Node(z.right, c.node, false, t)), z.node, par)
  {
    var s, z, par := c.sib, c.sib.right, m.cells[parent].pc.parent;
    var b, cc := z.right, z.left;
    var tmp1, tmp2 := m.cells[z.node].left, m.cells[z.node].right;
    assert Apart(s) && Shape(m, s, m.cells[parent].left, parent);
    assert Apart(z) && Shape(m, z, m.cells[s.node].right, s.node);
    InMemory(m, z.right, tmp2, z.node);
    InMemory(m, z.left, tmp1, z.node);
    CtxInMemory(m, c.up, parent, par);
    Rehung(m, m3', c.up, parent, z.node, par, parent, s.node, z.node, tmp1, tmp2);
    var m4 := m3'.ChangeChild(parent, z.node, par);
    Case4RightHung(m3, m3', parent, z.node, s.node, par);
    Case34RightCompose(m, m3, m4, parent, s.node, z.node);
    LeftRightRotation(m, m4, s.left, s.node, false, cc, z.node, true, b, parent, c.red, t, false, false, false,
                      false, par);
    assert Recolor(b, false) == b && Recolor(cc, false) == cc;
  }

  lemma Case34RightFinish<T>(m: Mem<T>, m3: Mem<T>, m3': Mem<T>, c: Ctx<T>, t: Tree<T>, parent: RbNode<T>)
    requires c.InRight? && c.sib.Node? && !c.sib.red && c.sib.right.Node? && c.sib.right.red
    requires parent in m.cells && c.sib.node in m.cells && c.sib.right.node in m.cells && parent == c.node
    requires Fits(c.up, Widen(c, t)) && Focus(m, c.up, Widen(c, t), parent, m.cells[parent].pc.parent)
    requires
      var s, z := c.sib, c.sib.right;
      && Black(z.right) && Black(z.left)
      && Case3RightWritten(m, m3, parent, s.node, z.node)
      && Agree(m3, m3', parent, z.node, s.node, m3.cells[z.node].right, null, null) && m3'.root == m3.root
      && Case4RightWritten(m3, m3', parent, z.node, s.node)
      && RedBlack(Plug(c.up, Node(Node(s.left, s.node, false, z.left), z.node, c.red, Node(z.right, c.node, false, t))))
    ensures
      var s, z, par := c.sib, c.sib.right, m.cells[parent].pc.parent;
      && (par == null || par in m3'.cells)
      && Done(m3'.ChangeChild(parent, z.node, par), Plug(c.up, Widen(c, t)),
              Plug(c.up, Node(Node(s.left, s.node, false, z.left), z.node, c.red, Node(z.right, c.node, false, t))))
  {
    var s, z, par := c.sib, c.sib.right, m.cells[parent].pc.parent;
    Case34RightShape(m, m3, m3', c, t, parent);
    LeftRightSame(s.left, s.node, z.left, z.node, z.right, c.node, t, false, true, c.red, false, c.red, false);
    Finished(m3'.ChangeChild(parent, z.node, par), c.up, Widen(c, t),
             Node(Node(s.left, s.node, false, z.left), z.node, c.red, Node(z.right, c.node, false, t)), z.node, par);
  }

  // ---------------------------------------------------------------- the colour flip

  /** The tree at the parent once the sibling is red. */
  ghost function Paled<T>(c: Ctx<T>, t: Tree<T>): Tree<T>
    requires !c.Top?
  {
    if c.InLeft? then Node(t, c.node, c.red, Recolor(c.sib, true)) else Node(Recolor(c.sib, true), c.node, c.red, t)
  }

  lemma PaledSame<T>(c: Ctx<T>, t: Tree<T>)
    requires !c.Top?
    ensures Same(Widen(c, t), Paled(c, t)) && Same(Widen(c, t), Recolor(Paled(c, t), false))
  {
    RecolorSame(c.sib, true);
    RecolorSame(Paled(c, t), false);
    if c.InLeft? {
      PlugSame(InRight(Top, c.node, c.red, t), c.sib, Recolor(c.sib, true));
      assert Same(Widen(c, t), Paled(c, t));
    } else {
      PlugSame(InLeft(Top, c.node, c.red, t), c.sib, Recolor(c.sib, true));
      assert Same(Widen(c, t), Paled(c, t));
    }
  }

  lemma PaledBalance<T>(c: Ctx<T>, t: Tree<T>)
    requires Deficit(c, t) && c.sib.Node? && !c.sib.red && Black(c.sib.left) && Black(c.sib.right)
    ensures c.red ==> RedBlack(Plug(c.up, Recolor(Paled(c, t), false)))
    ensures !c.red && c.up.Top? ==> RedBlack(Plug(c.up, Paled(c, t)))
    ensures !c.red && !c.up.Top? ==> Deficit(c.up, Paled(c, t))
  {
    var s' := Recolor(c.sib, true);
    assert Balanced(s') && BlackHeight(s') == BlackHeight(t);
    assert CtxBalanced(c.up, BlackHeight(t) + 1 + if c.red then 0 else 1);
    PlugRedBlack(c.up, Recolor(Paled(c, t), false));
  }

  lemma PaledShape<T>(m: Mem<T>, c: Ctx<T>, t: Tree<T>, parent: RbNode<T>)
    requires !c.Top? && c.sib.Node? && parent in m.cells && parent == c.node && c.sib.node in m.cells
    requires Fits(c.up, Widen(c, t)) && Focus(m, c.up, Widen(c, t), parent, m.cells[parent].pc.parent)
    ensures Focus(m.SetPc(c.sib.node, ParentColor(parent, true)), c.up, Paled(c, t), parent, m.cells[parent].pc.parent)
  {
    var s, par := c.sib, m.cells[parent].pc.parent;
    var m' := m.SetPc(s.node, ParentColor(parent, true));
    assert Agree(m, m', s.node, null, null, null, null, null);
    CtxKept(m, m', c.up, parent, par, s.node, null, null, null, null);
    if c.InLeft? {
      assert Shape(m, s, m.cells[parent].right, parent);
      Kept(m, m', t, m.cells[parent].left, parent, s.node, null, null, null, null, null);
      Carried(m, m', s, s.node, parent, parent, true, null, null, null, null, null);
    } else {
      assert Shape(m, s, m.cells[parent].left, parent);
      Kept(m, m', t, m.cells[parent].right, parent, s.node, null, null, null, null, null);
      Carried(m, m', s, s.node, parent, parent, true, null, null, null, null, null);
    }
  }

  lemma BlackenedShape<T>(m: Mem<T>, c: Ctx<T>, w: Tree<T>, p: RbNode<T>)
    requires Fits(c, w) && p in m.cells && w.Node? && Focus(m, c, w, p, m.cells[p].pc.parent)
    ensures Focus(m.SetPc(p, ParentColor(m.cells[p].pc.parent, false)), c, Recolor(w, false), p, m.cells[p].pc.parent)
  {
    var par := m.cells[p].pc.parent;
    var m' := m.SetPc(p, ParentColor(par, false));
    assert Agree(m, m', p, null, null, null, null, null);
    CtxKept(m, m', c, p, par, p, null, null, null, null);
    Reparented(m, m', w, p, par, par, false);
  }

  /** Case 2 finishes under a red parent or at the root, and moves the deficit up otherwise. */
  lemma Case2Step<T>(m: Mem<T>, c: Ctx<T>, t: Tree<T>, node: RbNode?<T>, parent: RbNode<T>)
    requires Inv(m, c, t, node, parent) && c.sib.Node? && !c.sib.red && Black(c.sib.left) && Black(c.sib.right)
    ensures parent == c.node && parent in m.cells && c.sib.node in m.cells && parent != c.sib.node
    ensures
      var m1, par := m.SetPc(c.sib.node, ParentColor(parent, true)), m.cells[parent].pc.parent;
      && m1.cells[parent] == m.cells[parent]
      && (c.red ==> Done(m1.SetPc(parent, ParentColor(par, false)), Plug(c, t),
                         Plug(c.up, Recolor(Paled(c, t), false))))
      && (!c.red && c.up.Top? ==> Done(m1, Plug(c, t), Plug(c.up, Paled(c, t))))
      && (!c.red && !c.up.Top? ==> Inv(m1, c.up, Paled(c, t), parent, par) && Same(Plug(c, t), Plug(c.up, Paled(c, t))))
  {
    LookAcross(m, c, t, node, parent);
    PaledSame(c, t);
    PaledBalance(c, t);
    PaledShape(m, c, t, parent);
    var m1, par, w, w1 := m.SetPc(c.sib.node, ParentColor(parent, true)), m.cells[parent].pc.parent, Widen(c, t),
                          Paled(c, t);
    PlugSame(c.up, w, w1);
    PlugApart(c.up, w);
    PlugApart(c.up, w1);
    if c.red {
      BlackenedShape(m1, c.up, w1, parent);
      Finished(m1.SetPc(parent, ParentColor(par, false)), c.up, w, Recolor(w1, false), parent, par);
    } else if c.up.Top? {
      Finished(m1, c.up, w, w1, parent, par);
    }
  }

  // ---------------------------------------------------------------- the loop

  /** Case 2, on either side. */
  method FlipSibling<T>(node: RbNode?<T>, parent: RbNode<T>, sibling: RbNode<T>, root: RbRoot<T>,
                        ghost nodes: set<RbNode<T>>, ghost c: Ctx<T>, ghost t: Tree<T>)
    returns (next: RbNode?<T>, ghost w: Tree<T>)
    requires Inv(Memory(root, nodes), c, t, node, parent) && c.sib.Node? && sibling == c.sib.node
    requires !c.sib.red && Black(c.sib.left) && Black(c.sib.right)
    modifies root, nodes
    ensures next == null ==> Done(Memory(root, nodes), Plug(c, t), w)
    ensures next != null ==> !c.red && next in nodes && Inv(Memory(root, nodes), c.up, w, next, next.pc.parent)
    ensures next != null ==> Same(Plug(c, t), Plug(c.up, w))
  {
    LookAcross(Memory(root, nodes), c, t, node, parent);
    Case2Step(Memory(root, nodes), c, t, node, parent);
    SetParentColor(sibling, parent, true, root, nodes);
    next := null;
    if parent.pc.red {
      SetParentColor(parent, parent.pc.parent, false, root, nodes);
      w := Plug(c.up, Recolor(Paled(c, t), false));
    } else if parent.pc.parent != null {
      next := parent;
      w := Paled(c, t);
    } else {
      w := Plug(c.up, Paled(c, t));
    }
  }

  /** The rest of a round, with a black sibling: either done, or the parent is the node that is short. */
  method FixBlackLeft<T>(node: RbNode?<T>, parent: RbNode<T>, sib: RbNode<T>, root: RbRoot<T>,
                         ghost nodes: set<RbNode<T>>, ghost c: Ctx<T>, ghost t: Tree<T>)
    returns (next: RbNode?<T>, ghost w: Tree<T>)
    requires Inv(Memory(root, nodes), c, t, node, parent) && c.InLeft? && c.sib.Node? && !c.sib.red && sib == c.sib.node
    modifies root, nodes
    ensures next == null ==> Done(Memory(root, nodes), Plug(c, t), w)
    ensures next != null ==> !c.red && next in nodes && Inv(Memory(root, nodes), c.up, w, next, next.pc.parent)
    ensures next != null ==> Same(Plug(c, t), Plug(c.up, w))
  {
    ghost var m := Memory(root, nodes);
    LookAcross(m, c, t, node, parent);
    var sibling := sib;
    var tmp1 := sibling.right;
    next := null;
    if tmp1 == null || !tmp1.pc.red {
      var tmp2 := sibling.left;
      if tmp2 == null || !tmp2.pc.red {
        next, w := FlipSibling(node, parent, sibling, root, nodes, c, t);
        return;
      }
      Case34LeftStep(m, c, t, node, parent);
      w := Plug(c.up, Node(Node(t, c.node, false, c.sib.left.left), tmp2, c.red,
                           Node(c.sib.left.right, sib, false, c.sib.right)));
      DoCase3Left(parent, sibling, tmp2, root, nodes);
      tmp1 := sibling;
      sibling := tmp2;
      DoCase4Left(parent, sibling, tmp1, root, nodes);
    } else {
      Case4LeftStep(m, c, t, node, parent);
      w := Plug(c.up, Node(Node(t, c.node, false, c.sib.left), sib, c.red, Recolor(c.sib.right, false)));
      DoCase4Left(parent, sibling, tmp1, root, nodes);
    }
  }

  /** One round for a left child that is a black node short. */
  method FixLeft<T>(node: RbNode?<T>, parent: RbNode<T>, root: RbRoot<T>,
                    ghost nodes: set<RbNode<T>>, ghost c: Ctx<T>, ghost t: Tree<T>)
    returns (next: RbNode?<T>, ghost w: Tree<T>)
    requires Inv(Memory(root, nodes), c, t, node, parent) && c.InLeft?
    modifies root, nodes
    ensures next == null ==> Done(Memory(root, nodes), Plug(c, t), w)
    ensures next != null ==> next in nodes && Inv(Memory(root, nodes), c.up, w, next, next.pc.parent)
    ensures next != null ==> Same(Plug(c, t), Plug(c.up, w))
  {
    ghost var m := Memory(root, nodes);
    LookAcross(m, c, t, node, parent);
    var sibling := parent.right;
    ghost var c' := c;
    if sibling.pc.red {
      Case1LeftStep(m, c, t, node, parent);
      c' := InLeft(InLeft(c.up, c.sib.node, false, c.sib.right), c.node, true, c.sib.left);
      sibling := DoCase1Left(parent, sibling, root, nodes);
    }
    next, w := FixBlackLeft(node, parent, sibling, root, nodes, c', t);
  }

  /** The rest of a round, with a black sibling: either done, or the parent is the node that is short. */
  method FixBlackRight<T>(node: RbNode?<T>, parent: RbNode<T>, sib: RbNode<T>, root: RbRoot<T>,
                         ghost nodes: set<RbNode<T>>, ghost c: Ctx<T>, ghost t: Tree<T>)
    returns (next: RbNode?<T>, ghost w: Tree<T>)
    requires Inv(Memory(root, nodes), c, t, node, parent) && c.InRight? && c.sib.Node? && !c.sib.red &&
             sib == c.sib.node
    modifies root, nodes
    ensures next == null ==> Done(Memory(root, nodes), Plug(c, t), w)
    ensures next != null ==> !c.red && next in nodes && Inv(Memory(root, nodes), c.up, w, next, next.pc.parent)
    ensures next != null ==> Same(Plug(c, t), Plug(c.up, w))
  {
    ghost var m := Memory(root, nodes);
    LookAcross(m, c, t, node, parent);
    var sibling := sib;
    var tmp1 := sibling.left;
    next := null;
    if tmp1 == null || !tmp1.pc.red {
      var tmp2 := sibling.right;
      if tmp2 == null || !tmp2.pc.red {
        next, w := FlipSibling(node, parent, sibling, root, nodes, c, t);
        return;
      }
      Case34RightStep(m, c, t, node, parent);
      w := Plug(c.up, Node(Node(c.sib.left, sib, false, c.sib.right.left), tmp2, c.red,
                           Node(c.sib.right.right, c.node, false, t)));
      DoCase3Right(parent, sibling, tmp2, root, nodes);
      tmp1 := sibling;
      sibling := tmp2;
      DoCase4Right(parent, sibling, tmp1, root, nodes);
    } else {
      Case4RightStep(m, c, t, node, parent);
      w := Plug(c.up, Node(Recolor(c.sib.left, false), sib, c.red, Node(c.sib.right, c.node, false, t)));
      DoCase4Right(parent, sibling, tmp1, root, nodes);
    }
  }

  /** One round for a right child that is a black node short. */
  method FixRight<T>(node: RbNode?<T>, parent: RbNode<T>, root: RbRoot<T>,
                    ghost nodes: set<RbNode<T>>, ghost c: Ctx<T>, ghost t: Tree<T>)
    returns (next: RbNode?<T>, ghost w: Tree<T>)
    requires Inv(Memory(root, nodes), c, t, node, parent) && c.InRight?
    modifies root, nodes
    ensures next == null ==> Done(Memory(root, nodes), Plug(c, t), w)
    ensures next != null ==> next in nodes && Inv(Memory(root, nodes), c.up, w, next, next.pc.parent)
    ensures next != null ==> Same(Plug(c, t), Plug(c.up, w))
  {
    ghost var m := Memory(root, nodes);
    LookAcross(m, c, t, node, parent);
    var sibling := parent.left;
    ghost var c' := c;
    if sibling.pc.red {
      Case1RightStep(m, c, t, node, parent);
      c' := InRight(InRight(c.up, c.sib.node, false, c.sib.left), c.node, true, c.sib.right);
      sibling := DoCase1Right(parent, sibling, root, nodes);
    }
    next, w := FixBlackRight(node, parent, sibling, root, nodes, c', t);
  }

  /**
    Restores the red-black properties after a black node without children has been unlinked from the
    hole of `c0`: the result is a red-black tree, laid out in memory, with the same nodes in the same order.
   */
  method EraseColor<T>(start: RbNode<T>, root: RbRoot<T>, ghost nodes: set<RbNode<T>>, ghost c0: Ctx<T>)
    returns (ghost w: Tree<T>)
    requires start in nodes && Inv(Memory(root, nodes), c0, Leaf, null, start)
    modifies root, nodes
    ensures Rooted(Memory(root, nodes), w) && RedBlack(w)
    ensures Same(Plug(c0, Leaf), w)
  {
    ghost var c, t := c0, Leaf;
    var node: RbNode?<T> := null;
    var parent: RbNode<T> := start;
    while true
      invariant parent in nodes
      invariant Inv(Memory(root, nodes), c, t, node, parent) && Same(Plug(c0, Leaf), Plug(c, t))
      decreases c
    {
      LookAcross(Memory(root, nodes), c, t, node, parent);
      var sibling := parent.right;
      var next;
      if node != sibling {
        next, w := FixLeft(node, parent, root, nodes, c, t);
      } else {
        next, w := FixRight(node, parent, root, nodes, c, t);
      }
      if next == null {
        break;
      }
      c, t := c.up, w;
      CtxInMemory(Memory(root, nodes), c, next, next.pc.parent);
      node, parent := next, next.pc.parent;
    }
  }
}
