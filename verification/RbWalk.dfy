/**
  Walking a red-black tree in order, and how deep it can be.
 */
module RbWalk {
  import opened RbTree
  import opened RbRotate
  import Numbers
  import RbUnlink

  /** Down and left as far as possible: the first node of a subtree. */
  method Leftmost<T>(start: RbNode<T>, root: RbRoot<T>, ghost nodes: set<RbNode<T>>, ghost t0: Tree<T>,
                     ghost up0: RbNode?<T>)
    returns (n: RbNode<T>)
    requires start in nodes && Shape(Memory(root, nodes), t0, start, up0)
    ensures Inorder(t0) != [] && n == Inorder(t0)[0] && n in Nodes(t0)
    ensures Memory(root, nodes) == old(Memory(root, nodes))
  {
    ghost var m := Memory(root, nodes);
    n := start;
    ghost var t, up := t0, up0;
    while n.left != null
      invariant n in nodes && t.Node? && Shape(m, t, n, up)
      invariant Inorder(t0) != [] && Inorder(t)[0] == Inorder(t0)[0] && n in Nodes(t0) && Nodes(t) <= Nodes(t0)
      decreases t
    {
      InMemory(m, t.left, n.left, n);
      up := n;
      n := n.left;
      t := t.left;
    }
    InMemory(m, t.left, n.left, n);
  }

  /** The first node in sort order, or null for the empty tree. */
  method First<T>(root: RbRoot<T>, ghost nodes: set<RbNode<T>>, ghost w: Tree<T>) returns (n: RbNode?<T>)
    requires Rooted(Memory(root, nodes), w)
    ensures Rooted(Memory(root, nodes), w)
    ensures n == null <==> Inorder(w) == []
    ensures n != null ==> n in Nodes(w) && n == Inorder(w)[0]
  {
    n := root.node;
    InMemory(Memory(root, nodes), w, n, null);
    if n != null {
      n := Leftmost(n, root, nodes, w, null);
    }
  }

  /** Up until a left child is left behind: the first node after the subtree in the hole of `c`. */
  method Climb<T>(start: RbNode<T>, root: RbRoot<T>, ghost nodes: set<RbNode<T>>, ghost c: Ctx<T>)
    returns (n: RbNode?<T>)
    requires start in nodes && start !in CtxNodes(c) && CtxApart(c) &&
             CtxShape(Memory(root, nodes), c, start, start.pc.parent)
    ensures n == if After(c) == [] then null else After(c)[0]
  {
    ghost var m, d := Memory(root, nodes), c;
    var cur := start;
    n := start.pc.parent;
    CtxInMemory(m, d, cur, n);
    while n != null && cur == n.right
      invariant cur in nodes && cur !in CtxNodes(d) && CtxApart(d) && CtxShape(m, d, cur, n) && After(d) == After(c)
      invariant n != null ==> n in nodes
      decreases d
    {
      InMemory(m, d.sib, if d.InLeft? then n.right else n.left, n);
      cur := n;
      n := cur.pc.parent;
      d := d.up;
      CtxInMemory(m, d, cur, n);
    }
  }

  /** `n` is what comes right after `x`, null at the end. */
  ghost predicate Follows<T>(s: seq<RbNode<T>>, x: RbNode<T>, n: RbNode?<T>)
  {
    exists i :: 0 <= i < |s| && s[i] == x && n == if i + 1 < |s| then s[i + 1] else null
  }

  lemma FollowsAt<T>(s: seq<RbNode<T>>, i: nat, n: RbNode?<T>)
    requires i < |s| && n == if i + 1 < |s| then s[i + 1] else null
    ensures Follows(s, s[i], n)
  {
  }

  /** The node after `node` in sort order, or null if it is the last. */
  method Next<T>(node: RbNode<T>, root: RbRoot<T>, ghost nodes: set<RbNode<T>>, ghost w: Tree<T>)
    returns (n: RbNode?<T>)
    requires Rooted(Memory(root, nodes), w) && node in Nodes(w)
    ensures Follows(Inorder(w), node, n)
  {
    ghost var m := Memory(root, nodes);
    ghost var c, t := RbUnlink.Locate(Top, w, node);
    ghost var p, par := RbUnlink.UnplugShape(m, c, t);
    PlugApart(c, t);
    PlugInorder(c, t);
    InMemory(m, t.right, node.right, node);
    ghost var i := |Before(c)| + |Inorder(t.left)|;
    RightAfter(Before(c), Inorder(t.left), node, Inorder(t.right), After(c));
    if node.right != null {
      n := Leftmost(node.right, root, nodes, t.right, node);
    } else {
      n := Climb(node, root, nodes, c);
    }
    FollowsAt(Inorder(w), i, n);
  }

  lemma RightAfter<X>(a: seq<X>, l: seq<X>, x: X, r: seq<X>, b: seq<X>)
    ensures
      var s, i := a + (l + [x] + r) + b, |a| + |l|;
      && s[i] == x && (i + 1 < |s| <==> r != [] || b != [])
      && (r != [] ==> s[i + 1] == r[0]) && (r == [] && b != [] ==> s[i + 1] == b[0])
  {
  }

  /** The longest path to a leaf. */
  function Height<T>(t: Tree<T>): nat
  {
    match t
    case Leaf => 0
    case Node(l, _, _, r) => 1 + if Height(l) < Height(r) then Height(r) else Height(l)
  }

  function Size<T>(t: Tree<T>): nat
  {
    match t
    case Leaf => 0
    case Node(l, _, _, r) => Size(l) + 1 + Size(r)
  }

  /** No path is longer than twice the black height, and the black height is at most logarithmic in the size. */
  lemma {:induction false} HeightBound<T>(t: Tree<T>)
    requires Balanced(t)
    ensures Height(t) <= 2 * BlackHeight(t) + if Black(t) then 0 else 1
    ensures Numbers.Pow2(BlackHeight(t)) <= Size(t) + 1
  {
    match t
    case Leaf =>
    case Node(l, _, _, r) =>
      HeightBound(l);
      HeightBound(r);
  }
}
