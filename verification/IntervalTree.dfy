/**
  Intervals in a red-black tree: searching by point and by range, inserting without overlap.
 */
module IntervalTree {
  import opened RbTree
  import opened RbRotate
  import RbInsert
  import RbUnlink
  import opened Sequences

  /** The half-open interval [low, high) and what is registered there. */
  datatype Interval<V> = Interval(low: nat, high: nat, value: V)

  type IntNode<V> = RbNode<Interval<V>>

  predicate Contains<V>(i: Interval<V>, point: nat) { i.low <= point < i.high }

  predicate Overlaps<V>(i: Interval<V>, j: Interval<V>) { i.low < j.high && j.low < i.high }

  /** For intervals that are not empty, overlapping means sharing a point. */
  lemma OverlapIsSharing<V>(i: Interval<V>, j: Interval<V>)
    requires i.low < i.high && j.low < j.high
    ensures Overlaps(i, j) <==> exists p: nat :: Contains(i, p) && Contains(j, p)
  {
    if Overlaps(i, j) {
      var p := if i.low < j.low then j.low else i.low;
      assert Contains(i, p) && Contains(j, p);
    }
  }

  /** All intervals of `a` end before any interval of `b` begins. */
  ghost predicate Left<V>(a: seq<IntNode<V>>, b: seq<IntNode<V>>)
  {
    forall x, y :: x in a && y in b ==> x.item.high <= y.item.low
  }

  /** Intervals from left to right, none reaching into the next. */
  ghost predicate Ordered<V>(s: seq<IntNode<V>>)
  {
    s == [] || (s[0].item.low <= s[0].item.high && Left([s[0]], s[1..]) && Ordered(s[1..]))
  }

  lemma {:induction false} OrderedBounds<V>(s: seq<IntNode<V>>, x: IntNode<V>)
    requires Ordered(s) && x in s
    ensures x.item.low <= x.item.high
  {
    if x != s[0] {
      OrderedBounds(s[1..], x);
    }
  }

  lemma {:induction false} OrderedConcat<V>(a: seq<IntNode<V>>, b: seq<IntNode<V>>)
    ensures Ordered(a + b) <==> Ordered(a) && Ordered(b) && Left(a, b)
  {
    if a == [] {
      assert a + b == b;
    } else {
      OrderedConcat(a[1..], b);
      assert (a + b)[0] == a[0] && (a + b)[1..] == a[1..] + b;
      assert a == [a[0]] + a[1..];
    }
  }

  /** A node between two parts of an ordered sequence. */
  lemma OrderedMiddle<V>(a: seq<IntNode<V>>, x: IntNode<V>, b: seq<IntNode<V>>)
    ensures Ordered(a + [x] + b) <==>
            Ordered(a) && Ordered(b) && Left(a, b) && Left(a, [x]) && Left([x], b) && x.item.low <= x.item.high
  {
    OrderedConcat(a + [x], b);
    OrderedConcat(a, [x]);
    assert Ordered([x]) <==> x.item.low <= x.item.high;
  }

  /** The linear scan a point search stands for: the first interval that holds the point. */
  ghost function Scan<V>(s: seq<IntNode<V>>, point: nat): RbNode?<Interval<V>>
  {
    if s == [] then null else if Contains(s[0].item, point) then s[0] else Scan(s[1..], point)
  }

  /** The linear scan a range search stands for: the first interval that holds all of [low, high). */
  ghost function ScanRange<V>(s: seq<IntNode<V>>, low: nat, high: nat): RbNode?<Interval<V>>
  {
    if s == [] then null
    else if Contains(s[0].item, low) && high <= s[0].item.high then s[0]
    else ScanRange(s[1..], low, high)
  }

  /** None of the intervals holds the point. */
  ghost predicate Misses<V>(s: seq<IntNode<V>>, point: nat)
  {
    forall x :: x in s ==> !Contains(x.item, point)
  }

  lemma {:induction false} ScanFinds<V>(s: seq<IntNode<V>>, point: nat)
    ensures Scan(s, point) == null <==> Misses(s, point)
    ensures Scan(s, point) != null ==> Scan(s, point) in s && Contains(Scan(s, point).item, point)
  {
    if s != [] {
      ScanFinds(s[1..], point);
      assert s == [s[0]] + s[1..];
    }
  }

  /** In ordered intervals, one that holds the point is the one the scan finds. */
  lemma {:induction false} ScanUnique<V>(s: seq<IntNode<V>>, point: nat, x: IntNode<V>)
    requires Ordered(s) && x in s && Contains(x.item, point)
    ensures Scan(s, point) == x
  {
    if x != s[0] {
      assert s == [s[0]] + s[1..];
      ScanUnique(s[1..], point, x);
    }
  }

  lemma {:induction false} ScanRangeIsScan<V>(s: seq<IntNode<V>>, low: nat, high: nat)
    requires Ordered(s)
    ensures ScanRange(s, low, high) ==
            var r := Scan(s, low);
            if r == null || r.item.high < high then null else r
  {
    if s != [] {
      ScanRangeIsScan(s[1..], low, high);
      if Contains(s[0].item, low) {
        ScanFinds(s[1..], low);
      }
    }
  }

  // ---------------------------------------------------------------- descents

  /** The way down to a point: left of every interval that begins after it, right of every one that ends before. */
  ghost function Search<V>(t: Tree<Interval<V>>, point: nat): RbNode?<Interval<V>>
  {
    match t
    case Leaf => null
    case Node(l, x, _, r) =>
      if point < x.item.low then Search(l, point) else if x.item.high <= point then Search(r, point) else x
  }

  /** The way down for a new interval meets one that it does not lie beside. */
  ghost predicate Blocked<V>(t: Tree<Interval<V>>, i: Interval<V>)
  {
    match t
    case Leaf => false
    case Node(l, x, _, r) =>
      if i.high <= x.item.low then Blocked(l, i) else if x.item.high <= i.low then Blocked(r, i) else true
  }

  /** The order of the nodes with a new one where the way down ends. */
  ghost function Put<V>(t: Tree<Interval<V>>, n: IntNode<V>): seq<IntNode<V>>
  {
    match t
    case Leaf => [n]
    case Node(l, x, _, r) =>
      if n.item.high <= x.item.low then Put(l, n) + [x] + Inorder(r) else Inorder(l) + [x] + Put(r, n)
  }

  /** No interval of `s` overlaps `i`. */
  ghost predicate Free<V>(s: seq<IntNode<V>>, i: Interval<V>)
  {
    forall x :: x in s ==> !Overlaps(x.item, i)
  }

  lemma {:induction false} ScanConcat<V>(a: seq<IntNode<V>>, b: seq<IntNode<V>>, point: nat)
    ensures Scan(a + b, point) == if Scan(a, point) != null then Scan(a, point) else Scan(b, point)
  {
    if a == [] {
      assert a + b == b;
    } else {
      ScanConcat(a[1..], b, point);
      assert (a + b)[0] == a[0] && (a + b)[1..] == a[1..] + b;
    }
  }

  /** Scanning a tree is scanning its left part, its node and its right part. */
  lemma ScanNode<V>(a: seq<IntNode<V>>, x: IntNode<V>, b: seq<IntNode<V>>, point: nat)
    ensures Scan(a + [x] + b, point) ==
            if Scan(a, point) != null then Scan(a, point) else if Contains(x.item, point) then x else Scan(b, point)
  {
    ScanConcat(a + [x], b, point);
    ScanConcat(a, [x], point);
    assert Scan([x], point) == (if Contains(x.item, point) then x else null) by {
      assert [x][1..] == [];
    }
  }

  /** In ordered intervals the way down to a point finds what a scan finds. */
  lemma {:induction false} SearchIsScan<V>(t: Tree<Interval<V>>, point: nat)
    requires Ordered(Inorder(t))
    ensures Search(t, point) == Scan(Inorder(t), point)
  {
    match t
    case Leaf =>
    case Node(l, x, _, r) =>
      OrderedMiddle(Inorder(l), x, Inorder(r));
      SearchIsScan(l, point);
      SearchIsScan(r, point);
      ScanNode(Inorder(l), x, Inorder(r), point);
      ScanFinds(Inorder(l), point);
      ScanFinds(Inorder(r), point);
  }

  /** In ordered intervals a new one is blocked exactly when it overlaps one of them. */
  lemma {:induction false} BlockedIsOverlap<V>(t: Tree<Interval<V>>, i: Interval<V>)
    requires Ordered(Inorder(t))
    ensures Blocked(t, i) <==> !Free(Inorder(t), i)
  {
    match t
    case Leaf =>
    case Node(l, x, _, r) =>
      OrderedMiddle(Inorder(l), x, Inorder(r));
      BlockedIsOverlap(l, i);
      BlockedIsOverlap(r, i);
      assert x in Inorder(t);
  }

  lemma {:induction false} PutMembers<V>(t: Tree<Interval<V>>, n: IntNode<V>)
    ensures forall x :: x in Put(t, n) <==> x == n || x in Inorder(t)
  {
    match t
    case Leaf =>
    case Node(l, _, _, r) =>
      PutMembers(l, n);
      PutMembers(r, n);
  }

  lemma PutLeft<V>(t: Tree<Interval<V>>, n: IntNode<V>, s: seq<IntNode<V>>)
    ensures Left(Inorder(t), s) && Left([n], s) ==> Left(Put(t, n), s)
    ensures Left(s, Inorder(t)) && Left(s, [n]) ==> Left(s, Put(t, n))
  {
    PutMembers(t, n);
  }

  /** Putting an interval into the left or the right part of an ordered sequence. */
  lemma PutOrderedLeft<V>(l: Tree<Interval<V>>, x: IntNode<V>, b: seq<IntNode<V>>, n: IntNode<V>)
    requires Ordered(Inorder(l) + [x] + b) && n.item.high <= x.item.low && Ordered(Put(l, n))
    ensures Ordered(Put(l, n) + [x] + b)
  {
    OrderedMiddle(Inorder(l), x, b);
    PutLeft(l, n, [x]);
    PutLeft(l, n, b);
    OrderedMiddle(Put(l, n), x, b);
  }

  lemma PutOrderedRight<V>(a: seq<IntNode<V>>, x: IntNode<V>, r: Tree<Interval<V>>, n: IntNode<V>)
    requires Ordered(a + [x] + Inorder(r)) && x.item.high <= n.item.low && Ordered(Put(r, n))
    ensures Ordered(a + [x] + Put(r, n))
  {
    OrderedMiddle(a, x, Inorder(r));
    PutLeft(r, n, [x]);
    PutLeft(r, n, a);
    OrderedMiddle(a, x, Put(r, n));
  }

  /** Otherwise it is put where it keeps the order. */
  lemma {:induction false} PutOrdered<V>(t: Tree<Interval<V>>, n: IntNode<V>)
    requires Ordered(Inorder(t)) && !Blocked(t, n.item) && n.item.low <= n.item.high
    ensures Ordered(Put(t, n))
  {
    match t
    case Leaf =>
    case Node(l, x, _, r) =>
      OrderedMiddle(Inorder(l), x, Inorder(r));
      if n.item.high <= x.item.low {
        PutOrdered(l, n);
        PutOrderedLeft(l, x, Inorder(r), n);
      } else {
        PutOrdered(r, n);
        PutOrderedRight(Inorder(l), x, r, n);
      }
  }

  /** Going down one step for a new interval. */
  lemma PutStep<V>(c: Ctx<Interval<V>>, t: Tree<Interval<V>>, n: IntNode<V>)
    requires t.Node?
    ensures n.item.high <= t.node.item.low ==>
      var c' := InLeft(c, t.node, t.red, t.right);
      Before(c') + Put(t.left, n) + After(c') == Before(c) + Put(t, n) + After(c)
    ensures n.item.high > t.node.item.low ==>
      var c' := InRight(c, t.node, t.red, t.left);
      Before(c') + Put(t.right, n) + After(c') == Before(c) + Put(t, n) + After(c)
  {
    Regroup(Before(c), Put(t.left, n), [t.node], Inorder(t.right), After(c));
    Regroup(Before(c), Inorder(t.left), [t.node], Put(t.right, n), After(c));
  }

  // ---------------------------------------------------------------- when a search misses nothing

  /**
    The first interval that holds the point is on the way down to it: seen from a node on that way, none that does is on
    the left where the way stays or goes right, and none is on the right if it goes left and there is none there.
   */
  ghost predicate SidedAt<V>(t: Tree<Interval<V>>, point: nat)
  {
    match t
    case Leaf => true
    case Node(l, x, _, r) =>
      if point < x.item.low then
        if Misses(Inorder(l), point) then Misses(Inorder(r), point) else SidedAt(l, point)
      else Misses(Inorder(l), point) && (x.item.high <= point ==> SidedAt(r, point))
  }

  lemma {:induction false} SearchFinds<V>(t: Tree<Interval<V>>, point: nat)
    ensures Misses(Inorder(t), point) ==> Search(t, point) == null
    ensures Search(t, point) != null ==> Search(t, point) in Nodes(t)
  {
    match t
    case Leaf =>
    case Node(l, x, _, r) =>
      SearchFinds(l, point);
      SearchFinds(r, point);
      assert x in Inorder(t);
  }

  /**
    In a tree of any intervals, also of some that overlap or whose upper bound is below the lower one, a search finds
    what a scan finds exactly when the first interval that holds the point is on the way down to it.
   */
  lemma {:induction false} SearchExact<V>(t: Tree<Interval<V>>, point: nat)
    requires Apart(t)
    ensures Search(t, point) == Scan(Inorder(t), point) <==> SidedAt(t, point)
  {
    match t
    case Leaf =>
    case Node(l, x, _, r) =>
      SearchExact(l, point);
      SearchExact(r, point);
      ScanNode(Inorder(l), x, Inorder(r), point);
      ScanFinds(Inorder(l), point);
      ScanFinds(Inorder(r), point);
      InorderNodes(l);
      SearchFinds(l, point);
      SearchFinds(r, point);
  }

  /** The pointers of a tree, the intervals in it, and the tree it stands for. */
  class IntTree<V> {
    const root: RbRoot<Interval<V>>
    ghost var tree: Tree<Interval<V>>

    /** A red-black tree. */
    ghost predicate Built()
      reads this, root, Nodes(tree)
    {
      Rooted(Memory(root, Nodes(tree)), tree) && RedBlack(tree)
    }

    /** A red-black tree of intervals from left to right, none overlapping another. */
    ghost predicate Valid()
      reads this, root, Nodes(tree)
    {
      Built() && Ordered(Inorder(tree))
    }

    constructor ()
      ensures Valid() && fresh(root) && Inorder(tree) == []
    {
      root := new RbRoot();
      tree := Leaf;
    }

    /** Goes down to a point. In an ordered tree it finds what a scan of all intervals would. */
    method SearchSingle(point: nat) returns (r: RbNode?<Interval<V>>)
      requires Built()
      ensures Built() && r == Search(tree, point)
      ensures Ordered(Inorder(tree)) ==> r == Scan(Inorder(tree), point)
    {
      ghost var m, t := Memory(root, Nodes(tree)), tree;
      ghost var parent: RbNode?<Interval<V>> := null;
      var node := root.node;
      InMemory(m, t, node, parent);
      while node != null
        invariant Shape(m, t, node, parent) && (node == null ==> t.Leaf?)
        invariant node != null ==> node in Nodes(tree) && node in m.cells && t.Node?
        invariant Nodes(t) <= Nodes(tree) && Search(t, point) == Search(tree, point)
        decreases t
      {
        if point < node.item.low {
          parent, t, node := node, t.left, node.left;
        } else if node.item.high <= point {
          parent, t, node := node, t.right, node.right;
        } else {
          break;
        }
        InMemory(m, t, node, parent);
      }
      if Ordered(Inorder(tree)) {
        SearchIsScan(tree, point);
      }
      return node;
    }

    /** The way down to where the interval belongs, unless it is blocked. */
    method FindHole(n: IntNode<V>)
      returns (ok: bool, parent: RbNode?<Interval<V>>, left: bool, ghost c: Ctx<Interval<V>>)
      requires Built() && n !in Nodes(tree)
      ensures Built() && (ok <==> !Blocked(tree, n.item))
      ensures ok ==> left == c.InLeft? && Plug(c, Leaf) == tree && Fits(c, Leaf) && CtxNodes(c) == Nodes(tree)
      ensures ok ==> Before(c) + [n] + After(c) == Put(tree, n)
      ensures ok ==> Focus(Memory(root, Nodes(tree)), c, Leaf, null, parent)
    {
      ghost var m, t := Memory(root, Nodes(tree)), tree;
      c, parent, left := Top, null, false;
      var node := root.node;
      assert Before(c) + Put(t, n) + After(c) == Put(tree, n);
      while node != null
        invariant Plug(c, t) == tree && left == c.InLeft? && Fits(c, t) && Focus(m, c, t, node, parent)
        invariant Blocked(t, n.item) == Blocked(tree, n.item)
        invariant Before(c) + Put(t, n) + After(c) == Put(tree, n)
        invariant node != null ==> node in Nodes(tree)
        decreases t
      {
        InMemory(m, t, node, parent);
        PutStep(c, t, n);
        if n.item.high <= node.item.low {
          NarrowedLeft(m, c, t, node, parent);
          parent, c, t, left := node, InLeft(c, t.node, t.red, t.right), t.left, true;
          node := node.left;
        } else if node.item.high <= n.item.low {
          NarrowedRight(m, c, t, node, parent);
          parent, c, t, left := node, InRight(c, t.node, t.red, t.left), t.right, false;
          node := node.right;
        } else {
          return false, parent, left, c;
        }
        InMemory(m, t, node, parent);
      }
      InMemory(m, t, node, parent);
      assert t == Leaf;
      PlugNodes(c, Leaf);
      assert CtxNodes(c) == Nodes(tree);
      ok := true;
    }

    /** Puts a node into the hole where it belongs. */
    method Place(n: IntNode<V>, parent: RbNode?<Interval<V>>, left: bool, ghost c: Ctx<Interval<V>>)
      requires Built() && n !in Nodes(tree) && left == c.InLeft? && Plug(c, Leaf) == tree && Fits(c, Leaf)
      requires CtxNodes(c) == Nodes(tree) && Focus(Memory(root, Nodes(tree)), c, Leaf, null, parent)
      modifies this, root, Nodes(tree), n
      ensures Built() && Nodes(tree) == old(Nodes(tree)) + {n} && Inorder(tree) == Before(c) + [n] + After(c)
    {
      ghost var nodes := Nodes(tree) + {n};
      Enlarged(Memory(root, Nodes(tree)), Memory(root, nodes), c, parent);
      tree := RbInsert.InsertAt(n, parent, left, root, nodes, c);
      assert Nodes(tree) == nodes;
    }

    /** Adds an interval where the way down for it ends. In an ordered tree it is refused exactly on an overlap. */
    method Insert(n: IntNode<V>) returns (ok: bool)
      requires Built() && n !in Nodes(tree)
      modifies this, root, Nodes(tree), n
      ensures Built() && (ok <==> !old(Blocked(tree, n.item)))
      ensures !ok ==> tree == old(tree)
      ensures ok ==> Nodes(tree) == old(Nodes(tree)) + {n} && Inorder(tree) == old(Put(tree, n))
      ensures old(Valid()) ==> (ok <==> old(Free(Inorder(tree), n.item)))
      ensures old(Valid()) ==> (Valid() <==> !ok || n.item.low <= n.item.high)
    {
      var parent, left;
      ghost var c;
      ok, parent, left, c := FindHole(n);
      if Ordered(Inorder(tree)) {
        BlockedIsOverlap(tree, n.item);
        if ok && n.item.low <= n.item.high {
          PutOrdered(tree, n);
        }
      }
      if ok {
        Place(n, parent, left, c);
        InorderNodes(tree);
        if Ordered(Inorder(tree)) {
          OrderedBounds(Inorder(tree), n);
        }
      }
    }

    /** Removes the interval of a node. */
    method Erase(n: IntNode<V>)
      requires Built() && n in Nodes(tree)
      modifies this, root, Nodes(tree)
      ensures Built() && (old(Valid()) ==> Valid())
      ensures Inorder(tree) == Remove(old(Inorder(tree)), n) && Nodes(tree) == old(Nodes(tree)) - {n}
    {
      ghost var nodes, w := Nodes(tree), tree;
      tree := RbUnlink.Erase(n, root, nodes, w);
      if Ordered(Inorder(w)) {
        RemoveOrdered(Inorder(w), n);
      }
      FrameShape(Memory(root, nodes), Memory(root, Nodes(tree)), tree, root.node, null);
    }

    /**
      Goes down to the first point of a range. In an ordered tree it finds what a scan for all of [low, high) would.
     */
    method SearchRange(low: nat, high: nat) returns (r: RbNode?<Interval<V>>)
      requires Built()
      ensures Built() && r == var x := Search(tree, low); if x == null || x.item.high < high then null else x
      ensures Ordered(Inorder(tree)) ==> r == ScanRange(Inorder(tree), low, high)
    {
      if Ordered(Inorder(tree)) {
        ScanRangeIsScan(Inorder(tree), low, high);
      }
      r := SearchSingle(low);
      if r == null {
        return null;
      }
      if r.item.high < high {
        return null;
      }
    }
  }

  lemma Enlarged<V>(m: Mem<Interval<V>>, m': Mem<Interval<V>>, c: Ctx<Interval<V>>, parent: RbNode?<Interval<V>>)
    requires Focus(m, c, Leaf, null, parent) && m'.root == m.root
    requires forall x :: x in m.cells ==> x in m'.cells && m'.cells[x] == m.cells[x]
    ensures Focus(m', c, Leaf, null, parent)
  {
    FrameCtx(m, m', c, null, parent);
  }

  lemma {:induction false} RemoveOrdered<V>(s: seq<IntNode<V>>, n: IntNode<V>)
    requires Ordered(s)
    ensures Ordered(Remove(s, n))
    ensures forall x :: x in Remove(s, n) ==> x in s
    ensures forall x :: x in s && x != n ==> x in Remove(s, n)
  {
    if s != [] {
      RemoveOrdered(s[1..], n);
      assert s == [s[0]] + s[1..];
    }
  }
}
