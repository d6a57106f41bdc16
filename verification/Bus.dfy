/**
  The registries behind port and memory-mapped I/O: which device answers at an address.
 */
module Bus {
  import opened RbTree
  import opened IntervalTree
  import opened Numbers
  import opened Sequences
  import RbWalk

  /** What is registered, as a set of intervals. */
  ghost function Items<V>(s: set<IntNode<V>>): set<Interval<V>>
  {
    set n | n in s :: n.item
  }

  lemma ItemsAdd<V>(s: set<IntNode<V>>, n: IntNode<V>)
    ensures Items(s + {n}) == Items(s) + {n.item}
  {
  }

  ghost predicate Disjoint<V(!new)>(s: set<Interval<V>>)
  {
    forall x, y :: x in s && y in s && x != y ==> !Overlaps(x, y)
  }

  /** The one interval of a disjoint set that holds an address, if any. */
  ghost predicate Answers<V(!new)>(s: set<Interval<V>>, address: nat, r: RbNode?<Interval<V>>)
  {
    if r == null then forall x :: x in s ==> !Contains(x, address)
    else r.item in s && Contains(r.item, address) && forall x :: x in s && Contains(x, address) ==> x == r.item
  }

  lemma TreeAnswers<V(!new)>(t: Tree<Interval<V>>, address: nat)
    requires Ordered(Inorder(t))
    ensures Answers(Items(Nodes(t)), address, Scan(Inorder(t), address))
  {
    var s := Inorder(t);
    ScanFinds(s, address);
    InorderNodes(t);
    forall n | n in Nodes(t) && Contains(n.item, address) ensures Scan(s, address) == n {
      ScanUnique(s, address, n);
    }
  }

  lemma TreeDisjoint<V(!new)>(t: Tree<Interval<V>>)
    requires Ordered(Inorder(t))
    ensures Disjoint(Items(Nodes(t)))
  {
    InorderNodes(t);
    forall m, n | m in Inorder(t) && n in Inorder(t) && m != n ensures !Overlaps(m.item, n.item) {
      OrderedPair(Inorder(t), m, n);
    }
  }

  lemma {:induction false} OrderedPair<V>(s: seq<IntNode<V>>, m: IntNode<V>, n: IntNode<V>)
    requires Ordered(s) && m in s && n in s && m != n
    ensures !Overlaps(m.item, n.item)
  {
    assert s == [s[0]] + s[1..];
    if m != s[0] && n != s[0] {
      OrderedPair(s[1..], m, n);
    }
  }

  const U64: nat := 0x1_0000_0000_0000_0000

  /** The sum of two 64-bit numbers. */
  function Sum64(a: nat, b: nat): (r: nat)
    ensures r < U64
    ensures a < U64 && b < U64 ==> r == if a + b < U64 then a + b else a + b - U64
  {
    (a + b) % U64
  }

  const IOPORT_START: nat := 0x6200
  const IOPORT_SIZE: nat := 0x400
  const IOPORT_EMPTY: nat := 0xffff

  /** The port handed out for the `index`-th request of a free one; 16-bit arithmetic. */
  function FreePort(index: nat): (port: nat)
    ensures port < U16
  {
    (IOPORT_START + index * IOPORT_SIZE) % U16
  }

  /**
    The first 64 ports handed out are all different, and then they come round again. They stay clear of the mark for no
    port, and exactly the last 24 of a round are below where the range of free ports begins.
   */
  lemma FreePortExact(i: nat, j: nat)
    ensures FreePort(i) == FreePort(j) <==> i % 64 == j % 64
    ensures FreePort(0) == 0x6200 && FreePort(1) == 0x6600
    ensures FreePort(i) < 0x6200 <==> 40 <= i % 64
    ensures FreePort(i) != 0xffff
  {
    FreePortRound(i);
    FreePortRound(j);
  }

  lemma FreePortRound(i: nat)
    ensures FreePort(i) == (if i % 64 < 40 then IOPORT_START + i % 64 * IOPORT_SIZE else i % 64 * IOPORT_SIZE - 0x9e00)
  {
  }

  /** What answered at the first port of a new registration no longer does. */
  ghost function Evicted<V(!new)>(s: set<Interval<V>>, address: nat): set<Interval<V>>
  {
    set x | x in s && !Contains(x, address)
  }

  ghost predicate HasRoom<V(!new)>(s: set<Interval<V>>, i: Interval<V>)
  {
    forall x :: x in s ==> !Overlaps(x, i)
  }

  /** The set after registering `i`: eviction first, then the new interval if it fits. */
  ghost function Registered<V(!new)>(s: set<Interval<V>>, i: Interval<V>): set<Interval<V>>
  {
    var rest := Evicted(s, i.low);
    if HasRoom(rest, i) then rest + {i} else rest
  }

  datatype Change<V> = Register(i: Interval<V>) | Unregister(address: nat)

  ghost function After<V(!new)>(s: set<Interval<V>>, changes: seq<Change<V>>): set<Interval<V>>
  {
    if changes == [] then s
    else
      var t := After(s, changes[..|changes| - 1]);
      match changes[|changes| - 1]
      case Register(i) => Registered(t, i)
      case Unregister(address) => Evicted(t, address)
  }

  /** After any sequence of changes at most one registration answers at an address. */
  lemma {:induction false} RunDisjoint<V(!new)>(s: set<Interval<V>>, changes: seq<Change<V>>)
    requires Disjoint(s)
    ensures Disjoint(After(s, changes))
    ensures forall x, y, a: nat ::
              x in After(s, changes) && y in After(s, changes) && Contains(x, a) && Contains(y, a) ==> x == y
  {
    if changes != [] {
      RunDisjoint(s, changes[..|changes| - 1]);
    }
    forall x, y, a: nat | x in After(s, changes) && y in After(s, changes) && Contains(x, a) && Contains(y, a)
      ensures x == y
    {
      assert Overlaps(x, y);
    }
  }

  /** Taking out the node that answers takes out all that answers. */
  lemma EvictNode<V(!new)>(t: Tree<Interval<V>>, address: nat)
    requires Ordered(Inorder(t))
    ensures
      var r := Scan(Inorder(t), address);
      if r == null then Evicted(Items(Nodes(t)), address) == Items(Nodes(t))
      else r in Nodes(t) && Evicted(Items(Nodes(t)), address) == Items(Nodes(t) - {r})
  {
    var r, s := Scan(Inorder(t), address), Items(Nodes(t));
    TreeAnswers(t, address);
    ScanFinds(Inorder(t), address);
    InorderNodes(t);
    if r != null {
      forall n | n in Nodes(t) - {r} ensures !Contains(n.item, address) {
        OrderedPair(Inorder(t), n, r);
        if Contains(n.item, address) {
          assert Overlaps(n.item, r.item);
        }
      }
    }
  }

  lemma FreeIsRoom<V(!new)>(t: Tree<Interval<V>>, i: Interval<V>)
    ensures Free(Inorder(t), i) <==> HasRoom(Items(Nodes(t)), i)
  {
    InorderNodes(t);
    if HasRoom(Items(Nodes(t)), i) {
      forall n | n in Inorder(t) ensures !Overlaps(n.item, i) {
        assert n.item in Items(Nodes(t));
      }
    }
  }

  /** Takes out what a search for an address finds, if anything. */
  method TakeOut<V(!new)>(tree: IntTree<V>, address: nat) returns (found: bool)
    requires tree.Built()
    modifies tree, tree.root, Nodes(tree.tree)
    ensures tree.Built() && Nodes(tree.tree) <= old(Nodes(tree.tree))
    ensures found <==> Search(old(tree.tree), address) != null
    ensures !found ==> tree.tree == old(tree.tree)
    ensures found ==>
      var node: IntNode<V> := Search(old(tree.tree), address);
      Inorder(tree.tree) == Remove(old(Inorder(tree.tree)), node)
    ensures old(tree.Valid()) ==> tree.Valid()
    ensures old(tree.Valid()) ==> Items(Nodes(tree.tree)) == Evicted(old(Items(Nodes(tree.tree))), address)
    ensures old(tree.Valid()) ==> (found <==> Items(Nodes(tree.tree)) != old(Items(Nodes(tree.tree))))
  {
    if Ordered(Inorder(tree.tree)) {
      EvictNode(tree.tree, address);
      TreeAnswers(tree.tree, address);
    }
    SearchFinds(tree.tree, address);
    var node := tree.SearchSingle(address);
    found := node != null;
    if found {
      tree.Erase(node);
    }
  }

  /** Adds an interval where the way down for it ends. Among intervals in order it is refused exactly on an overlap. */
  method PutIn<V(!new)>(tree: IntTree<V>, i: Interval<V>) returns (ok: bool, ghost node: IntNode<V>)
    requires tree.Built()
    modifies tree, tree.root, Nodes(tree.tree)
    ensures tree.Built() && (forall n :: n in Nodes(tree.tree) ==> n in old(Nodes(tree.tree)) || fresh(n))
    ensures node.item == i && (ok <==> !Blocked(old(tree.tree), i))
    ensures ok ==> Inorder(tree.tree) == Put(old(tree.tree), node)
    ensures ok ==> Items(Nodes(tree.tree)) == old(Items(Nodes(tree.tree))) + {i}
    ensures !ok ==> tree.tree == old(tree.tree)
    ensures old(tree.Valid()) ==> (ok <==> HasRoom(old(Items(Nodes(tree.tree))), i))
    ensures old(tree.Valid()) ==> (tree.Valid() <==> !ok || i.low <= i.high)
  {
    FreeIsRoom(tree.tree, i);
    ghost var m, nodes := Memory(tree.root, Nodes(tree.tree)), Nodes(tree.tree);
    var n := new RbNode(i);
    node := n;
    assert Memory(tree.root, Nodes(tree.tree)) == m;
    ItemsAdd(nodes, n);
    ok := tree.Insert(n);
  }

  /** Where `count` ports from `first` on end: a sum of C integers, converted to 64 bits without a sign. */
  function PortEnd(first: nat, count: int): (end: nat)
    requires first < U16 && -0x8000_0000 <= count
    ensures end < first <==> count < 0 <= first + count
  {
    if first + count < 0 then U64 + first + count else first + count
  }

  /** The port registry. */
  class IoPorts<V(!new)> {
    const ports: IntTree<V>
    var freeIndex: nat

    /** The ports are in a red-black tree. */
    ghost predicate Built()
      reads this, ports, ports.root, Nodes(ports.tree)
    {
      ports.Built() && freeIndex < U16
    }

    /** They are in order, too. */
    ghost predicate Valid()
      reads this, ports, ports.root, Nodes(ports.tree)
    {
      ports.Valid() && freeIndex < U16
    }

    /** The registered intervals. */
    ghost function Contents(): set<Interval<V>>
      reads ports
    {
      Items(Nodes(ports.tree))
    }

    constructor ()
      ensures Valid() && Contents() == {} && fresh(ports) && fresh(ports.root) && Nodes(ports.tree) == {} &&
              freeIndex == 0
    {
      ports := new IntTree<V>();
      freeIndex := 0;
      new;
      InorderNodes(ports.tree);
    }

    /** The entry that answers at a port. */
    method Lookup(port: nat) returns (r: RbNode?<Interval<V>>)
      requires Built()
      ensures r == Search(ports.tree, port)
      ensures Valid() ==> Answers(Contents(), port, r)
    {
      r := ports.SearchSingle(port);
      if Ordered(Inorder(ports.tree)) {
        TreeAnswers(ports.tree, port);
      }
    }

    method FindFreePort() returns (port: nat)
      requires Built()
      modifies this
      ensures Built() && (old(Valid()) ==> Valid())
      ensures port == FreePort(old(freeIndex)) && freeIndex == (old(freeIndex) + 1) % U16
    {
      port := FreePort(freeIndex);
      freeIndex := (freeIndex + 1) % U16;
    }

    /** Puts an interval in place of what answers at its first port; `mid` is the tree in between. */
    method Replace(i: Interval<V>) returns (ok: bool, ghost mid: Tree<Interval<V>>, ghost node: IntNode<V>)
      requires Built()
      modifies ports, ports.root, Nodes(ports.tree)
      ensures Built() && (forall n :: n in Nodes(ports.tree) ==> n in old(Nodes(ports.tree)) || fresh(n))
      ensures WithoutFound(old(ports.tree), i.low, mid) && node.item == i && (ok <==> !Blocked(mid, i))
      ensures if ok then Inorder(ports.tree) == Put(mid, node) else ports.tree == mid
      ensures old(Valid()) ==> Contents() == Registered(old(Contents()), i)
      ensures old(Valid()) ==> (ok <==> HasRoom(Evicted(old(Contents()), i.low), i))
      ensures old(Valid()) ==> (Valid() <==> !ok || i.low <= i.high)
    {
      var found := TakeOut(ports, i.low);
      mid := ports.tree;
      ok, node := PutIn(ports, i);
    }

    /**
      Registers `count` ports; even a registration that fails evicts what answered at its first port. Ports in order
      stay in order exactly when none is added whose range a negative count ends below its first port.
     */
    method Register(port: nat, count: int, value: V)
      returns (r: int, ghost mid: Tree<Interval<V>>, ghost node: IntNode<V>)
      requires Built() && port < U16 && -0x8000_0000 <= count < 0x7fff_0000
      modifies this, ports, ports.root, Nodes(ports.tree)
      ensures Built() && (forall n :: n in Nodes(ports.tree) ==> n in old(Nodes(ports.tree)) || fresh(n))
      ensures
        var first := if port == IOPORT_EMPTY then FreePort(old(freeIndex)) else port;
        var i := Interval(first, PortEnd(first, count), value);
        && freeIndex == (if port == IOPORT_EMPTY then (old(freeIndex) + 1) % U16 else old(freeIndex))
        && WithoutFound(old(ports.tree), first, mid) && node.item == i && r == (if Blocked(mid, i) then -17 else first)
        && (if r >= 0 then Inorder(ports.tree) == Put(mid, node) else ports.tree == mid)
        && (old(Valid()) ==> Contents() == Registered(old(Contents()), i))
        && (old(Valid()) ==> r == if HasRoom(Evicted(old(Contents()), first), i) then first else -17)
        && (old(Valid()) ==> (Valid() <==> r < 0 || !(count < 0 <= first + count)))
    {
      var first := port;
      if port == IOPORT_EMPTY {
        first := FindFreePort();
      }
      var ok;
      ok, mid, node := Replace(Interval(first, PortEnd(first, count), value));
      r := if ok then first else -17;
    }

    /** Removes what answers at a port; an error if nothing does. */
    method Unregister(port: nat) returns (r: int)
      requires Built()
      modifies ports, ports.root, Nodes(ports.tree)
      ensures Built() && WithoutFound(old(ports.tree), port, ports.tree)
      ensures r == if Search(old(ports.tree), port) == null then -2 else 0
      ensures old(Valid()) ==> Valid() && Contents() == Evicted(old(Contents()), port)
      ensures old(Valid()) ==> r == if Contents() == old(Contents()) then -2 else 0
    {
      var found := TakeOut(ports, port);
      r := if found then 0 else -2;
    }

    /** Removes everything, from the first entry on. */
    method UnregisterAll()
      requires Built()
      modifies ports, ports.root, Nodes(ports.tree)
      ensures Valid() && Contents() == {}
    {
      var rb := RbWalk.First(ports.root, Nodes(ports.tree), ports.tree);
      while rb != null
        invariant Built() && Nodes(ports.tree) <= old(Nodes(ports.tree))
        invariant rb == null <==> Inorder(ports.tree) == []
        invariant rb != null ==> rb in Nodes(ports.tree)
        decreases Nodes(ports.tree)
      {
        ports.Erase(rb);
        rb := RbWalk.First(ports.root, Nodes(ports.tree), ports.tree);
      }
      InorderNodes(ports.tree);
    }
  }

  /** The tree after what a search for an address finds is taken out. */
  ghost predicate WithoutFound<V>(t: Tree<Interval<V>>, address: nat, t': Tree<Interval<V>>)
  {
    if Search(t, address) == null then t' == t
    else var node: IntNode<V> := Search(t, address); Inorder(t') == Remove(Inorder(t), node)
  }

  /** The registry of memory-mapped regions. */
  class MmioMap<V(!new)> {
    const regions: IntTree<V>

    ghost predicate Valid()
      reads regions, regions.root, Nodes(regions.tree)
    {
      regions.Valid()
    }

    ghost function Contents(): set<Interval<V>>
      reads regions
    {
      Items(Nodes(regions.tree))
    }

    constructor ()
      ensures Valid() && Contents() == {} && fresh(regions) && fresh(regions.root) && Nodes(regions.tree) == {}
    {
      regions := new IntTree<V>();
      new;
      InorderNodes(regions.tree);
    }

    /**
      Registers a region. Among regions in order it is refused exactly when it overlaps one. The upper bound of a region
      that runs past the end of the address space wraps: added to regions in order it is the one that ends the order.
     */
    method Register(address: nat, length: nat, value: V) returns (r: int, ghost node: IntNode<V>)
      requires regions.Built() && address < U64 && length < U64
      modifies regions, regions.root, Nodes(regions.tree)
      ensures regions.Built() && (forall n :: n in Nodes(regions.tree) ==> n in old(Nodes(regions.tree)) || fresh(n))
      ensures node.item == Interval(address, Sum64(address, length), value)
      ensures r == (if Blocked(old(regions.tree), node.item) then -17 else 0)
      ensures r == 0 ==> Inorder(regions.tree) == Put(old(regions.tree), node)
      ensures r == 0 ==> Contents() == old(Contents()) + {node.item}
      ensures r != 0 ==> regions.tree == old(regions.tree)
      ensures old(Valid()) ==> (r == 0 <==> HasRoom(old(Contents()), node.item))
      ensures old(Valid()) ==> (Valid() <==> r != 0 || address + length < U64)
    {
      var ok;
      ok, node := PutIn(regions, Interval(address, Sum64(address, length), value));
      r := if ok then 0 else -17;
    }

    /** Removes the region that holds an address. */
    method Deregister(address: nat) returns (found: bool)
      requires regions.Built()
      modifies regions, regions.root, Nodes(regions.tree)
      ensures regions.Built() && WithoutFound(old(regions.tree), address, regions.tree)
      ensures found <==> Search(old(regions.tree), address) != null
      ensures old(Valid()) ==> Valid() && Contents() == Evicted(old(Contents()), address)
      ensures old(Valid()) ==> (found <==> Contents() != old(Contents()))
    {
      found := TakeOut(regions, address);
    }

    /** The region that holds a whole access; among regions in order, what a scan of all of them would find. */
    method Lookup(address: nat, length: nat) returns (r: RbNode?<Interval<V>>)
      requires regions.Built() && address < U64
      ensures r == var x := Search(regions.tree, address);
                   if x == null || x.item.high < Sum64(address, length) then null else x
      ensures Valid() ==> r == ScanRange(Inorder(regions.tree), address, Sum64(address, length))
      ensures Valid() && r != null ==> r.item in Contents() && Contains(r.item, address)
      ensures Valid() && r != null && address + length < U64 ==> address + length <= r.item.high
      ensures Valid() && r == null && address + length < U64 ==>
              forall i :: i in Contents() ==> !(i.low <= address < i.high && address + length <= i.high)
    {
      if Ordered(Inorder(regions.tree)) {
        ScanRangeIsScan(Inorder(regions.tree), address, Sum64(address, length));
        TreeAnswers(regions.tree, address);
      }
      r := regions.SearchRange(address, Sum64(address, length));
    }
  }

  // ---------------------------------------------------------------- regions past the end of the address space

  /**
    A region holds all of its addresses exactly when it does not run past the end of the address space, and else none.
   */
  lemma WrappedRegionIsEmpty(address: nat, length: nat)
    requires address < U64 && 0 < length < U64
    ensures
      var i := Interval(address, Sum64(address, length), ());
      && ((forall p: nat :: address <= p < address + length ==> Contains(i, p)) <==> address + length < U64)
      && (address + length >= U64 ==> forall p: nat :: !Contains(i, p))
  {
    var i := Interval(address, Sum64(address, length), ());
    if address + length >= U64 {
      assert i.high <= i.low;
      assert !Contains(i, address);
    }
  }

  lemma TwoNodes<V>(t: Tree<Interval<V>>, a: IntNode<V>, b: IntNode<V>)
    requires Inorder(t) == [a, b]
    ensures t.Node?
    ensures (t.node == b && Inorder(t.left) == [a] && t.right == Leaf) ||
            (t.node == a && t.left == Leaf && Inorder(t.right) == [b])
  {
    var s := Inorder(t.left) + [t.node] + Inorder(t.right);
    assert s[|Inorder(t.left)|] == t.node;
    if t.left == Leaf {
      assert s[1..] == Inorder(t.right) && [a, b][1..] == [b];
    } else {
      assert s[..|Inorder(t.left)|] == Inorder(t.left) && [a, b][..1] == [a];
    }
  }

  /** A tree without black nodes has at most one node. */
  lemma NoBlackNode<T>(t: Tree<T>)
    requires Balanced(t) && BlackHeight(t) == 0
    ensures t == Leaf || (t.left == Leaf && t.right == Leaf)
  {
  }

  /** Three nodes of a red-black tree have the middle one at the root. */
  lemma ThreeNodes<V>(t: Tree<Interval<V>>, a: IntNode<V>, b: IntNode<V>, c: IntNode<V>)
    requires RedBlack(t) && Inorder(t) == [a, b, c]
    ensures t.Node? && t.node == b && Inorder(t.left) == [a] && Inorder(t.right) == [c]
  {
    var l, r := Inorder(t.left), Inorder(t.right);
    var s := l + [t.node] + r;
    assert s == [a, b, c] && s[|l|] == t.node && s[..|l|] == l && s[|l| + 1..] == r && |l| + |r| == 2;
    assert [a, b, c][..1] == [a] && [a, b, c][2..] == [c];
    if t.left == Leaf {
      NoBlackNode(t.right);
    } else if t.right == Leaf {
      NoBlackNode(t.left);
    }
  }

  /**
    A region that wraps hides others: in any red-black tree that has it between two others, it is at the root, and an
    address of the region on its right that lies below its own first address is not found.
   */
  lemma WrappedRegionHides<V>(t: Tree<Interval<V>>, e: IntNode<V>, w: IntNode<V>, y: IntNode<V>, p: nat)
    requires RedBlack(t) && Inorder(t) == [e, w, y] && w.item.high < w.item.low
    requires p < w.item.low && Contains(y.item, p) && !Contains(e.item, p)
    ensures Search(t, p) == null && Scan(Inorder(t), p) == y
  {
    ThreeNodes(t, e, w, y);
    SearchFinds(t.left, p);
    assert [e, w, y][1..] == [w, y] && [w, y][1..] == [y];
    assert Scan([y], p) == y && Scan([w, y], p) == y;
  }

  /** Where the three regions go. */
  lemma PutSecond<V>(t: Tree<Interval<V>>, y: IntNode<V>, w: IntNode<V>)
    requires Inorder(t) == [y] && w.item.high <= y.item.low
    ensures !Blocked(t, w.item) && Put(t, w) == [w, y]
  {
    assert Inorder(t)[|Inorder(t.left)|] == t.node;
    assert t.left == Leaf && t.right == Leaf;
  }

  lemma PutThird<V>(t: Tree<Interval<V>>, w: IntNode<V>, y: IntNode<V>, e: IntNode<V>)
    requires Inorder(t) == [w, y] && e.item.high <= y.item.low && e.item.high <= w.item.low
    ensures !Blocked(t, e.item) && Put(t, e) == [e, w, y]
  {
    TwoNodes(t, w, y);
    if t.node == y && t.right == Leaf {
      PutSecond(t.left, w, e);
    } else {
      assert [e] + [w] + [y] == [e, w, y];
    }
  }

  /** Where a region goes that is registered again, beside a wrapped one that hides it. */
  lemma PutAgain<V>(t: Tree<Interval<V>>, e: IntNode<V>, w: IntNode<V>, y: IntNode<V>, n: IntNode<V>)
    requires RedBlack(t) && Inorder(t) == [e, w, y] && n.item.high <= w.item.low && e.item.high <= n.item.low
    requires e.item.low < n.item.high
    ensures !Blocked(t, n.item) && Put(t, n) == [e, n, w, y]
  {
    ThreeNodes(t, e, w, y);
    PutAfter(t.left, e, n);
    assert [e, n] + [w] + [y] == [e, n, w, y];
  }

  lemma PutAfter<V>(t: Tree<Interval<V>>, e: IntNode<V>, n: IntNode<V>)
    requires Inorder(t) == [e] && e.item.high <= n.item.low && e.item.low < n.item.high
    ensures !Blocked(t, n.item) && Put(t, n) == [e, n]
  {
    assert Inorder(t)[|Inorder(t.left)|] == t.node;
    assert t.left == Leaf && t.right == Leaf;
  }

  /** What is in the order of a tree is registered. */
  lemma OrderRegistered<V>(t: Tree<Interval<V>>, s: seq<IntNode<V>>, i: nat)
    requires Inorder(t) == s && i < |s|
    ensures s[i].item in Items(Nodes(t))
  {
    InorderNodes(t);
    assert s[i] in Inorder(t);
  }

  /** Registers a region that the way down is free for. */
  method Place(m: MmioMap<nat>, address: nat, length: nat, value: nat) returns (r: int, ghost node: IntNode<nat>)
    requires m.regions.Built() && address < U64 && length < U64
    modifies m.regions, m.regions.root, Nodes(m.regions.tree)
    ensures m.regions.Built()
    ensures forall n :: n in Nodes(m.regions.tree) ==> n in old(Nodes(m.regions.tree)) || fresh(n)
    ensures node.item == Interval(address, Sum64(address, length), value)
    ensures !Blocked(old(m.regions.tree), node.item) ==>
              r == 0 && Inorder(m.regions.tree) == Put(old(m.regions.tree), node)
  {
    r, node := m.Register(address, length, value);
  }

  /** Registers one address, then a region that wraps to it, then an empty region there. */
  method Surround(address: nat, length: nat)
    returns (m: MmioMap<nat>, answers: seq<int>, ghost e: IntNode<nat>, ghost w: IntNode<nat>, ghost y: IntNode<nat>)
    requires address < U64 && length < U64 && address + length >= U64
    ensures answers == [0, 0, 0] && fresh(m.regions) && fresh(m.regions.root)
    ensures forall n :: n in Nodes(m.regions.tree) ==> fresh(n)
    ensures m.regions.Built() && Inorder(m.regions.tree) == [e, w, y]
    ensures var h := address + length - U64;
            e.item == Interval(h, h, 2) && w.item == Interval(address, h, 1) && y.item == Interval(h, h + 1, 0)
  {
    var h := address + length - U64;
    m := new MmioMap<nat>();
    assert m.regions.tree == Leaf;
    var r0, r1, r2;
    r0, y := Place(m, h, 1, 0);
    ghost var t0 := m.regions.tree;
    r1, w := Place(m, address, length, 1);
    ghost var t1 := m.regions.tree;
    PutSecond(t0, y, w);
    r2, e := Place(m, h, 0, 2);
    PutThird(t1, w, y, e);
    answers := [r0, r1, r2];
  }

  /**
    For every region that wraps there are two that do not, one of a single address and one of none, such that with all
    three registered that address is not found.
   */
  method HideRegion(address: nat, length: nat)
    returns (m: MmioMap<nat>, answers: seq<int>, found: RbNode?<Interval<nat>>)
    requires address < U64 && length < U64 && address + length >= U64
    ensures answers == [0, 0, 0] && found == null
    ensures var h := address + length - U64; h < address && Interval(h, h + 1, 0) in m.Contents()
  {
    ghost var e, w, y;
    m, answers, e, w, y := Surround(address, length);
    WrappedRegionHides(m.regions.tree, e, w, y, address + length - U64);
    OrderRegistered(m.regions.tree, [e, w, y], 2);
    found := m.Lookup(address + length - U64, 1);
  }

  /** With them registered, the address that is not found can be registered again: two regions then hold it. */
  method RegisterTwice(address: nat, length: nat) returns (m: MmioMap<nat>, answers: seq<int>)
    requires address < U64 && length < U64 && address + length >= U64
    ensures answers == [0, 0, 0, 0]
    ensures
      var h := address + length - U64;
      Interval(h, h + 1, 0) in m.Contents() && Interval(h, h + 1, 3) in m.Contents()
  {
    ghost var e, w, y, n;
    var r;
    m, answers, e, w, y := Surround(address, length);
    ghost var t := m.regions.tree;
    r, n := Place(m, address + length - U64, 1, 3);
    PutAgain(t, e, w, y, n);
    assert Inorder(m.regions.tree) == [e, n, w, y];
    OrderRegistered(m.regions.tree, [e, n, w, y], 3);
    OrderRegistered(m.regions.tree, [e, n, w, y], 1);
    assert y.item in m.Contents() && n.item in m.Contents();
    answers := [answers[0], answers[1], answers[2], r];
  }

  // ---------------------------------------------------------------- ports out of order

  /** Registers ports where nothing is found at the first and the way down is free. */
  method PlacePort(m: IoPorts<nat>, port: nat, count: int, value: nat) returns (r: int, ghost node: IntNode<nat>)
    requires m.Built() && port < IOPORT_EMPTY && -0x8000_0000 <= count < 0x7fff_0000
    requires Search(m.ports.tree, port) == null
    modifies m, m.ports, m.ports.root, Nodes(m.ports.tree)
    ensures m.Built() && (forall n :: n in Nodes(m.ports.tree) ==> n in old(Nodes(m.ports.tree)) || fresh(n))
    ensures node.item == Interval(port, PortEnd(port, count), value)
    ensures !Blocked(old(m.ports.tree), node.item) ==>
              r == port && Inorder(m.ports.tree) == Put(old(m.ports.tree), node)
  {
    ghost var mid;
    r, mid, node := m.Register(port, count, value);
  }

  lemma NotFound<V>(t: Tree<Interval<V>>, s: seq<IntNode<V>>, p: nat)
    requires Inorder(t) == s && forall i :: 0 <= i < |s| ==> !Contains(s[i].item, p)
    ensures Search(t, p) == null
  {
    SearchFinds(t, p);
  }

  /** Registers one port, then a range with a negative count that ends there, then an empty range before both. */
  method SurroundPort(port: nat, count: int)
    returns (m: IoPorts<nat>, answers: seq<int>, ghost e: IntNode<nat>, ghost w: IntNode<nat>, ghost y: IntNode<nat>)
    requires port < IOPORT_EMPTY && count < 0 < port + count
    ensures answers == [port + count, port, port + count - 1] && m.Built() && Inorder(m.ports.tree) == [e, w, y]
    ensures var h := port + count;
            e.item == Interval(h - 1, h - 1, 2) && w.item == Interval(port, h, 1) && y.item == Interval(h, h + 1, 0)
  {
    var h := port + count;
    m := new IoPorts<nat>();
    var r0, r1, r2;
    r0, y := PlacePort(m, h, 1, 0);
    ghost var t0 := m.ports.tree;
    NotFound(t0, [y], port);
    r1, w := PlacePort(m, port, count, 1);
    PutSecond(t0, y, w);
    ghost var t1 := m.ports.tree;
    NotFound(t1, [w, y], h - 1);
    r2, e := PlacePort(m, h - 1, 0, 2);
    PutThird(t1, w, y, e);
    answers := [r0, r1, r2];
  }

  /** A negative count hides ports in the same way: with those registered, that port is not found. */
  method HidePort(port: nat, count: int) returns (m: IoPorts<nat>, answers: seq<int>, found: RbNode?<Interval<nat>>)
    requires port < IOPORT_EMPTY && count < 0 < port + count
    ensures answers == [port + count, port, port + count - 1] && found == null
    ensures var h := port + count; Interval(h, h + 1, 0) in m.Contents()
  {
    ghost var e, w, y;
    m, answers, e, w, y := SurroundPort(port, count);
    WrappedRegionHides(m.ports.tree, e, w, y, port + count);
    OrderRegistered(m.ports.tree, [e, w, y], 2);
    found := m.Lookup(port + count);
  }
}
