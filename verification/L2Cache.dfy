/**
  The cache of second-level tables of a QCOW image: a red-black tree by file offset, and beside it the list
  of the same tables from the least to the most recently used.
 */
module L2Cache {
  import opened RbTree
  import opened IntervalTree
  import opened Sequences

  const MAX_CACHE_NODES := 32

  /** An image file, byte by byte. */
  type File = nat -> nat

  type Table = seq<nat>

  /** A table is kept at its file offset, as an interval of length one. */
  type TableNode = IntNode<Table>

  /** The big-endian number in `n` bytes of the file. */
  function BigEndian(file: File, at: nat, n: nat): nat
  {
    if n == 0 then 0 else BigEndian(file, at, n - 1) * 256 + file(at + n - 1)
  }

  /** The first byte is the most significant. */
  lemma {:induction false} BigEndianFirst(file: File, at: nat, n: nat)
    ensures BigEndian(file, at, n + 1) == file(at) * Weight(n) + BigEndian(file, at + 1, n)
  {
    if n != 0 {
      BigEndianFirst(file, at, n - 1);
      ShiftByte(file(at), Weight(n - 1), BigEndian(file, at + 1, n - 1));
    }
  }

  lemma ShiftByte(x: nat, w: nat, y: nat)
    ensures (x * w + y) * 256 == x * (256 * w) + y * 256
  {
  }

  /** What a byte counts for that `n` others follow. */
  function Weight(n: nat): nat { if n == 0 then 1 else 256 * Weight(n - 1) }

  /** The table of 64-bit entries at an offset of the file. */
  function TableAt(file: File, offset: nat, entries: nat): Table
  {
    seq(entries, i requires 0 <= i < entries => BigEndian(file, offset + 8 * i, 8))
  }

  // ---------------------------------------------------------------- least recently used

  /** What one access does to the cached offsets: the newest comes last, a full cache loses its first. */
  function Touch(s: seq<nat>, o: nat): seq<nat>
  {
    if o in s then Remove(s, o) + [o]
    else (if |s| == MAX_CACHE_NODES then s[1..] else s) + [o]
  }

  /** The cached offsets after a run of accesses on an empty cache. */
  function Touched(run: seq<nat>): seq<nat>
  {
    if run == [] then [] else Touch(Touched(run[..|run| - 1]), run[|run| - 1])
  }

  /** Every offset of a run once, in the order of its last access. */
  function ByLastUse(run: seq<nat>): seq<nat>
  {
    if run == [] then []
    else
      var o := run[|run| - 1];
      Remove(ByLastUse(run[..|run| - 1]), o) + [o]
  }

  /** When an offset was last accessed, counted from one; zero if never. */
  function LastUse(run: seq<nat>, o: nat): nat
  {
    if run == [] then 0 else if run[|run| - 1] == o then |run| else LastUse(run[..|run| - 1], o)
  }

  /** Later in the sequence means used later. */
  ghost predicate Sorted(run: seq<nat>, s: seq<nat>)
  {
    s == [] || ((forall x :: x in s[1..] ==> LastUse(run, s[0]) < LastUse(run, x)) && Sorted(run, s[1..]))
  }

  lemma {:induction false} LastUseBounds(run: seq<nat>, o: nat)
    ensures LastUse(run, o) <= |run| && (0 < LastUse(run, o) <==> o in run)
  {
    if run != [] {
      LastUseBounds(run[..|run| - 1], o);
      assert run == run[..|run| - 1] + [run[|run| - 1]];
    }
  }

  /** Taking an offset out and putting it last keeps the order by last use, one access later. */
  lemma {:induction false} SortedAfter(run: seq<nat>, o: nat, s: seq<nat>)
    requires Sorted(run, s) && Distinct(s)
    ensures Sorted(run + [o], Remove(s, o) + [o])
  {
    var run', r := run + [o], Remove(s, o) + [o];
    assert run'[..|run'| - 1] == run;
    if s != [] {
      SortedAfter(run, o, s[1..]);
      if s[0] == o {
        RemoveMembers(s[1..], o);
      } else {
        assert r[1..] == Remove(s[1..], o) + [o];
        RemoveMembers(s[1..], o);
        LastUseBounds(run, s[0]);
        assert forall x :: x in r[1..] ==> x == o || x in s[1..];
      }
    }
  }

  /** The reference order means what it says. */
  lemma {:induction false} ByLastUseOrder(run: seq<nat>)
    ensures Sorted(run, ByLastUse(run)) && Distinct(ByLastUse(run))
    ensures forall o :: o in ByLastUse(run) <==> o in run
  {
    if run != [] {
      var before, o := run[..|run| - 1], run[|run| - 1];
      assert run == before + [o];
      ByLastUseOrder(before);
      var s := ByLastUse(before);
      SortedAfter(before, o, s);
      RemoveMembers(s, o);
      RemoveDistinct(s, o);
      DistinctAppend(Remove(s, o), o);
      assert ByLastUse(run) == Remove(s, o) + [o];
    }
  }

  /** The last `n` of a sequence, or all of it. */
  function Newest(s: seq<nat>, n: nat): seq<nat>
  {
    if |s| <= n then s else s[|s| - n..]
  }

  lemma {:induction false} RemoveSplit(a: seq<nat>, b: seq<nat>, x: nat)
    ensures x !in a ==> Remove(a + b, x) == a + Remove(b, x)
    ensures x in a ==> Remove(a + b, x) == Remove(a, x) + b
  {
    if a == [] {
      assert a + b == b;
    } else {
      RemoveSplit(a[1..], b, x);
      assert (a + b)[0] == a[0] && (a + b)[1..] == a[1..] + b;
      if a[0] != x {
        assert x in a ==> [a[0]] + (Remove(a[1..], x) + b) == Remove(a, x) + b;
        assert x !in a ==> [a[0]] + (a[1..] + Remove(b, x)) == a + Remove(b, x);
      }
    }
  }

  /** One access on the newest of all offsets used gives the newest again. */
  lemma TouchNewest(s: seq<nat>, o: nat)
    requires Distinct(s)
    ensures Touch(Newest(s, MAX_CACHE_NODES), o) == Newest(Remove(s, o) + [o], MAX_CACHE_NODES)
  {
    var k := if |s| <= MAX_CACHE_NODES then 0 else |s| - MAX_CACHE_NODES;
    var a, b := s[..k], s[k..];
    assert s == a + b && b == Newest(s, MAX_CACHE_NODES);
    RemoveSplit(a, b, o);
    RemoveMembers(b, o);
    DistinctSplit(a, b);
    if o in b {
      Associate(a, Remove(b, o), [o]);
      NewestOf(a, Remove(b, o) + [o], MAX_CACHE_NODES);
    } else {
      NewestShifts(if o in a then Remove(a, o) else a, b, o);
    }
  }

  lemma NewestOf(a: seq<nat>, b: seq<nat>, n: nat)
    requires |b| == n || (a == [] && |b| <= n)
    ensures Newest(a + b, n) == b
  {
  }

  /** One more at the end pushes the first of a full list out. */
  lemma NewestShifts(a: seq<nat>, b: seq<nat>, o: nat)
    requires |b| == MAX_CACHE_NODES || (a == [] && |b| < MAX_CACHE_NODES)
    ensures Newest(a + b + [o], MAX_CACHE_NODES) == (if |b| == MAX_CACHE_NODES then b[1..] else b) + [o]
  {
    if |b| == MAX_CACHE_NODES {
      assert a + b + [o] == (a + [b[0]]) + (b[1..] + [o]);
      NewestOf(a + [b[0]], b[1..] + [o], MAX_CACHE_NODES);
    }
  }

  /** After any run, exactly the 32 offsets used most recently are cached, the oldest first. */
  lemma {:induction false} LeastRecentlyUsed(run: seq<nat>)
    ensures Touched(run) == Newest(ByLastUse(run), 32)
  {
    if run != [] {
      var before := run[..|run| - 1];
      LeastRecentlyUsed(before);
      ByLastUseOrder(before);
      TouchNewest(ByLastUse(before), run[|run| - 1]);
    }
  }

  // ---------------------------------------------------------------- the cache

  function Offsets(s: seq<TableNode>): seq<nat>
  {
    if s == [] then [] else [s[0].item.low] + Offsets(s[1..])
  }

  lemma {:induction false} OffsetOf(s: seq<TableNode>, n: TableNode)
    requires n in s
    ensures n.item.low in Offsets(s)
  {
    if s[0] != n {
      assert s == [s[0]] + s[1..];
      OffsetOf(s[1..], n);
    }
  }

  lemma {:induction false} AtOffset(s: seq<TableNode>, offset: nat) returns (n: TableNode)
    requires offset in Offsets(s)
    ensures n in s && n.item.low == offset
  {
    if s[0].item.low == offset {
      n := s[0];
    } else {
      n := AtOffset(s[1..], offset);
      assert s == [s[0]] + s[1..];
    }
  }

  lemma {:induction false} OffsetsOf(s: seq<TableNode>)
    ensures |Offsets(s)| == |s|
    ensures forall i :: 0 <= i < |s| ==> Offsets(s)[i] == s[i].item.low
  {
    if s != [] {
      OffsetsOf(s[1..]);
    }
  }

  lemma OffsetsAppend(s: seq<TableNode>, n: TableNode)
    ensures Offsets(s + [n]) == Offsets(s) + [n.item.low]
  {
    OffsetsOf(s);
    OffsetsOf(s + [n]);
  }

  lemma {:induction false} OffsetsRemove(s: seq<TableNode>, n: TableNode)
    requires n in s && Distinct(Offsets(s))
    ensures Offsets(Remove(s, n)) == Remove(Offsets(s), n.item.low) && n !in Remove(s, n)
  {
    assert Offsets(s)[1..] == Offsets(s[1..]);
    if s[0] == n {
      if n in s[1..] {
        OffsetOf(s[1..], n);
      }
    } else {
      assert s == [s[0]] + s[1..];
      OffsetOf(s[1..], n);
      OffsetsRemove(s[1..], n);
      assert Remove(s, n)[1..] == Remove(s[1..], n);
    }
  }

  /** A cached table is the table of the file at its offset. */
  ghost predicate Holds(n: TableNode, file: File, entries: nat)
  {
    n.item.high == n.item.low + 1 && n.item.value == TableAt(file, n.item.low, entries)
  }

  /** The tree and the list hold the same tables, no offset twice, and each is what the file says. */
  ghost predicate Coherent(nodes: set<TableNode>, lru: seq<TableNode>, file: File, entries: nat)
    decreases |lru|
  {
    if lru == [] then nodes == {}
    else
      && lru[0] in nodes && Holds(lru[0], file, entries) && lru[0].item.low !in Offsets(lru[1..])
      && Coherent(nodes - {lru[0]}, lru[1..], file, entries)
  }

  /** The same, said of all tables at once. */
  ghost predicate Same(nodes: set<TableNode>, lru: seq<TableNode>, file: File, entries: nat)
  {
    && Distinct(Offsets(lru))
    && (forall n :: n in lru ==> n in nodes)
    && (forall n :: n in nodes ==> n in lru && Holds(n, file, entries))
  }

  lemma {:induction false} CoherentIsSame(nodes: set<TableNode>, lru: seq<TableNode>, file: File, entries: nat)
    ensures Coherent(nodes, lru, file, entries) <==> Same(nodes, lru, file, entries)
    decreases |lru|
  {
    if lru == [] {
      assert Same(nodes, lru, file, entries) ==> nodes == {};
    } else {
      var n, rest := lru[0], lru[1..];
      CoherentIsSame(nodes - {n}, rest, file, entries);
      assert Offsets(lru)[1..] == Offsets(rest) && lru == [n] + rest;
      if n in rest {
        OffsetOf(rest, n);
      }
    }
  }

  /** The nodes of a tree are those of a list, and each covers one offset. */
  ghost predicate Listed(nodes: set<TableNode>, lru: seq<TableNode>)
  {
    && (forall n :: n in lru ==> n in nodes)
    && (forall n :: n in nodes ==> n in lru && n.item.high == n.item.low + 1)
  }

  lemma SameIsListed(nodes: set<TableNode>, lru: seq<TableNode>, file: File, entries: nat)
    requires Same(nodes, lru, file, entries)
    ensures Listed(nodes, lru)
  {
  }

  lemma ScanListed(t: Tree<Interval<Table>>, lru: seq<TableNode>, offset: nat)
    requires Listed(Nodes(t), lru)
    ensures var r := Scan(Inorder(t), offset);
            && (r == null <==> offset !in Offsets(lru))
            && (r != null ==> r in lru && r.item.low == offset)
  {
    ScanFinds(Inorder(t), offset);
    InorderNodes(t);
    if offset in Offsets(lru) {
      var n := AtOffset(lru, offset);
      assert n in Inorder(t) && Contains(n.item, offset);
    }
    var r := Scan(Inorder(t), offset);
    if r != null {
      OffsetOf(lru, r);
    }
  }

  /** Searching the tree finds what the list holds. */
  lemma LookupFinds(t: Tree<Interval<Table>>, lru: seq<TableNode>, file: File, entries: nat, offset: nat)
    requires Coherent(Nodes(t), lru, file, entries)
    ensures var r := Scan(Inorder(t), offset);
            && (r == null <==> offset !in Offsets(lru))
            && (r != null ==> r in lru && r.item.low == offset && Holds(r, file, entries))
  {
    CoherentIsSame(Nodes(t), lru, file, entries);
    SameIsListed(Nodes(t), lru, file, entries);
    ScanListed(t, lru, offset);
  }

  lemma MoveToTail(nodes: set<TableNode>, lru: seq<TableNode>, file: File, entries: nat, n: TableNode)
    requires Coherent(nodes, lru, file, entries) && n in lru
    ensures var lru' := Remove(lru, n) + [n];
            && Coherent(nodes, lru', file, entries) && |lru'| == |lru| && n in lru'
            && Offsets(lru') == Touch(Offsets(lru), n.item.low)
  {
    CoherentIsSame(nodes, lru, file, entries);
    CoherentIsSame(nodes, Remove(lru, n) + [n], file, entries);
    OffsetOf(lru, n);
    OffsetsRemove(lru, n);
    RemoveMembers(lru, n);
    RemoveDistinct(Offsets(lru), n.item.low);
    OffsetsAppend(Remove(lru, n), n);
    DistinctAppend(Remove(Offsets(lru), n.item.low), n.item.low);
  }

  lemma AddTail(nodes: set<TableNode>, lru: seq<TableNode>, file: File, entries: nat, c: TableNode)
    requires Coherent(nodes, lru, file, entries)
    requires Holds(c, file, entries) && c.item.low !in Offsets(lru)
    ensures Coherent(nodes + {c}, lru + [c], file, entries) && Offsets(lru + [c]) == Offsets(lru) + [c.item.low]
  {
    CoherentIsSame(nodes, lru, file, entries);
    CoherentIsSame(nodes + {c}, lru + [c], file, entries);
    OffsetsAppend(lru, c);
    DistinctAppend(Offsets(lru), c.item.low);
  }

  /** What stays of a list when room is made for one more. */
  function Kept(lru: seq<TableNode>): seq<TableNode>
  {
    if |lru| == MAX_CACHE_NODES then lru[1..] else lru
  }

  lemma KeptOffsets(lru: seq<TableNode>, offset: nat)
    requires offset !in Offsets(lru)
    ensures offset !in Offsets(Kept(lru))
  {
    if lru != [] {
      assert Offsets(lru)[1..] == Offsets(lru[1..]);
    }
  }

  lemma TouchNew(lru: seq<TableNode>, offset: nat)
    requires |lru| <= MAX_CACHE_NODES && offset !in Offsets(Kept(lru))
    ensures Offsets(Kept(lru)) + [offset] == Touch(Offsets(lru), offset)
  {
    OffsetsOf(lru);
    if |lru| == MAX_CACHE_NODES {
      assert Offsets(lru)[1..] == Offsets(lru[1..]);
      TouchFull(Offsets(lru), offset);
    }
  }

  lemma TouchFull(s: seq<nat>, offset: nat)
    requires |s| == MAX_CACHE_NODES && offset !in s[1..]
    ensures s[1..] + [offset] == Touch(s, offset)
  {
    if offset == s[0] {
    } else {
      assert s == [s[0]] + s[1..];
    }
  }

  /** A second table with an offset in the list. */
  lemma Doubled(nodes: set<TableNode>, lru: seq<TableNode>, file: File, entries: nat, c: TableNode)
    requires c.item.low in Offsets(lru)
    ensures !Coherent(nodes, lru + [c], file, entries)
  {
    CoherentIsSame(nodes, lru + [c], file, entries);
    OffsetsAppend(lru, c);
    if Distinct(Offsets(lru) + [c.item.low]) {
      DistinctSplit(Offsets(lru), [c.item.low]);
      assert false;
    }
  }

  /** Added to the list, and to the tree if its offset is new, a table keeps the two in step exactly when it is new. */
  lemma AppendExact(nodes: set<TableNode>, lru: seq<TableNode>, file: File, entries: nat, c: TableNode)
    requires Coherent(nodes, lru, file, entries) && Holds(c, file, entries)
    ensures c.item.low !in Offsets(lru) ==> Coherent(nodes + {c}, lru + [c], file, entries)
    ensures c.item.low in Offsets(lru) ==> !Coherent(nodes, lru + [c], file, entries)
  {
    if c.item.low !in Offsets(lru) {
      AddTail(nodes, lru, file, entries, c);
    } else {
      Doubled(nodes, lru, file, entries, c);
    }
  }

  /** The tree takes a table exactly when its offset is not in the list. */
  lemma FreeListed(t: Tree<Interval<Table>>, lru: seq<TableNode>, c: TableNode)
    requires Listed(Nodes(t), lru) && c.item.high == c.item.low + 1
    ensures Free(Inorder(t), c.item) <==> c.item.low !in Offsets(lru)
  {
    InorderNodes(t);
    if c.item.low in Offsets(lru) {
      var n := AtOffset(lru, c.item.low);
      assert n in Inorder(t) && Overlaps(n.item, c.item);
    }
    forall x | x in Inorder(t) && Overlaps(x.item, c.item)
      ensures c.item.low in Offsets(lru)
    {
      OffsetOf(lru, x);
    }
  }

  lemma InsertsNew(t: Tree<Interval<Table>>, lru: seq<TableNode>, file: File, entries: nat, c: TableNode)
    requires Coherent(Nodes(t), lru, file, entries) && Holds(c, file, entries)
    ensures Free(Inorder(t), c.item) <==> c.item.low !in Offsets(lru)
  {
    CoherentIsSame(Nodes(t), lru, file, entries);
    SameIsListed(Nodes(t), lru, file, entries);
    FreeListed(t, lru, c);
  }

  class Cache {
    const file: File
    const entries: nat
    const tables: IntTree<Table>
    var lru: seq<TableNode>
    var nrCached: nat

    ghost predicate Valid()
      reads this, tables, tables.root, Nodes(tables.tree)
    {
      tables.Valid() && nrCached == |lru| <= MAX_CACHE_NODES && Coherent(Nodes(tables.tree), lru, file, entries)
    }

    constructor (file: File, entries: nat)
      ensures Valid() && lru == [] && this.file == file && this.entries == entries
      ensures fresh(tables) && fresh(tables.root) && Nodes(tables.tree) == {}
    {
      this.file, this.entries := file, entries;
      tables := new IntTree<Table>();
      lru, nrCached := [], 0;
      new;
      InorderNodes(tables.tree);
    }

    /** Finds the table at an offset, if it is cached. */
    method Lookup(offset: nat) returns (r: RbNode?<Interval<Table>>)
      requires Valid()
      ensures Valid()
      ensures r == null <==> offset !in Offsets(lru)
      ensures r != null ==> r in lru && r.item.low == offset && Holds(r, file, entries)
    {
      r := tables.SearchSingle(offset);
      LookupFinds(tables.tree, lru, file, entries, offset);
    }

    /** Finds the table at an offset and makes it the most recently used. */
    method Search(offset: nat) returns (r: RbNode?<Interval<Table>>)
      requires Valid()
      modifies this
      ensures Valid()
      ensures r == null <==> offset !in old(Offsets(lru))
      ensures r == null ==> lru == old(lru)
      ensures r != null ==> r in lru && r.item.low == offset && Offsets(lru) == Touch(old(Offsets(lru)), offset)
      ensures r != null ==> Holds(r, file, entries)
    {
      r := Lookup(offset);
      if r == null {
        return;
      }
      var node: TableNode := r;
      MoveToTail(Nodes(tables.tree), lru, file, entries, node);
      lru := Remove(lru, node) + [node];
    }

    /** Puts a table into the tree, unless its offset is there. */
    method Index(c: TableNode)
      requires tables.Valid() && c !in Nodes(tables.tree) && c.item.low <= c.item.high
      modifies tables, tables.root, Nodes(tables.tree), c
      ensures tables.Valid()
      ensures Nodes(tables.tree) == if old(Free(Inorder(tables.tree), c.item)) then old(Nodes(tables.tree)) + {c}
                                    else old(Nodes(tables.tree))
    {
      var ok := tables.Insert(c);
    }

    /** Takes a table out of the tree. */
    method Unindex(n: TableNode)
      requires tables.Valid() && n in Nodes(tables.tree)
      modifies tables, tables.root, Nodes(tables.tree)
      ensures tables.Valid() && Nodes(tables.tree) == old(Nodes(tables.tree)) - {n}
    {
      tables.Erase(n);
    }

    /** Drops the least recently used table. */
    method Evict()
      requires Valid() && lru != []
      modifies this, tables, tables.root, Nodes(tables.tree)
      ensures Valid() && lru == old(lru[1..]) && Nodes(tables.tree) <= old(Nodes(tables.tree))
    {
      var first := lru[0];
      Unindex(first);
      lru, nrCached := lru[1..], nrCached - 1;
    }

    /** Makes room for one more table, by dropping the least recently used of a full cache. */
    method MakeRoom()
      requires Valid()
      modifies this, tables, tables.root, Nodes(tables.tree)
      ensures Valid() && lru == Kept(old(lru)) && Nodes(tables.tree) <= old(Nodes(tables.tree))
    {
      if nrCached == MAX_CACHE_NODES {
        Evict();
      }
    }

    /** Adds a table to the tree and the list, which agree afterwards exactly when its offset was not there. */
    method Append(c: TableNode)
      requires Valid() && |lru| < MAX_CACHE_NODES && c !in Nodes(tables.tree) && Holds(c, file, entries)
      modifies this, tables, tables.root, Nodes(tables.tree), c
      ensures lru == old(lru) + [c] && nrCached == |lru| && Nodes(tables.tree) <= old(Nodes(tables.tree)) + {c}
      ensures Valid() <==> c.item.low !in old(Offsets(lru))
    {
      InsertsNew(tables.tree, lru, file, entries, c);
      AppendExact(Nodes(tables.tree), lru, file, entries, c);
      Index(c);
      lru, nrCached := lru + [c], nrCached + 1;
    }

    /**
      Adds a table as the most recently used; a full cache drops the least recently used first. A table whose offset is
      still cached then goes to the list but not to the tree, and the two no longer agree.
     */
    method CacheTable(c: TableNode)
      requires Valid() && c !in Nodes(tables.tree) && Holds(c, file, entries)
      modifies this, tables, tables.root, Nodes(tables.tree), c
      ensures lru == Kept(old(lru)) + [c] && nrCached == |lru|
      ensures Valid() <==> c.item.low !in Offsets(Kept(old(lru)))
      ensures Valid() ==> Offsets(lru) == Touch(old(Offsets(lru)), c.item.low)
      ensures Nodes(tables.tree) <= old(Nodes(tables.tree)) + {c}
    {
      ghost var was := lru;
      MakeRoom();
      Append(c);
      if c.item.low !in Offsets(Kept(was)) {
        OffsetsAppend(Kept(was), c);
        TouchNew(was, c.item.low);
      }
    }

    /** The table at an offset, from the cache or else from the file. */
    method ReadTable(offset: nat) returns (t: TableNode)
      requires Valid()
      modifies this, tables, tables.root, Nodes(tables.tree)
      ensures Valid() && (forall n :: n in Nodes(tables.tree) ==> n in old(Nodes(tables.tree)) || fresh(n))
      ensures t.item.value == TableAt(file, offset, entries)
      ensures Offsets(lru) == Touch(old(Offsets(lru)), offset)
    {
      var found := Search(offset);
      if found != null {
        return found;
      }
      ghost var m := Memory(tables.root, Nodes(tables.tree));
      t := new RbNode(Interval(offset, offset + 1, TableAt(file, offset, entries)));
      assert Memory(tables.root, Nodes(tables.tree)) == m;
      KeptOffsets(lru, offset);
      CacheTable(t);
    }
  }
}
