/**
  Reading a QCOW2 image: the two-level lookup with its cache gives the bytes of one flat disk.
 */
module Qcow {
  import opened RbTree
  import opened L2Cache
  import opened Numbers
  import opened SectorRead

  const OFLAG_COPIED := 0x8000_0000_0000_0000
  const OFLAG_COMPRESSED := 0x4000_0000_0000_0000

  // ---------------------------------------------------------------- shifts

  /** The number without its lowest `k` bits, and those bits alone. */
  function Shr(a: nat, k: nat): nat { if k == 0 then a else Shr(a / 2, k - 1) }

  function Low(a: nat, k: nat): nat { if k == 0 then 0 else a % 2 + 2 * Low(a / 2, k - 1) }

  lemma {:induction false} Halve(a: nat, m: nat)
    requires 0 < m
    ensures Quot(a, 2 * m) == Quot(a / 2, m) && Rem(a, 2 * m) == a % 2 + 2 * Rem(a / 2, m)
    decreases a
  {
    if 2 * m <= a {
      Halve(a - 2 * m, m);
      assert (a - 2 * m) / 2 == a / 2 - m;
    }
  }

  /** Shifting and masking is dividing by a power of two. */
  lemma {:induction false} ShiftIsDivision(a: nat, k: nat)
    ensures 0 < Pow2(k) && Shr(a, k) == Quot(a, Pow2(k)) && Low(a, k) == Rem(a, Pow2(k))
  {
    if k == 0 {
      ByOne(a);
    } else {
      ShiftIsDivision(a / 2, k - 1);
      Halve(a, Pow2(k - 1));
    }
  }

  lemma {:induction false} ByOne(a: nat)
    ensures Quot(a, 1) == a && Rem(a, 1) == 0
  {
    if a != 0 {
      ByOne(a - 1);
    }
  }

  lemma {:induction false} ShrShr(a: nat, j: nat, k: nat)
    ensures Shr(a, j + k) == Shr(Shr(a, j), k)
  {
    if j != 0 {
      ShrShr(a / 2, j - 1, k);
    }
  }

  lemma {:induction false} Pow2Sectors(k: nat)
    requires 9 <= k
    ensures Pow2(k) % SECTOR_SIZE == 0 && SECTOR_SIZE <= Pow2(k)
  {
    if k == 9 {
      assert Pow2(9) == 8 * Pow2(6) && Pow2(6) == 8 * Pow2(3) && Pow2(3) == 8;
    } else {
      Pow2Sectors(k - 1);
    }
  }

  // ---------------------------------------------------------------- the flat disk

  /** The file and what its header says. */
  datatype Image = Image(file: File, size: nat, clusterBits: nat, l1Offset: nat, l1Size: nat)

  /** A cluster holds at least one sector, and the size is a file offset. */
  predicate Supported(im: Image) { 9 <= im.clusterBits && im.size < 0x8000_0000_0000_0000 }

  function ClusterSize(im: Image): (n: nat)
    requires Supported(im)
    ensures SECTOR_SIZE <= n && n % SECTOR_SIZE == 0
  {
    Pow2Sectors(im.clusterBits);
    Pow2(im.clusterBits)
  }

  /** The number of entries of a second-level table, which fills one cluster with 8 bytes an entry. */
  function L2Size(im: Image): (n: nat)
    requires Supported(im)
    ensures 0 < n && ClusterSize(im) == 8 * n
  {
    assert Pow2(im.clusterBits) == 2 * Pow2(im.clusterBits - 1) &&
           Pow2(im.clusterBits - 1) == 2 * Pow2(im.clusterBits - 2);
    Pow2(im.clusterBits - 3)
  }

  /** The second-level entry of an address, as the format defines it; zero where there is no table. */
  function Entry(im: Image, a: nat): nat
    requires Supported(im)
  {
    var cluster := Quot(a, ClusterSize(im));
    var table := BigEndian(im.file, im.l1Offset + 8 * Quot(cluster, L2Size(im)), 8) % OFLAG_COPIED;
    if table == 0 then 0 else BigEndian(im.file, table + 8 * Rem(cluster, L2Size(im)), 8)
  }

  /** The byte of the disk at an address; a cluster without a place in the file reads as zero. */
  function VirtualByte(im: Image, a: nat): nat
    requires Supported(im)
  {
    var start := Entry(im, a) % OFLAG_COMPRESSED;
    if start == 0 then 0 else im.file(start + Rem(a, ClusterSize(im)))
  }

  // ---------------------------------------------------------------- one cluster

  function L1Index(im: Image, a: nat): nat
    requires Supported(im)
  {
    Shr(a, im.clusterBits + (im.clusterBits - 3))
  }

  function L2Index(im: Image, a: nat): nat
    requires Supported(im)
  {
    Low(Shr(a, im.clusterBits), im.clusterBits - 3)
  }

  /** The shifts and masks of the reader are the divisions of the format. */
  lemma IndexExact(im: Image, a: nat)
    requires Supported(im)
    ensures L1Index(im, a) == Quot(Quot(a, ClusterSize(im)), L2Size(im))
    ensures L2Index(im, a) == Rem(Quot(a, ClusterSize(im)), L2Size(im))
    ensures Low(a, im.clusterBits) == Rem(a, ClusterSize(im))
  {
    ShrShr(a, im.clusterBits, im.clusterBits - 3);
    ShiftIsDivision(a, im.clusterBits);
    ShiftIsDivision(Shr(a, im.clusterBits), im.clusterBits - 3);
  }

  /** The entry that the format defines is the one in the second-level table that the first-level table points to. */
  lemma EntryExact(im: Image, a: nat)
    requires Supported(im)
    ensures L2Index(im, a) < L2Size(im)
    ensures
      var table := BigEndian(im.file, im.l1Offset + 8 * L1Index(im, a), 8) % OFLAG_COPIED;
      Entry(im, a) == if table == 0 then 0 else TableAt(im.file, table, L2Size(im))[L2Index(im, a)]
  {
    IndexExact(im, a);
  }

  /** Below a product, dividing twice stays below the first factor. */
  lemma {:induction false} QuotBelow(x: nat, m: nat, q: nat)
    requires 0 < m
    ensures Quot(x, m) < q <==> x < q * m
    decreases q
  {
    if q != 0 && m <= x {
      QuotBelow(x - m, m, q - 1);
      assert (q - 1) * m == q * m - m;
    } else if q != 0 {
      assert m <= q * m;
    }
  }

  /** How far the first-level table reaches. */
  function Reach(im: Image): nat
    requires Supported(im)
  {
    im.l1Size * L2Size(im) * ClusterSize(im)
  }

  lemma ReachExact(im: Image, a: nat)
    requires Supported(im)
    ensures L1Index(im, a) < im.l1Size <==> a < Reach(im)
  {
    IndexExact(im, a);
    QuotBelow(Quot(a, ClusterSize(im)), L2Size(im), im.l1Size);
    QuotBelow(a, ClusterSize(im), im.l1Size * L2Size(im));
  }

  /** No cluster that can be reached is compressed. */
  ghost predicate Uncompressed(im: Image)
    requires Supported(im)
  {
    forall a: nat :: a < Reach(im) ==> Entry(im, a) / OFLAG_COMPRESSED % 2 == 0
  }

  lemma NotCompressed(im: Image, a: nat)
    requires Supported(im) && Uncompressed(im) && L1Index(im, a) < im.l1Size
    ensures Entry(im, a) / OFLAG_COMPRESSED % 2 == 0
  {
    ReachExact(im, a);
  }

  ghost function DiskOf(im: Image): (d: Disk)
    requires Supported(im)
    ensures d.reach == Reach(im) && Stands(im, d)
  {
    var d := Disk((a: nat) => VirtualByte(im, a), im.size, ClusterSize(im), Reach(im));
    assert Stands(im, d) by {
      forall a: nat
        ensures a < d.reach <==> L1Index(im, a) < im.l1Size
      {
        ReachExact(im, a);
      }
    }
    d
  }

  /** The flat disk that an image stands for. */
  ghost predicate Stands(im: Image, d: Disk)
    requires Supported(im)
  {
    && d.size == im.size && d.cluster == ClusterSize(im)
    && (forall a: nat {:trigger VirtualByte(im, a)} :: d.bytes(a) == VirtualByte(im, a))
    && (forall a: nat {:trigger L1Index(im, a)} :: a < d.reach <==> L1Index(im, a) < im.l1Size)
  }

  // ---------------------------------------------------------------- laying a disk out

  /** Entry `i` of the first-level table points to a second-level table, marked as used once, or is zero. */
  predicate TableLaid(im: Image, tables: nat -> nat, i: nat)
  {
    && tables(i) < 0x8000_0000_0000_0000
    && BigEndian(im.file, im.l1Offset + 8 * i, 8) == if tables(i) == 0 then 0 else tables(i) + 0x8000_0000_0000_0000
  }

  /** The number of the cluster of the disk that entry `j` of second-level table `i` stands for. */
  function ClusterOf(im: Image, i: nat, j: nat): nat
    requires Supported(im)
  {
    i * L2Size(im) + j
  }

  /** That entry points to where the cluster is, or is zero. */
  predicate ClusterLaid(im: Image, tables: nat -> nat, clusters: nat -> nat, i: nat, j: nat)
    requires Supported(im)
  {
    var at := clusters(ClusterOf(im, i, j));
    && at < 0x4000_0000_0000_0000
    && (tables(i) != 0 ==>
          BigEndian(im.file, tables(i) + 8 * j, 8) == if at == 0 then 0 else at + 0x8000_0000_0000_0000)
  }

  /** Byte `k` of the cluster is there, or zero. */
  predicate ByteLaid(im: Image, bytes: nat -> nat, tables: nat -> nat, clusters: nat -> nat, i: nat, j: nat, k: nat)
    requires Supported(im)
  {
    var c := ClusterOf(im, i, j);
    bytes(c * ClusterSize(im) + k) == if tables(i) == 0 || clusters(c) == 0 then 0 else im.file(clusters(c) + k)
  }

  /** The image holds a disk cluster by cluster: `tables` and `clusters` say where its tables and clusters are put. */
  ghost predicate LaidOut(im: Image, bytes: nat -> nat, tables: nat -> nat, clusters: nat -> nat)
    requires Supported(im)
  {
    && (forall i: nat :: i < im.l1Size ==> TableLaid(im, tables, i))
    && (forall i: nat, j: nat :: i < im.l1Size && j < L2Size(im) ==> ClusterLaid(im, tables, clusters, i, j))
    && (forall i: nat, j: nat, k: nat :: i < im.l1Size && j < L2Size(im) && k < ClusterSize(im) ==>
          ByteLaid(im, bytes, tables, clusters, i, j, k))
  }

  /** Every address is one byte of one cluster of one table. */
  lemma AddressParts(im: Image, a: nat)
    requires Supported(im) && a < Reach(im)
    ensures
      var c := Quot(a, ClusterSize(im));
      var i, j := Quot(c, L2Size(im)), Rem(c, L2Size(im));
      i < im.l1Size && j < L2Size(im) && c == ClusterOf(im, i, j) && a == c * ClusterSize(im) + Rem(a, ClusterSize(im))
  {
    var c := Quot(a, ClusterSize(im));
    Divide(a, ClusterSize(im));
    Divide(c, L2Size(im));
    IndexExact(im, a);
    ReachExact(im, a);
  }

  /** The marks of an entry are no part of the place it points to. */
  lemma Unmarked(at: nat)
    requires at < 0x8000_0000_0000_0000
    ensures (at + 0x8000_0000_0000_0000) % OFLAG_COPIED == at
    ensures at < 0x4000_0000_0000_0000 ==> (at + 0x8000_0000_0000_0000) % OFLAG_COMPRESSED == at
  {
  }

  /** An image that holds a disk stands for that disk, as far as its first-level table reaches. */
  lemma ReadsBack(im: Image, bytes: nat -> nat, tables: nat -> nat, clusters: nat -> nat, a: nat)
    requires Supported(im) && LaidOut(im, bytes, tables, clusters) && a < Reach(im)
    ensures VirtualByte(im, a) == bytes(a) && Entry(im, a) / OFLAG_COMPRESSED % 2 == 0
  {
    AddressParts(im, a);
    var c, k := Quot(a, ClusterSize(im)), Rem(a, ClusterSize(im));
    var i, j := Quot(c, L2Size(im)), Rem(c, L2Size(im));
    assert TableLaid(im, tables, i) && ClusterLaid(im, tables, clusters, i, j);
    assert ByteLaid(im, bytes, tables, clusters, i, j, k);
    Unmarked(tables(i));
    Unmarked(clusters(c));
  }

  /** So reading such an image reads that disk, and none of its clusters is taken for a compressed one. */
  lemma LaidOutStands(im: Image, bytes: nat -> nat, tables: nat -> nat, clusters: nat -> nat)
    requires Supported(im) && LaidOut(im, bytes, tables, clusters)
    ensures Uncompressed(im) && forall a: nat :: a < Reach(im) ==> DiskOf(im).bytes(a) == bytes(a)
  {
    forall a: nat | a < Reach(im)
      ensures Entry(im, a) / OFLAG_COMPRESSED % 2 == 0 && DiskOf(im).bytes(a) == bytes(a)
    {
      ReadsBack(im, bytes, tables, clusters, a);
      assert DiskOf(im).bytes(a) == VirtualByte(im, a);
    }
  }

  /** Addresses of one cluster have the same entry. */
  lemma SameCluster(im: Image, a: nat, i: nat)
    requires Supported(im) && Rem(a, ClusterSize(im)) + i < ClusterSize(im)
    ensures Entry(im, a + i) == Entry(im, a) && Rem(a + i, ClusterSize(im)) == Rem(a, ClusterSize(im)) + i
  {
    SameQuot(a, i, ClusterSize(im));
  }

  /** Bytes of a file, or zeros for a cluster that has no place in it. */
  function FileBytes(file: File, start: nat, at: nat, n: nat): seq<nat>
  {
    if n == 0 then [] else FileBytes(file, start, at, n - 1) + [if start == 0 then 0 else file(start + at + n - 1)]
  }

  /** Within one cluster the disk is one stretch of the file, or zero. */
  lemma {:induction false} ClusterBytes(im: Image, d: Disk, a: nat, n: nat)
    requires Supported(im) && Stands(im, d) && Rem(a, ClusterSize(im)) + n <= ClusterSize(im)
    ensures Stretch(d, a, n) == FileBytes(im.file, Entry(im, a) % OFLAG_COMPRESSED, Rem(a, ClusterSize(im)), n)
    decreases n
  {
    if n != 0 {
      ClusterBytes(im, d, a, n - 1);
      SameCluster(im, a, n - 1);
      assert d.bytes(a + (n - 1)) == VirtualByte(im, a + (n - 1));
    }
  }

  class Reader {
    const im: Image
    const cache: Cache
    ghost const disk: Disk

    ghost predicate Valid()
      reads this, cache, cache.tables, cache.tables.root, Nodes(cache.tables.tree)
    {
      && cache.Valid() && Supported(im) && Uncompressed(im)
      && cache.file == im.file && cache.entries == L2Size(im) && Stands(im, disk)
    }

    constructor (im: Image)
      requires Supported(im) && Uncompressed(im)
      ensures Valid() && this.im == im && fresh(cache) && fresh(cache.tables) && fresh(cache.tables.root)
      ensures Nodes(cache.tables.tree) == {}
    {
      this.im := im;
      cache := new Cache(im.file, L2Size(im));
      disk := DiskOf(im);
    }

    /** The second-level entry of an address, through the cache. */
    method FindEntry(offset: nat) returns (entry: nat)
      requires Valid()
      modifies cache, cache.tables, cache.tables.root, Nodes(cache.tables.tree)
      ensures Valid() && (forall n :: n in Nodes(cache.tables.tree) ==> n in old(Nodes(cache.tables.tree)) || fresh(n))
      ensures entry == Entry(im, offset)
    {
      EntryExact(im, offset);
      var l2Offset := BigEndian(im.file, im.l1Offset + 8 * L1Index(im, offset), 8) % OFLAG_COPIED;
      if l2Offset == 0 {
        return 0;
      }
      var l2 := cache.ReadTable(l2Offset);
      entry := l2.item.value[L2Index(im, offset)];
    }

    /** Reads from one cluster, as far as it or the buffer goes. */
    method ReadCluster(offset: nat, dstLen: nat) returns (nr: int, bytes: seq<nat>)
      requires Valid()
      modifies cache, cache.tables, cache.tables.root, Nodes(cache.tables.tree)
      ensures Valid() && (forall n :: n in Nodes(cache.tables.tree) ==> n in old(Nodes(cache.tables.tree)) || fresh(n))
      ensures nr == if offset < disk.reach then Count(disk, offset, dstLen) else -1
      ensures offset < disk.reach ==> bytes == Stretch(disk, offset, nr)
    {
      if L1Index(im, offset) >= im.l1Size {
        return -1, [];
      }
      NotCompressed(im, offset);
      IndexExact(im, offset);
      var clustOffset := Low(offset, im.clusterBits);
      var length := Min(ClusterSize(im) - clustOffset, dstLen);
      ClusterBytes(im, disk, offset, length);
      var entry := FindEntry(offset);
      assert entry / OFLAG_COMPRESSED % 2 == 0;
      return length, FileBytes(im.file, entry % OFLAG_COMPRESSED, clustOffset, length);
    }

    /** Reads one piece and counts it; an error of -1 is no longer negative in the unsigned counter. */
    method ReadPiece(dstLen: nat, p: Progress) returns (q: Progress)
      requires Valid() && p.done < dstLen < U32 && p.s * SECTOR_SIZE < im.size
      modifies cache, cache.tables, cache.tables.root, Nodes(cache.tables.tree)
      ensures Valid() && (forall n :: n in Nodes(cache.tables.tree) ==> n in old(Nodes(cache.tables.tree)) || fresh(n))
      ensures q == Step(disk, dstLen, p)
    {
      var got, bytes := ReadCluster(p.s * SECTOR_SIZE, dstLen - p.done);
      q := Counted(p, got, bytes);
    }

    /** Reads a buffer full, cluster by cluster. */
    method ReadSectorSingle(sector: nat, dstLen: nat) returns (o: Outcome)
      requires Valid() && dstLen < U32
      modifies cache, cache.tables, cache.tables.root, Nodes(cache.tables.tree)
      ensures Valid() && (forall n :: n in Nodes(cache.tables.tree) ==> n in old(Nodes(cache.tables.tree)) || fresh(n))
      ensures o == ReadAll(disk, sector, dstLen)
    {
      var p := Progress(sector % SECTORS, 0, 0, map[]);
      while p.done < dstLen
        invariant Valid()
        invariant forall n :: n in Nodes(cache.tables.tree) ==> n in old(Nodes(cache.tables.tree)) || fresh(n)
        invariant Read(disk, dstLen, p) == ReadAll(disk, sector, dstLen)
        decreases if p.done < dstLen then 1 else 0, im.size - p.s * SECTOR_SIZE
      {
        if p.s * SECTOR_SIZE >= im.size {
          return Outcome(-1, p.written);
        }
        Advance(disk, dstLen, p);
        p := ReadPiece(dstLen, p);
      }
      o := Outcome(dstLen, p.written);
    }

    /** Reads one buffer of many; a read that fails ends the whole. */
    method ReadBuffer(lens: seq<nat>, i: nat, g: Gathering, ghost all: Scattered)
      returns (ok: bool, g': Gathering, m: Scattered)
      requires Valid() && i < |lens| && OnWay(disk, lens, i, g, all)
      modifies cache, cache.tables, cache.tables.root, Nodes(cache.tables.tree)
      ensures Valid() && (forall n :: n in Nodes(cache.tables.tree) ==> n in old(Nodes(cache.tables.tree)) || fresh(n))
      ensures if ok then OnWay(disk, lens, i + 1, g', all) else m == all
    {
      OnWayNext(disk, lens, i, g, all);
      var o := ReadSectorSingle(g.s, lens[i] % U32);
      ok, g', m := o.r == lens[i], g, Scattered(-1, g.buffers + [o.written]);
      if ok {
        g' := Gathering(g.s + lens[i] / SECTOR_SIZE, g.total + lens[i], g.buffers + [o.written]);
      }
    }

    /** Reads into buffers of the given lengths one after another. */
    method ReadSector(sector: nat, lens: seq<nat>) returns (m: Scattered)
      requires Valid()
      modifies cache, cache.tables, cache.tables.root, Nodes(cache.tables.tree)
      ensures Valid() && m == ReadMany(disk, sector, lens)
    {
      var g, i, ok := Gathering(sector, 0, []), 0, true;
      ghost var all := ReadMany(disk, sector, lens);
      OnWayStart(disk, sector, lens);
      while i < |lens|
        invariant 0 <= i <= |lens| && OnWay(disk, lens, i, g, all)
        invariant Valid()
        invariant forall n :: n in Nodes(cache.tables.tree) ==> n in old(Nodes(cache.tables.tree)) || fresh(n)
      {
        ok, g, m := ReadBuffer(lens, i, g, all);
        if !ok {
          return;
        }
        i := i + 1;
      }
      OnWayEnds(disk, lens, g, all);
      m := Scattered(g.total, g.buffers);
    }
  }
}
