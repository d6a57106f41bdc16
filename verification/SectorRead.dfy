/**
  Reading a disk piece by piece into a buffer: a piece ends where the read ends or where a cluster ends.
 */
module SectorRead {
  import opened Numbers

  const SECTOR_SIZE := 512
  const U32 := 0x1_0000_0000
  const SECTORS := 0x80_0000_0000_0000 // a byte address has 64 bits

  // ---------------------------------------------------------------- numbers

  lemma {:induction false} RemSectors(a: nat, m: nat)
    requires 0 < m && m % SECTOR_SIZE == 0 && a % SECTOR_SIZE == 0
    ensures Rem(a, m) % SECTOR_SIZE == 0
    decreases a
  {
    if m <= a {
      RemSectors(a - m, m);
    }
  }

  // ---------------------------------------------------------------- a disk in clusters

  /** The bytes of a flat disk, its size, how many bytes a cluster has and where the lookup tables end. */
  datatype Disk = Disk(bytes: nat -> nat, size: nat, cluster: nat, reach: nat)

  /** A cluster is whole sectors, and the size is a file offset. */
  predicate WellFormed(d: Disk)
  {
    0 < d.cluster && d.cluster % SECTOR_SIZE == 0 && d.size < 0x8000_0000_0000_0000
  }

  /** The bytes of the disk from an address on. */
  function Stretch(d: Disk, a: nat, n: nat): (s: seq<nat>)
    ensures |s| == n
  {
    if n == 0 then [] else Stretch(d, a, n - 1) + [d.bytes(a + n - 1)]
  }

  lemma {:induction false} StretchAt(d: Disk, a: nat, n: nat, i: nat)
    requires i < n
    ensures Stretch(d, a, n)[i] == d.bytes(a + i)
    decreases n
  {
    if i < n - 1 {
      StretchAt(d, a, n - 1, i);
    }
  }

  /** Where the last piece of a read begins. */
  function LastPiece(d: Disk, a: nat, n: nat): nat
    requires WellFormed(d) && 0 < n
  {
    var e := a + n - 1;
    var start := e - Rem(e, d.cluster);
    if start < a then a else start
  }

  predicate Begins(d: Disk, a: nat) { a < d.size && a < d.reach }

  /** The last piece of a read begins on the disk and within reach of the tables. */
  predicate Readable(d: Disk, a: nat, n: nat)
    requires WellFormed(d)
  {
    n == 0 || Begins(d, LastPiece(d, a, n))
  }

  /** The first `n` bytes of a buffer are those of the disk from an address on. */
  ghost predicate Filled(d: Disk, a: nat, n: nat, written: map<nat, nat>)
  {
    forall i: nat :: i < n ==> i in written && written[i] == d.bytes(a + i)
  }

  /** A buffer after bytes are stored from a position on. */
  function Stored(written: map<nat, nat>, pos: nat, bytes: seq<nat>): (w: map<nat, nat>)
    ensures forall i :: i in w ==> i in written || pos <= i < pos + |bytes|
    decreases |bytes|
  {
    if bytes == [] then written
    else
      var last := |bytes| - 1;
      Stored(written, pos, bytes[..last])[pos + last := bytes[last]]
  }

  lemma {:induction false} StoredBytes(written: map<nat, nat>, pos: nat, bytes: seq<nat>, i: nat)
    ensures var w := Stored(written, pos, bytes);
            && (i < pos && i in written ==> i in w && w[i] == written[i])
            && (pos <= i < pos + |bytes| ==> i in w && w[i] == bytes[i - pos])
    decreases |bytes|
  {
    if bytes != [] {
      StoredBytes(written, pos, bytes[..|bytes| - 1], i);
    }
  }

  /** A piece in the middle of a read begins at a cluster. */
  predicate Piece(d: Disk, a: nat, done: nat)
    requires WellFormed(d)
  {
    done == 0 || Rem(a + done, d.cluster) == 0
  }

  /** If any piece cannot be read, neither can the last. */
  lemma PieceFails(d: Disk, a: nat, n: nat, done: nat)
    requires WellFormed(d) && done < n && Piece(d, a, done) && !Begins(d, a + done)
    ensures !Readable(d, a, n)
  {
    if done != 0 {
      MultipleBefore(a + done, a + n - 1, d.cluster);
    }
  }

  lemma SectorsBetween(x: nat, y: nat)
    requires x <= y && x % SECTOR_SIZE == 0 && y % SECTOR_SIZE == 0
    ensures (y - x) % SECTOR_SIZE == 0
  {
  }

  /** A piece is whole sectors and ends at a cluster, or it ends the read. */
  lemma PieceStep(d: Disk, a: nat, n: nat, done: nat, nr: nat)
    requires WellFormed(d) && done < n && a % SECTOR_SIZE == 0 && done % SECTOR_SIZE == 0
    requires Piece(d, a, done) && Begins(d, a + done)
    requires nr == Min(d.cluster - Rem(a + done, d.cluster), n - done)
    ensures 0 < nr && done + nr <= n
    ensures done + nr < n ==> nr % SECTOR_SIZE == 0 && Piece(d, a, done + nr)
    ensures done + nr == n ==> Readable(d, a, n)
  {
    var c, m := a + done, d.cluster;
    if done + nr < n {
      NextMultiple(c, m);
      RemSectors(c, m);
      SectorsBetween(Rem(c, m), m);
      assert a + (done + nr) == c + (m - Rem(c, m));
    } else {
      SameQuot(c, nr - 1, m);
      assert LastPiece(d, a, n) == c;
    }
  }

  lemma FilledStep(d: Disk, a: nat, done: nat, c: nat, nr: nat, written: map<nat, nat>)
    requires Filled(d, a, done, written) && c == a + done
    ensures Filled(d, a, done + nr, Stored(written, done, Stretch(d, c, nr)))
  {
    var bytes := Stretch(d, c, nr);
    forall i: nat | i < done + nr
      ensures var w := Stored(written, done, bytes); i in w && w[i] == d.bytes(a + i)
    {
      StoredBytes(written, done, bytes, i);
      if done <= i {
        StretchAt(d, c, nr, i - done);
        assert c + (i - done) == a + i;
      }
    }
  }

  // ---------------------------------------------------------------- a whole read

  /** What a read returns and leaves in the buffer. */
  datatype Outcome = Outcome(r: int, written: map<nat, nat>)

  /** The length of one piece. */
  function Count(d: Disk, offset: nat, n: nat): nat
    requires WellFormed(d)
  {
    Min(d.cluster - Rem(offset, d.cluster), n)
  }

  /** A read in progress: the next sector, the bytes counted, where the next goes and what is in the buffer. */
  datatype Progress = Progress(s: nat, done: nat, pos: nat, written: map<nat, nat>)

  /** Counts what reading a piece returned; the error -1 is not negative in an unsigned 32-bit counter. */
  function Counted(p: Progress, got: int, bytes: seq<nat>): Progress
    requires -1 <= got
  {
    var nr := if got == -1 then U32 - 1 else got;
    Progress(p.s + nr / SECTOR_SIZE, (p.done + nr) % U32, p.pos + nr,
             if got == -1 then p.written else Stored(p.written, p.pos, bytes))
  }

  /** One piece of a read of `n` bytes. */
  function Step(d: Disk, n: nat, p: Progress): Progress
    requires WellFormed(d) && p.done < n
  {
    var offset := p.s * SECTOR_SIZE;
    if offset < d.reach then
      var nr := Count(d, offset, n - p.done);
      Counted(p, nr, Stretch(d, offset, nr))
    else
      Counted(p, -1, [])
  }

  /** A piece that does not end the read is at least one sector. */
  lemma CountSectors(d: Disk, offset: nat, n: nat)
    requires WellFormed(d) && 0 < n && offset % SECTOR_SIZE == 0
    ensures var nr := Count(d, offset, n); 0 < nr <= n && (nr < SECTOR_SIZE ==> nr == n)
  {
    RemSectors(offset, d.cluster);
    SectorsBetween(Rem(offset, d.cluster), d.cluster);
  }

  /** Every piece moves on by a sector, or ends the read. */
  lemma Advance(d: Disk, n: nat, p: Progress)
    requires WellFormed(d) && p.done < n < U32
    ensures Step(d, n, p).done < n ==> p.s < Step(d, n, p).s
  {
    CountSectors(d, p.s * SECTOR_SIZE, n - p.done);
  }

  function Read(d: Disk, n: nat, p: Progress): Outcome
    requires WellFormed(d) && n < U32
    decreases if p.done < n then 1 else 0, d.size - p.s * SECTOR_SIZE
  {
    if n <= p.done then Outcome(n, p.written)
    else if d.size <= p.s * SECTOR_SIZE then Outcome(-1, p.written)
    else
      Advance(d, n, p);
      Read(d, n, Step(d, n, p))
  }

  ghost predicate Within(written: map<nat, nat>, n: nat) { forall i :: i in written ==> i < n }

  /** What is in the buffer while every piece can be read. */
  ghost predicate Buffered(d: Disk, a: nat, p: Progress)
  {
    p.pos == p.done && Filled(d, a, p.done, p.written) && Within(p.written, p.pos)
  }

  /** Where the read is while every piece can be read. */
  predicate Placed(d: Disk, a: nat, n: nat, s: nat, done: nat)
    requires WellFormed(d)
  {
    && done <= n
    && (done < n ==> done % SECTOR_SIZE == 0 && s * SECTOR_SIZE == a + done && Piece(d, a, done))
    && (done == n ==> Readable(d, a, n))
  }

  lemma PlacedStep(d: Disk, a: nat, n: nat, s: nat, done: nat)
    requires WellFormed(d) && n < U32 && a % SECTOR_SIZE == 0 && done < n && Placed(d, a, n, s, done) &&
             Begins(d, a + done)
    ensures
      var nr := Count(d, a + done, n - done);
      (done + nr) % U32 == done + nr <= n && Placed(d, a, n, s + nr / SECTOR_SIZE, done + nr)
  {
    var nr := Count(d, a + done, n - done);
    PieceStep(d, a, n, done, nr);
    if done + nr < n {
      WholeSectors(s, a + done, done, nr);
    }
  }

  lemma WholeSectors(s: nat, at: nat, done: nat, nr: nat)
    requires s * SECTOR_SIZE == at && done % SECTOR_SIZE == 0 && nr % SECTOR_SIZE == 0
    ensures (s + nr / SECTOR_SIZE) * SECTOR_SIZE == at + nr && (done + nr) % SECTOR_SIZE == 0
  {
  }

  lemma StepFound(d: Disk, n: nat, p: Progress, nr: nat)
    requires WellFormed(d) && p.done < n && p.s * SECTOR_SIZE < d.reach && nr == Count(d, p.s * SECTOR_SIZE, n - p.done)
    requires (p.done + nr) % U32 == p.done + nr
    ensures Step(d, n, p).done == p.done + nr && Step(d, n, p).pos == p.pos + nr
    ensures Step(d, n, p).written == Stored(p.written, p.pos, Stretch(d, p.s * SECTOR_SIZE, nr))
  {
  }

  lemma WithinStored(written: map<nat, nat>, pos: nat, bytes: seq<nat>)
    requires Within(written, pos)
    ensures Within(Stored(written, pos, bytes), pos + |bytes|)
  {
  }

  lemma BufferedStep(d: Disk, a: nat, n: nat, p: Progress)
    requires WellFormed(d) && p.done < n && Buffered(d, a, p) && p.s * SECTOR_SIZE < d.reach &&
             p.s * SECTOR_SIZE == a + p.done
    requires var nr := Count(d, p.s * SECTOR_SIZE, n - p.done); (p.done + nr) % U32 == p.done + nr
    ensures Buffered(d, a, Step(d, n, p))
  {
    var c := p.s * SECTOR_SIZE;
    var nr := Count(d, c, n - p.done);
    StepFound(d, n, p, nr);
    FilledStep(d, a, p.done, c, nr, p.written);
    WithinStored(p.written, p.pos, Stretch(d, c, nr));
  }

  lemma TrackStep(d: Disk, a: nat, n: nat, p: Progress)
    requires WellFormed(d) && n < U32 && a % SECTOR_SIZE == 0 && p.done < n
    requires Buffered(d, a, p) && Placed(d, a, n, p.s, p.done) && Begins(d, a + p.done)
    ensures var q := Step(d, n, p); Buffered(d, a, q) && Placed(d, a, n, q.s, q.done)
  {
    PlacedStep(d, a, n, p.s, p.done);
    BufferedStep(d, a, n, p);
  }

  /** Once a byte is passed over it stays missing. */
  ghost predicate Lost(n: nat, p: Progress, hole: nat)
  {
    hole < n && hole < p.pos && hole !in p.written
  }

  lemma {:induction false} ReadLost(d: Disk, a: nat, n: nat, p: Progress, hole: nat)
    requires WellFormed(d) && n < U32 && Lost(n, p, hole)
    ensures Read(d, n, p).r == -1 || Read(d, n, p).r == n
    ensures !Filled(d, a, n, Read(d, n, p).written)
    decreases if p.done < n then 1 else 0, d.size - p.s * SECTOR_SIZE
  {
    if p.done < n && p.s * SECTOR_SIZE < d.size {
      Advance(d, n, p);
      assert Lost(n, Step(d, n, p), hole);
      ReadLost(d, a, n, Step(d, n, p), hole);
    }
  }

  /** Either the whole read succeeds, or it fails, or a byte is missing. */
  lemma {:induction false} ReadOnTrack(d: Disk, a: nat, n: nat, p: Progress)
    requires WellFormed(d) && n < U32 && a % SECTOR_SIZE == 0 && Buffered(d, a, p) && Placed(d, a, n, p.s, p.done)
    ensures
      var o := Read(d, n, p);
      if Readable(d, a, n) then o.r == n && Filled(d, a, n, o.written)
      else o.r == -1 || (o.r == n && d.reach < d.size && !Filled(d, a, n, o.written))
    decreases if p.done < n then 1 else 0, d.size - p.s * SECTOR_SIZE
  {
    if p.done < n {
      if !Begins(d, a + p.done) {
        PieceFails(d, a, n, p.done);
      }
      if p.s * SECTOR_SIZE < d.size {
        Advance(d, n, p);
        if d.reach <= p.s * SECTOR_SIZE {
          assert Lost(n, Step(d, n, p), p.done);
          ReadLost(d, a, n, Step(d, n, p), p.done);
        } else {
          TrackStep(d, a, n, p);
          ReadOnTrack(d, a, n, Step(d, n, p));
        }
      }
    }
  }

  /** The byte address of a sector; shifting to it drops the bits that do not fit. */
  function Address(sector: nat): nat { sector % SECTORS * SECTOR_SIZE }

  /** Reading `n` bytes from a sector on. */
  function ReadAll(d: Disk, sector: nat, n: nat): Outcome
    requires WellFormed(d) && n < U32
  {
    Read(d, n, Progress(sector % SECTORS, 0, 0, map[]))
  }

  /** A read delivers the bytes of the flat disk exactly when its last piece can be read. */
  lemma ReadExact(d: Disk, sector: nat, n: nat)
    requires WellFormed(d) && n < U32
    ensures
      var a, o := sector % 0x80_0000_0000_0000 * 512, ReadAll(d, sector, n);
      && (o.r == -1 || o.r == n)
      && (o.r == n && Filled(d, a, n, o.written) <==> Readable(d, a, n))
  {
    ReadOnTrack(d, Address(sector), n, Progress(sector % SECTORS, 0, 0, map[]));
  }

  /** When the tables reach as far as the disk, a read that falls short is reported. */
  lemma ReadReports(d: Disk, sector: nat, n: nat)
    requires WellFormed(d) && n < U32 && d.size <= d.reach
    ensures ReadAll(d, sector, n).r == if Readable(d, Address(sector), n) then n else -1
  {
    ReadOnTrack(d, Address(sector), n, Progress(sector % SECTORS, 0, 0, map[]));
  }

  /** When they do not, a read that begins beyond their reach claims success and leaves the buffer as it was. */
  lemma UnreachedReadClaimsSuccess(d: Disk, sector: nat, n: nat)
    requires WellFormed(d) && 0 < n < U32 && d.reach <= Address(sector) < d.size
    ensures ReadAll(d, sector, n) == Outcome(n, map[])
  {
    var p := Progress(sector % SECTORS, 0, 0, map[]);
    Advance(d, n, p);
    assert Step(d, n, p).done == U32 - 1;
    assert Read(d, n, p) == Read(d, n, Step(d, n, p));
  }

  // ---------------------------------------------------------------- many buffers

  datatype Scattered = Scattered(r: int, buffers: seq<map<nat, nat>>)

  function Sum(lens: seq<nat>): nat { if lens == [] then 0 else lens[0] + Sum(lens[1..]) }

  /** The first buffers and what reading the rest returned. */
  function Joined(total: nat, buffers: seq<map<nat, nat>>, m: Scattered): Scattered
  {
    Scattered(if m.r == -1 then -1 else total + m.r, buffers + m.buffers)
  }

  /** Reads buffers of the given lengths one after another; a length is cut to 32 bits for each read. */
  function ReadMany(d: Disk, sector: nat, lens: seq<nat>): (m: Scattered)
    requires WellFormed(d)
    ensures m.r == -1 || m.r == Sum(lens)
    decreases |lens|
  {
    if lens == [] then Scattered(0, [])
    else
      var o := ReadAll(d, sector, lens[0] % U32);
      if o.r != lens[0] then Scattered(-1, [o.written])
      else Joined(lens[0], [o.written], ReadMany(d, sector + lens[0] / SECTOR_SIZE, lens[1..]))
  }

  lemma JoinedTwice(total: nat, buffers: seq<map<nat, nat>>, n: nat, w: map<nat, nat>, m: Scattered)
    requires -1 <= m.r
    ensures Joined(total, buffers, Joined(n, [w], m)) == Joined(total + n, buffers + [w], m)
  {
    assert buffers + ([w] + m.buffers) == buffers + [w] + m.buffers;
  }

  /** Reading on, after some buffers. */
  function ReadOn(d: Disk, sector: nat, total: nat, buffers: seq<map<nat, nat>>, lens: seq<nat>): Scattered
    requires WellFormed(d)
    decreases |lens|
  {
    if lens == [] then Scattered(total, buffers)
    else
      var o := ReadAll(d, sector, lens[0] % U32);
      if o.r != lens[0] then Scattered(-1, buffers + [o.written])
      else ReadOn(d, sector + lens[0] / SECTOR_SIZE, total + lens[0], buffers + [o.written], lens[1..])
  }

  lemma {:induction false} ReadOnJoins(d: Disk, sector: nat, total: nat, buffers: seq<map<nat, nat>>, lens: seq<nat>)
    requires WellFormed(d)
    ensures ReadOn(d, sector, total, buffers, lens) == Joined(total, buffers, ReadMany(d, sector, lens))
    decreases |lens|
  {
    if lens != [] {
      var o := ReadAll(d, sector, lens[0] % U32);
      if o.r == lens[0] {
        var next := sector + lens[0] / SECTOR_SIZE;
        ReadOnJoins(d, next, total + lens[0], buffers + [o.written], lens[1..]);
        JoinedTwice(total, buffers, lens[0], o.written, ReadMany(d, next, lens[1..]));
      }
    }
  }

  /** A read of many buffers in progress: the next sector, the bytes read and what is in the buffers so far. */
  datatype Gathering = Gathering(s: nat, total: nat, buffers: seq<map<nat, nat>>)

  /** After `i` buffers, reading on gives what the whole read gives. */
  ghost predicate OnWay(d: Disk, lens: seq<nat>, i: nat, g: Gathering, all: Scattered)
    requires WellFormed(d)
  {
    i <= |lens| && ReadOn(d, g.s, g.total, g.buffers, lens[i..]) == all
  }

  lemma OnWayNext(d: Disk, lens: seq<nat>, i: nat, g: Gathering, all: Scattered)
    requires WellFormed(d) && OnWay(d, lens, i, g, all) && i < |lens|
    ensures
      var o := ReadAll(d, g.s, lens[i] % U32);
      if o.r != lens[i] then all == Scattered(-1, g.buffers + [o.written])
      else OnWay(d, lens, i + 1, Gathering(g.s + lens[i] / SECTOR_SIZE, g.total + lens[i], g.buffers + [o.written]),
                 all)
  {
    assert lens[i..][0] == lens[i] && lens[i..][1..] == lens[i + 1..];
  }

  lemma OnWayEnds(d: Disk, lens: seq<nat>, g: Gathering, all: Scattered)
    requires WellFormed(d) && OnWay(d, lens, |lens|, g, all)
    ensures all == Scattered(g.total, g.buffers)
  {
  }

  lemma OnWayStart(d: Disk, sector: nat, lens: seq<nat>)
    requires WellFormed(d)
    ensures OnWay(d, lens, 0, Gathering(sector, 0, []), ReadMany(d, sector, lens))
  {
    assert lens[0..] == lens;
    ReadOnAll(d, sector, lens);
  }

  lemma ReadOnAll(d: Disk, sector: nat, lens: seq<nat>)
    requires WellFormed(d)
    ensures ReadOn(d, sector, 0, [], lens) == ReadMany(d, sector, lens)
  {
    ReadOnJoins(d, sector, 0, [], lens);
  }

  /** All buffers but the last are whole sectors. */
  predicate Aligned(lens: seq<nat>)
  {
    |lens| <= 1 || (lens[0] % SECTOR_SIZE == 0 && Aligned(lens[1..]))
  }

  predicate AllReadable(d: Disk, a: nat, lens: seq<nat>)
    requires WellFormed(d)
    decreases |lens|
  {
    lens == [] || (lens[0] < U32 && Readable(d, a, lens[0]) && AllReadable(d, a + lens[0], lens[1..]))
  }

  ghost predicate AllFilled(d: Disk, a: nat, lens: seq<nat>, buffers: seq<map<nat, nat>>)
    decreases |lens|
  {
    if lens == [] then buffers == []
    else buffers != [] && Filled(d, a, lens[0], buffers[0]) && AllFilled(d, a + lens[0], lens[1..], buffers[1..])
  }

  lemma NextAddress(sector: nat, n: nat)
    requires n % SECTOR_SIZE == 0 && Address(sector) + n < SECTORS * SECTOR_SIZE
    ensures Address(sector + n / SECTOR_SIZE) == Address(sector) + n
  {
    assert (sector + n / SECTOR_SIZE) % SECTORS == sector % SECTORS + n / SECTOR_SIZE;
  }

  /** The first of many buffers. */
  lemma ReadFirst(d: Disk, sector: nat, lens: seq<nat>)
    requires WellFormed(d) && lens != [] && lens[0] < U32 && Readable(d, Address(sector), lens[0])
    ensures
      var m, rest := ReadMany(d, sector, lens), ReadMany(d, sector + lens[0] / SECTOR_SIZE, lens[1..]);
      && m.buffers != [] && m.buffers[1..] == rest.buffers && Filled(d, Address(sector), lens[0], m.buffers[0])
      && (m.r == Sum(lens) <==> rest.r == Sum(lens[1..]))
  {
    var n := lens[0] % U32;
    assert n == lens[0];
    ReadExact(d, sector, n);
    var o, rest := ReadAll(d, sector, n), ReadMany(d, sector + lens[0] / SECTOR_SIZE, lens[1..]);
    assert ReadMany(d, sector, lens) == Joined(lens[0], [o.written], rest);
    assert ([o.written] + rest.buffers)[1..] == rest.buffers;
  }

  lemma ReadFirstFails(d: Disk, sector: nat, lens: seq<nat>)
    requires WellFormed(d) && lens != [] && !(lens[0] < U32 && Readable(d, Address(sector), lens[0]))
    ensures
      var m := ReadMany(d, sector, lens);
      !(m.r == Sum(lens) && AllFilled(d, Address(sector), lens, m.buffers)) && !AllReadable(d, Address(sector), lens)
  {
    var o := ReadAll(d, sector, lens[0] % U32);
    ReadExact(d, sector, lens[0] % U32);
    if o.r == lens[0] {
      assert ReadMany(d, sector, lens).buffers[0] == o.written;
    }
  }

  /** Where the first buffer can be read, the rest decides. */
  lemma RestDecides(d: Disk, sector: nat, lens: seq<nat>)
    requires WellFormed(d) && lens != [] && lens[0] < U32 && Readable(d, Address(sector), lens[0])
    ensures
      var n, a := lens[0], Address(sector);
      var m, rest := ReadMany(d, sector, lens), ReadMany(d, sector + n / SECTOR_SIZE, lens[1..]);
      && (m.r == Sum(lens) <==> rest.r == Sum(lens[1..]))
      && (AllFilled(d, a, lens, m.buffers) <==> AllFilled(d, a + n, lens[1..], rest.buffers))
      && (AllReadable(d, a, lens) <==> AllReadable(d, a + n, lens[1..]))
  {
    ReadFirst(d, sector, lens);
  }

  /** The buffers are filled from the disk exactly when each of them can be read. */
  ghost predicate Exact(d: Disk, sector: nat, a: nat, lens: seq<nat>)
    requires WellFormed(d)
  {
    var m := ReadMany(d, sector, lens);
    m.r == Sum(lens) && AllFilled(d, a, lens, m.buffers) <==> AllReadable(d, a, lens)
  }

  lemma ExactNext(d: Disk, sector: nat, lens: seq<nat>)
    requires WellFormed(d) && lens != [] && lens[0] < U32 && Readable(d, Address(sector), lens[0])
    requires Exact(d, sector + lens[0] / SECTOR_SIZE, Address(sector) + lens[0], lens[1..])
    ensures Exact(d, sector, Address(sector), lens)
  {
    RestDecides(d, sector, lens);
  }

  lemma ExactFails(d: Disk, sector: nat, lens: seq<nat>)
    requires WellFormed(d) && lens != [] && !(lens[0] < U32 && Readable(d, Address(sector), lens[0]))
    ensures Exact(d, sector, Address(sector), lens)
  {
    ReadFirstFails(d, sector, lens);
  }

  lemma ExactNone(d: Disk, sector: nat, a: nat)
    requires WellFormed(d)
    ensures Exact(d, sector, a, [])
  {
  }

  /** Many buffers are filled from one stretch of the disk exactly when each of them can be read. */
  lemma {:induction false} ReadManyExact(d: Disk, sector: nat, lens: seq<nat>)
    requires WellFormed(d) && Aligned(lens)
    ensures Exact(d, sector, Address(sector), lens)
    decreases |lens|
  {
    if lens == [] {
      ExactNone(d, sector, Address(sector));
    } else if lens[0] < U32 && Readable(d, Address(sector), lens[0]) {
      var next := sector + lens[0] / SECTOR_SIZE;
      if |lens| == 1 {
        assert lens[1..] == [];
        ExactNone(d, next, Address(sector) + lens[0]);
      } else {
        NextAddress(sector, lens[0]);
        ReadManyExact(d, next, lens[1..]);
      }
      ExactNext(d, sector, lens);
    } else {
      ExactFails(d, sector, lens);
    }
  }

  /** A read that stays on the disk can be read, if the tables reach as far as the disk. */
  lemma {:induction false} InRangeIsReadable(d: Disk, a: nat, lens: seq<nat>)
    requires WellFormed(d) && d.size <= d.reach && a + Sum(lens) <= d.size && forall n :: n in lens ==> n < U32
    ensures AllReadable(d, a, lens)
    decreases |lens|
  {
    if lens != [] {
      assert lens[0] in lens;
      forall n | n in lens[1..]
        ensures n < U32
      {
        assert n in lens;
      }
      InRangeIsReadable(d, a + lens[0], lens[1..]);
    }
  }

  /** What a filled buffer holds. */
  ghost function Held(buffer: map<nat, nat>, n: nat): seq<nat>
    requires forall i: nat :: i < n ==> i in buffer
  {
    if n == 0 then [] else Held(buffer, n - 1) + [buffer[n - 1]]
  }

  ghost function AllHeld(d: Disk, a: nat, lens: seq<nat>, buffers: seq<map<nat, nat>>): seq<nat>
    requires AllFilled(d, a, lens, buffers)
    decreases |lens|
  {
    if lens == [] then [] else Held(buffers[0], lens[0]) + AllHeld(d, a + lens[0], lens[1..], buffers[1..])
  }

  lemma {:induction false} HeldIsStretch(d: Disk, a: nat, n: nat, buffer: map<nat, nat>)
    requires Filled(d, a, n, buffer)
    ensures Held(buffer, n) == Stretch(d, a, n)
  {
    if n != 0 {
      HeldIsStretch(d, a, n - 1, buffer);
      assert a + n - 1 == a + (n - 1);
    }
  }

  lemma {:induction false} StretchSplit(d: Disk, a: nat, m: nat, n: nat)
    ensures Stretch(d, a, m + n) == Stretch(d, a, m) + Stretch(d, a + m, n)
    decreases n
  {
    if n != 0 {
      StretchSplit(d, a, m, n - 1);
      assert a + (m + n) - 1 == a + m + n - 1;
    }
  }

  /** Filled buffers joined together are the disk, without a gap or a repeated byte. */
  lemma {:induction false} JoinedIsDisk(d: Disk, a: nat, lens: seq<nat>, buffers: seq<map<nat, nat>>)
    requires AllFilled(d, a, lens, buffers)
    ensures AllHeld(d, a, lens, buffers) == Stretch(d, a, Sum(lens))
    decreases |lens|
  {
    if lens != [] {
      JoinedIsDisk(d, a + lens[0], lens[1..], buffers[1..]);
      HeldIsStretch(d, a, lens[0], buffers[0]);
      StretchSplit(d, a, lens[0], Sum(lens[1..]));
    }
  }
}
