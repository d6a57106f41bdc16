/**
  Walking descriptor chains: which buffers a request is made of, and when the walk ends at all.
 */
module DescChain {
  import opened Numbers
  import opened Sequences

  const DESC_SIZE := 16

  /** A descriptor: a buffer in guest memory, its flags and the descriptor it chains to. */
  datatype Desc = Desc(addr: nat, len: nat, next: nat, write: bool, chained: bool, indirect: bool)

  datatype Iovec = Iovec(base: nat, len: nat)

  /** The next descriptor of the chain, or `max` at its end. */
  function NextDesc(t: seq<Desc>, i: nat, max: nat): (n: nat)
    requires i < |t|
    ensures n <= max
  {
    if !t[i].chained then max else Min(t[i].next, max)
  }

  // ---------------------------------------------------------------- chains

  /** The indices of a whole chain in order. */
  ghost predicate Chain(t: seq<Desc>, max: nat, path: seq<nat>)
    requires max <= |t|
  {
    && path != [] && path[0] < max
    && if |path| == 1 then NextDesc(t, path[0], max) == max
       else NextDesc(t, path[0], max) == path[1] && Chain(t, max, path[1..])
  }

  /**
    What a chain is, link by link: all of it is within the table, each descriptor but the last is linked to the one
    after it, and the last is linked to none or out of the table.
   */
  lemma {:induction false} ChainMeans(t: seq<Desc>, max: nat, path: seq<nat>)
    requires max <= |t|
    ensures Chain(t, max, path) <==>
            && path != [] && (forall k :: 0 <= k < |path| ==> path[k] < max)
            && (forall k :: 0 <= k < |path| - 1 ==> t[path[k]].chained && t[path[k]].next == path[k + 1])
            && var last := t[path[|path| - 1]]; last.chained ==> max <= last.next
  {
    if |path| > 1 {
      ChainMeans(t, max, path[1..]);
      assert forall k :: 0 < k < |path| ==> path[k] == path[1..][k - 1];
      assert forall k :: 0 <= k < |path| - 1 ==> path[1..][k] == path[k + 1];
    }
  }

  /** Whether walking from `i` comes to the end within `fuel` descriptors. */
  predicate Ends(t: seq<Desc>, max: nat, i: nat, fuel: nat)
    requires i < max <= |t|
    decreases fuel
  {
    0 < fuel && (NextDesc(t, i, max) == max || Ends(t, max, NextDesc(t, i, max), fuel - 1))
  }

  lemma {:induction false} ChainFromEnds(t: seq<Desc>, max: nat, i: nat, fuel: nat) returns (path: seq<nat>)
    requires i < max <= |t| && Ends(t, max, i, fuel)
    ensures Chain(t, max, path) && path[0] == i
    decreases fuel
  {
    var next := NextDesc(t, i, max);
    if next == max {
      path := [i];
    } else {
      var rest := ChainFromEnds(t, max, next, fuel - 1);
      path := [i] + rest;
      assert path[1..] == rest;
    }
  }

  lemma {:induction false} EndsFromChain(t: seq<Desc>, max: nat, path: seq<nat>, fuel: nat)
    requires max <= |t| && Chain(t, max, path) && |path| <= fuel
    ensures Ends(t, max, path[0], fuel)
    decreases |path|
  {
    if |path| > 1 {
      EndsFromChain(t, max, path[1..], fuel - 1);
    }
  }

  /** A chain is determined by where it begins. */
  lemma {:induction false} ChainUnique(t: seq<Desc>, max: nat, p: seq<nat>, q: seq<nat>)
    requires max <= |t| && Chain(t, max, p) && Chain(t, max, q) && p[0] == q[0]
    ensures p == q
    decreases |p|
  {
    if |p| > 1 && |q| > 1 {
      ChainUnique(t, max, p[1..], q[1..]);
      assert p == [p[0]] + p[1..] && q == [q[0]] + q[1..];
    }
  }

  /** What follows a member of a chain is a chain. */
  lemma {:induction false} ChainSuffix(t: seq<Desc>, max: nat, path: seq<nat>, k: nat)
    requires max <= |t| && Chain(t, max, path) && k < |path|
    ensures Chain(t, max, path[k..]) && path[k] < max
    decreases k
  {
    if k > 0 {
      ChainSuffix(t, max, path[1..], k - 1);
      assert path[1..][k - 1..] == path[k..];
    } else {
      assert path[0..] == path;
    }
  }

  /** A chain that ends never visits a descriptor twice. */
  lemma {:induction false} ChainDistinct(t: seq<Desc>, max: nat, path: seq<nat>)
    requires max <= |t| && Chain(t, max, path)
    ensures Distinct(path)
  {
    if |path| > 1 {
      ChainDistinct(t, max, path[1..]);
      forall k | 0 < k < |path|
        ensures path[k] != path[0]
      {
        ChainSuffix(t, max, path, k);
        if path[0] == path[k] {
          ChainUnique(t, max, path, path[k..]);
          assert false;
        }
      }
    }
  }

  lemma ChainLength(t: seq<Desc>, max: nat, path: seq<nat>)
    requires max <= |t| && Chain(t, max, path)
    ensures |path| <= max
  {
    ChainDistinct(t, max, path);
    forall k | 0 <= k < |path|
      ensures path[k] < max
    {
      ChainSuffix(t, max, path, k);
    }
    Pigeonhole(path, max);
  }

  /** A walk ends exactly when it ends within as many descriptors as the table has. */
  lemma WalkEndsExact(t: seq<Desc>, max: nat, i: nat)
    requires i < max <= |t|
    ensures (exists path :: Chain(t, max, path) && path[0] == i) <==> Ends(t, max, i, max)
  {
    if path :| Chain(t, max, path) && path[0] == i {
      ChainLength(t, max, path);
      EndsFromChain(t, max, path, max);
    }
    if Ends(t, max, i, max) {
      var path := ChainFromEnds(t, max, i, max);
      assert Chain(t, max, path) && path[0] == i;
    }
  }

  // ---------------------------------------------------------------- the buffers of a chain

  function Buffer(d: Desc, toHost: nat -> nat): Iovec { Iovec(toHost(d.addr), d.len) }

  predicate Within(t: seq<Desc>, path: seq<nat>)
  {
    path == [] || (path[0] < |t| && Within(t, path[1..]))
  }

  lemma {:induction false} ChainWithin(t: seq<Desc>, max: nat, path: seq<nat>)
    requires max <= |t| && Chain(t, max, path)
    ensures Within(t, path)
  {
    if |path| > 1 {
      ChainWithin(t, max, path[1..]);
    }
  }

  lemma {:induction false} WithinAppend(t: seq<Desc>, path: seq<nat>, i: nat)
    requires Within(t, path) && i < |t|
    ensures Within(t, path + [i])
  {
    if path != [] {
      WithinAppend(t, path[1..], i);
      assert (path + [i])[1..] == path[1..] + [i];
    }
  }

  /** The buffers of a chain in chain order. */
  ghost function Buffers(t: seq<Desc>, toHost: nat -> nat, path: seq<nat>): (b: seq<Iovec>)
    requires Within(t, path)
    ensures |b| == |path|
  {
    if path == [] then [] else [Buffer(t[path[0]], toHost)] + Buffers(t, toHost, path[1..])
  }

  /** The members of a chain that the device writes, or those it reads, in chain order. */
  ghost function Select(t: seq<Desc>, path: seq<nat>, write: bool): (s: seq<nat>)
    requires Within(t, path)
    ensures Within(t, s)
  {
    if path == [] then []
    else
      var rest := Select(t, path[1..], write);
      assert ([path[0]] + rest)[1..] == rest;
      if t[path[0]].write == write then [path[0]] + rest else rest
  }

  /** The two parts make up the whole. */
  lemma {:induction false} SelectCounts(t: seq<Desc>, path: seq<nat>)
    requires Within(t, path)
    ensures |Select(t, path, true)| + |Select(t, path, false)| == |path|
    ensures multiset(Select(t, path, true)) + multiset(Select(t, path, false)) == multiset(path)
  {
    if path != [] {
      SelectCounts(t, path[1..]);
      assert path == [path[0]] + path[1..];
    }
  }

  /** Each part has the members of its kind, as often as the chain has them. */
  lemma {:induction false} SelectMeans(t: seq<Desc>, path: seq<nat>, write: bool, i: nat)
    requires Within(t, path) && i < |t|
    ensures multiset(Select(t, path, write))[i] == if t[i].write == write then multiset(path)[i] else 0
  {
    if path != [] {
      SelectMeans(t, path[1..], write, i);
      assert path == [path[0]] + path[1..];
    }
  }

  lemma {:induction false} SelectAppend(t: seq<Desc>, path: seq<nat>, i: nat, write: bool)
    requires Within(t, path) && i < |t|
    ensures Within(t, path + [i])
    ensures Select(t, path + [i], write) == Select(t, path, write) + (if t[i].write == write then [i] else [])
  {
    WithinAppend(t, path, i);
    if path != [] {
      SelectAppend(t, path[1..], i, write);
      assert (path + [i])[1..] == path[1..] + [i];
    }
  }

  lemma {:induction false} BuffersAppend(t: seq<Desc>, toHost: nat -> nat, path: seq<nat>, i: nat)
    requires Within(t, path) && i < |t|
    ensures Within(t, path + [i])
    ensures Buffers(t, toHost, path + [i]) == Buffers(t, toHost, path) + [Buffer(t[i], toHost)]
  {
    WithinAppend(t, path, i);
    if path != [] {
      BuffersAppend(t, toHost, path[1..], i);
      assert (path + [i])[1..] == path[1..] + [i];
    }
  }

  /** One more member of a chain: the part it belongs to grows by it, the other does not. */
  lemma Extend(t: seq<Desc>, toHost: nat -> nat, path: seq<nat>, i: nat)
    requires Within(t, path) && i < |t|
    ensures Within(t, path + [i])
    ensures Buffers(t, toHost, path + [i]) == Buffers(t, toHost, path) + [Buffer(t[i], toHost)]
    ensures Select(t, path + [i], !t[i].write) == Select(t, path, !t[i].write)
    ensures Select(t, path + [i], t[i].write) == Select(t, path, t[i].write) + [i]
    ensures Buffers(t, toHost, Select(t, path + [i], t[i].write)) ==
            Buffers(t, toHost, Select(t, path, t[i].write)) + [Buffer(t[i], toHost)]
  {
    BuffersAppend(t, toHost, path, i);
    SelectAppend(t, path, i, true);
    SelectAppend(t, path, i, false);
    BuffersAppend(t, toHost, Select(t, path, t[i].write), i);
  }

  /** The table a request lives in, where it begins there and how long that table is. */
  function Table(t: seq<Desc>, at: nat -> seq<Desc>, head: nat): seq<Desc>
    requires head < |t|
  {
    if t[head].indirect then at(t[head].addr) else t
  }

  function Start(t: seq<Desc>, head: nat): nat
    requires head < |t|
  {
    if t[head].indirect then 0 else head
  }

  function Max(t: seq<Desc>, head: nat): nat
    requires head < |t|
  {
    if t[head].indirect then t[head].len / DESC_SIZE % U16 else |t|
  }

  /** What a walk visits: a chain, or the first descriptor alone where the table is said to have none. */
  ghost predicate Walk(t: seq<Desc>, max: nat, path: seq<nat>)
    requires max <= |t|
  {
    if max == 0 then t != [] && path == [0] else Chain(t, max, path)
  }

  lemma WalkWithin(t: seq<Desc>, max: nat, path: seq<nat>)
    requires max <= |t| && Walk(t, max, path)
    ensures Within(t, path) && |path| <= if max == 0 then 1 else max
  {
    if max != 0 {
      ChainLength(t, max, path);
      ChainWithin(t, max, path);
    }
  }

  /** One step of a walk: it is over, or what follows is the rest of it. */
  lemma WalkNext(t: seq<Desc>, max: nat, path: seq<nat>)
    requires max <= |t| && Walk(t, max, path)
    ensures path[0] < |t| && (NextDesc(t, path[0], max) == max <==> path[1..] == [])
    ensures path[1..] != [] ==> Walk(t, max, path[1..]) && path[1] == NextDesc(t, path[0], max)
  {
    if |path| > 1 {
      ChainSuffix(t, max, path, 1);
    }
  }

  ghost predicate Request(t: seq<Desc>, at: nat -> seq<Desc>, head: nat, path: seq<nat>)
  {
    && head < |t| && Max(t, head) <= |Table(t, at, head)|
    && Walk(Table(t, at, head), Max(t, head), path) && path[0] == Start(t, head)
  }

  /** Every link of the chain stays in the table. */
  ghost predicate InRange(t: seq<Desc>, path: seq<nat>)
  {
    path == [] || (path[0] < |t| && (t[path[0]].chained ==> t[path[0]].next < |t|) && InRange(t, path[1..]))
  }

  function Shift(path: seq<nat>, o: nat): seq<nat>
  {
    if path == [] then [] else [path[0] + o] + Shift(path[1..], o)
  }

  /** Table `t` is laid into `d` from `o` on, its links moved along. */
  ghost predicate LaidInto(t: seq<Desc>, d: seq<Desc>, o: nat)
  {
    o + |t| <= |d| && forall i :: 0 <= i < |t| ==> d[o + i] == t[i].(next := t[i].next + o)
  }

  lemma {:induction false} ShiftChain(t: seq<Desc>, d: seq<Desc>, o: nat, path: seq<nat>)
    requires Chain(t, |t|, path) && InRange(t, path) && LaidInto(t, d, o)
    ensures Chain(d, |d|, Shift(path, o)) && Within(t, path) && Within(d, Shift(path, o))
  {
    var i := path[0];
    assert d[o + i] == t[i].(next := t[i].next + o);
    assert Shift(path, o)[1..] == Shift(path[1..], o);
    if |path| > 1 {
      ShiftChain(t, d, o, path[1..]);
    }
  }

  lemma {:induction false} ShiftBuffers(t: seq<Desc>, d: seq<Desc>, o: nat, toHost: nat -> nat, path: seq<nat>)
    requires Within(t, path) && Within(d, Shift(path, o)) && LaidInto(t, d, o)
    ensures Buffers(d, toHost, Shift(path, o)) == Buffers(t, toHost, path)
  {
    if path != [] {
      assert d[o + path[0]] == t[path[0]].(next := t[path[0]].next + o);
      assert Shift(path, o)[1..] == Shift(path[1..], o);
      ShiftBuffers(t, d, o, toHost, path[1..]);
    }
  }

  lemma {:induction false} ShiftSelect(t: seq<Desc>, d: seq<Desc>, o: nat, path: seq<nat>, w: bool)
    requires Within(t, path) && Within(d, Shift(path, o)) && LaidInto(t, d, o)
    ensures Select(d, Shift(path, o), w) == Shift(Select(t, path, w), o)
  {
    if path != [] {
      assert d[o + path[0]] == t[path[0]].(next := t[path[0]].next + o);
      assert Shift(path, o)[1..] == Shift(path[1..], o);
      ShiftSelect(t, d, o, path[1..], w);
      var rest := Select(t, path[1..], w);
      assert ([path[0]] + rest)[1..] == rest;
    }
  }

  /** The same descriptors in an indirect table and directly in the ring are the same request. */
  lemma {:induction false} IndirectIsDirect(t: seq<Desc>, d: seq<Desc>, o: nat, toHost: nat -> nat, path: seq<nat>)
    requires Chain(t, |t|, path) && InRange(t, path) && LaidInto(t, d, o)
    ensures Chain(d, |d|, Shift(path, o)) && Within(t, path) && Within(d, Shift(path, o))
    ensures Buffers(d, toHost, Shift(path, o)) == Buffers(t, toHost, path)
    ensures Select(d, Shift(path, o), true) == Shift(Select(t, path, true), o)
    ensures Select(d, Shift(path, o), false) == Shift(Select(t, path, false), o)
  {
    ShiftChain(t, d, o, path);
    ShiftBuffers(t, d, o, toHost, path);
    ShiftSelect(t, d, o, path, true);
    ShiftSelect(t, d, o, path, false);
  }

  /** Where the table is said to be shorter than it is, a chain of it is one still if it stays in that part. */
  lemma {:induction false} ShorterTable(t: seq<Desc>, max: nat, path: seq<nat>)
    requires max <= |t| && Chain(t, |t|, path)
    ensures Chain(t, max, path) <==> forall k :: 0 <= k < |path| ==> path[k] < max
  {
    if |path| > 1 {
      ShorterTable(t, max, path[1..]);
      assert forall k :: 0 < k < |path| ==> path[k] == path[1..][k - 1];
    }
  }

  /**
    A chain from the first descriptor of an indirect table, whose length says how many descriptors of 16 bytes it has,
    is the request exactly when it has one descriptor or stays within the number of them that 16 bits hold.
   */
  lemma IndirectExact(t: seq<Desc>, at: nat -> seq<Desc>, head: nat, path: seq<nat>)
    requires head < |t| && t[head].indirect
    requires var x := at(t[head].addr); t[head].len == 16 * |x| && Chain(x, |x|, path) && path[0] == 0
    ensures Request(t, at, head, path) <==>
            path == [0] || forall k :: 0 <= k < |path| ==> path[k] < |at(t[head].addr)| % 0x1_0000
  {
    var x := at(t[head].addr);
    assert Max(t, head) == |x| % 0x1_0000;
    ShorterTable(x, Max(t, head), path);
    if path == [0] && 0 < Max(t, head) {
      assert forall k :: 0 <= k < |path| ==> path[k] < Max(t, head);
    }
  }

  /** So every chain of a table with fewer than 65536 descriptors is. */
  lemma IndirectRequest(t: seq<Desc>, at: nat -> seq<Desc>, head: nat, path: seq<nat>)
    requires head < |t| && t[head].indirect
    requires var x := at(t[head].addr);
             t[head].len == 16 * |x| && |x| < 0x1_0000 && Chain(x, |x|, path) && path[0] == 0
    ensures Request(t, at, head, path)
  {
    var x := at(t[head].addr);
    ShorterTable(x, |x|, path);
    IndirectExact(t, at, head, path);
  }

  /** A table of 65536 descriptors is said to have none: of any longer chain only the first is the request. */
  lemma LongTableIsCut(t: seq<Desc>, at: nat -> seq<Desc>, head: nat, path: seq<nat>)
    requires head < |t| && t[head].indirect
    requires var x := at(t[head].addr);
             t[head].len == 16 * |x| && |x| == 0x1_0000 && Chain(x, |x|, path) && path[0] == 0 && |path| > 1
    ensures Request(t, at, head, [0]) && !Request(t, at, head, path)
  {
    IndirectExact(t, at, head, path);
  }

  /** The same descriptors directly in a ring: the head is where they begin, and it is not itself indirect. */
  ghost predicate SameDirectly(t: seq<Desc>, at: nat -> seq<Desc>, head: nat, d: seq<Desc>, o: nat, path: seq<nat>)
  {
    && head < |t| && t[head].indirect
    && var x := at(t[head].addr);
    && t[head].len == 16 * |x| && |x| < 0x1_0000 && Chain(x, |x|, path) && path[0] == 0
    && InRange(x, path) && LaidInto(x, d, o) && !x[0].indirect
  }

  /** Both layouts are a request, with the same buffers and the same parts. */
  lemma SameRequest(t: seq<Desc>, at: nat -> seq<Desc>, head: nat, d: seq<Desc>, o: nat, toHost: nat -> nat,
                    path: seq<nat>)
    requires SameDirectly(t, at, head, d, o, path)
    ensures Request(t, at, head, path) && Request(d, at, o, Shift(path, o)) && |Shift(path, o)| == |path|
    ensures
      var x, far := Table(t, at, head), Shift(path, o);
      && Table(d, at, o) == d && Within(x, path) && Within(d, far)
      && Buffers(d, toHost, far) == Buffers(x, toHost, path)
      && |Select(d, far, true)| == |Select(x, path, true)| && |Select(d, far, false)| == |Select(x, path, false)|
  {
    var x := at(t[head].addr);
    IndirectRequest(t, at, head, path);
    IndirectIsDirect(x, d, o, toHost, path);
    ShiftLength(path, o);
    ShiftLength(Select(x, path, true), o);
    ShiftLength(Select(x, path, false), o);
    assert d[o + 0] == x[0].(next := x[0].next + o);
  }

  lemma {:induction false} ShiftLength(path: seq<nat>, o: nat)
    ensures |Shift(path, o)| == |path|
  {
    if path != [] {
      ShiftLength(path[1..], o);
    }
  }

  method Put(iov: array<Iovec>, n: nat, b: Iovec)
    requires n < iov.Length
    modifies iov
    ensures iov[..n + 1] == old(iov[..n]) + [b]
  {
    iov[n] := b;
  }

  /** The members seen so far are counted by kind, and their buffers are listed. */
  ghost predicate Listed(t: seq<Desc>, toHost: nat -> nat, seen: seq<nat>, out: nat, inn: nat, listed: seq<Iovec>)
  {
    && Within(t, seen) && out + inn == |seen| && listed == Buffers(t, toHost, seen)
    && out == |Select(t, seen, false)| && inn == |Select(t, seen, true)|
  }

  /** Lists one more. */
  method ListOne(t: seq<Desc>, toHost: nat -> nat, i: nat, iov: array<Iovec>, out: nat, inn: nat, ghost seen: seq<nat>)
    returns (out': nat, inn': nat)
    requires i < |t| && |seen| < iov.Length && Listed(t, toHost, seen, out, inn, iov[..|seen|])
    modifies iov
    ensures Listed(t, toHost, seen + [i], out', inn', iov[..|seen| + 1])
  {
    Extend(t, toHost, seen, i);
    Put(iov, out + inn, Buffer(t[i], toHost));
    if t[i].write {
      out', inn' := out, inn + 1;
    } else {
      out', inn' := out + 1, inn;
    }
  }

  /** Lists the buffers of the request at `head`, in its own table or in an indirect one. */
  method GetHeadIov(t: seq<Desc>, at: nat -> seq<Desc>, toHost: nat -> nat, head: nat, iov: array<Iovec>,
                    ghost path: seq<nat>)
    returns (out: nat, inn: nat)
    requires Request(t, at, head, path) && |path| <= iov.Length
    modifies iov
    ensures out + inn == |path| <= if Max(t, head) == 0 then 1 else Max(t, head)
    ensures Within(Table(t, at, head), path)
    ensures out == |Select(Table(t, at, head), path, false)| && inn == |Select(Table(t, at, head), path, true)|
    ensures iov[..|path|] == Buffers(Table(t, at, head), toHost, path)
  {
    var idx, max, desc := Start(t, head), Max(t, head), Table(t, at, head);
    ghost var seen, rest := [], path;
    out, inn := 0, 0;
    WalkWithin(desc, max, path);
    while true
      invariant seen + rest == path && Walk(desc, max, rest) && idx == rest[0]
      invariant Listed(desc, toHost, seen, out, inn, iov[..|seen|])
      decreases |rest|
    {
      WalkNext(desc, max, rest);
      MoveHead(seen, rest);
      out, inn := ListOne(desc, toHost, idx, iov, out, inn, seen);
      seen, rest := seen + [idx], rest[1..];
      idx := NextDesc(desc, idx, max);
      if idx == max {
        assert seen == path;
        break;
      }
    }
  }

  /** The same descriptors in an indirect table and directly in a ring are listed alike. */
  method ListBothWays(t: seq<Desc>, at: nat -> seq<Desc>, head: nat, d: seq<Desc>, o: nat, toHost: nat -> nat,
                      near: array<Iovec>, far: array<Iovec>, ghost path: seq<nat>)
    returns (out: nat, inn: nat, out': nat, inn': nat)
    requires SameDirectly(t, at, head, d, o, path) && near != far && |path| <= near.Length && |path| <= far.Length
    modifies near, far
    ensures out == out' && inn == inn' && out + inn == |path| && near[..|path|] == far[..|path|]
    ensures Within(at(t[head].addr), path) && near[..|path|] == Buffers(at(t[head].addr), toHost, path)
  {
    SameRequest(t, at, head, d, o, toHost, path);
    out, inn := GetHeadIov(t, at, toHost, head, near, path);
    out', inn' := GetHeadIov(d, at, toHost, o, far, Shift(path, o));
  }

  /** The buffers of the members seen so far are listed by kind. */
  ghost predicate ListedApart(t: seq<Desc>, toHost: nat -> nat, seen: seq<nat>, inn: seq<Iovec>, out: seq<Iovec>)
  {
    && Within(t, seen) && |inn| + |out| == |seen|
    && inn == Buffers(t, toHost, Select(t, seen, true)) && out == Buffers(t, toHost, Select(t, seen, false))
  }

  method ListApart(t: seq<Desc>, toHost: nat -> nat, i: nat, inIov: array<Iovec>, outIov: array<Iovec>, inn: nat,
                   out: nat, ghost seen: seq<nat>)
    returns (inn': nat, out': nat)
    requires i < |t| && inIov != outIov && inn + out == |seen| < inIov.Length && |seen| < outIov.Length
    requires ListedApart(t, toHost, seen, inIov[..inn], outIov[..out])
    modifies inIov, outIov
    ensures inn' + out' == |seen| + 1 && ListedApart(t, toHost, seen + [i], inIov[..inn'], outIov[..out'])
  {
    Extend(t, toHost, seen, i);
    if t[i].write {
      Put(inIov, inn, Buffer(t[i], toHost));
      inn', out' := inn + 1, out;
    } else {
      Put(outIov, out, Buffer(t[i], toHost));
      inn', out' := inn, out + 1;
    }
  }

  /** Lists the buffers the device writes and those it reads apart, in chain order; indirect tables are not followed. */
  method GetInoutIov(t: seq<Desc>, toHost: nat -> nat, head: nat, inIov: array<Iovec>, outIov: array<Iovec>,
                     ghost path: seq<nat>)
    returns (inn: nat, out: nat)
    requires Chain(t, |t|, path) && path[0] == head && InRange(t, path)
    requires |path| <= inIov.Length && |path| <= outIov.Length && inIov != outIov
    modifies inIov, outIov
    ensures inn + out == |path| && Within(t, path)
    ensures inIov[..inn] == Buffers(t, toHost, Select(t, path, true))
    ensures outIov[..out] == Buffers(t, toHost, Select(t, path, false))
  {
    var idx := head;
    ghost var seen, rest := [], path;
    inn, out := 0, 0;
    ChainWithin(t, |t|, path);
    while true
      invariant seen + rest == path && Chain(t, |t|, rest) && InRange(t, rest) && idx == rest[0] && inn + out == |seen|
      invariant ListedApart(t, toHost, seen, inIov[..inn], outIov[..out])
      decreases |rest|
    {
      MoveHead(seen, rest);
      inn, out := ListApart(t, toHost, idx, inIov, outIov, inn, out, seen);
      seen, rest := seen + [idx], rest[1..];
      if t[idx].chained {
        idx := t[idx].next;
      } else {
        assert seen == path;
        break;
      }
    }
  }
}
