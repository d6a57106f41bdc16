/**
  Receiving a packet into as many guest buffers as it takes, and copying bytes over an iovec.
 */
module NetReceive {
  import opened Numbers
  import opened Sequences
  import opened VirtQueue

  const NUM_BUFFERS := 10 // where the header counts the buffers, in two bytes
  const HDR_SIZE := 12

  type Bytes = seq<nat>

  function Concat(s: seq<Bytes>): Bytes { if s == [] then [] else s[0] + Concat(s[1..]) }

  function Size(lens: seq<nat>): nat { if lens == [] then 0 else lens[0] + Size(lens[1..]) }

  // ---------------------------------------------------------------- one chain

  /** What is copied to each piece of an iovec: as much as it takes, from the first piece on. */
  function Spread(lens: seq<nat>, data: Bytes): (s: seq<Bytes>)
    ensures |s| == |lens|
    decreases |lens|
  {
    if lens == [] then []
    else
      var n := Min(lens[0], |data|);
      [data[..n]] + Spread(lens[1..], data[n..])
  }

  /** Nothing is lost, no piece overflows, and a piece is used only when those before it are full. */
  lemma {:induction false} SpreadWhole(lens: seq<nat>, data: Bytes)
    requires |data| <= Size(lens)
    ensures Concat(Spread(lens, data)) == data
    ensures forall i :: 0 <= i < |lens| ==> |Spread(lens, data)[i]| <= lens[i]
    ensures forall i, j :: 0 <= i < j < |lens| && Spread(lens, data)[j] != [] ==> |Spread(lens, data)[i]| == lens[i]
    decreases |lens|
  {
    if lens != [] {
      var n := Min(lens[0], |data|);
      SpreadWhole(lens[1..], data[n..]);
      assert Spread(lens, data)[1..] == Spread(lens[1..], data[n..]);
      assert data == data[..n] + data[n..];
      if n == |data| {
        SpreadNothing(lens[1..]);
      }
    }
  }

  lemma {:induction false} SpreadNothing(lens: seq<nat>)
    ensures forall i :: 0 <= i < |lens| ==> Spread(lens, [])[i] == []
  {
    if lens != [] {
      SpreadNothing(lens[1..]);
    }
  }

  /** Copies the data over the pieces of an iovec; empty pieces are passed over. */
  method MemcpyToIovec(lens: seq<nat>, data: Bytes) returns (out: seq<Bytes>)
    requires |data| <= Size(lens)
    ensures out == Spread(lens, data)
  {
    var rest, i := data, 0;
    out := [];
    assert lens[0..] == lens && out + Spread(lens, data) == Spread(lens, data);
    while |rest| > 0
      invariant 0 <= i <= |lens| && |rest| <= Size(lens[i..])
      invariant out + Spread(lens[i..], rest) == Spread(lens, data) && |out| == i
      decreases |lens| - i
    {
      var n := 0;
      assert lens[i..][0] == lens[i] && lens[i..][1..] == lens[i + 1..];
      if lens[i] != 0 {
        n := Min(lens[i], |rest|);
      }
      assert out + ([rest[..n]] + Spread(lens[i + 1..], rest[n..])) ==
             (out + [rest[..n]]) + Spread(lens[i + 1..], rest[n..]);
      out := out + [rest[..n]];
      rest := rest[n..];
      i := i + 1;
    }
    SpreadNothing(lens[i..]);
    out := out + seq(|lens| - i, _ => []);
  }

  // ---------------------------------------------------------------- many chains

  function Capacity(chains: seq<seq<nat>>): nat { if chains == [] then 0 else Size(chains[0]) + Capacity(chains[1..]) }

  /** The part of a packet that each chain gets; chains are taken until the packet is used up. */
  function Deal(chains: seq<seq<nat>>, packet: Bytes): (d: seq<Bytes>)
    ensures |d| <= |chains|
    decreases |chains|
  {
    if packet == [] || chains == [] then []
    else
      var n := Min(Size(chains[0]), |packet|);
      [packet[..n]] + Deal(chains[1..], packet[n..])
  }

  /** No byte is lost or repeated, no chain overflows, and only the last may have room left. */
  lemma {:induction false} DealWhole(chains: seq<seq<nat>>, packet: Bytes)
    requires |packet| <= Capacity(chains)
    ensures Concat(Deal(chains, packet)) == packet
    ensures forall k :: 0 <= k < |Deal(chains, packet)| ==> |Deal(chains, packet)[k]| <= Size(chains[k])
    ensures forall k :: 0 <= k < |Deal(chains, packet)| - 1 ==> |Deal(chains, packet)[k]| == Size(chains[k])
    decreases |chains|
  {
    if packet != [] && chains != [] {
      var n := Min(Size(chains[0]), |packet|);
      DealWhole(chains[1..], packet[n..]);
      assert packet == packet[..n] + packet[n..];
      var d, rest := Deal(chains, packet), Deal(chains[1..], packet[n..]);
      assert d[0] == packet[..n] && d[1..] == rest;
      forall k | 0 < k < |d|
        ensures |d[k]| <= Size(chains[k]) && (k < |d| - 1 ==> |d[k]| == Size(chains[k]))
      {
        assert d[k] == rest[k - 1] && chains[k] == chains[1..][k - 1];
      }
    }
  }

  /** The buffers of each chain after its part is copied there. */
  function Filled(chains: seq<seq<nat>>, parts: seq<Bytes>): (f: seq<seq<Bytes>>)
    requires |parts| <= |chains|
    ensures |f| == |parts|
  {
    if parts == [] then [] else [Spread(chains[0], parts[0])] + Filled(chains[1..], parts[1..])
  }

  function ConcatAll(f: seq<seq<Bytes>>): Bytes { if f == [] then [] else Concat(f[0]) + ConcatAll(f[1..]) }

  lemma {:induction false} FilledWhole(chains: seq<seq<nat>>, parts: seq<Bytes>)
    requires |parts| <= |chains| && forall k :: 0 <= k < |parts| ==> |parts[k]| <= Size(chains[k])
    ensures ConcatAll(Filled(chains, parts)) == Concat(parts)
  {
    if parts != [] {
      SpreadWhole(chains[0], parts[0]);
      forall k | 0 <= k < |parts| - 1
        ensures |parts[1..][k]| <= Size(chains[1..][k])
      {
        assert parts[1..][k] == parts[k + 1] && chains[1..][k] == chains[k + 1];
      }
      FilledWhole(chains[1..], parts[1..]);
    }
  }

  // ---------------------------------------------------------------- the count in the header

  /** The two bytes of the count. */
  function CountByte(n: nat, at: nat): nat { if at == NUM_BUFFERS then n % 256 else n / 256 % 256 }

  function Patched(bytes: Bytes, at: nat, b: nat): (r: Bytes)
    ensures |r| == |bytes|
  {
    if at < |bytes| then bytes[at := b] else bytes
  }

  /** Some bytes with the count written where the header has it, as far as they reach. */
  function Counted(bytes: Bytes, n: nat): (r: Bytes)
    ensures |r| == |bytes|
  {
    Patched(Patched(bytes, NUM_BUFFERS, CountByte(n, NUM_BUFFERS)), NUM_BUFFERS + 1, CountByte(n, NUM_BUFFERS + 1))
  }

  /** How much of the packet the first piece of the first chain got. */
  function FirstPiece(f: seq<seq<Bytes>>): nat { if f == [] || f[0] == [] then 0 else |f[0][0]| }

  /** The count is written where the first piece begins. */
  function WithCount(f: seq<seq<Bytes>>, n: nat): seq<seq<Bytes>>
  {
    if f == [] || f[0] == [] then f else f[0 := f[0][0 := Counted(f[0][0], n)]]
  }

  /** The bytes of the count that do not fall on the packet, by their distance from where the first piece begins. */
  function Stray(first: nat, n: nat): (m: map<nat, nat>)
    ensures forall at :: at in m <==> first <= at && (at == NUM_BUFFERS || at == NUM_BUFFERS + 1)
    ensures forall at :: at in m ==> m[at] == CountByte(n, at)
  {
    if NUM_BUFFERS + 1 < first then map[]
    else if NUM_BUFFERS < first then map[NUM_BUFFERS + 1 := CountByte(n, NUM_BUFFERS + 1)]
    else map[NUM_BUFFERS := CountByte(n, NUM_BUFFERS), NUM_BUFFERS + 1 := CountByte(n, NUM_BUFFERS + 1)]
  }

  /** Writing the count changes the packet there, as far as the first piece goes, and nowhere else. */
  lemma WithCountIsCounted(f: seq<seq<Bytes>>, n: nat)
    ensures FirstPiece(f) <= |ConcatAll(f)|
    ensures ConcatAll(WithCount(f, n)) == Counted(ConcatAll(f)[..FirstPiece(f)], n) + ConcatAll(f)[FirstPiece(f)..]
  {
    if f != [] && f[0] != [] {
      var a := f[0][0];
      ConcatFirst(f, a);
      ConcatFirst(f, Counted(a, n));
      assert f[0 := f[0][0 := a]] == f by {
        assert f[0][0 := a] == f[0];
      }
      var tail := Concat(f[0][1..]) + ConcatAll(f[1..]);
      assert (a + tail)[..|a|] == a && (a + tail)[|a|..] == tail;
    }
  }

  /** The first piece comes first, whatever it holds. */
  lemma ConcatFirst(f: seq<seq<Bytes>>, a: Bytes)
    requires f != [] && f[0] != []
    ensures ConcatAll(f[0 := f[0][0 := a]]) == a + (Concat(f[0][1..]) + ConcatAll(f[1..]))
  {
    var g := f[0 := f[0][0 := a]];
    assert g[1..] == f[1..] && g[0][1..] == f[0][1..] && g[0][0] == a;
    assert a + Concat(f[0][1..]) + ConcatAll(f[1..]) == a + (Concat(f[0][1..]) + ConcatAll(f[1..]));
  }

  /** The count that the guest reads in the header, once the pieces are joined, is the number written there. */
  lemma CountedExact(packet: Bytes, first: nat, n: nat)
    requires first <= |packet| && n < U16
    ensures HDR_SIZE <= first ==>
      var g := Counted(packet[..first], n) + packet[first..];
      && g[NUM_BUFFERS] + 256 * g[NUM_BUFFERS + 1] == n
      && (forall i :: 0 <= i < |packet| && i != NUM_BUFFERS && i != NUM_BUFFERS + 1 ==> g[i] == packet[i])
    ensures Stray(first, n) == map[] <==> HDR_SIZE <= first
  {
    if first < HDR_SIZE {
      assert NUM_BUFFERS + 1 in Stray(first, n);
    }
  }

  // ---------------------------------------------------------------- the receive loop

  /** How far a packet has been copied, what is used of each chain so far, and what is in their pieces. */
  datatype Progress = Progress(copied: nat, used: seq<nat>, f: seq<seq<Bytes>>)

  /** One more chain takes as much as it can. */
  function Copied(packet: Bytes, p: Progress, chain: seq<nat>): Progress
    requires p.copied <= |packet|
  {
    var n := Min(|packet| - p.copied, Size(chain));
    Progress(p.copied + n, p.used + [n], p.f + [Spread(chain, packet[p.copied..p.copied + n])])
  }

  function CopiedAll(packet: Bytes, p: Progress, chains: seq<seq<nat>>): Progress
    requires p.copied <= |packet|
    decreases |chains|
  {
    if p.copied == |packet| || chains == [] then p else CopiedAll(packet, Copied(packet, p, chains[0]), chains[1..])
  }

  function Lengths(parts: seq<Bytes>): (l: seq<nat>)
    ensures |l| == |parts|
  {
    if parts == [] then [] else [|parts[0]|] + Lengths(parts[1..])
  }

  lemma {:induction false} LengthsSum(parts: seq<Bytes>)
    ensures Size(Lengths(parts)) == |Concat(parts)|
  {
    if parts != [] {
      LengthsSum(parts[1..]);
    }
  }

  /** What the first chain takes comes first. */
  lemma DealtFirst(chains: seq<seq<nat>>, left: Bytes, n: nat)
    requires chains != [] && left != [] && n == Min(Size(chains[0]), |left|)
    ensures
      var parts, rest := Deal(chains, left), Deal(chains[1..], left[n..]);
      && Lengths(parts) == [n] + Lengths(rest)
      && Filled(chains, parts) == [Spread(chains[0], left[..n])] + Filled(chains[1..], rest)
  {
    var rest := Deal(chains[1..], left[n..]);
    assert ([left[..n]] + rest)[1..] == rest;
  }

  lemma SplitAt(s: Bytes, i: nat, n: nat)
    requires i + n <= |s|
    ensures s[i..][..n] == s[i..i + n] && s[i..][n..] == s[i + n..]
  {
  }

  /** Chain by chain, the packet is dealt out. */
  lemma {:induction false} CopiedIsDealt(packet: Bytes, p: Progress, chains: seq<seq<nat>>)
    requires p.copied <= |packet| && |packet| - p.copied <= Capacity(chains)
    ensures
      var parts := Deal(chains, packet[p.copied..]);
      CopiedAll(packet, p, chains) == Progress(|packet|, p.used + Lengths(parts), p.f + Filled(chains, parts))
    decreases |chains|
  {
    if p.copied < |packet| && chains != [] {
      var left, q := packet[p.copied..], Copied(packet, p, chains[0]);
      var n := Min(Size(chains[0]), |left|);
      CopiedIsDealt(packet, q, chains[1..]);
      DealtFirst(chains, left, n);
      SplitAt(packet, p.copied, n);
      var rest := Deal(chains[1..], left[n..]);
      Associate(p.used, [n], Lengths(rest));
      Associate(p.f, [Spread(chains[0], left[..n])], Filled(chains[1..], rest));
    }
  }

  // ---------------------------------------------------------------- the queue

  /** The pieces of the chains that some heads stand for. */
  function Chains(lens: nat -> seq<nat>, heads: seq<nat>): (c: seq<seq<nat>>)
    ensures |c| == |heads|
  {
    if heads == [] then [] else [lens(heads[0])] + Chains(lens, heads[1..])
  }

  /** The elements that give back some heads with how much of each is used. */
  ghost predicate Answers(e: seq<Elem>, heads: seq<nat>, used: seq<nat>)
  {
    |e| == |used| <= |heads| && forall i :: 0 <= i < |e| ==> e[i] == Elem(heads[i], used[i])
  }

  /** What is offered in a state of the run model and not taken yet. */
  ghost function Offered(s: State): seq<nat>
  {
    if |s.log.popped| <= |s.log.published| then s.log.published[|s.log.popped|..] else []
  }

  /** The heads a receive goes through: what is offered, then what the driver offers while the device waits. */
  ghost function Coming(s: State, later: seq<nat>): seq<nat> { Offered(s) + later }

  /** The driver may offer all of that with no buffer coming back. */
  ghost predicate Fits(s: State, num: nat, later: seq<nat>)
  {
    |s.log.published| + |later| <= |s.log.reclaimed| + num
  }

  /**
    A batch so far: the driver has offered some more, some of what was offered has been taken, all of it but the last
    perhaps written back, and nothing shown.
   */
  ghost predicate Batch(s: State, later: seq<nat>, num: nat, events: seq<Event>, t: State, given: nat, popped: nat,
                        used: seq<nat>)
  {
    && Run(s, num, events) && t == After(s, num, events) && Inv(t, num) && Quiet(events)
    && |used| <= popped <= |Offered(s)| + given && given <= |later|
    && |s.log.popped| <= |s.log.published| && t.log.published == s.log.published + later[..given]
    && t.log.popped == s.log.popped + Coming(s, later)[..popped]
    && Answers(t.log.pending, Coming(s, later), used) && t.log.completed == s.log.completed
    && t.log.reclaimed == s.log.reclaimed && |s.log.completed| <= |s.log.popped|
  }

  lemma OneMore(base: seq<nat>, more: seq<nat>, n: nat)
    requires n < |more|
    ensures base + more[..n + 1] == base + more[..n] + [more[n]]
  {
  }

  lemma AnswersAppend(e: seq<Elem>, heads: seq<nat>, used: seq<nat>, n: nat)
    requires Answers(e, heads, used) && |used| < |heads|
    ensures Answers(e + [Elem(heads[|used|], n)], heads, used + [n])
  {
  }

  lemma QuietAppend(events: seq<Event>, ev: Event)
    requires Quiet(events) && !ev.Advance?
    ensures Quiet(events + [ev])
  {
  }

  lemma BatchStart(s: State, later: seq<nat>, num: nat)
    requires Inv(s, num) && s.log.pending == []
    ensures Batch(s, later, num, [], s, 0, 0, [])
  {
    assert s.log.popped + Coming(s, later)[..0] == s.log.popped;
    assert s.log.published + later[..0] == s.log.published;
  }

  lemma BatchPublish(s: State, later: seq<nat>, num: nat, events: seq<Event>, t: State, given: nat, popped: nat,
                     used: seq<nat>)
    requires Batch(s, later, num, events, t, given, popped, used) && Fits(s, num, later) && given < |later|
    ensures
      var ev := Publish(later[given]);
      && WfRing(t.ring, num) && Enabled(t, num, ev)
      && Batch(s, later, num, events + [ev], Next(t, num, ev), given + 1, popped, used)
  {
    var ev := Publish(later[given]);
    PublishInv(t, num, later[given]);
    RunAppend(s, num, events, ev);
    QuietAppend(events, ev);
    OneMore(s.log.published, later, given);
  }

  /** Whether there is a head to take, and which. */
  lemma BatchHead(s: State, later: seq<nat>, num: nat, events: seq<Event>, t: State, given: nat, popped: nat,
                  used: seq<nat>)
    requires Batch(s, later, num, events, t, given, popped, used)
    ensures WfRing(t.ring, num) && (Available(t.ring) <==> popped < |Offered(s)| + given)
    ensures Available(t.ring) ==> Head(t.ring, num) == Coming(s, later)[popped]
  {
    NextHead(t, num);
  }

  lemma BatchPop(s: State, later: seq<nat>, num: nat, events: seq<Event>, t: State, given: nat, popped: nat,
                 used: seq<nat>)
    requires Batch(s, later, num, events, t, given, popped, used) && popped < |Offered(s)| + given
    ensures WfRing(t.ring, num) && Enabled(t, num, Pop) && Head(t.ring, num) == Coming(s, later)[popped]
    ensures Batch(s, later, num, events + [Pop], Next(t, num, Pop), given, popped + 1, used)
  {
    BatchHead(s, later, num, events, t, given, popped, used);
    PopInv(t, num);
    RunAppend(s, num, events, Pop);
    QuietAppend(events, Pop);
    OneMore(s.log.popped, Coming(s, later), popped);
  }

  lemma BatchUse(s: State, later: seq<nat>, num: nat, events: seq<Event>, t: State, given: nat, popped: nat,
                 used: seq<nat>, n: nat)
    requires Batch(s, later, num, events, t, given, popped, used) && |used| < popped
    ensures
      var e := Elem(Coming(s, later)[|used|], n);
      && WfRing(t.ring, num) && Enabled(t, num, Complete(e))
      && Batch(s, later, num, events + [Complete(e)], Next(t, num, Complete(e)), given, popped, used + [n])
  {
    var e := Elem(Coming(s, later)[|used|], n);
    CompleteInv(t, num, e);
    RunAppend(s, num, events, Complete(e));
    QuietAppend(events, Complete(e));
    AnswersAppend(t.log.pending, Coming(s, later), used, n);
  }

  /** Takes the next head from the queue, after waiting for the driver to offer one if there is none. */
  method TakeHead(q: Queue, later: seq<nat>, given: nat, ghost s: State, ghost events: seq<Event>, ghost t: State,
                  ghost popped: nat, ghost used: seq<nat>)
    returns (head: nat, given': nat, ghost events': seq<Event>, ghost t': State)
    requires q.Valid() && Batch(s, later, q.num, events, t, given, popped, used) && t.ring == q.View()
    requires Fits(s, q.num, later) && popped < |Coming(s, later)|
    modifies q`lastAvail, q`availIdx, q.avail
    ensures q.Valid() && Batch(s, later, q.num, events', t', given', popped + 1, used) && t'.ring == q.View()
    ensures head == Coming(s, later)[popped]
    ensures given' == if popped < |Offered(s)| + given then given else given + 1
  {
    given', events', t' := given, events, t;
    BatchHead(s, later, q.num, events, t, given, popped, used);
    var ready := q.IsAvailable();
    if !ready {
      given', events', t' := Wait(q, later, given, s, events, t, popped, used);
    }
    BatchPop(s, later, q.num, events', t', given', popped, used);
    events', t' := events' + [Pop], Next(t', q.num, Pop);
    head := q.Pop();
  }

  /** Waits until the driver has offered one more. */
  method Wait(q: Queue, later: seq<nat>, given: nat, ghost s: State, ghost events: seq<Event>, ghost t: State,
              ghost popped: nat, ghost used: seq<nat>)
    returns (given': nat, ghost events': seq<Event>, ghost t': State)
    requires q.Valid() && Batch(s, later, q.num, events, t, given, popped, used) && t.ring == q.View()
    requires Fits(s, q.num, later) && given < |later|
    modifies q`availIdx, q.avail
    ensures q.Valid() && Batch(s, later, q.num, events', t', given', popped, used) && t'.ring == q.View()
    ensures given' == given + 1
  {
    BatchPublish(s, later, q.num, events, t, given, popped, used);
    given', events', t' := given + 1, events + [Publish(later[given])], Next(t, q.num, Publish(later[given]));
    q.Offer(later[given]);
  }

  /** Writes the used element of the last head taken. */
  method GiveBack(q: Queue, head: nat, n: nat, numBuffers: nat, ghost later: seq<nat>, ghost given: nat,
                  ghost s: State, ghost events: seq<Event>, ghost t: State, ghost popped: nat, ghost used: seq<nat>)
    returns (ghost events': seq<Event>, ghost t': State)
    requires q.Valid() && Batch(s, later, q.num, events, t, given, popped, used) && t.ring == q.View()
    requires |used| < popped && head == Coming(s, later)[|used|] && numBuffers == |used|
    modifies q.used
    ensures q.Valid() && Batch(s, later, q.num, events', t', given, popped, used + [n]) && t'.ring == q.View()
  {
    BatchUse(s, later, q.num, events, t, given, popped, used, n);
    events', t' := events + [Complete(Elem(head, n))], Next(t, q.num, Complete(Elem(head, n)));
    q.SetUsedElemNoUpdate(head, n, numBuffers);
  }

  /** Copies as much of the packet as one chain takes. */
  method CopyPart(packet: Bytes, p: Progress, chain: seq<nat>) returns (n: nat, q: Progress)
    requires p.copied <= |packet|
    ensures q == Copied(packet, p, chain) && n == q.copied - p.copied && q.used == p.used + [n]
  {
    n := Min(|packet| - p.copied, Size(chain));
    var out := MemcpyToIovec(chain, packet[p.copied..p.copied + n]);
    q := Progress(p.copied + n, p.used + [n], p.f + [out]);
  }

  /** The rest of the packet goes to the rest of the chains, which have room for it. */
  ghost predicate Going(lens: nat -> seq<nat>, heads: seq<nat>, packet: Bytes, p: Progress, all: Progress)
  {
    && p.copied <= |packet| && |p.used| <= |heads|
    && |packet| - p.copied <= Capacity(Chains(lens, heads[|p.used|..]))
    && CopiedAll(packet, p, Chains(lens, heads[|p.used|..])) == all
  }

  lemma GoingStart(lens: nat -> seq<nat>, heads: seq<nat>, packet: Bytes)
    requires |packet| <= Capacity(Chains(lens, heads))
    ensures Going(lens, heads, packet, Progress(0, [], []), CopiedAll(packet, Progress(0, [], []), Chains(lens, heads)))
  {
    assert heads[0..] == heads;
  }

  lemma GoingStep(lens: nat -> seq<nat>, heads: seq<nat>, packet: Bytes, p: Progress, all: Progress)
    requires Going(lens, heads, packet, p, all) && p.copied < |packet|
    ensures |p.used| < |heads| && Going(lens, heads, packet, Copied(packet, p, lens(heads[|p.used|])), all)
  {
    GoingMore(lens, heads, packet, p, all);
    assert heads[|p.used|..][1..] == heads[|p.used| + 1..];
    assert Chains(lens, heads[|p.used|..])[1..] == Chains(lens, heads[|p.used| + 1..]);
  }

  lemma GoingMore(lens: nat -> seq<nat>, heads: seq<nat>, packet: Bytes, p: Progress, all: Progress)
    requires Going(lens, heads, packet, p, all) && p.copied < |packet|
    ensures |p.used| < |heads|
  {
    assert Chains(lens, []) == [] && heads[|heads|..] == [];
  }

  /** The receive loop: where it is in the packet and the chains, which head it holds, and what it did to the queue. */
  ghost predicate Copying(q: Queue, s: State, later: seq<nat>, lens: nat -> seq<nat>, packet: Bytes, all: Progress,
                          given: nat, popped: nat, head: nat, p: Progress, events: seq<Event>, t: State)
    reads q, q.avail, q.used
  {
    && q.Valid() && Batch(s, later, q.num, events, t, given, popped, p.used) && t.ring == q.View()
    && Going(lens, Coming(s, later), packet, p, all)
    && popped == (if p.copied < |packet| || packet == [] then |p.used| + 1 else |p.used|)
    && (p.copied < |packet| ==> |p.used| < |Coming(s, later)| && head == Coming(s, later)[|p.used|])
    && (given == 0 || popped == |Offered(s)| + given)
  }

  /** Fills the chain of the head and writes its used element. */
  method FillHead(q: Queue, lens: nat -> seq<nat>, packet: Bytes, head: nat, p: Progress, ghost later: seq<nat>,
                  ghost given: nat, ghost popped: nat, ghost s: State, ghost all: Progress, ghost events: seq<Event>,
                  ghost t: State)
    returns (p': Progress, ghost events': seq<Event>, ghost t': State)
    requires Copying(q, s, later, lens, packet, all, given, popped, head, p, events, t) && p.copied < |packet|
    modifies q.used
    ensures q.Valid() && Batch(s, later, q.num, events', t', given, popped, p'.used) && t'.ring == q.View()
    ensures Going(lens, Coming(s, later), packet, p', all) && |p'.used| == |p.used| + 1 == popped
  {
    GoingStep(lens, Coming(s, later), packet, p, all);
    var n;
    n, p' := CopyPart(packet, p, lens(head));
    events', t' := GiveBack(q, head, n, |p.used|, later, given, s, events, t, popped, p.used);
  }

  /** One turn: fills the chain of the head, and takes the next head if there is more to copy. */
  method CopyTurn(q: Queue, later: seq<nat>, lens: nat -> seq<nat>, packet: Bytes, given: nat, popped: nat, head: nat,
                  p: Progress, ghost s: State, ghost all: Progress, ghost events: seq<Event>, ghost t: State)
    returns (given': nat, popped': nat, head': nat, p': Progress, ghost events': seq<Event>, ghost t': State)
    requires Copying(q, s, later, lens, packet, all, given, popped, head, p, events, t) && p.copied < |packet|
    requires Fits(s, q.num, later)
    modifies q`lastAvail, q`availIdx, q.avail, q.used
    ensures Copying(q, s, later, lens, packet, all, given', popped', head', p', events', t')
    ensures |p'.used| == |p.used| + 1
  {
    p', events', t' := FillHead(q, lens, packet, head, p, later, given, popped, s, all, events, t);
    given', popped', head' := given, popped, head;
    if p'.copied < |packet| {
      GoingMore(lens, Coming(s, later), packet, p', all);
      head', given', events', t' := TakeHead(q, later, given, s, events', t', popped, p'.used);
      popped' := popped + 1;
    }
  }

  /** Copies a packet to the chains that come next, and writes how much of each is used without showing it. */
  method CopyPacket(q: Queue, later: seq<nat>, lens: nat -> seq<nat>, packet: Bytes, ghost s: State)
    returns (given: nat, popped: nat, p: Progress, ghost events: seq<Event>, ghost t: State)
    requires q.Valid() && Inv(s, q.num) && s.ring == q.View() && s.log.pending == [] && Offered(s) != []
    requires Fits(s, q.num, later) && |packet| <= Capacity(Chains(lens, Coming(s, later)))
    modifies q`lastAvail, q`availIdx, q.avail, q.used
    ensures p == CopiedAll(packet, Progress(0, [], []), Chains(lens, Coming(s, later)))
    ensures popped == if packet == [] then 1 else |p.used|
    ensures q.Valid() && Batch(s, later, q.num, events, t, given, popped, p.used) && t.ring == q.View()
    ensures given == 0 || popped == |Offered(s)| + given
  {
    ghost var all := CopiedAll(packet, Progress(0, [], []), Chains(lens, Coming(s, later)));
    GoingStart(lens, Coming(s, later), packet);
    BatchStart(s, later, q.num);
    var head;
    head, given, events, t := TakeHead(q, later, 0, s, [], s, 0, []);
    popped, p := 1, Progress(0, [], []);
    while p.copied < |packet|
      invariant Copying(q, s, later, lens, packet, all, given, popped, head, p, events, t)
      decreases |Coming(s, later)| - |p.used|
    {
      given, popped, head, p, events, t :=
        CopyTurn(q, later, lens, packet, given, popped, head, p, s, all, events, t);
    }
  }

  /**
    Receives one packet into the chains that are offered next, and waits for the driver to offer more of them whenever
    there is none left. Every chain that was taken is given back, except that an empty packet loses one. The driver
    sees all of it at the last event, and nothing before. With merged buffers the count is written from where the first
    piece begins, whether or not that piece holds it.
   */
  method Receive(q: Queue, later: seq<nat>, lens: nat -> seq<nat>, packet: Bytes, merge: bool, ghost s: State)
    returns (given: nat, popped: nat, used: seq<nat>, f: seq<seq<Bytes>>, stray: map<nat, nat>,
             ghost events: seq<Event>)
    requires q.Valid() && Inv(s, q.num) && s.ring == q.View() && s.log.pending == [] && Offered(s) != []
    requires Fits(s, q.num, later) && |packet| <= Capacity(Chains(lens, Coming(s, later)))
    requires lens(Offered(s)[0]) != []
    modifies q`lastAvail, q`availIdx, q`usedIdx, q.avail, q.used
    ensures |used| == |f| && Size(used) == |packet|
    ensures popped >= |used| && (popped == |used| <==> packet != [])
    ensures
      var first := Min(lens(Offered(s)[0])[0], |packet|);
      && (merge ==> ConcatAll(f) == Counted(packet[..first], |used|) + packet[first..] && stray == Stray(first, |used|))
      && (!merge ==> ConcatAll(f) == packet && stray == map[])
      && (merge && HDR_SIZE <= first ==> ConcatAll(f)[NUM_BUFFERS] + 256 * ConcatAll(f)[NUM_BUFFERS + 1] == |used|)
    ensures merge ==> (stray == map[] <==> HDR_SIZE <= |packet| && HDR_SIZE <= lens(Offered(s)[0])[0])
    ensures q.Valid() && Run(s, q.num, events) && After(s, q.num, events).ring == q.View()
    ensures Inv(After(s, q.num, events), q.num) && events != [] && Quiet(events[..|events| - 1])
    ensures given <= |later| && popped <= |Offered(s)| + given && (given == 0 || popped == |Offered(s)| + given)
    ensures
      var log := After(s, q.num, events).log;
      && s.log.completed <= log.completed
      && Answers(log.completed[|s.log.completed|..], Coming(s, later), used) && log.pending == []
      && log.popped == s.log.popped + Coming(s, later)[..popped]
      && log.published == s.log.published + later[..given]
  {
    var p;
    ghost var t;
    given, popped, p, events, t := CopyPacket(q, later, lens, packet, s);
    used, f, stray := p.used, p.f, map[];
    PacketCopied(lens, Coming(s, later), packet);
    if merge {
      WithCountIsCounted(f, |used|);
      ComingFew(s, later, q.num);
      CountedExact(packet, FirstPiece(f), |used|);
      f, stray := WithCount(f, |used|), Stray(FirstPiece(f), |used|);
    }
    AdvanceInv(t, q.num);
    RunAppend(s, q.num, events, Advance);
    q.UsedIdxAdvance(|used|);
    assert (events + [Advance])[..|events|] == events;
    events := events + [Advance];
  }

  /** A receive goes through at most as many chains as the queue has slots. */
  lemma ComingFew(s: State, later: seq<nat>, num: nat)
    requires Inv(s, num) && Fits(s, num, later)
    ensures |Coming(s, later)| <= num < U16
  {
  }

  /** What the whole loop leaves: the packet in the pieces, from the first one on, and lengths that add up to it. */
  lemma PacketCopied(lens: nat -> seq<nat>, heads: seq<nat>, packet: Bytes)
    requires heads != [] && lens(heads[0]) != [] && |packet| <= Capacity(Chains(lens, heads))
    ensures
      var p := CopiedAll(packet, Progress(0, [], []), Chains(lens, heads));
      && ConcatAll(p.f) == packet && Size(p.used) == |packet| && |p.used| == |p.f|
      && (p.used == [] <==> packet == []) && FirstPiece(p.f) == Min(lens(heads[0])[0], |packet|)
  {
    var chains := Chains(lens, heads);
    var parts := Deal(chains, packet);
    WholeIsDealt(chains, packet);
    DealWhole(chains, packet);
    LengthsSum(parts);
    FilledWhole(chains, parts);
    FirstPieceIs(chains, packet);
  }

  lemma WholeIsDealt(chains: seq<seq<nat>>, packet: Bytes)
    requires |packet| <= Capacity(chains)
    ensures
      var parts := Deal(chains, packet);
      CopiedAll(packet, Progress(0, [], []), chains) == Progress(|packet|, Lengths(parts), Filled(chains, parts))
  {
    assert packet[0..] == packet;
    CopiedIsDealt(packet, Progress(0, [], []), chains);
  }

  lemma FirstPieceIs(chains: seq<seq<nat>>, packet: Bytes)
    requires chains != [] && chains[0] != []
    ensures FirstPiece(Filled(chains, Deal(chains, packet))) == Min(chains[0][0], |packet|)
    ensures Deal(chains, packet) == [] <==> packet == []
  {
  }

  /** A byte of the count falls outside the first piece exactly when that is too short for the header. */
  lemma StrayOutside(packet: Bytes, piece: nat, n: nat)
    ensures (exists at :: at in Stray(Min(piece, |packet|), n) && piece <= at) <==> piece < HDR_SIZE
  {
    if piece < HDR_SIZE {
      assert NUM_BUFFERS + 1 in Stray(Min(piece, |packet|), n);
    }
  }

  /**
    A first piece of 11 bytes: the high byte of the count falls behind it, and the guest's header keeps what was
    there.
   */
  lemma ShortPieceStrays(packet: Bytes)
    requires |packet| == 20 && packet[NUM_BUFFERS + 1] == 7
    ensures Stray(Min(11, |packet|), 1) == map[NUM_BUFFERS + 1 := 0]
    ensures (Counted(packet[..11], 1) + packet[11..])[NUM_BUFFERS] == 1
    ensures (Counted(packet[..11], 1) + packet[11..])[NUM_BUFFERS + 1] == 7
  {
  }
}
