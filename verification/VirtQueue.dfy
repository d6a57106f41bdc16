/**
  The two rings of a virtqueue, indexed by 16-bit counters that run freely and wrap. What is proved is over
  every run of a driver and a device on the same queue.
 */
module VirtQueue {
  import opened Numbers

  datatype Elem = Elem(id: nat, len: nat)

  /** What driver and device share, and how far the device has read. */
  datatype Ring = Ring(avail: seq<nat>, availIdx: nat, used: seq<Elem>, usedIdx: nat, lastAvail: nat)

  predicate WfRing(r: Ring, num: nat)
  {
    0 < num < U16 && |r.avail| == |r.used| == num && r.availIdx < U16 && r.usedIdx < U16 && r.lastAvail < U16
  }

  // ---------------------------------------------------------------- what the device does

  predicate Available(r: Ring) { r.availIdx != r.lastAvail }

  function Head(r: Ring, num: nat): nat
    requires WfRing(r, num)
  {
    r.avail[Rem(r.lastAvail, num)]
  }

  /** The driver offers a buffer. */
  function Extended(r: Ring, num: nat, head: nat): Ring
    requires WfRing(r, num)
  {
    r.(avail := r.avail[Rem(r.availIdx, num) := head], availIdx := (r.availIdx + 1) % U16)
  }

  function Popped(r: Ring): Ring { r.(lastAvail := (r.lastAvail + 1) % U16) }

  /** Writes a used element `offset` slots ahead, not yet for the driver to see. */
  function WithUsed(r: Ring, num: nat, e: Elem, offset: nat): Ring
    requires WfRing(r, num)
  {
    r.(used := r.used[Rem((r.usedIdx + offset) % U16, num) := e])
  }

  function Advanced(r: Ring, jump: nat): Ring { r.(usedIdx := (r.usedIdx + jump) % U16) }

  class Queue {
    const num: nat
    const avail: array<nat>
    var availIdx: nat
    const used: array<Elem>
    var usedIdx: nat
    var lastAvail: nat

    ghost predicate Valid()
      reads this, avail, used
    {
      WfRing(View(), num)
    }

    ghost function View(): Ring
      reads this, avail, used
    {
      Ring(avail[..], availIdx, used[..], usedIdx, lastAvail)
    }

    constructor (num: nat)
      requires 0 < num < U16
      ensures Valid() && this.num == num && availIdx == usedIdx == lastAvail == 0 && fresh(avail) && fresh(used)
    {
      this.num := num;
      avail, used := new nat[num](_ => 0), new Elem[num](_ => Elem(0, 0));
      availIdx, usedIdx, lastAvail := 0, 0, 0;
    }

    /** The driver's side: a head goes in the next slot. */
    method Offer(head: nat)
      requires Valid()
      modifies this`availIdx, avail
      ensures Valid() && View() == Extended(old(View()), num, head)
    {
      avail[Rem(availIdx, num)] := head;
      availIdx := (availIdx + 1) % U16;
    }

    method IsAvailable() returns (b: bool)
      requires Valid()
      ensures b == Available(View())
    {
      b := availIdx != lastAvail;
    }

    method Pop() returns (head: nat)
      requires Valid()
      modifies this`lastAvail
      ensures Valid() && head == Head(old(View()), num) && View() == Popped(old(View()))
    {
      head := avail[Rem(lastAvail, num)];
      lastAvail := (lastAvail + 1) % U16;
    }

    method UsedIdxAdvance(jump: nat)
      requires Valid()
      modifies this`usedIdx
      ensures Valid() && View() == Advanced(old(View()), jump)
    {
      var idx := usedIdx;
      idx := (idx + jump) % U16;
      usedIdx := idx;
    }

    method SetUsedElemNoUpdate(head: nat, len: nat, offset: nat)
      requires Valid()
      modifies used
      ensures Valid() && View() == WithUsed(old(View()), num, Elem(head, len), offset)
    {
      var idx := usedIdx;
      idx := (idx + offset) % U16;
      used[Rem(idx, num)] := Elem(head, len);
    }

    method SetUsedElem(head: nat, len: nat)
      requires Valid()
      modifies this`usedIdx, used
      ensures Valid() && View() == Advanced(WithUsed(old(View()), num, Elem(head, len), 0), 1)
    {
      SetUsedElemNoUpdate(head, len, 0);
      UsedIdxAdvance(1);
    }
  }

  // ---------------------------------------------------------------- wrapping indices

  lemma {:induction false} WrapShift(x: nat, q: nat)
    ensures (x + q * U16) % U16 == x % U16
  {
    if q != 0 {
      WrapShift(x, q - 1);
      assert x + q * U16 == (x + (q - 1) * U16) + U16;
    }
  }

  /** Adding to a wrapped index is adding to the count it stands for. */
  lemma WrapAdd(a: nat, b: nat)
    ensures (a % U16 + b) % U16 == (a + b) % U16
  {
    var q, r := a / U16, a % U16;
    assert a + b == (r + b) + q * U16;
    WrapShift(r + b, q);
  }

  /** Two counts less than 2^16 apart have the same index only if they are the same. */
  lemma WrapEqual(a: nat, b: nat)
    requires a <= b < a + U16
    ensures a % U16 == b % U16 <==> a == b
  {
  }

  // ---------------------------------------------------------------- the queue size

  /** Wrapping an index at 2^16 never changes its slot exactly when the queue size divides 2^16. */
  lemma WrapExact(num: nat)
    requires 0 < num
    ensures (forall x: nat :: Rem(x % U16, num) == Rem(x, num)) <==> Rem(U16, num) == 0
  {
    if Rem(U16, num) == 0 {
      forall x: nat
        ensures Rem(x % U16, num) == Rem(x, num)
      {
        Wrap(x, num);
      }
    } else {
      var x: nat := U16;
      assert Rem(x % U16, num) == 0;
    }
  }

  lemma {:induction false} Wrap(x: nat, num: nat)
    requires 0 < num && Rem(U16, num) == 0
    ensures Rem(x % U16, num) == Rem(x, num)
  {
    if U16 <= x {
      Wrap(x - U16, num);
      RemSub(x, U16, num);
      WrapShift(x - U16, 1);
    }
  }

  /** Every power of two up to 2^16 does. */
  lemma {:induction false} PowerDivides(k: nat, n: nat)
    requires k <= n
    ensures Rem(Pow2(n), Pow2(k)) == 0
    decreases n
  {
    if k < n {
      PowerDivides(k, n - 1);
      RemSub(Pow2(n), Pow2(n - 1), Pow2(k));
    }
  }

  lemma {:induction false} PowerGrows(k: nat, n: nat)
    requires k < n
    ensures Pow2(k) < Pow2(n)
    decreases n
  {
    if k < n - 1 {
      PowerGrows(k, n - 1);
    }
  }

  /** So every size that VIRTIO 1.0 section 2.4 allows is fine. */
  lemma PowerOfTwoSize(k: nat)
    requires k < 16
    ensures 0 < Pow2(k) < U16 && Rem(U16, Pow2(k)) == 0
  {
    PowerDivides(k, 16);
    PowerGrows(k, 16);
    assert Pow2(8) == 16 * Pow2(4) && Pow2(4) == 16;
    assert Pow2(12) == 16 * Pow2(8) && Pow2(16) == 16 * Pow2(12);
  }

  // ---------------------------------------------------------------- runs

  /** Everything that happened, in order. */
  datatype Log = Log(published: seq<nat>, popped: seq<nat>, pending: seq<Elem>, completed: seq<Elem>,
                     reclaimed: seq<Elem>)

  /** The rings, how far the driver has read, and the history. */
  datatype State = State(ring: Ring, lastUsed: nat, log: Log)

  datatype Event =
    | Publish(head: nat)   // the driver offers a buffer
    | Pop                  // the device takes one
    | Complete(e: Elem)    // the device writes a used element behind those pending
    | Advance              // the device shows what is pending
    | Reclaim              // the driver takes a used element

  /** The driver offers at most `num` buffers at a time; the device returns only what it took. */
  predicate Enabled(s: State, num: nat, ev: Event)
  {
    match ev
    case Publish(_) => |s.log.published| - |s.log.reclaimed| < num
    case Pop => Available(s.ring)
    case Complete(_) => |s.log.completed| + |s.log.pending| < |s.log.popped|
    case Advance => true
    case Reclaim => s.ring.usedIdx != s.lastUsed
  }

  function NextRing(s: State, num: nat, ev: Event): Ring
    requires WfRing(s.ring, num)
  {
    match ev
    case Publish(head) => Extended(s.ring, num, head)
    case Pop => Popped(s.ring)
    case Complete(e) => WithUsed(s.ring, num, e, |s.log.pending|)
    case Advance => Advanced(s.ring, |s.log.pending|)
    case Reclaim => s.ring
  }

  function NextLog(s: State, num: nat, ev: Event): Log
    requires WfRing(s.ring, num)
  {
    match ev
    case Publish(head) => s.log.(published := s.log.published + [head])
    case Pop => s.log.(popped := s.log.popped + [Head(s.ring, num)])
    case Complete(e) => s.log.(pending := s.log.pending + [e])
    case Advance => s.log.(completed := s.log.completed + s.log.pending, pending := [])
    case Reclaim => s.log.(reclaimed := s.log.reclaimed + [s.ring.used[Rem(s.lastUsed, num)]])
  }

  function Next(s: State, num: nat, ev: Event): State
    requires WfRing(s.ring, num)
  {
    State(NextRing(s, num, ev), if ev.Reclaim? then (s.lastUsed + 1) % U16 else s.lastUsed, NextLog(s, num, ev))
  }

  function Init(num: nat, avail: seq<nat>, used: seq<Elem>): State
  {
    State(Ring(avail, 0, used, 0, 0), 0, Log([], [], [], [], []))
  }

  // ---------------------------------------------------------------- what every step keeps

  ghost predicate Counts(s: State, num: nat)
  {
    && WfRing(s.ring, num) && Rem(U16, num) == 0
    && |s.log.reclaimed| <= |s.log.completed| && |s.log.completed| + |s.log.pending| <= |s.log.popped|
    && |s.log.popped| <= |s.log.published| <= |s.log.reclaimed| + num
    && s.ring.availIdx == |s.log.published| % U16 && s.ring.lastAvail == |s.log.popped| % U16
    && s.ring.usedIdx == |s.log.completed| % U16 && s.lastUsed == |s.log.reclaimed| % U16
  }

  /** What is offered and not yet taken is in its slot. */
  ghost predicate AvailHolds(avail: seq<nat>, num: nat, published: seq<nat>, from: nat)
    requires 0 < num == |avail|
  {
    forall i :: from <= i < |published| ==> avail[Rem(i, num)] == published[i]
  }

  /** What is used or pending and not yet reclaimed is in its slot. */
  ghost predicate UsedHolds(used: seq<Elem>, num: nat, done: seq<Elem>, from: nat)
    requires 0 < num == |used|
  {
    forall i :: from <= i < |done| ==> used[Rem(i, num)] == done[i]
  }

  ghost predicate Inv(s: State, num: nat)
  {
    && Counts(s, num)
    && s.log.popped <= s.log.published && s.log.reclaimed <= s.log.completed
    && AvailHolds(s.ring.avail, num, s.log.published, |s.log.popped|)
    && UsedHolds(s.ring.used, num, s.log.completed + s.log.pending, |s.log.reclaimed|)
  }

  lemma InitInv(num: nat, avail: seq<nat>, used: seq<Elem>)
    requires 0 < num < U16 && |avail| == |used| == num && Rem(U16, num) == 0
    ensures Inv(Init(num, avail, used), num)
  {
  }

  /** A slot written next to those in use is none of them. */
  lemma AvailWrite(avail: seq<nat>, num: nat, published: seq<nat>, from: nat, head: nat)
    requires 0 < num == |avail| && AvailHolds(avail, num, published, from) && |published| < from + num
    ensures AvailHolds(avail[Rem(|published|, num) := head], num, published + [head], from)
  {
    forall i | from <= i < |published|
      ensures Rem(i, num) != Rem(|published|, num)
    {
      RemDistinct(i, |published|, num);
    }
  }

  lemma UsedWrite(used: seq<Elem>, num: nat, done: seq<Elem>, from: nat, e: Elem)
    requires 0 < num == |used| && UsedHolds(used, num, done, from) && |done| < from + num
    ensures UsedHolds(used[Rem(|done|, num) := e], num, done + [e], from)
  {
    forall i | from <= i < |done|
      ensures Rem(i, num) != Rem(|done|, num)
    {
      RemDistinct(i, |done|, num);
    }
  }

  lemma PublishInv(s: State, num: nat, head: nat)
    requires Inv(s, num) && Enabled(s, num, Publish(head))
    ensures Inv(Next(s, num, Publish(head)), num)
  {
    Wrap(|s.log.published|, num);
    WrapAdd(|s.log.published|, 1);
    AvailWrite(s.ring.avail, num, s.log.published, |s.log.popped|, head);
  }

  lemma PopInv(s: State, num: nat)
    requires Inv(s, num) && Enabled(s, num, Pop)
    ensures Inv(Next(s, num, Pop), num)
  {
    Wrap(|s.log.popped|, num);
    WrapAdd(|s.log.popped|, 1);
    WrapEqual(|s.log.popped|, |s.log.published|);
  }

  /** The slot `offset` ahead of the used index is the one behind everything written so far. */
  lemma CompleteSlot(r: Ring, num: nat, completed: nat, pending: nat, e: Elem)
    requires WfRing(r, num) && Rem(U16, num) == 0 && r.usedIdx == completed % U16
    ensures WithUsed(r, num, e, pending).used == r.used[Rem(completed + pending, num) := e]
  {
    WrapAdd(completed, pending);
    Wrap(completed + pending, num);
  }

  lemma CompleteInv(s: State, num: nat, e: Elem)
    requires Inv(s, num) && Enabled(s, num, Complete(e))
    ensures Inv(Next(s, num, Complete(e)), num)
  {
    var done := s.log.completed + s.log.pending;
    assert |done| == |s.log.completed| + |s.log.pending|;
    CompleteSlot(s.ring, num, |s.log.completed|, |s.log.pending|, e);
    UsedWrite(s.ring.used, num, done, |s.log.reclaimed|, e);
    assert s.log.completed + (s.log.pending + [e]) == done + [e];
  }

  lemma AdvanceInv(s: State, num: nat)
    requires Inv(s, num)
    ensures Inv(Next(s, num, Advance), num)
  {
    WrapAdd(|s.log.completed|, |s.log.pending|);
    assert s.log.completed + s.log.pending + [] == s.log.completed + s.log.pending;
  }

  lemma ReclaimInv(s: State, num: nat)
    requires Inv(s, num) && Enabled(s, num, Reclaim)
    ensures Inv(Next(s, num, Reclaim), num)
  {
    var n := |s.log.reclaimed|;
    Wrap(n, num);
    WrapAdd(n, 1);
    WrapEqual(n, |s.log.completed|);
    assert (s.log.completed + s.log.pending)[n] == s.log.completed[n];
  }

  lemma StepInv(s: State, num: nat, ev: Event)
    requires Inv(s, num) && Enabled(s, num, ev)
    ensures Inv(Next(s, num, ev), num)
  {
    match ev
    case Publish(head) => PublishInv(s, num, head);
    case Pop => PopInv(s, num);
    case Complete(e) => CompleteInv(s, num, e);
    case Advance => AdvanceInv(s, num);
    case Reclaim => ReclaimInv(s, num);
  }

  /** The states a run goes through from `s`. */
  ghost predicate Run(s: State, num: nat, events: seq<Event>)
    decreases |events|
  {
    events == [] || (WfRing(s.ring, num) && Enabled(s, num, events[0]) &&
                     Run(Next(s, num, events[0]), num, events[1..]))
  }

  ghost function After(s: State, num: nat, events: seq<Event>): State
    requires Run(s, num, events)
    decreases |events|
  {
    if events == [] then s else After(Next(s, num, events[0]), num, events[1..])
  }

  lemma {:induction false} RunInv(s: State, num: nat, events: seq<Event>)
    requires Inv(s, num) && Run(s, num, events)
    ensures Inv(After(s, num, events), num)
    decreases |events|
  {
    if events != [] {
      StepInv(s, num, events[0]);
      RunInv(Next(s, num, events[0]), num, events[1..]);
    }
  }

  /** While there is more on offer the indices tell so, and the next one in order is taken. */
  lemma NextHead(s: State, num: nat)
    requires Inv(s, num)
    ensures Available(s.ring) <==> |s.log.popped| < |s.log.published|
    ensures Available(s.ring) ==> Head(s.ring, num) == s.log.published[|s.log.popped|]
  {
    Wrap(|s.log.popped|, num);
    WrapEqual(|s.log.popped|, |s.log.published|);
  }

  /**
    However long a run is, buffers are taken once each in the order they were offered, the driver gets
    back exactly what the device wrote in the order it was shown, and a look at the indices tells whether there is more.
   */
  lemma RunInOrder(num: nat, avail: seq<nat>, used: seq<Elem>, events: seq<Event>)
    requires 0 < num < U16 && |avail| == |used| == num && Rem(U16, num) == 0
    requires Run(Init(num, avail, used), num, events)
    ensures
      var s := After(Init(num, avail, used), num, events);
      && s.log.popped <= s.log.published && s.log.reclaimed <= s.log.completed
      && (Available(s.ring) <==> |s.log.popped| < |s.log.published|)
      && (s.ring.usedIdx != s.lastUsed <==> |s.log.reclaimed| < |s.log.completed|)
      && (Available(s.ring) ==> WfRing(s.ring, num) && Head(s.ring, num) == s.log.published[|s.log.popped|])
  {
    InitInv(num, avail, used);
    RunInv(Init(num, avail, used), num, events);
    var s := After(Init(num, avail, used), num, events);
    NextHead(s, num);
    WrapEqual(|s.log.reclaimed|, |s.log.completed|);
  }

  // ---------------------------------------------------------------- other sizes fail

  lemma {:induction false} RunAppend(s: State, num: nat, events: seq<Event>, ev: Event)
    requires Run(s, num, events) && WfRing(After(s, num, events).ring, num) && Enabled(After(s, num, events), num, ev)
    ensures Run(s, num, events + [ev]) && After(s, num, events + [ev]) == Next(After(s, num, events), num, ev)
    decreases |events|
  {
    if events == [] {
      assert events + [ev] == [ev] && [ev][1..] == [];
    } else {
      RunAppend(Next(s, num, events[0]), num, events[1..], ev);
      assert (events + [ev])[1..] == events[1..] + [ev];
    }
  }

  const CYCLE := [Publish(0), Pop, Complete(Elem(0, 0)), Advance, Reclaim]

  /** Where a cycle begins, and where it is after its first, second, third and fourth event. */
  ghost predicate InCycle(s: State, num: nat, i: nat, at: nat)
  {
    && WfRing(s.ring, num) && i + (if at < 1 then 0 else 1) < U16 && at <= 4
    && |s.log.published| == s.ring.availIdx == (if at < 1 then i else i + 1)
    && |s.log.popped| == s.ring.lastAvail == (if at < 2 then i else i + 1)
    && |s.log.pending| == (if at == 3 then 1 else 0)
    && |s.log.completed| == s.ring.usedIdx == (if at < 4 then i else i + 1)
    && |s.log.reclaimed| == s.lastUsed == i
  }

  lemma CycleStep(s: State, num: nat, i: nat, at: nat)
    requires InCycle(s, num, i, at) && i + 1 < U16
    ensures Enabled(s, num, CYCLE[at])
    ensures
      var t := Next(s, num, CYCLE[at]);
      if at < 4 then InCycle(t, num, i, at + 1) else InCycle(t, num, i + 1, 0)
  {
  }

  /** `i` buffers have gone round one by one. */
  lemma {:induction false} Cycles(num: nat, avail: seq<nat>, used: seq<Elem>, i: nat) returns (events: seq<Event>)
    requires 0 < num < U16 && |avail| == |used| == num && i < U16
    ensures Run(Init(num, avail, used), num, events) && InCycle(After(Init(num, avail, used), num, events), num, i, 0)
  {
    var s := Init(num, avail, used);
    events := [];
    if i > 0 {
      events := Cycles(num, avail, used, i - 1);
      for at := 0 to 4
        invariant Run(s, num, events) && InCycle(After(s, num, events), num, i - 1, at)
      {
        CycleStep(After(s, num, events), num, i - 1, at);
        RunAppend(s, num, events, CYCLE[at]);
        events := events + [CYCLE[at]];
      }
      CycleStep(After(s, num, events), num, i - 1, 4);
      RunAppend(s, num, events, CYCLE[4]);
      events := events + [CYCLE[4]];
    }
  }

  /** The buffer 1 and then `j` buffers 0 are offered, the first of them at index `k`. */
  ghost predicate Offered(s: State, num: nat, k: nat, j: nat)
  {
    && WfRing(s.ring, num) && |s.log.reclaimed| == |s.log.popped| == k == s.ring.lastAvail
    && |s.log.published| == k + 1 + j && s.log.published[k] == 1
    && s.ring.availIdx == (k + 1 + j) % U16
    && (k + j == U16 ==> s.ring.avail[0] == 0)
  }

  lemma OfferedStep(s: State, num: nat, k: nat, j: nat)
    requires Offered(s, num, k, j) && j + 1 < num && k + j < U16
    ensures Enabled(s, num, Publish(0)) && Offered(Next(s, num, Publish(0)), num, k, j + 1)
  {
    WrapAdd(k + 1 + j, 1);
  }

  lemma {:induction false} Offers(num: nat, avail: seq<nat>, used: seq<Elem>, k: nat, j: nat)
    returns (events: seq<Event>)
    requires 0 < num < U16 && |avail| == |used| == num && j < num && k < U16 && k + j <= U16
    ensures Run(Init(num, avail, used), num, events) && Offered(After(Init(num, avail, used), num, events), num, k, j)
    decreases j
  {
    var s := Init(num, avail, used);
    if j == 0 {
      events := Cycles(num, avail, used, k);
      RunAppend(s, num, events, Publish(1));
      events := events + [Publish(1)];
    } else {
      events := Offers(num, avail, used, k, j - 1);
      OfferedStep(After(s, num, events), num, k, j - 1);
      RunAppend(s, num, events, Publish(0));
      events := events + [Publish(0)];
    }
  }

  /** A run on a queue of another size that hands out a buffer which was not the next one offered. */
  lemma OutOfOrder(num: nat, avail: seq<nat>, used: seq<Elem>) returns (events: seq<Event>)
    requires 0 < num < U16 && |avail| == |used| == num && Rem(U16, num) != 0
    ensures Run(Init(num, avail, used), num, events)
    ensures
      var log := After(Init(num, avail, used), num, events).log;
      |log.popped| <= |log.published| && !(log.popped <= log.published)
  {
    var s, r := Init(num, avail, used), Rem(U16, num);
    var k: nat := U16 - r;
    RemTaken(U16, num);
    if num == 1 {
      SmallestSize(U16);
    }
    events := Offers(num, avail, used, k, r);
    var t := After(s, num, events);
    assert t.ring.availIdx == 1 && Head(t.ring, num) == 0;
    RunAppend(s, num, events, Pop);
    events := events + [Pop];
    assert After(s, num, events).log.popped[k] == 0;
  }

  lemma {:induction false} SmallestSize(x: nat)
    ensures Rem(x, 1) == 0
  {
    if x > 0 {
      SmallestSize(x - 1);
    }
  }

  /** Every run takes buffers once each in the order they were offered exactly when the queue size divides 2^16. */
  lemma SizeExact(num: nat, avail: seq<nat>, used: seq<Elem>)
    requires 0 < num < U16 && |avail| == |used| == num
    ensures
      (forall events :: Run(Init(num, avail, used), num, events) ==>
         var log := After(Init(num, avail, used), num, events).log; log.popped <= log.published)
      <==> Rem(U16, num) == 0
  {
    if Rem(U16, num) == 0 {
      forall events | Run(Init(num, avail, used), num, events)
        ensures var log := After(Init(num, avail, used), num, events).log; log.popped <= log.published
      {
        RunInOrder(num, avail, used, events);
      }
    } else {
      var events := OutOfOrder(num, avail, used);
    }
  }

  // ---------------------------------------------------------------- a batch becomes visible at once

  /** The elements a run completes, and whether it shows them only at its end. */
  function Completions(events: seq<Event>): seq<Elem>
  {
    if events == [] then []
    else (match events[0] case Complete(e) => [e] case _ => []) + Completions(events[1..])
  }

  predicate Quiet(events: seq<Event>) { forall ev :: ev in events ==> !ev.Advance? }

  /** While a batch is written nothing of it is visible, whatever else happens. */
  lemma {:induction false} BatchHidden(s: State, num: nat, events: seq<Event>)
    requires Run(s, num, events) && Quiet(events)
    ensures
      var t := After(s, num, events);
      && t.log.completed == s.log.completed && t.ring.usedIdx == s.ring.usedIdx
      && t.log.pending == s.log.pending + Completions(events)
    decreases |events|
  {
    if events != [] {
      var t := Next(s, num, events[0]);
      assert events == [events[0]] + events[1..];
      BatchHidden(t, num, events[1..]);
    }
  }

  /** One index step then shows all of it, in order. */
  lemma BatchShows(s: State, num: nat, events: seq<Event>)
    requires Run(s, num, events) && Quiet(events) && s.log.pending == []
    requires WfRing(After(s, num, events).ring, num)
    ensures
      var t := Next(After(s, num, events), num, Advance);
      && t.log.completed == s.log.completed + Completions(events)
      && t.ring.usedIdx == (s.ring.usedIdx + |Completions(events)|) % U16
  {
    BatchHidden(s, num, events);
    assert [] + Completions(events) == Completions(events);
  }

  /** So a batch becomes visible whole, and every entry still to be read is in its slot. */
  lemma BatchVisible(s: State, num: nat, events: seq<Event>)
    requires Inv(s, num) && Run(s, num, events) && Quiet(events) && s.log.pending == []
    ensures
      var t := After(s, num, events);
      && Inv(t, num) && Enabled(t, num, Advance)
      && Next(t, num, Advance).log.completed == s.log.completed + Completions(events)
      && Next(t, num, Advance).ring.usedIdx == (s.ring.usedIdx + |Completions(events)|) % U16
  {
    RunInv(s, num, events);
    BatchShows(s, num, events);
  }
}
