/**
  What the interrupt controller keeps on every run: a deferred interrupt is deferred for a reason, and an
  interrupt that has been raised is not lost.
 */
module XicsSafety {
  import opened Xics

  // ---------------------------------------------------------------- no missed delivery

  /**
    What is presented is more favoured than the CPU's priority. If it is a source, the source is masked by now, or it is
    meant for this CPU and is no more favoured now than when it was presented.
   */
  ghost predicate Fair(st: State, s: nat)
    requires s < |st.ss|
  {
    var x := st.ss[s];
    x.xisr != 0 ==>
      && x.pending < x.cppr
      && (x.xisr >= OFFSET && x.xisr - OFFSET < |st.irqs| ==>
            var i := st.irqs[x.xisr - OFFSET]; i.priority == MASKED || (i.server == s && x.pending <= i.priority))
  }

  /** A wanted IPI that could be delivered gives way only to something at least as favoured. */
  predicate IpiServed(x: Server)
  {
    x.mfrr < x.cppr ==> x.xisr != 0 && x.pending <= x.mfrr
  }

  /** A rejected source that is not masked is held back for a reason. */
  ghost predicate Deferred(st: State, k: nat)
    requires k < |st.irqs|
  {
    var i := st.irqs[k];
    i.rejected && i.priority != MASKED && i.server < |st.ss| ==> Held(st.ss[i.server], i.priority)
  }

  /** Everything but the sources from `k` on. */
  ghost predicate DeliveredTo(st: State, k: nat)
  {
    && Wf(st)
    && (forall s :: 0 <= s < |st.ss| ==> Fair(st, s) && IpiServed(st.ss[s]))
    && (forall j :: 0 <= j < k && j < |st.irqs| ==> Deferred(st, j))
  }

  ghost predicate Delivered(st: State)
  {
    DeliveredTo(st, |st.irqs|)
  }

  /** Presenting or rejecting source `j` at its server leaves it, and whatever it displaces, held for a reason. */
  lemma IrqDelivers(st: State, j: nat, k: nat)
    requires DeliveredTo(st, k) && j < |st.irqs| && st.irqs[j].priority != MASKED
    ensures
      var st' := Irq(st, st.irqs[j].server, OFFSET + j, st.irqs[j].priority);
      DeliveredTo(st', k) && Deferred(st', j) && |st'.irqs| == |st.irqs|
  {
    var s, p := st.irqs[j].server, st.irqs[j].priority;
    var st' := Irq(st, s, OFFSET + j, p);
    IrqWf(st, s, OFFSET + j, p);
    IrqFair(st, j, k);
    forall i | 0 <= i < |st'.irqs| && (i == j || i < k) ensures Deferred(st', i) {
      assert i < k ==> Deferred(st, i);
      assert Fair(st, s);
    }
  }

  lemma IrqFair(st: State, j: nat, k: nat)
    requires DeliveredTo(st, k) && j < |st.irqs| && st.irqs[j].priority != MASKED
    ensures
      var st' := Irq(st, st.irqs[j].server, OFFSET + j, st.irqs[j].priority);
      forall r :: 0 <= r < |st'.ss| ==> Fair(st', r) && IpiServed(st'.ss[r])
  {
    var st' := Irq(st, st.irqs[j].server, OFFSET + j, st.irqs[j].priority);
    forall r | 0 <= r < |st'.ss| ensures Fair(st', r) && IpiServed(st'.ss[r]) {
      assert Fair(st, r);
    }
  }

  lemma ResendOneDelivers(st: State, k: nat)
    requires DeliveredTo(st, k) && k < |st.irqs|
    ensures DeliveredTo(ResendOne(st, k), k + 1)
  {
    var i := st.irqs[k];
    ResendOneWf(st, k);
    if i.rejected {
      var st1 := st.(irqs := st.irqs[k := i.(rejected := false)]);
      assert DeliveredTo(st1, k) by {
        forall r | 0 <= r < |st1.ss| ensures Fair(st1, r) {
          assert Fair(st, r);
        }
        forall j | 0 <= j < k ensures Deferred(st1, j) {
          assert Deferred(st, j);
        }
      }
      if i.priority != MASKED {
        IrqDelivers(st1, k, k);
      }
    }
  }

  /** The resend loop leaves no source deferred without a reason, whatever they were before. */
  lemma {:induction false} ResendDelivers(st: State, k: nat)
    requires DeliveredTo(st, k) && k <= |st.irqs|
    ensures Delivered(ResendFrom(st, k))
    decreases |st.irqs| - k
  {
    if k < |st.irqs| {
      ResendOneWf(st, k);
      ResendOneDelivers(st, k);
      ResendDelivers(ResendOne(st, k), k + 1);
    }
  }

  lemma CheckIpiDelivers(st: State, s: nat, k: nat)
    requires Wf(st) && s < |st.ss| && st.ss[s].mfrr < st.ss[s].cppr
    requires forall r :: 0 <= r < |st.ss| ==> Fair(st, r) && (r != s ==> IpiServed(st.ss[r]))
    requires forall j :: 0 <= j < k && j < |st.irqs| ==> Deferred(st, j)
    ensures DeliveredTo(CheckIpi(st, s), k)
  {
    CheckIpiWf(st, s);
    var st' := CheckIpi(st, s);
    forall j | 0 <= j < k && j < |st'.irqs| ensures Deferred(st', j) {
      assert Deferred(st, j);
    }
  }

  /** With nothing presented, a resend serves the IPI and the sources. */
  lemma ResendServes(st: State, s: nat)
    requires Wf(st) && s < |st.ss| && st.ss[s].xisr == 0
    requires forall r :: 0 <= r < |st.ss| ==> Fair(st, r) && (r != s ==> IpiServed(st.ss[r]))
    ensures Delivered(Resend(st, s))
  {
    if st.ss[s].mfrr < st.ss[s].cppr {
      CheckIpiWf(st, s);
      CheckIpiDelivers(st, s, 0);
      ResendDelivers(CheckIpi(st, s), 0);
    } else {
      ResendDelivers(st, 0);
    }
  }

  lemma SetCpprDelivers(st: State, s: nat, cppr: nat)
    requires Delivered(st) && s < |st.ss| && cppr <= 0xff
    ensures Delivered(SetCppr(st, s, cppr))
  {
    var x, st1 := st.ss[s], WithCppr(st, s, cppr);
    if cppr >= x.cppr && x.xisr == 0 {
      ResendServes(st1, s);
    } else if cppr < x.cppr && x.xisr != 0 && cppr <= x.pending {
      CpprRejects(st, s, cppr);
    } else {
      var st' := SetCppr(st, s, cppr);
      forall j | 0 <= j < |st'.irqs| ensures Deferred(st', j) {
        assert Deferred(st, j);
      }
    }
  }

  /** A priority that what is presented does not meet sends it back. */
  lemma CpprRejects(st: State, s: nat, cppr: nat)
    requires Delivered(st) && s < |st.ss| && cppr < st.ss[s].cppr && st.ss[s].xisr != 0 && cppr <= st.ss[s].pending
    ensures Delivered(SetCppr(st, s, cppr))
  {
    var st' := SetCppr(st, s, cppr);
    forall j | 0 <= j < |st'.irqs| ensures Deferred(st', j) {
      assert Deferred(st, j);
    }
    forall r | 0 <= r < |st'.ss| ensures Fair(st', r) && IpiServed(st'.ss[r]) {
      assert Fair(st, r);
    }
  }

  lemma SetMfrrDelivers(st: State, s: nat, mfrr: nat)
    requires Delivered(st) && s < |st.ss| && mfrr <= 0xff
    ensures Delivered(SetMfrr(st, s, mfrr))
  {
    var st1 := st.(ss := st.ss[s := st.ss[s].(mfrr := mfrr)]);
    forall j | 0 <= j < |st1.irqs| ensures Deferred(st1, j) {
      assert Deferred(st, j);
    }
    if mfrr < st.ss[s].cppr {
      CheckIpiDelivers(st1, s, |st.irqs|);
    }
  }

  lemma AcceptDelivers(st: State, s: nat)
    requires Delivered(st) && s < |st.ss| && st.ss[s].xisr != 0
    ensures Delivered(Accept(st, s))
  {
    var st' := Accept(st, s);
    forall j | 0 <= j < |st'.irqs| ensures Deferred(st', j) {
      assert Deferred(st, j);
    }
  }

  lemma RaiseDelivers(st: State, k: nat)
    requires Delivered(st) && k < |st.irqs|
    ensures Delivered(Raise(st, k))
  {
    if st.irqs[k].priority != MASKED {
      IrqDelivers(st, k, |st.irqs|);
    } else {
      var st' := Raise(st, k);
      forall j | 0 <= j < |st'.irqs| ensures Deferred(st', j) {
        assert Deferred(st, j);
      }
    }
  }

  /** The source is presented to some CPU. */
  ghost predicate Presented(st: State, k: nat)
  {
    exists s :: 0 <= s < |st.ss| && st.ss[s].xisr == OFFSET + k
  }

  // ---------------------------------------------------------------- where the properties can fail

  /** Accepting with nothing presented is harmless only if the stale pending priority holds back all that waits. */
  ghost predicate StaleHolds(st: State, s: nat)
    requires s < |st.ss|
  {
    && st.ss[s].pending <= st.ss[s].mfrr
    && (forall k :: 0 <= k < |st.irqs| && st.irqs[k].rejected && st.irqs[k].priority != MASKED && st.irqs[k].server == s
          ==> st.ss[s].pending <= st.irqs[k].priority)
  }

  lemma SpuriousAcceptExact(st: State, s: nat)
    requires Delivered(st) && s < |st.ss| && st.ss[s].xisr == 0
    ensures Delivered(Accept(st, s)) <==> StaleHolds(st, s)
  {
    var st' := Accept(st, s);
    if StaleHolds(st, s) {
      forall j | 0 <= j < |st'.irqs| ensures Deferred(st', j) {
        assert Deferred(st, j);
      }
    }
    if Delivered(st') {
      assert IpiServed(st'.ss[s]);
      forall k | 0 <= k < |st.irqs| && st.irqs[k].rejected && st.irqs[k].priority != MASKED && st.irqs[k].server == s
        ensures st.ss[s].pending <= st.irqs[k].priority
      {
        assert Deferred(st', k);
      }
    }
  }

  /** An end of interrupt is harmful exactly when it puts the CPU's priority at or above what is presented. */
  lemma EoiExact(st: State, s: nat, cppr: nat)
    requires Delivered(st) && s < |st.ss| && cppr <= 0xff
    ensures Delivered(Eoi(st, s, cppr)) <==> st.ss[s].xisr == 0 || st.ss[s].pending < cppr
  {
    var st1 := WithCppr(st, s, cppr);
    if st.ss[s].xisr == 0 {
      ResendServes(st1, s);
    } else {
      assert Fair(st1, s) ==> st.ss[s].pending < cppr;
      if st.ss[s].pending < cppr {
        forall j | 0 <= j < |st1.irqs| ensures Deferred(st1, j) {
          assert Deferred(st, j);
        }
      }
    }
  }

  /**
    Masking a source is harmless. Otherwise, where the source is presented it must stay meant for that CPU, and must not
    become more favoured unless it is sent again; where it only waits, its new server must hold it back.
   */
  ghost predicate XiveHarmless(st: State, k: nat, server: nat, priority: nat)
    requires k < |st.irqs| && server < |st.ss|
  {
    priority != MASKED ==>
      && (forall s :: 0 <= s < |st.ss| && st.ss[s].xisr == OFFSET + k ==>
            s == server && (st.irqs[k].masked || st.ss[s].pending <= priority))
      && (st.irqs[k].rejected && !st.irqs[k].masked ==> Held(st.ss[server], priority))
  }

  lemma XiveExact(st: State, k: nat, server: nat, priority: nat)
    requires Delivered(st) && k < |st.irqs| && server < |st.ss| && priority <= 0xff
    ensures Delivered(WriteXive(st, k, server, priority)) <==> XiveHarmless(st, k, server, priority)
  {
    if st.irqs[k].masked && priority != MASKED {
      XiveSends(st, k, server, priority);
    } else {
      XiveStores(st, k, server, priority);
    }
  }

  /** Only the source changes. */
  lemma XiveStores(st: State, k: nat, server: nat, priority: nat)
    requires Delivered(st) && k < |st.irqs| && server < |st.ss| && priority <= 0xff
    requires !st.irqs[k].masked || priority == MASKED
    ensures Delivered(WriteXive(st, k, server, priority)) <==> XiveHarmless(st, k, server, priority)
  {
    var st1 := WriteXive(st, k, server, priority);
    forall j | 0 <= j < |st1.irqs| && j != k ensures Deferred(st1, j) {
      assert Deferred(st, j);
    }
    forall s | 0 <= s < |st1.ss| && st.ss[s].xisr != OFFSET + k ensures Fair(st1, s) {
      assert Fair(st, s);
    }
    if XiveHarmless(st, k, server, priority) {
      forall s | 0 <= s < |st1.ss| ensures Fair(st1, s) {
        assert Fair(st, s);
      }
    }
    if Delivered(st1) {
      assert Deferred(st1, k);
      forall s | 0 <= s < |st.ss| && st.ss[s].xisr == OFFSET + k ensures Fair(st1, s) {
      }
    }
  }

  /** The source was pending behind its mask and is sent now. */
  lemma XiveSends(st: State, k: nat, server: nat, priority: nat)
    requires Delivered(st) && k < |st.irqs| && server < |st.ss| && priority <= 0xff
    requires st.irqs[k].masked && priority != MASKED
    ensures Delivered(WriteXive(st, k, server, priority)) <==> XiveHarmless(st, k, server, priority)
  {
    var st1 := WriteXive(st, k, server, priority);
    WriteXiveWf(st, k, server, priority);
    forall j | 0 <= j < |st1.irqs| ensures Deferred(st1, j) {
      assert Deferred(st, j);
      assert Fair(st, server);
    }
    forall s | 0 <= s < |st1.ss| ensures Fair(st1, s) <==> st.ss[s].xisr == OFFSET + k ==> s == server {
      assert Fair(st, s);
    }
  }

  // ---------------------------------------------------------------- runs

  /** The exact conditions under which each call keeps everything delivered. */
  ghost predicate Polite(st: State, ev: Event)
    requires Wf(st) && Possible(st, ev)
  {
    match ev
    case Xirr(cpu) => st.ss[cpu].xisr != 0 || StaleHolds(st, cpu)
    case EndOfIrq(cpu, xirr) => st.ss[cpu].xisr == 0 || st.ss[cpu].pending < CpprOf(xirr)
    case Xive(nr, server, priority) =>
      ValidXive(st, nr, server, priority) ==> XiveHarmless(st, nr - OFFSET, server, priority)
    case _ => true
  }

  lemma AcceptExact(st: State, cpu: nat)
    requires Delivered(st) && cpu < |st.ss|
    ensures Delivered(Accept(st, cpu)) <==> st.ss[cpu].xisr != 0 || StaleHolds(st, cpu)
  {
    if st.ss[cpu].xisr != 0 {
      AcceptDelivers(st, cpu);
    } else {
      SpuriousAcceptExact(st, cpu);
    }
  }

  /** The calls that need a condition. */
  lemma GuardedStepExact(st: State, ev: Event)
    requires Delivered(st) && Possible(st, ev) && (ev.Xirr? || ev.EndOfIrq? || ev.Xive?)
    ensures Delivered(Step(st, ev)) <==> Polite(st, ev)
  {
    match ev
    case Xirr(cpu) => AcceptExact(st, cpu);
    case EndOfIrq(cpu, xirr) => EoiExact(st, cpu, CpprOf(xirr));
    case Xive(nr, server, priority) =>
      if ValidXive(st, nr, server, priority) {
        XiveExact(st, nr - OFFSET, server, priority);
      }
  }

  lemma StepExact(st: State, ev: Event)
    requires Delivered(st) && Possible(st, ev)
    ensures Delivered(Step(st, ev)) <==> Polite(st, ev)
  {
    if ev.Cppr? {
      SetCpprDelivers(st, ev.cpu, ev.value % 0x100);
    } else if ev.Ipi? {
      if ev.server < |st.ss| {
        SetMfrrDelivers(st, ev.server, ev.value % 0x100);
      }
    } else if ev.Line? {
      RaiseDelivers(st, ev.irq - OFFSET);
    } else {
      GuardedStepExact(st, ev);
    }
  }

  ghost predicate PoliteRun(st: State, evs: seq<Event>)
    requires Wf(st) && PossibleRun(st, evs)
    decreases |evs|
  {
    evs == [] || (Polite(st, evs[0]) && (StepWf(st, evs[0]); PoliteRun(Step(st, evs[0]), evs[1..])))
  }

  ghost predicate DeliveredAlong(st: State, evs: seq<Event>)
    requires Wf(st) && PossibleRun(st, evs)
    decreases |evs|
  {
    Delivered(st) && (evs == [] || (StepWf(st, evs[0]); DeliveredAlong(Step(st, evs[0]), evs[1..])))
  }

  /** Delivery stays fair all along a run exactly when the run is polite. */
  lemma {:induction false} NoMissedDelivery(st: State, evs: seq<Event>)
    requires Delivered(st) && PossibleRun(st, evs)
    ensures DeliveredAlong(st, evs) <==> PoliteRun(st, evs)
    ensures PoliteRun(st, evs) ==> Delivered(Run(st, evs))
    decreases |evs|
  {
    if evs != [] {
      StepWf(st, evs[0]);
      StepExact(st, evs[0]);
      if Polite(st, evs[0]) {
        NoMissedDelivery(Step(st, evs[0]), evs[1..]);
      }
    }
  }

  lemma InitDelivered(servers: nat, sources: nat)
    requires 0 < servers && OFFSET + sources <= U24
    ensures Delivered(Init(servers, sources))
  {
  }

  // ---------------------------------------------------------------- conservation

  /** A raised interrupt is on record: presented, waiting to be resent, or waiting to be unmasked. */
  ghost predicate Recorded(st: State, k: nat)
    requires k < |st.irqs|
  {
    Presented(st, k) || st.irqs[k].rejected || st.irqs[k].masked
  }

  /** What is presented or waiting to be resent is not masked. */
  ghost predicate Unmasked(st: State, k: nat)
    requires k < |st.irqs|
  {
    Presented(st, k) || st.irqs[k].rejected ==> st.irqs[k].priority != MASKED
  }

  /** One state change drops no record of source `k`, and masks it only if it is free to be. */
  ghost predicate Keeps(st: State, st': State, k: nat)
    requires k < |st.irqs| && k < |st'.irqs|
  {
    (Recorded(st, k) ==> Recorded(st', k)) && (Unmasked(st, k) ==> Unmasked(st', k))
  }

  lemma IrqKeeps(st: State, j: nat, server: nat, priority: nat, k: nat)
    requires Wf(st) && server < |st.ss| && j < |st.irqs| && k < |st.irqs| && st.irqs[j].priority != MASKED
    ensures
      var st' := Irq(st, server, OFFSET + j, priority);
      |st'.irqs| == |st.irqs| && Keeps(st, st', k) && Recorded(st', j)
  {
    var st' := Irq(st, server, OFFSET + j, priority);
    if !Held(st.ss[server], priority) {
      assert st'.ss[server].xisr == OFFSET + j;
    }
    if Presented(st, k) && !st'.irqs[k].rejected {
      var s :| 0 <= s < |st.ss| && st.ss[s].xisr == OFFSET + k;
      assert st'.ss[s].xisr == OFFSET + k;
    }
    if Presented(st', k) && k != j {
      var s :| 0 <= s < |st'.ss| && st'.ss[s].xisr == OFFSET + k;
      assert st.ss[s].xisr == OFFSET + k;
    }
  }

  /** Nor does presenting another source put `k` on record. */
  lemma IrqForgets(st: State, j: nat, server: nat, priority: nat, k: nat)
    requires Wf(st) && server < |st.ss| && j < |st.irqs| && k < |st.irqs| && j != k
    ensures
      var st' := Irq(st, server, OFFSET + j, priority);
      |st'.irqs| == |st.irqs| && (Presented(st', k) ==> Presented(st, k)) && (Recorded(st', k) ==> Recorded(st, k))
  {
    var st' := Irq(st, server, OFFSET + j, priority);
    if Presented(st', k) {
      var s :| 0 <= s < |st'.ss| && st'.ss[s].xisr == OFFSET + k;
      assert st.ss[s].xisr == OFFSET + k;
    }
    if st'.irqs[k].rejected && !st.irqs[k].rejected {
      assert st.ss[server].xisr == OFFSET + k;
    }
  }

  lemma CheckIpiKeeps(st: State, server: nat, k: nat)
    requires Wf(st) && server < |st.ss| && k < |st.irqs|
    ensures |CheckIpi(st, server).irqs| == |st.irqs| && Keeps(st, CheckIpi(st, server), k)
  {
    var st' := CheckIpi(st, server);
    if Presented(st, k) && !st'.irqs[k].rejected {
      var s :| 0 <= s < |st.ss| && st.ss[s].xisr == OFFSET + k;
      assert st'.ss[s].xisr == OFFSET + k;
    }
    if Presented(st', k) {
      var s :| 0 <= s < |st'.ss| && st'.ss[s].xisr == OFFSET + k;
      assert st.ss[s].xisr == OFFSET + k;
    }
  }

  /** A turn of the resend loop drops its source exactly when that is masked and on record nowhere else. */
  lemma ResendOneExact(st: State, j: nat, k: nat)
    requires Wf(st) && j < |st.irqs| && k < |st.irqs|
    ensures |ResendOne(st, j).irqs| == |st.irqs|
    ensures j != k ==> Keeps(st, ResendOne(st, j), k)
    ensures Recorded(st, k) && j == k ==>
      (Recorded(ResendOne(st, j), k) <==>
       !(st.irqs[k].rejected && st.irqs[k].priority == MASKED && !st.irqs[k].masked && !Presented(st, k)))
    ensures Unmasked(st, k) ==> Keeps(st, ResendOne(st, j), k)
  {
    var i := st.irqs[j];
    if i.rejected {
      var st1 := st.(irqs := st.irqs[j := i.(rejected := false)]);
      assert Presented(st1, k) <==> Presented(st, k);
      if i.priority != MASKED {
        IrqKeeps(st1, j, i.server, i.priority, k);
      }
    }
  }

  lemma {:induction false} ResendKeeps(st: State, j: nat, k: nat)
    requires Wf(st) && j <= |st.irqs| && k < |st.irqs| && Unmasked(st, k)
    ensures Keeps(st, ResendFrom(st, j), k)
    decreases |st.irqs| - j
  {
    if j < |st.irqs| {
      ResendOneWf(st, j);
      ResendOneExact(st, j, k);
      ResendKeeps(ResendOne(st, j), j + 1, k);
    }
  }

  lemma LoweredKeeps(st: State, s: nat, cppr: nat, k: nat)
    requires Wf(st) && s < |st.ss| && cppr < st.ss[s].cppr && k < |st.irqs|
    ensures |SetCppr(st, s, cppr).irqs| == |st.irqs| && Keeps(st, SetCppr(st, s, cppr), k)
  {
    var st' := SetCppr(st, s, cppr);
    if Presented(st, k) && !st'.irqs[k].rejected {
      var r :| 0 <= r < |st.ss| && st.ss[r].xisr == OFFSET + k;
      assert st'.ss[r].xisr == OFFSET + k;
    }
    if Presented(st', k) {
      var r :| 0 <= r < |st'.ss| && st'.ss[r].xisr == OFFSET + k;
      assert st.ss[r].xisr == OFFSET + k;
    }
  }

  lemma SetCpprKeeps(st: State, s: nat, cppr: nat, k: nat)
    requires Wf(st) && s < |st.ss| && cppr <= 0xff && k < |st.irqs| && Unmasked(st, k)
    ensures |SetCppr(st, s, cppr).irqs| == |st.irqs| && Keeps(st, SetCppr(st, s, cppr), k)
  {
    var st1 := WithCppr(st, s, cppr);
    SetCpprWf(st, s, cppr);
    SamePresented(st, st1, k);
    if cppr >= st.ss[s].cppr {
      if st.ss[s].xisr == 0 {
        ResendBothKeep(st1, s, k);
      }
    } else {
      LoweredKeeps(st, s, cppr, k);
    }
  }

  lemma SamePresented(st: State, st1: State, k: nat)
    requires |st.ss| == |st1.ss| && forall s :: 0 <= s < |st.ss| ==> st1.ss[s].xisr == st.ss[s].xisr
    ensures Presented(st, k) <==> Presented(st1, k)
  {
    if Presented(st, k) {
      var r :| 0 <= r < |st.ss| && st.ss[r].xisr == OFFSET + k;
      assert st1.ss[r].xisr == OFFSET + k;
    }
  }

  lemma ResendBothKeep(st: State, s: nat, k: nat)
    requires Wf(st) && s < |st.ss| && k < |st.irqs| && Unmasked(st, k)
    ensures |Resend(st, s).irqs| == |st.irqs| && Keeps(st, Resend(st, s), k)
  {
    if st.ss[s].mfrr < st.ss[s].cppr {
      CheckIpiWf(st, s);
      CheckIpiKeeps(st, s, k);
      ResendKeeps(CheckIpi(st, s), 0, k);
    } else {
      ResendKeeps(st, 0, k);
    }
  }

  lemma SetMfrrKeeps(st: State, s: nat, mfrr: nat, k: nat)
    requires Wf(st) && s < |st.ss| && mfrr <= 0xff && k < |st.irqs|
    ensures |SetMfrr(st, s, mfrr).irqs| == |st.irqs| && Keeps(st, SetMfrr(st, s, mfrr), k)
  {
    var st1 := st.(ss := st.ss[s := st.ss[s].(mfrr := mfrr)]);
    SamePresented(st, st1, k);
    if mfrr < st.ss[s].cppr {
      CheckIpiKeeps(st1, s, k);
    }
  }

  lemma EoiKeeps(st: State, s: nat, cppr: nat, k: nat)
    requires Wf(st) && s < |st.ss| && cppr <= 0xff && k < |st.irqs| && Unmasked(st, k)
    ensures |Eoi(st, s, cppr).irqs| == |st.irqs| && Keeps(st, Eoi(st, s, cppr), k)
  {
    var st1 := WithCppr(st, s, cppr);
    SamePresented(st, st1, k);
    if st.ss[s].xisr == 0 {
      ResendBothKeep(st1, s, k);
    }
  }

  lemma AcceptKeeps(st: State, s: nat, k: nat)
    requires s < |st.ss| && k < |st.irqs| && st.ss[s].xisr != OFFSET + k
    ensures Keeps(st, Accept(st, s), k)
  {
    var st' := Accept(st, s);
    if Presented(st, k) {
      var r :| 0 <= r < |st.ss| && st.ss[r].xisr == OFFSET + k;
      assert st'.ss[r].xisr == OFFSET + k;
    }
    if Presented(st', k) {
      var r :| 0 <= r < |st'.ss| && st'.ss[r].xisr == OFFSET + k;
      assert st.ss[r].xisr == OFFSET + k;
    }
  }

  lemma RaiseKeeps(st: State, j: nat, k: nat)
    requires Wf(st) && j < |st.irqs| && k < |st.irqs|
    ensures |Raise(st, j).irqs| == |st.irqs| && Keeps(st, Raise(st, j), k) && Recorded(Raise(st, j), j)
  {
    if st.irqs[j].priority != MASKED {
      IrqKeeps(st, j, st.irqs[j].server, st.irqs[j].priority, k);
    } else {
      SamePresented(st, Raise(st, j), k);
    }
  }

  lemma WriteXiveKeeps(st: State, j: nat, server: nat, priority: nat, k: nat)
    requires Wf(st) && j < |st.irqs| && server < |st.ss| && priority <= 0xff && k < |st.irqs|
    requires j == k && priority == MASKED ==> !Presented(st, k) && !st.irqs[k].rejected
    ensures |WriteXive(st, j, server, priority).irqs| == |st.irqs|
    ensures Keeps(st, WriteXive(st, j, server, priority), k)
  {
    var i := st.irqs[j].(server := server, priority := priority);
    SamePresented(st, st.(irqs := st.irqs[j := i]), k);
    if i.masked && priority != MASKED {
      var st1 := st.(irqs := st.irqs[j := i.(masked := false)]);
      SamePresented(st, st1, k);
      IrqKeeps(st1, j, server, priority, k);
    }
  }

  /** The call returns the number of source `k`. */
  predicate Takes(st: State, ev: Event, k: nat)
  {
    ev.Xirr? && ev.cpu < |st.ss| && st.ss[ev.cpu].xisr == OFFSET + k
  }

  /** The call does not mask source `k` while it is presented or waiting to be resent. */
  ghost predicate Spares(st: State, ev: Event, k: nat)
    requires k < |st.irqs|
  {
    ev.Xive? && ev.nr == OFFSET + k && ev.priority == MASKED ==> !Presented(st, k) && !st.irqs[k].rejected
  }

  lemma StepKeeps(st: State, ev: Event, k: nat)
    requires Wf(st) && Possible(st, ev) && k < |st.irqs| && Unmasked(st, k) && Spares(st, ev, k) && !Takes(st, ev, k)
    ensures |Step(st, ev).irqs| == |st.irqs| && Keeps(st, Step(st, ev), k)
  {
    if ev.Xive? || ev.Line? {
      SourceStepKeeps(st, ev, k);
    } else {
      ServerStepKeeps(st, ev, k);
    }
  }

  lemma ServerStepKeeps(st: State, ev: Event, k: nat)
    requires Wf(st) && Possible(st, ev) && k < |st.irqs| && Unmasked(st, k) && !Takes(st, ev, k)
    requires !ev.Xive? && !ev.Line?
    ensures |Step(st, ev).irqs| == |st.irqs| && Keeps(st, Step(st, ev), k)
  {
    match ev
    case Cppr(cpu, value) => SetCpprKeeps(st, cpu, value % 0x100, k);
    case Ipi(server, value) =>
      if server < |st.ss| {
        SetMfrrKeeps(st, server, value % 0x100, k);
      }
    case Xirr(cpu) => AcceptKeeps(st, cpu, k);
    case EndOfIrq(cpu, xirr) => EoiKeeps(st, cpu, CpprOf(xirr), k);
  }

  lemma SourceStepKeeps(st: State, ev: Event, k: nat)
    requires Wf(st) && Possible(st, ev) && k < |st.irqs| && Spares(st, ev, k) && (ev.Xive? || ev.Line?)
    ensures |Step(st, ev).irqs| == |st.irqs| && Keeps(st, Step(st, ev), k)
  {
    if ev.Line? {
      RaiseKeeps(st, ev.irq - OFFSET, k);
    } else if ValidXive(st, ev.nr, ev.server, ev.priority) {
      WriteXiveKeeps(st, ev.nr - OFFSET, ev.server, ev.priority, k);
    }
  }

  /** Along the run no call takes source `k`, or masks it while it is presented or waiting to be resent. */
  ghost predicate Untaken(st: State, evs: seq<Event>, k: nat)
    requires Wf(st) && PossibleRun(st, evs) && k < |st.irqs|
    decreases |evs|
  {
    evs == [] || (Spares(st, evs[0], k) && !Takes(st, evs[0], k) &&
                  (StepWf(st, evs[0]); Untaken(Step(st, evs[0]), evs[1..], k)))
  }

  /** On record, a source stays on record until a call returns its number. */
  lemma {:induction false} StaysRecorded(st: State, evs: seq<Event>, k: nat)
    requires Wf(st) && PossibleRun(st, evs) && k < |st.irqs| && Untaken(st, evs, k) && Unmasked(st, k) &&
             Recorded(st, k)
    ensures k < |Run(st, evs).irqs| && Recorded(Run(st, evs), k)
    decreases |evs|
  {
    if evs != [] {
      StepWf(st, evs[0]);
      StepKeeps(st, evs[0], k);
      StaysRecorded(Step(st, evs[0]), evs[1..], k);
    }
  }

  /** Raising a source puts it on record, and it stays there until a call returns its number. */
  lemma RaisedStaysRecorded(st: State, k: nat, level: nat, evs: seq<Event>)
    requires Wf(st) && k < |st.irqs| && level != 0 && Unmasked(st, k)
    requires PossibleRun(st, [Line(OFFSET + k, level)] + evs) && Untaken(st, [Line(OFFSET + k, level)] + evs, k)
    ensures
      var st' := Run(st, [Line(OFFSET + k, level)] + evs);
      k < |st'.irqs| && Recorded(st', k)
  {
    var ev := Line(OFFSET + k, level);
    assert ([ev] + evs)[1..] == evs && ([ev] + evs)[0] == ev;
    StepWf(st, ev);
    StepKeeps(st, ev, k);
    RaiseKeeps(st, k, k);
    StaysRecorded(Step(st, ev), evs, k);
  }

  /** Every call that spares source `k` keeps it from being masked while on its way, also one that takes it. */
  lemma StepUnmasked(st: State, ev: Event, k: nat)
    requires Wf(st) && Possible(st, ev) && k < |st.irqs| && Unmasked(st, k) && Spares(st, ev, k)
    ensures |Step(st, ev).irqs| == |st.irqs| && Unmasked(Step(st, ev), k)
  {
    if Takes(st, ev, k) {
      var st' := Step(st, ev);
      if Presented(st', k) {
        var r :| 0 <= r < |st'.ss| && st'.ss[r].xisr == OFFSET + k;
        assert st.ss[r].xisr == OFFSET + k;
      }
    } else {
      StepKeeps(st, ev, k);
    }
  }

  /** Along the run no call masks source `k` while it is presented or waiting to be resent. */
  ghost predicate Spared(st: State, evs: seq<Event>, k: nat)
    requires Wf(st) && PossibleRun(st, evs) && k < |st.irqs|
    decreases |evs|
  {
    evs == [] || (Spares(st, evs[0], k) && (StepWf(st, evs[0]); Spared(Step(st, evs[0]), evs[1..], k)))
  }

  lemma {:induction false} StaysUnmasked(st: State, evs: seq<Event>, k: nat)
    requires Wf(st) && PossibleRun(st, evs) && k < |st.irqs| && Spared(st, evs, k) && Unmasked(st, k)
    ensures |Run(st, evs).irqs| == |st.irqs| && Unmasked(Run(st, evs), k)
    decreases |evs|
  {
    if evs != [] {
      StepWf(st, evs[0]);
      StepUnmasked(st, evs[0], k);
      StaysUnmasked(Step(st, evs[0]), evs[1..], k);
    }
  }

  /**
    After any run from the start that spares a source, however often it was raised and taken, raising it puts it on
    record until a call returns its number.
   */
  lemma RaisedFromStart(servers: nat, sources: nat, before: seq<Event>, k: nat, level: nat, evs: seq<Event>)
    requires 0 < servers && k < sources && OFFSET + sources <= U24 && level != 0
    requires PossibleRun(Init(servers, sources), before) && Spared(Init(servers, sources), before, k)
    requires
      var st := Run(Init(servers, sources), before);
      && PossibleRun(st, [Line(OFFSET + k, level)] + evs)
      && k < |st.irqs| && Untaken(st, [Line(OFFSET + k, level)] + evs, k)
    ensures
      var st' := Run(Run(Init(servers, sources), before), [Line(OFFSET + k, level)] + evs);
      k < |st'.irqs| && Recorded(st', k)
  {
    InitSafe(servers, sources);
    StaysUnmasked(Init(servers, sources), before, k);
    RaisedStaysRecorded(Run(Init(servers, sources), before), k, level, evs);
  }

  // ---------------------------------------------------------------- which calls lose a record

  /** The resend loop from source `j` up to the turn of source `k`. */
  function ResendTo(st: State, j: nat, k: nat): (st': State)
    requires Wf(st) && j <= k <= |st.irqs|
    ensures Wf(st') && SameSize(st, st')
    decreases k - j
  {
    if j == k then st else ResendOneWf(st, j); ResendTo(ResendOne(st, j), j + 1, k)
  }

  /** A turn for another source neither drops nor adds a record of `k`, and does not reconfigure it. */
  lemma OtherTurn(st: State, j: nat, k: nat)
    requires Wf(st) && j < |st.irqs| && k < |st.irqs| && j != k
    ensures
      var st' := ResendOne(st, j);
      && |st'.irqs| == |st.irqs| && (Recorded(st', k) <==> Recorded(st, k)) && (Presented(st', k) ==> Presented(st, k))
      && st'.irqs[k].priority == st.irqs[k].priority && st'.irqs[k].masked == st.irqs[k].masked
  {
    ResendOneExact(st, j, k);
    var i := st.irqs[j];
    if i.rejected {
      var st1 := st.(irqs := st.irqs[j := i.(rejected := false)]);
      assert Presented(st1, k) <==> Presented(st, k);
      if i.priority != MASKED {
        IrqForgets(st1, j, i.server, i.priority, k);
      }
    }
  }

  /** Once the turn of `k` is over its record stays as it is. */
  lemma {:induction false} LaterTurns(st: State, j: nat, k: nat)
    requires Wf(st) && k < j <= |st.irqs|
    ensures Recorded(ResendFrom(st, j), k) <==> Recorded(st, k)
    decreases |st.irqs| - j
  {
    if j < |st.irqs| {
      ResendOneWf(st, j);
      OtherTurn(st, j, k);
      LaterTurns(ResendOne(st, j), j + 1, k);
    }
  }

  /**
    The loop drops `k` exactly when that is masked, not pending behind the mask and no longer presented at its turn.
   */
  lemma {:induction false} LoopExact(st: State, j: nat, k: nat)
    requires Wf(st) && j <= k < |st.irqs| && Recorded(st, k)
    ensures Recorded(ResendFrom(st, j), k) <==>
            !(st.irqs[k].priority == MASKED && !st.irqs[k].masked && !Presented(ResendTo(st, j, k), k))
    decreases k - j
  {
    ResendOneWf(st, j);
    if j < k {
      OtherTurn(st, j, k);
      LoopExact(ResendOne(st, j), j + 1, k);
    } else {
      ResendOneExact(st, k, k);
      LaterTurns(ResendOne(st, k), k + 1, k);
    }
  }

  /** What the loop starts from when it resends for server `s`. */
  function LoopStart(st: State, s: nat): (st': State)
    requires Wf(st) && s < |st.ss|
    ensures Wf(st') && SameSize(st, st')
  {
    CheckIpiWf(st, s);
    if st.ss[s].mfrr < st.ss[s].cppr then CheckIpi(st, s) else st
  }

  /** With nothing presented at `s`, a resend for it drops `k`. */
  ghost predicate ResendDrops(st: State, s: nat, k: nat)
    requires Wf(st) && s < |st.ss| && k < |st.irqs|
  {
    st.irqs[k].priority == MASKED && !st.irqs[k].masked && !Presented(ResendTo(LoopStart(st, s), 0, k), k)
  }

  lemma LoopStartSame(st: State, s: nat, k: nat)
    requires Wf(st) && s < |st.ss| && k < |st.irqs| && st.ss[s].xisr == 0
    ensures LoopStart(st, s).irqs == st.irqs && (Presented(LoopStart(st, s), k) <==> Presented(st, k))
  {
    var st' := LoopStart(st, s);
    if Presented(st, k) {
      var r :| 0 <= r < |st.ss| && st.ss[r].xisr == OFFSET + k;
      assert st'.ss[r].xisr == OFFSET + k;
    }
    if Presented(st', k) {
      var r :| 0 <= r < |st'.ss| && st'.ss[r].xisr == OFFSET + k;
      assert st.ss[r].xisr == OFFSET + k;
    }
  }

  lemma ResendExact(st: State, s: nat, k: nat)
    requires Wf(st) && s < |st.ss| && k < |st.irqs| && st.ss[s].xisr == 0 && Recorded(st, k)
    ensures |Resend(st, s).irqs| == |st.irqs| && (Recorded(Resend(st, s), k) <==> !ResendDrops(st, s, k))
  {
    ResendWf(st, s);
    LoopStartSame(st, s, k);
    LoopExact(LoopStart(st, s), 0, k);
  }

  /** The call drops the record of `k`: it takes the last of it, or resends while `k` is masked. */
  ghost predicate Drops(st: State, ev: Event, k: nat)
    requires Wf(st) && Possible(st, ev) && k < |st.irqs|
  {
    match ev
    case Xirr(cpu) =>
      && st.ss[cpu].xisr == OFFSET + k && !st.irqs[k].rejected && !st.irqs[k].masked
      && (forall r :: 0 <= r < |st.ss| && r != cpu ==> st.ss[r].xisr != OFFSET + k)
    case Cppr(cpu, value) =>
      && value % 0x100 >= st.ss[cpu].cppr && st.ss[cpu].xisr == 0
      && (WithCpprWf(st, cpu, value % 0x100); ResendDrops(WithCppr(st, cpu, value % 0x100), cpu, k))
    case EndOfIrq(cpu, xirr) =>
      st.ss[cpu].xisr == 0 && (WithCpprWf(st, cpu, CpprOf(xirr)); ResendDrops(WithCppr(st, cpu, CpprOf(xirr)), cpu, k))
    case _ => false
  }

  lemma WithCpprWf(st: State, s: nat, cppr: nat)
    requires Wf(st) && s < |st.ss| && cppr <= 0xff
    ensures Wf(WithCppr(st, s, cppr)) && SameSize(st, WithCppr(st, s, cppr))
  {
  }

  lemma AcceptDrops(st: State, cpu: nat, k: nat)
    requires Wf(st) && cpu < |st.ss| && k < |st.irqs| && Recorded(st, k)
    ensures Recorded(Accept(st, cpu), k) <==> !Drops(st, Xirr(cpu), k)
  {
    var st' := Accept(st, cpu);
    if r :| 0 <= r < |st.ss| && r != cpu && st.ss[r].xisr == OFFSET + k {
      assert st'.ss[r].xisr == OFFSET + k;
    }
  }

  lemma SetCpprDrops(st: State, s: nat, cppr: nat, k: nat)
    requires Wf(st) && s < |st.ss| && cppr <= 0xff && k < |st.irqs| && Recorded(st, k)
    ensures |SetCppr(st, s, cppr).irqs| == |st.irqs| && Wf(WithCppr(st, s, cppr))
    ensures Recorded(SetCppr(st, s, cppr), k) <==>
            !(cppr >= st.ss[s].cppr && st.ss[s].xisr == 0 && ResendDrops(WithCppr(st, s, cppr), s, k))
  {
    var st1 := WithCppr(st, s, cppr);
    SamePresented(st, st1, k);
    if cppr < st.ss[s].cppr {
      LoweredKeeps(st, s, cppr, k);
    } else if st.ss[s].xisr == 0 {
      ResendExact(st1, s, k);
    }
  }

  lemma EoiDrops(st: State, s: nat, cppr: nat, k: nat)
    requires Wf(st) && s < |st.ss| && cppr <= 0xff && k < |st.irqs| && Recorded(st, k)
    ensures |Eoi(st, s, cppr).irqs| == |st.irqs| && Wf(WithCppr(st, s, cppr))
    ensures Recorded(Eoi(st, s, cppr), k) <==> !(st.ss[s].xisr == 0 && ResendDrops(WithCppr(st, s, cppr), s, k))
  {
    var st1 := WithCppr(st, s, cppr);
    SamePresented(st, st1, k);
    if st.ss[s].xisr == 0 {
      ResendExact(st1, s, k);
    }
  }

  lemma WriteXiveRecords(st: State, j: nat, server: nat, priority: nat, k: nat)
    requires Wf(st) && j < |st.irqs| && server < |st.ss| && priority <= 0xff && k < |st.irqs| && Recorded(st, k)
    ensures |WriteXive(st, j, server, priority).irqs| == |st.irqs| && Recorded(WriteXive(st, j, server, priority), k)
  {
    var i := st.irqs[j].(server := server, priority := priority);
    SamePresented(st, st.(irqs := st.irqs[j := i]), k);
    if i.masked && priority != MASKED {
      var st1 := st.(irqs := st.irqs[j := i.(masked := false)]);
      SamePresented(st, st1, k);
      IrqKeeps(st1, j, server, priority, k);
    }
  }

  /** A call drops a source that is on record exactly then, whatever went before. */
  lemma DropsExact(st: State, ev: Event, k: nat)
    requires Wf(st) && Possible(st, ev) && k < |st.irqs| && Recorded(st, k)
    ensures |Step(st, ev).irqs| == |st.irqs| && (Recorded(Step(st, ev), k) <==> !Drops(st, ev, k))
  {
    if ev.Cppr? {
      SetCpprDrops(st, ev.cpu, ev.value % 0x100, k);
    } else if ev.Ipi? {
      if ev.server < |st.ss| {
        SetMfrrKeeps(st, ev.server, ev.value % 0x100, k);
      }
    } else if ev.Xirr? {
      AcceptDrops(st, ev.cpu, k);
    } else if ev.EndOfIrq? {
      EoiDrops(st, ev.cpu, CpprOf(ev.xirr), k);
    } else if ev.Xive? {
      if ValidXive(st, ev.nr, ev.server, ev.priority) {
        WriteXiveRecords(st, ev.nr - OFFSET, ev.server, ev.priority, k);
      }
    } else {
      RaiseKeeps(st, ev.irq - OFFSET, k);
    }
  }

  ghost predicate NeverDrops(st: State, evs: seq<Event>, k: nat)
    requires Wf(st) && PossibleRun(st, evs) && k < |st.irqs|
    decreases |evs|
  {
    evs == [] || (!Drops(st, evs[0], k) && (StepWf(st, evs[0]); NeverDrops(Step(st, evs[0]), evs[1..], k)))
  }

  ghost predicate RecordedAlong(st: State, evs: seq<Event>, k: nat)
    requires Wf(st) && PossibleRun(st, evs) && k < |st.irqs|
    decreases |evs|
  {
    Recorded(st, k) && (evs == [] || (StepWf(st, evs[0]); RecordedAlong(Step(st, evs[0]), evs[1..], k)))
  }

  /** On any run a source stays on record all along exactly when no call of the run drops it. */
  lemma {:induction false} RecordedAlongExact(st: State, evs: seq<Event>, k: nat)
    requires Wf(st) && PossibleRun(st, evs) && k < |st.irqs| && Recorded(st, k)
    ensures RecordedAlong(st, evs, k) <==> NeverDrops(st, evs, k)
    decreases |evs|
  {
    if evs != [] {
      StepWf(st, evs[0]);
      DropsExact(st, evs[0], k);
      if !Drops(st, evs[0], k) {
        RecordedAlongExact(Step(st, evs[0]), evs[1..], k);
      }
    }
  }

  // ---------------------------------------------------------------- the loop where all is delivered

  /** Every source that waits for another server than `s` is held there; what `s` has been given is its own. */
  ghost predicate QuietBut(st: State, s: nat)
  {
    && Wf(st) && s < |st.ss|
    && (st.ss[s].xisr >= OFFSET ==> st.irqs[st.ss[s].xisr - OFFSET].server == s)
    && (forall j :: 0 <= j < |st.irqs| && st.irqs[j].server != s ==> Deferred(st, j))
  }

  lemma QuietTurn(st: State, s: nat, j: nat)
    requires QuietBut(st, s) && j < |st.irqs|
    ensures
      var st' := ResendOne(st, j);
      QuietBut(st', s) && SameSize(st, st') && forall r :: 0 <= r < |st.ss| && r != s ==> st'.ss[r] == st.ss[r]
  {
    ResendOneWf(st, j);
    var i, st' := st.irqs[j], ResendOne(st, j);
    assert i.server != s ==> Deferred(st, j);
    forall m | 0 <= m < |st'.irqs| && st'.irqs[m].server != s ensures Deferred(st', m) {
      assert Deferred(st, m);
    }
  }

  lemma {:induction false} QuietLoop(st: State, s: nat, j: nat, k: nat)
    requires QuietBut(st, s) && j <= k <= |st.irqs|
    ensures forall r :: 0 <= r < |st.ss| && r != s ==> ResendTo(st, j, k).ss[r] == st.ss[r]
    decreases k - j
  {
    if j < k {
      QuietTurn(st, s, j);
      QuietLoop(ResendOne(st, j), s, j + 1, k);
    }
  }

  lemma {:induction false} EarlierTurns(st: State, j: nat, k: nat)
    requires Wf(st) && j <= k < |st.irqs|
    ensures Presented(ResendTo(st, j, k), k) ==> Presented(st, k)
    decreases k - j
  {
    if j < k {
      ResendOneWf(st, j);
      OtherTurn(st, j, k);
      EarlierTurns(ResendOne(st, j), j + 1, k);
    }
  }

  /** Then a resend takes nothing away from a CPU before its turn. */
  lemma QuietPresented(st: State, s: nat, k: nat)
    requires Wf(st) && s < |st.ss| && k < |st.irqs| && st.ss[s].xisr == 0
    requires forall j :: 0 <= j < |st.irqs| && st.irqs[j].server != s ==> Deferred(st, j)
    ensures Presented(ResendTo(LoopStart(st, s), 0, k), k) <==> Presented(st, k)
  {
    var st1 := LoopStart(st, s);
    LoopStartSame(st, s, k);
    forall j | 0 <= j < |st1.irqs| && st1.irqs[j].server != s ensures Deferred(st1, j) {
      assert Deferred(st, j);
    }
    QuietLoop(st1, s, 0, k);
    EarlierTurns(st1, 0, k);
    if Presented(st, k) {
      var r :| 0 <= r < |st.ss| && st.ss[r].xisr == OFFSET + k;
      assert ResendTo(st1, 0, k).ss[r] == st1.ss[r];
    }
  }

  /** The call resends for a CPU with nothing presented. */
  predicate Resends(st: State, ev: Event)
    requires Possible(st, ev)
  {
    match ev
    case Cppr(cpu, value) => value % 0x100 >= st.ss[cpu].cppr && st.ss[cpu].xisr == 0
    case EndOfIrq(cpu, _) => st.ss[cpu].xisr == 0
    case _ => false
  }

  /** On polite runs a call that takes nothing drops `k` exactly when it resends while `k` waits behind its mask. */
  lemma DropsWhenDelivered(st: State, ev: Event, k: nat)
    requires Delivered(st) && Possible(st, ev) && k < |st.irqs| && !ev.Xirr?
    ensures Drops(st, ev, k) <==>
            Resends(st, ev) && st.irqs[k].priority == MASKED && !st.irqs[k].masked && !Presented(st, k)
  {
    if Resends(st, ev) {
      var cpu, cppr := ev.cpu, if ev.Cppr? then ev.value % 0x100 else CpprOf(ev.xirr);
      var st1 := WithCppr(st, cpu, cppr);
      WithCpprWf(st, cpu, cppr);
      SamePresented(st, st1, k);
      forall j | 0 <= j < |st1.irqs| && st1.irqs[j].server != cpu ensures Deferred(st1, j) {
        assert Deferred(st, j);
      }
      QuietPresented(st1, cpu, k);
    }
  }

  // ---------------------------------------------------------------- the interrupt lines

  predicate LinesTell(st: State)
  {
    forall s :: 0 <= s < |st.ss| ==> (st.ss[s].line <==> st.ss[s].xisr != 0)
  }

  lemma {:induction false} ResendLines(st: State, k: nat)
    requires Wf(st) && k <= |st.irqs| && LinesTell(st)
    ensures LinesTell(ResendFrom(st, k))
    decreases |st.irqs| - k
  {
    if k < |st.irqs| {
      ResendOneWf(st, k);
      ResendLines(ResendOne(st, k), k + 1);
    }
  }

  lemma StepLines(st: State, ev: Event)
    requires Wf(st) && Possible(st, ev) && LinesTell(st)
    ensures LinesTell(Step(st, ev))
  {
    if ev.Cppr? {
      ResendBothLines(WithCppr(st, ev.cpu, ev.value % 0x100), ev.cpu);
    } else if ev.EndOfIrq? {
      ResendBothLines(WithCppr(st, ev.cpu, CpprOf(ev.xirr)), ev.cpu);
    }
  }

  lemma ResendBothLines(st: State, s: nat)
    requires Wf(st) && s < |st.ss| && LinesTell(st)
    ensures LinesTell(Resend(st, s))
  {
    CheckIpiWf(st, s);
    ResendLines(CheckIpi(st, s), 0);
    ResendLines(st, 0);
  }

  /** On every run, a CPU's external line is high exactly when something is presented to it. */
  lemma {:induction false} LinesFollow(st: State, evs: seq<Event>)
    requires Wf(st) && PossibleRun(st, evs) && LinesTell(st)
    ensures LinesTell(Run(st, evs))
    decreases |evs|
  {
    if evs != [] {
      StepWf(st, evs[0]);
      StepLines(st, evs[0]);
      LinesFollow(Step(st, evs[0]), evs[1..]);
    }
  }

  /** The start satisfies all of the above. */
  lemma InitSafe(servers: nat, sources: nat)
    requires 0 < servers && OFFSET + sources <= U24
    ensures LinesTell(Init(servers, sources)) && forall k :: 0 <= k < sources ==> Unmasked(Init(servers, sources), k)
  {
  }

  // ---------------------------------------------------------------- runs that break the rules

  /** Masking a source that waits to be resent loses its interrupt. */
  lemma MaskedWhileWaitingIsLost()
    ensures
      var waiting := State([Server(0, 0, 0, 0xff, false)], [Source(0, 5, true, false)]);
      && Step(Step(Init(1, 1), Xive(OFFSET, 0, 5)), Line(OFFSET, 1)) == waiting && Recorded(waiting, 0)
      && var masked := Step(waiting, Xive(OFFSET, 0, MASKED));
      && Wf(masked) && |Step(masked, Cppr(0, 0xff)).irqs| == 1 && !Recorded(Step(masked, Cppr(0, 0xff)), 0)
  {
    var st1 := Step(Init(1, 1), Xive(OFFSET, 0, 5));
    assert st1 == State([Server(0, 0, 0, 0xff, false)], [Source(0, 5, false, false)]);
    var masked := State([Server(0, 0, 0, 0xff, false)], [Source(0, MASKED, true, false)]);
    var open := WithCppr(masked, 0, 0xff);
    assert Wf(open) && ResendOne(open, 0) == State([Server(0xff, 0, 0, 0xff, false)],
                                                   [Source(0, MASKED, false, false)]);
    assert ResendFrom(open, 0) == ResendFrom(ResendOne(open, 0), 1) == ResendOne(open, 0);
    var waiting := State([Server(0, 0, 0, 0xff, false)], [Source(0, 5, true, false)]);
    assert Step(st1, Line(OFFSET, 1)) == waiting;
    assert Step(waiting, Xive(OFFSET, 0, MASKED)) == masked;
    assert Step(masked, Cppr(0, 0xff)) == ResendOne(open, 0);
  }

  /**
    Masking a presented source loses its interrupt when an earlier source, which waits though nothing holds it back,
    takes its place in a resend before its own turn.
   */
  lemma DisplacedWhileMaskedIsLost() returns (evs: seq<Event>)
    ensures PossibleRun(Init(2, 2), evs)
    ensures
      var st := State([Server(0, 0, 0, 0xff, false), Server(0xff, OFFSET + 1, 5, 0xff, true)],
                      [Source(1, 3, true, false), Source(1, MASKED, false, false)]);
      && Run(Init(2, 2), evs) == st && Presented(st, 1) && !Delivered(st)
      && |Step(st, EndOfIrq(0, 0)).irqs| == 2 && !Recorded(Step(st, EndOfIrq(0, 0)), 1)
  {
    DisplacedDrops();
    evs := DisplacedReached();
  }

  lemma DisplacedDrops()
    ensures
      var st := State([Server(0, 0, 0, 0xff, false), Server(0xff, OFFSET + 1, 5, 0xff, true)],
                      [Source(1, 3, true, false), Source(1, MASKED, false, false)]);
      && Wf(st) && Presented(st, 1) && !Delivered(st)
      && |Step(st, EndOfIrq(0, 0)).irqs| == 2 && !Recorded(Step(st, EndOfIrq(0, 0)), 1)
  {
    var idle := Server(0, 0, 0, 0xff, false);
    var st := State([idle, Server(0xff, OFFSET + 1, 5, 0xff, true)],
                    [Source(1, 3, true, false), Source(1, MASKED, false, false)]);
    var after := State([idle, Server(0xff, OFFSET, 3, 0xff, true)],
                       [Source(1, 3, false, false), Source(1, MASKED, true, false)]);
    var last := State([idle, Server(0xff, OFFSET, 3, 0xff, true)],
                      [Source(1, 3, false, false), Source(1, MASKED, false, false)]);
    assert st.ss[1].xisr == OFFSET + 1 && !Deferred(st, 0);
    assert WithCppr(st, 0, 0) == st;
    assert ResendOne(st, 0) == after;
    assert ResendOne(after, 1) == last;
    assert ResendFrom(st, 0) == ResendFrom(after, 1) == ResendFrom(last, 2) == last;
  }

  lemma {:induction false} RunAppend(st: State, evs: seq<Event>, ev: Event)
    requires Wf(st) && PossibleRun(st, evs) && Possible(Run(st, evs), ev)
    ensures PossibleRun(st, evs + [ev]) && Run(st, evs + [ev]) == Step(Run(st, evs), ev)
    decreases |evs|
  {
    if evs == [] {
      assert evs + [ev] == [ev] && [ev][1..] == [];
      StepWf(st, ev);
    } else {
      StepWf(st, evs[0]);
      RunAppend(Step(st, evs[0]), evs[1..], ev);
      assert (evs + [ev])[0] == evs[0] && (evs + [ev])[1..] == evs[1..] + [ev];
    }
  }

  /** That state is reached from the start: a waiting source is made more favoured, and the presented one is masked. */
  lemma DisplacedReached() returns (evs: seq<Event>)
    ensures PossibleRun(Init(2, 2), evs)
    ensures Run(Init(2, 2), evs) == State([Server(0, 0, 0, 0xff, false), Server(0xff, OFFSET + 1, 5, 0xff, true)],
                                          [Source(1, 3, true, false), Source(1, MASKED, false, false)])
  {
    var idle, free := Server(0, 0, 0, 0xff, false), Server(0xff, 0, 0, 0xff, false);
    var busy := Server(0xff, OFFSET + 1, 5, 0xff, true);
    var none := Source(0, MASKED, false, false);
    var calls := [Cppr(1, 0xff), Xive(OFFSET + 1, 1, 5), Line(OFFSET + 1, 1), Xive(OFFSET, 1, 7), Line(OFFSET, 1),
                  Xive(OFFSET, 1, 3), Xive(OFFSET + 1, 1, MASKED)];
    var st := Init(2, 2);
    evs := [];
    NothingToResend(State([idle, free], [none, none]), 0);
    for i := 0 to 7
      invariant Wf(st) && PossibleRun(Init(2, 2), evs) && Run(Init(2, 2), evs) == st
      invariant st == match i
        case 0 => State([idle, idle], [none, none])
        case 1 => State([idle, free], [none, none])
        case 2 => State([idle, free], [none, Source(1, 5, false, false)])
        case 3 => State([idle, busy], [none, Source(1, 5, false, false)])
        case 4 => State([idle, busy], [Source(1, 7, false, false), Source(1, 5, false, false)])
        case 5 => State([idle, busy], [Source(1, 7, true, false), Source(1, 5, false, false)])
        case 6 => State([idle, busy], [Source(1, 3, true, false), Source(1, 5, false, false)])
        case _ => State([idle, busy], [Source(1, 3, true, false), Source(1, MASKED, false, false)])
    {
      RunAppend(Init(2, 2), evs, calls[i]);
      StepWf(st, calls[i]);
      evs, st := evs + [calls[i]], Step(st, calls[i]);
    }
  }

  /** Where no source waits, the resend loop does nothing. */
  lemma {:induction false} NothingToResend(st: State, k: nat)
    requires Wf(st) && k <= |st.irqs| && forall j :: k <= j < |st.irqs| ==> !st.irqs[j].rejected
    ensures ResendFrom(st, k) == st
    decreases |st.irqs| - k
  {
    if k < |st.irqs| {
      NothingToResend(st, k + 1);
    }
  }

  /** Making a presented source more favoured leaves it waiting behind a less favoured one. */
  lemma ReconfiguredWhilePresentedIsMissed()
    ensures
      var st := State([Server(0xff, OFFSET, 5, 0xff, true)], [Source(0, 5, false, false), Source(0, 4, false, false)]);
      && Delivered(st)
      && var moved := Step(st, Xive(OFFSET, 0, 3));
      && Wf(moved) && !Delivered(Step(moved, Line(OFFSET + 1, 1)))
  {
    var st := State([Server(0xff, OFFSET, 5, 0xff, true)], [Source(0, 5, false, false), Source(0, 4, false, false)]);
    var moved := State([Server(0xff, OFFSET, 5, 0xff, true)], [Source(0, 3, false, false), Source(0, 4, false, false)]);
    assert Step(st, Xive(OFFSET, 0, 3)) == moved;
    var last := Step(moved, Line(OFFSET + 1, 1));
    assert last == State([Server(0xff, OFFSET + 1, 4, 0xff, true)],
                         [Source(0, 3, true, false), Source(0, 4, false, false)]);
    assert !Deferred(last, 0);
  }
}
