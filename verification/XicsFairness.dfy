/**
  Why fair delivery speaks of the source that is presented: where it is not presented as its configuration says, calls
  that are always allowed lead to an interrupt that waits though its CPU would take it.
 */
module XicsFairness {
  import opened Xics
  import opened XicsSafety

  // ---------------------------------------------------------------- the clauses

  /**
    What is presented is more favoured than the CPU's priority, a wanted IPI gives way only to something at least as
    favoured, and a source that waits is held back by its server.
   */
  ghost predicate Served(st: State)
  {
    && Wf(st)
    && (forall s :: 0 <= s < |st.ss| ==> st.ss[s].xisr != 0 ==> st.ss[s].pending < st.ss[s].cppr)
    && (forall s :: 0 <= s < |st.ss| ==> IpiServed(st.ss[s]))
    && (forall j :: 0 <= j < |st.irqs| ==> Deferred(st, j))
  }

  /** A source that is presented is masked by now, or meant for this CPU and no more favoured than when presented. */
  predicate Own(st: State, s: nat)
    requires s < |st.ss|
  {
    var x := st.ss[s];
    OFFSET <= x.xisr < OFFSET + |st.irqs| ==>
      var i := st.irqs[x.xisr - OFFSET]; i.priority == MASKED || (i.server == s && x.pending <= i.priority)
  }

  lemma DeliveredClauses(st: State)
    ensures Delivered(st) <==> Served(st) && forall s :: 0 <= s < |st.ss| ==> Own(st, s)
  {
    if Delivered(st) {
      forall s | 0 <= s < |st.ss| ensures Own(st, s) && (st.ss[s].xisr != 0 ==> st.ss[s].pending < st.ss[s].cppr) {
        assert Fair(st, s);
      }
    }
    if Served(st) && forall s :: 0 <= s < |st.ss| ==> Own(st, s) {
      forall s | 0 <= s < |st.ss| ensures Fair(st, s) {
        assert Own(st, s);
      }
    }
  }

  // ---------------------------------------------------------------- calls that are always polite

  /** Setting priorities, raising and masking sources, and accepting what is presented. */
  predicate Meek(st: State, ev: Event)
  {
    match ev
    case Xirr(cpu) => cpu < |st.ss| && st.ss[cpu].xisr != 0
    case EndOfIrq(_, _) => false
    case Xive(_, _, priority) => priority == MASKED
    case _ => true
  }

  lemma MeekIsPolite(st: State, ev: Event)
    requires Wf(st) && Possible(st, ev) && Meek(st, ev)
    ensures Polite(st, ev)
  {
  }

  /** Such calls lead from one state to another. */
  ghost predicate Leads(st: State, evs: seq<Event>, st': State)
    requires Wf(st)
    decreases |evs|
  {
    if evs == [] then st' == st
    else
      && Possible(st, evs[0]) && Meek(st, evs[0])
      && (StepWf(st, evs[0]); Leads(Step(st, evs[0]), evs[1..], st'))
  }

  lemma {:induction false} LeadsFairly(st: State, evs: seq<Event>, st': State)
    requires Delivered(st) && Leads(st, evs, st')
    ensures Delivered(st')
    decreases |evs|
  {
    if evs != [] {
      MeekIsPolite(st, evs[0]);
      StepExact(st, evs[0]);
      LeadsFairly(Step(st, evs[0]), evs[1..], st');
    }
  }

  lemma {:induction false} LeadsOn(st: State, evs: seq<Event>, st': State, ev: Event)
    requires Wf(st) && Leads(st, evs, st') && Possible(st', ev) && Meek(st', ev)
    ensures Wf(st') && Leads(st, evs + [ev], Step(st', ev))
    decreases |evs|
  {
    if evs == [] {
      assert evs + [ev] == [ev] && [ev][1..] == [];
      StepWf(st, ev);
    } else {
      StepWf(st, evs[0]);
      LeadsOn(Step(st, evs[0]), evs[1..], st', ev);
      assert (evs + [ev])[0] == evs[0] && (evs + [ev])[1..] == evs[1..] + [ev];
    }
  }

  // ---------------------------------------------------------------- leaving one source alone

  /** Every source but `k` is masked; `k` is presented to `s` and meant for `r`. */
  ghost predicate Astray(st: State, k: nat, s: nat, r: nat)
  {
    && Wf(st) && s < |st.ss| && r < |st.ss| && s != r && k < |st.irqs|
    && st.ss[s].xisr == OFFSET + k && 0 < st.ss[s].cppr
    && st.irqs[k].server == r && st.irqs[k].priority != MASKED
  }

  ghost predicate Alone(st: State, k: nat)
  {
    forall j :: 0 <= j < |st.irqs| && j != k ==> st.irqs[j].priority == MASKED
  }

  lemma {:induction false} MaskOthers(st: State, k: nat, s: nat, r: nat, n: nat) returns (evs: seq<Event>, st': State)
    requires Astray(st, k, s, r) && n <= |st.irqs|
    ensures Leads(st, evs, st') && Astray(st', k, s, r) && SameSize(st, st')
    ensures forall j :: 0 <= j < n && j != k ==> st'.irqs[j].priority == MASKED
    decreases n
  {
    if n == 0 {
      evs, st' := [], st;
    } else {
      evs, st' := MaskOthers(st, k, s, r, n - 1);
      if n - 1 != k {
        var ev := Xive(OFFSET + n - 1, 0, MASKED);
        LeadsOn(st, evs, st', ev);
        StepWf(st', ev);
        evs, st' := evs + [ev], Step(st', ev);
      }
    }
  }

  /** The resend loop then touches no server but that of `k`, and leaves `k` waiting only if it is held there. */
  lemma {:induction false} AloneResends(st: State, k: nat, s: nat, r: nat, j: nat)
    requires Astray(st, k, s, r) && Alone(st, k) && j <= |st.irqs|
    ensures
      var st' := ResendFrom(st, j);
      && Astray(st', k, s, r) && Alone(st', k)
      && st'.ss[r].mfrr == st.ss[r].mfrr && st'.ss[r].cppr == st.ss[r].cppr
      && (!st.irqs[k].rejected ==> st'.ss == st.ss && !st'.irqs[k].rejected)
      && (j <= k && st.ss[r].xisr == 0 && st.ss[r].cppr == 0xff ==> !st'.irqs[k].rejected)
    decreases |st.irqs| - j
  {
    if j < |st.irqs| {
      ResendOneWf(st, j);
      AloneResends(ResendOne(st, j), k, s, r, j + 1);
    }
  }

  /** Server `r` is opened wide: what it has is accepted, and the CPU priority is raised. */
  lemma Open(st: State, k: nat, s: nat, r: nat) returns (evs: seq<Event>, st': State)
    requires Astray(st, k, s, r) && Alone(st, k) && st.ss[r].mfrr == 0xff
    ensures Leads(st, evs, st') && Astray(st', k, s, r) && Alone(st', k) && st'.ss[r].mfrr == 0xff
    ensures st'.ss[r].cppr == 0xff && !st'.irqs[k].rejected
    ensures !st.irqs[k].rejected ==> st'.ss[r].xisr == 0
  {
    evs, st' := [], st;
    if st.ss[r].xisr != 0 {
      LeadsOn(st, evs, st', Xirr(r));
      evs, st' := [Xirr(r)], Accept(st, r);
      assert [] + [Xirr(r)] == [Xirr(r)];
    }
    assert Astray(st', k, s, r) && st'.irqs == st.irqs;
    LeadsOn(st, evs, st', Cppr(r, 0xff));
    var wide := WithCppr(st', r, 0xff);
    AloneResends(wide, k, s, r, 0);
    assert Step(st', Cppr(r, 0xff)) == ResendFrom(wide, 0);
    evs, st' := evs + [Cppr(r, 0xff)], ResendFrom(wide, 0);
  }

  lemma {:induction false} LeadsThrough(st: State, a: seq<Event>, st1: State, b: seq<Event>, st2: State)
    requires Wf(st) && Leads(st, a, st1) && Wf(st1) && Leads(st1, b, st2)
    ensures Leads(st, a + b, st2)
    decreases |a|
  {
    if a == [] {
      assert a + b == b;
    } else {
      StepWf(st, a[0]);
      LeadsThrough(Step(st, a[0]), a[1..], st1, b, st2);
      assert (a + b)[0] == a[0] && (a + b)[1..] == a[1..] + b;
    }
  }

  // ---------------------------------------------------------------- what goes wrong

  /** Lowering the CPU priority makes a source wait that is more favoured than when it was presented. */
  lemma FavouredWaits(st: State, s: nat, k: nat)
    requires Served(st) && s < |st.ss| && k < |st.irqs| && st.ss[s].xisr == OFFSET + k
    requires st.irqs[k].server == s && st.irqs[k].priority < st.ss[s].pending
    ensures !Served(Step(st, Cppr(s, st.irqs[k].priority + 1)))
  {
    var st' := Step(st, Cppr(s, st.irqs[k].priority + 1));
    assert st'.irqs[k].rejected && st'.irqs[k].server == s && st'.ss[s].xisr == 0;
    assert !Deferred(st', k);
  }

  /** So it does a source whose own server is wide open. */
  lemma StrayWaits(st: State, k: nat, s: nat, r: nat)
    requires Astray(st, k, s, r) && st.ss[r].xisr == 0 && st.ss[r].cppr == 0xff
    ensures !Served(Step(st, Cppr(s, 0)))
  {
    var st' := Step(st, Cppr(s, 0));
    assert st'.irqs[k].rejected && st'.irqs[k].server == r && st'.ss[r] == st.ss[r];
    assert !Deferred(st', k);
  }

  lemma StrayBreaks(st: State, k: nat, s: nat, r: nat) returns (evs: seq<Event>, st': State)
    requires Astray(st, k, s, r)
    ensures Leads(st, evs, st') && !Served(st')
  {
    var e1, st1 := MaskOthers(st, k, s, r, |st.irqs|);
    LeadsOn(st, e1, st1, Ipi(r, 0xff));
    var st2 := Step(st1, Ipi(r, 0xff));
    assert Astray(st2, k, s, r) && Alone(st2, k) && st2.ss[r].mfrr == 0xff;
    var e3, st3 := Open(st2, k, s, r);
    var e4, st4 := Open(st3, k, s, r);
    LeadsThrough(st, e1 + [Ipi(r, 0xff)], st2, e3, st3);
    LeadsThrough(st, e1 + [Ipi(r, 0xff)] + e3, st3, e4, st4);
    StrayWaits(st4, k, s, r);
    LeadsOn(st, e1 + [Ipi(r, 0xff)] + e3 + e4, st4, Cppr(s, 0));
    evs, st' := e1 + [Ipi(r, 0xff)] + e3 + e4 + [Cppr(s, 0)], Step(st4, Cppr(s, 0));
  }

  lemma UnfairBreaks(st: State) returns (evs: seq<Event>, st': State)
    requires Served(st) && !Delivered(st)
    ensures Leads(st, evs, st') && !Served(st')
  {
    DeliveredClauses(st);
    var s :| 0 <= s < |st.ss| && !Own(st, s);
    var k := st.ss[s].xisr - OFFSET;
    var i := st.irqs[k];
    if i.server == s {
      FavouredWaits(st, s, k);
      evs, st' := [], st;
      LeadsOn(st, evs, st', Cppr(s, i.priority + 1));
      evs, st' := evs + [Cppr(s, i.priority + 1)], Step(st, Cppr(s, i.priority + 1));
    } else {
      evs, st' := StrayBreaks(st, k, s, i.server);
    }
  }

  /** No calls that are always polite lead to an interrupt that waits without a reason. */
  ghost predicate Lasting(st: State)
    requires Wf(st)
  {
    forall evs, st' :: Leads(st, evs, st') ==> Served(st')
  }

  lemma LastingNow(st: State, evs: seq<Event>, st': State)
    requires Wf(st) && Lasting(st) && Leads(st, evs, st')
    ensures Served(st')
  {
  }

  /** Delivery is fair exactly when that is so. */
  lemma FairIsLasting(st: State)
    requires Wf(st)
    ensures Delivered(st) <==> Lasting(st)
  {
    if Delivered(st) {
      forall evs, st' | Leads(st, evs, st') ensures Served(st') {
        LeadsFairly(st, evs, st');
        DeliveredClauses(st');
      }
    }
    if Lasting(st) {
      LastingNow(st, [], st);
      if !Delivered(st) {
        var evs, st' := UnfairBreaks(st);
        LastingNow(st, evs, st');
        assert false;
      }
    }
  }

  ghost predicate LastingAlong(st: State, evs: seq<Event>)
    requires Wf(st) && PossibleRun(st, evs)
    decreases |evs|
  {
    Lasting(st) && (evs == [] || (StepWf(st, evs[0]); LastingAlong(Step(st, evs[0]), evs[1..])))
  }

  /**
    A run is polite exactly when in none of its states could calls that are always polite make an interrupt wait without
    a reason.
   */
  lemma {:induction false} PoliteExact(st: State, evs: seq<Event>)
    requires Wf(st) && Lasting(st) && PossibleRun(st, evs)
    ensures LastingAlong(st, evs) <==> PoliteRun(st, evs)
    decreases |evs|
  {
    if evs != [] {
      FairIsLasting(st);
      StepWf(st, evs[0]);
      StepExact(st, evs[0]);
      FairIsLasting(Step(st, evs[0]));
      if Polite(st, evs[0]) {
        PoliteExact(Step(st, evs[0]), evs[1..]);
      }
    }
  }
}
