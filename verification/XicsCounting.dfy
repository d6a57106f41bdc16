/**
  Interrupts are not made up: on every run a source is accepted at most as often as it was raised.
 */
module XicsCounting {
  import opened Xics

  // ---------------------------------------------------------------- what is on record, counted

  /** To how many CPUs a source is presented. */
  ghost function Shown(ss: seq<Server>, k: nat): nat
  {
    if ss == [] then 0 else (if ss[0].xisr == OFFSET + k then 1 else 0) + Shown(ss[1..], k)
  }

  lemma {:induction false} ShownUpdate(ss: seq<Server>, s: nat, x: Server, k: nat)
    requires s < |ss|
    ensures Shown(ss[s := x], k) ==
            Shown(ss, k) - (if ss[s].xisr == OFFSET + k then 1 else 0) + (if x.xisr == OFFSET + k then 1 else 0)
  {
    if s > 0 {
      ShownUpdate(ss[1..], s - 1, x, k);
      assert ss[s := x][1..] == ss[1..][s - 1 := x];
    } else {
      assert ss[s := x][1..] == ss[1..];
    }
  }

  function Flags(i: Source): nat { (if i.rejected then 1 else 0) + (if i.masked then 1 else 0) }

  /** How often the source can still be accepted: presented, waiting to be resent, pending behind its mask. */
  ghost function Tokens(st: State, k: nat): nat
    requires k < |st.irqs|
  {
    Shown(st.ss, k) + Flags(st.irqs[k])
  }

  // ---------------------------------------------------------------- one call

  lemma PresentTokens(st: State, server: nat, nr: nat, priority: nat, k: nat)
    requires server < |st.ss| && k < |st.irqs|
    ensures Tokens(Present(st, server, nr, priority), k) ==
            Tokens(st, k) - (if st.ss[server].xisr == OFFSET + k then 1 else 0) + (if nr == OFFSET + k then 1 else 0)
  {
    ShownUpdate(st.ss, server, st.ss[server].(xisr := nr, pending := priority, line := true), k);
  }

  /** Displacing what is presented moves it to where it waits. */
  lemma DisplaceTokens(st: State, server: nat, nr: nat, priority: nat, k: nat)
    requires Wf(st) && server < |st.ss| && k < |st.irqs|
    ensures
      var x := st.ss[server];
      var st' := Present(if x.xisr != 0 then Reject(st, x.xisr) else st, server, nr, priority);
      |st'.irqs| == |st.irqs| && Tokens(st', k) <= Tokens(st, k) + if nr == OFFSET + k then 1 else 0
  {
    var x := st.ss[server];
    assert WfServer(x, |st.irqs|);
    PresentTokens(if x.xisr != 0 then Reject(st, x.xisr) else st, server, nr, priority, k);
  }

  lemma IrqTokens(st: State, server: nat, nr: nat, priority: nat, k: nat)
    requires Wf(st) && server < |st.ss| && OFFSET <= nr < OFFSET + |st.irqs| && k < |st.irqs|
    ensures
      var st' := Irq(st, server, nr, priority);
      |st'.irqs| == |st.irqs| && Tokens(st', k) <= Tokens(st, k) + if nr == OFFSET + k then 1 else 0
  {
    if !Held(st.ss[server], priority) {
      DisplaceTokens(st, server, nr, priority, k);
    }
  }

  lemma CheckIpiTokens(st: State, server: nat, k: nat)
    requires Wf(st) && server < |st.ss| && k < |st.irqs|
    ensures |CheckIpi(st, server).irqs| == |st.irqs| && Tokens(CheckIpi(st, server), k) <= Tokens(st, k)
  {
    DisplaceTokens(st, server, IPI, st.ss[server].mfrr, k);
  }

  lemma ResendOneTokens(st: State, j: nat, k: nat)
    requires Wf(st) && j < |st.irqs| && k < |st.irqs|
    ensures |ResendOne(st, j).irqs| == |st.irqs| && Tokens(ResendOne(st, j), k) <= Tokens(st, k)
  {
    var i := st.irqs[j];
    if i.rejected && i.priority != MASKED {
      IrqTokens(st.(irqs := st.irqs[j := i.(rejected := false)]), i.server, OFFSET + j, i.priority, k);
    }
  }

  lemma {:induction false} ResendFromTokens(st: State, j: nat, k: nat)
    requires Wf(st) && j <= |st.irqs| && k < |st.irqs|
    ensures Tokens(ResendFrom(st, j), k) <= Tokens(st, k)
    decreases |st.irqs| - j
  {
    if j < |st.irqs| {
      ResendOneWf(st, j);
      ResendOneTokens(st, j, k);
      ResendFromTokens(ResendOne(st, j), j + 1, k);
    }
  }

  /** However much is resent, nothing is added. */
  lemma ResendTokens(st: State, server: nat, k: nat)
    requires Wf(st) && server < |st.ss| && k < |st.irqs|
    ensures |Resend(st, server).irqs| == |st.irqs| && Tokens(Resend(st, server), k) <= Tokens(st, k)
  {
    CheckIpiWf(st, server);
    CheckIpiTokens(st, server, k);
    if st.ss[server].mfrr < st.ss[server].cppr {
      ResendFromTokens(CheckIpi(st, server), 0, k);
    } else {
      ResendFromTokens(st, 0, k);
    }
  }

  lemma SetCpprTokens(st: State, s: nat, cppr: nat, k: nat)
    requires Wf(st) && s < |st.ss| && cppr <= 0xff && k < |st.irqs|
    ensures |SetCppr(st, s, cppr).irqs| == |st.irqs| && Tokens(SetCppr(st, s, cppr), k) <= Tokens(st, k)
    ensures |Eoi(st, s, cppr).irqs| == |st.irqs| && Tokens(Eoi(st, s, cppr), k) <= Tokens(st, k)
  {
    var x, st1 := st.ss[s], WithCppr(st, s, cppr);
    assert Wf(st1) && WfServer(x, |st.irqs|);
    ShownUpdate(st.ss, s, x.(cppr := cppr), k);
    ShownUpdate(st1.ss, s, st1.ss[s].(xisr := 0, line := false), k);
    ResendTokens(st1, s, k);
  }

  lemma SetMfrrTokens(st: State, s: nat, mfrr: nat, k: nat)
    requires Wf(st) && s < |st.ss| && mfrr <= 0xff && k < |st.irqs|
    ensures |SetMfrr(st, s, mfrr).irqs| == |st.irqs| && Tokens(SetMfrr(st, s, mfrr), k) <= Tokens(st, k)
  {
    var st1 := st.(ss := st.ss[s := st.ss[s].(mfrr := mfrr)]);
    assert Wf(st1);
    ShownUpdate(st.ss, s, st.ss[s].(mfrr := mfrr), k);
    CheckIpiTokens(st1, s, k);
  }

  /** An accept takes one away from what it returns, and nothing from the others. */
  lemma AcceptTokens(st: State, s: nat, k: nat)
    requires Wf(st) && s < |st.ss| && k < |st.irqs|
    ensures Tokens(Accept(st, s), k) == Tokens(st, k) - if st.ss[s].xisr == OFFSET + k then 1 else 0
  {
    ShownUpdate(st.ss, s, Accept(st, s).ss[s], k);
  }

  lemma WriteXiveTokens(st: State, j: nat, server: nat, priority: nat, k: nat)
    requires Wf(st) && j < |st.irqs| && server < |st.ss| && priority <= 0xff && k < |st.irqs|
    ensures |WriteXive(st, j, server, priority).irqs| == |st.irqs|
    ensures Tokens(WriteXive(st, j, server, priority), k) <= Tokens(st, k)
  {
    var i := st.irqs[j].(server := server, priority := priority);
    if i.masked && priority != MASKED {
      IrqTokens(st.(irqs := st.irqs[j := i.(masked := false)]), server, OFFSET + j, priority, k);
    }
  }

  /** Raising a source adds one to it at most, and nothing to the others. */
  lemma RaiseTokens(st: State, j: nat, k: nat)
    requires Wf(st) && j < |st.irqs| && k < |st.irqs|
    ensures |Raise(st, j).irqs| == |st.irqs| && Tokens(Raise(st, j), k) <= Tokens(st, k) + if j == k then 1 else 0
  {
    if st.irqs[j].priority != MASKED {
      IrqTokens(st, st.irqs[j].server, OFFSET + j, st.irqs[j].priority, k);
    }
  }

  // ---------------------------------------------------------------- runs

  /** The call returns the number of source `k`. */
  predicate Accepts(st: State, ev: Event, k: nat)
  {
    ev.Xirr? && ev.cpu < |st.ss| && st.ss[ev.cpu].xisr == OFFSET + k
  }

  predicate Raises(ev: Event, k: nat) { ev.Line? && ev.irq == OFFSET + k && ev.level != 0 }

  lemma StepTokens(st: State, ev: Event, k: nat)
    requires Wf(st) && Possible(st, ev) && k < |st.irqs|
    ensures |Step(st, ev).irqs| == |st.irqs|
    ensures Tokens(Step(st, ev), k) + (if Accepts(st, ev, k) then 1 else 0) <=
            Tokens(st, k) + (if Raises(ev, k) then 1 else 0)
  {
    match ev
    case Cppr(cpu, value) => SetCpprTokens(st, cpu, value % 0x100, k);
    case Ipi(server, value) =>
      if server < |st.ss| {
        SetMfrrTokens(st, server, value % 0x100, k);
      }
    case Xirr(cpu) => AcceptTokens(st, cpu, k);
    case EndOfIrq(cpu, xirr) => SetCpprTokens(st, cpu, CpprOf(xirr), k);
    case Xive(nr, server, priority) =>
      if ValidXive(st, nr, server, priority) {
        WriteXiveTokens(st, nr - OFFSET, server, priority, k);
      }
    case Line(irq, level) => RaiseTokens(st, irq - OFFSET, k);
  }

  ghost function Accepted(st: State, evs: seq<Event>, k: nat): nat
    requires Wf(st) && PossibleRun(st, evs)
    decreases |evs|
  {
    if evs == [] then 0
    else StepWf(st, evs[0]); (if Accepts(st, evs[0], k) then 1 else 0) + Accepted(Step(st, evs[0]), evs[1..], k)
  }

  function Raised(evs: seq<Event>, k: nat): nat
  {
    if evs == [] then 0 else (if Raises(evs[0], k) then 1 else 0) + Raised(evs[1..], k)
  }

  /** On every run, what was accepted and what may still be was raised or was there at the start. */
  lemma {:induction false} AcceptedWasRaised(st: State, evs: seq<Event>, k: nat)
    requires Wf(st) && PossibleRun(st, evs) && k < |st.irqs|
    ensures |Run(st, evs).irqs| == |st.irqs|
    ensures Accepted(st, evs, k) + Tokens(Run(st, evs), k) <= Tokens(st, k) + Raised(evs, k)
    decreases |evs|
  {
    if evs != [] {
      StepWf(st, evs[0]);
      StepTokens(st, evs[0], k);
      AcceptedWasRaised(Step(st, evs[0]), evs[1..], k);
    }
  }

  lemma {:induction false} NoneShown(ss: seq<Server>, k: nat)
    requires forall s :: 0 <= s < |ss| ==> ss[s].xisr == 0
    ensures Shown(ss, k) == 0
  {
    if ss != [] {
      NoneShown(ss[1..], k);
    }
  }

  /** From the start no source is accepted more often than it was raised. */
  lemma AcceptedAtMostRaised(servers: nat, sources: nat, evs: seq<Event>, k: nat)
    requires 0 < servers && k < sources && OFFSET + sources <= U24 && PossibleRun(Init(servers, sources), evs)
    ensures Accepted(Init(servers, sources), evs, k) <= Raised(evs, k)
  {
    AcceptedWasRaised(Init(servers, sources), evs, k);
    NoneShown(Init(servers, sources).ss, k);
  }
}
