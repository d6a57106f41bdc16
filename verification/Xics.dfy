/**
  The XICS interrupt controller of a PAPR machine: presentation of interrupts to CPUs (ICP) and the
  sources they come from (ICS), as a state machine.
 */
module Xics {

  const IPI: nat := 2            // XICS_IPI
  const OFFSET: nat := 16        // XICS_IRQ_OFFSET
  const NUM_IRQS: nat := 1024    // XICS_NUM_IRQS
  const MASKED: nat := 0xff
  const U24: nat := 0x100_0000

  /** Presentation state of one CPU: XIRR split into its two parts, and the external interrupt line. */
  datatype Server = Server(cppr: nat, xisr: nat, pending: nat, mfrr: nat, line: bool)

  datatype Source = Source(server: nat, priority: nat, rejected: bool, masked: bool)

  datatype State = State(ss: seq<Server>, irqs: seq<Source>)

  predicate WfServer(x: Server, sources: nat)
  {
    && x.cppr <= 0xff && x.pending <= 0xff && x.mfrr <= 0xff
    && (x.xisr == 0 || x.xisr == IPI || OFFSET <= x.xisr < OFFSET + sources)
  }

  predicate WfSource(i: Source, servers: nat)
  {
    i.server < servers && i.priority <= 0xff
  }

  predicate Wf(st: State)
  {
    && OFFSET + |st.irqs| <= U24
    && (forall s :: 0 <= s < |st.ss| ==> WfServer(st.ss[s], |st.irqs|))
    && (forall k :: 0 <= k < |st.irqs| ==> WfSource(st.irqs[k], |st.ss|))
  }

  // ---------------------------------------------------------------- the operations

  /** Marks a source as rejected. Rejecting the IPI, which is no source, changes nothing. */
  function Reject(st: State, nr: nat): State
    requires nr < OFFSET || nr - OFFSET < |st.irqs|
  {
    if nr < OFFSET then st else st.(irqs := st.irqs[nr - OFFSET := st.irqs[nr - OFFSET].(rejected := true)])
  }

  function Present(st: State, server: nat, nr: nat, priority: nat): State
    requires server < |st.ss|
  {
    st.(ss := st.ss[server := st.ss[server].(xisr := nr, pending := priority, line := true)])
  }

  /** Something more favoured is presented already, or the CPU's own priority is. */
  predicate Held(x: Server, priority: nat)
  {
    priority >= x.cppr || (x.xisr != 0 && x.pending <= priority)
  }

  function Irq(st: State, server: nat, nr: nat, priority: nat): State
    requires Wf(st) && server < |st.ss| && OFFSET <= nr < OFFSET + |st.irqs|
  {
    var x := st.ss[server];
    if Held(x, priority) then Reject(st, nr)
    else Present(if x.xisr != 0 then Reject(st, x.xisr) else st, server, nr, priority)
  }

  function CheckIpi(st: State, server: nat): State
    requires Wf(st) && server < |st.ss|
  {
    var x := st.ss[server];
    if x.xisr != 0 && x.pending <= x.mfrr then st
    else Present(if x.xisr != 0 then Reject(st, x.xisr) else st, server, IPI, x.mfrr)
  }

  /** One turn of the resend loop. */
  function ResendOne(st: State, k: nat): State
    requires Wf(st) && k < |st.irqs|
  {
    var i := st.irqs[k];
    if !i.rejected then st
    else
      var st1 := st.(irqs := st.irqs[k := i.(rejected := false)]);
      if i.priority == MASKED then st1 else Irq(st1, i.server, OFFSET + k, i.priority)
  }

  lemma IrqWf(st: State, server: nat, nr: nat, priority: nat)
    requires Wf(st) && server < |st.ss| && OFFSET <= nr < OFFSET + |st.irqs| && priority <= 0xff
    ensures
      var st' := Irq(st, server, nr, priority);
      Wf(st') && |st'.ss| == |st.ss| && |st'.irqs| == |st.irqs|
  {
  }

  lemma ResendOneWf(st: State, k: nat)
    requires Wf(st) && k < |st.irqs|
    ensures
      var st' := ResendOne(st, k);
      Wf(st') && |st'.ss| == |st.ss| && |st'.irqs| == |st.irqs|
  {
    var i := st.irqs[k];
    if i.rejected && i.priority != MASKED {
      IrqWf(st.(irqs := st.irqs[k := i.(rejected := false)]), i.server, OFFSET + k, i.priority);
    }
  }

  /** The resend loop from source `k` on. */
  function ResendFrom(st: State, k: nat): (st': State)
    requires Wf(st) && k <= |st.irqs|
    ensures Wf(st') && |st'.ss| == |st.ss| && |st'.irqs| == |st.irqs|
    decreases |st.irqs| - k
  {
    if k == |st.irqs| then st
    else
      ResendOneWf(st, k);
      ResendFrom(ResendOne(st, k), k + 1)
  }

  function Resend(st: State, server: nat): State
    requires Wf(st) && server < |st.ss|
  {
    var x := st.ss[server];
    if x.mfrr < x.cppr then
      CheckIpiWf(st, server);
      ResendFrom(CheckIpi(st, server), 0)
    else ResendFrom(st, 0)
  }

  lemma CheckIpiWf(st: State, server: nat)
    requires Wf(st) && server < |st.ss|
    ensures
      var st' := CheckIpi(st, server);
      Wf(st') && |st'.ss| == |st.ss| && |st'.irqs| == |st.irqs|
  {
  }

  function WithCppr(st: State, server: nat, cppr: nat): State
    requires server < |st.ss|
  {
    st.(ss := st.ss[server := st.ss[server].(cppr := cppr)])
  }

  function SetCppr(st: State, server: nat, cppr: nat): State
    requires Wf(st) && server < |st.ss| && cppr <= 0xff
  {
    var x, st1 := st.ss[server], WithCppr(st, server, cppr);
    if cppr < x.cppr then
      if x.xisr != 0 && cppr <= x.pending then
        Reject(st1.(ss := st1.ss[server := st1.ss[server].(xisr := 0, line := false)]), x.xisr)
      else st1
    else if x.xisr == 0 then assert Wf(st1); Resend(st1, server)
    else st1
  }

  function SetMfrr(st: State, server: nat, mfrr: nat): State
    requires Wf(st) && server < |st.ss| && mfrr <= 0xff
  {
    var st1 := st.(ss := st.ss[server := st.ss[server].(mfrr := mfrr)]);
    assert Wf(st1);
    if mfrr < st.ss[server].cppr then CheckIpi(st1, server) else st1
  }

  function Accept(st: State, server: nat): State
    requires server < |st.ss|
  {
    st.(ss := st.ss[server := st.ss[server].(cppr := st.ss[server].pending, xisr := 0, line := false)])
  }

  function Eoi(st: State, server: nat, cppr: nat): State
    requires Wf(st) && server < |st.ss| && cppr <= 0xff
  {
    var st1 := WithCppr(st, server, cppr);
    assert Wf(st1);
    if st.ss[server].xisr == 0 then Resend(st1, server) else st1
  }

  function Raise(st: State, k: nat): State
    requires Wf(st) && k < |st.irqs|
  {
    var i := st.irqs[k];
    if i.priority == MASKED then st.(irqs := st.irqs[k := i.(masked := true)])
    else Irq(st, i.server, OFFSET + k, i.priority)
  }

  function WriteXive(st: State, k: nat, server: nat, priority: nat): State
    requires Wf(st) && k < |st.irqs| && server < |st.ss| && priority <= 0xff
  {
    var i := st.irqs[k].(server := server, priority := priority);
    if !i.masked || priority == MASKED then st.(irqs := st.irqs[k := i])
    else
      var st1 := st.(irqs := st.irqs[k := i.(masked := false)]);
      assert Wf(st1);
      Irq(st1, server, OFFSET + k, priority)
  }

  // ---------------------------------------------------------------- events

  /** A hypercall or RTAS call of a CPU, or a device driving its line. */
  datatype Event =
    | Cppr(cpu: nat, value: nat)
    | Ipi(server: nat, value: nat)
    | Xirr(cpu: nat)
    | EndOfIrq(cpu: nat, xirr: nat)
    | Xive(nr: nat, server: nat, priority: nat)
    | Line(irq: nat, level: nat)

  /** Calls come from existing CPUs, and devices drive existing sources. */
  predicate Possible(st: State, ev: Event)
  {
    match ev
    case Cppr(cpu, _) => cpu < |st.ss|
    case Ipi(_, _) => true
    case Xirr(cpu) => cpu < |st.ss|
    case EndOfIrq(cpu, _) => cpu < |st.ss|
    case Xive(_, _, _) => true
    case Line(irq, _) => OFFSET <= irq < OFFSET + |st.irqs|
  }

  predicate ValidXive(st: State, nr: nat, server: nat, priority: nat)
  {
    OFFSET <= nr < OFFSET + |st.irqs| && server < |st.ss| && priority <= 0xff
  }

  /** The priority byte of a 32-bit XIRR value. */
  function CpprOf(xirr: nat): (c: nat)
    ensures c <= 0xff
  {
    xirr % 0x1_0000_0000 / U24
  }

  function Step(st: State, ev: Event): State
    requires Wf(st) && Possible(st, ev)
  {
    match ev
    case Cppr(cpu, value) => SetCppr(st, cpu, value % 0x100)
    case Ipi(server, value) => if server < |st.ss| then SetMfrr(st, server, value % 0x100) else st
    case Xirr(cpu) => Accept(st, cpu)
    case EndOfIrq(cpu, xirr) => Eoi(st, cpu, CpprOf(xirr))
    case Xive(nr, server, priority) =>
      if ValidXive(st, nr, server, priority) then WriteXive(st, nr - OFFSET, server, priority) else st
    case Line(irq, level) => if level != 0 then Raise(st, irq - OFFSET) else st
  }

  predicate SameSize(st: State, st': State)
  {
    |st'.ss| == |st.ss| && |st'.irqs| == |st.irqs|
  }

  lemma ResendWf(st: State, server: nat)
    requires Wf(st) && server < |st.ss|
    ensures Wf(Resend(st, server)) && SameSize(st, Resend(st, server))
  {
    CheckIpiWf(st, server);
  }

  lemma SetCpprWf(st: State, server: nat, cppr: nat)
    requires Wf(st) && server < |st.ss| && cppr <= 0xff
    ensures Wf(SetCppr(st, server, cppr)) && SameSize(st, SetCppr(st, server, cppr))
  {
    var st1 := WithCppr(st, server, cppr);
    if cppr >= st.ss[server].cppr && st.ss[server].xisr == 0 {
      ResendWf(st1, server);
    }
  }

  lemma SetMfrrWf(st: State, server: nat, mfrr: nat)
    requires Wf(st) && server < |st.ss| && mfrr <= 0xff
    ensures Wf(SetMfrr(st, server, mfrr)) && SameSize(st, SetMfrr(st, server, mfrr))
  {
    CheckIpiWf(st.(ss := st.ss[server := st.ss[server].(mfrr := mfrr)]), server);
  }

  lemma EoiWf(st: State, server: nat, cppr: nat)
    requires Wf(st) && server < |st.ss| && cppr <= 0xff
    ensures Wf(Eoi(st, server, cppr)) && SameSize(st, Eoi(st, server, cppr))
  {
    ResendWf(WithCppr(st, server, cppr), server);
  }

  lemma WriteXiveWf(st: State, k: nat, server: nat, priority: nat)
    requires Wf(st) && k < |st.irqs| && server < |st.ss| && priority <= 0xff
    ensures Wf(WriteXive(st, k, server, priority)) && SameSize(st, WriteXive(st, k, server, priority))
  {
    IrqWf(st.(irqs := st.irqs[k := st.irqs[k].(server := server, priority := priority, masked := false)]),
          server, OFFSET + k, priority);
  }

  lemma RaiseWf(st: State, k: nat)
    requires Wf(st) && k < |st.irqs|
    ensures Wf(Raise(st, k)) && SameSize(st, Raise(st, k))
  {
    IrqWf(st, st.irqs[k].server, OFFSET + k, st.irqs[k].priority);
  }

  lemma StepWf(st: State, ev: Event)
    requires Wf(st) && Possible(st, ev)
    ensures Wf(Step(st, ev)) && SameSize(st, Step(st, ev))
  {
    match ev
    case Cppr(cpu, value) => SetCpprWf(st, cpu, value % 0x100);
    case Ipi(server, value) =>
      if server < |st.ss| {
        SetMfrrWf(st, server, value % 0x100);
      }
    case Xirr(cpu) =>
    case EndOfIrq(cpu, xirr) => EoiWf(st, cpu, CpprOf(xirr));
    case Xive(nr, server, priority) =>
      if ValidXive(st, nr, server, priority) {
        WriteXiveWf(st, nr - OFFSET, server, priority);
      }
    case Line(irq, level) => RaiseWf(st, irq - OFFSET);
  }

  /** All events of a run are possible where they occur. */
  predicate PossibleRun(st: State, evs: seq<Event>)
    requires Wf(st)
    decreases |evs|
  {
    evs == [] || (Possible(st, evs[0]) && (StepWf(st, evs[0]); PossibleRun(Step(st, evs[0]), evs[1..])))
  }

  function Run(st: State, evs: seq<Event>): (st': State)
    requires Wf(st) && PossibleRun(st, evs)
    ensures Wf(st')
    decreases |evs|
  {
    if evs == [] then st else StepWf(st, evs[0]); Run(Step(st, evs[0]), evs[1..])
  }

  /** The controller as it is set up for a number of CPUs and sources. */
  function Init(servers: nat, sources: nat): State
  {
    State(seq(servers, _ => Server(0, 0, 0, 0xff, false)), seq(sources, _ => Source(0, MASKED, false, false)))
  }
}
