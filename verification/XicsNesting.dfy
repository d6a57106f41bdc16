/**
  The registers of the XICS: which call leaves what in them, what an accepted interrupt lets through, and that handlers
  nest by priority.
 */
module XicsNesting {
  import opened Xics
  import opened XicsSafety

  // ---------------------------------------------------------------- what only calls write

  /** The CPUs' own priorities, the IPI priorities and the settings of the sources are the same. */
  predicate SameSettings(st: State, st': State)
  {
    && SameSize(st, st')
    && (forall s :: 0 <= s < |st.ss| ==> st'.ss[s].cppr == st.ss[s].cppr && st'.ss[s].mfrr == st.ss[s].mfrr)
    && (forall k :: 0 <= k < |st.irqs| ==>
          st'.irqs[k].server == st.irqs[k].server && st'.irqs[k].priority == st.irqs[k].priority)
  }

  lemma IrqSettings(st: State, server: nat, nr: nat, priority: nat)
    requires Wf(st) && server < |st.ss| && OFFSET <= nr < OFFSET + |st.irqs|
    ensures SameSettings(st, Irq(st, server, nr, priority))
  {
  }

  lemma ResendOneSettings(st: State, k: nat)
    requires Wf(st) && k < |st.irqs|
    ensures SameSettings(st, ResendOne(st, k))
  {
    var i := st.irqs[k];
    if i.rejected {
      var st1 := st.(irqs := st.irqs[k := i.(rejected := false)]);
      assert SameSettings(st, st1);
      if i.priority != MASKED {
        IrqSettings(st1, i.server, OFFSET + k, i.priority);
      }
    }
  }

  lemma {:induction false} ResendFromSettings(st: State, k: nat)
    requires Wf(st) && k <= |st.irqs|
    ensures SameSettings(st, ResendFrom(st, k))
    decreases |st.irqs| - k
  {
    if k < |st.irqs| {
      ResendOneWf(st, k);
      ResendOneSettings(st, k);
      ResendFromSettings(ResendOne(st, k), k + 1);
    }
  }

  /** However much is resent, presenting and rejecting change no setting. */
  lemma ResendSettings(st: State, s: nat)
    requires Wf(st) && s < |st.ss|
    ensures SameSettings(st, Resend(st, s))
  {
    CheckIpiWf(st, s);
    if st.ss[s].mfrr < st.ss[s].cppr {
      assert SameSettings(st, CheckIpi(st, s));
      ResendFromSettings(CheckIpi(st, s), 0);
    } else {
      ResendFromSettings(st, 0);
    }
  }

  lemma SetCpprSettings(st: State, s: nat, cppr: nat)
    requires Wf(st) && s < |st.ss| && cppr <= 0xff
    ensures SameSettings(WithCppr(st, s, cppr), SetCppr(st, s, cppr))
    ensures SameSettings(WithCppr(st, s, cppr), Eoi(st, s, cppr))
  {
    ResendSettings(WithCppr(st, s, cppr), s);
  }

  lemma SetMfrrSettings(st: State, s: nat, mfrr: nat)
    requires Wf(st) && s < |st.ss| && mfrr <= 0xff
    ensures SameSettings(st.(ss := st.ss[s := st.ss[s].(mfrr := mfrr)]), SetMfrr(st, s, mfrr))
  {
  }

  lemma RaiseSettings(st: State, k: nat)
    requires Wf(st) && k < |st.irqs|
    ensures SameSettings(st, Raise(st, k))
  {
  }

  lemma SourceSettings(st: State, k: nat, server: nat, priority: nat)
    requires Wf(st) && k < |st.irqs| && server < |st.ss| && priority <= 0xff
    ensures SameSettings(st.(irqs := st.irqs[k := st.irqs[k].(server := server, priority := priority)]),
                         WriteXive(st, k, server, priority))
  {
  }

  /** The state with only the settings changed that a call changes. */
  function SetUp(st: State, ev: Event): State
    requires Wf(st) && Possible(st, ev)
  {
    match ev
    case Cppr(cpu, value) => WithCppr(st, cpu, value % 256)
    case Ipi(server, value) =>
      if server < |st.ss| then st.(ss := st.ss[server := st.ss[server].(mfrr := value % 256)]) else st
    case Xirr(cpu) => WithCppr(st, cpu, st.ss[cpu].pending)
    case EndOfIrq(cpu, xirr) => WithCppr(st, cpu, CpprOf(xirr))
    case Xive(nr, server, priority) =>
      if 16 <= nr < 16 + |st.irqs| && server < |st.ss| && priority <= 0xff
      then st.(irqs := st.irqs[nr - 16 := st.irqs[nr - 16].(server := server, priority := priority)])
      else st
    case Line(_, _) => st
  }

  /**
    Which calls change the settings, and to what. The priority of a CPU becomes the one asked for, the one of what it
    accepts, or the one it ends an interrupt with; presenting, rejecting and resending on the way change nothing.
   */
  lemma StepSettings(st: State, ev: Event)
    requires Wf(st) && Possible(st, ev)
    ensures SameSettings(SetUp(st, ev), Step(st, ev))
  {
    if ev.Xive? || ev.Line? {
      SourceStepSettings(st, ev);
    } else {
      ServerStepSettings(st, ev);
    }
  }

  lemma ServerStepSettings(st: State, ev: Event)
    requires Wf(st) && Possible(st, ev) && !ev.Xive? && !ev.Line?
    ensures SameSettings(SetUp(st, ev), Step(st, ev))
  {
    match ev
    case Cppr(cpu, value) => SetCpprSettings(st, cpu, value % 256);
    case Ipi(server, value) =>
      if server < |st.ss| {
        SetMfrrSettings(st, server, value % 256);
      }
    case Xirr(cpu) =>
    case EndOfIrq(cpu, xirr) => SetCpprSettings(st, cpu, CpprOf(xirr));
  }

  lemma SourceStepSettings(st: State, ev: Event)
    requires Wf(st) && Possible(st, ev) && (ev.Xive? || ev.Line?)
    ensures SameSettings(SetUp(st, ev), Step(st, ev))
  {
    if ev.Line? {
      RaiseSettings(st, ev.irq - OFFSET);
    } else if ValidXive(st, ev.nr, ev.server, ev.priority) {
      SourceSettings(st, ev.nr - OFFSET, ev.server, ev.priority);
    }
  }

  // ---------------------------------------------------------------- what gets through

  /** A source that is raised reaches its CPU exactly when it is more favoured than the CPU and what is there. */
  lemma RaisedExact(st: State, k: nat)
    requires Wf(st) && k < |st.irqs| && st.irqs[k].priority != 0xff
    ensures
      var i := st.irqs[k];
      var x, st' := st.ss[i.server], Raise(st, k);
      var through := i.priority < x.cppr && (x.xisr == 0 || i.priority < x.pending);
      && st'.ss[i.server] == (if through then x.(xisr := 16 + k, pending := i.priority, line := true) else x)
      && (!through ==> st'.irqs[k].rejected)
      && (through && 16 <= x.xisr != 16 + k ==> st'.irqs[x.xisr - 16].rejected)
      && forall s :: 0 <= s < |st.ss| && s != i.server ==> st'.ss[s] == st.ss[s]
  {
  }

  /** A masked one is kept pending, and unmasking it sends it once. */
  lemma UnmaskedExact(st: State, k: nat, server: nat, priority: nat)
    requires Wf(st) && k < |st.irqs| && st.irqs[k].priority == 0xff && server < |st.ss| && priority < 0xff
    ensures Raise(st, k) == st.(irqs := st.irqs[k := st.irqs[k].(masked := true)])
    ensures
      var i := st.irqs[k].(server := server, priority := priority, masked := false);
      var open := st.(irqs := st.irqs[k := i]);
      Wf(open) && WriteXive(st, k, server, priority) == if st.irqs[k].masked then Raise(open, k) else open
  {
    var i := st.irqs[k].(server := server, priority := priority, masked := false);
    if !st.irqs[k].masked {
      assert i == st.irqs[k].(server := server, priority := priority);
    }
  }

  /** A wanted IPI reaches its CPU exactly when it is more favoured than the CPU and what is there. */
  lemma IpiExact(st: State, s: nat, mfrr: nat)
    requires Wf(st) && s < |st.ss| && mfrr <= 0xff
    ensures
      var x, st' := st.ss[s], SetMfrr(st, s, mfrr);
      var through := mfrr < x.cppr && (x.xisr == 0 || mfrr < x.pending);
      && st'.ss[s] == (if through then x.(xisr := 2, pending := mfrr, mfrr := mfrr, line := true) else x.(mfrr := mfrr))
      && (through && 16 <= x.xisr ==> st'.irqs[x.xisr - 16].rejected)
      && forall r :: 0 <= r < |st.ss| && r != s ==> st'.ss[r] == st.ss[r]
  {
  }

  /** A more favoured priority of the CPU sends what is presented back exactly when that is not above it any more. */
  lemma LoweredExact(st: State, s: nat, cppr: nat)
    requires Wf(st) && s < |st.ss| && cppr < st.ss[s].cppr
    ensures
      var x, st' := st.ss[s], SetCppr(st, s, cppr);
      var back := x.xisr != 0 && cppr <= x.pending;
      && st'.ss[s] == (if back then x.(cppr := cppr, xisr := 0, line := false) else x.(cppr := cppr))
      && (back && 16 <= x.xisr ==> st'.irqs[x.xisr - 16].rejected)
      && (!back ==> st'.irqs == st.irqs)
      && forall r :: 0 <= r < |st.ss| && r != s ==> st'.ss[r] == st.ss[r]
  {
  }

  /** After an accept exactly what is more favoured than the accepted interrupt gets through. */
  lemma AcceptedExact(st: State, s: nat, k: nat, mfrr: nat)
    requires Wf(st) && s < |st.ss| && st.ss[s].xisr != 0 && mfrr <= 0xff
    requires k < |st.irqs| && st.irqs[k].server == s && st.irqs[k].priority != MASKED
    ensures
      var st' := Accept(st, s);
      && Wf(st') && st'.ss[s].xisr == 0 && !st'.ss[s].line
      && (Raise(st', k).ss[s].xisr == 16 + k <==> st.irqs[k].priority < st.ss[s].pending)
      && (Raise(st', k).ss[s].line <==> st.irqs[k].priority < st.ss[s].pending)
      && (SetMfrr(st', s, mfrr).ss[s].xisr == 2 <==> mfrr < st.ss[s].pending)
  {
  }

  // ---------------------------------------------------------------- nested handlers

  /** From the innermost handler outwards, priorities are less and less favoured. */
  predicate Rising(ps: seq<nat>) { |ps| <= 1 || (ps[0] < ps[1] && Rising(ps[1..])) }

  /** What a handler keeps while another runs inside it: the priority its CPU had. */
  function Stacked(st: State, ev: Event, s: nat, stack: seq<nat>): seq<nat>
    requires s < |st.ss|
  {
    if ev.Xirr? && ev.cpu == s then [st.ss[s].cppr] + stack
    else if ev.EndOfIrq? && ev.cpu == s && stack != [] then stack[1..]
    else stack
  }

  /**
    The CPU accepts only what is presented to it, ends an interrupt with the priority it read when it accepted it, and
    does not set its priority otherwise. What happens elsewhere is polite.
   */
  ghost predicate Proper(st: State, ev: Event, s: nat, stack: seq<nat>)
    requires Wf(st) && Possible(st, ev) && s < |st.ss|
  {
    if ev.Xirr? && ev.cpu == s then st.ss[s].xisr != 0
    else if ev.EndOfIrq? && ev.cpu == s then stack != [] && CpprOf(ev.xirr) == stack[0]
    else !(ev.Cppr? && ev.cpu == s) && Polite(st, ev)
  }

  ghost predicate ProperRun(st: State, evs: seq<Event>, s: nat, stack: seq<nat>)
    requires Wf(st) && PossibleRun(st, evs) && s < |st.ss|
    decreases |evs|
  {
    evs == [] ||
    (Proper(st, evs[0], s, stack) &&
     (StepWf(st, evs[0]); ProperRun(Step(st, evs[0]), evs[1..], s, Stacked(st, evs[0], s, stack))))
  }

  ghost function StackedAll(st: State, evs: seq<Event>, s: nat, stack: seq<nat>): seq<nat>
    requires Wf(st) && PossibleRun(st, evs) && s < |st.ss|
    decreases |evs|
  {
    if evs == [] then stack
    else StepWf(st, evs[0]); StackedAll(Step(st, evs[0]), evs[1..], s, Stacked(st, evs[0], s, stack))
  }

  /** The priority of the CPU outside all handlers. */
  function Base(cppr: nat, stack: seq<nat>): nat { if stack == [] then cppr else stack[|stack| - 1] }

  lemma ProperStep(st: State, ev: Event, s: nat, stack: seq<nat>)
    requires Delivered(st) && Possible(st, ev) && s < |st.ss| && Proper(st, ev, s, stack)
    requires Rising([st.ss[s].cppr] + stack)
    ensures
      var st', stack' := Step(st, ev), Stacked(st, ev, s, stack);
      && Delivered(st') && |st'.ss| == |st.ss| && Rising([st'.ss[s].cppr] + stack')
      && Base(st'.ss[s].cppr, stack') == Base(st.ss[s].cppr, stack)
  {
    StepSettings(st, ev);
    assert Fair(st, s);
    assert ([st.ss[s].cppr] + stack)[1..] == stack;
    if ev.Xirr? && ev.cpu == s {
      assert ([st.ss[s].pending] + ([st.ss[s].cppr] + stack))[1..] == [st.ss[s].cppr] + stack;
    } else if ev.EndOfIrq? && ev.cpu == s {
      assert [stack[0]] + stack[1..] == stack;
    }
    StepExact(st, ev);
  }

  /**
    On every such run delivery stays fair, each handler runs at a more favoured priority than the one it interrupted,
    and when all have ended the CPU has the priority it began with.
   */
  lemma {:induction false} HandlersNest(st: State, evs: seq<Event>, s: nat, stack: seq<nat>)
    requires Delivered(st) && PossibleRun(st, evs) && s < |st.ss| && ProperRun(st, evs, s, stack)
    requires Rising([st.ss[s].cppr] + stack)
    ensures
      var st', stack' := Run(st, evs), StackedAll(st, evs, s, stack);
      && Delivered(st') && |st'.ss| == |st.ss| && Rising([st'.ss[s].cppr] + stack')
      && Base(st'.ss[s].cppr, stack') == Base(st.ss[s].cppr, stack)
      && (stack == stack' == [] ==> st'.ss[s].cppr == st.ss[s].cppr)
    decreases |evs|
  {
    if evs != [] {
      StepWf(st, evs[0]);
      ProperStep(st, evs[0], s, stack);
      HandlersNest(Step(st, evs[0]), evs[1..], s, Stacked(st, evs[0], s, stack));
    }
  }

  /**
    CPU 0 is interrupted by source 16 at priority 5. While that is handled source 17 gets through at priority 3, and
    source 18 at priority 7 waits.
   */
  lemma HandlerInterrupted()
    ensures
      var a, b, c := Source(0, 5, false, false), Source(0, 3, false, false), Source(0, 7, false, false);
      var st := State([Server(0xff, 16, 5, 0xff, true)], [a, b, c]);
      var inside := State([Server(5, 0, 5, 0xff, false)], [a, b, c]);
      && Wf(st) && Step(st, Xirr(0)) == inside
      && Wf(inside) && Step(inside, Line(17, 1)) == State([Server(5, 17, 3, 0xff, true)], [a, b, c])
      && Step(inside, Line(18, 1)) == inside.(irqs := [a, b, c.(rejected := true)])
  {
  }

  /** When it has ended, with the register value read at the start, source 18 gets through. */
  lemma HandlerEnded()
    ensures
      var a, b, c := Source(0, 5, false, false), Source(0, 3, false, false), Source(0, 7, false, false);
      var inside := State([Server(5, 0, 5, 0xff, false)], [a, b, c.(rejected := true)]);
      && Wf(inside)
      && Step(inside, EndOfIrq(0, 0xff00_0010)) == State([Server(0xff, 18, 7, 0xff, true)], [a, b, c])
  {
    var a, b, c := Source(0, 5, false, false), Source(0, 3, false, false), Source(0, 7, false, false);
    var inside := State([Server(5, 0, 5, 0xff, false)], [a, b, c.(rejected := true)]);
    var waiting := State([Server(0xff, 0, 5, 0xff, false)], [a, b, c.(rejected := true)]);
    assert CpprOf(0xff00_0010) == 0xff && WithCppr(inside, 0, 0xff) == waiting;
    assert ResendFrom(waiting, 0) == ResendFrom(waiting, 1) == ResendFrom(waiting, 2);
    assert ResendOne(waiting, 2) == State([Server(0xff, 18, 7, 0xff, true)], [a, b, c]);
    assert ResendFrom(waiting, 2) == ResendFrom(ResendOne(waiting, 2), 3);
  }
}
