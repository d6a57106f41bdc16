/**
  The interrupt controller as a device: arrays that its entry points update in place. Every entry point does
  to the arrays what the corresponding step does to the state they stand for.
 */
module XicsDevice {
  import opened Xics

  const H_SUCCESS: int := 0
  const H_PARAMETER: int := -4

  class Controller {
    const ss: array<Server>
    const irqs: array<Source>

    ghost function Abs(): State
      reads ss, irqs
    {
      State(ss[..], irqs[..])
    }

    ghost predicate Valid()
      reads ss, irqs
    {
      Wf(Abs())
    }

    constructor (cpus: nat)
      requires 0 < cpus
      ensures Valid() && fresh(ss) && fresh(irqs) && Abs() == Init(cpus, NUM_IRQS)
    {
      ss := new Server[cpus](_ => Server(0, 0, 0, 0xff, false));
      irqs := new Source[NUM_IRQS](_ => Source(0, MASKED, false, false));
    }

    method IcsReject(nr: nat)
      requires nr < OFFSET || nr - OFFSET < irqs.Length
      modifies irqs
      ensures Abs() == Reject(old(Abs()), nr)
    {
      if nr >= OFFSET {
        irqs[nr - OFFSET] := irqs[nr - OFFSET].(rejected := true);
      }
    }

    method IcpIrq(server: nat, nr: nat, priority: nat)
      requires Valid() && server < ss.Length && OFFSET <= nr < OFFSET + irqs.Length && priority <= 0xff
      modifies ss, irqs
      ensures Valid() && Abs() == Irq(old(Abs()), server, nr, priority)
    {
      IrqWf(Abs(), server, nr, priority);
      var x := ss[server];
      if priority >= x.cppr || (x.xisr != 0 && x.pending <= priority) {
        IcsReject(nr);
      } else {
        if x.xisr != 0 {
          IcsReject(x.xisr);
        }
        ss[server] := ss[server].(xisr := nr, pending := priority, line := true);
      }
    }

    method IcpCheckIpi(server: nat)
      requires Valid() && server < ss.Length
      modifies ss, irqs
      ensures Valid() && Abs() == CheckIpi(old(Abs()), server)
    {
      CheckIpiWf(Abs(), server);
      var x := ss[server];
      if x.xisr != 0 && x.pending <= x.mfrr {
        return;
      }
      if x.xisr != 0 {
        IcsReject(x.xisr);
      }
      ss[server] := ss[server].(xisr := IPI, pending := x.mfrr, line := true);
    }

    /** The loop over all sources, which calls back into the presentation layer while it goes. */
    method IcsResend()
      requires Valid()
      modifies ss, irqs
      ensures Valid() && Abs() == ResendFrom(old(Abs()), 0)
    {
      var i := 0;
      while i < irqs.Length
        invariant 0 <= i <= irqs.Length && Valid()
        invariant ResendFrom(Abs(), i) == ResendFrom(old(Abs()), 0)
      {
        ghost var st := Abs();
        ResendOneWf(st, i);
        var irq := irqs[i];
        if irq.rejected {
          irqs[i] := irq.(rejected := false);
          assert Abs() == st.(irqs := st.irqs[i := irq.(rejected := false)]);
          if irq.priority != MASKED {
            IcpIrq(irq.server, OFFSET + i, irq.priority);
          }
        }
        assert Abs() == ResendOne(st, i);
        i := i + 1;
      }
    }

    method IcpResend(server: nat)
      requires Valid() && server < ss.Length
      modifies ss, irqs
      ensures Valid() && Abs() == Resend(old(Abs()), server)
    {
      if ss[server].mfrr < ss[server].cppr {
        IcpCheckIpi(server);
      }
      IcsResend();
    }

    method IcpSetCppr(server: nat, cppr: nat)
      requires Valid() && server < ss.Length && cppr <= 0xff
      modifies ss, irqs
      ensures Valid() && Abs() == SetCppr(old(Abs()), server, cppr)
    {
      SetCpprWf(Abs(), server, cppr);
      var x := ss[server];
      ss[server] := x.(cppr := cppr);
      assert Abs() == WithCppr(old(Abs()), server, cppr);
      if cppr < x.cppr {
        if x.xisr != 0 && cppr <= x.pending {
          ss[server] := ss[server].(xisr := 0, line := false);
          IcsReject(x.xisr);
        }
      } else {
        if x.xisr == 0 {
          IcpResend(server);
        }
      }
    }

    method IcpSetMfrr(server: nat, mfrr: nat)
      requires Valid() && server < ss.Length && mfrr <= 0xff
      modifies ss, irqs
      ensures Valid() && Abs() == SetMfrr(old(Abs()), server, mfrr)
    {
      ghost var st := Abs();
      ss[server] := ss[server].(mfrr := mfrr);
      assert Abs() == st.(ss := st.ss[server := st.ss[server].(mfrr := mfrr)]);
      if mfrr < ss[server].cppr {
        IcpCheckIpi(server);
      }
    }

    /** Returns what was presented, and takes on its priority. */
    method IcpAccept(server: nat) returns (xirr: nat)
      requires Valid() && server < ss.Length
      modifies ss
      ensures Valid() && Abs() == Accept(old(Abs()), server)
      ensures xirr == old(ss[server]).cppr * U24 + old(ss[server]).xisr
      ensures xirr % U24 == old(ss[server]).xisr && CpprOf(xirr) == old(ss[server]).cppr
    {
      xirr := ss[server].cppr * U24 + ss[server].xisr;
      ss[server] := ss[server].(cppr := ss[server].pending, xisr := 0, line := false);
    }

    method IcpEoi(server: nat, xirr: nat)
      requires Valid() && server < ss.Length
      modifies ss, irqs
      ensures Valid() && Abs() == Eoi(old(Abs()), server, CpprOf(xirr))
    {
      ss[server] := ss[server].(cppr := CpprOf(xirr));
      assert Abs() == WithCppr(old(Abs()), server, CpprOf(xirr));
      if ss[server].xisr == 0 {
        IcpResend(server);
      }
    }

    method IcsSetIrqMsi(src: nat, val: nat)
      requires Valid() && src < irqs.Length
      modifies ss, irqs
      ensures Valid() && Abs() == if val != 0 then Raise(old(Abs()), src) else old(Abs())
    {
      if val != 0 {
        RaiseWf(Abs(), src);
        var irq := irqs[src];
        if irq.priority == MASKED {
          irqs[src] := irq.(masked := true);
        } else {
          IcpIrq(irq.server, src + OFFSET, irq.priority);
        }
      }
    }

    method IcsWriteXiveMsi(nr: nat, server: nat, priority: nat)
      requires Valid() && ValidXive(Abs(), nr, server, priority)
      modifies ss, irqs
      ensures Valid() && Abs() == WriteXive(old(Abs()), nr - OFFSET, server, priority)
    {
      ghost var st := Abs();
      WriteXiveWf(st, nr - OFFSET, server, priority);
      var irq := irqs[nr - OFFSET].(server := server, priority := priority);
      irqs[nr - OFFSET] := irq;
      if !irq.masked || priority == MASKED {
        return;
      }
      irqs[nr - OFFSET] := irq.(masked := false);
      assert Abs() == st.(irqs := st.irqs[nr - OFFSET := irq.(masked := false)]);
      IcpIrq(server, nr, priority);
    }

    // -------------------------------------------------------------- entry points

    method HCppr(cpu: nat, value: nat) returns (r: int)
      requires Valid() && cpu < ss.Length
      modifies ss, irqs
      ensures Valid() && Abs() == Step(old(Abs()), Cppr(cpu, value)) && r == H_SUCCESS
    {
      IcpSetCppr(cpu, value % 0x100);
      r := H_SUCCESS;
    }

    method HIpi(server: nat, value: nat) returns (r: int)
      requires Valid()
      modifies ss, irqs
      ensures Valid() && Abs() == Step(old(Abs()), Ipi(server, value))
      ensures r == if server < ss.Length then H_SUCCESS else H_PARAMETER
    {
      if server >= ss.Length {
        return H_PARAMETER;
      }
      IcpSetMfrr(server, value % 0x100);
      r := H_SUCCESS;
    }

    method HXirr(cpu: nat) returns (r: int, xirr: nat)
      requires Valid() && cpu < ss.Length
      modifies ss
      ensures Valid() && Abs() == Step(old(Abs()), Xirr(cpu)) && r == H_SUCCESS
      ensures xirr % U24 == old(ss[cpu]).xisr && CpprOf(xirr) == old(ss[cpu]).cppr
    {
      xirr := IcpAccept(cpu);
      r := H_SUCCESS;
    }

    method HEoi(cpu: nat, xirr: nat) returns (r: int)
      requires Valid() && cpu < ss.Length
      modifies ss, irqs
      ensures Valid() && Abs() == Step(old(Abs()), EndOfIrq(cpu, xirr)) && r == H_SUCCESS
    {
      IcpEoi(cpu, xirr);
      r := H_SUCCESS;
    }

    method RtasSetXive(nargs: nat, nret: nat, nr: nat, server: nat, priority: nat) returns (r: int)
      requires Valid()
      modifies ss, irqs
      ensures Valid()
      ensures r == 0 <==> nargs == 3 && nret == 1 && ValidXive(old(Abs()), nr, server, priority)
      ensures r == 0 || r == -3
      ensures Abs() == if nargs == 3 && nret == 1 then Step(old(Abs()), Xive(nr, server, priority)) else old(Abs())
    {
      if nargs != 3 || nret != 1 {
        return -3;
      }
      if !(OFFSET <= nr < OFFSET + irqs.Length) || server >= ss.Length || priority > 0xff {
        return -3;
      }
      IcsWriteXiveMsi(nr, server, priority);
      r := 0;
    }

    method IrqLine(irq: nat, level: nat)
      requires Valid() && OFFSET <= irq < OFFSET + irqs.Length
      modifies ss, irqs
      ensures Valid() && Abs() == Step(old(Abs()), Line(irq, level))
    {
      IcsSetIrqMsi(irq - OFFSET, level);
    }
  }
}
