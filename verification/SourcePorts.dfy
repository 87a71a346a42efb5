/** Source current allocation of the charge manager: 3 A on one active port, the default on the rest. */
module SourcePorts {
  datatype Rp = RpUsb | Rp1A5 | Rp3A0

  // CONFIG_USB_PD_MAX_SINGLE_SOURCE_CURRENT
  const MAX: Rp := Rp3A0

  function Milliamps(rp: Rp): nat
  {
    match rp
    case Rp3A0 => 3000
    case Rp1A5 => 1500
    case RpUsb => 500
  }

  /** The allocator's state: the set bits of source_port_bitmap and source_port_rp. */
  datatype State = State(active: set<nat>, rp: seq<Rp>)

  ghost predicate CanSupply(s: State, port: nat)
  {
    && (port in s.active || s.active - {port} == {})
    && forall p :: 0 <= p < |s.rp| && p != port && p in s.active ==> s.rp[p] != MAX
  }

  /** The loop of charge_manager_source_port from port p on: each decision sees the ones before. */
  ghost function Redistribute(s: State, p: nat, pullup: Rp): State
    requires p <= |s.rp|
    decreases |s.rp| - p
  {
    if p == |s.rp| then s
    else Redistribute(s.(rp := s.rp[p := if CanSupply(s, p) then MAX else pullup]), p + 1, pullup)
  }

  ghost function SourceStep(s: State, port: nat, enable: bool, pullup: Rp): State
  {
    var active := if enable then s.active + {port} else s.active - {port};
    if active == s.active then s else Redistribute(s.(active := active), 0, pullup)
  }

  // ---------------------------------------------------------------------------
  // What every reachable state satisfies.

  /** h is active and alone holds the maximum; every other port, active or not, has the default. */
  ghost predicate Holds(s: State, h: nat, pullup: Rp)
  {
    && h in s.active && h < |s.rp| && s.rp[h] == MAX
    && forall p :: 0 <= p < |s.rp| && p != h ==> s.rp[p] == pullup
  }

  ghost predicate Uniform(s: State, rp: Rp)
  {
    forall p :: 0 <= p < |s.rp| ==> s.rp[p] == rp
  }

  ghost predicate Inv(s: State, n: nat, pullup: Rp)
  {
    && |s.rp| == n
    && (forall p :: p in s.active ==> p < n)
    && if s.active == {} then Uniform(s, MAX) || Uniform(s, pullup) else exists h :: Holds(s, h, pullup)
  }

  ghost predicate IsLeast(h: nat, s: set<nat>)
  {
    h in s && forall p :: p in s ==> h <= p
  }

  /** h is the port the loop settles on: the holder, or else the lowest active port. */
  ghost predicate Target(s: State, h: nat)
  {
    && h in s.active && h < |s.rp|
    && (forall p :: 0 <= p < |s.rp| && p != h && p in s.active ==> s.rp[p] != MAX)
    && (s.rp[h] == MAX || IsLeast(h, s.active))
  }

  lemma {:induction false} RedistributeSettles(s: State, p: nat, h: nat, pullup: Rp)
    requires p <= |s.rp| && pullup != MAX && Target(s, h)
    requires forall q :: 0 <= q < p ==> s.rp[q] == if q == h then MAX else pullup
    ensures var t := Redistribute(s, p, pullup); t.active == s.active && |t.rp| == |s.rp| && Holds(t, h, pullup)
    decreases |s.rp| - p
  {
    if p < |s.rp| {
      if p != h {
        assert h in s.active - {p};
        assert !CanSupply(s, p);
      } else {
        assert CanSupply(s, p);
      }
      RedistributeSettles(s.(rp := s.rp[p := if CanSupply(s, p) then MAX else pullup]), p + 1, h, pullup);
    }
  }

  lemma {:induction false} RedistributeIdle(s: State, p: nat, pullup: Rp)
    requires p <= |s.rp| && s.active == {}
    requires forall q :: 0 <= q < p ==> s.rp[q] == MAX
    ensures var t := Redistribute(s, p, pullup); t.active == {} && |t.rp| == |s.rp| && Uniform(t, MAX)
    decreases |s.rp| - p
  {
    if p < |s.rp| {
      assert CanSupply(s, p);
      RedistributeIdle(s.(rp := s.rp[p := MAX]), p + 1, pullup);
    }
  }

  lemma {:induction false} LeastExists(s: set<nat>) returns (h: nat)
    requires s != {}
    ensures IsLeast(h, s)
  {
    var x :| x in s;
    if s == {x} {
      h := x;
    } else {
      var rest := s - {x};
      h := LeastExists(rest);
      if x < h {
        h := x;
      }
      assert forall p :: p in s ==> p == x || p in rest;
    }
  }

  /** One call keeps the invariant.  A holder that stays active stays the holder; when it
      goes away, the lowest active port takes over; when the last port goes away, every
      port is offered the maximum. */
  lemma StepKeepsInv(s: State, port: nat, enable: bool, n: nat, pullup: Rp)
    requires Inv(s, n, pullup) && port < n && pullup != MAX
    ensures (var t := SourceStep(s, port, enable, pullup);
             && Inv(t, n, pullup)
             && t.active == (if enable then s.active + {port} else s.active - {port})
             && (forall h :: Holds(s, h, pullup) && h in t.active ==> Holds(t, h, pullup))
             && (forall h, g :: Holds(s, h, pullup) && h !in t.active && IsLeast(g, t.active) ==> Holds(t, g, pullup))
             && (t.active == {} && s.active != {} ==> Uniform(t, MAX)))
  {
    var active := if enable then s.active + {port} else s.active - {port};
    if active == s.active {
    } else if active == {} {
      RedistributeIdle(s.(active := active), 0, pullup);
    } else {
      var t := s.(active := active);
      var h;
      if s.active == {} {
        h := port;
      } else {
        var g :| Holds(s, g, pullup);
        if g in active {
          h := g;
        } else {
          h := LeastExists(active);
        }
      }
      assert Target(t, h);
      RedistributeSettles(t, 0, h, pullup);
    }
  }

  // ---------------------------------------------------------------------------
  // Runs.

  datatype Call = Call(port: nat, enable: bool)

  ghost predicate Calls(calls: seq<Call>, n: nat)
  {
    forall i :: 0 <= i < |calls| ==> calls[i].port < n
  }

  ghost function Initial(n: nat, pullup: Rp): State
  {
    State({}, seq(n, i => pullup))
  }

  /** The state after charge_manager_init and a sequence of charge_manager_source_port calls. */
  ghost function Run(n: nat, pullup: Rp, calls: seq<Call>): State
  {
    if calls == [] then Initial(n, pullup)
    else
      var last := calls[|calls| - 1];
      SourceStep(Run(n, pullup, calls[..|calls| - 1]), last.port, last.enable, pullup)
  }

  /** In every reachable state with an active source, exactly one port has the maximum, it is
      active, and all others have the default. */
  lemma {:induction false} EveryRunKeepsInv(n: nat, pullup: Rp, calls: seq<Call>)
    requires Calls(calls, n) && pullup != MAX
    ensures Inv(Run(n, pullup, calls), n, pullup)
  {
    if calls != [] {
      var last := calls[|calls| - 1];
      EveryRunKeepsInv(n, pullup, calls[..|calls| - 1]);
      StepKeepsInv(Run(n, pullup, calls[..|calls| - 1]), last.port, last.enable, n, pullup);
    }
  }

  /** Age plays no part: two states with the same active ports and the same holder are equal
      port by port, whatever order the ports were enabled in, and stay equal when the holder
      goes away. */
  lemma AgeIsForgotten(s: State, t: State, h: nat, n: nat, pullup: Rp)
    requires Inv(s, n, pullup) && Inv(t, n, pullup) && pullup != MAX
    requires s.active == t.active && Holds(s, h, pullup) && Holds(t, h, pullup)
    ensures s == t
    ensures SourceStep(s, h, false, pullup) == SourceStep(t, h, false, pullup)
    ensures s.active != {h} ==>
              exists g :: IsLeast(g, s.active - {h}) && Holds(SourceStep(s, h, false, pullup), g, pullup)
  {
    assert s.rp == t.rp;
    StepKeepsInv(s, h, false, n, pullup);
    if s.active != {h} {
      assert s.active - {h} != {};
      var g := LeastExists(s.active - {h});
    }
  }

  lemma RunAppend(n: nat, pullup: Rp, calls: seq<Call>, c: Call)
    ensures Run(n, pullup, calls + [c]) == SourceStep(Run(n, pullup, calls), c.port, c.enable, pullup)
  {
    assert (calls + [c])[..|calls + [c]| - 1] == calls;
  }

  /** Ports 0, 1 and 2 become sources in this order, and then port 0 goes away: 3 A pass to port 1,
      the older of the other two. */
  lemma OlderPortIsPromoted(calls: seq<Call>)
    requires calls == [] + [Call(0, true)] + [Call(1, true)] + [Call(2, true)] + [Call(0, false)]
    ensures (var s := Run(3, Rp1A5, calls); s.active == {1, 2} && |s.rp| == 3 && s.rp[1] == Rp3A0 && s.rp[2] == Rp1A5)
  {
    hide SourceStep, Run;
    var none := [];
    var one := none + [Call(0, true)];
    var two := one + [Call(1, true)];
    var three := two + [Call(2, true)];
    assert Calls(none, 3) && Calls(one, 3) && Calls(two, 3) && Calls(three, 3);
    EveryRunKeepsInv(3, Rp1A5, none);
    EveryRunKeepsInv(3, Rp1A5, one);
    EveryRunKeepsInv(3, Rp1A5, two);
    EveryRunKeepsInv(3, Rp1A5, three);
    RunAppend(3, Rp1A5, none, Call(0, true));
    RunAppend(3, Rp1A5, one, Call(1, true));
    RunAppend(3, Rp1A5, two, Call(2, true));
    RunAppend(3, Rp1A5, three, Call(0, false));
    assert Run(3, Rp1A5, none).active == {} by { NothingYet(3, Rp1A5); }
    StepKeepsInv(Run(3, Rp1A5, none), 0, true, 3, Rp1A5);
    assert Holds(Run(3, Rp1A5, one), 0, Rp1A5);
    StepKeepsInv(Run(3, Rp1A5, one), 1, true, 3, Rp1A5);
    StepKeepsInv(Run(3, Rp1A5, two), 2, true, 3, Rp1A5);
    assert Holds(Run(3, Rp1A5, three), 0, Rp1A5);
    StepKeepsInv(Run(3, Rp1A5, three), 0, false, 3, Rp1A5);
    assert IsLeast(1, Run(3, Rp1A5, calls).active);
  }

  lemma NothingYet(n: nat, pullup: Rp)
    ensures Run(n, pullup, []) == Initial(n, pullup)
  {
  }

  /** Current drawn through the active ports below n. */
  ghost function TotalCurrent(s: State, n: nat): nat
    requires n <= |s.rp|
  {
    if n == 0 then 0
    else TotalCurrent(s, n - 1) + if n - 1 in s.active then Milliamps(s.rp[n - 1]) else 0
  }

  lemma {:induction false} TotalUpTo(s: State, n: nat, h: nat, pullup: Rp)
    requires n <= |s.rp| && Holds(s, h, pullup) && pullup != MAX
    ensures TotalCurrent(s, n) <= n * 1500 + if h < n then 1500 else 0
  {
    if n != 0 {
      TotalUpTo(s, n - 1, h, pullup);
    }
  }

  /** The budget the build assertion checks: N * 1500 + 1500 mA, in every reachable state. */
  lemma TotalWithinBudget(n: nat, pullup: Rp, calls: seq<Call>)
    requires Calls(calls, n) && pullup != MAX
    ensures |Run(n, pullup, calls).rp| == n && TotalCurrent(Run(n, pullup, calls), n) <= n * 1500 + 1500
  {
    EveryRunKeepsInv(n, pullup, calls);
    var s := Run(n, pullup, calls);
    if s.active == {} {
      TotalIdle(s, n);
    } else {
      var h :| Holds(s, h, pullup);
      TotalUpTo(s, n, h, pullup);
    }
  }

  /** The active ports below n. */
  ghost function ActiveBelow(s: State, n: nat): set<nat>
  {
    set p: nat | p < n && p in s.active
  }

  lemma {:induction false} ExactUpTo(s: State, n: nat, h: nat, pullup: Rp)
    requires n <= |s.rp| && Holds(s, h, pullup) && pullup != MAX
    ensures h < n ==> |ActiveBelow(s, n)| > 0
    ensures TotalCurrent(s, n)
         == (if h < n then 3000 + Milliamps(pullup) * (|ActiveBelow(s, n)| - 1)
             else Milliamps(pullup) * |ActiveBelow(s, n)|)
  {
    if n == 0 {
      assert ActiveBelow(s, 0) == {};
    } else {
      ExactUpTo(s, n - 1, h, pullup);
      var before := ActiveBelow(s, n - 1);
      assert ActiveBelow(s, n) == if n - 1 in s.active then before + {n - 1} else before;
      hide ActiveBelow;
    }
  }

  /** The exact sum: 3 A, and the default of 1.5 A or 0.5 A for each active port but one. */
  lemma TotalIsExact(n: nat, pullup: Rp, calls: seq<Call>)
    requires Calls(calls, n) && pullup != MAX
    ensures (var s := Run(n, pullup, calls);
             && |s.rp| == n
             && TotalCurrent(s, n) == (if s.active == {} then 0
                                       else 3000 + (if pullup == Rp1A5 then 1500 else 500) * (|s.active| - 1)))
  {
    hide Run, Milliamps, Holds;
    EveryRunKeepsInv(n, pullup, calls);
    var s := Run(n, pullup, calls);
    if s.active == {} {
      TotalIdle(s, n);
    } else {
      assert ActiveBelow(s, n) == s.active;
      var h :| Holds(s, h, pullup);
      MilliampsAre(pullup);
      HolderIsBelow(s, h, pullup);
      ExactUpTo(s, n, h, pullup);
    }
  }

  lemma MilliampsAre(pullup: Rp)
    ensures pullup != MAX ==> Milliamps(pullup) == if pullup == Rp1A5 then 1500 else 500
  {
  }

  lemma HolderIsBelow(s: State, h: nat, pullup: Rp)
    ensures Holds(s, h, pullup) ==> h < |s.rp|
  {
  }

  lemma {:induction false} TotalIdle(s: State, n: nat)
    requires n <= |s.rp| && s.active == {}
    ensures TotalCurrent(s, n) == 0
  {
    if n != 0 {
      TotalIdle(s, n - 1);
    }
  }

  /** The source PDO agrees with the stored Rp on every port as soon as some port is active,
      and, when none is, exactly when the ports have been offered the maximum. */
  lemma PdoAgreesWithRp(s: State, n: nat, pullup: Rp, port: nat)
    requires Inv(s, n, pullup) && pullup != MAX && port < n
    ensures s.active != {} ==> (CanSupply(s, port) <==> s.rp[port] == MAX)
    ensures s.active == {} ==> CanSupply(s, port)
  {
    if s.active != {} {
      var h :| Holds(s, h, pullup);
      if port != h {
        assert h in s.active - {port};
      }
    }
  }

  // ---------------------------------------------------------------------------
  // The code.

  class Allocator {
    const pullup: Rp
    var sourcePortBitmap: set<nat>
    const sourcePortRp: array<Rp>

    ghost function Abstract(): State
      reads this, sourcePortRp
    {
      State(sourcePortBitmap, sourcePortRp[..])
    }

    constructor (n: nat, pullup: Rp)
      requires pullup != MAX
      ensures fresh(sourcePortRp) && this.pullup == pullup
      ensures Abstract() == Initial(n, pullup)
    {
      this.pullup := pullup;
      sourcePortBitmap := {};
      sourcePortRp := new Rp[n](i => pullup);
    }

    method CanSupplyMaxCurrent(port: nat) returns (ok: bool)
      requires port < sourcePortRp.Length
      ensures ok <==> CanSupply(Abstract(), port)
    {
      if port !in sourcePortBitmap && sourcePortBitmap - {port} != {} {
        return false;
      }
      var p := 0;
      while p < sourcePortRp.Length
        invariant p <= sourcePortRp.Length
        invariant forall q :: 0 <= q < p && q != port && q in sourcePortBitmap ==> sourcePortRp[q] != MAX
      {
        if p != port && p in sourcePortBitmap && sourcePortRp[p] == MAX {
          return false;
        }
        p := p + 1;
      }
      return true;
    }

    method SourcePort(port: nat, enable: bool)
      requires port < sourcePortRp.Length
      modifies this, sourcePortRp
      ensures Abstract() == SourceStep(old(Abstract()), port, enable, pullup)
    {
      var previous := sourcePortBitmap;
      if enable {
        sourcePortBitmap := sourcePortBitmap + {port};
      } else {
        sourcePortBitmap := sourcePortBitmap - {port};
      }
      if previous == sourcePortBitmap {
        return;
      }
      ghost var start := Abstract();
      var p := 0;
      while p < sourcePortRp.Length
        invariant p <= sourcePortRp.Length
        invariant Redistribute(Abstract(), p, pullup) == Redistribute(start, 0, pullup)
      {
        var ok := CanSupplyMaxCurrent(p);
        ghost var before := sourcePortRp[..];
        sourcePortRp[p] := if ok then MAX else pullup;
        assert sourcePortRp[..] == before[p := if ok then MAX else pullup];
        p := p + 1;
      }
    }

    /** Whether the PDO list for the maximum current is offered. */
    method GetSourcePdo(port: nat) returns (max: bool)
      requires port < sourcePortRp.Length && pullup != MAX
      requires Inv(Abstract(), sourcePortRp.Length, pullup)
      ensures sourcePortBitmap != {} ==> (max <==> sourcePortRp[port] == MAX)
      ensures sourcePortBitmap == {} ==> max
    {
      max := CanSupplyMaxCurrent(port);
      PdoAgreesWithRp(Abstract(), sourcePortRp.Length, pullup, port);
    }
  }
}
