/** Charge port selection and refresh. */
module ChargeManager {
  const NONE: int := -1          // CHARGE_PORT_NONE and CHARGE_SUPPLIER_NONE
  const CEIL_NONE: int := -1
  const OVERRIDE_OFF: int := -1
  const OVERRIDE_DONT_CHARGE: int := -2

  class Manager {
    const suppliers: nat
    const ports: nat
    const requestors: nat
    const priority: array<int>            // supplier_priority: lower is better
    const current: array2<int>            // available_charge[supplier][port]
    const voltage: array2<int>
    const ceil: array2<int>               // charge_ceil[port][requestor]
    const dedicated: array<bool>          // dualrole_capability[port] == CAP_DEDICATED
    var spoof: bool                       // charge_manager_spoof_dualrole_capability()
    var leftSafeMode: bool
    var initialized: bool                 // active_charge_port_initialized
    var overridePort: int
    var chargePort: int
    var chargeSupplier: int
    var chargeCurrent: int
    var chargeCurrentUncapped: int
    var chargeVoltage: int

    ghost predicate Valid()
    {
      && priority.Length == suppliers
      && current.Length0 == voltage.Length0 == suppliers
      && current.Length1 == voltage.Length1 == ports
      && ceil.Length0 == ports && ceil.Length1 == requestors
      && dedicated.Length == ports
      && current != voltage && current != ceil && voltage != ceil
    }

    ghost predicate HasCharge(i: int, j: int)
      requires Valid()
      reads current, voltage
    {
      0 <= i < suppliers && 0 <= j < ports && current[i, j] != 0 && voltage[i, j] != 0
    }

    /** A supplier that may be chosen: it has charge and its port may be charged from. */
    ghost predicate Eligible(ov: int, i: int, j: int)
      requires Valid()
      reads `spoof, current, voltage, dedicated
    {
      HasCharge(i, j) && (dedicated[j] || ov == j || spoof)
    }

    ghost function Power(i: int, j: int): int
      requires Valid() && 0 <= i < suppliers && 0 <= j < ports
      reads current, voltage
    {
      current[i, j] * voltage[i, j]
    }

    /** The order of preference: priority, then power, then the active port, then position. */
    ghost predicate Prefers(active: int, i: int, j: int, k: int, l: int)
      requires Valid() && 0 <= i < suppliers && 0 <= j < ports && 0 <= k < suppliers && 0 <= l < ports
      reads priority, current, voltage
    {
      || priority[i] < priority[k]
      || (priority[i] == priority[k] && Power(i, j) > Power(k, l))
      || (priority[i] == priority[k] && Power(i, j) == Power(k, l)
          && if j == active then l != active || k < i
             else l != active && (i < k || (i == k && j < l)))
    }

    ghost predicate OverrideCharged(ov: int)
      requires Valid()
      reads current, voltage
    {
      exists i :: HasCharge(i, ov)
    }

    /** Once the override port has charge, only its own suppliers compete. */
    ghost predicate Candidate(ov: int, i: int, j: int)
      requires Valid()
      reads `spoof, current, voltage, dedicated
    {
      Eligible(ov, i, j) && (OverrideCharged(ov) ==> j == ov)
    }

    /** What charge_manager_get_best_charge_port must return, given the override and active ports. */
    ghost predicate IsBest(ov: int, active: int, port: int, supplier: int)
      requires Valid()
      reads `spoof, priority, current, voltage, dedicated
    {
      if ov == OVERRIDE_DONT_CHARGE || forall i, j :: !Candidate(ov, i, j) then
        port == NONE && supplier == NONE
      else
        && Candidate(ov, supplier, port)
        && forall i, j :: Candidate(ov, i, j) && (i != supplier || j != port) ==> Prefers(active, supplier, port, i, j)
    }

    method GetBestChargePort() returns (port: int, supplier: int)
      requires Valid()
      ensures IsBest(overridePort, chargePort, port, supplier)
    {
      supplier, port := NONE, NONE;
      if overridePort == OVERRIDE_DONT_CHARGE {
        return;
      }
      var bestPower := -1;
      var i := 0;
      while i < suppliers
        invariant 0 <= i <= suppliers
        invariant Scanned(i, 0, port, supplier, bestPower)
      {
        var j := 0;
        while j < ports
          invariant 0 <= j <= ports
          invariant Scanned(i, j, port, supplier, bestPower)
        {
          if current[i, j] == 0 || voltage[i, j] == 0 {
          } else if overridePort != OVERRIDE_OFF && overridePort == port && overridePort != j {
          } else if !dedicated[j] && overridePort != j && !spoof {
          } else {
            var candidatePower := current[i, j] * voltage[i, j];
            if supplier == NONE || priority[i] < priority[supplier] || (j == overridePort && port != overridePort)
               || (priority[i] == priority[supplier]
                   && (candidatePower > bestPower || (candidatePower == bestPower && chargePort == j))) {
              supplier := i;
              port := j;
              bestPower := candidatePower;
            }
          }
          j := j + 1;
        }
        i := i + 1;
      }
      ScanComplete(port, supplier, bestPower);
    }

    lemma ScanComplete(port: int, supplier: int, power: int)
      requires Valid() && Scanned(suppliers, 0, port, supplier, power)
      requires overridePort != OVERRIDE_DONT_CHARGE
      ensures IsBest(overridePort, chargePort, port, supplier)
    {
      if supplier == NONE {
        forall i, j ensures !Candidate(overridePort, i, j) {
          assert Eligible(overridePort, i, j) ==> Before(i, j, suppliers, 0);
        }
      } else {
        if OverrideCharged(overridePort) {
          var k :| HasCharge(k, overridePort);
          assert Eligible(overridePort, k, overridePort) && Before(k, overridePort, suppliers, 0);
        }
        assert Candidate(overridePort, supplier, port);
        forall i, j | Candidate(overridePort, i, j) && (i != supplier || j != port)
          ensures Prefers(chargePort, supplier, port, i, j)
        {
          assert Eligible(overridePort, i, j) && Before(i, j, suppliers, 0);
          if port == overridePort {
            assert HasCharge(supplier, overridePort);
          }
        }
      }
    }

    ghost predicate Before(k: int, l: int, i: int, j: int)
    {
      k < i || (k == i && l < j)
    }

    /** The state of the scan when everything before (i, j) has been looked at. */
    ghost predicate Scanned(i: int, j: int, port: int, supplier: int, power: int)
      requires Valid()
      reads this, priority, current, voltage, dedicated
    {
      && (supplier == NONE <==> port == NONE)
      && (supplier == NONE ==> forall k, l :: Eligible(overridePort, k, l) ==> !Before(k, l, i, j))
      && (supplier != NONE ==>
            && Eligible(overridePort, supplier, port) && Before(supplier, port, i, j) && power == Power(supplier, port)
            && (forall k :: Eligible(overridePort, k, overridePort) && Before(k, overridePort, i, j) ==>
                           port == overridePort)
            && (forall k, l :: Eligible(overridePort, k, l) && Before(k, l, i, j) && (k != supplier || l != port)
                               && (port == overridePort ==> l == overridePort)
                               ==> Prefers(chargePort, supplier, port, k, l)))
    }

    /** The order of preference is strict and total. */
    lemma PrefersIsStrict(active: int, i: int, j: int, k: int, l: int)
      requires Valid() && 0 <= i < suppliers && 0 <= j < ports && 0 <= k < suppliers && 0 <= l < ports
      requires i != k || j != l
      ensures Prefers(active, i, j, k, l) <==> !Prefers(active, k, l, i, j)
    {
    }

    /** The choice is unique: the order of preference leaves no ties. */
    lemma BestIsUnique(ov: int, active: int, p: int, s: int, q: int, t: int)
      requires Valid() && IsBest(ov, active, p, s) && IsBest(ov, active, q, t)
      ensures p == q && s == t
    {
      if 0 <= s < suppliers && 0 <= p < ports && 0 <= t < suppliers && 0 <= q < ports && (s != t || p != q) {
        PrefersIsStrict(active, s, p, t, q);
      }
    }

    /** What a choice means on the fields: the supplier has charge and its port may be charged from. */
    lemma BestHasCharge(ov: int, active: int, port: int, supplier: int)
      requires Valid() && IsBest(ov, active, port, supplier)
      ensures ov == -2 ==> port == supplier == -1
      ensures supplier != -1 ==>
                && 0 <= supplier < suppliers && 0 <= port < ports
                && current[supplier, port] != 0 && voltage[supplier, port] != 0
                && (dedicated[port] || ov == port || spoof)
    {
    }

    /** A rival with charge on a port that may be charged from loses, unless the choice alone is on the
        override port: it does not come before the choice by priority, nor by power at the same
        priority; among equals the active port's last supplier wins, or else the first of all. */
    lemma RivalLoses(ov: int, active: int, port: int, supplier: int, i: int, j: int)
      requires Valid() && IsBest(ov, active, port, supplier)
      requires 0 <= i < suppliers && 0 <= j < ports && current[i, j] != 0 && voltage[i, j] != 0
      requires (dedicated[j] || ov == j || spoof) && ov != -2 && (port == ov ==> j == ov)
      ensures 0 <= supplier < suppliers && 0 <= port < ports && (j == ov ==> port == ov)
      ensures priority[supplier] <= priority[i]
      ensures priority[supplier] == priority[i] ==>
                && current[supplier, port] * voltage[supplier, port] >= current[i, j] * voltage[i, j]
                && (current[supplier, port] * voltage[supplier, port] == current[i, j] * voltage[i, j] ==>
                      if j == active then port == active && i <= supplier
                      else port == active || supplier < i || (supplier == i && port <= j))
    {
      assert HasCharge(i, j) && Eligible(ov, i, j);
      if OverrideCharged(ov) {
        var k :| HasCharge(k, ov);
        assert Candidate(ov, k, ov);
      }
      assert Candidate(ov, i, j);
      if i != supplier || j != port {
        assert Prefers(active, supplier, port, i, j);
      }
    }

    /** The least ceiling anyone requested for the port, or CEIL_NONE. */
    ghost predicate IsCeil(port: int, c: int)
      requires Valid() && 0 <= port < ports
      reads ceil
    {
      if forall r :: 0 <= r < requestors ==> ceil[port, r] == CEIL_NONE then c == CEIL_NONE
      else
        && (exists r :: 0 <= r < requestors && ceil[port, r] == c && c != CEIL_NONE)
        && forall r :: 0 <= r < requestors && ceil[port, r] != CEIL_NONE ==> c <= ceil[port, r]
    }

    method GetCeil(port: int) returns (c: int)
      requires Valid() && 0 <= port < ports
      ensures IsCeil(port, c)
      ensures forall r :: 0 <= r < requestors && ceil[port, r] != -1 ==> c != -1 && c <= ceil[port, r]
      ensures c == -1 || exists r :: 0 <= r < requestors && ceil[port, r] == c
    {
      c := CEIL_NONE;
      var i := 0;
      while i < requestors
        invariant 0 <= i <= requestors
        invariant c == CEIL_NONE ==> forall r :: 0 <= r < i ==> ceil[port, r] == CEIL_NONE
        invariant c != CEIL_NONE ==> exists r :: 0 <= r < i && ceil[port, r] == c
        invariant c != CEIL_NONE ==> forall r :: 0 <= r < i && ceil[port, r] != CEIL_NONE ==> c <= ceil[port, r]
      {
        var val := ceil[port, i];
        if val != CEIL_NONE && (c == CEIL_NONE || val < c) {
          c := val;
        }
        i := i + 1;
      }
    }

    ghost function PortsWithCharge(): set<int>
      requires Valid()
      reads current, voltage
    {
      set j | 0 <= j < ports && PortCharged(j)
    }

    ghost predicate PortCharged(j: int)
      requires Valid()
      reads current, voltage
    {
      exists i :: HasCharge(i, j)
    }

    /** The available charge is the old one, except that rejected ports have none. */
    twostate predicate OnlyZeroed(rejected: seq<int>)
      requires Valid()
      reads current, voltage
    {
      forall i, j :: 0 <= i < suppliers && 0 <= j < ports ==>
        if j in rejected then current[i, j] == 0 && voltage[i, j] == 0
        else current[i, j] == old(current[i, j]) && voltage[i, j] == old(voltage[i, j])
    }

    /** Zeroes the available charge of a rejected port. */
    method Reject(port: int)
      requires Valid() && 0 <= port < ports
      modifies current, voltage
      ensures forall i, j :: 0 <= i < suppliers && 0 <= j < ports ==>
                current[i, j] == (if j == port then 0 else old(current[i, j]))
      ensures forall i, j :: 0 <= i < suppliers && 0 <= j < ports ==>
                voltage[i, j] == (if j == port then 0 else old(voltage[i, j]))
    {
      var i := 0;
      while i < suppliers
        invariant 0 <= i <= suppliers
        invariant forall k, j :: 0 <= k < suppliers && 0 <= j < ports ==>
                    current[k, j] == (if j == port && k < i then 0 else old(current[k, j]))
        invariant forall k, j :: 0 <= k < suppliers && 0 <= j < ports ==>
                    voltage[k, j] == (if j == port && k < i then 0 else old(voltage[k, j]))
      {
        current[i, port] := 0;
        voltage[i, port] := 0;
        i := i + 1;
      }
    }

    /** The board was asked for these ports one after the other, and refused each of them. */
    ghost predicate Refused(accepts: (nat, int) -> bool, rejected: seq<int>)
    {
      forall k :: 0 <= k < |rejected| ==> 0 <= rejected[k] < ports && !accepts(k, rejected[k])
    }

    ghost predicate NoRepeats(rejected: seq<int>)
    {
      forall k, l :: 0 <= k < l < |rejected| ==> rejected[k] != rejected[l]
    }

    /** Hunts for a port the board accepts.  accepts(n, p) is the board's answer to the n-th
        request, for port p; the board may answer anything, but must accept 'no port'.
        `found` is false only in safe mode when nothing is left to choose. */
    method Hunt(accepts: (nat, int) -> bool)
      returns (found: bool, port: int, supplier: int, ghost rejected: seq<int>)
      requires Valid() && forall n :: accepts(n, NONE)
      modifies current, voltage
      ensures OnlyZeroed(rejected) && Refused(accepts, rejected) && NoRepeats(rejected)
      ensures forall j :: j in rejected ==> j in old(PortsWithCharge())
      ensures IsBest(overridePort, chargePort, port, supplier)
      ensures if supplier == NONE then port == NONE else 0 <= supplier < suppliers && 0 <= port < ports
      ensures !found <==> !leftSafeMode && port == NONE
      ensures found ==> (initialized && port == chargePort && supplier == chargeSupplier) || accepts(|rejected|, port)
    {
      rejected := [];
      var n := 0;
      while true
        invariant n == |rejected| && OnlyZeroed(rejected) && Refused(accepts, rejected) && NoRepeats(rejected)
        invariant forall j :: j in rejected ==> j in old(PortsWithCharge())
        decreases PortsWithCharge()
      {
        port, supplier := GetBestChargePort();
        if !leftSafeMode && port == NONE {
          return false, port, supplier, rejected;
        }
        if initialized && port == chargePort && supplier == chargeSupplier {
          return true, port, supplier, rejected;
        }
        if accepts(n, port) {
          return true, port, supplier, rejected;
        }
        assert port != NONE;
        assert HasCharge(supplier, port);
        assert port !in rejected;
        ghost var before := PortsWithCharge();
        label L:
        Reject(port);
        rejected := rejected + [port];
        forall j | j in PortsWithCharge() ensures j in before {
          var i :| HasCharge(i, j);
          assert old@L(HasCharge(i, j));
        }
        assert port in before && port !in PortsWithCharge();
        n := n + 1;
      }
    }

    /** The current and voltage to charge with, the first also before the ceiling. */
    method LimitFor(port: int, supplier: int) returns (capped: int, available: int, volts: int)
      requires Valid()
      requires if supplier == NONE then port == NONE else 0 <= supplier < suppliers && 0 <= port < ports
      ensures supplier == NONE ==> capped == available == volts == 0
      ensures supplier != NONE ==>
                && available == current[supplier, port] && volts == voltage[supplier, port]
                && Capped(port, capped, available)
    {
      capped, available, volts := 0, 0, 0;
      if supplier != NONE {
        available := current[supplier, port];
        var c := GetCeil(port);
        capped := if leftSafeMode && c != CEIL_NONE then (if c < available then c else available) else available;
        volts := voltage[supplier, port];
      }
    }

    /** The second half of a refresh: makes an accepted choice the active one. */
    method Commit(port: int, supplier: int) returns (powerChanged: bool, newRequest: int, oldRequest: int)
      requires Valid()
      requires if supplier == NONE then port == NONE else 0 <= supplier < suppliers && 0 <= port < ports
      modifies `initialized, `overridePort, `chargePort, `chargeSupplier,
               `chargeCurrent, `chargeCurrentUncapped, `chargeVoltage
      ensures initialized && chargePort == port && chargeSupplier == supplier
      ensures overridePort == if 0 <= old(overridePort) != port then OVERRIDE_OFF else old(overridePort)
      ensures supplier == NONE ==> chargeCurrent == chargeCurrentUncapped == chargeVoltage == 0
      ensures supplier != NONE ==>
                && chargeCurrentUncapped == current[supplier, port]
                && chargeVoltage == voltage[supplier, port]
                && Capped(port, chargeCurrent, chargeCurrentUncapped)
      ensures powerChanged <==>
                port != old(chargePort) || chargeCurrent != old(chargeCurrent) || supplier != old(chargeSupplier)
      ensures newRequest == if port != NONE && (port != old(chargePort)
                || chargeCurrentUncapped != old(chargeCurrentUncapped) || chargeVoltage != old(chargeVoltage))
                then port else NONE
      ensures oldRequest == if port != old(chargePort) then old(chargePort) else NONE
    {
      newRequest, oldRequest := NONE, NONE;
      initialized := true;
      if overridePort >= 0 && overridePort != port {
        overridePort := OVERRIDE_OFF;
      }
      var newCurrent, newUncapped, newVoltage := LimitFor(port, supplier);
      powerChanged := port != chargePort || newCurrent != chargeCurrent || supplier != chargeSupplier;
      if port != NONE && (port != chargePort || newUncapped != chargeCurrentUncapped || newVoltage != chargeVoltage) {
        newRequest := port;
      }
      if chargePort != port && chargePort != NONE {
        oldRequest := chargePort;
      }
      chargeCurrent := newCurrent;
      chargeCurrentUncapped := newUncapped;
      chargeVoltage := newVoltage;
      chargeSupplier := supplier;
      chargePort := port;
    }

    /** charge_manager_refresh: hunts, then updates the charge state.  Returns whether the limit
        was set on the board, and the ports that need a new power request (or NONE). */
    method Refresh(accepts: (nat, int) -> bool)
      returns (powerChanged: bool, newRequest: int, oldRequest: int, ghost done: bool, ghost rejected: seq<int>)
      requires Valid() && forall n :: accepts(n, NONE)
      modifies current, voltage, `initialized, `overridePort, `chargePort, `chargeSupplier,
               `chargeCurrent, `chargeCurrentUncapped, `chargeVoltage
      ensures Valid() && OnlyZeroed(rejected) && Refused(accepts, rejected) && NoRepeats(rejected)
      ensures forall j :: j in rejected ==> j in old(PortsWithCharge())
      // In safe mode with nothing left to choose, nothing else changes.
      ensures !done <==> !leftSafeMode && IsBest(old(overridePort), old(chargePort), NONE, NONE)
      ensures !done ==>
                && chargePort == old(chargePort) && chargeSupplier == old(chargeSupplier)
                && chargeCurrent == old(chargeCurrent) && chargeCurrentUncapped == old(chargeCurrentUncapped)
                && chargeVoltage == old(chargeVoltage) && overridePort == old(overridePort)
                && initialized == old(initialized) && !powerChanged && newRequest == oldRequest == NONE
      // Otherwise the new port and supplier are the best remaining and were accepted.
      ensures done ==> initialized && IsBest(old(overridePort), old(chargePort), chargePort, chargeSupplier)
      ensures done ==>
                || (old(initialized) && chargePort == old(chargePort) && chargeSupplier == old(chargeSupplier))
                || accepts(|rejected|, chargePort)
      ensures done ==> overridePort == if 0 <= old(overridePort) != chargePort then OVERRIDE_OFF else old(overridePort)
      ensures done && chargeSupplier == NONE ==> chargeCurrent == chargeCurrentUncapped == chargeVoltage == 0
      ensures done && chargeSupplier != NONE ==>
                && 0 <= chargeSupplier < suppliers && 0 <= chargePort < ports
                && chargeCurrentUncapped == current[chargeSupplier, chargePort]
                && chargeVoltage == voltage[chargeSupplier, chargePort]
                && Capped(chargePort, chargeCurrent, chargeCurrentUncapped)
                && chargeCurrent <= current[chargeSupplier, chargePort]
                && (!leftSafeMode ==> chargeCurrent == current[chargeSupplier, chargePort])
      ensures done && chargeSupplier != NONE && leftSafeMode ==>
                forall r :: 0 <= r < requestors && ceil[chargePort, r] != -1 ==> chargeCurrent <= ceil[chargePort, r]
      ensures done ==> (powerChanged <==>
                || chargePort != old(chargePort) || chargeCurrent != old(chargeCurrent)
                || chargeSupplier != old(chargeSupplier))
      ensures done ==> newRequest == if chargePort != NONE && (chargePort != old(chargePort)
                || chargeCurrentUncapped != old(chargeCurrentUncapped) || chargeVoltage != old(chargeVoltage))
                then chargePort else NONE
      ensures done ==> oldRequest == if chargePort != old(chargePort) then old(chargePort) else NONE
    {
      hide IsBest, PortsWithCharge;
      var found, port, supplier;
      found, port, supplier, rejected := Hunt(accepts);
      powerChanged, newRequest, oldRequest, done := false, NONE, NONE, found;
      if IsBest(overridePort, chargePort, NONE, NONE) {
        BestIsUnique(overridePort, chargePort, NONE, NONE, port, supplier);
      }
      if !found {
        return;
      }
      powerChanged, newRequest, oldRequest := Commit(port, supplier);
    }

    /** Outside safe mode the current is the available one cut down to every ceiling requested
        for the port, and no further; in safe mode ceilings do not count. */
    ghost predicate Capped(port: int, capped: int, available: int)
      requires Valid() && 0 <= port < ports
      reads `leftSafeMode, ceil
    {
      && capped <= available
      && (leftSafeMode ==> forall r :: 0 <= r < requestors && ceil[port, r] != CEIL_NONE ==> capped <= ceil[port, r])
      && (capped == available || (leftSafeMode && exists r :: 0 <= r < requestors && ceil[port, r] == capped))
    }
  }
}
