/** Sharing the input power of a detachable between its lid and its base. Powers are in mW,
    currents in mA, voltages in mV. */
module PowerSplit {
  import opened Extrema

  const MIN_BASE_SYSTEM_POWER := 1300
  const LID_SYSTEM_POWER_SMOOTH := 32
  const BATTERY_POWER_SMOOTH := 1
  const MARGIN_BATTERY_POWER := 32
  const MAX_LID_TO_BASE_CURRENT := 2000

  /** C division: towards zero. */
  function Div(a: int, b: int): int
    requires b > 0
  {
    if a >= 0 then a / b else -(-a / b)
  }

  /** The smoothed value lies between the old value and the new one, negative values counting as
      none; it moves whenever 1/128 of the weighted difference is at least one. */
  function SmoothValue(prev: int, current: int, s: int): (r: int)
    requires 0 <= s <= 128
    ensures r >= 0
    ensures prev < 0 ==> r == Max(current, 0)
    ensures prev >= 0 ==> Min(prev, Max(current, 0)) <= r <= Max(prev, Max(current, 0))
  {
    var c := if current < 0 then 0 else current;
    if prev < 0 then c else Smoothing(prev, c, s); prev + Div(s * (c - prev), 128)
  }

  lemma Smoothing(prev: int, c: int, s: int)
    requires 0 <= s <= 128
    ensures Min(0, c - prev) <= Div(s * (c - prev), 128) <= Max(0, c - prev)
  {
    var d := c - prev;
    if d >= 0 {
      Scaled(s, d);
    } else {
      Scaled(s, -d);
      assert s * -d == -(s * d);
    }
  }

  lemma Scaled(s: nat, d: nat)
    requires s <= 128
    ensures 0 <= s * d && 0 <= s * d / 128 <= d
  {
    ScaledProduct(s, d);
    var p := s * d;
    assert p / 128 <= d;
  }

  lemma ScaledProduct(s: nat, d: nat)
    requires s <= 128
    ensures 0 <= s * d <= 128 * d
  {
  }

  /** What the division leaves out, from zero on: 128 times the move differs from the weighted
      difference by less than 128, and never goes beyond it. */
  lemma SmoothExactly(prev: nat, current: int, s: int)
    requires 0 <= s <= 128
    ensures (var d := s * (Max(current, 0) - prev);
             var moved := SmoothValue(prev, current, s) - prev;
             && (d >= 0 ==> 0 <= d - 128 * moved < 128)
             && (d <= 0 ==> -128 < d - 128 * moved <= 0))
  {
    Truncated(s * (Max(current, 0) - prev), 128);
    hide Div;
  }

  lemma Truncated(a: int, b: int)
    requires b > 0
    ensures a >= 0 ==> 0 <= a - b * Div(a, b) < b
    ensures a <= 0 ==> -b < a - b * Div(a, b) <= 0
  {
    if a < 0 {
      var q := -a / b;
      assert b * -q == -(b * q);
    }
  }

  function AddMargin(value: int, m: int): int
  {
    value + Div(m * value, 128)
  }

  lemma MarginOfEstimate(value: int)
    requires -1 <= value
    ensures value >= 0 ==> value <= AddMargin(value, MARGIN_BATTERY_POWER)
    ensures value == -1 ==> AddMargin(value, MARGIN_BATTERY_POWER) == -1
  {
  }

  /** The margin of a battery is a quarter of its power, cut towards zero. */
  lemma MarginIsAQuarter(value: int)
    ensures (var margin := AddMargin(value, MARGIN_BATTERY_POWER) - value;
             && (value >= 0 ==> 0 <= value - 4 * margin < 4)
             && (value <= 0 ==> -4 < value - 4 * margin <= 0))
  {
    Truncated(32 * value, 128);
    hide Div;
  }

  // ---------------------------------------------------------------------------
  // The split.

  /** CHG_ALLOCATE: gives at most `value` of the budget to a share. */
  function Allocate(share: int, total: int, value: int): (r: (int, int))
    ensures r.0 + r.1 == share + total
    ensures r.1 == Max(total - value, 0)
  {
    var capped := Min(value, total);
    (share + capped, total - capped)
  }

  /** The five allocations in order; the shares of base and lid. */
  function Split(total: int, lidSystem: int, lidBattery: int, baseBattery: int): (int, int)
  {
    var (base1, t1) := Allocate(0, total, MIN_BASE_SYSTEM_POWER);
    var (lid1, t2) := Allocate(0, t1, lidSystem);
    var (lid2, t3) := Allocate(lid1, t2, lidBattery);
    var (base2, t4) := Allocate(base1, t3, baseBattery);
    var (lid3, _) := Allocate(lid2, t4, t4);
    (base2, lid3)
  }

  /** Nothing is lost or made up, for any estimates at all. */
  lemma SplitConserves(total: int, lidSystem: int, lidBattery: int, baseBattery: int)
    ensures (var (base, lid) := Split(total, lidSystem, lidBattery, baseBattery); base + lid == total)
  {
  }

  /** With non-negative estimates: the base's system comes first, and its battery gets only what the
      lid's system and battery leave; the lid has all the rest. */
  lemma SplitByPriority(total: int, lidSystem: int, lidBattery: int, baseBattery: int)
    requires total >= 0 && lidSystem >= 0 && lidBattery >= 0 && baseBattery >= 0
    ensures (var (base, lid) := Split(total, lidSystem, lidBattery, baseBattery);
             var left := Max(0, total - MIN_BASE_SYSTEM_POWER - lidSystem - lidBattery);
             && base == Min(MIN_BASE_SYSTEM_POWER, total) + Min(baseBattery, left)
             && lid == total - base && lid >= Min(lidSystem + lidBattery, total - Min(MIN_BASE_SYSTEM_POWER, total)))
  {
  }

  /** How far the base's share goes beyond its system power, for any estimates: nothing left of the
      budget after the lid's estimates bounds it, whatever their signs. */
  function Left(total: int, lidSystem: int, lidBattery: int): int
  {
    Max(Max(Beyond(total) - lidSystem, 0) - lidBattery, 0)
  }

  /** The budget beyond the base's system power. */
  function Beyond(total: int): int
  {
    Max(total - MIN_BASE_SYSTEM_POWER, 0)
  }

  /** Both shares for any estimates at all, and exactly when one of them is negative. */
  lemma SplitExactly(total: int, lidSystem: int, lidBattery: int, baseBattery: int)
    requires total > 0
    ensures (var (base, lid) := Split(total, lidSystem, lidBattery, baseBattery);
             var extra := Min(baseBattery, Left(total, lidSystem, lidBattery));
             && base == total - Beyond(total) + extra && lid == Beyond(total) - extra
             && (base < 0 <==> baseBattery < Beyond(total) - total)
             && (lid < 0 <==> extra > Beyond(total)))
  {
  }

  // ---------------------------------------------------------------------------
  // The currents.

  /** The currents of two shares at the input voltage; what the base may not take goes to the lid. */
  function Currents(base: int, lid: int, voltage: int): (int, int)
    requires voltage > 0
  {
    var b, l := Div(1000 * base, voltage), Div(1000 * lid, voltage);
    if b > MAX_LID_TO_BASE_CURRENT then (MAX_LID_TO_BASE_CURRENT, l + (b - MAX_LID_TO_BASE_CURRENT)) else (b, l)
  }

  lemma QuotientDifference(x: nat, y: nat, v: int, d: nat)
    requires v > 0 && x <= y + d * v
    ensures x / v <= y / v + d
  {
    var p, q := x / v, y / v;
    assert p * v <= x && y < q * v + v;
    assert (q + d + 1) * v == q * v + v + d * v;
    assert p >= q + d + 1 ==> p * v >= (q + d + 1) * v;
  }

  lemma QuotientSum(a: nat, b: nat, v: int, limit: int)
    requires v > 0 && a + b < (limit + 1) * v
    ensures a / v + b / v <= limit
  {
    var x, y := a / v, b / v;
    assert x * v <= a && y * v <= b;
    assert (x + y) * v == x * v + y * v;
    assert x + y >= limit + 1 ==> (x + y) * v >= (limit + 1) * v;
  }

  lemma PowerOfInput(desired: int, voltage: int)
    requires voltage > 0 && desired >= 0
    ensures 0 <= 1000 * Div(desired * voltage, 1000) <= desired * voltage
    ensures (desired + 1) * voltage == desired * voltage + voltage
  {
    assert desired * voltage >= 0;
  }

  lemma DivSign(a: int, v: int)
    requires v > 0
    ensures a >= 0 ==> Div(a, v) == a / v >= 0
    ensures a < 0 ==> Div(a, v) == -(-a / v) <= 0
    ensures Div(a, v) < 0 <==> -a >= v
  {
    if -a >= v {
      AtLeastOne(-a, v);
    } else if a < 0 {
      SmallQuotient(-a, v);
    }
  }

  lemma AtLeastOne(a: int, v: int)
    requires 0 < v <= a
    ensures a / v >= 1
  {
    assert a < v * (a / v) + v;
  }

  lemma SmallQuotient(a: nat, v: int)
    requires a < v
    ensures a / v == 0
  {
  }

  lemma SumOfCurrents(base: int, lid: int, voltage: int, desired: nat)
    requires voltage > 0 && base + lid >= 0 && 1000 * (base + lid) <= desired * voltage
    requires (desired + 1) * voltage == desired * voltage + voltage
    ensures Div(1000 * base, voltage) + Div(1000 * lid, voltage) <= desired
  {
    hide Div;
    DivSign(1000 * base, voltage);
    DivSign(1000 * lid, voltage);
    if base < 0 {
      QuotientDifference(1000 * lid, -1000 * base, voltage, desired);
    } else if lid < 0 {
      QuotientDifference(1000 * base, -1000 * lid, voltage, desired);
    } else {
      QuotientSum(1000 * base, 1000 * lid, voltage, desired);
    }
  }

  /** For any two shares of the power of the input: the base's current is within its cap, both
      together are within the current that the power came from, and each is negative exactly when
      its share costs at least 1 mA, and for the lid at least 1 mA more than it gets back from
      the base's cap. */
  lemma CurrentsExactly(base: int, lid: int, voltage: int, desired: int)
    requires voltage > 0 && desired >= 0 && base + lid == Div(desired * voltage, 1000)
    ensures (var (b, l) := Currents(base, lid, voltage);
             && b <= MAX_LID_TO_BASE_CURRENT && b + l <= desired
             && (b < 0 <==> -1000 * base >= voltage)
             && (l < 0 <==> lid < 0 && -1000 * lid / voltage > Max(0, 1000 * base / voltage - MAX_LID_TO_BASE_CURRENT)))
  {
    PowerOfInput(desired, voltage);
    hide Div;
    SumOfCurrents(base, lid, voltage, desired);
    DivSign(1000 * base, voltage);
    DivSign(1000 * lid, voltage);
  }

  // ---------------------------------------------------------------------------
  // Rounds.

  datatype Battery = Battery(power: int, maxPower: int)

  /** A smoothed battery estimate. */
  function Estimate(prev: int, battery: Battery): int
  {
    var p := if battery.power < prev then SmoothValue(prev, battery.power, BATTERY_POWER_SMOOTH) else battery.power;
    Min(p, battery.maxPower)
  }

  lemma EstimateBound(prev: int, battery: Battery)
    requires prev >= -1 && battery.maxPower >= 0
    ensures Estimate(prev, battery) >= -1
  {
  }

  /** An estimate never exceeds what the battery asks for; a power that does not fall is taken as it
      is, and one that falls moves a known estimate by 1/128 of the difference, cut towards zero. */
  lemma EstimateExactly(prev: int, battery: Battery)
    ensures Estimate(prev, battery) <= battery.maxPower
    ensures battery.power >= prev ==> Estimate(prev, battery) == Min(battery.power, battery.maxPower)
    ensures battery.power < prev < 0 ==> Estimate(prev, battery) == Min(0, battery.maxPower)
    ensures battery.power < prev && 0 <= prev ==>
              (var fall := prev - Max(battery.power, 0);
               exists kept :: Estimate(prev, battery) == Min(kept, battery.maxPower)
                              && 0 <= fall - 128 * (prev - kept) < 128)
  {
    hide SmoothValue;
    if battery.power < prev && 0 <= prev {
      SmoothExactly(prev, battery.power, 1);
      var kept := SmoothValue(prev, battery.power, 1);
      assert Estimate(prev, battery) == Min(kept, battery.maxPower);
    }
  }

  /** The system's power moves by a quarter of the difference, cut towards zero. */
  lemma SystemPowerExactly(prev: Estimates, systemPower: int, lid: Battery, base: Battery)
    requires prev.lidSystem >= 0
    ensures (var d := Max(systemPower, 0) - prev.lidSystem;
             var moved := Estimated(prev, systemPower, lid, base).lidSystem - prev.lidSystem;
             && (d >= 0 ==> 0 <= d - 4 * moved < 4) && (d <= 0 ==> -4 < d - 4 * moved <= 0))
  {
    hide SmoothValue, Estimate;
    SmoothExactly(prev.lidSystem, systemPower, 32);
  }

  /** The estimates that a round leaves and the next one starts from. */
  datatype Estimates = Estimates(lidSystem: int, lidBattery: int, baseBattery: int)

  function Estimated(prev: Estimates, systemPower: int, lid: Battery, base: Battery): Estimates
  {
    Estimates(SmoothValue(prev.lidSystem, systemPower, LID_SYSTEM_POWER_SMOOTH),
              Estimate(prev.lidBattery, lid), Estimate(prev.baseBattery, base))
  }

  function Shares(total: int, e: Estimates): (int, int)
  {
    Split(total, e.lidSystem, AddMargin(e.lidBattery, MARGIN_BATTERY_POWER),
          AddMargin(e.baseBattery, MARGIN_BATTERY_POWER))
  }

  /** What the base gets beyond its system power. */
  function Extra(total: int, e: Estimates): int
  {
    Min(AddMargin(e.baseBattery, MARGIN_BATTERY_POWER),
        Left(total, e.lidSystem, AddMargin(e.lidBattery, MARGIN_BATTERY_POWER)))
  }

  /** Exactly when the estimates cost the base a negative current. */
  predicate BaseGoesNegative(total: int, e: Estimates, voltage: int)
  {
    -1000 * (total - Beyond(total) + AddMargin(e.baseBattery, MARGIN_BATTERY_POWER)) >= voltage
  }

  /** Exactly when they cost the lid one: the base gets more than the whole budget beyond its system
      power, and the cap does not give enough of it back. */
  predicate LidGoesNegative(total: int, e: Estimates, voltage: int)
    requires voltage > 0
  {
    var short := Extra(total, e) - Beyond(total);
    && short > 0
    && 1000 * short / voltage > Max(0, 1000 * (total + short) / voltage - MAX_LID_TO_BASE_CURRENT)
  }

  lemma RoundExactly(e: Estimates, voltage: int, desired: int)
    requires voltage > 0 && desired > 0 && Div(desired * voltage, 1000) > 0
    ensures (var total := Div(desired * voltage, 1000);
             var (base, lid) := Shares(total, e);
             var (b, l) := Currents(base, lid, voltage);
             && base + lid == total
             && b <= MAX_LID_TO_BASE_CURRENT && b + l <= desired
             && (b < 0 <==> BaseGoesNegative(total, e, voltage))
             && (l < 0 <==> LidGoesNegative(total, e, voltage)))
  {
    var total := Div(desired * voltage, 1000);
    SplitExactly(total, e.lidSystem, AddMargin(e.lidBattery, MARGIN_BATTERY_POWER),
                 AddMargin(e.baseBattery, MARGIN_BATTERY_POWER));
    var (base, lid) := Shares(total, e);
    hide Div, AddMargin, Split;
    CurrentsExactly(base, lid, voltage, desired);
  }

  /** With estimates of -1 mW or more, the base's current is not negative, and the lid's is not
      either above 1000 mV or if the lid's battery estimate is not. */
  lemma SmallEstimates(total: int, e: Estimates, voltage: int)
    requires total > 0 && voltage > 0 && e.lidSystem >= 0 && e.lidBattery >= -1 && e.baseBattery >= -1
    ensures !BaseGoesNegative(total, e, voltage)
    ensures voltage > 1000 || e.lidBattery >= 0 ==> !LidGoesNegative(total, e, voltage)
  {
    MarginOfEstimate(e.lidBattery);
    MarginOfEstimate(e.baseBattery);
    hide AddMargin;
    if voltage > 1000 {
      SmallQuotient(1000, voltage);
    }
  }

  const FIRST: Estimates := Estimates(-1, -1, -1)

  /** The estimates of a first round without system power, with 1 mW taken out of the lid's battery. */
  lemma FirstEstimates(basePower: int)
    requires 0 <= basePower <= 5000
    ensures Estimated(FIRST, 0, Battery(-1, 5000), Battery(basePower, 5000)) == Estimates(0, -1, basePower)
  {
  }

  lemma SharesOf(total: int, e: Estimates, lidBattery: int, baseBattery: int)
    requires total > 0
    requires AddMargin(e.lidBattery, MARGIN_BATTERY_POWER) == lidBattery
    requires AddMargin(e.baseBattery, MARGIN_BATTERY_POWER) == baseBattery
    ensures Extra(total, e) == Min(baseBattery, Left(total, e.lidSystem, lidBattery))
    ensures Shares(total, e) == (total - Beyond(total) + Extra(total, e), Beyond(total) - Extra(total, e))
  {
    hide AddMargin, Split;
    SplitExactly(total, e.lidSystem, lidBattery, baseBattery);
  }

  lemma SameMultiple(q: int, x: int, v: int)
    requires v > 0 && x * v <= q * v < x * v + v
    ensures q == x
  {
    var d := q - x;
    assert q * v == x * v + d * v;
    assert d >= 1 ==> d * v >= v;
    assert d <= -1 ==> d * v <= -v;
  }

  lemma ProductQuotient(a: nat, q: nat, v: int)
    requires v > 0 && a == q * v
    ensures a / v == q
  {
    var x := a / v;
    assert x * v <= a < x * v + v;
    SameMultiple(q, x, v);
  }

  lemma ExactDiv(a: int, v: int, q: int)
    requires v > 0 && a == q * v
    ensures Div(a, v) == q
  {
    if a >= 0 {
      assert q >= 0 by { assert q < 0 ==> q * v < 0; }
      ProductQuotient(a, q, v);
    } else {
      assert q < 0 by { assert q >= 0 ==> q * v >= 0; }
      assert -a == -q * v;
      ProductQuotient(-a, -q, v);
    }
  }

  lemma Margins()
    ensures AddMargin(-1, MARGIN_BATTERY_POWER) == -1
    ensures AddMargin(1, MARGIN_BATTERY_POWER) == 1
    ensures AddMargin(1000, MARGIN_BATTERY_POWER) == 1250
  {
  }

  lemma SomeCurrents()
    ensures Currents(2, -1, 1000) == (2, -1) && Currents(1501, -1, 500) == (2000, 1000)
  {
    ExactDiv(1000 * 2, 1000, 2);
    ExactDiv(1000 * -1, 1000, -1);
    ExactDiv(1000 * 1501, 500, 3002);
    ExactDiv(1000 * -1, 500, -2);
    hide Div;
  }

  /** A first round that leaves the lid -1 mA and gives the base 2 mA, at 1 mA and 1000 mV. */
  lemma LidGoesNegativeOnce(e: Estimates, total: int)
    requires e == Estimated(FIRST, 0, Battery(-1, 5000), Battery(1, 5000)) && total == Div(1 * 1000, 1000)
    ensures Shares(total, e) == (2, -1) && Currents(2, -1, 1000) == (2, -1) && LidGoesNegative(total, e, 1000)
  {
    hide *;
    FirstEstimates(1);
    ExactDiv(1 * 1000, 1000, 1);
    Margins();
    SharesOf(total, e, -1, 1);
    FewShares();
    SomeCurrents();
    RoundExactly(e, 1000, 1);
  }

  /** The same share at 500 mV, which the base's cap outweighs: the lid has 1000 mA. */
  lemma CapOutweighsShare(e: Estimates, total: int)
    requires e == Estimated(FIRST, 0, Battery(-1, 5000), Battery(1000, 5000)) && total == Div(3000 * 500, 1000)
    ensures Shares(total, e) == (1501, -1) && Currents(1501, -1, 500) == (2000, 1000) && !LidGoesNegative(total, e, 500)
  {
    hide *;
    FirstEstimates(1000);
    ExactDiv(3000 * 500, 1000, 1500);
    Margins();
    SharesOf(total, e, -1, 1250);
    FewShares();
    SomeCurrents();
    RoundExactly(e, 500, 3000);
  }

  lemma FewShares()
    ensures Min(1, Left(1, 0, -1)) == 1 && Beyond(1) == 0
    ensures Min(1250, Left(1500, 0, -1)) == 201 && Beyond(1500) == 200
  {
  }

  class Allocator {
    var prevLidSystemPower: int
    var prevLidBatteryPower: int
    var prevBaseBatteryPower: int

    ghost function Prev(): Estimates
      reads this
    {
      Estimates(prevLidSystemPower, prevLidBatteryPower, prevBaseBatteryPower)
    }

    constructor ()
      ensures Prev() == FIRST && Settled()
    {
      prevLidSystemPower, prevLidBatteryPower, prevBaseBatteryPower := -1, -1, -1;
    }

    ghost predicate Settled()
      reads this
    {
      prevLidBatteryPower >= -1 && prevBaseBatteryPower >= -1
    }

    /** The charging branch of charge_allocate_input_current_limit; battery powers are 0 where the
        battery's data is invalid. */
    method AllocateCharging(systemPower: int, lid: Battery, base: Battery, desired: int, voltage: int)
      returns (currentBase: int, currentLid: int)
      requires desired > 0 && voltage > 0 && Div(desired * voltage, 1000) > 0
      modifies this
      ensures Prev() == Estimated(old(Prev()), systemPower, lid, base)
      ensures (var (b, l) := Shares(Div(desired * voltage, 1000), Prev());
               && b + l == Div(desired * voltage, 1000)
               && (currentBase, currentLid) == Currents(b, l, voltage))
      ensures currentBase <= MAX_LID_TO_BASE_CURRENT && currentBase + currentLid <= desired
      ensures currentBase < 0 <==> BaseGoesNegative(Div(desired * voltage, 1000), Prev(), voltage)
      ensures currentLid < 0 <==> LidGoesNegative(Div(desired * voltage, 1000), Prev(), voltage)
      ensures old(Settled()) && lid.maxPower >= 0 && base.maxPower >= 0 ==>
                Settled() && currentBase >= 0 && (voltage > 1000 || prevLidBatteryPower >= 0 ==> currentLid >= 0)
    {
      hide Div, SmoothValue, AddMargin, BaseGoesNegative, LidGoesNegative;
      var total := Div(desired * voltage, 1000);
      var lidSystem := SmoothValue(prevLidSystemPower, systemPower, LID_SYSTEM_POWER_SMOOTH);
      prevLidSystemPower := lidSystem;
      var lidBattery := SmoothBattery(prevLidBatteryPower, lid);
      var baseBattery := SmoothBattery(prevBaseBatteryPower, base);
      if prevLidBatteryPower >= -1 && prevBaseBatteryPower >= -1 && lid.maxPower >= 0 && base.maxPower >= 0 {
        EstimateBound(prevLidBatteryPower, lid);
        EstimateBound(prevBaseBatteryPower, base);
        SmallEstimates(total, Estimates(lidSystem, lidBattery, baseBattery), voltage);
      }
      prevLidBatteryPower := lidBattery;
      prevBaseBatteryPower := baseBattery;
      var powerBase, powerLid := ChargingShares(total, lidSystem, lidBattery, baseBattery);
      RoundExactly(Prev(), voltage, desired);
      currentBase := Div(1000 * powerBase, voltage);
      currentLid := Div(1000 * powerLid, voltage);
      if currentBase > MAX_LID_TO_BASE_CURRENT {
        currentLid := currentLid + (currentBase - MAX_LID_TO_BASE_CURRENT);
        currentBase := MAX_LID_TO_BASE_CURRENT;
      }
    }
  }

  /** Smooths a battery's power when it falls, and cuts it to what the battery asks for. */
  method SmoothBattery(prev: int, battery: Battery) returns (power: int)
    ensures power == Estimate(prev, battery)
  {
    power := battery.power;
    if power < prev {
      power := SmoothValue(prev, power, BATTERY_POWER_SMOOTH);
    }
    power := Min(power, battery.maxPower);
  }

  /** The sequence of CHG_ALLOCATE steps on a budget that each step reduces. */
  method ChargingShares(budget: int, lidSystem: int, lidBattery: int, baseBattery: int)
    returns (powerBase: int, powerLid: int)
    ensures (powerBase, powerLid) == Shares(budget, Estimates(lidSystem, lidBattery, baseBattery))
    ensures powerBase + powerLid == budget
  {
    hide AddMargin, Div;
    var total := budget;
    powerBase, powerLid := 0, 0;
    powerBase, total := ChgAllocate(powerBase, total, MIN_BASE_SYSTEM_POWER);
    powerLid, total := ChgAllocate(powerLid, total, lidSystem);
    var margin := AddMargin(lidBattery, MARGIN_BATTERY_POWER);
    powerLid, total := ChgAllocate(powerLid, total, margin);
    margin := AddMargin(baseBattery, MARGIN_BATTERY_POWER);
    powerBase, total := ChgAllocate(powerBase, total, margin);
    powerLid, total := ChgAllocate(powerLid, total, total);
  }

  method ChgAllocate(share: int, total: int, value: int) returns (share': int, total': int)
    ensures (share', total') == Allocate(share, total, value)
  {
    var capped := Min(value, total);
    share' := share + capped;
    total' := total - capped;
  }
}
