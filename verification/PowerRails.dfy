/** Applying new lid and base currents one after the other, over runs with failures. */
module PowerRails {
  import opened Extrema

  /** set_base_lid_current: which side is set first, by the recorded currents. */
  function LidFirst(prevBase: int, prevLid: int, base: int, lid: int): bool
  {
    if lid >= 0 && lid < prevLid then true
    else if base >= 0 && base < prevBase then false
    else lid < 0
  }

  /** The draw between the two settings. */
  function Between(prevBase: int, prevLid: int, base: int, lid: int): int
  {
    if LidFirst(prevBase, prevLid, base, lid) then prevBase + lid else base + prevLid
  }

  /** For any currents, the order keeps the draw within the larger of the draws before and after
      unless both sides are to give and one of them less than it did; the other order would not
      whenever one side goes down and the other up. */
  lemma OrderIsSafe(prevBase: int, prevLid: int, base: int, lid: int)
    ensures Between(prevBase, prevLid, base, lid) > Max(prevBase + prevLid, base + lid) <==>
            base < 0 && lid < 0 && base < prevBase && prevLid < lid
    ensures base < prevBase && prevLid < lid ==> prevBase + lid > Max(prevBase + prevLid, base + lid)
    ensures lid < prevLid && prevBase < base ==> base + prevLid > Max(prevBase + prevLid, base + lid)
    ensures LidFirst(prevBase, prevLid, base, lid) <==> 0 <= lid < prevLid || (lid < 0 && !(0 <= base < prevBase))
  {
  }

  // ---------------------------------------------------------------------------
  // The recorded values, and what the hardware does.

  /** The first four fields are the code's. The others are the hardware's: the switch between lid and
      base, the current the base takes while it is on, and the charger's input limit and the limit of
      what it gives to the base while it gives anything. */
  datatype State = State(prevBase: int, prevLid: int, connected: bool, responsive: bool,
                         powered: bool, setting: int, input: int, giving: bool, output: int)
  {
    function Base(): int { if powered then setting else 0 }
    function Lid(): int { if giving then -output else input }
    function Draw(): int { Base() + Lid() }
  }

  /** Which of the calls to the base and to the charger succeed. Giving takes two: the limit, and
      turning it on. */
  datatype Outcomes = Outcomes(base: bool, outputLimit: bool, giving: bool, inputCurrent: bool, request: bool)

  function Last(s: State, path: seq<State>): State
  {
    if path == [] then s else path[|path| - 1]
  }

  /** set_base_current: the states passed through. */
  function BasePath(s: State, current: int, ok: Outcomes): seq<State>
  {
    if s.connected && ok.base then [s.(setting := current, responsive := true, prevBase := current)] else []
  }

  /** Errors of the base are passed over until it has answered once. */
  predicate BaseGoesOn(s: State, ok: Outcomes)
  {
    s.connected && !ok.base ==> !s.responsive
  }

  /** The charger's output, input current and charge request. */
  function LidPath(s: State, current: int, ok: Outcomes): seq<State>
  {
    if current >= 0 then
      var idle := s.(giving := false);
      var drawing := idle.(input := current);
      if !ok.giving then []
      else if !ok.inputCurrent then [idle]
      else if !ok.request then [idle, drawing]
      else [idle, drawing.(prevLid := current)]
    else
      var limited := s.(output := -current);
      if !ok.outputLimit then []
      else if !ok.giving then [limited]
      else [limited, limited.(giving := true, prevLid := current)]
  }

  predicate LidGoesOn(current: int, ok: Outcomes)
  {
    ok.giving && if current >= 0 then ok.inputCurrent && ok.request else ok.outputLimit
  }

  /** Turning the switch on at the end. */
  function SwitchPath(s: State, base: int): seq<State>
  {
    if s.connected && base != 0 then [s.(powered := true)] else []
  }

  /** set_base_lid_current: every state that a call passes through. */
  function SetPath(s: State, base: int, lid: int, ok: Outcomes): seq<State>
  {
    if LidFirst(s.prevBase, s.prevLid, base, lid) then
      var p := LidPath(s, lid, ok);
      var q := p + BasePath(Last(s, p), base, ok);
      if !LidGoesOn(lid, ok) then p
      else if !BaseGoesOn(Last(s, p), ok) then q
      else q + SwitchPath(Last(s, q), base)
    else
      var p := BasePath(s, base, ok);
      var q := p + LidPath(Last(s, p), lid, ok);
      if !BaseGoesOn(s, ok) then p
      else if !LidGoesOn(lid, ok) then q
      else q + SwitchPath(Last(s, q), base)
  }

  /** The whole call was carried out. */
  predicate Done(s: State, lid: int, ok: Outcomes)
  {
    BaseGoesOn(s, ok) && LidGoesOn(lid, ok)
  }

  function Set(s: State, base: int, lid: int, ok: Outcomes): State
  {
    Last(s, SetPath(s, base, lid, ok))
  }

  /** The base is found attached or gone; one that has just come brings its own setting. */
  function Detect(s: State, connected: bool, setting: int): State
  {
    if !connected then s.(connected := false, responsive := false, prevBase := 0, powered := false)
    else if s.connected then s
    else s.(connected := true, setting := setting)
  }

  /** The system is off: nothing is drawn, and a base that answers is put to sleep and cut off.
      It wakes up with whatever setting. */
  function SystemOff(s: State, ok: Outcomes, setting: int): State
  {
    var t := Set(s, 0, 0, ok);
    if t.responsive then t.(responsive := false, powered := false, setting := setting) else t
  }

  // ---------------------------------------------------------------------------
  // Where a call leaves the hardware and the records, for currents of either sign.

  /** A call carried out to its end: the lid has its current, a base that answers has its own, and
      the switch is on if it was, or if the base is to take or give anything. */
  lemma CarriedOut(s: State, base: int, lid: int, ok: Outcomes)
    requires ok.giving && if lid >= 0 then ok.inputCurrent && ok.request else ok.outputLimit
    requires s.connected && !ok.base ==> !s.responsive
    ensures (var t := Set(s, base, lid, ok);
             && t.Lid() == lid && t.prevLid == lid && t.connected == s.connected
             && (t.powered <==> s.powered || (s.connected && base != 0))
             && (s.connected && ok.base ==> t.setting == base && t.prevBase == base && t.Base() == base && t.responsive)
             && (!s.connected || !ok.base ==>
                   t.setting == s.setting && t.prevBase == s.prevBase && t.responsive == s.responsive))
  {
    hide BasePath, LidPath, SwitchPath, LidFirst, Last, SetPath;
    PathCases(s, base, lid, ok);
    if LidFirst(s.prevBase, s.prevLid, base, lid) {
      var p := LidPath(s, lid, ok);
      var t := Last(s, p);
      var q := BasePath(t, base, ok);
      LidDone(s, lid, ok);
      BaseDone(t, base, ok);
      SwitchDone(Last(t, q), base);
      LastOfConcat(s, p, q);
      LastOfConcat(s, p + q, SwitchPath(Last(t, q), base));
    } else {
      var p := BasePath(s, base, ok);
      var t := Last(s, p);
      var q := LidPath(t, lid, ok);
      BaseDone(s, base, ok);
      LidDone(t, lid, ok);
      SwitchDone(Last(t, q), base);
      LastOfConcat(s, p, q);
      LastOfConcat(s, p + q, SwitchPath(Last(t, q), base));
    }
  }

  lemma LidDone(s: State, lid: int, ok: Outcomes)
    requires ok.giving && if lid >= 0 then ok.inputCurrent && ok.request else ok.outputLimit
    ensures (var t := Last(s, LidPath(s, lid, ok));
             && t.Lid() == lid && t.prevLid == lid && t.connected == s.connected && t.responsive == s.responsive
             && t.powered == s.powered && t.setting == s.setting && t.prevBase == s.prevBase)
  {
  }

  lemma BaseDone(s: State, base: int, ok: Outcomes)
    ensures (var t := Last(s, BasePath(s, base, ok));
             && t.Lid() == s.Lid() && t.prevLid == s.prevLid && t.connected == s.connected && t.powered == s.powered
             && (s.connected && ok.base ==> t.setting == base && t.prevBase == base && t.responsive)
             && (!s.connected || !ok.base ==> t == s))
  {
  }

  lemma SwitchDone(s: State, base: int)
    ensures Last(s, SwitchPath(s, base)) == s.(powered := s.powered || (s.connected && base != 0))
  {
  }

  /** A base that has answered fails: nothing happens, unless the lid comes first and has its current. */
  lemma BaseFails(s: State, base: int, lid: int, ok: Outcomes)
    requires s.connected && s.responsive && !ok.base
    requires ok.giving && if lid >= 0 then ok.inputCurrent && ok.request else ok.outputLimit
    ensures (var t := Set(s, base, lid, ok);
             if 0 <= lid < s.prevLid || (lid < 0 && !(0 <= base < s.prevBase)) then
               && t.Lid() == lid && t.prevLid == lid && t.connected && t.responsive
               && t.powered == s.powered && t.setting == s.setting && t.prevBase == s.prevBase
             else t == s)
  {
    hide LidPath, SwitchPath, Last, SetPath;
    PathCases(s, base, lid, ok);
    LastOfNone(s);
    LidDone(s, lid, ok);
    var p := LidPath(s, lid, ok);
    assert p + [] == p;
  }

  /** The charger fails: the record of the lid and the switch stay, and only a base that comes first
      has its current. */
  lemma ChargerFails(s: State, base: int, lid: int, ok: Outcomes)
    requires !ok.giving || if lid >= 0 then !ok.inputCurrent || !ok.request else !ok.outputLimit
    ensures (var t := Set(s, base, lid, ok);
             var lidFirst := 0 <= lid < s.prevLid || (lid < 0 && !(0 <= base < s.prevBase));
             && t.prevLid == s.prevLid && t.powered == s.powered && t.connected == s.connected
             && (if !lidFirst && s.connected && ok.base then t.setting == base && t.prevBase == base && t.responsive
                 else t.setting == s.setting && t.prevBase == s.prevBase && t.responsive == s.responsive)
             && (lidFirst || ok.base || !s.connected || !s.responsive ==>
                   && t.giving == (s.giving && (lid < 0 || !ok.giving))
                   && t.input == (if lid >= 0 && ok.giving && ok.inputCurrent then lid else s.input)
                   && t.output == (if lid < 0 && ok.outputLimit then -lid else s.output)))
  {
    hide BasePath, LidPath, SwitchPath, Last, SetPath;
    PathCases(s, base, lid, ok);
    LastOfNone(s);
    LidStopped(s, lid, ok);
    BaseDone(s, base, ok);
    var p := BasePath(s, base, ok);
    var t := Last(s, p);
    LidStopped(t, lid, ok);
    BaseLeavesCharger(s, base, ok);
    LastOfConcat(s, p, LidPath(t, lid, ok));
  }

  lemma LidStopped(s: State, lid: int, ok: Outcomes)
    requires !ok.giving || if lid >= 0 then !ok.inputCurrent || !ok.request else !ok.outputLimit
    ensures Last(s, LidPath(s, lid, ok)) == s.(
              giving := s.giving && (lid < 0 || !ok.giving),
              input := if lid >= 0 && ok.giving && ok.inputCurrent then lid else s.input,
              output := if lid < 0 && ok.outputLimit then -lid else s.output)
  {
  }

  lemma BaseLeavesCharger(s: State, base: int, ok: Outcomes)
    ensures (var t := Last(s, BasePath(s, base, ok));
             t.giving == s.giving && t.input == s.input && t.output == s.output)
  {
  }

  // ---------------------------------------------------------------------------
  // Exactly when a call draws too much on its way.

  /** Neither side gives current to the other. */
  predicate Draws(s: State)
  {
    s.Base() >= 0 && !s.giving && s.input >= 0
  }

  predicate Exceeds(s: State, base: int, lid: int, ok: Outcomes)
  {
    exists p :: p in SetPath(s, base, lid, ok) && p.Draw() > Max(s.Draw(), base + lid)
  }

  /** The base goes up while the lid still draws more than it is to, which its record hides. */
  predicate StaleLid(s: State, base: int, lid: int, ok: Outcomes)
  {
    && s.connected && ok.base && !LidFirst(s.prevBase, s.prevLid, base, lid)
    && s.powered && s.setting < base && lid < s.Lid()
  }

  /** The lid goes up while the base still draws more than it is to: the lid is set first by a
      stale record, or the base does not take its setting and its error is passed over. */
  predicate StaleBase(s: State, base: int, lid: int, ok: Outcomes)
  {
    && (LidFirst(s.prevBase, s.prevLid, base, lid) || (s.connected && !ok.base && !s.responsive))
    && ok.giving && ok.inputCurrent
    && base < s.Base() && s.Lid() < lid
  }

  /** A base that was cut off does not take its setting, its error is passed over, and the switch
      is turned on for it. */
  predicate StaleSwitch(s: State, base: int, lid: int, ok: Outcomes)
  {
    && s.connected && !s.responsive && !ok.base && LidGoesOn(lid, ok)
    && base != 0 && !s.powered
    && base < s.setting && s.Lid() < s.setting + lid
  }

  lemma LidFirstExceeds(s: State, base: int, lid: int, ok: Outcomes)
    requires base >= 0 && lid >= 0 && Draws(s) && (s.powered ==> s.connected)
    requires LidFirst(s.prevBase, s.prevLid, base, lid)
    ensures Exceeds(s, base, lid, ok) <==> StaleBase(s, base, lid, ok) || StaleSwitch(s, base, lid, ok)
  {
    LidStates(s, lid, ok);
    var p := LidPath(s, lid, ok);
    var t := Last(s, p);
    var q := p + BasePath(t, base, ok);
    var path := SetPath(s, base, lid, ok);
    assert forall x :: x in path ==> x in p || x in BasePath(t, base, ok) || x in SwitchPath(Last(s, q), base);
    if StaleBase(s, base, lid, ok) {
      assert p[1] in path;
    }
    if StaleSwitch(s, base, lid, ok) {
      assert SwitchPath(Last(s, q), base)[0] in path;
    }
  }

  lemma BaseFirstExceeds(s: State, base: int, lid: int, ok: Outcomes)
    requires base >= 0 && lid >= 0 && Draws(s) && (s.powered ==> s.connected)
    requires !LidFirst(s.prevBase, s.prevLid, base, lid)
    ensures Exceeds(s, base, lid, ok) <==>
            StaleLid(s, base, lid, ok) || StaleBase(s, base, lid, ok) || StaleSwitch(s, base, lid, ok)
  {
    var p := BasePath(s, base, ok);
    var t := Last(s, p);
    LidStates(t, lid, ok);
    var q := p + LidPath(t, lid, ok);
    var path := SetPath(s, base, lid, ok);
    assert forall x :: x in path ==> x in p || x in LidPath(t, lid, ok) || x in SwitchPath(Last(s, q), base);
    if StaleLid(s, base, lid, ok) {
      assert p[0] in path;
    }
    if StaleBase(s, base, lid, ok) {
      assert LidPath(t, lid, ok)[1] in path;
    }
    if StaleSwitch(s, base, lid, ok) {
      assert SwitchPath(Last(s, q), base)[0] in path;
    }
  }

  lemma LidStates(s: State, lid: int, ok: Outcomes)
    requires lid >= 0 && Draws(s)
    ensures forall x :: x in LidPath(s, lid, ok) ==> x.Base() == s.Base() && (x.Lid() == s.Lid() || x.Lid() == lid)
    ensures !ok.inputCurrent ==> forall x :: x in LidPath(s, lid, ok) ==> x.Lid() == s.Lid()
    ensures ok.giving && ok.inputCurrent ==> |LidPath(s, lid, ok)| == 2 && LidPath(s, lid, ok)[1].Lid() == lid
  {
  }

  /** For non-negative currents, whatever is recorded, a call draws more on its way than before and
      after it in exactly these three cases. */
  lemma ExceedsExactly(s: State, base: int, lid: int, ok: Outcomes)
    requires base >= 0 && lid >= 0 && Draws(s) && (s.powered ==> s.connected)
    ensures Exceeds(s, base, lid, ok) <==>
            StaleLid(s, base, lid, ok) || StaleBase(s, base, lid, ok) || StaleSwitch(s, base, lid, ok)
  {
    if LidFirst(s.prevBase, s.prevLid, base, lid) {
      LidFirstExceeds(s, base, lid, ok);
    } else {
      BaseFirstExceeds(s, base, lid, ok);
    }
  }

  // ---------------------------------------------------------------------------
  // Runs.

  /** Charged is the charger's input limit written elsewhere, as charger_task does when power or a
      battery comes, and the host and the console may. Initialised is what charger_post_init leaves.
      Reset is a base that is cut off and back again before anyone looks. */
  datatype Event =
    | Currents(base: int, lid: int, ok: Outcomes)
    | Detected(connected: bool, setting: int)
    | Off(ok: Outcomes, setting: int)
    | Charged(input: int)
    | Initialised(input: int, giving: bool, output: int)
    | Reset(setting: int)

  function Next(s: State, e: Event): State
  {
    match e
    case Currents(base, lid, ok) => Set(s, base, lid, ok)
    case Detected(connected, setting) => Detect(s, connected, setting)
    case Off(ok, setting) => SystemOff(s, ok, setting)
    case Charged(input) => s.(input := input)
    case Initialised(input, giving, output) => s.(input := input, giving := giving, output := output)
    case Reset(setting) => s.(powered := false, setting := setting)
  }

  const START: State := State(0, 0, false, false, false, 0, 0, false, 0)

  function Run(events: seq<Event>): State
  {
    if events == [] then START else Next(Run(events[..|events| - 1]), events[|events| - 1])
  }

  /** A missing base draws nothing and has no record; one that answers and is switched on has the
      recorded setting. */
  predicate Inv(s: State)
  {
    && (!s.connected ==> s.prevBase == 0 && !s.responsive && !s.powered)
    && (s.responsive && s.powered ==> s.setting == s.prevBase)
  }

  /** A base that answers has the recorded setting, switched on or not. */
  predicate Told(s: State)
  {
    s.responsive ==> s.setting == s.prevBase
  }

  lemma LastOfConcat(s: State, a: seq<State>, b: seq<State>)
    ensures Last(s, a + b) == Last(Last(s, a), b)
  {
    if b == [] {
      assert a + b == a;
    } else {
      assert (a + b)[|a + b| - 1] == b[|b| - 1];
    }
  }

  /** The path of a call, case by case. */
  lemma PathCases(s: State, base: int, lid: int, ok: Outcomes)
    ensures LidFirst(s.prevBase, s.prevLid, base, lid) ==>
              (var p := LidPath(s, lid, ok);
               var q := p + BasePath(Last(s, p), base, ok);
               && (!LidGoesOn(lid, ok) ==> SetPath(s, base, lid, ok) == p)
               && (LidGoesOn(lid, ok) && !BaseGoesOn(Last(s, p), ok) ==> SetPath(s, base, lid, ok) == q)
               && (LidGoesOn(lid, ok) && BaseGoesOn(Last(s, p), ok) ==>
                     SetPath(s, base, lid, ok) == q + SwitchPath(Last(s, q), base)))
    ensures !LidFirst(s.prevBase, s.prevLid, base, lid) ==>
              (var p := BasePath(s, base, ok);
               var q := p + LidPath(Last(s, p), lid, ok);
               && (!BaseGoesOn(s, ok) ==> SetPath(s, base, lid, ok) == p)
               && (BaseGoesOn(s, ok) && !LidGoesOn(lid, ok) ==> SetPath(s, base, lid, ok) == q)
               && (BaseGoesOn(s, ok) && LidGoesOn(lid, ok) ==>
                     SetPath(s, base, lid, ok) == q + SwitchPath(Last(s, q), base)))
  {
    hide BasePath, LidPath, LidGoesOn, LidFirst, Last, BaseGoesOn, SwitchPath;
  }

  lemma LastOfNone(s: State)
    ensures Last(s, []) == s
  {
  }

  lemma LastOfOne(s: State, t: State)
    ensures Last(s, [t]) == t
  {
  }

  lemma NoBase(s: State, base: int, ok: Outcomes)
    ensures !s.connected ==> BasePath(s, base, ok) == []
  {
  }

  /** The record of the lid is what the charger does. */
  predicate Recorded(s: State)
  {
    s.Lid() == s.prevLid
  }

  lemma BasePart(s: State, base: int, ok: Outcomes)
    requires Inv(s)
    ensures (var t := Last(s, BasePath(s, base, ok));
             && Inv(t) && t.connected == s.connected
             && (BaseGoesOn(s, ok) ==> Told(t)) && (Recorded(s) ==> Recorded(t)))
  {
  }

  lemma LidPart(s: State, lid: int, ok: Outcomes)
    requires Inv(s)
    ensures (var t := Last(s, LidPath(s, lid, ok));
             && Inv(t) && t.connected == s.connected && t.responsive == s.responsive
             && (Told(s) ==> Told(t)) && (LidGoesOn(lid, ok) || (Recorded(s) && Untouched(lid, ok)) ==> Recorded(t)))
  {
  }

  lemma SwitchPart(s: State, base: int)
    requires Inv(s) && Told(s)
    ensures (var t := Last(s, SwitchPath(s, base)); Inv(t) && (Recorded(s) ==> Recorded(t)))
  {
  }

  /** The charger fails at its first call, before anything is changed. */
  predicate Untouched(lid: int, ok: Outcomes)
  {
    if lid >= 0 then !ok.giving else !ok.outputLimit
  }

  /** The call gets to the charger. */
  predicate Reaches(s: State, base: int, lid: int, ok: Outcomes)
  {
    LidFirst(s.prevBase, s.prevLid, base, lid) || BaseGoesOn(s, ok)
  }

  /** Whether the record is right after a call, where `known` says whether it was before. */
  predicate KnownAfter(s: State, known: bool, base: int, lid: int, ok: Outcomes)
  {
    if !Reaches(s, base, lid, ok) || Untouched(lid, ok) then known else LidGoesOn(lid, ok)
  }

  lemma SetKeepsInv(s: State, known: bool, base: int, lid: int, ok: Outcomes)
    requires Inv(s) && (known ==> Recorded(s))
    ensures Inv(Set(s, base, lid, ok))
    ensures KnownAfter(s, known, base, lid, ok) ==> Recorded(Set(s, base, lid, ok))
  {
    hide Inv, Told, Recorded, Untouched, BasePath, LidPath, SwitchPath, LidFirst, LidGoesOn, Last;
    if LidFirst(s.prevBase, s.prevLid, base, lid) {
      LidPart(s, lid, ok);
      var p := LidPath(s, lid, ok);
      var t := Last(s, p);
      var q := BasePath(t, base, ok);
      BasePart(t, base, ok);
      LastOfConcat(s, p, q);
      LastOfConcat(s, p + q, SwitchPath(Last(t, q), base));
      if LidGoesOn(lid, ok) && BaseGoesOn(t, ok) {
        SwitchPart(Last(t, q), base);
      }
      UntouchedStops(lid, ok);
    } else {
      BasePart(s, base, ok);
      var p := BasePath(s, base, ok);
      var t := Last(s, p);
      var q := LidPath(t, lid, ok);
      LidPart(t, lid, ok);
      LastOfConcat(s, p, q);
      LastOfConcat(s, p + q, SwitchPath(Last(t, q), base));
      if LidGoesOn(lid, ok) && BaseGoesOn(s, ok) {
        SwitchPart(Last(t, q), base);
      }
      UntouchedStops(lid, ok);
    }
  }

  lemma UntouchedStops(lid: int, ok: Outcomes)
    ensures Untouched(lid, ok) ==> !LidGoesOn(lid, ok)
  {
  }

  lemma {:induction false} EveryRunKeepsInv(events: seq<Event>)
    ensures Inv(Run(events))
  {
    if events != [] {
      var before := Run(events[..|events| - 1]);
      EveryRunKeepsInv(events[..|events| - 1]);
      match events[|events| - 1] {
        case Currents(base, lid, ok) => SetKeepsInv(before, false, base, lid, ok);
        case Off(ok, _) => SetKeepsInv(before, false, 0, 0, ok);
        case _ =>
      }
    }
  }

  /** The last time that anything changed the charger, it was a call that got through to its end
      there. */
  ghost predicate LidKnown(events: seq<Event>)
  {
    events == [] ||
    var first := events[..|events| - 1];
    match events[|events| - 1]
    case Currents(base, lid, ok) => KnownAfter(Run(first), LidKnown(first), base, lid, ok)
    case Off(ok, _) => KnownAfter(Run(first), LidKnown(first), 0, 0, ok)
    case Detected(_, _) => LidKnown(first)
    case Reset(_) => LidKnown(first)
    case Charged(_) => false
    case Initialised(_, _, _) => false
  }

  lemma {:induction false} LidIsRecorded(events: seq<Event>)
    requires LidKnown(events)
    ensures Recorded(Run(events))
  {
    if events != [] {
      var first := events[..|events| - 1];
      var before := Run(first);
      EveryRunKeepsInv(first);
      if LidKnown(first) {
        LidIsRecorded(first);
      }
      match events[|events| - 1] {
        case Currents(base, lid, ok) => SetKeepsInv(before, LidKnown(first), base, lid, ok);
        case Off(ok, _) => SetKeepsInv(before, LidKnown(first), 0, 0, ok);
        case _ =>
      }
    }
  }

  /** After any run at all, a call draws too much on its way in exactly the three cases. */
  lemma EveryRunExceedsExactly(events: seq<Event>, base: int, lid: int, ok: Outcomes)
    requires base >= 0 && lid >= 0 && Draws(Run(events))
    ensures (var s := Run(events);
             Exceeds(s, base, lid, ok) <==>
             StaleLid(s, base, lid, ok) || StaleBase(s, base, lid, ok) || StaleSwitch(s, base, lid, ok))
  {
    EveryRunKeepsInv(events);
    ExceedsExactly(Run(events), base, lid, ok);
  }

  /** While the record of the lid is known to be right, only an error of a base that has not answered,
      which is passed over, does it: exactly when such a base has a setting above the new one and
      the lid, or the switch, goes up. */
  lemma RunsExceedExactly(events: seq<Event>, base: int, lid: int, ok: Outcomes)
    requires LidKnown(events) && base >= 0 && lid >= 0 && Draws(Run(events))
    ensures (var s := Run(events);
             Exceeds(s, base, lid, ok) <==>
             && s.connected && !s.responsive && !ok.base && base < s.setting
             && if s.powered then ok.giving && ok.inputCurrent && s.Lid() < lid
                else LidGoesOn(lid, ok) && base != 0 && s.Lid() < s.setting + lid)
  {
    var s := Run(events);
    EveryRunKeepsInv(events);
    LidIsRecorded(events);
    hide Run, LidKnown, Exceeds;
    ExceedsExactly(s, base, lid, ok);
    WithRightRecord(s, base, lid, ok);
  }

  /** With the right record of the lid, two of the three cases do not happen, or only in part. */
  lemma WithRightRecord(s: State, base: int, lid: int, ok: Outcomes)
    requires Inv(s) && Recorded(s) && Draws(s) && base >= 0 && lid >= 0
    ensures StaleLid(s, base, lid, ok) || StaleBase(s, base, lid, ok) || StaleSwitch(s, base, lid, ok) <==>
            && s.connected && !s.responsive && !ok.base && base < s.setting
            && if s.powered then ok.giving && ok.inputCurrent && s.Lid() < lid
               else LidGoesOn(lid, ok) && base != 0 && s.Lid() < s.setting + lid
  {
  }

  /** So a call is safe if the record of the lid is known to be right and the base answers. */
  lemma RunsAreSafe(events: seq<Event>, base: int, lid: int, ok: Outcomes)
    requires LidKnown(events) && base >= 0 && lid >= 0 && Draws(Run(events))
    requires Run(events).connected ==> Run(events).responsive || ok.base
    ensures forall p :: p in SetPath(Run(events), base, lid, ok) ==> p.Draw() <= Max(Run(events).Draw(), base + lid)
  {
    RunsExceedExactly(events, base, lid, ok);
  }

  /** And if the base answers, a call whose record is wrong does it exactly when one side goes up while
      the other, set second, goes down. */
  lemma AnsweringBaseExceedsExactly(events: seq<Event>, base: int, lid: int, ok: Outcomes)
    requires base >= 0 && lid >= 0 && Draws(Run(events)) && Run(events).connected && ok.base
    ensures (var s := Run(events);
             Exceeds(s, base, lid, ok) <==>
             if lid < s.prevLid then ok.giving && ok.inputCurrent && base < s.Base() && s.Lid() < lid
             else s.powered && s.setting < base && lid < s.Lid())
  {
    EveryRunExceedsExactly(events, base, lid, ok);
  }

  // ---------------------------------------------------------------------------
  // Each case happens.

  const ALL: Outcomes := Outcomes(true, true, true, true, true)
  const NO_BASE: Outcomes := Outcomes(false, true, true, true, true)
  const NO_REQUEST: Outcomes := Outcomes(true, true, true, true, false)

  lemma RunAppend(events: seq<Event>, e: Event)
    ensures Run(events + [e]) == Next(Run(events), e)
  {
    assert (events + [e])[..|events + [e]| - 1] == events;
  }

  /** Attach a base and give both sides their currents. */
  lemma Attached(base: int, lid: int) returns (events: seq<Event>)
    requires base > 0 && lid > 0
    ensures Run(events) == State(base, lid, true, true, true, base, lid, false, 0) && LidKnown(events)
  {
    var attach, currents := Detected(true, 0), Currents(base, lid, ALL);
    RunAppend([], attach);
    RunAppend([] + [attach], currents);
    events := [] + [attach] + [currents];
  }

  /** A base that has just come gives 1982 mA to the lid, which takes 1800. */
  lemma BaseGives() returns (events: seq<Event>)
    ensures Run(events) == State(-1982, 1800, true, true, true, -1982, 1800, false, 0)
    ensures Run(events).Base() == -1982 && Run(events).Lid() == 1800
  {
    var attach, currents := Detected(true, 0), Currents(-1982, 1800, ALL);
    RunAppend([], attach);
    RunAppend([] + [attach], currents);
    events := [] + [attach] + [currents];
  }

  /** The lid gives 118 mA, of which a base that has just come takes 108. */
  lemma LidGives() returns (events: seq<Event>)
    ensures Run(events) == State(108, -118, true, true, true, 108, 0, true, 118)
    ensures Run(events).Base() == 108 && Run(events).Lid() == -118
  {
    var attach, currents := Detected(true, 0), Currents(108, -118, ALL);
    RunAppend([], attach);
    RunAppend([] + [attach], currents);
    events := [] + [attach] + [currents];
  }

  /** A failed charge request leaves the lid at 500 with 1000 on record. The next call then raises
      the lid to 800 first, taking it for a reduction, while the base still draws 1000: 1800 mA,
      where 1500 were drawn before and 1000 are after. */
  lemma StaleRecordOvershoots() returns (events: seq<Event>)
    ensures Run(events).Base() == 1000 && Run(events).Lid() == 500 && Run(events).prevLid == 1000
    ensures StaleBase(Run(events), 200, 800, ALL) && Exceeds(Run(events), 200, 800, ALL)
  {
    var before := Attached(1000, 1000);
    RunAppend(before, Currents(1000, 500, NO_REQUEST));
    events := before + [Currents(1000, 500, NO_REQUEST)];
    ExceedsExactly(Run(events), 200, 800, ALL);
  }

  /** A failed charge request leaves the lid at 1000 with 100 on record; the next call raises the
      base first. */
  lemma StaleLidOvershoots() returns (events: seq<Event>)
    ensures Run(events).Base() == 100 && Run(events).Lid() == 1000 && Run(events).prevLid == 100
    ensures StaleLid(Run(events), 1000, 200, ALL) && Exceeds(Run(events), 1000, 200, ALL)
  {
    var before := Attached(100, 100);
    RunAppend(before, Currents(100, 1000, NO_REQUEST));
    events := before + [Currents(100, 1000, NO_REQUEST)];
    ExceedsExactly(Run(events), 1000, 200, ALL);
  }

  /** Both sides draw 500, then the system is suspended and draws nothing; power is plugged in, and
      charger_task gives the lid all 3000 mA without a record of it. Nothing fails, and the base
      answers, but the next call raises the base first: 3500 mA, where 3000 are drawn before and after. */
  lemma PluggingInOvershoots() returns (events: seq<Event>)
    ensures (var s := Run(events);
             s.connected && s.responsive && s.Base() == 0 && s.Lid() == 3000 && s.prevLid == 0 && !LidKnown(events))
    ensures StaleLid(Run(events), 500, 2500, ALL) && Exceeds(Run(events), 500, 2500, ALL)
    ensures exists p :: p in SetPath(Run(events), 500, 2500, ALL) && p.Draw() == 3500
  {
    var before := Attached(500, 500);
    RunAppend(before, Currents(0, 0, ALL));
    var suspended := before + [Currents(0, 0, ALL)];
    RunAppend(suspended, Charged(3000));
    events := suspended + [Charged(3000)];
    var s := Run(events);
    assert s == State(0, 0, true, true, true, 0, 3000, false, 0);
    ExceedsExactly(s, 500, 2500, ALL);
    assert BasePath(s, 500, ALL)[0] in SetPath(s, 500, 2500, ALL);
  }

  /** The same the other way round: charger_task cuts the lid to 500, with 2000 on record, and the next
      call raises the lid first, to 800, while the base still draws 1000. */
  lemma CuttingInputOvershoots() returns (events: seq<Event>)
    ensures (var s := Run(events);
             s.connected && s.responsive && s.Base() == 1000 && s.Lid() == 500 && s.prevLid == 2000)
    ensures StaleBase(Run(events), 200, 800, ALL) && Exceeds(Run(events), 200, 800, ALL)
  {
    var before := Attached(1000, 2000);
    RunAppend(before, Charged(500));
    events := before + [Charged(500)];
    ExceedsExactly(Run(events), 200, 800, ALL);
  }

  /** A base that fails to take its setting when the system goes off is put to sleep and wakes up
      with the old one; its next error is passed over, and the switch is turned on. */
  lemma SleepingBaseOvershoots() returns (events: seq<Event>)
    ensures (var s := Run(events); s.connected && !s.responsive && s.prevBase == 1000 && s.Draw() == 0)
    ensures StaleSwitch(Run(events), 200, 800, NO_BASE) && Exceeds(Run(events), 200, 800, NO_BASE)
  {
    var before := Attached(1000, 1000);
    RunAppend(before, Off(NO_BASE, 1000));
    events := before + [Off(NO_BASE, 1000)];
    var s := Run(events);
    var t := Run(before);
    hide Run, Exceeds;
    var p := LidPath(t, 0, NO_BASE);
    assert p[1] == State(1000, 0, true, true, true, 1000, 0, false, 0);
    assert p + BasePath(p[1], 0, NO_BASE) == p;
    assert Set(t, 0, 0, NO_BASE) == p[1];
    assert s == State(1000, 0, true, false, false, 1000, 0, false, 0);
    hide Set, SetPath, SystemOff;
    ExceedsExactly(s, 200, 800, NO_BASE);
  }

  /** A base that comes with a setting of 500 and does not answer keeps it through two calls. */
  lemma SilentBaseOvershoots() returns (events: seq<Event>)
    ensures Run(events).Base() == 500 && Run(events).Lid() == 100
    ensures StaleBase(Run(events), 200, 800, NO_BASE) && Exceeds(Run(events), 200, 800, NO_BASE)
  {
    var attach, currents := Detected(true, 500), Currents(500, 100, NO_BASE);
    RunAppend([], attach);
    RunAppend([] + [attach], currents);
    events := [] + [attach] + [currents];
    ExceedsExactly(Run(events), 200, 800, NO_BASE);
  }

  // ---------------------------------------------------------------------------
  // The code.

  class Rails {
    var prevBase: int
    var prevLid: int
    var connected: bool
    var responsive: bool
    ghost var powered: bool
    ghost var setting: int
    ghost var input: int
    ghost var giving: bool
    ghost var output: int
    ghost var path: seq<State>

    ghost function Now(): State
      reads this
    {
      State(prevBase, prevLid, connected, responsive, powered, setting, input, giving, output)
    }

    constructor ()
      ensures Now() == START && path == []
    {
      prevBase, prevLid, connected, responsive := 0, 0, false, false;
      powered, setting, input, giving, output, path := false, 0, 0, false, 0, [];
    }

    /** update_base_battery_info, as far as it resets these fields. */
    method UpdateBase(present: bool, ghost brought: int)
      modifies this
      ensures Now() == Detect(old(Now()), present, brought) && path == old(path)
    {
      if !present {
        responsive := false;
        prevBase := 0;
        powered := false;
      } else if !connected {
        setting := brought;
      }
      connected := present;
    }

    /** set_base_current. */
    method SetBaseCurrent(current: int, ok: Outcomes) returns (success: bool)
      requires connected
      modifies this
      ensures success == BaseGoesOn(old(Now()), ok) && connected
      ensures Now() == Last(old(Now()), BasePath(old(Now()), current, ok))
      ensures path == old(path) + BasePath(old(Now()), current, ok)
    {
      if !ok.base {
        if responsive {
          return false;
        }
      } else {
        setting := current;
        responsive := true;
        prevBase := current;
        path := path + [Now()];
      }
      return true;
    }

    /** The lid's part of set_base_lid_current. */
    method SetLidCurrent(current: int, ok: Outcomes) returns (success: bool)
      modifies this
      ensures success == LidGoesOn(current, ok) && connected == old(connected) && responsive == old(responsive)
      ensures Now() == Last(old(Now()), LidPath(old(Now()), current, ok))
      ensures path == old(path) + LidPath(old(Now()), current, ok)
    {
      if current >= 0 {
        if !ok.giving {
          return false;
        }
        giving := false;
        path := path + [Now()];
        if !ok.inputCurrent {
          return false;
        }
        input := current;
        if !ok.request {
          path := path + [Now()];
          return false;
        }
      } else {
        if !ok.outputLimit {
          return false;
        }
        output := -current;
        path := path + [Now()];
        if !ok.giving {
          return false;
        }
        giving := true;
      }
      prevLid := current;
      path := path + [Now()];
      return true;
    }

    /** set_base_lid_current; says whether all of it was done. The path grows by every state that
        the hardware passes through. */
    method SetBaseLidCurrent(base: int, lid: int, ok: Outcomes) returns (done: bool)
      modifies this
      ensures done == Done(old(Now()), lid, ok)
      ensures path == old(path) + SetPath(old(Now()), base, lid, ok)
      ensures Now() == Set(old(Now()), base, lid, ok)
    {
      hide BasePath, LidPath, LidGoesOn, LidFirst, Last, SetPath;
      ghost var s := Now();
      LastOfNone(s);
      NoBase(s, base, ok);
      PathCases(s, base, lid, ok);
      ghost var w: seq<State> := [];
      var lidFirst := LidFirst(prevBase, prevLid, base, lid);
      if !lidFirst && connected {
        w := BasePath(s, base, ok);
        var success := SetBaseCurrent(base, ok);
        if !success {
          return false;
        }
      }
      LastOfConcat(s, w, LidPath(Now(), lid, ok));
      assert lidFirst ==> w + LidPath(Now(), lid, ok) == LidPath(s, lid, ok);
      w := w + LidPath(Now(), lid, ok);
      var success := SetLidCurrent(lid, ok);
      if !success {
        return false;
      }
      NoBase(Now(), base, ok);
      assert w + [] == w;
      if lidFirst && connected {
        LastOfConcat(s, w, BasePath(Now(), base, ok));
        w := w + BasePath(Now(), base, ok);
        success := SetBaseCurrent(base, ok);
        if !success {
          return false;
        }
      }
      assert w + [] == w;
      LastOfConcat(s, w, SwitchPath(Now(), base));
      if connected && base != 0 {
        LastOfOne(Now(), Now().(powered := true));
        powered := true;
        path := path + [Now()];
      }
      return true;
    }

    /** charger_task when power or a battery comes: the charger's input limit is written, and no record
        is made of it. */
    method WriteInputCurrent(desired: int, ok: bool)
      modifies this
      ensures Now() == (if ok then Next(old(Now()), Charged(desired)) else old(Now())) && path == old(path)
    {
      if ok {
        input := desired;
      }
    }

    /** The branch of charge_allocate_input_current_limit for a system that is off. */
    method SystemIsOff(ok: Outcomes, ghost woken: int)
      modifies this
      ensures Now() == SystemOff(old(Now()), ok, woken)
    {
      var _ := SetBaseLidCurrent(0, 0, ok);
      if responsive {
        setting := woken;
        responsive := false;
        powered := false;
      }
    }
  }
}
