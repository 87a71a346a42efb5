/** Debouncing of one key over a run of matrix scans. */
module KeyDebounce {
  /** Number of scan times kept; the ring's slots are used again after that many scans. */
  const RING: nat := 32
  const WRAP: nat := 0x1_0000_0000

  datatype Config = Config(down: nat, up: nat)
  {
    function Delay(pressed: bool): nat { if pressed then down else up }
  }

  /** edge is the number of the scan that last saw the raw value change. */
  datatype Key = Key(debounced: bool, prev: bool, debouncing: bool, edge: nat)

  ghost predicate Monotone(times: seq<nat>)
  {
    forall i, j :: 0 <= i <= j < |times| ==> times[i] <= times[j]
  }

  /** The last scan up to n whose time went to the slot of scan e. */
  function Latest(n: nat, e: nat): (m: nat)
    requires e <= n
    ensures e <= m <= n && n - m < RING && (n - e < RING ==> m == e)
  {
    n - (n - e) % RING
  }

  /** What the code measures at the last scan, in 32 bits, for an edge at scan e. */
  function Elapsed(times: seq<nat>, e: nat): nat
    requires e < |times|
  {
    (times[|times| - 1] - times[Latest(|times| - 1, e)]) % WRAP
  }

  /** The measure never exceeds the true time since the edge, and is exact while the slot is the
      edge's own. */
  lemma ElapsedBound(times: seq<nat>, e: nat)
    requires e < |times| && Monotone(times)
    ensures (var n, held := |times| - 1, times[|times| - 1] - times[e];
             && Elapsed(times, e) <= held
             && (n - e < RING && held < WRAP ==> Elapsed(times, e) == held))
  {
    var n := |times| - 1;
    var d := times[n] - times[Latest(n, e)];
    assert times[e] <= times[Latest(n, e)] <= times[n];
    assert d % WRAP <= d;
  }

  /** The first pass: a changed raw value restarts debouncing. */
  function Marked(k: Key, raw: bool, n: nat): Key
  {
    if raw != k.prev then Key(k.debounced, raw, true, n) else k
  }

  /** The second pass: a key whose wait is over takes the raw value. */
  function Settled(k: Key, raw: bool, times: seq<nat>, cfg: Config): Key
    requires k.debouncing ==> k.edge < |times|
  {
    if k.debouncing && cfg.Delay(raw) <= Elapsed(times, k.edge) then k.(debouncing := false, debounced := raw) else k
  }

  function Step(k: Key, raw: bool, times: seq<nat>, cfg: Config): Key
    requires times != [] && (k.debouncing ==> k.edge < |times|)
  {
    Settled(Marked(k, raw, |times| - 1), raw, times, cfg)
  }

  // ---------------------------------------------------------------------------
  // Runs.

  /** One scan as one key sees it; a ghosting matrix is not accepted. */
  datatype Scan = Scan(time: nat, accepted: bool, raw: bool)

  function Times(scans: seq<Scan>): (t: seq<nat>)
    ensures |t| == |scans|
  {
    seq(|scans|, i requires 0 <= i < |scans| => scans[i].time)
  }

  ghost predicate InOrder(scans: seq<Scan>)
  {
    forall i, j :: 0 <= i <= j < |scans| ==> scans[i].time <= scans[j].time
  }

  /** The key after a run that starts settled at the value `start`. */
  function Run(start: bool, scans: seq<Scan>, cfg: Config): (k: Key)
    ensures k.debouncing ==> k.edge < |scans|
  {
    if scans == [] then Key(start, start, false, 0)
    else
      var n := |scans| - 1;
      var k := Run(start, scans[..n], cfg);
      if scans[n].accepted then Step(k, scans[n].raw, Times(scans), cfg) else k
  }

  /** Every accepted scan from e on read v. */
  ghost predicate HeldSince(scans: seq<Scan>, e: nat, v: bool)
  {
    forall m :: e <= m < |scans| && scans[m].accepted ==> scans[m].raw == v
  }

  ghost predicate RunInv(k: Key, scans: seq<Scan>)
  {
    && (!k.debouncing ==> k.debounced == k.prev)
    && (k.debouncing ==>
          && k.edge < |scans| && scans[k.edge].accepted
          && HeldSince(scans, k.edge, k.prev))
  }

  /** Debounced and previous value agree on a key that is not debouncing, and a debouncing key has
      read its previous value at every accepted scan since its edge. */
  lemma {:induction false} EveryRunKeepsInv(start: bool, scans: seq<Scan>, cfg: Config)
    ensures RunInv(Run(start, scans, cfg), scans)
  {
    if scans != [] {
      var n := |scans| - 1;
      EveryRunKeepsInv(start, scans[..n], cfg);
      StepKeepsInv(Run(start, scans[..n], cfg), scans, cfg);
    }
  }

  lemma StepKeepsInv(k: Key, scans: seq<Scan>, cfg: Config)
    requires scans != [] && RunInv(k, scans[..|scans| - 1])
    ensures (var last := scans[|scans| - 1];
             RunInv(if last.accepted then Step(k, last.raw, Times(scans), cfg) else k, scans))
  {
    hide Elapsed;
    var n := |scans| - 1;
    var before := scans[..n];
    if k.debouncing {
      assert before[k.edge] == scans[k.edge];
      if scans[n].accepted ==> scans[n].raw == k.prev {
        forall m | k.edge <= m < |scans| && scans[m].accepted ensures scans[m].raw == k.prev {
          assert m < n ==> scans[m] == before[m];
        }
      }
    }
  }

  /** A debounced key flips only at an accepted scan, and only when every accepted scan over at
      least the debounce time read the new value, however often the ring's slots were used. */
  lemma FlipMeansHeld(start: bool, scans: seq<Scan>, cfg: Config)
    requires scans != [] && InOrder(scans)
    requires Run(start, scans, cfg).debounced != Run(start, scans[..|scans| - 1], cfg).debounced
    ensures (var n, v := |scans| - 1, Run(start, scans, cfg).debounced;
             && scans[n].accepted && scans[n].raw == v && !Run(start, scans, cfg).debouncing
             && exists e :: 0 <= e <= n && scans[e].accepted && HeldSince(scans, e, v)
                            && (if v then cfg.down else cfg.up) <= scans[n].time - scans[e].time)
  {
    var n := |scans| - 1;
    var times := Times(scans);
    var k := Run(start, scans[..n], cfg);
    var v := scans[n].raw;
    var marked := Marked(k, v, n);
    EveryRunKeepsInv(start, scans[..n], cfg);
    MarkedHeld(k, scans);
    ElapsedBound(times, marked.edge);
    hide Elapsed, Run, RunInv;
    assert times[n] == scans[n].time && times[marked.edge] == scans[marked.edge].time;
    assert HeldSince(scans, marked.edge, v);
  }

  lemma MarkedHeld(k: Key, scans: seq<Scan>)
    requires scans != [] && RunInv(k, scans[..|scans| - 1]) && scans[|scans| - 1].accepted
    ensures (var n := |scans| - 1; var marked := Marked(k, scans[n].raw, n);
             marked.debouncing ==>
             && marked.edge <= n && scans[marked.edge].accepted
             && HeldSince(scans, marked.edge, scans[n].raw))
  {
    var n := |scans| - 1;
    var before := scans[..n];
    if k.debouncing && scans[n].raw == k.prev {
      assert before[k.edge] == scans[k.edge];
      forall m | k.edge <= m < |scans| && scans[m].accepted ensures scans[m].raw == k.prev {
        assert m < n ==> scans[m] == before[m];
      }
    }
  }

  /** No accepted scan from e on has measured the delay of v. */
  ghost predicate Waiting(scans: seq<Scan>, e: nat, v: bool, cfg: Config)
  {
    forall m :: e <= m < |scans| && scans[m].accepted ==> Elapsed(Times(scans[..m + 1]), e) < cfg.Delay(v)
  }

  /** An edge to v at scan e that is followed by nothing but v: the key is still debouncing, with
      its old debounced value, exactly while no accepted scan has measured the delay; afterwards
      it has settled at v. */
  lemma {:induction false} SettlesExactly(start: bool, scans: seq<Scan>, cfg: Config, e: nat, v: bool)
    requires e < |scans| && scans[e].accepted && HeldSince(scans, e, v)
    requires Run(start, scans[..e], cfg).prev != v
    ensures (var k := Run(start, scans, cfg);
             && k.prev == v
             && (k.debouncing <==> Waiting(scans, e, v, cfg))
             && (k.debouncing ==> k.edge == e && k.debounced == Run(start, scans[..e], cfg).debounced)
             && (!k.debouncing ==> k.debounced == v))
  {
    hide Elapsed;
    var n := |scans| - 1;
    var before := scans[..n];
    assert scans[..n + 1] == scans;
    WaitingStep(scans, e, v, cfg);
    if e < n {
      assert before[e] == scans[e] && before[..e] == scans[..e];
      assert HeldSince(before, e, v);
      SettlesExactly(start, before, cfg, e, v);
    }
  }

  lemma WaitingStep(scans: seq<Scan>, e: nat, v: bool, cfg: Config)
    requires e < |scans|
    ensures (var n := |scans| - 1;
             Waiting(scans, e, v, cfg) <==>
             && (e < n ==> Waiting(scans[..n], e, v, cfg))
             && (scans[n].accepted ==> Elapsed(Times(scans), e) < cfg.Delay(v)))
  {
    hide Elapsed, Times;
    var n := |scans| - 1;
    assert scans[..n + 1] == scans;
    if e < n && Waiting(scans[..n], e, v, cfg) && (scans[n].accepted ==> Elapsed(Times(scans), e) < cfg.Delay(v)) {
      forall m | e <= m < |scans| && scans[m].accepted ensures Elapsed(Times(scans[..m + 1]), e) < cfg.Delay(v) {
        if m < n { assert scans[..n][m] == scans[m] && scans[..n][..m + 1] == scans[..m + 1]; }
      }
    }
    if e < n && Waiting(scans, e, v, cfg) {
      forall m | e <= m < n && scans[..n][m].accepted ensures Elapsed(Times(scans[..n][..m + 1]), e) < cfg.Delay(v) {
        assert scans[..n][m] == scans[m] && scans[..n][..m + 1] == scans[..m + 1];
      }
    }
  }

  /** Within one turn of the ring, holding the new value for the debounce time settles the key. */
  lemma SettlesWithinTheRing(start: bool, scans: seq<Scan>, cfg: Config, e: nat, v: bool)
    requires e < |scans| && scans[e].accepted && HeldSince(scans, e, v) && InOrder(scans)
    requires Run(start, scans[..e], cfg).prev != v
    requires scans[|scans| - 1].accepted && |scans| - 1 - e < RING
    requires (if v then cfg.down else cfg.up) <= scans[|scans| - 1].time - scans[e].time < WRAP
    ensures Run(start, scans, cfg).debounced == v && !Run(start, scans, cfg).debouncing
  {
    var n := |scans| - 1;
    SettlesExactly(start, scans, cfg, e, v);
    ElapsedBound(Times(scans), e);
    WaitingStep(scans, e, v, cfg);
  }

  /** A key cannot settle while every turn of the ring is shorter than the delay: with at least
      RING scans inside any debounce time the edge's slot is rewritten before the wait is over. */
  lemma FastScansNeverSettle(start: bool, scans: seq<Scan>, cfg: Config, e: nat, v: bool)
    requires e < |scans| && scans[e].accepted && HeldSince(scans, e, v) && InOrder(scans)
    requires Run(start, scans[..e], cfg).prev != v
    requires forall i, j :: e <= i <= j < |scans| && j - i < RING ==>
                              scans[j].time - scans[i].time < if v then cfg.down else cfg.up
    ensures Run(start, scans, cfg).debouncing
    ensures Run(start, scans, cfg).debounced == Run(start, scans[..e], cfg).debounced
  {
    forall m | e <= m < |scans| && scans[m].accepted ensures Elapsed(Times(scans[..m + 1]), e) < cfg.Delay(v) {
      ShortTurn(scans, e, m, cfg.Delay(v));
    }
    hide Elapsed, Times, Run;
    SettlesExactly(start, scans, cfg, e, v);
  }

  lemma ShortTurn(scans: seq<Scan>, e: nat, m: nat, delay: nat)
    requires e <= m < |scans| && InOrder(scans)
    requires forall i, j :: e <= i <= j < |scans| && j - i < RING ==> scans[j].time - scans[i].time < delay
    ensures Elapsed(Times(scans[..m + 1]), e) < delay
  {
    var t := Times(scans[..m + 1]);
    var l := Latest(m, e);
    assert t[m] == scans[m].time && t[l] == scans[l].time;
    assert (t[m] - t[l]) % WRAP <= t[m] - t[l];
  }

  /** With the times 9 ms and 30 ms of the default configuration a press held for 12 ms has settled,
      and a release as long as that has not. */
  lemma PressSettlesFirst(scans: seq<Scan>, v: bool, cfg: Config)
    requires cfg == Config(9000, 30000) && scans == [Scan(1000, true, v), Scan(13000, true, v)]
    ensures v ==> Run(false, scans, cfg).debounced && !Run(false, scans, cfg).debouncing
    ensures !v ==> Run(true, scans, cfg).debounced && Run(true, scans, cfg).debouncing
  {
    assert Run(!v, scans[..0], cfg) == Key(!v, !v, false, 0);
    hide Run;
    assert scans[0].raw == v && scans[1].raw == v;
    if v {
      SettlesWithinTheRing(false, scans, cfg, 0, v);
    } else {
      FastScansNeverSettle(true, scans, cfg, 0, v);
    }
  }

  /** A key held over two scans 2^32 - 1 us apart settles, and one held 1 us longer does not. */
  lemma TimesWrap(scans: seq<Scan>, wait: nat, cfg: Config)
    requires cfg == Config(9, 9) && scans == [Scan(1, true, true), Scan(1 + wait, true, true)]
    ensures wait == 0xffff_ffff ==> !Run(false, scans, cfg).debouncing && Run(false, scans, cfg).debounced
    ensures wait == 0x1_0000_0000 ==> Run(false, scans, cfg).debouncing && !Run(false, scans, cfg).debounced
  {
    assert Run(false, scans[..0], cfg) == Key(false, false, false, 0);
    hide Run;
    assert scans[0].raw && scans[1].raw;
    if wait == 0xffff_ffff {
      SettlesWithinTheRing(false, scans, cfg, 0, true);
    }
    if wait == 0x1_0000_0000 {
      forall m | 0 <= m < 2 && scans[m].accepted ensures Elapsed(Times(scans[..m + 1]), 0) == 0 {
      }
      SettlesExactly(false, scans, cfg, 0, true);
    }
  }

  /** A key held over scans 1 us apart settles after 31 us, the longest delay the ring can measure
      here, and is not settled by any number of scans when the delay is 32 us. */
  lemma RingOfThirtyTwo(scans: seq<Scan>, count: nat, delay: nat, cfg: Config)
    requires cfg == Config(delay, delay)
    requires scans == seq(count, i requires 0 <= i < count => Scan(i, true, true))
    ensures delay == 31 && count == 32 ==> !Run(false, scans, cfg).debouncing && Run(false, scans, cfg).debounced
    ensures delay == 32 && count > 0 ==> Run(false, scans, cfg).debouncing && !Run(false, scans, cfg).debounced
  {
    if count > 0 {
      assert Run(false, scans[..0], cfg) == Key(false, false, false, 0);
    }
    hide Run;
    if delay == 31 && count == 32 {
      SettlesWithinTheRing(false, scans, cfg, 0, true);
    }
    if delay == 32 && count > 0 {
      FastScansNeverSettle(false, scans, cfg, 0, true);
    }
  }

  /** 40 scans 1 us apart hold a pressed key for 39 us, and a delay of 36 us is not over for it. */
  lemma FastScansExample(scans: seq<Scan>, cfg: Config)
    requires cfg == Config(36, 36) && scans == seq(40, i requires 0 <= i < 40 => Scan(1000 + i, true, true))
    ensures HeldSince(scans, 0, true) && scans[39].time - scans[0].time == 39 >= cfg.Delay(true)
    ensures Run(false, scans, cfg).debouncing && !Run(false, scans, cfg).debounced
  {
    assert Run(false, scans[..0], cfg) == Key(false, false, false, 0);
    hide Run;
    FastScansNeverSettle(false, scans, cfg, 0, true);
  }
}
