/** The keyboard matrix scan: ghost detection, and the debouncing of every key of the matrix. */
module KeyboardScan {
  import opened Octets
  import opened KeyDebounce

  const ROWS: nat := 8

  /** Two columns have two rows in common. */
  ghost predicate Shares(a: bv8, b: bv8)
  {
    exists i: nat, j: nat :: i < j < ROWS && Test(a, i) && Test(b, i) && Test(a, j) && Test(b, j)
  }

  ghost predicate Ghosting(matrix: seq<bv8>)
  {
    exists c, d :: 0 <= c < d < |matrix| && Shares(matrix[c], matrix[d])
  }

  function Common(a: bv8, b: bv8): bv8
  {
    a & b
  }

  function Predecessor(a: bv8): bv8
  {
    a & (a - 1)
  }

  lemma CommonTest(a: bv8, b: bv8, i: nat)
    requires i < 8
    ensures Test(Common(a, b), i) <==> Test(a, i) && Test(b, i)
  {
    MaskedIsFlag(a, i);
    MaskedIsFlag(b, i);
    FlagsDiffer(i, i);
    assert (a & b) & Flag(i) == (a & Flag(i)) & (b & Flag(i)) by { AndOfAnds(a, b, Flag(i)); }
    hide Flag;
    ZeroAnd(Flag(i));
  }

  lemma AndOfAnds(a: bv8, b: bv8, f: bv8)
    ensures (a & b) & f == (a & f) & (b & f)
  {
  }

  lemma ZeroAnd(f: bv8)
    ensures f & 0 == 0 && 0 & f == 0 && f & f == f && (0 as bv8) & 0 == 0
  {
  }

  lemma SharesIsTwoBits(a: bv8, b: bv8)
    ensures Predecessor(Common(a, b)) != 0 <==> Shares(a, b)
  {
    AndPredecessor(Common(a, b));
    hide Test, Common;
    forall i: nat | i < 8 ensures Test(Common(a, b), i) <==> Test(a, i) && Test(b, i) {
      CommonTest(a, b, i);
    }
  }

  lemma ZeroSharesNothing(b: bv8)
    ensures !Shares(0, b)
  {
    forall i: nat | i < 8 ensures !Test(0, i) { NoBits(i); }
  }

  /** has_ghosting: some two columns have two pressed keys in the same two rows. */
  method HasGhosting(matrix: seq<bv8>) returns (ghosting: bool)
    ensures ghosting <==> Ghosting(matrix)
  {
    hide Shares, Common, Predecessor;
    for c := 0 to |matrix|
      invariant forall x, y :: 0 <= x < c && x < y < |matrix| ==> !Shares(matrix[x], matrix[y])
    {
      if matrix[c] == 0 {
        forall y | c < y < |matrix| ensures !Shares(matrix[c], matrix[y]) { ZeroSharesNothing(matrix[y]); }
        continue;
      }
      for d := c + 1 to |matrix|
        invariant forall y :: c < y < d ==> !Shares(matrix[c], matrix[y])
      {
        SharesIsTwoBits(matrix[c], matrix[d]);
        if Predecessor(Common(matrix[c], matrix[d])) != 0 {
          return true;
        }
      }
    }
    return false;
  }

  // ---------------------------------------------------------------------------
  // Rows of one column.

  /** Records the current slot for every row whose raw value changed. */
  method MarkRows(edges: seq<nat>, diff: bv8, slot: nat) returns (r: seq<nat>)
    requires |edges| == ROWS
    ensures |r| == ROWS && forall i :: 0 <= i < ROWS ==> r[i] == if Test(diff, i) then slot else edges[i]
  {
    hide Test;
    r := edges;
    for i := 0 to ROWS
      invariant |r| == ROWS
      invariant forall j :: 0 <= j < i ==> r[j] == if Test(diff, j) then slot else edges[j]
      invariant forall j :: i <= j < ROWS ==> r[j] == edges[j]
    {
      if Test(diff, i) {
        r := r[i := slot];
      }
    }
  }

  /** Row i has waited long enough by the ring of scan times. */
  predicate Over(ring: seq<nat>, edges: seq<nat>, raw: bv8, now: nat, cfg: Config, i: nat)
    requires |ring| == RING && |edges| == ROWS && i < ROWS && edges[i] < RING
  {
    cfg.Delay(Test(raw, i)) <= (now - ring[edges[i]]) % WRAP
  }

  /** Settles the rows whose wait is over; lists the rows whose debounced value changed. */
  method SettleRows(state: bv8, debc: bv8, raw: bv8, ring: seq<nat>, edges: seq<nat>, now: nat, cfg: Config)
    returns (state': bv8, debouncing': bv8, flips: seq<nat>)
    requires |ring| == RING && |edges| == ROWS && forall i :: 0 <= i < ROWS ==> edges[i] < RING
    ensures forall i :: 0 <= i < ROWS ==>
                          Test(debouncing', i) == (Test(debc, i) && !Over(ring, edges, raw, now, cfg, i))
    ensures forall i :: 0 <= i < ROWS ==>
                          Test(state', i) == if Test(debc, i) && Over(ring, edges, raw, now, cfg, i)
                                             then Test(raw, i) else Test(state, i)
    ensures forall i :: 0 <= i < ROWS ==> (i in flips <==> Test(state', i) != Test(state, i))
    ensures forall x :: x in flips ==> x < ROWS
    ensures forall a, b :: 0 <= a < b < |flips| ==> flips[a] < flips[b]
  {
    hide Test, Over, Cleared, Flipped, Flag;
    state', debouncing', flips := state, debc, [];
    for i := 0 to ROWS
      invariant forall j :: 0 <= j < ROWS ==>
                              Test(debouncing', j) == (Test(debc, j) && !(j < i && Over(ring, edges, raw, now, cfg, j)))
      invariant forall j :: 0 <= j < ROWS ==>
                              Test(state', j) == if j < i && Test(debc, j) && Over(ring, edges, raw, now, cfg, j)
                                                 then Test(raw, j) else Test(state, j)
      invariant forall j :: 0 <= j < ROWS ==> (j in flips <==> Test(state', j) != Test(state, j))
      invariant forall x :: x in flips ==> x < i
      invariant forall a, b :: 0 <= a < b < |flips| ==> flips[a] < flips[b]
    {
      if !Test(debc, i) {
        continue;
      }
      if !Over(ring, edges, raw, now, cfg, i) {
        continue;
      }
      forall j: nat | j < ROWS
        ensures Test(Cleared(debouncing', Flag(i)), j) == (Test(debouncing', j) && j != i)
        ensures Test(Flipped(state', Flag(i)), j) == (if j == i then !Test(state', j) else Test(state', j))
      {
        FlagTest(i, j);
        ClearedTest(debouncing', Flag(i), j);
        FlippedTest(state', Flag(i), j);
      }
      debouncing' := Cleared(debouncing', Flag(i));
      if Test(state', i) == Test(raw, i) {
        continue;
      }
      state' := Flipped(state', Flag(i));
      assert forall a :: 0 <= a < |flips| ==> flips[a] in flips;
      flips := flips + [i];
    }
  }

  // ---------------------------------------------------------------------------
  // The matrix.

  function MarkedColumn(ks: seq<Key>, raw: bv8, n: nat): (r: seq<Key>)
    requires |ks| == ROWS
    ensures |r| == ROWS
  {
    seq(ROWS, i requires 0 <= i < ROWS => Marked(ks[i], Test(raw, i), n))
  }

  /** Every debouncing key has seen its edge. */
  predicate EdgesSeen(ks: seq<Key>, n: nat)
  {
    forall i :: 0 <= i < |ks| && ks[i].debouncing ==> ks[i].edge < n
  }

  function SettledColumn(ks: seq<Key>, raw: bv8, times: seq<nat>, cfg: Config): (r: seq<Key>)
    requires |ks| == ROWS && EdgesSeen(ks, |times|)
    ensures |r| == ROWS
  {
    seq(ROWS, i requires 0 <= i < ROWS => Settled(ks[i], Test(raw, i), times, cfg))
  }

  /** The bytes and slot numbers of one column stand for its eight keys. */
  ghost predicate Stands(state: bv8, prev: bv8, debouncing: bv8, edges: seq<nat>, ks: seq<Key>)
  {
    && |ks| == ROWS == |edges|
    && (forall i :: 0 <= i < ROWS ==> edges[i] < RING)
    && (forall i :: 0 <= i < ROWS ==>
                      && Test(state, i) == ks[i].debounced && Test(prev, i) == ks[i].prev
                      && Test(debouncing, i) == ks[i].debouncing
                      && (ks[i].debouncing ==> edges[i] == Slot(ks[i].edge)))
  }

  /** The slot of scan number e; the first scan takes slot 1. */
  function Slot(e: nat): (s: nat)
    ensures s < RING
  {
    (e + 1) % RING
  }

  /** The ring holds, for every past scan, the time of the last scan that used its slot. */
  ghost predicate RingHolds(ring: seq<nat>, times: seq<nat>)
  {
    && |ring| == RING
    && forall e :: 0 <= e < |times| ==> ring[Slot(e)] == times[Latest(|times| - 1, e)] % WRAP
  }

  lemma SameSlot(n: nat, e: nat)
    requires e < n
    ensures Slot(e) == Slot(n) <==> (n - e) % RING == 0
    ensures (n - e) % RING != 0 ==> Latest(n, e) == Latest(n - 1, e)
  {
  }

  lemma RingStep(ring: seq<nat>, times: seq<nat>, now: nat)
    requires RingHolds(ring, times)
    ensures RingHolds(ring[Slot(|times|) := now % WRAP], times + [now])
  {
    var n := |times|;
    var t := times + [now];
    var r := ring[Slot(n) := now % WRAP];
    forall e | 0 <= e < |t| ensures r[Slot(e)] == t[Latest(n, e)] % WRAP {
      if e < n {
        SameSlot(n, e);
      }
    }
  }

  /** The test on the ring is the test on the key's edge. */
  lemma OverIsElapsed(ring: seq<nat>, times: seq<nat>, edges: seq<nat>, raw: bv8, cfg: Config, i: nat, edge: nat)
    requires RingHolds(ring, times) && edge < |times| && |edges| == ROWS && i < ROWS && edges[i] == Slot(edge)
    ensures Over(ring, edges, raw, times[|times| - 1] % WRAP, cfg, i) <==>
          cfg.Delay(Test(raw, i)) <= Elapsed(times, edge)
  {
    hide Test;
    var a, b := times[|times| - 1], times[Latest(|times| - 1, edge)];
    WrappedDifference(a, b);
  }

  lemma WrappedDifference(a: nat, b: nat)
    ensures (a % WRAP - b % WRAP) % WRAP == (a - b) % WRAP
  {
  }

  lemma MarkedStands(state: bv8, prev: bv8, debouncing: bv8, edges: seq<nat>, ks: seq<Key>, raw: bv8, n: nat,
                     edges': seq<nat>)
    requires Stands(state, prev, debouncing, edges, ks)
    requires |edges'| == ROWS
    requires forall i :: 0 <= i < ROWS ==> edges'[i] == if Test(Flipped(raw, prev), i) then Slot(n) else edges[i]
    ensures Stands(state, raw, Put(debouncing, Flipped(raw, prev)), edges', MarkedColumn(ks, raw, n))
  {
    hide Test, Flipped, Put;
    forall i: nat | i < ROWS
      ensures Test(Flipped(raw, prev), i) <==> Test(raw, i) != Test(prev, i)
      ensures Test(Put(debouncing, Flipped(raw, prev)), i) <==> Test(debouncing, i) || Test(raw, i) != Test(prev, i)
    {
      FlippedTest(raw, prev, i);
      PutTest(debouncing, Flipped(raw, prev), i);
    }
  }

  lemma SettledStands(state: bv8, prev: bv8, debc: bv8, edges: seq<nat>, ks: seq<Key>, raw: bv8,
                      ring: seq<nat>, times: seq<nat>, cfg: Config, state': bv8, debouncing': bv8)
    requires Stands(state, prev, debc, edges, ks) && EdgesSeen(ks, |times|) && RingHolds(ring, times) && times != []
    requires forall i :: 0 <= i < ROWS ==>
                           (Test(debouncing', i) <==>
                           Test(debc, i) && !Over(ring, edges, raw, times[|times| - 1] % WRAP, cfg, i))
    requires forall i :: 0 <= i < ROWS ==>
                           Test(state', i)
                           == if Test(debc, i) && Over(ring, edges, raw, times[|times| - 1] % WRAP, cfg, i)
                              then Test(raw, i) else Test(state, i)
    ensures Stands(state', prev, debouncing', edges, SettledColumn(ks, raw, times, cfg))
  {
    assert |ring| == RING;
    hide Test, Over, Elapsed, RingHolds;
    forall i: nat | i < ROWS && ks[i].debouncing
      ensures Over(ring, edges, raw, times[|times| - 1] % WRAP, cfg, i) <==>
            cfg.Delay(Test(raw, i)) <= Elapsed(times, ks[i].edge)
    {
      OverIsElapsed(ring, times, edges, raw, cfg, i, ks[i].edge);
    }
  }

  /** A change of a debounced key: column, row, pressed. */
  datatype Change = Change(col: nat, row: nat, pressed: bool)

  lemma NothingToMark(state: bv8, prev: bv8, debouncing: bv8, edges: seq<nat>, ks: seq<Key>, raw: bv8, n: nat)
    requires Stands(state, prev, debouncing, edges, ks) && Flipped(raw, prev) == 0
    ensures raw == prev && MarkedColumn(ks, raw, n) == ks
  {
    assert raw == prev;
    hide Test;
  }

  lemma NothingToSettle(state: bv8, prev: bv8, edges: seq<nat>, ks: seq<Key>, raw: bv8, times: seq<nat>, cfg: Config)
    requires Stands(state, prev, 0, edges, ks)
    ensures EdgesSeen(ks, |times|) && SettledColumn(ks, raw, times, cfg) == ks
  {
    hide Test;
    forall i: nat | i < ROWS ensures !Test(0, i) { NoBits(i); }
  }

  lemma MarkedSeen(ks: seq<Key>, raw: bv8, n: nat)
    requires |ks| == ROWS && EdgesSeen(ks, n + 1)
    ensures EdgesSeen(MarkedColumn(ks, raw, n), n + 1)
  {
    hide Test;
  }

  lemma SettledSeen(ks: seq<Key>, raw: bv8, times: seq<nat>, cfg: Config)
    requires |ks| == ROWS && EdgesSeen(ks, |times|)
    ensures EdgesSeen(SettledColumn(ks, raw, times, cfg), |times|)
  {
    hide Test, Elapsed;
  }

  ghost predicate Flips(before: seq<seq<Key>>, after: seq<seq<Key>>, c: nat, i: nat)
  {
    c < |before| && c < |after| && i < |before[c]| && i < |after[c]| && before[c][i].debounced != after[c][i].debounced
  }

  /** What is reported of the first n columns: exactly the keys that flipped, with their new value. */
  ghost predicate Reports(before: seq<seq<Key>>, after: seq<seq<Key>>, n: nat, enabled: bool, anyChange: bool,
                          changes: seq<Change>)
  {
    && (anyChange <==> exists c: nat, i: nat :: c < n && Flips(before, after, c, i))
    && (forall x :: x in changes ==>
                      && enabled && x.col < n && Flips(before, after, x.col, x.row)
                      && after[x.col][x.row].debounced == x.pressed)
    && (forall c: nat, i: nat :: enabled && c < n && Flips(before, after, c, i) ==>
                                   Change(c, i, after[c][i].debounced) in changes)
  }

  function ColumnChanges(c: nat, raw: bv8, flips: seq<nat>): seq<Change>
    requires forall x :: x in flips ==> x < ROWS
  {
    seq(|flips|, k requires 0 <= k < |flips| => assert flips[k] in flips; Change(c, flips[k], Test(raw, flips[k])))
  }

  /** Every key of the matrix has taken its step. */
  ghost predicate Stepped(before: seq<seq<Key>>, after: seq<seq<Key>>, raw: seq<bv8>, times: seq<nat>, cfg: Config)
  {
    && |before| == |after| == |raw| && times != []
    && forall c, i :: 0 <= c < |raw| && 0 <= i < ROWS ==>
                        && |before[c]| == |after[c]| == ROWS
                        && (before[c][i].debouncing ==> before[c][i].edge < |times|)
                        && after[c][i] == Step(before[c][i], Test(raw[c], i), times, cfg)
  }

  lemma BothPasses(before: seq<seq<Key>>, marked: seq<seq<Key>>, after: seq<seq<Key>>, raw: seq<bv8>, times: seq<nat>,
                   cfg: Config)
    requires |before| == |marked| == |after| == |raw| && times != []
    requires forall c :: 0 <= c < |raw| ==> |before[c]| == ROWS && EdgesSeen(before[c], |times|)
    requires forall c :: 0 <= c < |raw| ==> marked[c] == MarkedColumn(before[c], raw[c], |times| - 1)
    requires forall c :: 0 <= c < |raw| ==>
                           && |marked[c]| == ROWS && EdgesSeen(marked[c], |times|)
                           && after[c] == SettledColumn(marked[c], raw[c], times, cfg)
    ensures Stepped(before, after, raw, times, cfg)
  {
    hide MarkedColumn, SettledColumn, Step, Test;
    forall c, i | 0 <= c < |raw| && 0 <= i < ROWS
      ensures after[c][i] == Step(before[c][i], Test(raw[c], i), times, cfg)
    {
      StepOfColumn(before[c], raw[c], times, cfg, i);
    }
  }

  lemma ReportColumn(before: seq<seq<Key>>, mid: seq<seq<Key>>, after: seq<seq<Key>>, c: nat, raw: bv8, times: seq<nat>,
                     cfg: Config, enabled: bool, anyChange: bool, changes: seq<Change>, flips: seq<nat>)
    requires |before| == |mid| && c < |mid| && mid[c] == before[c] && |mid[c]| == ROWS && EdgesSeen(mid[c], |times|)
    requires after == mid[c := SettledColumn(mid[c], raw, times, cfg)]
    requires Reports(before, mid, c, enabled, anyChange, changes)
    requires forall i :: 0 <= i < ROWS ==> (i in flips <==> after[c][i].debounced != mid[c][i].debounced)
    requires forall x :: x in flips ==> x < ROWS
    ensures Reports(before, after, c + 1, enabled, anyChange || flips != [],
                    changes + (if enabled then ColumnChanges(c, raw, flips) else []))
  {
    hide Test, Elapsed;
    var cs := ColumnChanges(c, raw, flips);
    forall i: nat ensures Flips(before, after, c, i) <==> i in flips {
    }
    forall d: nat, i: nat | d < c ensures Flips(before, after, d, i) <==> Flips(before, mid, d, i) {
    }
    assert forall i :: 0 <= i < ROWS && i in flips ==> after[c][i].debounced == Test(raw, i);
    forall i | i in flips ensures Change(c, i, after[c][i].debounced) in cs {
      var k :| 0 <= k < |flips| && flips[k] == i;
      assert cs[k] == Change(c, i, Test(raw, i));
    }
    if flips != [] {
      assert flips[0] in flips;
      assert Flips(before, after, c, flips[0]);
    }
  }

  lemma NothingReported(keys: seq<seq<Key>>, enabled: bool)
    ensures Reports(keys, keys, 0, enabled, false, []) && Reports(keys, keys, |keys|, enabled, false, [])
  {
  }

  lemma MarkingReportsNothing(before: seq<seq<Key>>, marked: seq<seq<Key>>, after: seq<seq<Key>>, raw: seq<bv8>, n: nat,
                              enabled: bool, anyChange: bool, changes: seq<Change>)
    requires |before| == |marked| == |after| == |raw|
    requires forall c :: 0 <= c < |before| ==> |before[c]| == |marked[c]| == ROWS
    requires forall c :: 0 <= c < |before| ==> marked[c] == MarkedColumn(before[c], raw[c], n)
    requires Reports(marked, after, |raw|, enabled, anyChange, changes)
    ensures Reports(before, after, |raw|, enabled, anyChange, changes)
  {
    hide Test;
    assert forall c, i :: 0 <= c < |before| && 0 <= i < ROWS ==> marked[c][i].debounced == before[c][i].debounced;
    assert forall c: nat, i: nat :: Flips(marked, after, c, i) <==> Flips(before, after, c, i);
  }

  /** One scan of the whole matrix. */
  datatype Frame = Frame(time: nat, matrix: seq<bv8>)

  /** The scans as key (c, i) sees them. */
  ghost function KeyScans(history: seq<Frame>, c: nat, i: nat): (scans: seq<Scan>)
    requires i < ROWS && forall n :: 0 <= n < |history| ==> c < |history[n].matrix|
    ensures |scans| == |history|
  {
    seq(|history|, n requires 0 <= n < |history| =>
      Scan(history[n].time, !Ghosting(history[n].matrix), Test(history[n].matrix[c], i)))
  }

  ghost function FrameTimes(history: seq<Frame>): seq<nat>
  {
    seq(|history|, n requires 0 <= n < |history| => history[n].time)
  }

  ghost predicate SameSize(start: seq<bv8>, history: seq<Frame>)
  {
    forall n :: 0 <= n < |history| ==> |history[n].matrix| == |start|
  }

  /** Key (c, i) is where its own run of scans leads. */
  ghost predicate KeyIsRun(start: seq<bv8>, history: seq<Frame>, keys: seq<seq<Key>>, c: nat, i: nat, cfg: Config)
    requires c < |start| == |keys| && i < ROWS && SameSize(start, history)
  {
    |keys[c]| == ROWS && keys[c][i] == Run(Test(start[c], i), KeyScans(history, c, i), cfg)
  }

  ghost predicate Explains(start: seq<bv8>, history: seq<Frame>, keys: seq<seq<Key>>, times: seq<nat>, cfg: Config)
  {
    && |keys| == |start| && times == FrameTimes(history)
    && SameSize(start, history)
    && forall c: nat, i: nat :: c < |start| && i < ROWS ==> KeyIsRun(start, history, keys, c, i, cfg)
  }

  /** A scan of the matrix extends the run of every key. */
  lemma ScanExplains(start: seq<bv8>, history: seq<Frame>, before: seq<seq<Key>>, after: seq<seq<Key>>, frame: Frame,
                     times: seq<nat>, cfg: Config)
    requires Explains(start, history, before, times, cfg) && |frame.matrix| == |start|
    requires if Ghosting(frame.matrix) then after == before
             else Stepped(before, after, frame.matrix, times + [frame.time], cfg)
    ensures Explains(start, history + [frame], after, times + [frame.time], cfg)
  {
    hide Test, Ghosting, Step, Run;
    var all := history + [frame];
    assert FrameTimes(all) == times + [frame.time];
    forall n | 0 <= n < |all| ensures |all[n].matrix| == |start| {
      assert n < |history| ==> all[n] == history[n];
    }
    forall c: nat, i: nat | c < |start| && i < ROWS ensures KeyIsRun(start, all, after, c, i, cfg) {
      var scans := KeyScans(all, c, i);
      assert KeyIsRun(start, history, before, c, i, cfg);
      assert scans[..|history|] == KeyScans(history, c, i);
      assert Times(scans) == times + [frame.time];
      RunStep(Test(start[c], i), scans, cfg);
      assert scans[|history|] == Scan(frame.time, !Ghosting(frame.matrix), Test(frame.matrix[c], i));
    }
  }

  lemma RunStep(start: bool, scans: seq<Scan>, cfg: Config)
    requires scans != []
    ensures (var n := |scans| - 1; var k := Run(start, scans[..n], cfg);
             Run(start, scans, cfg) == if scans[n].accepted then Step(k, scans[n].raw, Times(scans), cfg) else k)
  {
  }

  /** In every state a run of scans can reach, debounced and previous matrix agree on every key that
      is not debouncing. */
  lemma EveryKeyKeepsInv(start: seq<bv8>, history: seq<Frame>, keys: seq<seq<Key>>, times: seq<nat>, cfg: Config,
                         c: nat, i: nat)
    requires Explains(start, history, keys, times, cfg) && c < |start| && i < ROWS
    ensures |keys[c]| == ROWS && (!keys[c][i].debouncing ==> keys[c][i].debounced == keys[c][i].prev)
  {
    assert KeyIsRun(start, history, keys, c, i, cfg);
    EveryRunKeepsInv(Test(start[c], i), KeyScans(history, c, i), cfg);
  }

  /** A key of the matrix flips only at a scan without ghosting, after at least the debounce time
      over which every such scan read the new value. */
  lemma EveryFlipWasHeld(start: seq<bv8>, history: seq<Frame>, keys: seq<seq<Key>>, times: seq<nat>, frame: Frame,
                         after: seq<seq<Key>>, cfg: Config, c: nat, i: nat)
    requires Explains(start, history, keys, times, cfg)
    requires Explains(start, history + [frame], after, times + [frame.time], cfg)
    requires Monotone(times + [frame.time]) && c < |start| && i < ROWS && Flips(keys, after, c, i)
    ensures !Ghosting(frame.matrix) && |frame.matrix| == |start| && Test(frame.matrix[c], i) == after[c][i].debounced
    ensures (var all := history + [frame];
             exists e :: 0 <= e < |all| && !Ghosting(all[e].matrix)
                         && (if after[c][i].debounced then cfg.down else cfg.up) <= frame.time - all[e].time
                         && forall m :: e <= m < |all| && !Ghosting(all[m].matrix) ==>
                                          && |all[m].matrix| == |start|
                                          && Test(all[m].matrix[c], i) == after[c][i].debounced)
  {
    hide Run, Test, Ghosting, FrameTimes;
    var all := history + [frame];
    var n := |history|;
    assert KeyIsRun(start, history, keys, c, i, cfg) && KeyIsRun(start, all, after, c, i, cfg);
    var scans, v := KeyScans(all, c, i), after[c][i].debounced;
    assert scans[..n] == KeyScans(history, c, i);
    ScansInOrder(all, times + [frame.time], c, i);
    FlipMeansHeld(Test(start[c], i), scans, cfg);
    var e :| 0 <= e <= n && scans[e].accepted && HeldSince(scans, e, v)
             && (if v then cfg.down else cfg.up) <= scans[n].time - scans[e].time;
    assert all[n] == frame;
    forall m | e <= m < |all| && !Ghosting(all[m].matrix)
      ensures |all[m].matrix| == |start| && Test(all[m].matrix[c], i) == v
    {
      assert scans[m].accepted;
    }
  }

  lemma ScansInOrder(history: seq<Frame>, times: seq<nat>, c: nat, i: nat)
    requires i < ROWS && forall n :: 0 <= n < |history| ==> c < |history[n].matrix|
    requires times == FrameTimes(history) && Monotone(times)
    ensures InOrder(KeyScans(history, c, i))
  {
    hide Test, Ghosting;
    var scans := KeyScans(history, c, i);
    forall a, b | 0 <= a <= b < |scans| ensures scans[a].time <= scans[b].time {
      assert times[a] <= times[b];
    }
  }

  ghost function StartKeys(matrix: seq<bv8>, cfg: Config): seq<seq<Key>>
  {
    seq(|matrix|, c requires 0 <= c < |matrix| =>
      seq(ROWS, i requires 0 <= i < ROWS => Run(Test(matrix[c], i), [], cfg)))
  }

  function NoEdges(): seq<nat>
  {
    seq(ROWS, _ => 0)
  }

  lemma StartStands(matrix: seq<bv8>, cfg: Config)
    ensures (var ks := StartKeys(matrix, cfg);
             && |ks| == |matrix| && Explains(matrix, [], ks, [], cfg)
             && (forall c :: 0 <= c < |matrix| ==> |ks[c]| == ROWS && EdgesSeen(ks[c], 0))
             && (forall c :: 0 <= c < |matrix| ==> Stands(matrix[c], matrix[c], 0, NoEdges(), ks[c])))
  {
    hide Test;
    forall i: nat | i < ROWS ensures !Test(0, i) { NoBits(i); }
    var ks := StartKeys(matrix, cfg);
    forall c: nat, i: nat | c < |matrix| && i < ROWS ensures KeyIsRun(matrix, [], ks, c, i, cfg) {
      assert KeyScans([], c, i) == [];
    }
  }

  class Scanner {
    const cols: nat
    const cfg: Config
    const state: array<bv8>
    const prev: array<bv8>
    const debouncing: array<bv8>
    const scanTime: array<nat>
    var scanTimeIndex: nat
    const scanEdgeIndex: array<seq<nat>>
    ghost var keys: seq<seq<Key>>
    ghost var times: seq<nat>
    ghost const start: seq<bv8>
    ghost var history: seq<Frame>

    /** Every key is where the scans so far lead its own run. */
    ghost predicate Explained()
      reads this
    {
      |start| == cols && Explains(start, history, keys, times, cfg)
    }

    /** keyboard_scan_init: the first matrix is taken as it is. */
    constructor (cfg: Config, matrix: seq<bv8>)
      ensures Valid() && Explained() && start == matrix && history == [] && this.cfg == cfg && cols == |matrix|
      ensures fresh(state) && fresh(prev) && fresh(debouncing) && fresh(scanTime) && fresh(scanEdgeIndex)
    {
      hide Test;
      this.cfg, cols := cfg, |matrix|;
      state := new bv8[|matrix|](i requires 0 <= i < |matrix| => matrix[i]);
      prev := new bv8[|matrix|](i requires 0 <= i < |matrix| => matrix[i]);
      debouncing := new bv8[|matrix|](_ => 0);
      scanTime := new nat[RING](_ => 0);
      scanTimeIndex := 0;
      scanEdgeIndex := new seq<nat>[|matrix|](_ => NoEdges());
      times, history, start, keys := [], [], matrix, StartKeys(matrix, cfg);
      new;
      hide StartKeys, Stands, EdgesSeen, Explains;
      StartStands(matrix, cfg);
      assert forall c :: 0 <= c < cols ==> scanEdgeIndex[c] == NoEdges();
    }

    ghost predicate Shape()
      reads this, scanEdgeIndex
    {
      && state.Length == prev.Length == debouncing.Length == scanEdgeIndex.Length == |keys| == cols
      && (forall c :: 0 <= c < cols ==> |keys[c]| == ROWS && |scanEdgeIndex[c]| == ROWS)
      && scanTime.Length == RING
      && state != prev && state != debouncing && prev != debouncing
      && (var t: object := scanTime; t != state && t != prev && t != debouncing && t != scanEdgeIndex)
      && (var e: object := scanEdgeIndex; e != state && e != prev && e != debouncing)
      && scanTimeIndex == |times| % RING
    }

    ghost predicate Column(c: nat)
      requires Shape() && c < cols
      reads this, state, prev, debouncing, scanEdgeIndex
    {
      Stands(state[c], prev[c], debouncing[c], scanEdgeIndex[c], keys[c]) && EdgesSeen(keys[c], |times|)
    }

    ghost predicate Valid()
      reads this, state, prev, debouncing, scanEdgeIndex, scanTime
    {
      && Shape() && RingHolds(scanTime[..], times)
      && forall c :: 0 <= c < cols ==> Column(c)
    }

    /** Saves the time of this scan in the next slot. */
    method SaveTime(now: nat, ghost raw: seq<bv8>)
      requires Valid()
      modifies scanTime, `scanTimeIndex, `times, `history
      ensures Valid() && times == old(times) + [now] && history == old(history) + [Frame(now, raw)]
      ensures forall c :: 0 <= c < cols ==> EdgesSeen(keys[c], |times|)
    {
      hide Stands, RingHolds;
      scanTimeIndex := scanTimeIndex + 1;
      if scanTimeIndex >= RING {
        scanTimeIndex := 0;
      }
      ghost var ring: seq<nat> := scanTime[..];
      RingStep(ring, times, now);
      SlotNext(|times|);
      scanTime[scanTimeIndex] := now % WRAP;
      assert scanTime[..] == ring[Slot(|times|) := now % WRAP];
      times, history := times + [now], history + [Frame(now, raw)];
      forall c | 0 <= c < cols ensures Column(c) && EdgesSeen(keys[c], |times|) {
        assert old(Column(c));
      }
    }

    /** The first pass over one column. */
    method MarkColumn(c: nat, raw: bv8)
      requires Valid() && c < cols && times != []
      modifies prev, debouncing, scanEdgeIndex, `keys
      ensures Valid() && keys == old(keys)[c := MarkedColumn(old(keys)[c], raw, |times| - 1)]
    {
      hide Stands, RingHolds, EdgesSeen, Put, Flipped, MarkedColumn;
      assert Column(c);
      ghost var n := |times| - 1;
      var diff := Flipped(raw, prev[c]);
      if diff == 0 {
        NothingToMark(state[c], prev[c], debouncing[c], scanEdgeIndex[c], keys[c], raw, n);
        return;
      }
      var edges := MarkRows(scanEdgeIndex[c], diff, scanTimeIndex);
      SlotNext(n);
      MarkedStands(state[c], prev[c], debouncing[c], scanEdgeIndex[c], keys[c], raw, n, edges);
      MarkedSeen(keys[c], raw, n);
      scanEdgeIndex[c] := edges;
      debouncing[c] := Put(debouncing[c], diff);
      prev[c] := raw;
      keys := keys[c := MarkedColumn(keys[c], raw, n)];
      forall x | 0 <= x < cols ensures Column(x) { assert old(Column(x)); }
    }

    /** The second pass over one column; says which rows changed. */
    method SettleColumn(c: nat, raw: bv8, now: nat) returns (flips: seq<nat>)
      requires Valid() && c < cols && times != [] && now == times[|times| - 1] % WRAP
      modifies state, debouncing, `keys
      ensures Valid() && EdgesSeen(old(keys)[c], |times|)
      ensures keys == old(keys)[c := SettledColumn(old(keys)[c], raw, times, cfg)]
      ensures forall i :: 0 <= i < ROWS ==> (i in flips <==> keys[c][i].debounced != old(keys)[c][i].debounced)
      ensures forall x :: x in flips ==> x < ROWS
      ensures forall a, b :: 0 <= a < b < |flips| ==> flips[a] < flips[b]
    {
      hide RingHolds, Stands, EdgesSeen, SettledColumn, Test, Over;
      assert Column(c);
      StandsFacts(state[c], prev[c], debouncing[c], scanEdgeIndex[c], keys[c]);
      ghost var s, d, ks := state[c], debouncing[c], keys[c];
      if debouncing[c] == 0 {
        NothingToSettle(state[c], prev[c], scanEdgeIndex[c], ks, raw, times, cfg);
        return [];
      }
      RingSize(scanTime[..], times);
      var s', d', rows := SettleRows(state[c], debouncing[c], raw, scanTime[..], scanEdgeIndex[c], now, cfg);
      SettledStands(s, prev[c], d, scanEdgeIndex[c], ks, raw, scanTime[..], times, cfg, s', d');
      SettledSeen(ks, raw, times, cfg);
      StandsFacts(s', prev[c], d', scanEdgeIndex[c], SettledColumn(ks, raw, times, cfg));
      state[c] := s';
      debouncing[c] := d';
      keys := keys[c := SettledColumn(ks, raw, times, cfg)];
      forall x | 0 <= x < cols ensures Column(x) { assert old(Column(x)); }
      return rows;
    }

    /** The first pass over the matrix. */
    method MarkMatrix(raw: seq<bv8>)
      requires Valid() && |raw| == cols && times != []
      modifies prev, debouncing, scanEdgeIndex, `keys
      ensures Valid() && forall c :: 0 <= c < cols ==> keys[c] == MarkedColumn(old(keys)[c], raw[c], |times| - 1)
    {
      hide MarkedColumn, Column, RingHolds;
      for c := 0 to cols
        invariant Valid()
        invariant forall x :: 0 <= x < cols ==>
                                keys[x] == if x < c then MarkedColumn(old(keys)[x], raw[x], |times| - 1)
                                           else old(keys)[x]
      {
        MarkColumn(c, raw[c]);
      }
    }

    /** The second pass over the matrix. */
    method SettleMatrix(raw: seq<bv8>, now: nat, enabled: bool) returns (anyChange: bool, changes: seq<Change>)
      requires Valid() && |raw| == cols && times != [] && now == times[|times| - 1] % WRAP
      modifies state, debouncing, `keys
      ensures Valid() && forall c :: 0 <= c < cols ==> EdgesSeen(old(keys)[c], |times|)
      ensures forall c :: 0 <= c < cols ==> keys[c] == SettledColumn(old(keys)[c], raw[c], times, cfg)
      ensures Reports(old(keys), keys, cols, enabled, anyChange, changes)
    {
      hide SettledColumn, Column, RingHolds, EdgesSeen, Reports;
      anyChange, changes := false, [];
      NothingReported(keys, enabled);
      for c := 0 to cols
        invariant Valid()
        invariant forall x :: 0 <= x < c ==>
                                && EdgesSeen(old(keys)[x], |times|)
                                && keys[x] == SettledColumn(old(keys)[x], raw[x], times, cfg)
        invariant forall x :: c <= x < cols ==> keys[x] == old(keys)[x]
        invariant Reports(old(keys), keys, c, enabled, anyChange, changes)
      {
        ghost var before := keys;
        var flips := SettleColumn(c, raw[c], now);
        ReportColumn(old(keys), before, keys, c, raw[c], times, cfg, enabled, anyChange, changes, flips);
        anyChange := anyChange || flips != [];
        changes := changes + (if enabled then ColumnChanges(c, raw[c], flips) else []);
      }
    }

    /** check_keys_changed: one scan at time `now` that reads the matrix raw; `pressed` says whether
        any key was, existing or not. The keyboard module hears of changes while scanning is enabled. */
    method CheckKeysChanged(now: nat, raw: seq<bv8>, pressed: bool, enabled: bool)
      returns (anyPressed: bool, anyChange: bool, changes: seq<Change>)
      requires Valid() && Explained() && |raw| == cols
      modifies state, prev, debouncing, scanTime, scanEdgeIndex, `scanTimeIndex, `keys, `times, `history
      ensures Valid() && Explained() && history == old(history) + [Frame(now, raw)] && times == old(times) + [now]
      ensures if Ghosting(raw) then keys == old(keys) else Stepped(old(keys), keys, raw, times, cfg)
      ensures Reports(old(keys), keys, cols, enabled, anyChange, changes) && anyPressed == pressed
    {
      hide Ghosting, MarkedColumn, SettledColumn, Stepped, EdgesSeen, RingHolds, Column, Reports, Explains;
      SaveTime(now, raw);
      NothingReported(keys, enabled);
      var ghosting := HasGhosting(raw);
      if ghosting {
        ScanExplains(start, old(history), old(keys), keys, Frame(now, raw), old(times), cfg);
        return pressed, false, [];
      }
      anyPressed := pressed;
      MarkMatrix(raw);
      ghost var ms := keys;
      anyChange, changes := SettleMatrix(raw, now % WRAP, enabled);
      BothPasses(old(keys), ms, keys, raw, times, cfg);
      ScanExplains(start, old(history), old(keys), keys, Frame(now, raw), old(times), cfg);
      MarkingReportsNothing(old(keys), ms, keys, raw, |times| - 1, enabled, anyChange, changes);
    }
  }

  lemma StepOfColumn(ks: seq<Key>, raw: bv8, times: seq<nat>, cfg: Config, i: nat)
    requires |ks| == ROWS && EdgesSeen(ks, |times|) && times != [] && i < ROWS
    ensures EdgesSeen(MarkedColumn(ks, raw, |times| - 1), |times|)
    ensures SettledColumn(MarkedColumn(ks, raw, |times| - 1), raw, times, cfg)[i]
          == Step(ks[i], Test(raw, i), times, cfg)
  {
    MarkedSeen(ks, raw, |times| - 1);
  }

  lemma StandsFacts(state: bv8, prev: bv8, debouncing: bv8, edges: seq<nat>, ks: seq<Key>)
    requires Stands(state, prev, debouncing, edges, ks)
    ensures |ks| == ROWS == |edges| && forall i :: 0 <= i < ROWS ==> edges[i] < RING
    ensures forall i :: 0 <= i < ROWS ==> Test(state, i) == ks[i].debounced
  {
  }

  lemma SlotNext(n: nat)
    ensures Slot(n) == if n % RING + 1 >= RING then 0 else n % RING + 1
    ensures Slot(n) == (n + 1) % RING
  {
  }

  lemma RingSize(ring: seq<nat>, times: seq<nat>)
    requires RingHolds(ring, times)
    ensures |ring| == RING
  {
  }
}
