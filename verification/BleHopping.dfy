/** Data channel selection of Bluetooth LE (section 4.5.8 of Bluetooth Core 4.1, Vol 6, Part B). */
module BleHopping {
  import opened Octets

  const CHANNELS: nat := 37

  /** Channel i is used by the channel map. */
  predicate Used(chmap: seq<bv8>, i: nat)
    requires |chmap| == 5 && i < CHANNELS
  {
    Test(chmap[i / 8], i % 8)
  }

  /** The used channels below n, in increasing order. */
  function UsedBelow(chmap: seq<bv8>, n: nat): (r: seq<nat>)
    requires |chmap| == 5 && n <= CHANNELS
    ensures |r| <= n
    ensures forall k :: 0 <= k < |r| ==> r[k] < n && Used(chmap, r[k])
  {
    if n == 0 then []
    else if Used(chmap, n - 1) then UsedBelow(chmap, n - 1) + [n - 1]
    else UsedBelow(chmap, n - 1)
  }

  /** The list is strictly increasing and complete, so it holds the used channels and nothing else. */
  lemma {:induction false} UsedBelowIsComplete(chmap: seq<bv8>, n: nat)
    requires |chmap| == 5 && n <= CHANNELS
    ensures forall a, b :: 0 <= a < b < |UsedBelow(chmap, n)| ==> UsedBelow(chmap, n)[a] < UsedBelow(chmap, n)[b]
    ensures forall i: nat :: i < n && Used(chmap, i) ==> i in UsedBelow(chmap, n)
  {
    hide Used;
    if n > 0 {
      UsedBelowIsComplete(chmap, n - 1);
      var r := UsedBelow(chmap, n - 1);
      forall i: nat | i < n && Used(chmap, i) ensures i in UsedBelow(chmap, n) {
        if i < n - 1 {
          assert i in r;
        }
      }
    }
  }

  /** The channel for an unmapped channel: itself if used, else the used channel at its remainder. */
  function Remapped(chmap: seq<bv8>, unmapped: nat): (c: nat)
    requires |chmap| == 5 && unmapped < CHANNELS && UsedBelow(chmap, CHANNELS) != []
    ensures c < CHANNELS && Used(chmap, c)
  {
    var used := UsedBelow(chmap, CHANNELS);
    if Used(chmap, unmapped) then unmapped else used[unmapped % |used|]
  }

  /** The map's bit for a channel, as the code takes it. */
  lemma UsedIsBit(chmap: seq<bv8>, i: nat)
    requires |chmap| == 5 && i < 37
    ensures Used(chmap, i) <==> chmap[i / 8] & (1 << (i % 8)) != 0
  {
  }

  /** The used channels below n, as a set. */
  ghost function UsedSet(chmap: seq<bv8>, n: nat): set<nat>
    requires |chmap| == 5 && n <= 37
  {
    set i: nat | i < n && Used(chmap, i)
  }

  lemma {:induction false} ListCounts(chmap: seq<bv8>, n: nat)
    requires |chmap| == 5 && n <= 37
    ensures |UsedBelow(chmap, n)| == |UsedSet(chmap, n)|
  {
    hide Used;
    if n == 0 {
      assert UsedSet(chmap, 0) == {};
    } else {
      ListCounts(chmap, n - 1);
      var before := UsedSet(chmap, n - 1);
      assert UsedSet(chmap, n) == if Used(chmap, n - 1) then before + {n - 1} else before;
    }
  }

  lemma {:induction false} EntryCounts(chmap: seq<bv8>, n: nat, j: nat)
    requires |chmap| == 5 && n <= 37 && j < |UsedBelow(chmap, n)|
    ensures |UsedBelow(chmap, UsedBelow(chmap, n)[j])| == j
  {
    hide Used;
    if n > 0 && j < |UsedBelow(chmap, n - 1)| {
      EntryCounts(chmap, n - 1, j);
    }
  }

  /** An unused channel goes to the used one with as many used channels below it as the remainder
      by the number of used channels. */
  lemma RemainderCounts(chmap: seq<bv8>, unmapped: nat)
    requires |chmap| == 5 && unmapped < 37 && UsedBelow(chmap, 37) != [] && !Used(chmap, unmapped)
    ensures |UsedSet(chmap, 37)| > 0
    ensures |UsedSet(chmap, Remapped(chmap, unmapped))| == unmapped % |UsedSet(chmap, 37)|
  {
    hide Used, UsedBelow, UsedSet;
    ListCounts(chmap, 37);
    EntryCounts(chmap, 37, unmapped % |UsedBelow(chmap, 37)|);
    ListCounts(chmap, Remapped(chmap, unmapped));
  }

  class RemappingTable {
    const remappingIndex: array<nat>
    var channelMap: seq<bv8>
    var numUsed: nat
    var hopIncrement: nat
    var lastUnmapped: nat

    ghost predicate Valid()
      reads this, remappingIndex
    {
      && remappingIndex.Length == CHANNELS && |channelMap| == 5 && lastUnmapped < CHANNELS
      && numUsed == |UsedBelow(channelMap, CHANNELS)|
      && remappingIndex[..numUsed] == UsedBelow(channelMap, CHANNELS)
    }

    /** fill_remapping_table, on a new table. */
    constructor (chmap: seq<bv8>, hop: nat)
      requires |chmap| == 5
      ensures Valid() && channelMap == chmap && hopIncrement == hop && lastUnmapped == 0 && fresh(remappingIndex)
    {
      remappingIndex := new nat[CHANNELS];
      channelMap := chmap;
      numUsed, lastUnmapped, hopIncrement := 0, 0, hop;
      new;
      hide Used;
      for i := 0 to CHANNELS
        invariant numUsed == |UsedBelow(chmap, i)| <= i && channelMap == chmap && lastUnmapped == 0
              && hopIncrement == hop
        invariant remappingIndex.Length == CHANNELS && remappingIndex[..numUsed] == UsedBelow(chmap, i)
        invariant fresh(remappingIndex)
      {
        if Used(chmap, i) {
          remappingIndex[numUsed] := i;
          numUsed := numUsed + 1;
        }
      }
    }

    method GetNextDataChannel() returns (channel: nat)
      requires Valid() && numUsed > 0
      modifies `lastUnmapped
      ensures Valid() && lastUnmapped == (old(lastUnmapped) + hopIncrement) % CHANNELS
      ensures channel == Remapped(channelMap, lastUnmapped) && Used(channelMap, channel)
    {
      hide Used, UsedBelow;
      lastUnmapped := (lastUnmapped + hopIncrement) % CHANNELS;
      if Used(channelMap, lastUnmapped) {
        return lastUnmapped;
      }
      assert remappingIndex[..numUsed][lastUnmapped % numUsed]
            == UsedBelow(channelMap, CHANNELS)[lastUnmapped % numUsed];
      return remappingIndex[lastUnmapped % numUsed];
    }
  }

  // ---------------------------------------------------------------------------
  // Runs of calls.

  /** The unmapped channel after n more calls. */
  function Unmapped(start: nat, hop: nat, n: nat): (u: nat)
    requires start < CHANNELS
    ensures u < CHANNELS
  {
    if n == 0 then start else (Unmapped(start, hop, n - 1) + hop) % CHANNELS
  }

  lemma AddMultiple(x: int, z: int)
    ensures (x + CHANNELS * z) % CHANNELS == x % CHANNELS
  {
  }

  lemma {:induction false} UnmappedIs(start: nat, hop: nat, n: nat)
    requires start < CHANNELS
    ensures Unmapped(start, hop, n) == (start + n * hop) % CHANNELS
  {
    if n > 0 {
      UnmappedIs(start, hop, n - 1);
      var x := start + (n - 1) * hop;
      ModStep(x, hop);
      assert x + hop == start + n * hop;
    }
  }

  lemma ModStep(x: nat, hop: nat)
    ensures (x % CHANNELS + hop) % CHANNELS == (x + hop) % CHANNELS
  {
  }

  /** The inverse of a hop increment modulo 37, and the quotient that shows it. */
  function Inverse(hop: nat): nat
    requires 5 <= hop <= 16
  {
    match hop
    case 5 => 15 case 6 => 31 case 7 => 16 case 8 => 14 case 9 => 33 case 10 => 26
    case 11 => 27 case 12 => 34 case 13 => 20 case 14 => 8 case 15 => 5 case _ => 7
  }

  lemma InverseInverts(hop: nat) returns (m: nat)
    requires 5 <= hop <= 16
    ensures hop * Inverse(hop) == CHANNELS * m + 1
  {
    m := hop * Inverse(hop) / CHANNELS;
  }

  /** The number of the call, from 1 to 37, that reaches unmapped channel x. */
  function CallFor(start: nat, hop: nat, x: nat): (k: nat)
    requires start < CHANNELS && 5 <= hop <= 16
    ensures 1 <= k <= CHANNELS
  {
    var k := ((x as int - start as int) * Inverse(hop) as int) % CHANNELS as int;
    if k == 0 then CHANNELS else k
  }

  lemma TimesHop(d: int, inv: int, hop: int, m: int, q: int, k: int) returns (z: int)
    requires hop * inv == CHANNELS * m + 1 && k == d * inv - CHANNELS * q
    ensures k * hop == d + CHANNELS * z
  {
    z := d * m - q * hop;
    calc {
      k * hop;
      (d * inv) * hop - (CHANNELS * q) * hop;
      { Reorder(d, inv, hop); }
      d * (hop * inv) - CHANNELS * (q * hop);
      { assert d * (CHANNELS * m + 1) == CHANNELS * (d * m) + d; }
      d + CHANNELS * (d * m) - CHANNELS * (q * hop);
    }
  }

  lemma Reorder(d: int, inv: int, hop: int)
    ensures (d * inv) * hop == d * (hop * inv)
  {
  }

  lemma TimesInverse(e: int, inv: int, hop: int, m: int, w: int) returns (z: int)
    requires hop * inv == CHANNELS * m + 1 && e * hop == CHANNELS * w
    ensures e == CHANNELS * z
  {
    z := w * inv - e * m;
    calc {
      CHANNELS * (w * inv);
      (CHANNELS * w) * inv;
      (e * hop) * inv;
      { Reorder(e, hop, inv); }
      e * (hop * inv);
      { assert e * (CHANNELS * m + 1) == CHANNELS * (e * m) + e; }
      CHANNELS * (e * m) + e;
    }
  }

  lemma CallReaches(start: nat, hop: nat, x: nat)
    requires start < CHANNELS && 5 <= hop <= 16 && x < CHANNELS
    ensures Unmapped(start, hop, CallFor(start, hop, x)) == x
  {
    hide Inverse, CallFor, Unmapped;
    var m := InverseInverts(hop);
    var q := CallQuotient(start, hop, x);
    var k := CallFor(start, hop, x);
    UnmappedIs(start, hop, k);
    LandsOn(start, Inverse(hop), hop, x, m, q, k);
  }

  lemma LandsOn(start: int, inv: int, hop: int, x: nat, m: int, q: int, k: int)
    requires hop * inv == CHANNELS * m + 1 && k == (x - start) * inv - CHANNELS * q && x < CHANNELS
    ensures (start + k * hop) % CHANNELS == x
  {
    var z := TimesHop(x - start, inv, hop, m, q, k);
    AddMultiple(x, z);
  }

  lemma CallQuotient(start: nat, hop: nat, x: nat) returns (q: int)
    requires start < CHANNELS && 5 <= hop <= 16
    ensures CallFor(start, hop, x) == (x - start) * Inverse(hop) - CHANNELS * q
  {
    var p := (x - start) * Inverse(hop);
    q := if p % CHANNELS == 0 then p / CHANNELS - 1 else p / CHANNELS;
  }

  /** Two calls fewer than 37 apart never share an unmapped channel. */
  lemma CallsDiffer(start: nat, hop: nat, j: nat, k: nat)
    requires start < CHANNELS && 5 <= hop <= 16 && j < k < j + CHANNELS
    ensures Unmapped(start, hop, j) != Unmapped(start, hop, k)
  {
    hide Inverse, Unmapped;
    var m := InverseInverts(hop);
    UnmappedIs(start, hop, j);
    UnmappedIs(start, hop, k);
    if (start + j * hop) % CHANNELS == (start + k * hop) % CHANNELS {
      var w := SameRemainder(start + j * hop, start + k * hop);
      Steps(j, k, hop);
      var z := TimesInverse(k - j, Inverse(hop), hop, m, w);
      NoSmallMultiple(k - j, z);
    }
  }

  lemma Steps(j: int, k: int, hop: int)
    ensures (k - j) * hop == k * hop - j * hop
  {
  }

  lemma SameRemainder(a: int, b: int) returns (w: int)
    requires a % CHANNELS == b % CHANNELS
    ensures b - a == CHANNELS * w
  {
    w := b / CHANNELS - a / CHANNELS;
  }

  lemma NoSmallMultiple(e: int, z: int)
    requires e == CHANNELS * z
    ensures !(0 < e < CHANNELS)
  {
  }

  /** Any 37 consecutive calls visit each unmapped channel exactly once; and so they return every
      used channel. */
  lemma EveryChannelOnce(chmap: seq<bv8>, start: nat, hop: nat, x: nat)
    requires |chmap| == 5 && UsedBelow(chmap, CHANNELS) != []
    requires start < CHANNELS && 5 <= hop <= 16 && x < CHANNELS
    ensures forall k: nat :: 1 <= k <= CHANNELS ==> (Unmapped(start, hop, k) == x <==> k == CallFor(start, hop, x))
    ensures Used(chmap, x) ==> Remapped(chmap, Unmapped(start, hop, CallFor(start, hop, x))) == x
  {
    var k := CallFor(start, hop, x);
    CallReaches(start, hop, x);
    forall j: nat | 1 <= j <= CHANNELS && j != k ensures Unmapped(start, hop, j) != x {
      if j < k { CallsDiffer(start, hop, j, k); } else { CallsDiffer(start, hop, k, j); }
    }
  }
}
