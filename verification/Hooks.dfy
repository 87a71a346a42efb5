/** Hook dispatch by priority, and the hook task's sleep time. */
module Hooks {
  const FIRST := 1
  const LAST := 9999

  ghost predicate InRange(prios: seq<int>)
  {
    forall i :: 0 <= i < |prios| ==> 1 <= prios[i] <= 9999
  }

  /** Hook i goes before hook j: lower priority number first, table order among equals. */
  predicate Before(prios: seq<int>, i: nat, j: nat)
    requires i < |prios| && j < |prios|
  {
    prios[i] < prios[j] || (prios[i] == prios[j] && i < j)
  }

  ghost predicate Indices(prios: seq<int>, calls: seq<nat>)
  {
    forall a :: 0 <= a < |calls| ==> calls[a] < |prios|
  }

  ghost predicate Ordered(prios: seq<int>, calls: seq<nat>)
    requires Indices(prios, calls)
  {
    forall a, b :: 0 <= a < b < |calls| ==> Before(prios, calls[a], calls[b])
  }

  /** The calls are every hook once, in the order of a stable sort by priority. */
  ghost predicate StableOrder(prios: seq<int>, calls: seq<nat>)
  {
    && |calls| == |prios| && Indices(prios, calls) && Ordered(prios, calls)
    && forall i: nat :: i < |prios| ==> i in calls
  }

  // ---------------------------------------------------------------------------
  // There is exactly one such order.

  ghost function Range(n: nat): (s: set<nat>)
    ensures |s| == n && forall i :: i in s <==> 0 <= i < n
  {
    if n == 0 then {} else Range(n - 1) + {n - 1}
  }

  ghost function Members(calls: seq<nat>): (s: set<nat>)
    ensures forall x :: x in s <==> x in calls
  {
    set x | x in calls
  }

  /** The hooks of an ordered list are that many different ones. */
  lemma {:induction false} OrderedCount(prios: seq<int>, calls: seq<nat>)
    requires Indices(prios, calls) && Ordered(prios, calls)
    ensures |Members(calls)| == |calls|
  {
    hide Members;
    if calls == [] {
      assert Members(calls) == {};
    } else {
      var n := |calls| - 1;
      var rest := calls[..n];
      assert calls == rest + [calls[n]];
      OrderedCount(prios, rest);
      forall a | 0 <= a < n ensures rest[a] != calls[n] {
        assert Before(prios, calls[a], calls[n]);
      }
      assert Members(calls) == Members(rest) + {calls[n]};
    }
  }

  /** An ordered list shorter than the table misses a hook; one as long misses none. */
  lemma OrderedCoverage(prios: seq<int>, calls: seq<nat>)
    requires Indices(prios, calls) && Ordered(prios, calls)
    ensures |calls| <= |prios|
    ensures |calls| == |prios| <==> forall i: nat :: i < |prios| ==> i in calls
  {
    hide Members, Range;
    OrderedCount(prios, calls);
    var s, all := Members(calls), Range(|prios|);
    assert s <= all;
    Subset(s, all);
    if |s| == |all| {
      SameSize(s, all);
    }
    if forall i: nat :: i < |prios| ==> i in calls {
      assert s == all;
    }
  }

  lemma {:induction false} Subset(s: set<nat>, t: set<nat>)
    requires s <= t
    ensures |s| <= |t|
    decreases s
  {
    if s != {} {
      var x :| x in s;
      Subset(s - {x}, t - {x});
    }
  }

  lemma SameSize(s: set<nat>, t: set<nat>)
    requires s <= t && |s| == |t|
    ensures s == t
  {
    if x :| x in t && x !in s {
      Subset(s, t - {x});
    }
  }

  /** The first call of a stable order is the hook that goes before all others, so two stable
      orders are the same. */
  lemma {:induction false} SameFrom(prios: seq<int>, a: seq<nat>, b: seq<nat>, k: nat)
    requires StableOrder(prios, a) && StableOrder(prios, b) && k <= |prios|
    ensures a[..k] == b[..k]
  {
    if k > 0 {
      SameFrom(prios, a, b, k - 1);
      NextSame(prios, a, b, k - 1);
      assert a[..k] == a[..k - 1] + [a[k - 1]] && b[..k] == b[..k - 1] + [b[k - 1]];
    }
  }

  lemma NextSame(prios: seq<int>, a: seq<nat>, b: seq<nat>, k: nat)
    requires StableOrder(prios, a) && StableOrder(prios, b) && k < |prios| && a[..k] == b[..k]
    ensures a[k] == b[k]
  {
    if a[k] != b[k] {
      NotEarlier(prios, a, b, k);
      NotEarlier(prios, b, a, k);
    }
  }

  lemma NotEarlier(prios: seq<int>, a: seq<nat>, b: seq<nat>, k: nat)
    requires StableOrder(prios, a) && StableOrder(prios, b) && k < |prios| && a[..k] == b[..k] && a[k] != b[k]
    ensures Before(prios, b[k], a[k])
  {
    assert a[k] in b;
    var j :| 0 <= j < |b| && b[j] == a[k];
  }

  lemma StableOrderIsUnique(prios: seq<int>, a: seq<nat>, b: seq<nat>)
    requires StableOrder(prios, a) && StableOrder(prios, b)
    ensures a == b
  {
    SameFrom(prios, a, b, |prios|);
    assert a[..|prios|] == a && b[..|prios|] == b;
  }

  // ---------------------------------------------------------------------------
  // The dispatcher.

  /** The calls made so far: in order, and just the hooks with priority up to last. */
  ghost predicate CalledUpTo(prios: seq<int>, calls: seq<nat>, last: int)
  {
    && Indices(prios, calls) && Ordered(prios, calls)
    && forall i: nat :: i < |prios| ==> (i in calls <==> prios[i] <= last)
  }

  /** The lowest priority above last, or LAST + 1. */
  method LowestAbove(prios: seq<int>, last: int) returns (prio: int)
    requires InRange(prios)
    ensures prio == 10000 || exists i :: 0 <= i < |prios| && prios[i] == prio > last
    ensures forall i :: 0 <= i < |prios| && prios[i] > last ==> prio <= prios[i]
  {
    prio := LAST + 1;
    for p := 0 to |prios|
      invariant prio == LAST + 1 || exists i :: 0 <= i < p && prios[i] == prio > last
      invariant forall i :: 0 <= i < p && prios[i] > last ==> prio <= prios[i]
      invariant prio <= LAST + 1
    {
      if prios[p] < prio && prios[p] > last {
        prio := prios[p];
      }
    }
  }

  /** Calls the hooks of one priority in table order. */
  method CallPriority(prios: seq<int>, prio: int, last: int, before: seq<nat>) returns (calls: seq<nat>)
    requires CalledUpTo(prios, before, last) && last < prio
    requires forall i :: 0 <= i < |prios| && prios[i] > last ==> prio <= prios[i]
    ensures CalledUpTo(prios, calls, prio)
    ensures |before| <= |calls| && ((exists i :: 0 <= i < |prios| && prios[i] == prio) ==> |before| < |calls|)
  {
    calls := before;
    for p := 0 to |prios|
      invariant Indices(prios, calls) && Ordered(prios, calls)
      invariant forall i: nat :: i < |prios| ==> (i in calls <==> prios[i] <= last || (prios[i] == prio && i < p))
      invariant |before| <= |calls| && ((exists i :: 0 <= i < p && prios[i] == prio) ==> |before| < |calls|)
    {
      if prios[p] == prio {
        forall a | 0 <= a < |calls| ensures Before(prios, calls[a], p) {
          assert calls[a] in calls;
        }
        calls := calls + [p];
      }
    }
  }

  /** hook_notify: the trace of hooks it calls. */
  method HookNotify(prios: seq<int>) returns (calls: seq<nat>)
    requires InRange(prios)
    ensures StableOrder(prios, calls)
    ensures |calls| == |prios| && forall i: nat :: i < |prios| ==> i in calls
    ensures forall a, b :: 0 <= a < b < |calls| ==>
              && calls[a] < |prios| && calls[b] < |prios| && prios[calls[a]] <= prios[calls[b]]
              && (prios[calls[a]] == prios[calls[b]] ==> calls[a] < calls[b])
  {
    calls := [];
    var last := FIRST - 1;
    while |calls| < |prios|
      invariant CalledUpTo(prios, calls, last) && last <= LAST
      decreases |prios| - |calls|
    {
      OrderedCoverage(prios, calls);
      var prio := LowestAbove(prios, last);
      ghost var missing: nat :| missing < |prios| && missing !in calls;
      calls := CallPriority(prios, prio, last, calls);
      OrderedCoverage(prios, calls);
      last := prio;
    }
    OrderedCoverage(prios, calls);
  }

  // ---------------------------------------------------------------------------
  // How long the hook task may sleep.

  /** The sleep computed by hook_task: it ends at the next tick or the first pending deferred call,
      whichever comes first; timers that are 0 are not pending. */
  method SleepTime(lastTick: nat, interval: nat, deferred: seq<nat>, t: nat) returns (next: nat)
    ensures next == 0 || t + next <= lastTick + interval
    ensures forall i :: 0 <= i < |deferred| && deferred[i] != 0 ==> next == 0 || t + next <= deferred[i]
    ensures next > 0 ==>
              t + next == lastTick + interval || exists i :: 0 <= i < |deferred| && t + next == deferred[i]
    ensures next == 0 <==> lastTick + interval <= t || exists i :: 0 <= i < |deferred| && 0 < deferred[i] <= t
  {
    next := 0;
    if lastTick + interval > t {
      next := lastTick + interval - t;
    }
    var i := 0;
    while i < |deferred| && next > 0
      invariant 0 <= i <= |deferred|
      invariant next == 0 || t + next <= lastTick + interval
      invariant forall j :: 0 <= j < i && deferred[j] != 0 ==> next == 0 || t + next <= deferred[j]
      invariant next > 0 ==>
                  t + next == lastTick + interval || exists j :: 0 <= j < i && t + next == deferred[j]
      invariant next == 0 <==> lastTick + interval <= t || exists j :: 0 <= j < i && 0 < deferred[j] <= t
    {
      if deferred[i] != 0 {
        if deferred[i] < t {
          next := 0;
        } else if deferred[i] - t < next {
          next := deferred[i] - t;
        }
      }
      i := i + 1;
    }
  }
}
