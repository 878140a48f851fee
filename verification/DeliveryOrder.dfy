/** Delivery order: what the aggregator holds after any interleaving of the two streams. */
module DeliveryOrder {
  import opened Machine
  import opened LuaWalk
  import opened Fold
  import opened Levels
  import opened Aggregator

  // ---- the Lua events of one sample -------------------------------------------------

  /** What one delivery queues under a key. */
  function LastFor(d: Delivery, k: SampleKey): seq<LuaEvent> {
    if d.LuaArrives? && d.event.key == k then [d.event] else []
  }

  /** The Lua events delivered under a key, in arrival order. */
  function LuaFor(ds: seq<Delivery>, k: SampleKey): seq<LuaEvent> {
    if ds == [] then []
    else
      LuaFor(ds[..|ds| - 1], k) + LastFor(ds[|ds| - 1], k)
  }

  /** What is queued under a key is what was delivered under it, whatever came in between. */
  lemma {:induction false} QueuedIsDelivered(env: Env, ds: seq<Delivery>, k: SampleKey)
    ensures EventsFor(DeliverAll(env, ds).lua, k) == LuaFor(ds, k)
  {
    if ds != [] {
      QueuedIsDelivered(env, ds[..|ds| - 1], k);
    }
  }

  lemma CountInAppend<T>(a: seq<T>, b: seq<T>, x: T)
    ensures multiset(a + b)[x] == multiset(a)[x] + multiset(b)[x]
  {
  }

  lemma LastForCounts(d: Delivery, k: SampleKey, e: LuaEvent)
    ensures multiset(LastFor(d, k))[e] == if e.key == k then multiset([d])[LuaArrives(e)] else 0
  {
  }

  lemma {:induction false} LuaForCounts(ds: seq<Delivery>, k: SampleKey, e: LuaEvent)
    ensures multiset(LuaFor(ds, k))[e] == if e.key == k then multiset(ds)[LuaArrives(e)] else 0
  {
    if ds != [] {
      var before, d := ds[..|ds| - 1], ds[|ds| - 1];
      assert ds == before + [d] && LuaFor(ds, k) == LuaFor(before, k) + LastFor(d, k);
      hide LuaFor, LastFor;
      LuaForCounts(before, k, e);
      LastForCounts(d, k, e);
      CountInAppend(LuaFor(before, k), LastFor(d, k), e);
      CountInAppend(before, [d], LuaArrives(e));
    }
  }

  lemma LuaForIgnoresOrder(a: seq<Delivery>, b: seq<Delivery>, k: SampleKey)
    requires multiset(a) == multiset(b)
    ensures multiset(LuaFor(a, k)) == multiset(LuaFor(b, k))
  {
    forall e: LuaEvent ensures multiset(LuaFor(a, k))[e] == multiset(LuaFor(b, k))[e] {
      LuaForCounts(a, k, e);
      LuaForCounts(b, k, e);
    }
  }

  // ---- the native events ------------------------------------------------------------

  /** No two different native events share a key. */
  ghost predicate NativesAgree(ds: seq<Delivery>) {
    forall c, d :: c in ds && d in ds && c.NativeArrives? && d.NativeArrives? && c.native.key == d.native.key ==> c == d
  }

  /** A delivered native event is kept with its own addresses: nothing overwrites it. */
  lemma {:induction false} NativeIsKept(env: Env, ds: seq<Delivery>, d: Delivery)
    requires NativesAgree(ds) && d in ds && d.NativeArrives?
    ensures var native := DeliverAll(env, ds).native;
            d.native.key in native && native[d.native.key] == IpsOf(env, d.native.sample)
  {
    hide IpsOf, StatsOf;
    var before, last := ds[..|ds| - 1], ds[|ds| - 1];
    assert ds == before + [last];
    if d != last {
      NativeIsKept(env, before, d);
    }
  }

  /** Only delivered samples are kept. */
  lemma {:induction false} KeptWasDelivered(env: Env, ds: seq<Delivery>, k: SampleKey) returns (d: Delivery)
    requires k in DeliverAll(env, ds).native
    ensures d in ds && d.NativeArrives? && d.native.key == k
  {
    hide IpsOf, StatsOf;
    var last := ds[|ds| - 1];
    if last.NativeArrives? && last.native.key == k {
      d := last;
    } else {
      d := KeptWasDelivered(env, ds[..|ds| - 1], k);
    }
  }

  lemma SameNatives(env: Env, a: seq<Delivery>, b: seq<Delivery>)
    requires multiset(a) == multiset(b) && NativesAgree(a)
    ensures DeliverAll(env, a).native == DeliverAll(env, b).native
  {
    hide DeliverAll, IpsOf;
    forall d ensures d in a <==> d in b { assert d in multiset(a) <==> d in multiset(b); }
    var m, n := DeliverAll(env, a).native, DeliverAll(env, b).native;
    forall k | k in m ensures k in n && n[k] == m[k] {
      var d := KeptWasDelivered(env, a, k);
      NativeIsKept(env, a, d);
      NativeIsKept(env, b, d);
    }
    forall k | k in n ensures k in m {
      var d := KeptWasDelivered(env, b, k);
      NativeIsKept(env, a, d);
    }
  }

  // ---- the statistics ---------------------------------------------------------------

  ghost function StatsOfDelivery(env: Env, d: Delivery): Stats {
    if d.NativeArrives? then StatsOf(env, d.native.sample) else Stats(0, 0, 0, 0)
  }

  lemma StatsOfDeliver(env: Env, st: PendingState, d: Delivery)
    ensures Deliver(env, st, d).stats == AddStats(st.stats, StatsOfDelivery(env, d))
  {
    hide StatsOf, IpsOf, EventsFor;
  }

  /** What the last delivery adds. */
  lemma StatsStep(env: Env, ds: seq<Delivery>)
    requires ds != []
    ensures DeliverAll(env, ds).stats
            == AddStats(DeliverAll(env, ds[..|ds| - 1]).stats, StatsOfDelivery(env, ds[|ds| - 1]))
  {
    hide Deliver, AddStats, StatsOfDelivery;
    StatsOfDeliver(env, DeliverAll(env, ds[..|ds| - 1]), ds[|ds| - 1]);
  }

  lemma AddStatsSwaps(a: Stats, b: Stats, c: Stats)
    ensures AddStats(AddStats(a, b), c) == AddStats(AddStats(a, c), b)
  {
  }

  function Without(ds: seq<Delivery>, i: nat): seq<Delivery>
    requires i < |ds|
  {
    ds[..i] + ds[i + 1..]
  }

  lemma WithoutEarlier(ds: seq<Delivery>, i: nat)
    requires i < |ds| - 1
    ensures var n, rest := |ds| - 1, Without(ds, i);
            rest != [] && rest[..|rest| - 1] == Without(ds[..n], i) && rest[|rest| - 1] == ds[n]
  {
  }

  lemma {:induction false} StatsWithout(env: Env, ds: seq<Delivery>, i: nat)
    requires i < |ds|
    ensures DeliverAll(env, ds).stats == AddStats(DeliverAll(env, Without(ds, i)).stats, StatsOfDelivery(env, ds[i]))
    decreases |ds|
  {
    hide StatsOfDelivery, DeliverAll, AddStats;
    var n := |ds| - 1;
    StatsStep(env, ds);
    if i == n {
      assert Without(ds, i) == ds[..n];
    } else {
      StatsWithout(env, ds[..n], i);
      WithoutEarlier(ds, i);
      StatsStep(env, Without(ds, i));
      AddStatsSwaps(DeliverAll(env, Without(ds[..n], i)).stats,
                    StatsOfDelivery(env, ds[i]), StatsOfDelivery(env, ds[n]));
    }
  }

  lemma WithoutIsLess(ds: seq<Delivery>, i: nat)
    requires i < |ds|
    ensures multiset(Without(ds, i)) == multiset(ds) - multiset{ds[i]}
  {
    assert ds == ds[..i] + [ds[i]] + ds[i + 1..];
  }

  lemma {:induction false} SameStats(env: Env, a: seq<Delivery>, b: seq<Delivery>)
    requires multiset(a) == multiset(b)
    ensures DeliverAll(env, a).stats == DeliverAll(env, b).stats
    decreases |a|
  {
    if a == [] {
      assert |multiset(b)| == 0;
    } else {
      assert a[0] in multiset(b);
      var i :| 0 <= i < |b| && b[i] == a[0];
      hide StatsOfDelivery, DeliverAll, AddStats, Without;
      StatsWithout(env, a, 0);
      StatsWithout(env, b, i);
      WithoutIsLess(a, 0);
      WithoutIsLess(b, i);
      assert |Without(a, 0)| < |a| by { WithoutLength(a, 0); }
      SameStats(env, Without(a, 0), Without(b, i));
    }
  }

  lemma WithoutLength(ds: seq<Delivery>, i: nat)
    requires i < |ds|
    ensures |Without(ds, i)| == |ds| - 1
  {
  }

  // ---- order independence -----------------------------------------------------------

  /** No two Lua events of one sample share a level. */
  ghost predicate LevelsDiffer(ds: seq<Delivery>) {
    forall k: SampleKey :: DistinctLevels(LuaFor(ds, k))
  }

  /** The counts handed over after a sequence of deliveries. */
  ghost function Counts(env: Env, ds: seq<Delivery>): map<string, nat> {
    var st := DeliverAll(env, ds);
    Tally(Stacks(env, st.native, st.lua))
  }

  /** The folded counts and the statistics are the same for every permutation of the
      deliveries, and so for every interleaving of the two streams. */
  lemma DeliveryOrderIsIrrelevant(env: Env, a: seq<Delivery>, b: seq<Delivery>)
    requires multiset(a) == multiset(b) && NativesAgree(a) && LevelsDiffer(a)
    ensures Counts(env, a) == Counts(env, b)
    ensures DeliverAll(env, a).stats == DeliverAll(env, b).stats
  {
    SameNatives(env, a, b);
    SameStats(env, a, b);
    var s, t := DeliverAll(env, a), DeliverAll(env, b);
    hide Tally, BuildStack, DeliverAll;
    forall k | k in s.native ensures StackOf(env, s.native, s.lua, k) == StackOf(env, t.native, t.lua, k) {
      QueuedIsDelivered(env, a, k);
      QueuedIsDelivered(env, b, k);
      LuaForIgnoresOrder(a, b, k);
      BuildIgnoresArrival(env, s.native[k], LuaFor(a, k), LuaFor(b, k));
    }
    assert Stacks(env, s.native, s.lua) == Stacks(env, t.native, t.lua);
  }

  lemma BuildIgnoresArrival(env: Env, ips: seq<U64>, a: seq<LuaEvent>, b: seq<LuaEvent>)
    requires multiset(a) == multiset(b) && DistinctLevels(a)
    ensures BuildStack(env, ips, a) == BuildStack(env, ips, b)
  {
    hide Folded;
    FoldIgnoresArrival(env.chunk, if env.includeNative then NativeSlots(env, ips) else [], a, b, env.includeNative);
  }
}
