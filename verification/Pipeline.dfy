/** The whole pipeline: from what the probes saw to the folded counts. */
module Pipeline {
  import opened Machine
  import opened ProbeReads
  import opened LuaFrames
  import opened LuaWalk
  import opened LuaLayout
  import opened Snapshot
  import opened Unwind
  import opened Kernel
  import opened KernelRuns
  import opened Fold
  import opened Levels
  import opened Rendering
  import opened Aggregator
  import opened DeliveryOrder

  // ---- stale name bytes do not matter -----------------------------------------------

  lemma {:induction false} CStrOfClean(s: seq<Byte>)
    requires 0 !in s
    ensures CStr(s) == s
  {
    if s != [] { CStrOfClean(s[1..]); }
  }

  lemma FormatSeesCanonical(chunk: Namer, e: LuaEvent)
    ensures FormatLuaFrame(chunk, Canonical(e)) == FormatLuaFrame(chunk, e)
  {
    CStrOfClean(CStr(e.name));
    hide CStr, FormatNamed, Hex, Decimal;
  }

  lemma {:induction false} FormattedSeesCanonical(chunk: Namer, es: seq<LuaEvent>)
    ensures Formatted(chunk, AllCanonical(es)) == Formatted(chunk, es)
  {
    if es != [] {
      FormatSeesCanonical(chunk, es[0]);
      FormattedSeesCanonical(chunk, es[1..]);
      assert AllCanonical(es)[1..] == AllCanonical(es[1..]);
    }
  }

  lemma {:induction false} MergeSeesCanonical(chunk: Namer, natives: seq<Option<string>>, es: seq<LuaEvent>,
                                              includeC: bool)
    ensures Merge(chunk, natives, AllCanonical(es), includeC) == Merge(chunk, natives, es, includeC)
  {
    if natives == [] {
      FormattedSeesCanonical(chunk, es);
    } else {
      var rest := EventsAfter(natives[0], es);
      assert EventsAfter(natives[0], AllCanonical(es)) == AllCanonical(rest);
      if es != [] { FormatSeesCanonical(chunk, es[0]); }
      MergeUnfolds(chunk, natives, es, includeC);
      MergeUnfolds(chunk, natives, AllCanonical(es), includeC);
      hide Merge, FormatLuaFrame;
      MergeSeesCanonical(chunk, natives[1..], rest, includeC);
    }
  }

  lemma CanonicalCons(e: LuaEvent, es: seq<LuaEvent>)
    ensures AllCanonical([e] + es) == [Canonical(e)] + AllCanonical(es)
    ensures Canonical(e).level == e.level
  {
    hide CStr;
  }

  lemma {:induction false} InsertSeesCanonical(e: LuaEvent, es: seq<LuaEvent>)
    ensures Insert(Canonical(e), AllCanonical(es)) == AllCanonical(Insert(e, es))
  {
    hide AllCanonical, Canonical;
    CanonicalCons(e, es);
    if es != [] {
      CanonicalCons(es[0], es[1..]);
      assert [es[0]] + es[1..] == es;
      if es[0].level >= e.level {
        InsertSeesCanonical(e, es[1..]);
        CanonicalCons(es[0], Insert(e, es[1..]));
      }
    }
  }

  lemma CanonicalByParts(es: seq<LuaEvent>)
    ensures |AllCanonical(es)| == |es|
    ensures es != [] ==> var n := |es| - 1;
                         AllCanonical(es)[..n] == AllCanonical(es[..n]) && AllCanonical(es)[n] == Canonical(es[n])
  {
    hide Canonical;
  }

  lemma {:induction false} SortSeesCanonical(es: seq<LuaEvent>)
    ensures SortByLevel(AllCanonical(es)) == AllCanonical(SortByLevel(es))
  {
    hide *;
    CanonicalByParts(es);
    CanonicalByParts([]);
    SortUnfolds(es);
    SortUnfolds(AllCanonical(es));
    if es != [] {
      var n := |es| - 1;
      SortSeesCanonical(es[..n]);
      InsertSeesCanonical(es[n], SortByLevel(es[..n]));
    }
  }

  /** A sample folds the same whatever its events' names hold behind the NUL. */
  lemma BuildSeesCanonical(env: Env, ips: seq<U64>, es: seq<LuaEvent>)
    ensures BuildStack(env, ips, AllCanonical(es)) == BuildStack(env, ips, es)
  {
    SortSeesCanonical(es);
    var slots := if env.includeNative then NativeSlots(env, ips) else [];
    MergeSeesCanonical(env.chunk, slots, SortByLevel(es), env.includeNative);
    hide Merge, SortByLevel, AllCanonical, NativeSlots;
  }

  // ---- the streams, sample by sample ------------------------------------------------

  function OfKey(es: seq<LuaEvent>, k: SampleKey): seq<LuaEvent> {
    if es == [] then []
    else OfKey(es[..|es| - 1], k) + if es[|es| - 1].key == k then [es[|es| - 1]] else []
  }

  lemma {:induction false} OfKeyAppend(a: seq<LuaEvent>, b: seq<LuaEvent>, k: SampleKey)
    ensures OfKey(a + b, k) == OfKey(a, k) + OfKey(b, k)
  {
    if b == [] {
      assert a + b == a;
    } else {
      var n := |b| - 1;
      OfKeyAppend(a, b[..n], k);
      assert (a + b)[..|a + b| - 1] == a + b[..n];
    }
  }

  lemma {:induction false} OfKeyOfOne(es: seq<LuaEvent>, own: SampleKey, k: SampleKey)
    requires forall i :: 0 <= i < |es| ==> es[i].key == own
    ensures OfKey(es, k) == if own == k then es else []
  {
    if es != [] {
      var n := |es| - 1;
      OfKeyOfOne(es[..n], own, k);
      assert es == es[..n] + [es[n]];
    }
  }

  lemma {:induction false} OfKeySeesCanonical(es: seq<LuaEvent>, k: SampleKey)
    ensures OfKey(AllCanonical(es), k) == AllCanonical(OfKey(es, k))
  {
    if es != [] {
      var n := |es| - 1;
      OfKeySeesCanonical(es[..n], k);
      assert AllCanonical(es)[..n] == AllCanonical(es[..n]);
    }
  }

  /** The walk of one sample: its key on every event, its levels all different. */
  lemma WalkOfSample(t: Taken)
    ensures var es := LuaOf(t.states, t.sample, t.key);
            && (forall i :: 0 <= i < |es| ==> es[i].key == t.key)
            && (forall i, j :: 0 <= i < j < |es| ==> es[i].level < es[j].level)
  {
    hide WalkFrom, WalkStart, ReadsOf;
    if t.sample.tid in t.states {
      var r, L := ReadsOf(t.sample.mem), t.states[t.sample.tid].ptr;
      var start := WalkStart(r, L);
      if start.Some? {
        var s := start.value;
        var w := Walk(r, L, s.bot, s.maxstack, t.key, s.jit);
        LuaWalkSafety.LevelsAreDistinct(w, r.u64, Wrap(s.base - SLOT), None, 0, MAX_LUA_DEPTH);
      }
    }
  }

  lemma StreamSplits(ts: seq<Taken>, k: SampleKey)
    requires ts != []
    ensures var n := |ts| - 1;
            OfKey(LuaStream(ts), k) == OfKey(LuaStream(ts[..n]), k)
                                       + if ts[n].key == k then LuaOf(ts[n].states, ts[n].sample, ts[n].key) else []
  {
    hide LuaOf, OfKey;
    var t := ts[|ts| - 1];
    var es := LuaOf(t.states, t.sample, t.key);
    WalkOfSample(t);
    OfKeyOfOne(es, t.key, k);
    OfKeyAppend(LuaStream(ts[..|ts| - 1]), es, k);
  }

  lemma {:induction false} StreamHasNoOther(ts: seq<Taken>, k: SampleKey)
    requires forall i :: 0 <= i < |ts| ==> ts[i].key != k
    ensures OfKey(LuaStream(ts), k) == []
  {
    if ts != [] {
      hide LuaOf;
      StreamHasNoOther(ts[..|ts| - 1], k);
      StreamSplits(ts, k);
    }
  }

  /** Under a sample's key the stream holds exactly that sample's walk. */
  lemma {:induction false} StreamHoldsWalk(ts: seq<Taken>, i: nat)
    requires i < |ts| && DistinctKeys(ts)
    ensures OfKey(LuaStream(ts), ts[i].key) == LuaOf(ts[i].states, ts[i].sample, ts[i].key)
  {
    hide LuaOf, OfKey, LuaStream;
    var n := |ts| - 1;
    StreamSplits(ts, ts[i].key);
    if i == n {
      StreamHasNoOther(ts[..n], ts[i].key);
    } else {
      StreamHoldsWalk(ts[..n], i);
    }
  }

  // ---- the deliveries of a run ------------------------------------------------------

  /** Both streams, delivered one after the other. */
  function Arrivals(natives: seq<NativeDelivery>, luas: seq<LuaEvent>): seq<Delivery> {
    seq(|natives|, i requires 0 <= i < |natives| => NativeArrives(natives[i]))
    + seq(|luas|, i requires 0 <= i < |luas| => LuaArrives(luas[i]))
  }

  lemma {:induction false} LuaForArrivals(natives: seq<NativeDelivery>, luas: seq<LuaEvent>, k: SampleKey)
    ensures LuaFor(Arrivals(natives, luas), k) == OfKey(luas, k)
    decreases |natives| + |luas|
  {
    var all := Arrivals(natives, luas);
    if luas != [] {
      LuaForArrivals(natives, luas[..|luas| - 1], k);
      assert all[..|all| - 1] == Arrivals(natives, luas[..|luas| - 1]);
    } else if natives != [] {
      LuaForArrivals(natives[..|natives| - 1], luas, k);
      assert all[..|all| - 1] == Arrivals(natives[..|natives| - 1], luas);
    }
  }

  /** Everything a run streamed, the Lua events with whatever bytes their names ended in. */
  ghost predicate Streamed(c: Config, ts: seq<Taken>, raw: seq<LuaEvent>) {
    AllCanonical(raw) == if c.disableLua then [] else LuaStream(ts)
  }

  /** What one sample should fold to: its own native stack with its own Lua walk. */
  ghost function Rendered(env: Env, c: Config, t: Taken): Option<string> {
    BuildStack(env, IpsOf(env, NativeOf(c, t.sample, t.key).sample), WalkOf(c, t))
  }

  function WalkOf(c: Config, t: Taken): seq<LuaEvent> {
    if c.disableLua then [] else LuaOf(t.states, t.sample, t.key)
  }

  ghost function AllRendered(env: Env, c: Config, ts: seq<Taken>): (rs: seq<Option<string>>)
    ensures |rs| == |ts|
  {
    seq(|ts|, i requires 0 <= i < |ts| => Rendered(env, c, ts[i]))
  }

  /** Under a sample's key the raw stream holds its walk; under any other key, nothing. */
  lemma RawHoldsWalk(c: Config, ts: seq<Taken>, raw: seq<LuaEvent>, k: SampleKey)
    requires DistinctKeys(ts) && Streamed(c, ts, raw)
    ensures forall i :: 0 <= i < |ts| && ts[i].key == k ==> AllCanonical(OfKey(raw, k)) == WalkOf(c, ts[i])
    ensures DistinctLevels(OfKey(raw, k))
  {
    hide LuaOf, LuaStream;
    OfKeySeesCanonical(raw, k);
    var es := OfKey(raw, k);
    if c.disableLua {
      assert AllCanonical(es) == [];
    } else if i :| 0 <= i < |ts| && ts[i].key == k {
      StreamHoldsWalk(ts, i);
      WalkOfSample(ts[i]);
      forall a, b | 0 <= a < b < |es| ensures es[a].level != es[b].level {
        assert AllCanonical(es)[a].level < AllCanonical(es)[b].level;
      }
    } else {
      StreamHasNoOther(ts, k);
      assert AllCanonical(es) == [];
    }
  }

  /** A run's native events are one for each sample, under its key. */
  lemma ArrivalsAgree(c: Config, ts: seq<Taken>, raw: seq<LuaEvent>)
    requires DistinctKeys(ts)
    ensures NativesAgree(Arrivals(NativeStream(c, ts), raw))
  {
    hide NativeOf;
    var ds := Arrivals(NativeStream(c, ts), raw);
    forall d | d in ds && d.NativeArrives?
      ensures exists i :: 0 <= i < |ts| && d == NativeArrives(NativeOf(c, ts[i].sample, ts[i].key))
    {
      var j :| 0 <= j < |ds| && ds[j] == d;
      assert j < |ts| && d == NativeArrives(NativeStream(c, ts)[j]);
    }
    forall i ensures 0 <= i < |ts| ==> NativeOf(c, ts[i].sample, ts[i].key).key == ts[i].key { KeyOfNative(c, ts, i); }
  }

  lemma KeyOfNative(c: Config, ts: seq<Taken>, i: int)
    ensures 0 <= i < |ts| ==> NativeOf(c, ts[i].sample, ts[i].key).key == ts[i].key
  {
  }

  // ---- the counts of a run ----------------------------------------------------------

  /** The queue of a sample folds with its addresses to the sample's own stack. */
  lemma SampleFoldsToItself(env: Env, c: Config, ts: seq<Taken>, raw: seq<LuaEvent>, i: nat)
    requires i < |ts| && DistinctKeys(ts) && Streamed(c, ts, raw)
    ensures var st := DeliverAll(env, Arrivals(NativeStream(c, ts), raw));
            ts[i].key in st.native && StackOf(env, st.native, st.lua, ts[i].key) == Rendered(env, c, ts[i])
  {
    hide BuildStack, IpsOf, NativeOf, LuaOf, DeliverAll;
    var ds, k := Arrivals(NativeStream(c, ts), raw), ts[i].key;
    var d := NativeArrives(NativeOf(c, ts[i].sample, k));
    assert ds[i] == d;
    KeyOfNative(c, ts, i);
    ArrivalsAgree(c, ts, raw);
    NativeIsKept(env, ds, d);
    QueuedIsDelivered(env, ds, k);
    LuaForArrivals(NativeStream(c, ts), raw, k);
    RawHoldsWalk(c, ts, raw, k);
    BuildSeesCanonical(env, IpsOf(env, d.native.sample), OfKey(raw, k));
  }

  /** Only the run's own samples are kept. */
  lemma KeptIsSample(env: Env, c: Config, ts: seq<Taken>, raw: seq<LuaEvent>, k: SampleKey) returns (i: nat)
    requires k in DeliverAll(env, Arrivals(NativeStream(c, ts), raw)).native
    ensures i < |ts| && ts[i].key == k
  {
    hide NativeOf, DeliverAll;
    var ds := Arrivals(NativeStream(c, ts), raw);
    var d := KeptWasDelivered(env, ds, k);
    i :| 0 <= i < |ds| && ds[i] == d;
    assert i < |ts| && d.native == NativeStream(c, ts)[i];
    KeyOfNative(c, ts, i);
  }

  /** Counts that say of every folded stack how many samples render to it. */
  ghost predicate CountsSamples(counts: map<string, nat>, rs: seq<Option<string>>) {
    && (forall s :: s in counts <==> Some(s) in rs)
    && (forall s :: s in counts ==> counts[s] == multiset(rs)[Some(s)])
    && Total(counts) + multiset(rs)[None] == |rs|
  }

  lemma CountsOneMore(counts: map<string, nat>, rs: seq<Option<string>>, r: Option<string>)
    requires CountsSamples(counts, rs)
    ensures CountsSamples(Counted(counts, r), rs + [r])
  {
    if r.Some? { TotalOfIncrement(counts, r.value); }
    forall s ensures Some(s) in rs + [r] <==> Some(s) in rs || r == Some(s) { }
    assert multiset(rs + [r]) == multiset(rs) + multiset{r};
    forall s: string | Some(s) !in rs ensures multiset(rs)[Some(s)] == 0 { assert Some(s) !in multiset(rs); }
    hide Total;
  }

  ghost predicate AllDiffer(keys: seq<SampleKey>) { forall i, j :: 0 <= i < j < |keys| ==> keys[i] != keys[j] }

  /** A map holding one rendering under each key, and nothing else. */
  ghost predicate HoldsEach(keys: seq<SampleKey>, rs: seq<Option<string>>, stacks: map<SampleKey, Option<string>>) {
    && |keys| == |rs|
    && (forall k :: k in stacks <==> k in keys)
    && forall i :: 0 <= i < |keys| ==> stacks[keys[i]] == rs[i]
  }

  lemma DropLast(keys: seq<SampleKey>, rs: seq<Option<string>>, stacks: map<SampleKey, Option<string>>)
    requires keys != [] && AllDiffer(keys) && HoldsEach(keys, rs, stacks)
    ensures var n := |keys| - 1;
            var fewer := stacks - {keys[n]};
            && stacks == fewer[keys[n] := rs[n]] && rs == rs[..n] + [rs[n]]
            && AllDiffer(keys[..n]) && HoldsEach(keys[..n], rs[..n], fewer)
  {
    var n := |keys| - 1;
    assert keys == keys[..n] + [keys[n]];
  }

  lemma {:induction false} TallyCountsEach(keys: seq<SampleKey>, rs: seq<Option<string>>,
                                           stacks: map<SampleKey, Option<string>>)
    requires AllDiffer(keys) && HoldsEach(keys, rs, stacks)
    ensures CountsSamples(Tally(stacks), rs)
  {
    if keys == [] {
      assert stacks == map[];
      EmptyTally();
      assert Total(map[]) == 0;
    } else {
      assert |rs| == |keys|;
      hide *;
      var n := |keys| - 1;
      DropLast(keys, rs, stacks);
      TallyCountsEach(keys[..n], rs[..n], stacks - {keys[n]});
      CountedTally(stacks - {keys[n]}, keys[n], rs[n]);
      CountsOneMore(Tally(stacks - {keys[n]}), rs[..n], rs[n]);
    }
  }

  function KeysOf(ts: seq<Taken>): (keys: seq<SampleKey>)
    ensures |keys| == |ts| && forall i :: 0 <= i < |ts| ==> keys[i] == ts[i].key
  {
    seq(|ts|, i requires 0 <= i < |ts| => ts[i].key)
  }

  /** Main result on the pipeline. However the events of a run are permuted and interleaved
      on their way to user space, the folded counts say of every stack how many samples,
      each with its own native stack and its own Lua walk, fold to it; a sample goes
      uncounted only when it folds to nothing. */
  lemma FoldedCountsAreSampleCounts(env: Env, c: Config, inputs: seq<Input>, raw: seq<LuaEvent>, ds: seq<Delivery>)
    requires !c.kernelStacksOnly && DistinctKeys(TakenSamples(c, inputs))
    requires AllCanonical(raw) == Run(c, inputs).luas
    requires multiset(ds) == multiset(Arrivals(Run(c, inputs).natives, raw))
    ensures CountsSamples(Counts(env, ds), AllRendered(env, c, TakenSamples(c, inputs)))
  {
    hide Run, TakenSamples, DeliverAll, Tally, Rendered, LuaStream, NativeStream, AllCanonical, CountsSamples;
    hide StackOf, OfKey;
    var ts := TakenSamples(c, inputs);
    RunEmits(c, inputs);
    var ds0 := Arrivals(NativeStream(c, ts), raw);
    ArrivalsAgree(c, ts, raw);
    forall k: SampleKey ensures DistinctLevels(LuaFor(ds0, k)) {
      RawHoldsWalk(c, ts, raw, k);
      LuaForArrivals(NativeStream(c, ts), raw, k);
    }
    DeliveryOrderIsIrrelevant(env, ds0, ds);
    var st := DeliverAll(env, ds0);
    var stacks := Stacks(env, st.native, st.lua);
    forall i | 0 <= i < |ts| ensures ts[i].key in stacks && stacks[ts[i].key] == Rendered(env, c, ts[i]) {
      SampleFoldsToItself(env, c, ts, raw, i);
    }
    var keys, rs := KeysOf(ts), AllRendered(env, c, ts);
    forall k ensures k in stacks <==> k in keys {
      if k in stacks {
        var i := KeptIsSample(env, c, ts, raw, k);
        assert keys[i] == k;
      }
    }
    TallyCountsEach(keys, rs, stacks);
  }

  // ---- when events are lost ---------------------------------------------------------

  /** The samples whose native event was delivered. */
  function ArrivedSamples(c: Config, ts: seq<Taken>, ds: seq<Delivery>): seq<Taken> {
    if ts == [] then []
    else
      var t := ts[|ts| - 1];
      ArrivedSamples(c, ts[..|ts| - 1], ds) + if NativeArrives(NativeOf(c, t.sample, t.key)) in ds then [t] else []
  }

  /** The events of a walk that are among those delivered. */
  function ArrivedOf(walk: seq<LuaEvent>, got: seq<LuaEvent>): (r: seq<LuaEvent>)
    ensures forall e :: e in r <==> e in walk && e in got
  {
    if walk == [] then []
    else
      assert walk == walk[..|walk| - 1] + [walk[|walk| - 1]];
      ArrivedOf(walk[..|walk| - 1], got) + if walk[|walk| - 1] in got then [walk[|walk| - 1]] else []
  }

  lemma {:induction false} ArrivedIsPart(walk: seq<LuaEvent>, got: seq<LuaEvent>)
    ensures multiset(ArrivedOf(walk, got)) <= multiset(walk)
  {
    if walk != [] {
      ArrivedIsPart(walk[..|walk| - 1], got);
      assert walk == walk[..|walk| - 1] + [walk[|walk| - 1]];
    }
  }

  /** What a sample folds to from what was delivered of its own walk. */
  ghost function RenderedFrom(env: Env, c: Config, t: Taken, ds: seq<Delivery>): Option<string> {
    BuildStack(env, IpsOf(env, NativeOf(c, t.sample, t.key).sample),
               ArrivedOf(WalkOf(c, t), AllCanonical(LuaFor(ds, t.key))))
  }

  ghost function AllRenderedFrom(env: Env, c: Config, ts: seq<Taken>, ds: seq<Delivery>): (rs: seq<Option<string>>)
    ensures |rs| == |ts|
  {
    seq(|ts|, i requires 0 <= i < |ts| => RenderedFrom(env, c, ts[i], ds))
  }

  /** Part of a walk folds to what of it arrived, in whatever order and behind whatever bytes. */
  lemma PartFoldsToArrived(env: Env, ips: seq<U64>, part: seq<LuaEvent>, all: seq<LuaEvent>)
    requires multiset(part) <= multiset(all) && DistinctLevels(all)
    ensures BuildStack(env, ips, part) == BuildStack(env, ips, ArrivedOf(AllCanonical(all), AllCanonical(part)))
  {
    hide BuildStack, Canonical;
    var walk, got := AllCanonical(all), AllCanonical(part);
    var arrived := ArrivedOf(walk, got);
    DistinctLevelsOfPart(all, part);
    CanonicalLevels(all);
    CanonicalLevels(part);
    ArrivedIsPart(walk, got);
    DistinctLevelsOfPart(walk, arrived);
    forall e ensures e in arrived <==> e in got {
      if e in got {
        var j :| 0 <= j < |got| && got[j] == e;
        assert part[j] in multiset(part);
        assert part[j] in multiset(all);
        var k :| 0 <= k < |all| && all[k] == part[j];
        assert walk[k] == e;
      }
    }
    hide ArrivedOf, AllCanonical, DistinctLevels;
    SameMembers(arrived, got);
    BuildSeesCanonical(env, ips, part);
    BuildIgnoresArrival(env, ips, got, arrived);
  }

  lemma CanonicalLevels(es: seq<LuaEvent>)
    requires DistinctLevels(es)
    ensures DistinctLevels(AllCanonical(es))
  {
    hide CStr;
  }

  /** Nothing arrives under a key but what the raw stream holds under it. */
  lemma LuaForIsPart(c: Config, ts: seq<Taken>, raw: seq<LuaEvent>, ds: seq<Delivery>, k: SampleKey)
    requires multiset(ds) <= multiset(Arrivals(NativeStream(c, ts), raw))
    ensures multiset(LuaFor(ds, k)) <= multiset(OfKey(raw, k))
  {
    hide NativeStream, LuaFor, OfKey, Arrivals;
    var all := Arrivals(NativeStream(c, ts), raw);
    LuaForArrivals(NativeStream(c, ts), raw, k);
    forall e: LuaEvent ensures multiset(LuaFor(ds, k))[e] <= multiset(OfKey(raw, k))[e] {
      LuaForCounts(ds, k, e);
      LuaForCounts(all, k, e);
    }
  }

  lemma DeliveredIsArrival(ds: seq<Delivery>, all: seq<Delivery>, d: Delivery)
    requires multiset(ds) <= multiset(all) && d in ds
    ensures d in all
  {
    assert d in multiset(ds);
    assert d in multiset(all);
  }

  lemma LossyAgree(c: Config, ts: seq<Taken>, raw: seq<LuaEvent>, ds: seq<Delivery>)
    requires DistinctKeys(ts) && multiset(ds) <= multiset(Arrivals(NativeStream(c, ts), raw))
    ensures NativesAgree(ds)
  {
    hide NativeStream;
    var all := Arrivals(NativeStream(c, ts), raw);
    ArrivalsAgree(c, ts, raw);
    hide Arrivals;
    forall d | d in ds ensures d in all { DeliveredIsArrival(ds, all, d); }
  }

  /** A sample whose native event arrived folds to what arrived of its own walk. */
  lemma ArrivedFolds(env: Env, c: Config, ts: seq<Taken>, raw: seq<LuaEvent>, ds: seq<Delivery>, i: nat)
    requires i < |ts| && DistinctKeys(ts) && Streamed(c, ts, raw)
    requires multiset(ds) <= multiset(Arrivals(NativeStream(c, ts), raw))
    requires NativeArrives(NativeOf(c, ts[i].sample, ts[i].key)) in ds
    ensures var st := DeliverAll(env, ds);
            ts[i].key in st.native && StackOf(env, st.native, st.lua, ts[i].key) == RenderedFrom(env, c, ts[i], ds)
  {
    hide BuildStack, IpsOf, NativeOf, LuaOf, DeliverAll, NativeStream, Arrivals, OfKey, LuaFor, AllCanonical, ArrivedOf;
    hide Streamed, DistinctKeys, WalkOf;
    var k := ts[i].key;
    var d := NativeArrives(NativeOf(c, ts[i].sample, k));
    KeyOfNative(c, ts, i);
    LossyAgree(c, ts, raw, ds);
    NativeIsKept(env, ds, d);
    QueuedIsDelivered(env, ds, k);
    LuaForIsPart(c, ts, raw, ds, k);
    RawHoldsWalk(c, ts, raw, k);
    PartFoldsToArrived(env, IpsOf(env, d.native.sample), LuaFor(ds, k), OfKey(raw, k));
  }

  lemma {:induction false} ArrivedAreTaken(c: Config, ts: seq<Taken>, ds: seq<Delivery>)
    requires DistinctKeys(ts)
    ensures var got := ArrivedSamples(c, ts, ds);
            && (forall t :: t in got <==> t in ts && NativeArrives(NativeOf(c, t.sample, t.key)) in ds)
            && AllDiffer(KeysOf(got))
  {
    hide NativeOf;
    if ts != [] {
      var n := |ts| - 1;
      var before := ArrivedSamples(c, ts[..n], ds);
      ArrivedAreTaken(c, ts[..n], ds);
      var got := ArrivedSamples(c, ts, ds);
      assert ts == ts[..n] + [ts[n]];
      forall i, j | 0 <= i < j < |got| ensures got[i].key != got[j].key {
        assert got[i] == before[i] && before[i] in before;
        if j < |before| { assert KeysOf(before)[i] != KeysOf(before)[j]; }
      }
    }
  }

  /** The counts when deliveries are lost, on either stream and in any order: every sample whose
      native event arrived is counted once, folded with what arrived of its own Lua walk, and no
      other sample is. */
  lemma LossyCountsAreSampleCounts(env: Env, c: Config, inputs: seq<Input>, raw: seq<LuaEvent>, ds: seq<Delivery>)
    requires !c.kernelStacksOnly && DistinctKeys(TakenSamples(c, inputs))
    requires AllCanonical(raw) == Run(c, inputs).luas
    requires multiset(ds) <= multiset(Arrivals(Run(c, inputs).natives, raw))
    ensures CountsSamples(Counts(env, ds),
                          AllRenderedFrom(env, c, ArrivedSamples(c, TakenSamples(c, inputs), ds), ds))
  {
    hide Run, TakenSamples, DeliverAll, Tally, LuaStream, NativeStream, AllCanonical, CountsSamples, StackOf;
    hide RenderedFrom, ArrivedSamples, Arrivals;
    var ts := TakenSamples(c, inputs);
    RunEmits(c, inputs);
    LossyStacks(env, c, ts, raw, ds);
    var st, got := DeliverAll(env, ds), ArrivedSamples(c, ts, ds);
    ArrivedAreTaken(c, ts, ds);
    TallyCountsEach(KeysOf(got), AllRenderedFrom(env, c, got, ds), Stacks(env, st.native, st.lua));
  }

  lemma LossyStacks(env: Env, c: Config, ts: seq<Taken>, raw: seq<LuaEvent>, ds: seq<Delivery>)
    requires DistinctKeys(ts) && Streamed(c, ts, raw)
    requires multiset(ds) <= multiset(Arrivals(NativeStream(c, ts), raw))
    ensures var st, got := DeliverAll(env, ds), ArrivedSamples(c, ts, ds);
            HoldsEach(KeysOf(got), AllRenderedFrom(env, c, got, ds), Stacks(env, st.native, st.lua))
  {
    hide DeliverAll, NativeStream, StackOf, RenderedFrom, ArrivedSamples, NativeOf, Streamed;
    var st, got := DeliverAll(env, ds), ArrivedSamples(c, ts, ds);
    var stacks, keys := Stacks(env, st.native, st.lua), KeysOf(got);
    ArrivedAreTaken(c, ts, ds);
    forall i | 0 <= i < |got| ensures keys[i] in stacks && stacks[keys[i]] == RenderedFrom(env, c, got[i], ds) {
      assert got[i] in got;
      var j :| 0 <= j < |ts| && ts[j] == got[i];
      ArrivedFolds(env, c, ts, raw, ds, j);
    }
    forall k | k in stacks ensures k in keys {
      var t := KeptArrived(env, c, ts, raw, ds, k);
      var i :| 0 <= i < |got| && got[i] == t;
      assert keys[i] == k;
    }
  }

  lemma KeptArrived(env: Env, c: Config, ts: seq<Taken>, raw: seq<LuaEvent>, ds: seq<Delivery>, k: SampleKey)
    returns (t: Taken)
    requires DistinctKeys(ts) && multiset(ds) <= multiset(Arrivals(NativeStream(c, ts), raw))
    requires k in DeliverAll(env, ds).native
    ensures t in ArrivedSamples(c, ts, ds) && t.key == k
  {
    hide NativeOf, DeliverAll, ArrivedSamples;
    var all := Arrivals(NativeStream(c, ts), raw);
    var d := KeptWasDelivered(env, ds, k);
    DeliveredIsArrival(ds, all, d);
    var i :| 0 <= i < |all| && all[i] == d;
    assert i < |ts| && d.native == NativeStream(c, ts)[i];
    KeyOfNative(c, ts, i);
    ArrivedAreTaken(c, ts, ds);
    t := ts[i];
  }

  // ---- the native stack and the target ----------------------------------------------

  /** The addresses a sample is unwound to, if the attempt is not marked truncated, are those of
      an unwinder that reads the target's memory directly. */
  lemma UnwinderSeesTarget(env: Env, c: Config, t: Taken)
    requires env.unwinder.Some?
    ensures var s := NativeOf(c, t.sample, t.key).sample;
            var iter := env.unwinder.value(RegsOf(s));
            var r := Unwound(s, SnapshotSteps(env.unwinder.value, s));
            var direct := Unwound(s, StepsOf(iter, MemoryReader(t.sample.mem)));
            !r.truncated ==> r.ips == direct.ips && r.depthLimited == direct.depthLimited
  {
    var s := NativeOf(c, t.sample, t.key).sample;
    hide SnapshotAt, Unwound, StepsOf, SnapshotReader, MemoryReader;
    UntruncatedReadsTarget(t.sample.mem, s, env.unwinder.value(RegsOf(s)));
  }

  // ---- down to the logical call stack -----------------------------------------------

  function Reversed(es: seq<LuaEvent>): (r: seq<LuaEvent>)
    ensures |r| == |es| && forall i :: 0 <= i < |es| ==> r[i] == es[|es| - 1 - i]
  {
    if es == [] then [] else Reversed(es[1..]) + [es[0]]
  }

  lemma {:induction false} ReversedIsPermutation(es: seq<LuaEvent>)
    ensures multiset(Reversed(es)) == multiset(es)
  {
    if es != [] {
      ReversedIsPermutation(es[1..]);
      assert es == [es[0]] + es[1..];
    }
  }

  /** A walk's events, numbered from the leaf, sort to their reverse. */
  lemma SortReversesWalk(es: seq<LuaEvent>)
    requires forall i, j :: 0 <= i < j < |es| ==> es[i].level < es[j].level
    ensures SortByLevel(es) == Reversed(es)
  {
    ReversedIsPermutation(es);
    SortDescends(es);
    var r := Reversed(es);
    forall i, j | 0 <= i < j < |r| ensures r[i].level > r[j].level {
      assert r[i] == es[|es| - 1 - i] && r[j] == es[|es| - 1 - j];
    }
    assert DescendingLevels(r) && DistinctLevels(r) && DistinctLevels(es);
    hide DescendingLevels, DistinctLevels, Reversed, SortByLevel;
    DistinctLevelsOfPermutation(es, SortByLevel(es));
    DescendingIsUnique(SortByLevel(es), Reversed(es));
  }

  /** The native slots that a sample's frames are merged into. */
  ghost function SlotsOf(env: Env, c: Config, t: Taken): seq<Option<string>> {
    if env.includeNative then NativeSlots(env, IpsOf(env, NativeOf(c, t.sample, t.key).sample)) else []
  }

  /** The frames a sample of a thread should show whose recorded state holds the call stack
      `acts`: its functions, root first, merged with its native slots. */
  ghost function ExpectedFrames(env: Env, c: Config, t: Taken, acts: seq<Activation>): seq<OutFrame>
    requires t.sample.tid in t.states
  {
    Merge(env.chunk, SlotsOf(env, c, t), RootFirst(c, t, acts), env.includeNative)
  }

  /** The functions of the call stack within the depth cap, root first. */
  ghost function RootFirst(c: Config, t: Taken, acts: seq<Activation>): seq<LuaEvent>
    requires t.sample.tid in t.states
  {
    var r, L := ReadsOf(t.sample.mem), t.states[t.sample.tid].ptr;
    if c.disableLua then [] else Reversed(Expected(t.key, acts, None, 0, MAX_LUA_DEPTH, TraceActive(r, L)))
  }

  /** Main result, down to the logical call stack and for every output mode: a sample of a
      thread whose recorded state holds the call stack `acts` folds to that stack's functions,
      root first, merged with its native slots. With C stacks on, its native frames and its Lua
      frames are each complete and in order; with Lua only, its native stack leaves no trace. */
  lemma SampleFoldsToCallStack(env: Env, c: Config, t: Taken, acts: seq<Activation>)
    requires t.sample.tid in t.states
    requires HoldsStack(ReadsOf(t.sample.mem), t.states[t.sample.tid].ptr, acts)
    ensures var fs, es := ExpectedFrames(env, c, t, acts), RootFirst(c, t, acts);
            && Rendered(env, c, t) == (if fs == [] then None else Some(Join(Texts(fs))))
            && LuasOf(fs) == Formatted(env.chunk, es)
            && NativesOf(fs) == Named(SlotsOf(env, c, t))
            && (!env.includeNative ==> fs == Formatted(env.chunk, es))
  {
    WalkSortsToRootFirst(c, t, acts);
    var slots, es := SlotsOf(env, c, t), RootFirst(c, t, acts);
    hide ReadsOf, WalkState, IpsOf, Join, Texts, NativeOf, Formatted, SortByLevel, WalkOf, RootFirst;
    hide HoldsStack;
    if env.includeNative {
      MergeKeepsFrames(env.chunk, slots, es);
    } else {
      LuaOnlyIgnoresNatives(env.chunk, slots, es);
      FormattedProject(env.chunk, es);
    }
  }

  lemma WalkSortsToRootFirst(c: Config, t: Taken, acts: seq<Activation>)
    requires t.sample.tid in t.states
    requires HoldsStack(ReadsOf(t.sample.mem), t.states[t.sample.tid].ptr, acts)
    ensures SortByLevel(WalkOf(c, t)) == RootFirst(c, t, acts)
  {
    var r, L := ReadsOf(t.sample.mem), t.states[t.sample.tid].ptr;
    hide ReadsOf, TraceActive, Expected, WalkState, Reversed, HoldsStack;
    if !c.disableLua {
      SampleReadsStack(r, L, acts, t.key, MAX_LUA_DEPTH);
      WalkOfSample(t);
      hide SortByLevel;
      SortReversesWalk(WalkOf(c, t));
    }
  }

  lemma LastSampleIsTaken(c: Config, inputs: seq<Input>, s: Sample)
    requires Accepts(c, s)
    ensures var st := Run(c, inputs);
            TakenSamples(c, inputs + [Perf(s)]) == TakenSamples(c, inputs) + [Taken(KeyOf(st, s), s, st.states)]
  {
    assert (inputs + [Perf(s)])[..|inputs|] == inputs;
    hide Accepts, KeyOf, Run;
  }

  /** A sample of a thread in the middle of a run shows the call stack of the state the thread
      last entered, be that the state of its innermost open call or not. */
  lemma SampleShowsLastEntered(env: Env, c: Config, inputs: seq<Input>, s: Sample, L: U64, acts: seq<Activation>)
    requires Accepts(c, s) && s.tid in Run(c, inputs).states
    requires LastEntered(c, inputs, s.tid) == Some(L) && HoldsStack(ReadsOf(s.mem), L, acts)
    ensures var st := Run(c, inputs);
            var t := Taken(KeyOf(st, s), s, st.states);
            var fs := ExpectedFrames(env, c, t, acts);
            && t in TakenSamples(c, inputs + [Perf(s)])
            && Rendered(env, c, t) == (if fs == [] then None else Some(Join(Texts(fs))))
            && LuasOf(fs) == Formatted(env.chunk, RootFirst(c, t, acts))
  {
    var st := Run(c, inputs);
    var t := Taken(KeyOf(st, s), s, st.states);
    hide *;
    SlotHoldsLastEntered(c, inputs, s.tid);
    LastSampleIsTaken(c, inputs, s);
    SampleFoldsToCallStack(env, c, t, acts);
  }

  function KindTag(kind: int): string { if kind == FUNC_TYPE_JIT then "JIT:" else "L:" }

  /** A Lua frame shows its line exactly when that is positive. */
  lemma LineShowsExactly(chunk: Namer, e: LuaEvent)
    requires e.kind == FUNC_TYPE_LUA || e.kind == FUNC_TYPE_JIT
    ensures var f, name := FormatLuaFrame(chunk, e), KindTag(e.kind) + chunk(CStr(e.name));
            && (f == None || f == Some(name) <==> e.line <= 0)
            && (e.line > 0 ==> f == Some(name + ":" + Decimal(e.line)))
  {
    hide CStr, Decimal, Hex;
    var name := KindTag(e.kind) + chunk(CStr(e.name));
    if e.line > 0 {
      assert |name + ":" + Decimal(e.line)| > |name|;
    }
  }

  /** A Lua activation's frame renders without a line exactly when it is reported on line 0. */
  lemma RendersWithoutLineExactly(chunk: Namer, w: Walk, acts: seq<Activation>, frame: int, prev: Option<int>,
                                  above: Option<Link>, level: nat, n: nat)
    requires Laid(w.r, w.L, w.bot, acts, frame) && frame < w.maxstack
    requires AboveMatches(w.r, prev, above, acts)
    requires acts != [] && acts[0].Call? && acts[0].fn.LuaClosure? && n >= if acts[0].vararg > 0 then 2 else 1
    ensures var es := WalkFrom(w, w.r.u64, frame, prev, level, n);
            && es != []
            && var f := FormatLuaFrame(chunk, es[0]);
               var name := KindTag(es[0].kind) + chunk(ReportedName(acts[0].fn.proto.chunk));
               && (f == None || f == Some(name) <==> es[0].line == 0)
               && (es[0].line > 0 ==> f == Some(name + ":" + Decimal(es[0].line)))
  {
    TopEvent(w, acts, frame, prev, above, level, n);
    LineIsZeroExactly(w, acts, frame, prev, above, level, n);
    var es := WalkFrom(w, w.r.u64, frame, prev, level, n);
    LuaEventShape(w, acts[0], above, level);
    hide *;
    LineShowsExactly(chunk, es[0]);
  }

  lemma LuaEventShape(w: Walk, a: Activation, above: Option<Link>, level: nat)
    requires a.Call? && a.fn.LuaClosure? && ClosureInMemory(w.r, w.L, a.fn)
    ensures var e := ExpectedEvent(w.key, a, above, level, w.jit);
            && (e.kind == FUNC_TYPE_LUA || e.kind == FUNC_TYPE_JIT)
            && CStr(e.name) == ReportedName(a.fn.proto.chunk)
  {
    assert ProtoInMemory(w.r, a.fn.proto);
    CStrOfClean(ReportedName(a.fn.proto.chunk));
    hide CStr, ChargedLine;
  }

  /** A call in progress in a function without line information is charged to line 0, and its
      frame renders without any line: just the chunk name, or nothing for an empty one. */
  lemma StrippedCallRendersWithoutLine(chunk: Namer, w: Walk, acts: seq<Activation>, frame: int, prev: Option<int>,
                                       above: Option<Link>, level: nat, n: nat)
    requires Laid(w.r, w.L, w.bot, acts, frame) && frame < w.maxstack
    requires AboveMatches(w.r, prev, above, acts)
    requires above.Some? && !above.value.Delta? && n >= 1
    requires acts[0].vararg == 0 && acts[0].fn.proto.lines.None?
    ensures var es, name := WalkFrom(w, w.r.u64, frame, prev, level, n), ReportedName(acts[0].fn.proto.chunk);
            && es != [] && es[0].level == level && es[0].line == 0
            && var tag := if w.jit && level == 0 then "JIT:" else "L:";
               FormatLuaFrame(chunk, es[0]) == if chunk(name) == "" then None else Some(tag + chunk(name))
  {
    LaidUnfolds(w, acts, frame);
    assert acts[0].fn.proto.lines.None? ==> CallLine(acts[0].fn.proto, above.value.index) == 0;
    LineIsZeroExactly(w, acts, frame, prev, above, level, n);
    TopEvent(w, acts, frame, prev, above, level, n);
    LuaEventShape(w, acts[0], above, level);
    hide WalkFrom, Laid, CStr, Decimal, Hex, ClosureInMemory, AboveMatches, ChargedLine;
  }
}
