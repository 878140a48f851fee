/** The user-space aggregator: in-flight samples by key, and the counts they fold into. */
module Aggregator {
  import opened Machine
  import opened LuaWalk
  import opened Snapshot
  import opened Unwind
  import opened Kernel
  import opened Fold
  import opened Levels
  import opened Rendering

  /** What the aggregator calls but does not define: the frame iterator of the native
      unwinder (if one could be built), the symbolizer, and chunk-name rendering. */
  datatype Env = Env(unwinder: Option<Regs -> FrameIterator>, symbolize: U64 -> Option<string>,
                     chunk: Namer, includeNative: bool)

  datatype Stats = Stats(succeeded: nat, fallback: nat, truncated: nat, depthLimited: nat)

  datatype PendingState = PendingState(native: map<SampleKey, seq<U64>>, lua: map<SampleKey, seq<LuaEvent>>,
                                       stats: Stats)

  const Nothing := PendingState(map[], map[], Stats(0, 0, 0, 0))

  /** One callback of either perf buffer. */
  datatype Delivery = NativeArrives(native: NativeDelivery) | LuaArrives(event: LuaEvent)

  // ---- what a delivery does ---------------------------------------------------------

  /** The addresses kept for a sample: the unwinder's, or else the kernel's. */
  ghost function IpsOf(env: Env, s: NativeSample): seq<U64> {
    if env.unwinder.None? then s.fallbackIps
    else
      var a := Unwound(s, SnapshotSteps(env.unwinder.value, s));
      if a.ips.Some? then a.ips.value else s.fallbackIps
  }

  function Bit(b: bool): nat { if b then 1 else 0 }

  /** What one native sample adds to the statistics. */
  ghost function StatsOf(env: Env, s: NativeSample): Stats {
    if env.unwinder.None? then Stats(0, Bit(env.includeNative), 0, 0)
    else
      var a := Unwound(s, SnapshotSteps(env.unwinder.value, s));
      Stats(Bit(a.ips.Some?), Bit(a.ips.None?), Bit(a.truncated), Bit(a.depthLimited))
  }

  function AddStats(a: Stats, b: Stats): Stats {
    Stats(a.succeeded + b.succeeded, a.fallback + b.fallback,
          a.truncated + b.truncated, a.depthLimited + b.depthLimited)
  }

  function EventsFor(lua: map<SampleKey, seq<LuaEvent>>, k: SampleKey): seq<LuaEvent> {
    if k in lua then lua[k] else []
  }

  ghost function Deliver(env: Env, st: PendingState, d: Delivery): PendingState {
    match d
    case NativeArrives(n) =>
      st.(native := st.native[n.key := IpsOf(env, n.sample)], stats := AddStats(st.stats, StatsOf(env, n.sample)))
    case LuaArrives(e) => st.(lua := st.lua[e.key := EventsFor(st.lua, e.key) + [e]])
  }

  ghost function DeliverAll(env: Env, ds: seq<Delivery>): PendingState {
    if ds == [] then Nothing else Deliver(env, DeliverAll(env, ds[..|ds| - 1]), ds[|ds| - 1])
  }

  /** The calls that the unwinder makes for a sample: its iterator starts from the sample's
      registers, each under its own name, and reads the sample's stack. */
  function StepsFor(env: Env, s: NativeSample): nat -> IterStep
    requires env.unwinder.Some?
  {
    StepsOf(env.unwinder.value(Regs(s.ip, s.sp, s.fp, s.lr)), (a: U64) => ReadStackWord(s.sp, s.stack, a))
  }

  lemma SameSteps(env: Env, s: NativeSample, i: nat)
    requires env.unwinder.Some?
    ensures SnapshotSteps(env.unwinder.value, s)(i) == StepsFor(env, s)(i)
  {
    hide ReadStackWord;
    var iter := env.unwinder.value(Regs(s.ip, s.sp, s.fp, s.lr));
    SameReaders(iter, SnapshotReader(s), (a: U64) => ReadStackWord(s.sp, s.stack, a), i);
  }

  lemma SameReaders(iter: FrameIterator, r1: StackReader, r2: StackReader, i: nat)
    requires forall a :: r1(a) == r2(a)
    ensures StepAt(iter, r1, i) == StepAt(iter, r2, i)
  {
    forall j: nat | j <= i ensures AgreeOn(r1, r2, StepAt(iter, r1, j).asked) { }
    SameStep(iter, r1, r2, i);
  }

  /** The addresses kept: those of a successful attempt, and the kernel's own otherwise. An
      attempt succeeds exactly with an unwinder, a located sample with at least a word of stack,
      and an iterator whose first two calls yield frames; then its addresses are those of the
      frames, up to the first call that yields none or to 32. */
  lemma AddressesKept(env: Env, s: NativeSample)
    ensures var ips := IpsOf(env, s);
            var succeeds := && env.unwinder.Some? && s.ip != 0 && s.sp != 0 && |s.stack| >= 8
                            && StepsFor(env, s)(0).result.Frame? && StepsFor(env, s)(1).result.Frame?;
            && (!succeeds ==> ips == s.fallbackIps)
            && (succeeds ==>
                  && 2 <= |ips| <= MAX_IPS
                  && (forall i :: 0 <= i < |ips| ==> StepsFor(env, s)(i).result == Frame(ips[i]))
                  && (|ips| < MAX_IPS ==> !StepsFor(env, s)(|ips|).result.Frame?))
  {
    if env.unwinder.Some? {
      var steps := SnapshotSteps(env.unwinder.value, s);
      UnwoundIsOutcome(s, steps);
      hide Unwound, IsMade, AsksOutside, StepsFor, SnapshotSteps;
      forall i: nat ensures steps(i) == StepsFor(env, s)(i) { SameSteps(env, s, i); }
    }
  }

  // ---- statistics -------------------------------------------------------------------

  /** How many of the native events delivered have an attempt with a property. */
  ghost function CountOutcomes(env: Env, ds: seq<Delivery>, which: Attempt -> bool): nat
    requires env.unwinder.Some?
  {
    if ds == [] then 0
    else
      var before, d := CountOutcomes(env, ds[..|ds| - 1], which), ds[|ds| - 1];
      if !d.NativeArrives? then before
      else before + Bit(which(Unwound(d.native.sample, SnapshotSteps(env.unwinder.value, d.native.sample))))
  }

  /** Each statistic counts the attempts it is named after; without an unwinder everything
      falls back, as far as native stacks are collected at all. */
  lemma {:induction false} StatsCountOutcomes(env: Env, ds: seq<Delivery>)
    ensures var st := DeliverAll(env, ds).stats;
            if env.unwinder.Some? then
              && st.succeeded == CountOutcomes(env, ds, (a: Attempt) => a.ips.Some?)
              && st.fallback == CountOutcomes(env, ds, (a: Attempt) => a.ips.None?)
              && st.truncated == CountOutcomes(env, ds, (a: Attempt) => a.truncated)
              && st.depthLimited == CountOutcomes(env, ds, (a: Attempt) => a.depthLimited)
            else st == Stats(0, if env.includeNative then NativeArrivals(ds) else 0, 0, 0)
  {
    hide Unwound, SnapshotSteps, IpsOf;
    if ds != [] {
      StatsCountOutcomes(env, ds[..|ds| - 1]);
    }
  }

  // ---- what a sample folds to -------------------------------------------------------

  /** The symbolized native slots, root first; null addresses are dropped. */
  function NativeSlots(env: Env, ips: seq<U64>): seq<Option<string>> {
    if ips == [] then []
    else
      var rest := NativeSlots(env, ips[1..]);
      if ips[0] == 0 then rest else rest + [env.symbolize(ips[0])]
  }

  /** Deeper addresses come later in the list and earlier in the stack. */
  lemma {:induction false} SlotsReverse(env: Env, leaf: seq<U64>, root: seq<U64>)
    ensures NativeSlots(env, leaf + root) == NativeSlots(env, root) + NativeSlots(env, leaf)
  {
    if leaf == [] {
      assert leaf + root == root;
    } else {
      assert (leaf + root)[1..] == leaf[1..] + root;
      SlotsReverse(env, leaf[1..], root);
    }
  }

  /** Addresses without the null ones. */
  function NonNull(ips: seq<U64>): seq<U64> {
    if ips == [] then [] else (if ips[0] != 0 then [ips[0]] else []) + NonNull(ips[1..])
  }

  /** Every address that is not null becomes what the symbolizer says of it, root first. */
  lemma {:induction false} SlotsAreSymbols(env: Env, ips: seq<U64>)
    ensures var slots, kept := NativeSlots(env, ips), NonNull(ips);
            && |slots| == |kept|
            && forall i :: 0 <= i < |kept| ==> slots[i] == env.symbolize(kept[|kept| - 1 - i])
  {
    SlotsUnfold(env, ips);
    hide *;
    if ips != [] { SlotsAreSymbols(env, ips[1..]); }
  }

  lemma SlotsUnfold(env: Env, ips: seq<U64>)
    ensures ips == [] ==> NativeSlots(env, ips) == [] && NonNull(ips) == []
    ensures ips != [] ==>
              var slots, kept := NativeSlots(env, ips[1..]), NonNull(ips[1..]);
              && NativeSlots(env, ips) == (if ips[0] != 0 then slots + [env.symbolize(ips[0])] else slots)
              && NonNull(ips) == (if ips[0] != 0 then [ips[0]] + kept else kept)
  {
  }

  /** Null addresses contribute nothing wherever they stand. */
  lemma {:induction false} WithoutNull(ips: seq<U64>)
    ensures 0 !in NonNull(ips) && (0 !in ips ==> NonNull(ips) == ips)
    ensures forall a :: a != 0 ==> (a in NonNull(ips) <==> a in ips)
  {
    if ips != [] {
      WithoutNull(ips[1..]);
      assert ips == [ips[0]] + ips[1..];
    }
  }

  /** The names that the symbolizer finds for addresses listed leaf first, root first. */
  function NamesRootFirst(env: Env, ips: seq<U64>): seq<OutFrame> {
    if ips == [] then []
    else
      var s := env.symbolize(ips[0]);
      NamesRootFirst(env, ips[1..]) + if s.Some? then [NativeFrame(s.value)] else []
  }

  lemma {:induction false} NamedAppend(a: seq<Option<string>>, b: seq<Option<string>>)
    ensures Named(a + b) == Named(a) + Named(b)
  {
    if a == [] {
      assert a + b == b;
    } else {
      assert (a + b)[0] == a[0] && (a + b)[1..] == a[1..] + b;
      NamedAppend(a[1..], b);
    }
  }

  lemma {:induction false} NamedSlots(env: Env, ips: seq<U64>)
    ensures Named(NativeSlots(env, ips)) == NamesRootFirst(env, NonNull(ips))
  {
    if ips != [] {
      NamedSlots(env, ips[1..]);
      if ips[0] != 0 {
        var s := env.symbolize(ips[0]);
        NamedAppend(NativeSlots(env, ips[1..]), [s]);
        assert [s][1..] == [] && Named([]) == [];
        assert NonNull(ips)[0] == ips[0] && NonNull(ips)[1..] == NonNull(ips[1..]);
      } else {
        assert NonNull(ips) == NonNull(ips[1..]);
      }
    }
  }

  /** What a sample's fold is made of: frames whose native ones are the names found for its
      addresses, root first, if C stacks are asked for, and none otherwise; and whose Lua ones
      are its renderable events, root first. */
  ghost predicate IsFoldOf(env: Env, ips: seq<U64>, lua: seq<LuaEvent>, r: Option<string>) {
    exists fs: seq<OutFrame> ::
      && r == (if fs == [] then None else Some(Join(Texts(fs))))
      && NativesOf(fs) == (if env.includeNative then NamesRootFirst(env, NonNull(ips)) else [])
      && LuasOf(fs) == Formatted(env.chunk, SortByLevel(lua))
  }

  lemma BuildStackIsFold(env: Env, ips: seq<U64>, lua: seq<LuaEvent>)
    ensures IsFoldOf(env, ips, lua, BuildStack(env, ips, lua))
  {
    hide FormatLuaFrame, SortByLevel, Join, Texts, NativeSlots, NamesRootFirst;
    var es, slots := SortByLevel(lua), if env.includeNative then NativeSlots(env, ips) else [];
    var fs := Merge(env.chunk, slots, es, env.includeNative);
    if env.includeNative {
      MergeKeepsFrames(env.chunk, slots, es);
      NamedSlots(env, ips);
    } else {
      LuaOnlyIgnoresNatives(env.chunk, slots, es);
      FormattedProject(env.chunk, es);
    }
    hide Merge, NativesOf, LuasOf, Formatted, Named;
    assert BuildStack(env, ips, lua) == if fs == [] then None else Some(Join(Texts(fs)));
  }

  function BuildStack(env: Env, ips: seq<U64>, lua: seq<LuaEvent>): Option<string> {
    Folded(env.chunk, if env.includeNative then NativeSlots(env, ips) else [], lua, env.includeNative)
  }

  function StackOf(env: Env, native: map<SampleKey, seq<U64>>, lua: map<SampleKey, seq<LuaEvent>>,
                   k: SampleKey): Option<string>
    requires k in native
  {
    BuildStack(env, native[k], EventsFor(lua, k))
  }

  /** The folded stack, if any, of every sample with a native event. */
  function Stacks(env: Env, native: map<SampleKey, seq<U64>>, lua: map<SampleKey, seq<LuaEvent>>): map<SampleKey,
                  Option<string>> {
    map k | k in native :: StackOf(env, native, lua, k)
  }

  // ---- counting ---------------------------------------------------------------------

  ghost function KeysOfStack(stacks: map<SampleKey, Option<string>>, s: string): set<SampleKey> {
    set k | k in stacks && stacks[k] == Some(s)
  }

  /** Each stack with the number of samples that fold to it. */
  ghost function Tally(stacks: map<SampleKey, Option<string>>): map<string, nat> {
    map s | s in (set k | k in stacks && stacks[k].Some? :: stacks[k].value) :: |KeysOfStack(stacks, s)|
  }

  /** A stack is in the tally exactly when some sample folds to it. */
  lemma TallyOfStacks(stacks: map<SampleKey, Option<string>>)
    ensures forall s :: s in Tally(stacks) <==> KeysOfStack(stacks, s) != {}
    ensures forall s :: s in Tally(stacks) ==> Tally(stacks)[s] == |KeysOfStack(stacks, s)|
  {
    forall s ensures s in Tally(stacks) <==> KeysOfStack(stacks, s) != {} {
      if s in Tally(stacks) {
        var k :| k in stacks && stacks[k].Some? && stacks[k].value == s;
        assert k in KeysOfStack(stacks, s);
      }
      if KeysOfStack(stacks, s) != {} {
        var k :| k in KeysOfStack(stacks, s);
        assert stacks[k].value in Tally(stacks);
      }
    }
  }

  lemma TallyOfNone(stacks: map<SampleKey, Option<string>>, k: SampleKey)
    requires k !in stacks
    ensures Tally(stacks[k := None]) == Tally(stacks)
  {
    var more := stacks[k := None];
    forall s: string ensures KeysOfStack(more, s) == KeysOfStack(stacks, s) { }
    TallyOfStacks(stacks);
    TallyOfStacks(more);
    hide *;
    assert Tally(more) == Tally(stacks);
  }

  lemma KeysWithOneMore(stacks: map<SampleKey, Option<string>>, k: SampleKey, s: string)
    requires k !in stacks
    ensures k !in KeysOfStack(stacks, s) && KeysOfStack(stacks[k := Some(s)], s) == KeysOfStack(stacks, s) + {k}
    ensures forall t :: t != s ==> KeysOfStack(stacks[k := Some(s)], t) == KeysOfStack(stacks, t)
  {
  }

  lemma TallyOfSome(stacks: map<SampleKey, Option<string>>, k: SampleKey, s: string)
    requires k !in stacks
    ensures Tally(stacks[k := Some(s)]) == Tally(stacks)[s := (if s in Tally(stacks) then Tally(stacks)[s] else 0) + 1]
  {
    var more := stacks[k := Some(s)];
    hide *;
    TallyOfStacks(stacks);
    TallyOfStacks(more);
    KeysWithOneMore(stacks, k, s);
    assert Tally(more) == Tally(stacks)[s := (if s in Tally(stacks) then Tally(stacks)[s] else 0) + 1];
  }

  /** Counts one more sample. */
  function Counted(folded: map<string, nat>, stack: Option<string>): map<string, nat> {
    if stack.None? then folded
    else folded[stack.value := (if stack.value in folded then folded[stack.value] else 0) + 1]
  }

  lemma CountedTally(stacks: map<SampleKey, Option<string>>, k: SampleKey, v: Option<string>)
    requires k !in stacks
    ensures Tally(stacks[k := v]) == Counted(Tally(stacks), v)
  {
    hide Tally;
    if v.Some? { TallyOfSome(stacks, k, v.value); } else { TallyOfNone(stacks, k); }
  }

  // ---- the aggregator itself --------------------------------------------------------

  class Pending {
    var native: map<SampleKey, seq<U64>>
    var lua: map<SampleKey, seq<LuaEvent>>
    var folded: map<string, nat>
    var stats: Stats

    ghost function View(): PendingState
      reads this
    {
      PendingState(native, lua, stats)
    }

    constructor ()
      ensures View() == Nothing && folded == map[]
    {
      native, lua, folded, stats := map[], map[], map[], Stats(0, 0, 0, 0);
    }

    /** Keeps the unwound or fallback addresses of a native event under its key. */
    method HandleNative(env: Env, e: NativeEvent)
      requires WireShape(e)
      modifies this
      ensures View() == Deliver(env, old(View()), NativeArrives(NativeDelivery(e.key, FromEvent(e))))
      ensures folded == old(folded)
    {
      hide Unwound, SnapshotSteps, IsOutcome, FromEvent;
      var s := FromEvent(e);
      var ips := s.fallbackIps;
      if env.unwinder.Some? {
        var a := UnwindSample(s, SnapshotSteps(env.unwinder.value, s));
        if a.ips.Some? { ips := a.ips.value; }
        stats := Stats(stats.succeeded + Bit(a.ips.Some?), stats.fallback + Bit(a.ips.None?),
                       stats.truncated + Bit(a.truncated), stats.depthLimited + Bit(a.depthLimited));
      } else if env.includeNative {
        stats := stats.(fallback := stats.fallback + 1);
      }
      native := native[e.key := ips];
    }

    /** Queues a Lua event under its key. */
    method HandleLua(env: Env, e: LuaEvent)
      modifies this
      ensures View() == Deliver(env, old(View()), LuaArrives(e))
      ensures EventsFor(lua, e.key) == old(EventsFor(lua, e.key)) + [e]
      ensures forall k :: k != e.key ==> EventsFor(lua, k) == old(EventsFor(lua, k))
      ensures native == old(native) && stats == old(stats)
      ensures folded == old(folded)
    {
      lua := lua[e.key := EventsFor(lua, e.key) + [e]];
    }

    /** Folds every native sample with its Lua events, in whatever order the samples come
        out of the map, and hands the counts over. */
    method Finalize(env: Env) returns (counts: map<string, nat>)
      requires folded == map[]
      modifies this
      ensures counts == Tally(Stacks(env, old(native), old(lua)))
      ensures native == map[] && folded == map[] && stats == old(stats)
      ensures lua == old(lua) - old(native).Keys
    {
      hide *;
      ghost var native0, lua0 := native, lua;
      ghost var done: map<SampleKey, Option<string>> := map[];
      var pending := native;
      native := map[];
      EmptyTally();
      NothingDone(env, native0, lua0);
      while pending != map[]
        invariant native == map[] && stats == old(stats)
        invariant lua == lua0 - done.Keys && folded == Tally(done)
        invariant Folding(env, native0, lua0, pending, done)
        decreases |pending|
      {
        var k :| k in pending;
        var stack := FoldSample(env, pending[k], EventsFor(lua, k));
        OneMoreFolded(env, native0, lua0, pending, done, k, stack);
        CountedTally(done, k, stack);
        lua := lua - {k};
        folded := Counted(folded, stack);
        done := done[k := stack];
        pending := pending - {k};
      }
      AllFolded(env, native0, lua0, done);
      counts := folded;
      folded := map[];
    }
  }

  /** While samples are folded: the pending ones and the done ones are the samples there were,
      and each that is done has its stack. */
  ghost predicate Folding(env: Env, native: map<SampleKey, seq<U64>>, lua: map<SampleKey, seq<LuaEvent>>,
                          pending: map<SampleKey, seq<U64>>, done: map<SampleKey, Option<string>>) {
    && native.Keys == done.Keys + pending.Keys && done.Keys !! pending.Keys
    && (forall k :: k in pending ==> pending[k] == native[k])
    && (forall k :: k in done ==> done[k] == StackOf(env, native, lua, k))
  }

  lemma NothingDone(env: Env, native: map<SampleKey, seq<U64>>, lua: map<SampleKey, seq<LuaEvent>>)
    ensures var none: map<SampleKey, Option<string>> := map[];
            Folding(env, native, lua, native, none) && lua - none.Keys == lua
  {
  }

  lemma OneMoreFolded(env: Env, native: map<SampleKey, seq<U64>>, lua: map<SampleKey, seq<LuaEvent>>,
                      pending: map<SampleKey, seq<U64>>, done: map<SampleKey, Option<string>>, k: SampleKey,
                      stack: Option<string>)
    requires Folding(env, native, lua, pending, done) && k in pending
    requires stack == BuildStack(env, pending[k], EventsFor(lua - done.Keys, k))
    ensures k !in done && Folding(env, native, lua, pending - {k}, done[k := stack])
    ensures lua - done.Keys - {k} == lua - done[k := stack].Keys
  {
    hide BuildStack;
    assert stack == StackOf(env, native, lua, k);
    hide StackOf;
  }

  lemma AllFolded(env: Env, native: map<SampleKey, seq<U64>>, lua: map<SampleKey, seq<LuaEvent>>,
                  done: map<SampleKey, Option<string>>)
    requires Folding(env, native, lua, map[], done)
    ensures done.Keys == native.Keys && done == Stacks(env, native, lua)
  {
    hide BuildStack;
  }

  lemma EmptyTally()
    ensures Tally(map[]) == map[]
  {
  }

  /** Symbolizes one sample's addresses, root first, and folds it. */
  method FoldSample(env: Env, ips: seq<U64>, lua: seq<LuaEvent>) returns (r: Option<string>)
    ensures r == BuildStack(env, ips, lua) && IsFoldOf(env, ips, lua, r)
  {
    hide IsFoldOf;
    BuildStackIsFold(env, ips, lua);
    var slots: seq<Option<string>> := [];
    if env.includeNative {
      for i := |ips| downto 0
        invariant slots == NativeSlots(env, ips[i..])
      {
        if ips[i] != 0 {
          slots := slots + [env.symbolize(ips[i])];
        }
        assert ips[i..][1..] == ips[i + 1..];
      }
      assert ips[0..] == ips;
    }
    r := FoldSymbolizedStack(env.chunk, slots, lua, env.includeNative);
  }

  // ---- conservation -----------------------------------------------------------------

  ghost function Total(counts: map<string, nat>): nat {
    if counts == map[] then 0
    else
      var s :| s in counts;
      counts[s] + Total(counts - {s})
  }

  lemma {:induction false} TotalSplits(counts: map<string, nat>, s: string)
    requires s in counts
    ensures Total(counts) == counts[s] + Total(counts - {s})
    decreases |counts|
  {
    var t :| t in counts && Total(counts) == counts[t] + Total(counts - {t});
    if t != s {
      TotalSplits(counts - {t}, s);
      TotalSplits(counts - {s}, t);
      assert counts - {t} - {s} == counts - {s} - {t};
    }
  }

  lemma TotalOfIncrement(counts: map<string, nat>, s: string)
    ensures Total(counts[s := (if s in counts then counts[s] else 0) + 1]) == Total(counts) + 1
  {
    var more := counts[s := (if s in counts then counts[s] else 0) + 1];
    TotalSplits(more, s);
    assert more - {s} == counts - {s};
    if s in counts { TotalSplits(counts, s); } else { assert counts - {s} == counts; }
  }

  /** The folded counts sum to the number of samples that fold to anything at all. */
  lemma {:induction false} CountsAreConserved(stacks: map<SampleKey, Option<string>>)
    ensures Total(Tally(stacks)) == |FoldingKeys(stacks)|
    decreases |stacks|
  {
    if stacks == map[] {
      EmptyTally();
      assert FoldingKeys(stacks) == {};
    } else {
      var k :| k in stacks;
      var fewer := stacks - {k};
      assert stacks == fewer[k := stacks[k]];
      CountsAreConserved(fewer);
      FoldingKeysGrow(fewer, k, stacks[k]);
      hide FoldingKeys, Tally;
      if stacks[k].Some? {
        TallyOfSome(fewer, k, stacks[k].value);
        TotalOfIncrement(Tally(fewer), stacks[k].value);
      } else {
        TallyOfNone(fewer, k);
      }
    }
  }

  /** The samples that fold to anything at all. */
  ghost function FoldingKeys(stacks: map<SampleKey, Option<string>>): set<SampleKey> {
    set k | k in stacks && stacks[k].Some?
  }

  lemma FoldingKeysGrow(stacks: map<SampleKey, Option<string>>, k: SampleKey, v: Option<string>)
    requires k !in stacks
    ensures |FoldingKeys(stacks[k := v])| == |FoldingKeys(stacks)| + Bit(v.Some?)
  {
    assert FoldingKeys(stacks[k := v]) == FoldingKeys(stacks) + if v.Some? then {k} else {};
  }

  function NativeArrivals(ds: seq<Delivery>): nat {
    if ds == [] then 0 else NativeArrivals(ds[..|ds| - 1]) + Bit(ds[|ds| - 1].NativeArrives?)
  }

  /** In every reachable state each native event was either unwound or fell back (when native
      stacks are collected), and only unwound ones can have hit the depth limit. */
  lemma {:induction false} StatsAccountForSamples(env: Env, ds: seq<Delivery>)
    ensures var st := DeliverAll(env, ds).stats;
            && (env.includeNative || env.unwinder.Some? ==> st.succeeded + st.fallback == NativeArrivals(ds))
            && st.depthLimited <= st.succeeded
  {
    if ds != [] { StatsAccountForSamples(env, ds[..|ds| - 1]); }
  }
}
