/** Whole runs of the BPF programs: call depth, sample keys, and what the streams hold. */
module KernelRuns {
  import opened Machine
  import opened LuaWalk
  import opened Snapshot
  import opened Kernel

  /** Of a process the profiler is aimed at, or of any when it is aimed at none. */
  predicate Watched(c: Config, pid: U32) { c.targetPid.Some? ==> c.targetPid.value == pid }

  // ---- call depth -------------------------------------------------------------------

  /** The probed calls of a thread still open after a run. */
  function OpenCalls(c: Config, inputs: seq<Input>, tid: U32): int {
    if inputs == [] then 0
    else
      OpenCalls(c, inputs[..|inputs| - 1], tid)
      + match inputs[|inputs| - 1]
        case Enter(pid, t, _) => if t == tid && Watched(c, pid) then 1 else 0
        case Leave(pid, t) => if t == tid && Watched(c, pid) then -1 else 0
        case _ => 0
  }

  /** Every return of a probed call has a matching entry. */
  ghost predicate Bracketed(c: Config, inputs: seq<Input>, tid: U32) {
    forall n :: 0 <= n <= |inputs| ==> OpenCalls(c, inputs[..n], tid) >= 0
  }

  function Depth(states: map<U32, Slot>, tid: U32): nat { if tid in states then states[tid].depth else 0 }

  /** Every run keeps live slots at positive depth. */
  lemma {:induction false} SlotsAreLive(c: Config, inputs: seq<Input>)
    ensures forall t :: t in Run(c, inputs).states ==> 1 <= Run(c, inputs).states[t].depth <= DEPTH_LIMIT
  {
    if inputs != [] {
      SlotsAreLive(c, inputs[..|inputs| - 1]);
      RunUnfolds(c, inputs);
      hide Run;
      StepKeepsSlotsLive(Run(c, inputs[..|inputs| - 1]), c, inputs[|inputs| - 1]);
    }
  }

  lemma StepKeepsSlotsLive(st: KernelState, c: Config, i: Input)
    requires forall t :: t in st.states ==> 1 <= st.states[t].depth <= DEPTH_LIMIT
    ensures forall t :: t in After(st, c, i).states ==> 1 <= After(st, c, i).states[t].depth <= DEPTH_LIMIT
  {
  }

  lemma BracketedPrefix(c: Config, inputs: seq<Input>, tid: U32)
    requires inputs != [] && Bracketed(c, inputs, tid)
    ensures Bracketed(c, inputs[..|inputs| - 1], tid) && OpenCalls(c, inputs, tid) >= 0
  {
    var shorter := inputs[..|inputs| - 1];
    assert inputs[..|inputs|] == inputs;
    forall n | 0 <= n <= |shorter| ensures OpenCalls(c, shorter[..n], tid) >= 0 {
      assert shorter[..n] == inputs[..n];
    }
  }

  /** Over any run, with yields, refused map inserts and other threads interleaved, a
      thread's recorded depth never exceeds its open calls; once all have returned, no slot
      of the thread survives. */
  lemma {:induction false} DepthNeverExceedsOpenCalls(c: Config, inputs: seq<Input>, tid: U32)
    requires Bracketed(c, inputs, tid)
    ensures Depth(Run(c, inputs).states, tid) <= OpenCalls(c, inputs, tid)
    ensures OpenCalls(c, inputs, tid) == 0 ==> tid !in Run(c, inputs).states
  {
    SlotsAreLive(c, inputs);
    if inputs != [] {
      BracketedPrefix(c, inputs, tid);
      DepthNeverExceedsOpenCalls(c, inputs[..|inputs| - 1], tid);
    }
  }

  /** The threads that ever entered a probed call. */
  function EnteredTids(inputs: seq<Input>): set<U32> {
    set i | i in inputs && i.Enter? :: i.tid
  }

  /** No entry of the thread can be lost, forgotten or cut short: a state is passed, the map
      has room for every thread, at most DEPTH_LIMIT calls are open, and nothing yields. */
  ghost predicate Undisturbed(c: Config, inputs: seq<Input>, tid: U32) {
    && |EnteredTids(inputs)| <= MAX_ENTRIES
    && (forall i :: i in inputs && i.Enter? && i.tid == tid ==> i.L != 0)
    && (forall i :: i in inputs && i.YieldReturn? ==> i.tid != tid || !Watched(c, i.pid))
    && (forall n :: 0 <= n <= |inputs| ==> OpenCalls(c, inputs[..n], tid) <= DEPTH_LIMIT)
  }

  lemma {:induction false} StatesAreOfEntered(c: Config, inputs: seq<Input>)
    ensures Run(c, inputs).states.Keys <= EnteredTids(inputs)
  {
    if inputs != [] {
      StatesAreOfEntered(c, inputs[..|inputs| - 1]);
      assert EnteredTids(inputs[..|inputs| - 1]) <= EnteredTids(inputs);
      assert inputs[|inputs| - 1] in inputs;
    }
  }

  /** A bounded map takes an update of a thread it has room for. */
  lemma UpdateSucceeds<V>(m: map<U32, V>, tids: set<U32>, tid: U32, v: V)
    requires m.Keys <= tids && tid in tids && |tids| <= MAX_ENTRIES
    ensures MapUpdate(m, tid, v) == m[tid := v]
  {
    if tid !in m {
      SubsetSize(m.Keys, tids - {tid});
      assert |m| == |m.Keys|;
    }
  }

  lemma {:induction false} SubsetSize<T>(a: set<T>, b: set<T>)
    requires a <= b
    ensures |a| <= |b|
  {
    if a != {} {
      var x :| x in a;
      SubsetSize(a - {x}, b - {x});
    }
  }

  /** Entries that pass a state, minus all returns the handler sees, yields included. */
  function Net(c: Config, inputs: seq<Input>, tid: U32): int {
    if inputs == [] then 0
    else
      Net(c, inputs[..|inputs| - 1], tid)
      + match inputs[|inputs| - 1]
        case Perf(_) => 0
        case Enter(pid, t, L) => if t == tid && Watched(c, pid) && L != 0 then 1 else 0
        case Leave(pid, t) => if t == tid && Watched(c, pid) then -1 else 0
        case YieldReturn(pid, t) => if t == tid && Watched(c, pid) then -1 else 0
  }

  /** The lowest Net of any prefix: how far the returns ever outran the entries. */
  function Lowest(c: Config, inputs: seq<Input>, tid: U32): (low: int)
    ensures low <= 0 && low <= Net(c, inputs, tid)
  {
    if inputs == [] then 0 else Min(Lowest(c, inputs[..|inputs| - 1], tid), Net(c, inputs, tid))
  }

  /** The map has room for every thread, and no depth passes the limit. */
  ghost predicate Roomy(c: Config, inputs: seq<Input>, tid: U32) {
    && |EnteredTids(inputs)| <= MAX_ENTRIES
    && forall n :: 0 <= n <= |inputs| ==> Net(c, inputs[..n], tid) - Lowest(c, inputs[..n], tid) <= DEPTH_LIMIT
  }

  lemma RoomyPrefix(c: Config, inputs: seq<Input>, tid: U32)
    requires inputs != [] && Roomy(c, inputs, tid)
    ensures Roomy(c, inputs[..|inputs| - 1], tid)
    ensures Net(c, inputs, tid) - Lowest(c, inputs, tid) <= DEPTH_LIMIT
  {
    hide Net, Lowest;
    var shorter := inputs[..|inputs| - 1];
    assert inputs[..|inputs|] == inputs;
    SubsetSize(EnteredTids(shorter), EnteredTids(inputs));
    forall n | 0 <= n <= |shorter| ensures Net(c, shorter[..n], tid) - Lowest(c, shorter[..n], tid) <= DEPTH_LIMIT {
      assert shorter[..n] == inputs[..n];
    }
  }

  /** Main result on depth, over every run whatever its brackets, yields and null states: the
      recorded depth is how far Net stands above its lowest point so far. */
  lemma {:induction false} DepthIsNetAboveLowest(c: Config, inputs: seq<Input>, tid: U32)
    requires Roomy(c, inputs, tid)
    ensures Depth(Run(c, inputs).states, tid) == Net(c, inputs, tid) - Lowest(c, inputs, tid)
  {
    if inputs != [] {
      var before, last := inputs[..|inputs| - 1], inputs[|inputs| - 1];
      RoomyPrefix(c, inputs, tid);
      DepthIsNetAboveLowest(c, before, tid);
      SlotsAreLive(c, before);
      RunUnfolds(c, inputs);
      DepthStep(Run(c, before), c, last, tid);
      if last.Enter? && last.tid == tid { EntryIsRecorded(c, inputs, tid); }
      hide Roomy, Run, After, Depth;
    }
  }

  lemma RunUnfolds(c: Config, inputs: seq<Input>)
    requires inputs != []
    ensures Run(c, inputs) == After(Run(c, inputs[..|inputs| - 1]), c, inputs[|inputs| - 1])
  {
    hide After;
  }

  /** One program's effect on a thread's depth. */
  lemma DepthStep(st: KernelState, c: Config, i: Input, tid: U32)
    requires forall t :: t in st.states ==> 1 <= st.states[t].depth <= DEPTH_LIMIT
    ensures var d, d' := Depth(st.states, tid), Depth(After(st, c, i).states, tid);
            match i
            case Perf(_) => d' == d
            case Enter(pid, t, L) =>
              if t == tid && Watched(c, pid) && L != 0 then
                (forall slot :: MapUpdate(st.states, tid, slot) == st.states[tid := slot])
                ==> d' == if d < DEPTH_LIMIT then d + 1 else 1
              else d' == d
            case Leave(pid, t) => d' == if t == tid && Watched(c, pid) then Max(d - 1, 0) else d
            case YieldReturn(pid, t) => d' == if t == tid && Watched(c, pid) then Max(d - 1, 0) else d
  {
    hide AfterPerf;
    if i.Enter? && i.tid != tid { UpdateOfOther(st.states, i.tid, tid); }
    if i.Perf? { PerfKeepsStates(st, c, i.sample); }
  }

  lemma UpdateOfOther(states: map<U32, Slot>, tid: U32, other: U32)
    requires tid != other
    ensures forall slot :: Depth(MapUpdate(states, tid, slot), other) == Depth(states, other)
  {
  }

  lemma PerfKeepsStates(st: KernelState, c: Config, s: Sample)
    ensures AfterPerf(st, c, s).states == st.states
  {
    hide KeyOf, NativeOf, LuaOf, MapUpdate;
  }

  /** With room in the map, the slot of a thread's last entry is written. */
  lemma EntryIsRecorded(c: Config, inputs: seq<Input>, tid: U32)
    requires inputs != [] && |EnteredTids(inputs)| <= MAX_ENTRIES
    requires inputs[|inputs| - 1].Enter? && inputs[|inputs| - 1].tid == tid
    ensures var st := Run(c, inputs[..|inputs| - 1]).states;
            forall slot :: MapUpdate(st, tid, slot) == st[tid := slot]
  {
    var before, last := inputs[..|inputs| - 1], inputs[|inputs| - 1];
    StatesAreOfEntered(c, before);
    assert last in inputs && EnteredTids(before) <= EnteredTids(inputs);
    var st := Run(c, before).states;
    hide Run, EnteredTids;
    forall slot ensures MapUpdate(st, tid, slot) == st[tid := slot] {
      UpdateSucceeds(st, EnteredTids(inputs), tid, slot);
    }
  }

  /** The open calls Net does not know of: yields, and entries without a state. */
  function Lost(c: Config, inputs: seq<Input>, tid: U32): nat {
    if inputs == [] then 0
    else
      Lost(c, inputs[..|inputs| - 1], tid)
      + match inputs[|inputs| - 1]
        case Enter(pid, t, L) => if t == tid && Watched(c, pid) && L == 0 then 1 else 0
        case YieldReturn(pid, t) => if t == tid && Watched(c, pid) then 1 else 0
        case _ => 0
  }

  lemma {:induction false} OpenIsNetAndLost(c: Config, inputs: seq<Input>, tid: U32)
    ensures OpenCalls(c, inputs, tid) == Net(c, inputs, tid) + Lost(c, inputs, tid)
  {
    if inputs != [] { OpenIsNetAndLost(c, inputs[..|inputs| - 1], tid); }
  }

  /** Over every run, recorded depth equals the open calls exactly when as many calls were
      lost, to yields and null states, as the returns outran the entries. */
  lemma DepthIsOpenCallsExactly(c: Config, inputs: seq<Input>, tid: U32)
    requires Roomy(c, inputs, tid)
    ensures Depth(Run(c, inputs).states, tid) == OpenCalls(c, inputs, tid)
            <==> Lost(c, inputs, tid) == -Lowest(c, inputs, tid)
  {
    DepthIsNetAboveLowest(c, inputs, tid);
    OpenIsNetAndLost(c, inputs, tid);
    hide *;
  }

  /** Over every run, the slot is gone exactly when Net is at its lowest; it is gone while
      calls are open exactly when calls were lost beyond that point. */
  lemma SlotIsGoneExactly(c: Config, inputs: seq<Input>, tid: U32)
    requires Roomy(c, inputs, tid)
    ensures tid !in Run(c, inputs).states <==> Net(c, inputs, tid) == Lowest(c, inputs, tid)
    ensures tid !in Run(c, inputs).states && OpenCalls(c, inputs, tid) > 0
            <==> Net(c, inputs, tid) == Lowest(c, inputs, tid) && Lost(c, inputs, tid) > -Lowest(c, inputs, tid)
  {
    DepthIsNetAboveLowest(c, inputs, tid);
    OpenIsNetAndLost(c, inputs, tid);
    SlotsAreLive(c, inputs);
    hide Run, Net, Lowest, OpenCalls, Lost;
  }

  /** Without yields and null states Net is the open calls; bracketed, it never falls below 0. */
  lemma {:induction false} NothingLost(c: Config, inputs: seq<Input>, tid: U32)
    requires Bracketed(c, inputs, tid)
    requires forall i :: i in inputs && i.Enter? && i.tid == tid ==> i.L != 0
    requires forall i :: i in inputs && i.YieldReturn? ==> i.tid != tid || !Watched(c, i.pid)
    ensures Net(c, inputs, tid) == OpenCalls(c, inputs, tid) && Lowest(c, inputs, tid) == 0
  {
    if inputs != [] {
      BracketedPrefix(c, inputs, tid);
      assert inputs[|inputs| - 1] in inputs;
      NothingLost(c, inputs[..|inputs| - 1], tid);
    }
  }

  lemma BracketedShorter(c: Config, inputs: seq<Input>, tid: U32, n: nat)
    requires Bracketed(c, inputs, tid) && n <= |inputs|
    ensures Bracketed(c, inputs[..n], tid)
  {
    forall k | 0 <= k <= n ensures OpenCalls(c, inputs[..n][..k], tid) >= 0 { assert inputs[..n][..k] == inputs[..k]; }
  }

  /** Undisturbed, the recorded depth is the number of open calls. */
  lemma DepthIsOpenCalls(c: Config, inputs: seq<Input>, tid: U32)
    requires Bracketed(c, inputs, tid) && Undisturbed(c, inputs, tid)
    ensures Depth(Run(c, inputs).states, tid) == OpenCalls(c, inputs, tid)
  {
    forall n | 0 <= n <= |inputs|
      ensures Net(c, inputs[..n], tid) - Lowest(c, inputs[..n], tid) == OpenCalls(c, inputs[..n], tid)
    {
      BracketedShorter(c, inputs, tid, n);
      NothingLost(c, inputs[..n], tid);
    }
    assert inputs[..|inputs|] == inputs;
    hide Net, Lowest, OpenCalls, EnteredTids;
    DepthIsNetAboveLowest(c, inputs, tid);
  }

  /** A yield drops the slot exactly when it is the thread's last recorded level; above that
      it counts one level down and keeps the state. */
  lemma YieldDropsExactly(st: KernelState, c: Config, pid: U32, tid: U32)
    requires Watched(c, pid)
    ensures var after := After(st, c, YieldReturn(pid, tid)).states;
            && (tid !in after <==> tid !in st.states || st.states[tid].depth <= 1)
            && (tid in after ==> after[tid] == Slot(st.states[tid].ptr, st.states[tid].depth - 1))
  {
  }

  /** A resumed thread that yields at once has lost its slot with its call still open. */
  lemma YieldInFirstCallLosesSlot(c: Config, pid: U32, tid: U32, L: U64)
    requires Watched(c, pid) && L != 0
    ensures var inputs := [Enter(pid, tid, L), YieldReturn(pid, tid)];
            tid !in Run(c, inputs).states && OpenCalls(c, inputs, tid) == 1
  {
    var inputs := [Enter(pid, tid, L), YieldReturn(pid, tid)];
    assert inputs[..1] == [Enter(pid, tid, L)] && inputs[..1][..0] == [];
    assert Run(c, inputs[..1]) == After(Initial, c, inputs[0]);
    assert Run(c, inputs) == After(Run(c, inputs[..1]), c, inputs[1]);
    assert OpenCalls(c, inputs[..1], tid) == 1;
  }

  /** From an exact state, a yield makes the depth too small exactly when it is inside an
      open call. */
  lemma YieldLosesExactly(c: Config, inputs: seq<Input>, tid: U32, pid: U32)
    requires Bracketed(c, inputs, tid) && Watched(c, pid)
    requires Depth(Run(c, inputs).states, tid) == OpenCalls(c, inputs, tid)
    ensures var next := inputs + [YieldReturn(pid, tid)];
            (Depth(Run(c, next).states, tid) == OpenCalls(c, next, tid) <==> OpenCalls(c, inputs, tid) == 0)
  {
    SlotsAreLive(c, inputs);
    assert (inputs + [YieldReturn(pid, tid)])[..|inputs|] == inputs;
  }

  /** No program run touches another thread's slot. */
  lemma OtherThreadsUntouched(st: KernelState, c: Config, i: Input, other: U32)
    requires i.Perf? || i.tid != other
    ensures other in After(st, c, i).states <==> other in st.states
    ensures other in st.states ==> After(st, c, i).states[other] == st.states[other]
  {
  }

  // ---- which state is recorded ------------------------------------------------------

  /** The state of the thread's last probed entry that passed one. */
  function LastEntered(c: Config, inputs: seq<Input>, tid: U32): Option<U64> {
    if inputs == [] then None
    else
      var last := inputs[|inputs| - 1];
      if last.Enter? && last.tid == tid && Watched(c, last.pid) && last.L != 0 then Some(last.L)
      else LastEntered(c, inputs[..|inputs| - 1], tid)
  }

  /** The states of the thread's open calls, innermost first. */
  function OpenStates(c: Config, inputs: seq<Input>, tid: U32): seq<U64> {
    if inputs == [] then []
    else
      var before := OpenStates(c, inputs[..|inputs| - 1], tid);
      match inputs[|inputs| - 1]
      case Enter(pid, t, L) => if t == tid && Watched(c, pid) then [L] + before else before
      case Leave(pid, t) => if t == tid && Watched(c, pid) && before != [] then before[1..] else before
      case _ => before
  }

  lemma {:induction false} OpenStatesAreOpenCalls(c: Config, inputs: seq<Input>, tid: U32)
    requires Bracketed(c, inputs, tid)
    ensures |OpenStates(c, inputs, tid)| == OpenCalls(c, inputs, tid)
  {
    if inputs != [] {
      BracketedPrefix(c, inputs, tid);
      OpenStatesAreOpenCalls(c, inputs[..|inputs| - 1], tid);
    }
  }

  /** One program's effect on the state a thread's slot holds. */
  lemma PointerStep(st: KernelState, c: Config, i: Input, tid: U32)
    ensures var after := After(st, c, i).states;
            tid in after ==>
              if i.Enter? && i.tid == tid && Watched(c, i.pid) && i.L != 0 then after[tid].ptr == i.L
              else tid in st.states && after[tid].ptr == st.states[tid].ptr
  {
    hide AfterPerf;
    if i.Perf? { PerfKeepsStates(st, c, i.sample); }
  }

  lemma LastEnteredUnfolds(c: Config, inputs: seq<Input>, tid: U32)
    requires inputs != []
    ensures var last := inputs[|inputs| - 1];
            LastEntered(c, inputs, tid)
            == if last.Enter? && last.tid == tid && Watched(c, last.pid) && last.L != 0 then Some(last.L)
               else LastEntered(c, inputs[..|inputs| - 1], tid)
  {
  }

  lemma NothingRecorded(c: Config)
    ensures Run(c, []).states == map[]
  {
  }

  /** Over every run without exception, a thread's slot holds the state last entered. */
  lemma {:induction false} SlotHoldsLastEntered(c: Config, inputs: seq<Input>, tid: U32)
    ensures tid in Run(c, inputs).states ==> LastEntered(c, inputs, tid) == Some(Run(c, inputs).states[tid].ptr)
  {
    hide *;
    if inputs == [] {
      NothingRecorded(c);
    } else {
      var before, last := inputs[..|inputs| - 1], inputs[|inputs| - 1];
      SlotHoldsLastEntered(c, before, tid);
      RunUnfolds(c, inputs);
      LastEnteredUnfolds(c, inputs, tid);
      PointerStep(Run(c, before), c, last, tid);
    }
  }

  /** So the slot holds the state of the innermost open call exactly when that is the state last
      entered; a call made from it on another state leaves that other state behind. */
  lemma InnermostIsRecordedExactly(c: Config, inputs: seq<Input>, tid: U32)
    requires tid in Run(c, inputs).states && OpenStates(c, inputs, tid) != []
    ensures var innermost := OpenStates(c, inputs, tid)[0];
            Run(c, inputs).states[tid].ptr == innermost <==> LastEntered(c, inputs, tid) == Some(innermost)
  {
    SlotHoldsLastEntered(c, inputs, tid);
    hide *;
  }

  function SlotOf(states: map<U32, Slot>, tid: U32): Option<Slot> {
    if tid in states then Some(states[tid]) else None
  }

  /** Main result on the slot: over every run with room it is absent at Net's lowest point, and
      otherwise holds the state last entered at Net's height above that point. */
  lemma SlotIsExactly(c: Config, inputs: seq<Input>, tid: U32)
    requires Roomy(c, inputs, tid)
    ensures var depth, last := Net(c, inputs, tid) - Lowest(c, inputs, tid), LastEntered(c, inputs, tid);
            && (depth > 0 ==> last.Some?)
            && SlotOf(Run(c, inputs).states, tid) == if depth == 0 then None else Some(Slot(last.value, depth))
  {
    hide *;
    DepthIsNetAboveLowest(c, inputs, tid);
    SlotHoldsLastEntered(c, inputs, tid);
    SlotsAreLive(c, inputs);
    SlotOfDepth(Run(c, inputs).states, tid);
  }

  lemma SlotOfDepth(states: map<U32, Slot>, tid: U32)
    requires forall t :: t in states ==> 1 <= states[t].depth <= DEPTH_LIMIT
    ensures tid in states <==> Depth(states, tid) > 0
    ensures SlotOf(states, tid) == if tid in states then Some(Slot(states[tid].ptr, Depth(states, tid))) else None
  {
  }

  lemma RoomyShorter(c: Config, inputs: seq<Input>, tid: U32, n: nat)
    requires Roomy(c, inputs, tid) && n <= |inputs|
    ensures Roomy(c, inputs[..n], tid)
  {
    hide Net, Lowest;
    SubsetSize(EnteredTids(inputs[..n]), EnteredTids(inputs));
    forall k | 0 <= k <= n
      ensures Net(c, inputs[..n][..k], tid) - Lowest(c, inputs[..n][..k], tid) <= DEPTH_LIMIT
    {
      assert inputs[..n][..k] == inputs[..k];
    }
  }

  /** Whether a stretch of a run, say a nested call with anything inside, leaves the slot as it
      found it: exactly when Net stands as far above its lowest point as before and, unless
      that is no distance at all, the state last entered is the same. */
  lemma StretchRestoresExactly(c: Config, inputs: seq<Input>, n: nat, tid: U32)
    requires Roomy(c, inputs, tid) && n <= |inputs|
    ensures var depth := Net(c, inputs, tid) - Lowest(c, inputs, tid);
            SlotOf(Run(c, inputs).states, tid) == SlotOf(Run(c, inputs[..n]).states, tid)
            <==> depth == Net(c, inputs[..n], tid) - Lowest(c, inputs[..n], tid)
                 && (depth == 0 || LastEntered(c, inputs, tid) == LastEntered(c, inputs[..n], tid))
  {
    hide *;
    RoomyShorter(c, inputs, tid, n);
    SlotIsExactly(c, inputs, tid);
    SlotIsExactly(c, inputs[..n], tid);
  }

  /** An inner call on another state, once it has returned, leaves its own state recorded while
      the outer call is open. */
  lemma InnerCallLeavesItsState(c: Config, pid: U32, tid: U32, L: U64, M: U64)
    requires Watched(c, pid) && L != 0 && M != 0 && L != M
    ensures var inputs := [Enter(pid, tid, L), Enter(pid, tid, M), Leave(pid, tid)];
            OpenStates(c, inputs, tid) == [L] && Run(c, inputs).states == map[tid := Slot(M, 1)]
  {
    var inputs := [Enter(pid, tid, L), Enter(pid, tid, M), Leave(pid, tid)];
    var one, two := inputs[..1], inputs[..2];
    assert one == [inputs[0]] && one[..0] == [] && two[..1] == one && inputs[..2] == two;
    assert OpenStates(c, one, tid) == [L] && OpenStates(c, two, tid) == [M, L];
    assert Run(c, one).states == map[tid := Slot(L, 1)];
    assert Run(c, two).states == map[tid := Slot(M, 2)];
  }

  /** For an entry and the return right after it no room is needed: they restore the slot
      exactly when the call ran on the recorded state below the depth limit, where an entry
      starts counting afresh. */
  lemma NestedCallRestores(states: map<U32, Slot>, c: Config, pid: U32, tid: U32, L: U64)
    requires Watched(c, pid) && L != 0
    requires tid in states ==> 1 <= states[tid].depth <= DEPTH_LIMIT
    ensures var after := AfterReturn(AfterEnter(states, c, pid, tid, L), c, pid, tid);
            after == states <==> tid !in states || (states[tid].ptr == L && states[tid].depth < DEPTH_LIMIT)
  {
    var entered := AfterEnter(states, c, pid, tid, L);
    var after := AfterReturn(entered, c, pid, tid);
    if tid !in states {
      assert after == states;
    } else if states[tid].depth < DEPTH_LIMIT {
      assert after[tid] == Slot(L, states[tid].depth);
      if states[tid].ptr == L { assert after == states; }
    } else {
      assert tid !in after;
    }
  }

  // ---- samples and their keys -------------------------------------------------------

  /** An accepted sample, with the key it was given and the states it was walked through. */
  datatype Taken = Taken(key: SampleKey, sample: Sample, states: map<U32, Slot>)

  /** The sample, if any, that one program run takes. */
  function TakenBy(c: Config, st: KernelState, i: Input): seq<Taken> {
    if i.Perf? && Accepts(c, i.sample) then [Taken(KeyOf(st, i.sample), i.sample, st.states)] else []
  }

  function TakenSamples(c: Config, inputs: seq<Input>): seq<Taken>
  {
    if inputs == [] then []
    else
      var before, last := inputs[..|inputs| - 1], inputs[|inputs| - 1];
      TakenSamples(c, before) + TakenBy(c, Run(c, before), last)
  }

  /** The timer interrupts of a run that satisfy a condition, in order. */
  function Interrupts(inputs: seq<Input>, keep: Sample -> bool): seq<Sample> {
    if inputs == [] then []
    else
      var last := inputs[|inputs| - 1];
      Interrupts(inputs[..|inputs| - 1], keep) + if last.Perf? && keep(last.sample) then [last.sample] else []
  }

  function SamplesOf(ts: seq<Taken>): (ss: seq<Sample>)
    ensures |ss| == |ts|
  {
    seq(|ts|, i requires 0 <= i < |ts| => ts[i].sample)
  }

  /** What the profiler is asked to sample: the idle thread only on demand, and within a process
      and a thread if those are given. */
  function Wanted(c: Config): Sample -> bool {
    (s: Sample) =>
      && (s.tid == 0 ==> c.includeIdle)
      && (c.targetPid.Some? ==> s.pid == c.targetPid.value)
      && (c.targetTid.Some? ==> s.tid == c.targetTid.value)
  }

  lemma WantedIsTaken(c: Config, st: KernelState, i: Input)
    ensures SamplesOf(TakenBy(c, st, i)) == if i.Perf? && Wanted(c)(i.sample) then [i.sample] else []
  {
    hide KeyOf;
  }

  lemma SamplesAppend(a: seq<Taken>, b: seq<Taken>)
    ensures SamplesOf(a + b) == SamplesOf(a) + SamplesOf(b)
  {
  }

  /** Over every run, the samples taken are exactly the interrupts asked for, in order. */
  lemma {:induction false} WantedAreTaken(c: Config, inputs: seq<Input>)
    ensures SamplesOf(TakenSamples(c, inputs)) == Interrupts(inputs, Wanted(c))
  {
    hide Run, TakenBy, SamplesOf, Wanted;
    if inputs == [] {
      assert TakenSamples(c, inputs) == [];
    } else {
      var before, last := inputs[..|inputs| - 1], inputs[|inputs| - 1];
      WantedAreTaken(c, before);
      WantedIsTaken(c, Run(c, before), last);
      SamplesAppend(TakenSamples(c, before), TakenBy(c, Run(c, before), last));
    }
  }

  /** The command line's configuration: every interrupt of a thread of the target, and no other. */
  lemma TargetIsSampled(c: Config, inputs: seq<Input>, pid: U32)
    requires c.targetPid == Some(pid) && c.targetTid == None && !c.includeIdle
    ensures SamplesOf(TakenSamples(c, inputs)) == Interrupts(inputs, (s: Sample) => s.pid == pid && s.tid != 0)
  {
    WantedAreTaken(c, inputs);
    hide TakenSamples;
    SameInterrupts(inputs, Wanted(c), (s: Sample) => s.pid == pid && s.tid != 0);
  }

  lemma {:induction false} SameInterrupts(inputs: seq<Input>, f: Sample -> bool, g: Sample -> bool)
    requires forall s :: f(s) == g(s)
    ensures Interrupts(inputs, f) == Interrupts(inputs, g)
  {
    if inputs != [] { SameInterrupts(inputs[..|inputs| - 1], f, g); }
  }

  function Count(ts: seq<Taken>, tid: U32): nat {
    if ts == [] then 0
    else Count(ts[..|ts| - 1], tid) + if ts[|ts| - 1].key.tid == tid then 1 else 0
  }

  lemma CountAppend(ts: seq<Taken>, t: Taken, tid: U32)
    ensures Count(ts + [t], tid) == Count(ts, tid) + if t.key.tid == tid then 1 else 0
  {
    assert (ts + [t])[..|ts|] == ts;
  }

  lemma {:induction false} CountMonotone(ts: seq<Taken>, tid: U32, i: nat, j: nat)
    requires i <= j <= |ts|
    ensures Count(ts[..i], tid) <= Count(ts[..j], tid)
    ensures i < j && ts[j - 1].key.tid == tid ==> Count(ts[..i], tid) < Count(ts[..j], tid)
    decreases j
  {
    if i < j {
      CountMonotone(ts, tid, i, j - 1);
      assert ts[..j] == ts[..j - 1] + [ts[j - 1]];
      CountAppend(ts[..j - 1], ts[j - 1], tid);
    }
  }

  /** The 32-bit number of a tracked thread's k-th sample. */
  function NumberOfKth(k: nat): U32 { k % TWO32 }

  lemma NumberSuccessor(k: nat)
    ensures (NumberOfKth(k) + 1) % TWO32 == NumberOfKth(k + 1) && NumberOfKth(1) == 1
  {
  }

  ghost predicate CountsTracked(ts: seq<Taken>, seqs: map<U32, U32>) {
    forall t :: t in seqs ==> seqs[t] == NumberOfKth(Count(ts, t)) && Count(ts, t) > 0
  }

  ghost predicate OthersRefused(ts: seq<Taken>, seqs: map<U32, U32>) {
    forall t: U32 :: t !in seqs && Count(ts, t) > 0 ==> |seqs| >= MAX_ENTRIES
  }

  ghost predicate NumberedAt(ts: seq<Taken>, seqs: map<U32, U32>, i: nat)
    requires i < |ts|
  {
    var k := ts[i].key;
    k.seqno == if k.tid in seqs then NumberOfKth(Count(ts[..i + 1], k.tid)) else 1
  }

  /** A tracked thread's samples are numbered consecutively from 1, modulo 2^32; a thread
      the full map refused is numbered 1 every time. */
  ghost predicate Numbered(ts: seq<Taken>, seqs: map<U32, U32>) {
    CountsTracked(ts, seqs) && OthersRefused(ts, seqs) && forall i :: 0 <= i < |ts| ==> NumberedAt(ts, seqs, i)
  }

  /** Taking one more sample keeps every earlier number right. */
  lemma EarlierNumbersKept(ts: seq<Taken>, seqs: map<U32, U32>, t: Taken, i: nat)
    requires Numbered(ts, seqs) && i < |ts|
    ensures NumberedAt(ts + [t], MapUpdate(seqs, t.key.tid, t.key.seqno), i)
  {
    assert NumberedAt(ts, seqs, i);
    assert (ts + [t])[..i + 1] == ts[..i + 1];
    var tid := ts[i].key.tid;
    if tid !in seqs {
      CountMonotone(ts, tid, 0, i);
      CountMonotone(ts, tid, i, i + 1);
      CountMonotone(ts, tid, i + 1, |ts|);
      assert ts[..|ts|] == ts;
      assert Count(ts, tid) > 0;
    }
  }

  lemma NewNumberRight(ts: seq<Taken>, seqs: map<U32, U32>, t: Taken)
    requires CountsTracked(ts, seqs) && OthersRefused(ts, seqs) && t.key.seqno == NextSeqOf(seqs, t.key.tid)
    ensures var after := MapUpdate(seqs, t.key.tid, t.key.seqno);
            NumberedAt(ts + [t], after, |ts|) && CountsTracked(ts + [t], after) && OthersRefused(ts + [t], after)
  {
    var tid, longer := t.key.tid, ts + [t];
    forall u: U32 ensures Count(longer, u) == Count(ts, u) + if tid == u then 1 else 0 {
      CountAppend(ts, t, u);
    }
    assert longer[..|ts| + 1] == longer;
    NumberSuccessor(Count(ts, tid));
    hide Count, NumberOfKth;
  }

  lemma NumberedStep(ts: seq<Taken>, seqs: map<U32, U32>, t: Taken)
    requires Numbered(ts, seqs) && t.key.seqno == NextSeqOf(seqs, t.key.tid)
    ensures Numbered(ts + [t], MapUpdate(seqs, t.key.tid, t.key.seqno))
  {
    hide Count, NumberedAt, CountsTracked, OthersRefused, MapUpdate, NextSeqOf;
    NewNumberRight(ts, seqs, t);
    forall i | 0 <= i < |ts| ensures NumberedAt(ts + [t], MapUpdate(seqs, t.key.tid, t.key.seqno), i) {
      EarlierNumbersKept(ts, seqs, t, i);
    }
  }

  lemma {:induction false} RunNumbersSamples(c: Config, inputs: seq<Input>)
    ensures Numbered(TakenSamples(c, inputs), Run(c, inputs).seqs)
  {
    if inputs != [] {
      var before, last := inputs[..|inputs| - 1], inputs[|inputs| - 1];
      RunNumbersSamples(c, before);
      if last.Perf? && Accepts(c, last.sample) {
        var st := Run(c, before);
        NumberedStep(TakenSamples(c, before), st.seqs, Taken(KeyOf(st, last.sample), last.sample, st.states));
      } else {
        assert TakenSamples(c, inputs) == TakenSamples(c, before);
      }
    }
  }

  ghost predicate DistinctKeys(ts: seq<Taken>) {
    forall i, j :: 0 <= i < j < |ts| ==> ts[i].key != ts[j].key
  }

  /** The samples of each thread fit the numbering that the map keeps for it. */
  ghost predicate MapNumbersFit(ts: seq<Taken>, seqs: map<U32, U32>) {
    forall t: U32 :: Count(ts, t) <= if t in seqs then TWO32 else 1
  }

  lemma CongruentCounts(a: nat, b: nat)
    requires 1 <= a < b <= TWO32
    ensures NumberOfKth(a) != NumberOfKth(b)
  {
  }

  lemma FittingIsDistinct(ts: seq<Taken>, seqs: map<U32, U32>)
    requires Numbered(ts, seqs) && MapNumbersFit(ts, seqs)
    ensures DistinctKeys(ts)
  {
    forall i, j | 0 <= i < j < |ts| ensures ts[i].key != ts[j].key {
      if ts[i].key.tid == ts[j].key.tid {
        var t := ts[i].key.tid;
        CountMonotone(ts, t, 0, i + 1);
        CountMonotone(ts, t, i + 1, j + 1);
        CountMonotone(ts, t, j + 1, |ts|);
        assert ts[..|ts|] == ts;
        assert Count(ts, t) >= 2;
        assert NumberedAt(ts, seqs, i) && NumberedAt(ts, seqs, j);
        hide Numbered, NumberOfKth;
        CongruentCounts(Count(ts[..i + 1], t), Count(ts[..j + 1], t));
      }
    }
  }

  /** Every number up to a thread's count is reached by one of its samples. */
  lemma {:induction false} Occurrence(ts: seq<Taken>, tid: U32, k: nat) returns (i: nat)
    requires 1 <= k <= Count(ts, tid)
    ensures i < |ts| && ts[i].key.tid == tid && Count(ts[..i + 1], tid) == k
  {
    var before := ts[..|ts| - 1];
    if k <= Count(before, tid) {
      i := Occurrence(before, tid, k);
      assert ts[..i + 1] == before[..i + 1];
    } else {
      i := |ts| - 1;
      assert ts[..i + 1] == ts;
    }
  }

  lemma OverflowRepeatsKey(ts: seq<Taken>, seqs: map<U32, U32>, t: U32, pid: U32)
    requires Numbered(ts, seqs) && Count(ts, t) > if t in seqs then TWO32 else 1
    requires forall i :: 0 <= i < |ts| ==> ts[i].key.pid == pid
    ensures !DistinctKeys(ts)
  {
    var i := Occurrence(ts, t, 1);
    var j := Occurrence(ts, t, if t in seqs then TWO32 + 1 else 2);
    assert NumberedAt(ts, seqs, i) && NumberedAt(ts, seqs, j);
    assert NumberOfKth(1) == NumberOfKth(TWO32 + 1);
    hide Numbered, Count, NumberOfKth;
    assert i != j;
    assert ts[i].key == ts[j].key;
  }

  lemma {:induction false} TakenFromTarget(c: Config, inputs: seq<Input>, pid: U32)
    requires c.targetPid == Some(pid)
    ensures forall i :: 0 <= i < |TakenSamples(c, inputs)| ==> TakenSamples(c, inputs)[i].key.pid == pid
  {
    if inputs != [] { TakenFromTarget(c, inputs[..|inputs| - 1], pid); }
  }

  /** The threads sampled in a run. */
  function SampledTids(ts: seq<Taken>): set<U32> { set t | t in ts :: t.key.tid }

  lemma {:induction false} CountedIsSampled(ts: seq<Taken>, t: U32)
    requires Count(ts, t) > 0
    ensures t in SampledTids(ts)
  {
    if Count(ts[..|ts| - 1], t) > 0 {
      CountedIsSampled(ts[..|ts| - 1], t);
      assert SampledTids(ts[..|ts| - 1]) <= SampledTids(ts);
    } else {
      assert ts[|ts| - 1] in ts;
    }
  }

  /** The thread is among the first MAX_ENTRIES ones sampled. */
  ghost predicate Tracked(ts: seq<Taken>, t: U32) {
    exists i :: 0 <= i < |ts| && ts[i].key.tid == t && |SampledTids(ts[..i])| < MAX_ENTRIES
  }

  /** The samples of each thread fit its numbering: 2^32 of a tracked thread, one of any other. */
  ghost predicate WithinNumbering(ts: seq<Taken>) {
    forall t: U32 :: Count(ts, t) <= if Tracked(ts, t) then TWO32 else 1
  }

  /** The map holds the tracked threads: all sampled ones until it is full, and no more then. */
  ghost predicate HoldsTracked(ts: seq<Taken>, seqs: map<U32, U32>) {
    && seqs.Keys <= SampledTids(ts)
    && (|SampledTids(ts)| < MAX_ENTRIES ==> seqs.Keys == SampledTids(ts))
    && (|SampledTids(ts)| >= MAX_ENTRIES ==> |seqs| >= MAX_ENTRIES)
    && forall t: U32 :: t in seqs <==> Tracked(ts, t)
  }

  lemma TrackedGrows(ts: seq<Taken>, x: Taken, t: U32)
    ensures Tracked(ts + [x], t) <==> Tracked(ts, t) || (t == x.key.tid && |SampledTids(ts)| < MAX_ENTRIES)
    ensures SampledTids(ts + [x]) == SampledTids(ts) + {x.key.tid}
  {
    var longer := ts + [x];
    assert longer[|ts|] == x && longer[..|ts|] == ts;
    forall i | 0 <= i < |ts| ensures longer[i] == ts[i] && longer[..i] == ts[..i] { }
    hide SampledTids;
    if Tracked(ts, t) {
      var i :| 0 <= i < |ts| && ts[i].key.tid == t && |SampledTids(ts[..i])| < MAX_ENTRIES;
      assert longer[i].key.tid == t && |SampledTids(longer[..i])| < MAX_ENTRIES;
    }
    if Tracked(longer, t) {
      var i :| 0 <= i < |longer| && longer[i].key.tid == t && |SampledTids(longer[..i])| < MAX_ENTRIES;
      assert i < |ts| ==> ts[i].key.tid == t && |SampledTids(ts[..i])| < MAX_ENTRIES;
    }
    assert SampledTids(longer) == SampledTids(ts) + {x.key.tid} by { SampledGrows(ts, x); }
  }

  lemma SampledGrows(ts: seq<Taken>, x: Taken)
    ensures SampledTids(ts + [x]) == SampledTids(ts) + {x.key.tid}
  {
    assert x in ts + [x];
  }

  lemma MapKeysStep(seqs: map<U32, U32>, sampled: set<U32>, tid: U32, v: U32)
    requires seqs.Keys <= sampled
    requires if |sampled| < MAX_ENTRIES then seqs.Keys == sampled else |seqs| >= MAX_ENTRIES
    ensures var after, more := MapUpdate(seqs, tid, v), sampled + {tid};
            && after.Keys == seqs.Keys + (if |sampled| < MAX_ENTRIES then {tid} else {})
            && after.Keys <= more
            && if |more| < MAX_ENTRIES then after.Keys == more else |after| >= MAX_ENTRIES
  {
    UpdatedKeys(seqs, tid, v);
    hide *;
    if |sampled| < MAX_ENTRIES {
      if tid in sampled { assert sampled + {tid} == sampled; }
    } else {
      SubsetSize(sampled, sampled + {tid});
    }
  }

  lemma UpdatedKeys(m: map<U32, U32>, k: U32, v: U32)
    ensures MapUpdate(m, k, v).Keys == if |m| < MAX_ENTRIES then m.Keys + {k} else m.Keys
    ensures |m| == |m.Keys| && |MapUpdate(m, k, v)| == |MapUpdate(m, k, v).Keys|
  {
  }

  lemma HoldsTrackedStep(ts: seq<Taken>, seqs: map<U32, U32>, x: Taken)
    requires HoldsTracked(ts, seqs)
    ensures HoldsTracked(ts + [x], MapUpdate(seqs, x.key.tid, x.key.seqno))
  {
    hide SampledTids, Tracked, MapUpdate, MAX_ENTRIES;
    MapKeysStep(seqs, SampledTids(ts), x.key.tid, x.key.seqno);
    SampledGrows(ts, x);
    forall t: U32
      ensures Tracked(ts + [x], t) <==> t in seqs || (t == x.key.tid && |SampledTids(ts)| < MAX_ENTRIES)
    {
      TrackedGrows(ts, x, t);
    }
  }

  /** Over every run, the map holds exactly the first MAX_ENTRIES threads sampled. */
  lemma {:induction false} MapHoldsTracked(c: Config, inputs: seq<Input>)
    ensures HoldsTracked(TakenSamples(c, inputs), Run(c, inputs).seqs)
  {
    if inputs == [] {
      assert SampledTids([]) == {};
    } else {
      var before, last := inputs[..|inputs| - 1], inputs[|inputs| - 1];
      MapHoldsTracked(c, before);
      hide HoldsTracked;
      var st := Run(c, before);
      if last.Perf? && Accepts(c, last.sample) {
        HoldsTrackedStep(TakenSamples(c, before), st.seqs, Taken(KeyOf(st, last.sample), last.sample, st.states));
      } else {
        assert TakenSamples(c, inputs) == TakenSamples(c, before);
      }
    }
  }

  lemma SameFit(c: Config, inputs: seq<Input>)
    ensures MapNumbersFit(TakenSamples(c, inputs), Run(c, inputs).seqs) <==> WithinNumbering(TakenSamples(c, inputs))
  {
    MapHoldsTracked(c, inputs);
    var ts, seqs := TakenSamples(c, inputs), Run(c, inputs).seqs;
    hide TakenSamples, Run, Count, Tracked, SampledTids;
    assert forall t: U32 :: t in seqs <==> Tracked(ts, t);
  }

  /** Over any run that profiles one process, no two samples share a key if and only if none of
      the first MAX_ENTRIES threads sampled has more than 2^32 samples and none of the others,
      which the full map refuses, has two. */
  lemma KeysAreUniqueExactly(c: Config, inputs: seq<Input>, pid: U32)
    requires c.targetPid == Some(pid)
    ensures DistinctKeys(TakenSamples(c, inputs)) <==> WithinNumbering(TakenSamples(c, inputs))
  {
    var ts, seqs := TakenSamples(c, inputs), Run(c, inputs).seqs;
    RunNumbersSamples(c, inputs);
    TakenFromTarget(c, inputs, pid);
    SameFit(c, inputs);
    hide WithinNumbering, Numbered, DistinctKeys, TakenSamples, Run;
    if MapNumbersFit(ts, seqs) {
      FittingIsDistinct(ts, seqs);
    } else {
      var t: U32 :| Count(ts, t) > if t in seqs then TWO32 else 1;
      OverflowRepeatsKey(ts, seqs, t, pid);
    }
  }

  /** n timer interrupts in a row that find the same thing. */
  function Repeated(s: Sample, n: nat): (inputs: seq<Input>)
    ensures |inputs| == n
  {
    seq(n, i => Perf(s))
  }

  lemma {:induction false} RepeatedIsTaken(c: Config, s: Sample, n: nat)
    requires Accepts(c, s)
    ensures Count(TakenSamples(c, Repeated(s, n)), s.tid) == n
  {
    var inputs := Repeated(s, n);
    if n > 0 {
      RepeatedIsTaken(c, s, n - 1);
      assert inputs[..n - 1] == Repeated(s, n - 1);
      var st := Run(c, inputs[..n - 1]);
      var t := Taken(KeyOf(st, s), s, st.states);
      assert TakenSamples(c, inputs) == TakenSamples(c, inputs[..n - 1]) + [t] by { hide Run, KeyOf; }
      hide TakenSamples, Run, Count;
      CountAppend(TakenSamples(c, Repeated(s, n - 1)), t, s.tid);
    }
  }

  lemma TooManyDoNotFit(ts: seq<Taken>, t: U32)
    requires Count(ts, t) > TWO32
    ensures !WithinNumbering(ts)
  {
    hide Count, Tracked;
  }

  /** A run whose keys do repeat: 2^32 + 1 accepted samples of one thread. */
  lemma LongRunRepeatsKey(c: Config, s: Sample)
    requires c.targetPid == Some(s.pid) && Accepts(c, s)
    ensures !DistinctKeys(TakenSamples(c, Repeated(s, TWO32 + 1)))
  {
    assert TWO32 + 1 > TWO32 >= 0;
    hide *;
    var inputs := Repeated(s, TWO32 + 1);
    RepeatedIsTaken(c, s, TWO32 + 1);
    KeysAreUniqueExactly(c, inputs, s.pid);
    TooManyDoNotFit(TakenSamples(c, inputs), s.tid);
  }

  /** With at most MAX_ENTRIES threads and at most 2^32 samples of each, keys never repeat. */
  lemma KeysAreUnique(c: Config, inputs: seq<Input>)
    requires var ts := TakenSamples(c, inputs);
             |SampledTids(ts)| <= MAX_ENTRIES && forall t: U32 :: Count(ts, t) <= TWO32
    ensures DistinctKeys(TakenSamples(c, inputs))
  {
    var ts, seqs := TakenSamples(c, inputs), Run(c, inputs).seqs;
    RunNumbersSamples(c, inputs);
    assert |seqs| == |seqs.Keys|;
    forall t: U32 | t !in seqs ensures Count(ts, t) == 0 {
      if Count(ts, t) > 0 {
        CountedIsSampled(ts, t);
        forall u | u in seqs ensures u in SampledTids(ts) { CountedIsSampled(ts, u); }
        SubsetSize(seqs.Keys, SampledTids(ts) - {t});
      }
    }
    FittingIsDistinct(ts, seqs);
  }

  // ---- what the streams hold --------------------------------------------------------

  function NativeStream(c: Config, ts: seq<Taken>): (r: seq<NativeDelivery>)
    ensures |r| == |ts|
  {
    seq(|ts|, i requires 0 <= i < |ts| => NativeOf(c, ts[i].sample, ts[i].key))
  }

  function LuaStream(ts: seq<Taken>): seq<LuaEvent> {
    if ts == [] then []
    else
      var last := ts[|ts| - 1];
      LuaStream(ts[..|ts| - 1]) + LuaOf(last.states, last.sample, last.key)
  }

  lemma NativeStreamAppend(c: Config, ts: seq<Taken>, t: Taken)
    ensures NativeStream(c, ts + [t]) == NativeStream(c, ts) + [NativeOf(c, t.sample, t.key)]
  {
    hide NativeOf;
  }

  lemma LuaStreamAppend(ts: seq<Taken>, t: Taken)
    ensures LuaStream(ts + [t]) == LuaStream(ts) + LuaOf(t.states, t.sample, t.key)
  {
    hide LuaOf;
    assert (ts + [t])[..|ts|] == ts;
  }

  ghost predicate Emits(c: Config, st: KernelState, ts: seq<Taken>) {
    && st.natives == (if c.kernelStacksOnly then [] else NativeStream(c, ts))
    && st.luas == (if c.disableLua then [] else LuaStream(ts))
  }

  lemma EmitsStep(c: Config, st: KernelState, ts: seq<Taken>, i: Input)
    requires Emits(c, st, ts)
    ensures Emits(c, After(st, c, i), ts + TakenBy(c, st, i))
  {
    hide NativeOf, LuaOf, Accepts, AfterEnter, AfterReturn, MapUpdate, KeyOf;
    if i.Perf? && Accepts(c, i.sample) {
      var t := Taken(KeyOf(st, i.sample), i.sample, st.states);
      NativeStreamAppend(c, ts, t);
      LuaStreamAppend(ts, t);
    } else {
      assert ts + TakenBy(c, st, i) == ts;
    }
    hide NativeStream, LuaStream;
  }

  /** The streams of a run are, sample by sample, the native stack and the Lua walk of each
      accepted sample under its key. */
  lemma {:induction false} RunEmits(c: Config, inputs: seq<Input>)
    ensures Emits(c, Run(c, inputs), TakenSamples(c, inputs))
  {
    hide Emits, After;
    if inputs == [] {
      InitialEmits(c);
    } else {
      var before := inputs[..|inputs| - 1];
      RunEmits(c, before);
      EmitsStep(c, Run(c, before), TakenSamples(c, before), inputs[|inputs| - 1]);
    }
  }

  lemma InitialEmits(c: Config)
    ensures Emits(c, Initial, [])
  {
  }

  /** The native event of every sample: its key, the kernel's addresses, and, when native stacks
      are collected, each register under its own name with the stack found at sp. */
  lemma NativeEventCarries(c: Config, inputs: seq<Input>, i: nat)
    requires !c.kernelStacksOnly && i < |TakenSamples(c, inputs)|
    ensures var t, natives := TakenSamples(c, inputs)[i], Run(c, inputs).natives;
            && |natives| == |TakenSamples(c, inputs)|
            && natives[i].key == t.key
            && var n := natives[i].sample;
               && n.fallbackIps == t.sample.ips
               && n.ip == (if c.collectNative then t.sample.ip else 0)
               && n.sp == (if c.collectNative then t.sample.sp else 0)
               && n.fp == (if c.collectNative then t.sample.fp else 0)
               && n.lr == (if c.collectNative then t.sample.lr else 0)
               && n.stack == if c.collectNative && t.sample.sp != 0 then SnapshotAt(t.sample.mem, t.sample.sp) else []
  {
    hide TakenSamples, Run, SnapshotAt;
    RunEmits(c, inputs);
  }
}
