/** The BPF programs and the maps they share: probe entry and return, and the sampler. */
module Kernel {
  import opened Machine
  import opened ProbeReads
  import opened LuaFrames
  import opened LuaWalk
  import opened Snapshot

  const MAX_ENTRIES := 10240
  const DEPTH_LIMIT := 0xffff

  // ---- configuration, inputs and state ----------------------------------------------

  datatype Config = Config(kernelStacksOnly: bool, disableLua: bool, collectNative: bool, includeIdle: bool,
                           targetPid: Option<U32>, targetTid: Option<U32>)

  /** One timer interrupt: who was running, with what registers, fallback IPs and memory. */
  datatype Sample = Sample(pid: U32, tid: U32, ip: U64, sp: U64, fp: U64, lr: U64, ips: seq<U64>, mem: Memory)

  /** The kernel's own stack helper returns at most MAX_IPS addresses. */
  predicate SampleShape(s: Sample) { |s.ips| <= MAX_IPS }

  /** One program run. Returns of lua_yield reach the same handler as real returns. */
  datatype Input = Perf(sample: Sample) | Enter(pid: U32, tid: U32, L: U64)
                 | Leave(pid: U32, tid: U32) | YieldReturn(pid: U32, tid: U32)

  datatype Slot = Slot(ptr: U64, depth: U32)

  /** A native event as user space decodes it. */
  datatype NativeDelivery = NativeDelivery(key: SampleKey, sample: NativeSample)

  datatype KernelState = KernelState(states: map<U32, Slot>, seqs: map<U32, U32>,
                                     natives: seq<NativeDelivery>, luas: seq<LuaEvent>)

  /** A hash map of bounded size: a new key is refused once the map is full. */
  function MapUpdate<V>(m: map<U32, V>, k: U32, v: V): map<U32, V> {
    if k in m || |m| < MAX_ENTRIES then m[k := v] else m
  }

  // ---- the programs as state transformers -------------------------------------------

  predicate TargetsPid(c: Config, pid: U32) { c.targetPid == None || c.targetPid == Some(pid) }

  predicate Accepts(c: Config, s: Sample) {
    && (c.includeIdle || s.tid != 0)
    && TargetsPid(c, s.pid)
    && (c.targetTid == None || c.targetTid == Some(s.tid))
  }

  function NextSeqOf(seqs: map<U32, U32>, tid: U32): U32 {
    if tid in seqs then (seqs[tid] + 1) % TWO32 else 1
  }

  function KeyOf(st: KernelState, s: Sample): SampleKey { SampleKey(s.pid, s.tid, NextSeqOf(st.seqs, s.tid)) }

  /** What the sampler hands to user space about the native stack. */
  function NativeOf(c: Config, s: Sample, key: SampleKey): NativeDelivery {
    NativeDelivery(key,
      if !c.collectNative then NativeSample(s.ips, 0, 0, 0, 0, [])
      else NativeSample(s.ips, s.ip, s.sp, s.fp, s.lr, if s.sp == 0 then [] else SnapshotAt(s.mem, s.sp)))
  }

  /** The Lua events of one sample, read through the thread's recorded state. */
  function LuaOf(states: map<U32, Slot>, s: Sample, key: SampleKey): seq<LuaEvent> {
    if s.tid in states then WalkState(ReadsOf(s.mem), states[s.tid].ptr, key, MAX_LUA_DEPTH) else []
  }

  function AfterPerf(st: KernelState, c: Config, s: Sample): KernelState {
    if !Accepts(c, s) then st
    else
      var key := KeyOf(st, s);
      st.(seqs := MapUpdate(st.seqs, s.tid, key.seqno),
          natives := if c.kernelStacksOnly then st.natives else st.natives + [NativeOf(c, s, key)],
          luas := if c.disableLua then st.luas else st.luas + LuaOf(st.states, s, key))
  }

  function AfterEnter(states: map<U32, Slot>, c: Config, pid: U32, tid: U32, L: U64): map<U32, Slot> {
    if !TargetsPid(c, pid) || L == 0 then states
    else
      var depth := if tid in states && states[tid].depth < DEPTH_LIMIT then states[tid].depth + 1 else 1;
      MapUpdate(states, tid, Slot(L, depth))
  }

  function AfterReturn(states: map<U32, Slot>, c: Config, pid: U32, tid: U32): map<U32, Slot> {
    if !TargetsPid(c, pid) then states
    else if tid !in states || states[tid].depth <= 1 then states - {tid}
    else states[tid := states[tid].(depth := states[tid].depth - 1)]
  }

  function After(st: KernelState, c: Config, i: Input): KernelState {
    match i
    case Perf(s) => AfterPerf(st, c, s)
    case Enter(pid, tid, L) => st.(states := AfterEnter(st.states, c, pid, tid, L))
    case Leave(pid, tid) => st.(states := AfterReturn(st.states, c, pid, tid))
    case YieldReturn(pid, tid) => st.(states := AfterReturn(st.states, c, pid, tid))
  }

  const Initial := KernelState(map[], map[], [], [])

  /** The state after a whole run of programs, in any interleaving of threads. */
  function Run(c: Config, inputs: seq<Input>): KernelState {
    if inputs == [] then Initial
    else After(Run(c, inputs[..|inputs| - 1]), c, inputs[|inputs| - 1])
  }

  /** The event's declared fields: three key words, two counts, four registers, the addresses;
      the stack bytes come right behind. */
  lemma PrefixFollowsDeclaration()
    ensures LaidOut(0, [4, 4, 4, 4, 4], [0, 4, 8, 12, 16]) && LaidOut(16 + 4, [8, 8, 8, 8, 8], [24, 32, 40, 48, 56])
    ensures PREFIX_SIZE == 56 + 8 * MAX_IPS && EVENT_SIZE == PREFIX_SIZE + SNAPSHOT_SIZE
  {
  }

  // ---- the programs themselves ------------------------------------------------------

  /** A native event on the wire, with the number of bytes delivered. */
  datatype NativeWire = NativeWire(event: NativeEvent, len: nat)

  /** How user space decodes a native event from the wire. */
  function Received(w: NativeWire): Option<NativeDelivery> {
    if !WireShape(w.event) || w.len < PREFIX_SIZE then None
    else Some(NativeDelivery(w.event.key, FromEvent(FromDelivery(w.event, w.len).value)))
  }

  function AllReceived(ws: seq<NativeWire>): seq<NativeDelivery> {
    if ws == [] then []
    else
      var rest := AllReceived(ws[..|ws| - 1]);
      var last := Received(ws[|ws| - 1]);
      if last.Some? then rest + [last.value] else rest
  }

  function AllCanonical(es: seq<LuaEvent>): (cs: seq<LuaEvent>)
    ensures |cs| == |es|
  {
    seq(|es|, i requires 0 <= i < |es| => Canonical(es[i]))
  }

  class Probe {
    const config: Config
    var luaStates: map<U32, Slot>
    var seqMap: map<U32, U32>
    var nativeEvents: seq<NativeWire>
    var luaEvents: seq<LuaEvent>
    // Per-CPU scratch, never cleared between events.
    const nameBuf: array<Byte>
    const stackBuf: array<Byte>

    ghost predicate Valid()
      reads this
    {
      nameBuf.Length == CHUNKNAME_LEN && stackBuf.Length == SNAPSHOT_SIZE && nameBuf != stackBuf
    }

    /** The maps, and both event streams as user space decodes them. */
    ghost function View(): KernelState
      reads this
    {
      KernelState(luaStates, seqMap, AllReceived(nativeEvents), AllCanonical(luaEvents))
    }

    constructor (c: Config)
      ensures Valid() && View() == Initial && config == c && fresh(nameBuf) && fresh(stackBuf)
    {
      config := c;
      luaStates, seqMap, nativeEvents, luaEvents := map[], map[], [], [];
      nameBuf := new Byte[CHUNKNAME_LEN](_ => 0);
      stackBuf := new Byte[SNAPSHOT_SIZE](_ => 0);
    }

    /** Bumps and fetches the per-thread sample number. */
    method NextSeq(tid: U32) returns (v: U32)
      modifies this`seqMap
      ensures v == NextSeqOf(old(seqMap), tid) && seqMap == MapUpdate(old(seqMap), tid, v)
      ensures tid in seqMap ==> seqMap[tid] == v
      ensures tid !in seqMap ==> v == 1 && |old(seqMap)| >= MAX_ENTRIES
      ensures forall t :: t != tid ==> (t in seqMap <==> t in old(seqMap))
                                       && (t in seqMap ==> seqMap[t] == old(seqMap)[t])
    {
      v := if tid in seqMap then (seqMap[tid] + 1) % TWO32 else 1;
      seqMap := MapUpdate(seqMap, tid, v);
    }

    method HandleEntry(pid: U32, tid: U32, L: U64)
      modifies this`luaStates
      ensures luaStates == AfterEnter(old(luaStates), config, pid, tid, L)
      ensures TargetsPid(config, pid) && L != 0 && tid in old(luaStates) && old(luaStates)[tid].depth < DEPTH_LIMIT
              ==> luaStates == old(luaStates)[tid := Slot(L, old(luaStates)[tid].depth + 1)]
      ensures TargetsPid(config, pid) && L != 0 && tid in luaStates ==> luaStates[tid].ptr == L
      ensures forall t :: t != tid ==> (t in luaStates <==> t in old(luaStates))
                                       && (t in luaStates ==> luaStates[t] == old(luaStates)[t])
    {
      if !TargetsPid(config, pid) || L == 0 { return; }
      var slot := Slot(L, 1);
      if tid in luaStates && luaStates[tid].depth < DEPTH_LIMIT {
        slot := slot.(depth := luaStates[tid].depth + 1);
      }
      luaStates := MapUpdate(luaStates, tid, slot);
    }

    method HandleReturn(pid: U32, tid: U32)
      modifies this`luaStates
      ensures luaStates == AfterReturn(old(luaStates), config, pid, tid)
      ensures TargetsPid(config, pid) ==>
                (tid in luaStates <==> tid in old(luaStates) && old(luaStates)[tid].depth > 1)
                && (tid in luaStates ==> luaStates[tid].ptr == old(luaStates)[tid].ptr
                                         && luaStates[tid].depth + 1 == old(luaStates)[tid].depth)
      ensures forall t :: t != tid ==> (t in luaStates <==> t in old(luaStates))
                                       && (t in luaStates ==> luaStates[t] == old(luaStates)[t])
    {
      if !TargetsPid(config, pid) { return; }
      if tid !in luaStates || luaStates[tid].depth <= 1 {
        luaStates := luaStates - {tid};
      } else {
        var next := luaStates[tid];
        luaStates := MapUpdate(luaStates, tid, next.(depth := next.depth - 1));
      }
    }

    /** Fills the name field for a prototype; an absent name leaves just the leading NUL. */
    method FillName(m: Memory, pt: int)
      requires Valid() && nameBuf[0] == 0
      modifies nameBuf
      ensures CStr(nameBuf[..]) == ChunkName(ReadsOf(m), pt)
    {
      var str := GcMask(ReadsOf(m).u64(pt + PT_CHUNKNAME));
      if str != 0 {
        var text := ReadUserStr(m, str + STR_SIZE, nameBuf[..]);
        StaleNameIsInvisible(m, str + STR_SIZE, nameBuf[..]);
        forall i | 0 <= i < CHUNKNAME_LEN { nameBuf[i] := text[i]; }
        assert nameBuf[..] == text;
      }
    }

    /** Sends one Lua frame: the decoded event is the frame's, whatever the name buffer held. */
    method EmitLua(m: Memory, gco: int, prev: Option<int>, key: SampleKey, level: nat, jitTop: bool)
      requires Valid()
      modifies this`luaEvents, nameBuf
      ensures var r := ReadsOf(m);
              var e := FrameEvent(r.u64, r, gco, prev, key, level, jitTop);
              AllCanonical(luaEvents) == old(AllCanonical(luaEvents)) + if e.None? then [] else [e.value]
    {
      hide ReadsOf, FrameLine, ChunkName, AllCanonical;
      var r := ReadsOf(m);
      var e := LuaEvent(key, level, 0, [], 0, 0);
      nameBuf[0] := 0;
      var ffid := r.u8(gco + FN_FFID);
      if ffid == FF_LUA {
        var pt := FuncProto(r, gco);
        if pt == 0 { return; }
        e := e.(kind := if jitTop then FUNC_TYPE_JIT else FUNC_TYPE_LUA, line := FrameLine(r.u64, r, gco, prev));
        FillName(m, pt);
      } else if ffid == FF_C {
        e := e.(kind := FUNC_TYPE_C, funcp := r.u64(gco + FN_CFUNC));
      } else {
        e := e.(kind := FUNC_TYPE_F, line := ffid);
      }
      e := e.(name := nameBuf[..]);
      CanonicalAppend(luaEvents, e);
      luaEvents := luaEvents + [e];
    }

    /** Walks the recorded state's stack, emitting one event per function. */
    method WalkLuaStack(m: Memory, tid: U32, key: SampleKey)
      requires Valid()
      modifies this`luaEvents, nameBuf
      ensures AllCanonical(luaEvents) == old(AllCanonical(luaEvents))
              + if tid in luaStates then WalkState(ReadsOf(m), luaStates[tid].ptr, key, MAX_LUA_DEPTH) else []
    {
      hide AllCanonical, ReadsOf, FrameEvent, Emitted, WalkStart, VisitFrame, NextFrame, Wrap, WalkFrom, WalkState;
      var r := ReadsOf(m);
      if tid in luaStates { WalkStateUnfolds(r, luaStates[tid].ptr, key, MAX_LUA_DEPTH); }
      if tid !in luaStates || luaStates[tid].ptr == 0 { return; }
      var L := luaStates[tid].ptr;
      var start := WalkStart(r, L);
      if start.None? { return; }
      var Start(bot, maxstack, base, jit) := start.value;
      ghost var w := Walk(r, L, bot, maxstack, key, jit);
      ghost var all := old(AllCanonical(luaEvents)) + WalkState(r, L, key, MAX_LUA_DEPTH);
      var frame: int := Wrap(base - SLOT);
      var prev: Option<int> := None;
      var out := 0;
      var i := 0;
      while i < MAX_LUA_DEPTH
        invariant 0 <= i <= MAX_LUA_DEPTH
        invariant AllCanonical(luaEvents) + WalkFrom(w, r.u64, frame, prev, out, MAX_LUA_DEPTH - i) == all
      {
        WalkUnfolds(w, r.u64, frame, prev, out, MAX_LUA_DEPTH - i);
        if frame <= bot || frame >= maxstack { break; }
        var visit := VisitFrame(r.u64, r, L, frame);
        var next := NextFrame(r.u64, r, bot, frame);
        if visit.Broken? { break; }
        EmittedUnfolds(w, r.u64, visit, prev, out);
        ghost var rest := if next.None? then []
                          else WalkFrom(w, r.u64, next.value, Some(frame), if visit.Function? then out + 1 else out,
                                        MAX_LUA_DEPTH - i - 1);
        Regroup(AllCanonical(luaEvents), Emitted(w, r.u64, visit, prev, out), rest);
        if visit.Function? {
          EmitLua(m, visit.gco, prev, key, out, jit && out == 0);
          out := out + 1;
        }
        prev := Some(frame);
        if next.None? { break; }
        frame := next.value;
        i := i + 1;
      }
      WalkUnfolds(w, r.u64, frame, prev, out, 0);
    }

    /** Emits the native stack: the used prefixes are what the sample says, whatever stale
        bytes the scratch buffer still holds. */
    method EmitNative(s: Sample, key: SampleKey)
      requires Valid() && SampleShape(s)
      modifies this`nativeEvents, stackBuf
      ensures AllReceived(nativeEvents) == old(AllReceived(nativeEvents)) + [NativeOf(config, s, key)]
    {
      hide AllReceived;
      var ips := s.ips + seq(MAX_IPS - |s.ips|, i => 0);
      var wire;
      if config.collectNative {
        var n: nat := 0;
        if s.sp != 0 {
          n := ReadUserStackSnapshot(s.mem, s.sp, stackBuf);
        }
        wire := NativeWire(NativeEvent(key, |s.ips|, n, s.ip, s.sp, s.fp, s.lr, ips, stackBuf[..]), EVENT_SIZE);
      } else {
        wire := NativeWire(NativeEvent(key, |s.ips|, 0, 0, 0, 0, 0, ips, stackBuf[..]), PREFIX_SIZE);
      }
      hide SnapshotAt;
      ReceivedInFull(wire);
      assert ips[..|s.ips|] == s.ips;
      ReceivedAppend(nativeEvents, wire);
      nativeEvents := nativeEvents + [wire];
    }

    /** The sampler: numbers the sample, then emits its native and its Lua stack. */
    method DoPerfEvent(s: Sample)
      requires Valid() && SampleShape(s)
      modifies this, nameBuf, stackBuf
      ensures Valid() && View() == AfterPerf(old(View()), config, s)
    {
      hide WalkState, NativeOf, AllReceived, AllCanonical, ReadsOf;
      if !Accepts(config, s) { return; }
      var number := NextSeq(s.tid);
      var key := SampleKey(s.pid, s.tid, number);
      if !config.kernelStacksOnly {
        EmitNative(s, key);
      }
      if !config.disableLua {
        WalkLuaStack(s.mem, s.tid, key);
      }
    }

    /** Any program run is the corresponding state transformer on the probe's view. */
    method Handle(i: Input)
      requires Valid() && (i.Perf? ==> SampleShape(i.sample))
      modifies this, nameBuf, stackBuf
      ensures Valid() && View() == After(old(View()), config, i)
    {
      match i {
        case Perf(s) => DoPerfEvent(s);
        case Enter(pid, tid, L) => HandleEntry(pid, tid, L);
        case Leave(pid, tid) => HandleReturn(pid, tid);
        case YieldReturn(pid, tid) => HandleReturn(pid, tid);
      }
    }
  }

  /** An event that fits its delivered length decodes to its used prefixes. */
  lemma ReceivedInFull(w: NativeWire)
    requires WireShape(w.event) && w.event.ipCnt <= MAX_IPS
    requires w.event.stackLen <= SNAPSHOT_SIZE && PREFIX_SIZE + w.event.stackLen <= w.len < TWO32
    ensures var e := w.event;
            Received(w) == Some(NativeDelivery(e.key, NativeSample(e.ips[..e.ipCnt], e.ip, e.sp, e.fp, e.lr,
                                                                   e.stack[..e.stackLen])))
  {
    var e := w.event;
    var copied := Min(w.len, EVENT_SIZE) - PREFIX_SIZE;
    assert (e.stack[..copied] + seq(SNAPSHOT_SIZE - copied, i => 0))[..e.stackLen] == e.stack[..e.stackLen];
  }

  lemma ReceivedAppend(ws: seq<NativeWire>, w: NativeWire)
    requires Received(w).Some?
    ensures AllReceived(ws + [w]) == AllReceived(ws) + [Received(w).value]
  {
    assert (ws + [w])[..|ws|] == ws;
  }

  lemma Regroup<T>(done: seq<T>, step: seq<T>, rest: seq<T>)
    ensures done + (step + rest) == (done + step) + rest && done + [] == done
  {
  }

  lemma CanonicalAppend(es: seq<LuaEvent>, e: LuaEvent)
    ensures AllCanonical(es + [e]) == AllCanonical(es) + [Canonical(e)]
  {
  }
}
