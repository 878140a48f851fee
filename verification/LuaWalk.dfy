/** The LuaJIT stack walker: which frames a sample reports, and with which source line. */
module LuaWalk {
  import opened Machine
  import opened ProbeReads
  import opened LuaFrames

  datatype SampleKey = SampleKey(pid: U32, tid: U32, seqno: U32)

  const FUNC_TYPE_LUA := 0
  const FUNC_TYPE_C := 1
  const FUNC_TYPE_F := 2
  const FUNC_TYPE_JIT := 3

  const MAX_LUA_DEPTH := 8

  datatype LuaEvent = LuaEvent(key: SampleKey, level: nat, kind: int, name: seq<Byte>, funcp: U64, line: int)

  /** The event as user space sees it: whatever follows the NUL is ignored. */
  function Canonical(e: LuaEvent): LuaEvent { e.(name := CStr(e.name)) }

  // ---- source lines -----------------------------------------------------------------

  /** The source line of bytecode position pc, or a negative value. */
  function LuaLine(r: Reads, pt: int, pc: U32): int {
    var sizebc := r.u32(pt + PT_SIZEBC);
    if pc > sizebc then -1
    else
      var first := Signed32(r.u32(pt + PT_FIRSTLINE));
      var numline := Signed32(r.u32(pt + PT_NUMLINE));
      var lineinfo := r.u64(pt + PT_LINEINFO);
      if lineinfo == 0 then 0
      else if pc == sizebc then Signed32(first + numline)
      else if pc == 0 then first
      else if numline < 0x100 then Signed32(first + r.u8(Wrap(lineinfo + (pc - 1))))
      else if numline < 0x1_0000 then Signed32(first + r.u16(Wrap(lineinfo + 2 * (pc - 1) % TWO32)))
      else Signed32(first + r.u32(Wrap(lineinfo + 4 * (pc - 1) % TWO32)))
  }

  /** The bytecode position at which fn called the frame above it, or NO_BCPOS. */
  function FrameBcPos(slots: int -> U64, r: Reads, fn: int, prev: Option<int>): U32 {
    if prev.None? then NO_BCPOS
    else
      var ftsz := slots(prev.value);
      if FrameType(ftsz) == FRAME_LUA then BcPosOf(r, fn, ftsz)
      else if FrameTypeP(ftsz) == FRAME_CONT then BcPosOf(r, fn, slots(prev.value - 2 * SLOT))
      else NO_BCPOS
  }

  function BcPosOf(r: Reads, fn: int, ins: U64): U32 {
    var pt := FuncProto(r, fn);
    if ins == 0 || pt == 0 then NO_BCPOS
    else (Signed64(Wrap(ins - (pt + PT_SIZE))) / 4 % TWO32 - 1) % TWO32
  }

  /** The line reported for a frame of a Lua function. */
  function FrameLine(slots: int -> U64, r: Reads, fn: int, prev: Option<int>): int {
    var pt := FuncProto(r, fn);
    var pc := FrameBcPos(slots, r, fn, prev);
    var first := Signed32(r.u32(pt + PT_FIRSTLINE));
    if pc == NO_BCPOS then first
    else
      var line := LuaLine(r, pt, pc);
      if line >= 0 then line else first
  }

  /** The chunk name a prototype's event carries. */
  function ChunkName(r: Reads, pt: int): seq<Byte> {
    var str := GcMask(r.u64(pt + PT_CHUNKNAME));
    if str == 0 then [] else r.name(str + STR_SIZE)
  }

  // ---- one frame --------------------------------------------------------------------

  function FrameEvent(slots: int -> U64, r: Reads, gco: int, prev: Option<int>,
                            key: SampleKey, level: nat, jitTop: bool): Option<LuaEvent>
  {
    var ffid := r.u8(gco + FN_FFID);
    if ffid == FF_LUA then
      var pt := FuncProto(r, gco);
      if pt == 0 then None
      else Some(LuaEvent(key, level, if jitTop then FUNC_TYPE_JIT else FUNC_TYPE_LUA,
                         ChunkName(r, pt), 0, FrameLine(slots, r, gco, prev)))
    else if ffid == FF_C then Some(LuaEvent(key, level, FUNC_TYPE_C, [], r.u64(gco + FN_CFUNC), 0))
    else Some(LuaEvent(key, level, FUNC_TYPE_F, [], 0, ffid))
  }

  datatype Visit = Broken | Skipped | Function(gco: U64)

  /** What the walker makes of a frame: the end of the walk, a pseudo-frame, or a function. */
  function VisitFrame(slots: int -> U64, r: Reads, L: U64, frame: int): Visit {
    var gco := FrameGc(slots, frame);
    var vararg := FrameIsVararg(slots, frame);
    if !ValidUserPtr(gco) then Broken
    else if gco != L && !vararg then
      if GcType(r, gco) != GCT_FUNC then Broken else Function(gco)
    else if !vararg && GcType(r, gco) != GCT_THREAD then Broken
    else Skipped
  }

  /** The frame below, with the walker's guards on the wrapped 64-bit subtraction. */
  function NextFrame(slots: int -> U64, r: Reads, bot: U64, frame: int): Option<int> {
    var ftsz := slots(frame);
    if FrameType(ftsz) == FRAME_LUA then
      if !ValidUserPtr(ftsz) then None
      else
        var next := Wrap(frame - SLOT * (2 + CallOperandA(r, ftsz)));
        if next >= frame || next < bot then None else Some(next)
    else
      var size := FrameSized(ftsz);
      if size <= 0 || size % SLOT != 0 then None
      else
        var next := Wrap(frame - size);
        if next >= frame || next < bot then None else Some(next)
  }

  // ---- the walk ---------------------------------------------------------------------

  /** The fixed inputs of one walk. */
  datatype Walk = Walk(r: Reads, L: U64, bot: U64, maxstack: U64, key: SampleKey, jit: bool)

  /** The events of at most n more physical frames, the first of them at `frame`. */
  function WalkFrom(w: Walk, slots: int -> U64, frame: int, prev: Option<int>, level: nat, n: nat): seq<LuaEvent>
    decreases n
  {
    if n == 0 || frame <= w.bot || frame >= w.maxstack then []
    else
      var v := VisitFrame(slots, w.r, w.L, frame);
      if v.Broken? then []
      else
        var next := NextFrame(slots, w.r, w.bot, frame);
        var level' := if v.Function? then level + 1 else level;
        var rest := if next.None? then [] else WalkFrom(w, slots, next.value, Some(frame), level', n - 1);
        Emitted(w, slots, v, prev, level) + rest
  }

  /** The event, if any, of one visited frame. */
  function Emitted(w: Walk, slots: int -> U64, v: Visit, prev: Option<int>, level: nat): seq<LuaEvent> {
    if !v.Function? then []
    else
      var e := FrameEvent(slots, w.r, v.gco, prev, w.key, level, w.jit && level == 0);
      if e.None? then [] else [e.value]
  }

  /** One turn of the walk: the frame's event, then the walk from the frame below. */
  lemma WalkUnfolds(w: Walk, slots: int -> U64, frame: int, prev: Option<int>, level: nat, n: nat)
    ensures var v, next := VisitFrame(slots, w.r, w.L, frame), NextFrame(slots, w.r, w.bot, frame);
            var level' := if v.Function? then level + 1 else level;
            var rest := if n == 0 || next.None? then []
                        else WalkFrom(w, slots, next.value, Some(frame), level', n - 1);
            WalkFrom(w, slots, frame, prev, level, n)
            == if n == 0 || frame <= w.bot || frame >= w.maxstack || v.Broken? then []
               else Emitted(w, slots, v, prev, level) + rest
  {
    hide VisitFrame, NextFrame, Emitted;
  }

  /** Where a walk begins. */
  datatype Start = Start(bot: U64, maxstack: U64, base: U64, jit: bool)

  /** The walk's starting point, with an active JIT trace's base preferred over the state's. */
  function WalkStart(r: Reads, L: U64): Option<Start> {
    var bot := Wrap(r.u64(Wrap(L + L_STACK)) + SLOT);
    var maxstack := r.u64(Wrap(L + L_MAXSTACK));
    var base := r.u64(Wrap(L + L_BASE));
    var g := r.u64(Wrap(L + L_GLREF));
    var jitBase := r.u64(g + G_JIT_BASE);
    var jit := ValidUserPtr(g) && GcMask(r.u64(g + G_CUR_L)) == L && bot < jitBase <= maxstack;
    var base' := if jit then jitBase else base;
    if base' <= bot || base' > maxstack then None else Some(Start(bot, maxstack, base', jit))
  }

  /** The events of one sample of a thread whose recorded state is L, at most n frames deep. */
  function WalkState(r: Reads, L: U64, key: SampleKey, n: nat): seq<LuaEvent> {
    var s := WalkStart(r, L);
    if L == 0 || s.None? then []
    else
      WalkFrom(Walk(r, L, s.value.bot, s.value.maxstack, key, s.value.jit), r.u64,
               Wrap(s.value.base - SLOT), None, 0, n)
  }

  lemma WalkStateUnfolds(r: Reads, L: U64, key: SampleKey, n: nat)
    ensures var s := WalkStart(r, L);
            WalkState(r, L, key, n)
            == if L == 0 || s.None? then []
               else WalkFrom(Walk(r, L, s.value.bot, s.value.maxstack, key, s.value.jit), r.u64,
                             Wrap(s.value.base - SLOT), None, 0, n)
  {
    hide WalkStart, WalkFrom, Wrap;
  }

  lemma EmittedUnfolds(w: Walk, slots: int -> U64, v: Visit, prev: Option<int>, level: nat)
    ensures Emitted(w, slots, v, prev, level)
            == if !v.Function? then []
               else
                 var e := FrameEvent(slots, w.r, v.gco, prev, w.key, level, w.jit && level == 0);
                 if e.None? then [] else [e.value]
  {
    hide FrameEvent;
  }
}
