/** Logical Lua call stacks, their layout in FR2 slots, and the theorem that the walker
    reads a laid-out stack back. */
module LuaLayout {
  import opened Machine
  import opened ProbeReads
  import opened LuaFrames
  import opened LuaWalk
  import LuaWalkSafety

  // ---- prototypes and closures ------------------------------------------------------

  /** A function prototype. `lines[i]` is the source line of instruction i; a stripped
      prototype has none. */
  datatype Proto = Proto(bc: int, code: seq<nat>, firstline: int, numline: int,
                         lines: Option<seq<int>>, chunk: seq<Byte>)

  datatype Closure =
    | LuaClosure(addr: U64, proto: Proto)
    | CClosure(addr: U64, entry: U64)
    | Builtin(addr: U64, ffid: Byte)

  /** The bytes of one line-table entry, chosen by the number of lines. */
  function LineWidth(numline: int): nat {
    if numline < 0x100 then 1 else if numline < 0x1_0000 then 2 else 4
  }

  ghost predicate LinesFit(p: Proto) {
    p.lines.Some? ==>
      && |p.lines.value| == |p.code|
      && forall i :: 1 <= i < |p.code| ==> 0 <= p.lines.value[i] - p.firstline <= p.numline
  }

  /** Byte k of the compressed line table: the offset of an instruction's line, little-endian. */
  ghost function LineByte(p: Proto, k: nat): Byte
    requires p.lines.Some? && LinesFit(p) && k < LineWidth(p.numline) * (|p.code| - 1)
  {
    var w := LineWidth(p.numline);
    EntryOfByte(w, k, |p.code| - 1);
    ToLE(p.lines.value[k / w + 1] - p.firstline, w)[k % w]
  }

  lemma EntryOfByte(w: nat, k: nat, n: nat)
    requires w == 1 || w == 2 || w == 4
    requires k < w * n
    ensures k / w < n && 0 <= k % w < w
  {
  }

  ghost function LineTable(p: Proto): seq<Byte>
    requires p.lines.Some? && LinesFit(p) && |p.code| >= 1
  {
    seq(LineWidth(p.numline) * (|p.code| - 1),
        k requires 0 <= k < LineWidth(p.numline) * (|p.code| - 1) => LineByte(p, k))
  }

  /** What LuaJIT guarantees of a prototype's sizes, lines and address. */
  ghost predicate ProtoShape(p: Proto) {
    && p.bc % 4 == 0 && 4096 + PT_SIZE <= p.bc && p.bc + 4 * |p.code| < TWO47
    && 1 <= |p.code| && 4 * |p.code| <= TWO32
    && 0 <= p.firstline && 0 <= p.numline && p.firstline + p.numline < TWO31
    && LinesFit(p) && 0 !in p.chunk
  }

  ghost predicate HeaderInMemory(r: Reads, p: Proto) {
    var pt := p.bc - PT_SIZE;
    && r.u32(pt + PT_SIZEBC) == |p.code|
    && r.u32(pt + PT_FIRSTLINE) == p.firstline
    && r.u32(pt + PT_NUMLINE) == p.numline
  }

  ghost predicate CodeInMemory(r: Reads, p: Proto) {
    forall i :: 0 <= i < |p.code| ==> r.u32(p.bc + 4 * i) == p.code[i]
  }

  /** One entry of the compressed line table, read at its width. */
  function ReadEntry(r: Reads, w: nat, a: int): nat {
    if w == 1 then r.u8(a) else if w == 2 then r.u16(a) else r.u32(a)
  }

  /** The compressed table at lineinfo holds the offset of every instruction's line. */
  ghost predicate EntriesAt(r: Reads, p: Proto, lineinfo: int)
    requires p.lines.Some? && LinesFit(p)
  {
    var w := LineWidth(p.numline);
    forall i :: 1 <= i < |p.code| ==>
      && lineinfo + w * (i - 1) < TWO63
      && ReadEntry(r, w, lineinfo + w * (i - 1)) == p.lines.value[i] - p.firstline
  }

  ghost predicate LinesInMemory(r: Reads, p: Proto)
    requires ProtoShape(p)
  {
    var lineinfo := r.u64(p.bc - PT_SIZE + PT_LINEINFO);
    if p.lines.None? then lineinfo == 0 else lineinfo != 0 && EntriesAt(r, p, lineinfo)
  }

  ghost predicate ChunkInMemory(r: Reads, p: Proto) {
    var str := r.u64(p.bc - PT_SIZE + PT_CHUNKNAME) % TWO47;
    str != 0 && r.name(str + STR_SIZE) == ReportedName(p.chunk)
  }

  /** A chunk name cut to the event's name field. */
  function ReportedName(chunk: seq<Byte>): seq<Byte> { chunk[..Min(|chunk|, CHUNKNAME_LEN - 1)] }

  /** A prototype as LuaJIT stores it: header fields, bytecode behind them, and the line
      table and chunk name elsewhere. */
  ghost predicate ProtoInMemory(r: Reads, p: Proto) {
    ProtoShape(p) && HeaderInMemory(r, p) && CodeInMemory(r, p) && LinesInMemory(r, p) && ChunkInMemory(r, p)
  }

  ghost predicate ClosureInMemory(r: Reads, L: U64, f: Closure) {
    && 4096 <= f.addr < TWO47 && f.addr != L && r.u8(f.addr + GC_GCT) == GCT_FUNC
    && match f
       case LuaClosure(_, p) =>
         r.u8(f.addr + FN_FFID) == FF_LUA && r.u64(f.addr + FN_PC) == p.bc && ProtoInMemory(r, p)
       case CClosure(_, entry) => r.u8(f.addr + FN_FFID) == FF_C && r.u64(f.addr + FN_CFUNC) == entry
       case Builtin(_, ffid) => r.u8(f.addr + FN_FFID) == ffid && ffid > FF_C
  }

  // ---- line recovery ----------------------------------------------------------------

  lemma ByteOfEntry(w: nat, e: nat, j: nat, n: nat)
    requires w == 1 || w == 2 || w == 4
    requires j < w && e < n
    ensures w * e + j < w * n && (w * e + j) / w == e && (w * e + j) % w == j
  {
  }

  lemma LineByteAt(p: Proto, i: nat, j: nat)
    requires p.lines.Some? && LinesFit(p) && 1 <= i < |p.code| && j < LineWidth(p.numline)
    ensures var w := LineWidth(p.numline);
            && w * (i - 1) + j < w * (|p.code| - 1)
            && LineByte(p, w * (i - 1) + j) == ToLE(p.lines.value[i] - p.firstline, w)[j]
  {
    var w := LineWidth(p.numline);
    ByteOfEntry(w, i - 1, j, |p.code| - 1);
    hide ToLE, LineWidth;
  }

  lemma TableByteAt(p: Proto, i: nat, j: nat)
    requires p.lines.Some? && LinesFit(p) && 1 <= i < |p.code| && j < LineWidth(p.numline)
    ensures var w := LineWidth(p.numline);
            && 0 <= w * (i - 1) && w * (i - 1) + j < |LineTable(p)|
            && LineTable(p)[w * (i - 1) + j] == ToLE(p.lines.value[i] - p.firstline, w)[j]
  {
    LineByteAt(p, i, j);
    hide ToLE, LineWidth, LineByte;
  }

  lemma SliceIs<T>(t: seq<T>, at: nat, s: seq<T>)
    requires at + |s| <= |t| && forall j :: 0 <= j < |s| ==> t[at + j] == s[j]
    ensures t[at..at + |s|] == s
  {
  }

  /** Entry i of the compressed table holds the offset of instruction i's line. */
  lemma TableEntry(p: Proto, i: nat)
    requires p.lines.Some? && LinesFit(p) && 1 <= i < |p.code|
    ensures var w := LineWidth(p.numline);
            && 0 <= w * (i - 1) && w * (i - 1) + w <= |LineTable(p)|
            && LineTable(p)[w * (i - 1)..w * (i - 1) + w] == ToLE(p.lines.value[i] - p.firstline, w)
  {
    var w := LineWidth(p.numline);
    var bytes := ToLE(p.lines.value[i] - p.firstline, w);
    hide *;
    WidthIsPositive(p.numline);
    TableByteAt(p, i, w - 1);
    forall j | 0 <= j < w ensures LineTable(p)[w * (i - 1) + j] == bytes[j] {
      TableByteAt(p, i, j);
    }
    SliceIs(LineTable(p), w * (i - 1), bytes);
  }

  /** Every offset of a line fits the entry width chosen for it. */
  lemma OffsetFits(p: Proto, i: nat)
    requires p.lines.Some? && LinesFit(p) && 1 <= i < |p.code| && 0 <= p.numline < TWO31
    ensures 0 <= p.lines.value[i] - p.firstline < Pow256(LineWidth(p.numline))
  {
    assert Pow256(1) == 0x100 && Pow256(2) == 0x1_0000 && Pow256(4) == TWO32;
  }

  /** The encoded table, stored byte by byte, decodes to every line in all three widths. */
  lemma LineTableDecodes(m: Memory, p: Proto, lineinfo: int)
    requires p.lines.Some? && LinesFit(p) && |p.code| >= 1 && 0 <= p.numline < TWO31
    requires BytesAt(m, lineinfo, LineTable(p))
    ensures EntriesAt(ReadsOf(m), p, lineinfo)
  {
    var w := LineWidth(p.numline);
    forall i | 1 <= i < |p.code|
      ensures lineinfo + w * (i - 1) < TWO63
      ensures ReadEntry(ReadsOf(m), w, lineinfo + w * (i - 1)) == p.lines.value[i] - p.firstline
    {
      EntryDecodes(m, p, lineinfo, i);
    }
  }

  lemma WidthIsPositive(numline: int)
    ensures LineWidth(numline) > 0
  {
  }

  lemma ReadableIsUser(m: Memory, a: int, n: nat)
    requires n > 0 && Readable(m, a, n)
    ensures a < TWO63
  {
  }

  lemma ReadEntryLoads(m: Memory, numline: int, a: int)
    ensures ReadEntry(ReadsOf(m), LineWidth(numline), a) == Load(m, a, LineWidth(numline))
  {
    hide Load, NameAt;
  }

  lemma EntryLoads(m: Memory, a: int, block: seq<Byte>, at: nat, v: nat, numline: int)
    requires BytesAt(m, a, block) && at + LineWidth(numline) <= |block|
    requires v < Pow256(LineWidth(numline))
    requires block[at..at + LineWidth(numline)] == ToLE(v, LineWidth(numline))
    ensures a + at < TWO63 && ReadEntry(ReadsOf(m), LineWidth(numline), a + at) == v
  {
    hide *;
    LoadOfBlock(m, a, block, at, v, LineWidth(numline));
    WidthIsPositive(numline);
    ReadableIsUser(m, a + at, LineWidth(numline));
    ReadEntryLoads(m, numline, a + at);
  }

  lemma EntryDecodes(m: Memory, p: Proto, lineinfo: int, i: nat)
    requires p.lines.Some? && LinesFit(p) && 1 <= i < |p.code| && 0 <= p.numline < TWO31
    requires BytesAt(m, lineinfo, LineTable(p))
    ensures var w := LineWidth(p.numline);
            && lineinfo + w * (i - 1) < TWO63
            && ReadEntry(ReadsOf(m), w, lineinfo + w * (i - 1)) == p.lines.value[i] - p.firstline
  {
    var w := LineWidth(p.numline);
    var offset := p.lines.value[i] - p.firstline;
    hide *;
    TableEntry(p, i);
    OffsetFits(p, i);
    EntryLoads(m, lineinfo, LineTable(p), w * (i - 1), offset, p.numline);
  }

  /** The line that a call made by instruction i is charged to; 0 in a stripped prototype. */
  function CallLine(p: Proto, i: nat): int {
    if p.lines.Some? && i < |p.lines.value| then p.lines.value[i] else 0
  }

  lemma LookupInWidth(r: Reads, pt: int, pc: U32, numline: int, lineinfo: U64)
    requires 1 <= pc < r.u32(pt + PT_SIZEBC) && 4 * pc <= TWO32
    requires r.u32(pt + PT_NUMLINE) == numline && 0 <= numline < TWO31 && r.u64(pt + PT_LINEINFO) == lineinfo != 0
    ensures LuaLine(r, pt, pc)
            == Signed32(Signed32(r.u32(pt + PT_FIRSTLINE))
                        + if numline < 0x100 then r.u8(Wrap(lineinfo + (pc - 1)))
                          else if numline < 0x1_0000 then r.u16(Wrap(lineinfo + 2 * (pc - 1)))
                          else r.u32(Wrap(lineinfo + 4 * (pc - 1))))
  {
    assert 2 * (pc - 1) % TWO32 == 2 * (pc - 1) && 4 * (pc - 1) % TWO32 == 4 * (pc - 1);
    SignedOfSmall(numline);
    hide Wrap, Signed32;
  }

  /** A lookup strictly inside the bytecode adds the width-sized table entry to the first line. */
  lemma LookupAddsEntry(r: Reads, pt: int, pc: U32, numline: int, lineinfo: U64)
    requires 1 <= pc < r.u32(pt + PT_SIZEBC) && 4 * pc <= TWO32
    requires r.u32(pt + PT_NUMLINE) == numline && 0 <= numline < TWO31
    requires r.u64(pt + PT_LINEINFO) == lineinfo != 0 && lineinfo + LineWidth(numline) * (pc - 1) < TWO63
    ensures var first, w := Signed32(r.u32(pt + PT_FIRSTLINE)), LineWidth(numline);
            LuaLine(r, pt, pc) == Signed32(first + ReadEntry(r, w, lineinfo + w * (pc - 1)))
  {
    WrapOfSmall(lineinfo + LineWidth(numline) * (pc - 1));
    hide LuaLine, Wrap, Signed32;
    LookupInWidth(r, pt, pc, numline, lineinfo);
  }

  lemma SignedOfSmall(x: int)
    requires 0 <= x < TWO31
    ensures Signed32(x) == x
  {
  }

  /** get_lua_line is the uncompressed table's lookup for every instruction but the header. */
  lemma LineTableLookup(r: Reads, p: Proto, i: nat)
    requires ProtoInMemory(r, p) && 1 <= i < |p.code|
    ensures LuaLine(r, p.bc - PT_SIZE, i) == CallLine(p, i)
    ensures 0 <= CallLine(p, i) < TWO31
  {
    hide CodeInMemory, ChunkInMemory, Signed32;
    var pt := p.bc - PT_SIZE;
    if p.lines.None? {
      assert LuaLine(r, pt, i) == 0;
    } else {
      hide LuaLine;
      assert p.firstline <= p.lines.value[i];
      LookupAddsEntry(r, pt, i, p.numline, r.u64(pt + PT_LINEINFO));
      SignedOfSmall(p.firstline);
      SignedOfSmall(p.lines.value[i]);
    }
  }

  /** The caller's position is recovered from a return address behind instruction i. */
  lemma ReturnAddressPosition(r: Reads, fn: int, bc: int, i: nat)
    requires PT_SIZE < bc && r.u64(fn + FN_PC) == bc && bc + 4 * (i + 1) < TWO63 && 4 * (i + 1) <= TWO32
    ensures BcPosOf(r, fn, bc + 4 * (i + 1)) == i != NO_BCPOS
  {
    var d := 4 * (i + 1);
    assert Wrap(d) == d && Signed64(d) == d && d / 4 == i + 1;
  }

  // ---- chunk names ------------------------------------------------------------------

  lemma ByteOfBlock(m: Memory, a: int, block: seq<Byte>, n: nat)
    requires BytesAt(m, a, block) && n < |block|
    ensures Readable(m, a, n + 1) && m[a + n] == block[n]
  {
    assert MemBytes(m, a, |block|)[n] == m[a + n];
  }

  lemma {:induction false} NulOffsetOfString(m: Memory, a: int, s: seq<Byte>, limit: nat)
    requires BytesAt(m, a, s + [0]) && 0 !in s
    ensures NulOffset(m, a, limit) == Min(|s|, limit)
  {
    if limit > 0 {
      NulOffsetOfString(m, a, s, limit - 1);
      ByteOfBlock(m, a, s + [0], Min(|s|, limit - 1));
      hide BytesAt;
    }
  }

  /** A terminated chunk name, stored byte by byte, is reported cut to the event's field. */
  lemma ChunkNameDecodes(m: Memory, a: int, chunk: seq<Byte>)
    requires 0 !in chunk && BytesAt(m, a, chunk + [0])
    ensures ReadsOf(m).name(a) == ReportedName(chunk)
  {
    NulOffsetOfString(m, a, chunk, CHUNKNAME_LEN);
    var keep := Min(|chunk|, CHUNKNAME_LEN - 1);
    assert MemBytes(m, a, keep) == MemBytes(m, a, |chunk| + 1)[..keep] == chunk[..keep];
  }

  // ---- logical call stacks ----------------------------------------------------------

  /** How a frame was entered, and so what its frame slot holds:
      - ReturnTo(i): called by instruction i of the Lua function below; a return address.
      - Continuation(k, i): a metamethod run on behalf of instruction i; a delta of k slots,
        with the return address two slots below.
      - Delta(tag, k): entered from C or by a protected call; a delta of k slots. */
  datatype Link = ReturnTo(index: nat) | Continuation(size: nat, index: nat) | Delta(tag: nat, size: nat)

  /** One activation: a call (with the size of its vararg pseudo-frame, or 0), or the
      dummy frame of a thread. */
  datatype Activation = Call(fn: Closure, vararg: nat, link: Link) | Dummy(link: Link)

  ghost predicate IsLuaCall(acts: seq<Activation>, i: nat) {
    acts != [] && acts[0].Call? && acts[0].fn.LuaClosure? && 1 <= i < |acts[0].fn.proto.code|
  }

  /** The slots that encode a link, given the activations below it. */
  ghost predicate LinkInMemory(r: Reads, frame: int, link: Link, below: seq<Activation>) {
    match link
    case ReturnTo(i) => IsLuaCall(below, i) && r.u64(frame) == below[0].fn.proto.bc + 4 * (i + 1)
    case Continuation(k, i) =>
      && 1 <= k && SLOT * k < TWO47 && r.u64(frame) == SLOT * k + FRAME_CONT
      && IsLuaCall(below, i) && r.u64(frame - 2 * SLOT) == below[0].fn.proto.bc + 4 * (i + 1)
    case Delta(tag, k) =>
      && (tag == FRAME_C || tag == FRAME_CP || tag == FRAME_PCALL || tag == FRAME_PCALLH)
      && 1 <= k && SLOT * k < TWO47 && r.u64(frame) == SLOT * k + tag
  }

  /** The distance from a frame to the one below it. */
  ghost function LinkSize(link: Link, below: seq<Activation>): int {
    match link
    case ReturnTo(i) =>
      if IsLuaCall(below, i) then SLOT * (2 + below[0].fn.proto.code[i] / 0x100 % 0x100) else 0
    case Continuation(k, _) => SLOT * k
    case Delta(_, k) => SLOT * k
  }

  /** The slot below a frame holds the address in its low 47 bits, under any type tag. */
  ghost predicate HoldsClosure(r: Reads, frame: int, addr: int) { r.u64(frame - SLOT) % TWO47 == addr }

  /** The activations `acts`, leaf first, lie in memory with their top frame at `frame`. */
  ghost predicate Laid(r: Reads, L: U64, bot: U64, acts: seq<Activation>, frame: int)
    decreases |acts|
  {
    if acts == [] then frame == bot
    else
      var own := RealFrame(acts[0], frame);
      && bot < own && frame < TWO47
      && (if acts[0].Call? then
            && ClosureInMemory(r, L, acts[0].fn) && HoldsClosure(r, own, acts[0].fn.addr)
            && (acts[0].vararg > 0 ==>
                  HoldsClosure(r, frame, acts[0].fn.addr) && r.u64(frame) == SLOT * acts[0].vararg + FRAME_VARG)
          else 4096 <= L < TWO47 && HoldsClosure(r, own, L) && r.u8(L + GC_GCT) == GCT_THREAD)
      && LinkInMemory(r, own, acts[0].link, acts[1..])
      && Laid(r, L, bot, acts[1..], own - LinkSize(acts[0].link, acts[1..]))
  }

  /** The frame that carries an activation's link: below its vararg pseudo-frame, if any. */
  function RealFrame(a: Activation, frame: int): int {
    if a.Call? then frame - SLOT * a.vararg else frame
  }

  // ---- what a sample of such a stack should report ----------------------------------

  /** The line charged to a Lua activation, given the link of the activation above it. A
      vararg function and a leaf are charged to their first line. */
  ghost function ChargedLine(p: Proto, vararg: nat, above: Option<Link>): int {
    if vararg > 0 || above.None? || above.value.Delta? then p.firstline
    else CallLine(p, above.value.index)
  }

  ghost function ExpectedEvent(key: SampleKey, a: Activation, above: Option<Link>, level: nat, jit: bool): LuaEvent
    requires a.Call?
  {
    match a.fn
    case LuaClosure(_, p) =>
      LuaEvent(key, level, if jit && level == 0 then FUNC_TYPE_JIT else FUNC_TYPE_LUA,
               ReportedName(p.chunk), 0, ChargedLine(p, a.vararg, above))
    case CClosure(_, entry) => LuaEvent(key, level, FUNC_TYPE_C, [], entry, 0)
    case Builtin(_, ffid) => LuaEvent(key, level, FUNC_TYPE_F, [], 0, ffid)
  }

  /** The events of the functions among the first n physical frames, leaf first: a vararg
      pair takes two frames and reports once, a dummy frame takes one and reports nothing. */
  ghost function Expected(key: SampleKey, acts: seq<Activation>, above: Option<Link>, level: nat, n: nat,
                          jit: bool): seq<LuaEvent>
    decreases |acts|
  {
    if acts == [] || n == 0 then []
    else if acts[0].Dummy? then Expected(key, acts[1..], Some(acts[0].link), level, n - 1, jit)
    else
      var cost := if acts[0].vararg > 0 then 2 else 1;
      if n < cost then []
      else
        [ExpectedEvent(key, acts[0], above, level, jit)]
        + Expected(key, acts[1..], Some(acts[0].link), level + 1, n - cost, jit)
  }

  // ---- the walker reads the layout back ---------------------------------------------

  /** The link above an activation is the one in the frame visited before it. */
  ghost predicate AboveMatches(r: Reads, prev: Option<int>, above: Option<Link>, acts: seq<Activation>) {
    prev.Some? == above.Some? && (above.Some? ==> LinkInMemory(r, prev.value, above.value, acts))
  }

  lemma MarkerOfDelta(k: nat, tag: nat)
    requires SLOT * k < TWO47 && tag < 8
    ensures var v := SLOT * k + tag; FrameTypeP(v) == tag && FrameType(v) == tag % 4 && FrameSized(v) == SLOT * k
  {
    TaggedMultiple(k, tag);
  }

  lemma MarkerOfReturn(bc: int, i: nat)
    requires bc % 4 == 0 && 0 <= bc && bc + 4 * (i + 1) < TWO47
    ensures var v := bc + 4 * (i + 1); FrameType(v) == FRAME_LUA && FrameTypeP(v) != FRAME_VARG
  {
  }

  /** The step taken from a frame slot that holds a tagged delta. */
  lemma StepOfDelta(r: Reads, bot: U64, frame: U64, k: nat, tag: nat)
    requires tag < 8 && tag % 4 != FRAME_LUA && 1 <= k && SLOT * k < TWO47
    requires r.u64(frame) == SLOT * k + tag && bot <= frame - SLOT * k
    ensures NextFrame(r.u64, r, bot, frame) == Some(frame - SLOT * k)
    ensures FrameIsVararg(r.u64, frame) <==> tag == FRAME_VARG
  {
    MarkerOfDelta(k, tag);
    LuaWalkSafety.GuardsCatchWrapAround(r.u64, r, bot, frame);
    hide NextFrame, FrameSized, FrameType, FrameTypeP;
  }

  /** The step taken from a frame slot that holds a return address behind instruction i. */
  lemma StepOfReturn(r: Reads, bot: U64, frame: U64, p: Proto, i: nat)
    requires ProtoShape(p) && CodeInMemory(r, p) && i < |p.code|
    requires r.u64(frame) == p.bc + 4 * (i + 1) && bot <= frame - SLOT * (2 + OperandA(p.code[i]))
    ensures NextFrame(r.u64, r, bot, frame) == Some(frame - SLOT * (2 + OperandA(p.code[i])))
    ensures !FrameIsVararg(r.u64, frame)
  {
    MarkerOfReturn(p.bc, i);
    assert r.u32(p.bc + 4 * i) == p.code[i];
    LuaWalkSafety.GuardsCatchWrapAround(r.u64, r, bot, frame);
    hide NextFrame, FrameSized, FrameType, FrameTypeP;
  }

  /** From a frame that carries a link, the walker steps exactly the link's distance down. */
  lemma StepOfLink(r: Reads, bot: U64, frame: U64, link: Link, below: seq<Activation>)
    requires LinkInMemory(r, frame, link, below)
    requires bot <= frame - LinkSize(link, below)
    requires link.ReturnTo? ==> ProtoInMemory(r, below[0].fn.proto)
    ensures NextFrame(r.u64, r, bot, frame) == Some(frame - LinkSize(link, below))
    ensures !FrameIsVararg(r.u64, frame)
  {
    hide NextFrame, FrameIsVararg, CodeInMemory, LinesInMemory, ChunkInMemory, HeaderInMemory;
    match link {
      case ReturnTo(i) => StepOfReturn(r, bot, frame, below[0].fn.proto, i);
      case Continuation(k, _) => StepOfDelta(r, bot, frame, k, FRAME_CONT);
      case Delta(tag, k) => StepOfDelta(r, bot, frame, k, tag);
    }
  }

  /** The position recovered for an activation is the index in the link above it. */
  lemma PositionOfActivation(r: Reads, a: Activation, prev: Option<int>, above: Option<Link>, acts: seq<Activation>)
    requires a.Call? && a.fn.LuaClosure? && ProtoInMemory(r, a.fn.proto) && r.u64(a.fn.addr + FN_PC) == a.fn.proto.bc
    requires if a.vararg > 0 then prev.Some? && FrameIsVararg(r.u64, prev.value)
             else AboveMatches(r, prev, above, acts) && acts != [] && acts[0] == a
    ensures FrameBcPos(r.u64, r, a.fn.addr, prev)
            == if a.vararg > 0 || above.None? || above.value.Delta? then NO_BCPOS else above.value.index
    ensures a.vararg == 0 && above.Some? && !above.value.Delta? ==> 1 <= above.value.index < |a.fn.proto.code|
  {
    hide BcPosOf, LinesInMemory, ChunkInMemory, HeaderInMemory, CodeInMemory, FrameType, FrameTypeP;
    var p := a.fn.proto;
    if a.vararg > 0 {
      MarkerOfVararg(r.u64(prev.value));
    } else if above.Some? {
      match above.value {
        case ReturnTo(i) =>
          MarkerOfReturn(p.bc, i);
          ReturnAddressPosition(r, a.fn.addr, p.bc, i);
        case Continuation(k, i) =>
          MarkerOfDelta(k, FRAME_CONT);
          ReturnAddressPosition(r, a.fn.addr, p.bc, i);
        case Delta(tag, k) => MarkerOfDelta(k, tag);
      }
    }
  }

  lemma MarkerOfVararg(v: U64)
    requires FrameTypeP(v) == FRAME_VARG
    ensures FrameType(v) == FRAME_VARG
  {
  }

  /** The line reported for a Lua activation is the one it is charged to. */
  lemma LineOfActivation(r: Reads, a: Activation, prev: Option<int>, above: Option<Link>, acts: seq<Activation>)
    requires a.Call? && a.fn.LuaClosure? && ProtoInMemory(r, a.fn.proto) && r.u64(a.fn.addr + FN_PC) == a.fn.proto.bc
    requires if a.vararg > 0 then prev.Some? && FrameIsVararg(r.u64, prev.value)
             else AboveMatches(r, prev, above, acts) && acts != [] && acts[0] == a
    ensures FrameLine(r.u64, r, a.fn.addr, prev) == ChargedLine(a.fn.proto, a.vararg, above)
  {
    hide FrameBcPos, LuaLine, LinesInMemory, CodeInMemory, ChunkInMemory, Signed32, LinkInMemory;
    var p := a.fn.proto;
    var pos := FrameBcPos(r.u64, r, a.fn.addr, prev);
    PositionOfActivation(r, a, prev, above, acts);
    assert FuncProto(r, a.fn.addr) == p.bc - PT_SIZE;
    SignedOfSmall(p.firstline);
    if pos != NO_BCPOS { LineTableLookup(r, p, pos); }
  }

  /** One activation's event is the expected one. */
  lemma EventOfActivation(w: Walk, a: Activation, prev: Option<int>, above: Option<Link>, acts: seq<Activation>,
                          level: nat)
    requires a.Call? && ClosureInMemory(w.r, w.L, a.fn)
    requires if a.vararg > 0 then prev.Some? && FrameIsVararg(w.r.u64, prev.value)
             else AboveMatches(w.r, prev, above, acts) && acts != [] && acts[0] == a
    ensures Emitted(w, w.r.u64, Function(a.fn.addr), prev, level) == [ExpectedEvent(w.key, a, above, level, w.jit)]
  {
    hide FrameLine, LinesInMemory, CodeInMemory, HeaderInMemory, AboveMatches;
    if a.fn.LuaClosure? {
      var p := a.fn.proto;
      LineOfActivation(w.r, a, prev, above, acts);
      assert FuncProto(w.r, a.fn.addr) == p.bc - PT_SIZE;
    }
  }

  lemma StepOfActivation(w: Walk, acts: seq<Activation>, frame: int)
    requires acts != [] && Laid(w.r, w.L, w.bot, acts, frame)
    ensures var own := RealFrame(acts[0], frame);
            && VisitFrame(w.r.u64, w.r, w.L, own) == (if acts[0].Call? then Function(acts[0].fn.addr) else Skipped)
            && NextFrame(w.r.u64, w.r, w.bot, own) == Some(own - LinkSize(acts[0].link, acts[1..]))
  {
    hide ProtoInMemory, NextFrame;
    var own := RealFrame(acts[0], frame);
    var rest := acts[1..];
    var next := own - LinkSize(acts[0].link, rest);
    assert Laid(w.r, w.L, w.bot, rest, next);
    assert w.bot <= next;
    StepOfLink(w.r, w.bot, own, acts[0].link, rest);
  }

  /** A vararg pseudo-frame is passed over, down to the frame of the call itself. */
  lemma StepOfVararg(w: Walk, acts: seq<Activation>, frame: int)
    requires acts != [] && Laid(w.r, w.L, w.bot, acts, frame) && acts[0].Call? && acts[0].vararg > 0
    ensures FrameIsVararg(w.r.u64, frame)
    ensures VisitFrame(w.r.u64, w.r, w.L, frame) == Skipped
    ensures NextFrame(w.r.u64, w.r, w.bot, frame) == Some(RealFrame(acts[0], frame))
  {
    hide ProtoInMemory, NextFrame, LinkInMemory, FrameIsVararg;
    StepOfDelta(w.r, w.bot, frame, acts[0].vararg, FRAME_VARG);
  }

  /** Main result on the walker: on any laid-out call stack it reports exactly the functions
      among the first n physical frames, each with its kind, name and line. */
  lemma {:induction false} WalkReadsLayout(w: Walk, acts: seq<Activation>, frame: int, prev: Option<int>,
                                           above: Option<Link>, level: nat, n: nat)
    requires Laid(w.r, w.L, w.bot, acts, frame) && frame < w.maxstack
    requires AboveMatches(w.r, prev, above, acts)
    ensures WalkFrom(w, w.r.u64, frame, prev, level, n) == Expected(w.key, acts, above, level, n, w.jit)
    decreases |acts|
  {
    hide *;
    WalkUnfolds(w, w.r.u64, frame, prev, level, n);
    ExpectedUnfolds(w.key, acts, above, level, n, w.jit);
    LaidUnfolds(w, acts, frame);
    if acts != [] && n > 0 {
      var a := acts[0];
      var own := RealFrame(a, frame);
      var next := own - LinkSize(a.link, acts[1..]);
      StepOfActivation(w, acts, frame);
      SkippedEmitsNothing(w, prev, level);
      if a.Dummy? {
        WalkReadsLayout(w, acts[1..], next, Some(own), Some(a.link), level, n - 1);
      } else if a.vararg == 0 {
        EventOfActivation(w, a, prev, above, acts, level);
        WalkReadsLayout(w, acts[1..], next, Some(own), Some(a.link), level + 1, n - 1);
      } else {
        StepOfVararg(w, acts, frame);
        WalkUnfolds(w, w.r.u64, own, Some(frame), level, n - 1);
        if n > 1 {
          EventOfActivation(w, a, Some(frame), above, acts, level);
          WalkReadsLayout(w, acts[1..], next, Some(own), Some(a.link), level + 1, n - 2);
        }
      }
    }
  }

  /** What a layout says of its top activation, and of the layout below. */
  lemma LaidUnfolds(w: Walk, acts: seq<Activation>, frame: int)
    requires Laid(w.r, w.L, w.bot, acts, frame)
    ensures acts == [] ==> frame == w.bot
    ensures acts != [] ==>
              var a := acts[0];
              var own := RealFrame(a, frame);
              && w.bot < own <= frame && (a.Dummy? || a.vararg == 0 ==> own == frame)
              && (a.Call? ==> ClosureInMemory(w.r, w.L, a.fn))
              && AboveMatches(w.r, Some(own), Some(a.link), acts[1..])
              && own - LinkSize(a.link, acts[1..]) <= own
              && Laid(w.r, w.L, w.bot, acts[1..], own - LinkSize(a.link, acts[1..]))
  {
    hide ClosureInMemory, HoldsClosure, GcType;
    if acts != [] { LinkSizeIsNatural(acts[0].link, acts[1..]); }
    hide LinkInMemory, LinkSize;
  }

  lemma LinkSizeIsNatural(link: Link, below: seq<Activation>)
    ensures LinkSize(link, below) >= 0
  {
  }

  lemma ExpectedUnfolds(key: SampleKey, acts: seq<Activation>, above: Option<Link>, level: nat, n: nat, jit: bool)
    ensures Expected(key, acts, above, level, n, jit)
            == if acts == [] || n == 0 then []
               else if acts[0].Dummy? then Expected(key, acts[1..], Some(acts[0].link), level, n - 1, jit)
               else if acts[0].vararg == 0 then
                 [ExpectedEvent(key, acts[0], above, level, jit)]
                 + Expected(key, acts[1..], Some(acts[0].link), level + 1, n - 1, jit)
               else if n == 1 then []
               else
                 [ExpectedEvent(key, acts[0], above, level, jit)]
                 + Expected(key, acts[1..], Some(acts[0].link), level + 1, n - 2, jit)
  {
    hide ExpectedEvent;
  }

  lemma SkippedEmitsNothing(w: Walk, prev: Option<int>, level: nat)
    ensures Emitted(w, w.r.u64, Skipped, prev, level) == []
  {
  }

  // ---- a state and its stack --------------------------------------------------------

  /** A word of the state L. */
  function StateWord(r: Reads, L: U64, offset: int): U64 { r.u64((L + offset) % TWO64) }

  /** The slot above the start of the stack. */
  function Bottom(r: Reads, L: U64): U64 { (StateWord(r, L, L_STACK) + SLOT) % TWO64 }

  /** The base that the global state records for a running JIT trace. */
  function TraceBase(r: Reads, L: U64): U64 { r.u64(StateWord(r, L, L_GLREF) + G_JIT_BASE) }

  /** A trace is running on this state: the global state is there, names L as its current
      state, and records a base inside L's stack. */
  ghost predicate TraceActive(r: Reads, L: U64) {
    var g := StateWord(r, L, L_GLREF);
    && 4096 <= g < TWO47
    && r.u64(g + G_CUR_L) % TWO47 == L
    && Bottom(r, L) < TraceBase(r, L) <= StateWord(r, L, L_MAXSTACK)
  }

  /** The base of the topmost activation: the trace's, or else the one the state stores. */
  ghost function TopBase(r: Reads, L: U64): U64 {
    if TraceActive(r, L) then TraceBase(r, L) else StateWord(r, L, L_BASE)
  }

  lemma StartInWords(r: Reads, L: U64)
    ensures WalkStart(r, L)
            == if Bottom(r, L) < TopBase(r, L) <= StateWord(r, L, L_MAXSTACK)
               then Some(Start(Bottom(r, L), StateWord(r, L, L_MAXSTACK), TopBase(r, L), TraceActive(r, L))) else None
  {
  }

  /** The state L of a sampled thread holds the call stack `acts`, its topmost activation at the
      running trace's base, or else at the state's own. */
  ghost predicate HoldsStack(r: Reads, L: U64, acts: seq<Activation>) {
    && L != 0 && Bottom(r, L) < TopBase(r, L) <= StateWord(r, L, L_MAXSTACK)
    && Laid(r, L, Bottom(r, L), acts, TopBase(r, L) - SLOT)
  }

  lemma WalksFromTopBase(r: Reads, L: U64, key: SampleKey, n: nat)
    requires L != 0 && SLOT <= TopBase(r, L) && Bottom(r, L) < TopBase(r, L) <= StateWord(r, L, L_MAXSTACK)
    ensures WalkState(r, L, key, n)
            == WalkFrom(Walk(r, L, Bottom(r, L), StateWord(r, L, L_MAXSTACK), key, TraceActive(r, L)), r.u64,
                        TopBase(r, L) - SLOT, None, 0, n)
  {
    StartInWords(r, L);
    hide WalkStart, WalkFrom, TraceActive, TopBase, Bottom, StateWord;
    WalkStateUnfolds(r, L, key, n);
    WrapOfSmall(TopBase(r, L) - SLOT);
  }

  /** The sample-level form of the main result, for every depth cap: the call stack is read from
      the trace's base and its leaf tagged JIT exactly when a trace is running. */
  lemma SampleReadsStack(r: Reads, L: U64, acts: seq<Activation>, key: SampleKey, n: nat)
    requires HoldsStack(r, L, acts)
    ensures WalkState(r, L, key, n) == Expected(key, acts, None, 0, n, TraceActive(r, L))
  {
    hide *;
    BaseHoldsFrame(r, L, acts);
    WalksFromTopBase(r, L, key, n);
    NothingAbove(r, acts);
    WalkReadsLayout(Walk(r, L, Bottom(r, L), StateWord(r, L, L_MAXSTACK), key, TraceActive(r, L)), acts,
                    TopBase(r, L) - SLOT, None, None, 0, n);
  }

  lemma BaseHoldsFrame(r: Reads, L: U64, acts: seq<Activation>)
    requires HoldsStack(r, L, acts)
    ensures L != 0 && Bottom(r, L) < TopBase(r, L) <= StateWord(r, L, L_MAXSTACK) && SLOT > 0
    ensures SLOT <= TopBase(r, L) && Laid(r, L, Bottom(r, L), acts, TopBase(r, L) - SLOT)
  {
    hide ClosureInMemory, LinkInMemory, HoldsClosure, TopBase, Bottom, StateWord, LinkSize;
  }

  lemma NothingAbove(r: Reads, acts: seq<Activation>)
    ensures AboveMatches(r, None, None, acts)
  {
  }

  /** An active trace's base, where the state's own is never looked at. */
  lemma TraceIsReadFromItsBase(r: Reads, L: U64, acts: seq<Activation>, key: SampleKey, n: nat)
    requires L != 0 && TraceActive(r, L) && Laid(r, L, Bottom(r, L), acts, TraceBase(r, L) - SLOT)
    ensures WalkState(r, L, key, n) == Expected(key, acts, None, 0, n, true)
  {
    assert HoldsStack(r, L, acts) by { hide Laid, Bottom, TraceBase, StateWord; }
    hide *;
    SampleReadsStack(r, L, acts, key, n);
  }

  /** Without a trace, the state's own base. */
  lemma StateIsReadFromItsBase(r: Reads, L: U64, acts: seq<Activation>, key: SampleKey, n: nat)
    requires L != 0 && !TraceActive(r, L) && Bottom(r, L) < StateWord(r, L, L_BASE) <= StateWord(r, L, L_MAXSTACK)
    requires Laid(r, L, Bottom(r, L), acts, StateWord(r, L, L_BASE) - SLOT)
    ensures WalkState(r, L, key, n) == Expected(key, acts, None, 0, n, false)
  {
    assert HoldsStack(r, L, acts) by { hide Laid, Bottom, StateWord, TraceActive; }
    hide *;
    SampleReadsStack(r, L, acts, key, n);
  }

  /** A base outside the stack, without a trace, reports nothing at all. */
  lemma StrayBaseReportsNothing(r: Reads, L: U64, key: SampleKey, n: nat)
    requires L == 0 || (!TraceActive(r, L) && !(Bottom(r, L) < StateWord(r, L, L_BASE) <= StateWord(r, L, L_MAXSTACK)))
    ensures WalkState(r, L, key, n) == []
  {
    StartInWords(r, L);
    hide WalkStart;
    WalkStateUnfolds(r, L, key, n);
  }

  /** When the line of an activation's call in progress is reported: exactly when the caller
      is not a vararg function, or that line happens to be the function's first. A vararg
      function's position is looked for in its own pseudo-frame, which holds no address. */
  lemma CallLineReportedExactly(w: Walk, acts: seq<Activation>, frame: int, prev: Option<int>,
                                above: Option<Link>, level: nat, n: nat)
    requires Laid(w.r, w.L, w.bot, acts, frame) && frame < w.maxstack
    requires AboveMatches(w.r, prev, above, acts)
    requires above.Some? && !above.value.Delta? && n >= 2
    ensures var es, p := WalkFrom(w, w.r.u64, frame, prev, level, n), acts[0].fn.proto;
            && es != [] && es[0].level == level
            && (es[0].line == CallLine(p, above.value.index)
                <==> acts[0].vararg == 0 || p.firstline == CallLine(p, above.value.index))
  {
    WalkReadsLayout(w, acts, frame, prev, above, level, n);
    hide WalkFrom, Laid;
  }

  /** The top activation of a laid-out stack is the first event, with its charged line. */
  lemma TopEvent(w: Walk, acts: seq<Activation>, frame: int, prev: Option<int>, above: Option<Link>, level: nat, n: nat)
    requires Laid(w.r, w.L, w.bot, acts, frame) && frame < w.maxstack
    requires AboveMatches(w.r, prev, above, acts)
    requires acts != [] && acts[0].Call? && n >= if acts[0].vararg > 0 then 2 else 1
    ensures var es := WalkFrom(w, w.r.u64, frame, prev, level, n);
            es != [] && es[0] == ExpectedEvent(w.key, acts[0], above, level, w.jit)
    ensures ClosureInMemory(w.r, w.L, acts[0].fn)
  {
    hide *;
    WalkReadsLayout(w, acts, frame, prev, above, level, n);
    LaidUnfolds(w, acts, frame);
    ExpectedUnfolds(w.key, acts, above, level, n, w.jit);
  }

  /** A leaf is charged to its function's first line, so the line it is on is reported exactly
      when that is the first. */
  lemma LeafLineReportedExactly(w: Walk, acts: seq<Activation>, frame: int, level: nat, n: nat, current: nat)
    requires Laid(w.r, w.L, w.bot, acts, frame) && frame < w.maxstack
    requires acts != [] && acts[0].Call? && acts[0].fn.LuaClosure? && n >= if acts[0].vararg > 0 then 2 else 1
    requires current < |acts[0].fn.proto.code|
    ensures var es, p := WalkFrom(w, w.r.u64, frame, None, level, n), acts[0].fn.proto;
            && es != [] && es[0].line == p.firstline
            && (es[0].line == CallLine(p, current) <==> CallLine(p, current) == p.firstline)
  {
    TopEvent(w, acts, frame, None, None, level, n);
    hide WalkFrom, Laid;
  }

  /** When a Lua activation is reported on line 0, over all activations. */
  lemma LineIsZeroExactly(w: Walk, acts: seq<Activation>, frame: int, prev: Option<int>,
                          above: Option<Link>, level: nat, n: nat)
    requires Laid(w.r, w.L, w.bot, acts, frame) && frame < w.maxstack
    requires AboveMatches(w.r, prev, above, acts)
    requires acts != [] && acts[0].Call? && acts[0].fn.LuaClosure? && n >= if acts[0].vararg > 0 then 2 else 1
    ensures var es, p := WalkFrom(w, w.r.u64, frame, prev, level, n), acts[0].fn.proto;
            var called := acts[0].vararg == 0 && above.Some? && !above.value.Delta?;
            && es != [] && es[0].line >= 0
            && (es[0].line == 0 <==> if called then CallLine(p, above.value.index) == 0 else p.firstline == 0)
            && (p.firstline > 0 ==> (es[0].line == 0 <==> called && p.lines.None?))
  {
    TopEvent(w, acts, frame, prev, above, level, n);
    var a := acts[0];
    var p := a.fn.proto;
    assert ProtoInMemory(w.r, p);
    if a.vararg == 0 && above.Some? && !above.value.Delta? {
      assert IsLuaCall(acts, above.value.index);
      LineTableLookup(w.r, p, above.value.index);
    }
    hide WalkFrom, Laid, LuaLine, HeaderInMemory, CodeInMemory, LinesInMemory, ChunkInMemory;
  }

  /** Outside the table: the header instruction is on the first line, the end of the bytecode on
      the last, and any position further on has no line. */
  lemma LineTableEdges(r: Reads, p: Proto, pc: U32)
    requires ProtoInMemory(r, p) && (pc == 0 || pc >= |p.code|)
    ensures LuaLine(r, p.bc - PT_SIZE, pc)
            == if pc > |p.code| then -1
               else if p.lines.None? then 0
               else if pc == 0 then p.firstline else p.firstline + p.numline
  {
    hide CodeInMemory, ChunkInMemory;
  }

  /** A position without a line is charged to the function's first line. */
  lemma StrayPositionFallsBack(slots: int -> U64, r: Reads, fn: int, prev: Option<int>, p: Proto)
    requires ProtoInMemory(r, p) && r.u64(fn + FN_PC) == p.bc && FrameBcPos(slots, r, fn, prev) > |p.code|
    ensures FrameLine(slots, r, fn, prev) == p.firstline
  {
    hide FrameBcPos, CodeInMemory, ChunkInMemory, LinesInMemory;
    SignedOfSmall(p.firstline);
  }
}
