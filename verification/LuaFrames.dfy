/** The GC64/FR2 decoding layer: frame slots, object headers and prototypes.

    Frame slots are read through `slots` and objects through `r`. The program uses one
    memory for both; keeping them apart lets a lemma say which stack slots are looked at. */
module LuaFrames {
  import opened Machine
  import opened ProbeReads

  // Field offsets of the GC64 object layouts.
  const GC_GCT := 9
  const FN_FFID := 10
  const FN_PC := 32
  const FN_CFUNC := 40
  const PT_SIZEBC := 12
  const PT_CHUNKNAME := 64
  const PT_FIRSTLINE := 72
  const PT_NUMLINE := 76
  const PT_LINEINFO := 80
  const PT_SIZE := 104
  const STR_SIZE := 24
  const L_GLREF := 16
  const L_BASE := 32
  const L_MAXSTACK := 48
  const L_STACK := 56
  const G_CUR_L := 376
  const G_JIT_BASE := 384

  const GCT_THREAD := 6
  const GCT_FUNC := 8
  const FF_LUA := 0
  const FF_C := 1

  const SLOT := 8

  predicate Aligned(a: int) { a % SLOT == 0 }

  // Frame markers: the low three bits of a frame slot.
  const FRAME_LUA := 0
  const FRAME_C := 1
  const FRAME_CONT := 2
  const FRAME_VARG := 3
  const FRAME_CP := 5
  const FRAME_PCALL := 6
  const FRAME_PCALLH := 7

  const NO_BCPOS: int := 0xffff_ffff

  function FrameType(ftsz: U64): int { ftsz % 4 }

  function FrameTypeP(ftsz: U64): int { ftsz % 8 }

  /** The signed delta of a frame slot with its marker bits cleared. */
  function FrameSized(ftsz: U64): int { Signed64(ftsz) - ftsz % 8 }

  predicate ValidUserPtr(p: int) { 4096 <= p < TWO47 }

  /** Strips the tag bits off a GC reference. */
  function GcMask(v: U64): U64 { v % TWO47 }

  /** The object in the function slot just below a frame pointer. */
  function FrameGc(slots: int -> U64, frame: int): U64 {
    GcMask(slots(frame - SLOT))
  }

  predicate FrameIsVararg(slots: int -> U64, frame: int) {
    FrameTypeP(slots(frame)) == FRAME_VARG
  }

  function GcType(r: Reads, gco: int): int { r.u8(gco + GC_GCT) }

  /** The prototype of a Lua closure. It sits just below its bytecode, so a closure with
      no bytecode gives a small negative number; no such address is readable. */
  function FuncProto(r: Reads, fn: int): int { r.u64(fn + FN_PC) - PT_SIZE }

  /** Operand A of a bytecode instruction. */
  function OperandA(ins: nat): (a: nat)
    ensures a < 0x100
  {
    ins / 0x100 % 0x100
  }

  /** Operand A of the instruction just before a return address. */
  function CallOperandA(r: Reads, pc: int): (a: nat)
    ensures a < 0x100
  {
    OperandA(r.u32(pc - 4))
  }

  lemma TaggedMultiple(k: int, tag: int)
    requires 0 <= tag < 8
    ensures (8 * k + tag) % 8 == tag && (8 * k + tag) % 4 == tag % 4
  {
    assert 8 * k + tag == 4 * (2 * k) + tag;
  }

  /** A frame delta is a whole number of slots. */
  lemma SizedIsWholeSlots(ftsz: U64)
    ensures FrameSized(ftsz) % SLOT == 0
  {
    var k := ftsz / 8;
    assert ftsz == 8 * k + ftsz % 8;
    if ftsz < TWO63 { TaggedMultiple(k, 0); } else { TaggedMultiple(k - TWO64 / 8, 0); }
  }

  lemma AlignedGap(a: int, b: int)
    requires Aligned(a) && Aligned(b) && a < b
    ensures a + SLOT <= b
  {
  }

  lemma AlignedNeighbours(a: int)
    requires Aligned(a)
    ensures Aligned(a - SLOT) && Aligned(a + SLOT)
  {
  }

  // ---- what the decoders mean -------------------------------------------------------

  /** Operand A is the second byte of an instruction word. */
  lemma OperandAOfInstruction(op: Byte, a: Byte, rest: nat)
    requires rest < 0x1_0000
    ensures OperandA(op + 0x100 * a + 0x1_0000 * rest) == a
  {
    assert (op + 0x100 * a + 0x1_0000 * rest) / 0x100 == a + 0x100 * rest;
  }

  /** A tagged reference gives its address, whatever the 17 bits above. */
  lemma GcMaskStripsTag(tag: nat, addr: nat)
    requires addr < TWO47 && tag < 0x2_0000
    ensures tag * TWO47 + addr < TWO64 && GcMask(tag * TWO47 + addr) == addr
  {
  }

  /** A frame slot that holds k slots' worth of bytes, up or down, and a marker. */
  lemma SlotDecodes(k: int, marker: nat)
    requires marker < 8 && -TWO63 <= 8 * k && 8 * k + marker < TWO63
    ensures var v := (8 * k + marker) % TWO64;
            FrameSized(v) == 8 * k && FrameTypeP(v) == marker && FrameType(v) == marker % 4
  {
    TaggedMultiple(k, marker);
    var v := (8 * k + marker) % TWO64;
    if k < 0 {
      assert v == 8 * (k + TWO64 / 8) + marker;
      TaggedMultiple(k + TWO64 / 8, marker);
    }
  }

  /** The two's complement readings are the integers they stand for. */
  lemma SignedReadsBack(x: int)
    ensures -TWO31 <= x < TWO31 ==> Signed32(x % TWO32) == x
    ensures -TWO63 <= x < TWO63 ==> Signed64(x % TWO64) == x
  {
  }

  // ---- where fields lie -------------------------------------------------------------

  /** A field of a size goes to the first multiple of it that is not below an address. */
  predicate FieldGoes(at: nat, size: nat, offset: nat) {
    && at <= offset < at + size
    && match size
       case 1 => true
       case 2 => offset % 2 == 0
       case 4 => offset % 4 == 0
       case 8 => offset % 8 == 0
       case _ => false
  }

  /** Fields laid out one behind the other from an address, each aligned to its size. */
  ghost predicate LaidOut(start: nat, sizes: seq<nat>, offsets: seq<nat>) {
    && |offsets| == |sizes|
    && forall i :: 0 <= i < |sizes| ==>
         FieldGoes(if i == 0 then start else offsets[i - 1] + sizes[i - 1], sizes[i], offsets[i])
  }

  /** Object header, ffid, nupvalues, env, gclist, pc; then a C function's entry. */
  const FUNC_SIZES: seq<nat> := [8, 1, 1, 1, 1, 8, 8, 8, 8]
  const FUNC_OFFSETS: seq<nat> := [0, 8, GC_GCT, FN_FFID, 11, 16, 24, FN_PC, FN_CFUNC]

  /** Object header, numparams, framesize, sizebc, padding word, gclist, k, uv; then sizekgc,
      sizekn, sizept, sizeuv, flags, trace. */
  const PROTO_SIZES: seq<nat> := [8, 1, 1, 1, 1, 4, 4, 8, 8, 8]
  const PROTO_OFFSETS: seq<nat> := [0, 8, GC_GCT, 10, 11, PT_SIZEBC, 16, 24, 32, 40]
  const PROTO_REST_SIZES: seq<nat> := [4, 4, 4, 1, 1, 2]
  const PROTO_REST_OFFSETS: seq<nat> := [48, 52, 56, 60, 61, 62]

  /** Behind trace: chunkname, firstline, numline, lineinfo, uvinfo, varinfo. */
  const DEBUG_SIZES: seq<nat> := [8, 4, 4, 8, 8, 8]
  const DEBUG_OFFSETS: seq<nat> := [PT_CHUNKNAME, PT_FIRSTLINE, PT_NUMLINE, PT_LINEINFO, 88, 96]

  /** Object header, reserved, hashalg, sid, hash, len. */
  const STRING_SIZES: seq<nat> := [8, 1, 1, 1, 1, 4, 4, 4]
  const STRING_OFFSETS: seq<nat> := [0, 8, GC_GCT, 10, 11, 12, 16, 20]

  /** Object header, dummy_ffid, status, glref, gclist, base, top, maxstack, stack. */
  const STATE_SIZES: seq<nat> := [8, 1, 1, 1, 1, 8, 8, 8, 8, 8, 8]
  const STATE_OFFSETS: seq<nat> := [0, 8, GC_GCT, 10, 11, L_GLREF, 24, L_BASE, 40, L_MAXSTACK, L_STACK]

  lemma FunctionOffsets()
    ensures LaidOut(0, FUNC_SIZES, FUNC_OFFSETS)
  {
  }

  lemma PrototypeOffsets()
    ensures LaidOut(0, PROTO_SIZES, PROTO_OFFSETS)
  {
  }

  lemma PrototypeRestOffsets()
    ensures LaidOut(40 + 8, PROTO_REST_SIZES, PROTO_REST_OFFSETS)
  {
  }

  /** Behind its last field a prototype's header ends, and its bytecode starts. */
  lemma DebugOffsets()
    ensures LaidOut(62 + 2, DEBUG_SIZES, DEBUG_OFFSETS) && FieldGoes(96 + 8, 8, PT_SIZE)
  {
  }

  /** Behind its last field a string's header ends, and its text starts. */
  lemma StringOffsets()
    ensures LaidOut(0, STRING_SIZES, STRING_OFFSETS) && FieldGoes(20 + 4, 8, STR_SIZE)
  {
  }

  lemma StateOffsets()
    ensures LaidOut(0, STATE_SIZES, STATE_OFFSETS)
  {
  }

  /** The offsets used are those of the declared structures. */
  lemma OffsetsFollowDeclarations()
    ensures LaidOut(0, FUNC_SIZES, FUNC_OFFSETS)
    ensures LaidOut(0, PROTO_SIZES, PROTO_OFFSETS) && LaidOut(40 + 8, PROTO_REST_SIZES, PROTO_REST_OFFSETS)
    ensures LaidOut(62 + 2, DEBUG_SIZES, DEBUG_OFFSETS) && FieldGoes(96 + 8, 8, PT_SIZE)
    ensures LaidOut(0, STRING_SIZES, STRING_OFFSETS) && FieldGoes(20 + 4, 8, STR_SIZE)
    ensures LaidOut(0, STATE_SIZES, STATE_OFFSETS)
  {
    hide *;
    FunctionOffsets();
    PrototypeOffsets();
    PrototypeRestOffsets();
    DebugOffsets();
    StringOffsets();
    StateOffsets();
  }
}
