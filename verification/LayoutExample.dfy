/** A concrete call stack: a vararg main chunk, first line 10, calls a C function on line 12. */
module LayoutExample {
  import opened Machine
  import opened ProbeReads
  import opened LuaFrames
  import opened LuaWalk
  import opened LuaLayout

  // Addresses of the state, the two closures, the bytecode, the line table and the name.
  const L: U64 := 0x7000
  const C_FN: U64 := 0x5000
  const LUA_FN: U64 := 0x6000
  const BC: U64 := 0x8068
  const LINEINFO: U64 := 0x9000
  const STR: U64 := 0xA000
  const STACK: U64 := 0x1_0000
  const BOT: U64 := STACK + SLOT
  const CHUNK: seq<Byte> := [64, 102]

  const MainChunk := Proto(BC, [0, 0x100], 10, 5, Some([10, 12]), CHUNK)

  const CallStack: seq<Activation> := [
    Call(CClosure(C_FN, 0x4_0000), 0, ReturnTo(1)),
    Call(LuaClosure(LUA_FN, MainChunk), 3, Delta(FRAME_C, 2))
  ]

  /** The target's memory, one aligned 64-bit word at a time. */
  function Word(a: int): U64 {
    if a == L + L_STACK then STACK
    else if a == L + L_BASE then STACK + 0x50
    else if a == L + L_MAXSTACK then STACK + 0x100
    else if a == STACK + 0x48 then BC + 8
    else if a == STACK + 0x40 then C_FN
    else if a == STACK + 0x30 then 3 * SLOT + FRAME_VARG
    else if a == STACK + 0x28 then LUA_FN
    else if a == STACK + 0x18 then 2 * SLOT + FRAME_C
    else if a == STACK + 0x10 then LUA_FN
    else if a == LUA_FN + 8 then GCT_FUNC * 0x100
    else if a == LUA_FN + FN_PC then BC
    else if a == C_FN + 8 then FF_C * 0x1_0000 + GCT_FUNC * 0x100
    else if a == C_FN + FN_CFUNC then 0x4_0000
    else if a == BC - PT_SIZE + 8 then 2 * TWO32
    else if a == BC - PT_SIZE + PT_FIRSTLINE then 5 * TWO32 + 10
    else if a == BC - PT_SIZE + PT_LINEINFO then LINEINFO
    else if a == BC - PT_SIZE + PT_CHUNKNAME then STR
    else if a == BC then 0x100 * TWO32
    else if a == LINEINFO then 2
    else if a == STR + STR_SIZE then 0x6640
    else 0
  }

  const LIMIT := 0x1_1000

  function Target(): Memory {
    map a | 0 <= a < LIMIT :: ToLE(Word(a / 8 * 8), 8)[a % 8]
  }

  lemma TargetBytes(a: nat, k: nat, n: nat)
    requires a % 8 == 0 && a + 8 <= LIMIT && k + n <= 8
    ensures Readable(Target(), a + k, n) && MemBytes(Target(), a + k, n) == ToLE(Word(a), 8)[k..k + n]
  {
    hide ToLE, Word, Target;
    var m, bs := Target(), ToLE(Word(a), 8);
    forall j | a <= j < a + 8 ensures j in m && m[j] == bs[j - a] { ByteOfWord(a, j); }
    assert MemBytes(m, a + k, n) == bs[k..k + n];
  }

  lemma ByteOfWord(a: nat, j: nat)
    requires a % 8 == 0 && a <= j < a + 8 <= LIMIT
    ensures j in Target() && Target()[j] == ToLE(Word(a), 8)[j - a]
  {
    hide ToLE, Word;
    assert j / 8 * 8 == a && j % 8 == j - a;
  }

  lemma ReadsWord(a: nat)
    requires a % 8 == 0 && a + 8 <= LIMIT
    ensures ReadsOf(Target()).u64(a) == Word(a)
  {
    hide Word, Target;
    TargetBytes(a, 0, 8);
    assert ToLE(Word(a), 8)[0..0 + 8] == ToLE(Word(a), 8);
    assert Pow256(8) == TWO64;
    LittleEndianRoundTrip(Word(a), 8);
  }

  /** Bytes k to k + n of a word, as a number. */
  function Part(w: U64, k: nat, n: nat): nat
    requires k + n <= 8
  {
    FromLE(ToLE(w, 8)[k..k + n])
  }

  lemma ReadsHalf(a: nat, k: nat)
    requires a % 8 == 0 && a + 8 <= LIMIT && k + 4 <= 8
    ensures ReadsOf(Target()).u32(a + k) == Part(Word(a), k, 4)
  {
    hide Word, Target;
    TargetBytes(a, k, 4);
  }

  lemma ReadsByte(a: nat, k: nat)
    requires a % 8 == 0 && a + 8 <= LIMIT && k < 8
    ensures ReadsOf(Target()).u8(a + k) == Part(Word(a), k, 1)
  {
    hide Word, Target;
    TargetBytes(a, k, 1);
  }

  lemma LeadingByte(b: Byte, rest: nat, n: nat)
    ensures ToLE(b + 0x100 * rest, n + 1) == [b] + ToLE(rest, n)
  {
    LowByte(b, rest);
  }

  lemma LowByte(b: Byte, rest: nat)
    ensures (b + 0x100 * rest) % 0x100 == b && (b + 0x100 * rest) / 0x100 == rest
  {
  }

  lemma Regrouped(p: nat, high: nat)
    ensures 0x100 * p * high == 0x100 * (p * high)
  {
  }

  /** The encoding of a number put together from two is theirs put together. */
  lemma {:induction false} EncodingSplits(low: nat, high: nat, m: nat, n: nat)
    requires low < Pow256(m)
    ensures ToLE(low + Pow256(m) * high, m + n) == ToLE(low, m) + ToLE(high, n)
  {
    if m > 0 {
      var p := Pow256(m - 1);
      assert low / 0x100 < p && Pow256(m) == 0x100 * p;
      hide ToLE, Pow256;
      Regrouped(p, high);
      EncodingSplits(low / 0x100, high, m - 1, n);
      LeadingByte(low % 0x100, low / 0x100 + p * high, m - 1 + n);
      LeadingByte(low % 0x100, low / 0x100, m - 1);
    }
  }

  lemma Halves(w: U64, low: U32, high: U32)
    requires w == low + TWO32 * high
    ensures Part(w, 0, 4) == low && Part(w, 4, 4) == high
  {
    assert Pow256(4) == TWO32;
    EncodingSplits(low, high, 4, 4);
    var bs := ToLE(low, 4) + ToLE(high, 4);
    assert bs[0..4] == ToLE(low, 4) && bs[4..8] == ToLE(high, 4);
    LittleEndianRoundTrip(low, 4);
    LittleEndianRoundTrip(high, 4);
  }

  lemma FirstBytes(w: U64, a: Byte, b: Byte, c: Byte)
    requires w == a + 0x100 * b + 0x1_0000 * c
    ensures Part(w, 0, 1) == a && Part(w, 1, 1) == b && Part(w, 2, 1) == c
    ensures ToLE(w, 8)[0..3] == [a, b, c]
  {
    LeadingByte(a, b + 0x100 * c, 7);
    LeadingByte(b, c, 6);
    LeadingByte(c, 0, 5);
    SingleByte(a);
    SingleByte(b);
    SingleByte(c);
    hide ToLE, FromLE;
    var bs := ToLE(w, 8);
    assert bs[0..1] == [a] && bs[1..2] == [b] && bs[2..3] == [c];
  }

  lemma ReadsBytes(at: nat, a: Byte, b: Byte, c: Byte)
    requires at % 8 == 0 && at + 8 <= LIMIT && Word(at) == a + 0x100 * b + 0x1_0000 * c
    ensures var r := ReadsOf(Target());
            r.u8(at) == a && r.u8(at + 1) == b && r.u8(at + 2) == c
  {
    hide *;
    FirstBytes(Word(at), a, b, c);
    ReadsByte(at, 0);
    ReadsByte(at, 1);
    ReadsByte(at, 2);
  }

  lemma SingleByte(b: Byte)
    ensures FromLE([b]) == b
  {
  }

  // ---- what probes read -------------------------------------------------------------

  ghost predicate StackSeen(r: Reads) {
    && r.u64(L + L_STACK) == STACK && r.u64(L + L_BASE) == STACK + 0x50 && r.u64(L + L_MAXSTACK) == STACK + 0x100
    && r.u64(L + L_GLREF) == 0
    && r.u64(STACK + 0x48) == BC + 8 && r.u64(STACK + 0x40) == C_FN
    && r.u64(STACK + 0x30) == 3 * SLOT + FRAME_VARG && r.u64(STACK + 0x28) == LUA_FN
    && r.u64(STACK + 0x18) == 2 * SLOT + FRAME_C && r.u64(STACK + 0x10) == LUA_FN
  }

  ghost predicate ClosuresSeen(r: Reads) {
    && r.u8(C_FN + GC_GCT) == GCT_FUNC && r.u8(C_FN + FN_FFID) == FF_C && r.u64(C_FN + FN_CFUNC) == 0x4_0000
    && r.u8(LUA_FN + GC_GCT) == GCT_FUNC && r.u8(LUA_FN + FN_FFID) == FF_LUA && r.u64(LUA_FN + FN_PC) == BC
  }

  ghost predicate ProtoSeen(r: Reads) {
    var pt := BC - PT_SIZE;
    && r.u32(pt + PT_SIZEBC) == 2 && r.u32(pt + PT_FIRSTLINE) == 10 && r.u32(pt + PT_NUMLINE) == 5
    && r.u64(pt + PT_LINEINFO) == LINEINFO && r.u8(LINEINFO) == 2
    && r.u64(pt + PT_CHUNKNAME) == STR && r.name(STR + STR_SIZE) == CHUNK
    && r.u32(BC) == 0 && r.u32(BC + 4) == 0x100
  }

  lemma SeesStack()
    ensures StackSeen(ReadsOf(Target()))
  {
    hide ReadsOf, Target;
    ReadsWord(L + L_STACK);
    ReadsWord(L + L_BASE);
    ReadsWord(L + L_MAXSTACK);
    ReadsWord(L + L_GLREF);
    ReadsWord(STACK + 0x48);
    ReadsWord(STACK + 0x40);
    ReadsWord(STACK + 0x30);
    ReadsWord(STACK + 0x28);
    ReadsWord(STACK + 0x18);
    ReadsWord(STACK + 0x10);
  }

  lemma SeesClosures()
    ensures ClosuresSeen(ReadsOf(Target()))
  {
    hide ReadsOf, Target;
    ReadsBytes(C_FN + 8, 0, 8, 1);
    ReadsBytes(LUA_FN + 8, 0, 8, 0);
    ReadsWord(C_FN + FN_CFUNC);
    ReadsWord(LUA_FN + FN_PC);
  }

  lemma SeesProto()
    ensures ProtoSeen(ReadsOf(Target()))
  {
    SeesName();
    hide ReadsOf, Target, Part, CHUNK;
    Halves(2 * TWO32, 0, 2);
    Halves(5 * TWO32 + 10, 10, 5);
    Halves(0x100 * TWO32, 0, 0x100);
    FirstBytes(2, 2, 0, 0);
    ReadsHalf(BC - PT_SIZE + 8, 4);
    ReadsHalf(BC - PT_SIZE + PT_FIRSTLINE, 0);
    ReadsHalf(BC - PT_SIZE + PT_FIRSTLINE, 4);
    ReadsHalf(BC, 0);
    ReadsHalf(BC, 4);
    ReadsByte(LINEINFO, 0);
    ReadsWord(BC - PT_SIZE + PT_LINEINFO);
    ReadsWord(BC - PT_SIZE + PT_CHUNKNAME);
  }

  lemma SeesName()
    ensures ReadsOf(Target()).name(STR + STR_SIZE) == CHUNK
  {
    hide Target, ReadsOf, ToLE, Part;
    TargetBytes(STR + STR_SIZE, 0, 3);
    FirstBytes(0x6640, 64, 102, 0);
    assert Word(STR + STR_SIZE) == 0x6640 && CHUNK + [0] == [64, 102, 0] && ReportedName(CHUNK) == CHUNK;
    hide Word, CHUNK, ReportedName;
    ChunkNameDecodes(Target(), STR + STR_SIZE, CHUNK);
  }

  // ---- the call stack it holds ------------------------------------------------------

  lemma MainChunkInMemory(r: Reads)
    requires ProtoSeen(r)
    ensures ProtoInMemory(r, MainChunk)
  {
    assert LineWidth(5) == 1;
  }

  lemma MainChunkLaid(r: Reads)
    requires StackSeen(r) && ClosuresSeen(r) && ProtoSeen(r)
    ensures Laid(r, L, BOT, CallStack[1..], STACK + 0x30)
  {
    MainChunkInMemory(r);
    hide ProtoInMemory, ProtoSeen;
    var a := CallStack[1];
    assert CallStack[1..] == [a] && [a][1..] == [];
    assert Laid(r, L, BOT, [], BOT);
    assert ClosureInMemory(r, L, a.fn);
    assert LinkInMemory(r, STACK + 0x18, a.link, []);
  }

  lemma CallStackLaid(r: Reads)
    requires StackSeen(r) && ClosuresSeen(r) && ProtoSeen(r)
    ensures HoldsStack(r, L, CallStack) && !TraceActive(r, L)
  {
    MainChunkLaid(r);
    hide ProtoSeen;
    var a := CallStack[0];
    assert CallStack[1..] == [CallStack[1]];
    assert OperandA(0x100) == 1;
    assert ClosureInMemory(r, L, a.fn);
    assert LinkInMemory(r, STACK + 0x48, a.link, CallStack[1..]);
    assert LinkSize(a.link, CallStack[1..]) == 24;
    assert !TraceActive(r, L) && TopBase(r, L) == STACK + 0x50 && Bottom(r, L) == BOT;
    hide ClosureInMemory, LinkInMemory, LinkSize, TopBase, Bottom, TraceActive;
    assert Laid(r, L, BOT, CallStack, STACK + 0x48);
  }

  /** The target's memory holds the call stack. */
  lemma CallStackHeld()
    ensures HoldsStack(ReadsOf(Target()), L, CallStack) && !TraceActive(ReadsOf(Target()), L)
  {
    hide *;
    SeesStack();
    SeesClosures();
    SeesProto();
    CallStackLaid(ReadsOf(Target()));
  }

  /** The call in progress is on line 12; the sample charges it to line 10, the first line of
      the function, because the caller is a vararg function. */
  lemma VarargCallerLosesItsLine(key: SampleKey)
    ensures CallLine(MainChunk, 1) == 12
    ensures WalkState(ReadsOf(Target()), L, key, MAX_LUA_DEPTH)
            == [LuaEvent(key, 0, FUNC_TYPE_C, [], 0x4_0000, 0), LuaEvent(key, 1, FUNC_TYPE_LUA, CHUNK, 0, 10)]
  {
    hide HoldsStack, WalkState, TraceActive, ReadsOf, Target;
    CallStackHeld();
    SampleReadsStack(ReadsOf(Target()), L, CallStack, key, MAX_LUA_DEPTH);
    var rest := CallStack[1..];
    assert rest == [CallStack[1]] && rest[1..] == [];
    assert ReportedName(CHUNK) == CHUNK;
    assert Expected(key, [], Some(rest[0].link), 2, 5, false) == [];
    assert Expected(key, rest, Some(CallStack[0].link), 1, 7, false) == [LuaEvent(key, 1, FUNC_TYPE_LUA, CHUNK, 0, 10)];
  }
}
