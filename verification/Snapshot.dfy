/** The user-stack snapshot: captured in chunks, delivered as an event prefix, clamped, and
    read back one word at a time by the unwinder. */
module Snapshot {
  import opened Machine
  import opened LuaWalk

  const SNAPSHOT_SIZE := 4096
  const CHUNK := 512
  const MAX_IPS := 32

  // ---- capture ----------------------------------------------------------------------

  /** How many bytes from a upward are readable, counting no further than cap. */
  function Avail(m: Memory, a: int, cap: nat): (n: nat)
    ensures n <= cap
    ensures n > 0 ==> Readable(m, a, n)
    ensures forall k :: n < k <= cap ==> !Readable(m, a, k)
  {
    if cap == 0 || Readable(m, a, cap) then cap else Avail(m, a, cap - 1)
  }

  lemma ReadableIffAvail(m: Memory, a: int, cap: nat, k: nat)
    requires 1 <= k <= cap
    ensures Readable(m, a, k) <==> k <= Avail(m, a, cap)
  {
  }

  /** Reading k bytes at a wrapped 64-bit offset extends the readable prefix to off + k. */
  lemma ReadableFrom(m: Memory, a: U64, off: nat, k: nat)
    requires off == 0 || Readable(m, a, off)
    ensures Readable(m, Wrap(a + off), k) <==> Readable(m, a, off + k)
    ensures Readable(m, a, off + k) ==> Wrap(a + off) == a + off
  {
    WrapOfSmall(a + off);
  }

  /** The captured length for a given readable length. */
  function SnapshotLength(avail: nat): nat {
    if avail >= CHUNK then Min(avail, SNAPSHOT_SIZE) / CHUNK * CHUNK
    else if avail >= 256 then 256
    else if avail >= 128 then 128
    else if avail >= 64 then 64
    else if avail >= 32 then 32
    else if avail >= 16 then 16
    else if avail >= 8 then 8
    else 0
  }

  /** The captured length is more than half of what could have been captured, and nothing
      short of a word is lost once a whole chunk is readable but the last partial chunk. */
  lemma SnapshotIsNearMaximal(avail: nat)
    ensures var n, most := SnapshotLength(avail), Min(avail, SNAPSHOT_SIZE);
            && n <= most
            && (avail >= 8 ==> most < 2 * n)
            && (avail < 8 <==> n == 0)
            && (avail >= CHUNK ==> n % CHUNK == 0 && most - n < CHUNK)
  {
  }

  /** A probe read into part of a buffer: the bytes, or zeros when the read fails. */
  method ProbeReadUser(m: Memory, addr: int, dst: array<Byte>, at: nat, len: nat) returns (ok: bool)
    requires at + len <= dst.Length
    modifies dst
    ensures ok <==> Readable(m, addr, len)
    ensures forall i :: at <= i < at + len ==> dst[i] == if ok then m[addr + (i - at)] else 0
    ensures forall i :: 0 <= i < at || at + len <= i < dst.Length ==> dst[i] == old(dst[i])
  {
    ok := Readable(m, addr, len);
    forall i | at <= i < at + len {
      dst[i] := if ok then m[addr + (i - at)] else 0;
    }
  }

  /** The chunks: stops at the first that cannot be read in full. */
  method ReadChunks(m: Memory, sp: U64, stack: array<Byte>) returns (n: nat)
    requires stack.Length == SNAPSHOT_SIZE
    modifies stack
    ensures n == Avail(m, sp, SNAPSHOT_SIZE) / CHUNK * CHUNK
    ensures forall i :: 0 <= i < n ==> sp + i in m && stack[i] == m[sp + i]
    ensures forall i :: n <= i < SNAPSHOT_SIZE ==> stack[i] == old(stack[i]) || stack[i] == 0
  {
    n := 0;
    ghost var avail := Avail(m, sp, SNAPSHOT_SIZE);
    var offset := 0;
    while offset < SNAPSHOT_SIZE
      invariant 0 <= offset <= SNAPSHOT_SIZE && offset % CHUNK == 0 && n == offset <= avail
      invariant forall i :: 0 <= i < n ==> sp + i in m && stack[i] == m[sp + i]
      invariant forall i :: n <= i < SNAPSHOT_SIZE ==> stack[i] == old(stack[i])
      decreases SNAPSHOT_SIZE - offset
    {
      ReadableFrom(m, sp, offset, CHUNK);
      ReadableIffAvail(m, sp, SNAPSHOT_SIZE, offset + CHUNK);
      var ok := ProbeReadUser(m, Wrap(sp + offset), stack, offset, CHUNK);
      if !ok { break; }
      n := n + CHUNK;
      offset := offset + CHUNK;
    }
  }

  /** The fallback for a stack pointer less than one chunk below the end of its mapping. */
  method ReadShortPrefix(m: Memory, sp: U64, stack: array<Byte>) returns (n: nat)
    requires stack.Length == SNAPSHOT_SIZE && Avail(m, sp, SNAPSHOT_SIZE) < CHUNK
    modifies stack
    ensures n == SnapshotLength(Avail(m, sp, SNAPSHOT_SIZE)) <= 256
    ensures forall i :: 0 <= i < n ==> sp + i in m && stack[i] == m[sp + i]
    ensures forall i :: n <= i < SNAPSHOT_SIZE ==> stack[i] == old(stack[i]) || stack[i] == 0
  {
    var ok := ProbeReadUser(m, sp, stack, 0, 256);
    ReadableIffAvail(m, sp, SNAPSHOT_SIZE, 256);
    if ok { return 256; }
    ok := ProbeReadUser(m, sp, stack, 0, 128);
    ReadableIffAvail(m, sp, SNAPSHOT_SIZE, 128);
    if ok { return 128; }
    ok := ProbeReadUser(m, sp, stack, 0, 64);
    ReadableIffAvail(m, sp, SNAPSHOT_SIZE, 64);
    if ok { return 64; }
    ok := ProbeReadUser(m, sp, stack, 0, 32);
    ReadableIffAvail(m, sp, SNAPSHOT_SIZE, 32);
    if ok { return 32; }
    ok := ProbeReadUser(m, sp, stack, 0, 16);
    ReadableIffAvail(m, sp, SNAPSHOT_SIZE, 16);
    if ok { return 16; }
    ok := ProbeReadUser(m, sp, stack, 0, 8);
    ReadableIffAvail(m, sp, SNAPSHOT_SIZE, 8);
    if ok { return 8; }
    return 0;
  }

  /** The bytes a snapshot at sp holds. */
  function SnapshotAt(m: Memory, sp: U64): (bs: seq<Byte>)
    ensures |bs| == SnapshotLength(Avail(m, sp, SNAPSHOT_SIZE)) <= SNAPSHOT_SIZE
  {
    var n := SnapshotLength(Avail(m, sp, SNAPSHOT_SIZE));
    SnapshotIsReadable(m, sp);
    if n == 0 then [] else MemBytes(m, sp, n)
  }

  lemma SnapshotIsReadable(m: Memory, sp: U64)
    ensures var n := SnapshotLength(Avail(m, sp, SNAPSHOT_SIZE)); n > 0 ==> Readable(m, sp, n)
  {
    var avail := Avail(m, sp, SNAPSHOT_SIZE);
    SnapshotIsNearMaximal(avail);
    hide SnapshotLength, Avail;
  }

  /** Fills a buffer with as much of the stack above sp as whole chunks allow, or with a
      shorter power-of-two prefix when not even one chunk is readable. Nothing else of the
      target enters the buffer. */
  method ReadUserStackSnapshot(m: Memory, sp: U64, stack: array<Byte>) returns (n: nat)
    requires stack.Length == SNAPSHOT_SIZE
    modifies stack
    ensures n <= SNAPSHOT_SIZE && stack[..n] == SnapshotAt(m, sp)
    ensures forall i :: n <= i < SNAPSHOT_SIZE ==> stack[i] == old(stack[i]) || stack[i] == 0
  {
    SnapshotIsReadable(m, sp);
    n := ReadChunks(m, sp, stack);
    if n == 0 {
      n := ReadShortPrefix(m, sp, stack);
    }
  }

  // ---- delivery ---------------------------------------------------------------------

  /** A native event as the kernel emits it: fixed-size arrays with their used lengths. */
  datatype NativeEvent = NativeEvent(key: SampleKey, ipCnt: U32, stackLen: U32, ip: U64, sp: U64, fp: U64, lr: U64,
                                     ips: seq<U64>, stack: seq<Byte>)

  predicate WireShape(e: NativeEvent) { |e.ips| == MAX_IPS && |e.stack| == SNAPSHOT_SIZE }

  // Sizes of the event up to its stack bytes, and of the whole event.
  const PREFIX_SIZE := 312
  const EVENT_SIZE := PREFIX_SIZE + SNAPSHOT_SIZE

  /** The event that `len` delivered bytes decode to: missing stack bytes read as zero, and
      the used length is clamped to what arrived. */
  function FromDelivery(e: NativeEvent, len: nat): (r: Option<NativeEvent>)
    requires WireShape(e)
    ensures r.Some? <==> len >= PREFIX_SIZE
    ensures r.Some? ==> WireShape(r.value)
  {
    if len < PREFIX_SIZE then None
    else
      var copied := Min(len, EVENT_SIZE) - PREFIX_SIZE;
      Some(e.(stack := e.stack[..copied] + seq(SNAPSHOT_SIZE - copied, i => 0),
              stackLen := Min(e.stackLen, (len - PREFIX_SIZE) % TWO32)))
  }

  /** What the unwinder is given. */
  datatype NativeSample = NativeSample(fallbackIps: seq<U64>, ip: U64, sp: U64, fp: U64, lr: U64, stack: seq<Byte>)

  function FromEvent(e: NativeEvent): NativeSample
    requires WireShape(e)
  {
    NativeSample(e.ips[..Min(e.ipCnt, MAX_IPS)], e.ip, e.sp, e.fp, e.lr, e.stack[..Min(e.stackLen, SNAPSHOT_SIZE)])
  }

  /** The unwinder's memory oracle: one little-endian word out of the snapshot. */
  function ReadStackWord(base: U64, stack: seq<Byte>, address: U64): Option<U64> {
    if address < base || address - base + 8 >= TWO64 || address - base + 8 > |stack| then None
    else
      assert Pow256(8) == TWO64;
      Some(FromLE(stack[address - base..address - base + 8]))
  }

  /** A delivered prefix of a capture answers exactly the words that lie inside it, each with
      the word the target held. */
  lemma PrefixRefinesMemory(m: Memory, sp: U64, stack: seq<Byte>, a: U64)
    requires stack <= SnapshotAt(m, sp)
    ensures ReadStackWord(sp, stack, a).Some? <==> sp <= a && a + 8 <= sp + |stack|
    ensures ReadStackWord(sp, stack, a).Some? ==>
              Readable(m, a, 8) && ReadStackWord(sp, stack, a) == Some(Load(m, a, 8))
  {
    hide SnapshotLength, Avail;
    SnapshotIsReadable(m, sp);
    if sp <= a && a + 8 <= sp + |stack| {
      assert Readable(m, a, 8);
      assert stack[a - sp..a - sp + 8] == MemBytes(m, a, 8);
    }
  }

  /** The captured, delivered and clamped snapshot is a faithful window on target memory: a
      word is answered exactly when it lies inside the delivered part of the capture, and
      the answer is the word the target held. */
  lemma SnapshotRefinesMemory(m: Memory, e: NativeEvent, len: nat, a: U64)
    requires WireShape(e) && PREFIX_SIZE <= len < TWO32
    requires e.stackLen == |SnapshotAt(m, e.sp)| && e.stack[..e.stackLen] == SnapshotAt(m, e.sp)
    ensures var s, n := FromEvent(FromDelivery(e, len).value), Min(e.stackLen, len - PREFIX_SIZE);
            && (ReadStackWord(s.sp, s.stack, a).Some? <==> e.sp <= a && a + 8 <= e.sp + n)
            && (e.sp <= a && a + 8 <= e.sp + n ==>
                  Readable(m, a, 8) && ReadStackWord(s.sp, s.stack, a) == Some(Load(m, a, 8)))
  {
    hide SnapshotLength, Avail, Readable, Load, ReadStackWord, SnapshotAt;
    var s, n := FromEvent(FromDelivery(e, len).value), Min(e.stackLen, len - PREFIX_SIZE);
    assert s.stack == SnapshotAt(m, e.sp)[..n];
    PrefixRefinesMemory(m, e.sp, s.stack, a);
  }
}
