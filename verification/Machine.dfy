/** Machine integers, the target's readable memory, and little-endian loads. */
module Machine {

  const TWO31: int := 0x8000_0000
  const TWO32: int := 0x1_0000_0000
  const TWO47: int := 0x8000_0000_0000
  const TWO63: int := 0x8000_0000_0000_0000
  const TWO64: int := 0x1_0000_0000_0000_0000

  type Byte = b: int | 0 <= b < 0x100
  type U32 = x: int | 0 <= x < 0x1_0000_0000
  type U64 = x: int | 0 <= x < 0x1_0000_0000_0000_0000

  datatype Option<+T> = None | Some(value: T)

  function Min(a: int, b: int): int { if a <= b then a else b }
  function Max(a: int, b: int): int { if a >= b then a else b }

  /** The value of x in 64-bit unsigned arithmetic. */
  function Wrap(x: int): U64 { x % TWO64 }

  lemma WrapOfSmall(x: int)
    requires 0 <= x < TWO64
    ensures Wrap(x) == x
  {
  }

  /** The two's complement reading of the low 32 bits of x. */
  function Signed32(x: int): int {
    var low := x % TWO32;
    if low < TWO31 then low else low - TWO32
  }

  /** The two's complement reading of a 64-bit word. */
  function Signed64(x: U64): int { if x < TWO63 then x else x - TWO64 }

  /** The bytes of the target process that a user-space probe can read. */
  type Memory = map<int, Byte>

  /** A probe read succeeds exactly when the whole range is mapped user memory. User
      memory lies below 2^63, so no readable range reaches the 64-bit wrap-around. */
  predicate Readable(m: Memory, a: int, n: nat) {
    0 <= a && a + n <= TWO63 && forall i :: a <= i < a + n ==> i in m
  }

  function MemBytes(m: Memory, a: int, n: nat): (bs: seq<Byte>)
    requires Readable(m, a, n)
    ensures |bs| == n
  {
    seq(n, i requires 0 <= i < n => m[a + i])
  }

  predicate BytesAt(m: Memory, a: int, bs: seq<Byte>) {
    Readable(m, a, |bs|) && MemBytes(m, a, |bs|) == bs
  }

  function Pow256(n: nat): (p: nat)
    ensures p >= 1
  {
    if n == 0 then 1 else 0x100 * Pow256(n - 1)
  }

  function FromLE(bs: seq<Byte>): (v: nat)
    ensures v < Pow256(|bs|)
  {
    if bs == [] then 0 else bs[0] + 0x100 * FromLE(bs[1..])
  }

  function ToLE(v: nat, n: nat): (bs: seq<Byte>)
    ensures |bs| == n
  {
    if n == 0 then [] else [v % 0x100] + ToLE(v / 0x100, n - 1)
  }

  /** Little-endian decoding undoes encoding for every value that fits. */
  lemma {:induction false} LittleEndianRoundTrip(v: nat, n: nat)
    requires v < Pow256(n)
    ensures FromLE(ToLE(v, n)) == v
  {
    if n > 0 {
      LittleEndianRoundTrip(v / 0x100, n - 1);
      assert ToLE(v, n)[1..] == ToLE(v / 0x100, n - 1);
    }
  }

  /** A zero-initialised n-byte read: the destination stays zero when the probe fails. */
  function Load(m: Memory, a: int, n: nat): (v: nat)
    ensures v < Pow256(n)
  {
    if Readable(m, a, n) then FromLE(MemBytes(m, a, n)) else 0
  }

  /** Loading an n-byte field that was stored as part of a byte block. */
  lemma LoadOfBlock(m: Memory, a: int, block: seq<Byte>, at: nat, v: nat, n: nat)
    requires BytesAt(m, a, block) && at + n <= |block|
    requires v < Pow256(n) && block[at..at + n] == ToLE(v, n)
    ensures Readable(m, a + at, n) && Load(m, a + at, n) == v
  {
    assert MemBytes(m, a + at, n) == block[at..at + n];
    LittleEndianRoundTrip(v, n);
  }
}
