/** What reads of the target's memory return to a BPF program. */
module ProbeReads {
  import opened Machine

  const CHUNKNAME_LEN := 128

  // ---- strings ----------------------------------------------------------------------

  /** A name buffer as its reader sees it: the bytes before the first NUL. */
  function CStr(bs: seq<Byte>): (s: seq<Byte>)
    ensures 0 !in s && s <= bs
    ensures |s| < |bs| ==> bs[|s|] == 0
  {
    if bs == [] || bs[0] == 0 then [] else [bs[0]] + CStr(bs[1..])
  }

  /** A terminated string reads back as what precedes its NUL, whatever follows. */
  lemma {:induction false} CStrStopsAtNul(s: seq<Byte>, tail: seq<Byte>)
    requires 0 !in s
    ensures CStr(s + [0] + tail) == s
  {
    if s != [] {
      CStrStopsAtNul(s[1..], tail);
      assert (s + [0] + tail)[1..] == s[1..] + [0] + tail;
    }
  }

  /** What bpf_probe_read_user_str leaves in a buffer: up to |old| - 1 bytes and a NUL with
      the old tail behind it, or zeros when it faults before a NUL. */
  function ReadUserStr(m: Memory, a: int, stale: seq<Byte>): (bs: seq<Byte>)
    requires |stale| > 0
    ensures |bs| == |stale|
  {
    var n := NulOffset(m, a, |stale|);
    if !Readable(m, a, Min(n + 1, |stale|)) then seq(|stale|, i => 0)
    else
      var keep := Min(n, |stale| - 1);
      MemBytes(m, a, keep) + [0] + stale[keep + 1..]
  }

  /** How many bytes from a are readable and not NUL, at most limit. */
  function NulOffset(m: Memory, a: int, limit: nat): (n: nat)
    ensures n <= limit
    ensures forall i :: a <= i < a + n ==> i in m && m[i] != 0
    ensures n > 0 ==> Readable(m, a, n)
    ensures n < limit && Readable(m, a, n + 1) ==> m[a + n] == 0
  {
    if limit == 0 then 0
    else
      var n := NulOffset(m, a, limit - 1);
      if n == limit - 1 && Readable(m, a, limit) && m[a + n] != 0 then limit else n
  }

  /** What an earlier event left in the buffer never shows in the decoded name: it is the
      string's readable prefix, cut to the buffer, or empty when the string faults. */
  lemma StaleNameIsInvisible(m: Memory, a: int, stale: seq<Byte>)
    requires |stale| > 0
    ensures CStr(ReadUserStr(m, a, stale)) == NameAt(m, a, |stale|)
  {
    Buffered(m, a, stale);
    var name := NameAt(m, a, |stale|);
    hide *;
    CStrStopsAtNul(name, ReadUserStr(m, a, stale)[|name| + 1..]);
  }

  /** The buffer holds the name, its NUL, and then anything. */
  lemma Buffered(m: Memory, a: int, stale: seq<Byte>)
    requires |stale| > 0
    ensures var name, bs := NameAt(m, a, |stale|), ReadUserStr(m, a, stale);
            0 !in name && |name| < |bs| && bs == name + [0] + bs[|name| + 1..]
  {
    var n := NulOffset(m, a, |stale|);
    hide NulOffset;
    if Readable(m, a, Min(n + 1, |stale|)) { NoNulBefore(m, a, |stale|, Min(n, |stale| - 1)); }
    hide Readable, MemBytes;
  }

  lemma NoNulBefore(m: Memory, a: int, limit: nat, n: nat)
    requires n <= NulOffset(m, a, limit)
    ensures Readable(m, a, n) ==> 0 !in MemBytes(m, a, n)
  {
    hide NulOffset;
  }

  /** The string at a as an event field of the given size reports it. */
  function NameAt(m: Memory, a: int, size: nat): seq<Byte>
    requires size > 0
  {
    var n := NulOffset(m, a, size);
    if Readable(m, a, Min(n + 1, size)) then MemBytes(m, a, Min(n, size - 1)) else []
  }

  /** A string that runs into unreadable memory before its NUL, within the field, reads as
      empty; one that is longer than the field is cut to leave room for the NUL. */
  lemma FaultyAndLongNames(m: Memory, a: int, size: nat, k: nat)
    requires k < size && forall i :: a <= i < a + k ==> i in m && m[i] != 0
    requires k > 0 ==> Readable(m, a, k)
    ensures !Readable(m, a, k + 1) ==> NameAt(m, a, size) == []
    ensures k + 1 == size && Readable(m, a, size) && m[a + k] != 0 ==> NameAt(m, a, size) == MemBytes(m, a, size - 1)
    ensures Readable(m, a, k + 1) && m[a + k] == 0 ==> NameAt(m, a, size) == MemBytes(m, a, k)
  {
    var n := NulOffset(m, a, size);
    OffsetReaches(m, a, size, k);
  }

  lemma {:induction false} OffsetReaches(m: Memory, a: int, limit: nat, k: nat)
    requires k <= limit && (k > 0 ==> Readable(m, a, k)) && forall i :: a <= i < a + k ==> i in m && m[i] != 0
    ensures NulOffset(m, a, limit) >= k
  {
    if limit > 0 { OffsetReaches(m, a, limit - 1, Min(k, limit - 1)); }
  }

  // ---- all reads --------------------------------------------------------------------

  /** What zero-initialised probe reads of each width, and of a name field, return at each
      address. Nothing relates the widths to each other: the target may be running, and its
      bytes arbitrary. */
  datatype Reads = Reads(u8: int -> Byte, u16: int -> U32, u32: int -> U32, u64: int -> U64,
                         name: int -> seq<Byte>)

  /** The reads of an actual memory. */
  function ReadsOf(m: Memory): Reads {
    assert Pow256(1) == 0x100 && Pow256(2) == 0x1_0000 && Pow256(4) == TWO32 && Pow256(8) == TWO64;
    Reads(a => Load(m, a, 1), a => Load(m, a, 2), a => Load(m, a, 4), a => Load(m, a, 8),
          a => NameAt(m, a, CHUNKNAME_LEN))
  }
}
