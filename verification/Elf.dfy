/** Address arithmetic between ELF files, their mappings and the running image. */
module Elf {
  import opened Machine

  /** A loadable segment, as far as addresses go. */
  datatype Segment = Segment(vaddr: U64, memsz: U64, offset: U64, exec: bool)

  /** Where a mapping starts, and the file offset it maps there. */
  datatype Mapping = Mapping(start: U64, offset: U64)

  // ---- alignment --------------------------------------------------------------------

  function AlignDown(value: U64, alignment: U64): (r: U64)
    requires alignment > 0
    ensures r <= value
  {
    DownIsMultiple(value, alignment);
    value / alignment * alignment
  }

  /** Rounds up, or gives up when the sum would overflow. */
  function AlignUp(value: U64, alignment: U64): Option<U64> {
    if alignment == 0 || value + (alignment - 1) >= TWO64 then None
    else Some(AlignDown(value + (alignment - 1), alignment))
  }

  predicate Multiple(x: int, a: int) requires a > 0 { x % a == 0 }

  lemma MultipleOf(k: int, a: int)
    requires a > 0
    ensures Multiple(k * a, a)
  {
    assert k * a == a * k;
    ModOfProduct(k, a);
  }

  lemma ModOfProduct(k: int, a: int)
    requires a > 0
    ensures (a * k) % a == 0
  {
    var q, r := a * k / a, a * k % a;
    assert r == a * (k - q);
    SmallProductIsZero(k - q, a);
  }

  lemma SmallProductIsZero(d: int, a: int)
    requires 0 <= a * d < a
    ensures d == 0
  {
  }

  lemma DownIsMultiple(x: nat, a: nat)
    requires a > 0
    ensures var d := x / a * a; Multiple(d, a) && d <= x < d + a && d == x - x % a
  {
    assert x == a * (x / a) + x % a;
    MultipleOf(x / a, a);
  }

  /** Multiples of a are at least a apart. */
  lemma MultiplesApart(x: int, y: int, a: int)
    requires a > 0 && Multiple(x, a) && Multiple(y, a) && x < y
    ensures x + a <= y
  {
    var i, j := x / a, y / a;
    assert x == a * i && y == a * j;
    Ordered(i, j, a);
  }

  lemma Ordered(i: int, j: int, a: int)
    requires a > 0 && a * i < a * j
    ensures a * i + a <= a * j
  {
    if i < j { ProductIsNatural(a, j - i - 1); } else { ProductIsNatural(a, i - j); }
  }

  lemma ProductIsNatural(x: nat, y: nat)
    ensures x * y >= 0
  {
  }

  /** Rounding down gives the greatest multiple not above the value. */
  lemma AlignDownIsGreatest(value: U64, a: U64, x: int)
    requires a > 0
    ensures Multiple(AlignDown(value, a), a) && AlignDown(value, a) == value - value % a
    ensures Multiple(x, a) && x <= value ==> x <= AlignDown(value, a)
  {
    DownIsMultiple(value, a);
    if Multiple(x, a) && AlignDown(value, a) < x <= value {
      MultiplesApart(AlignDown(value, a), x, a);
    }
  }

  /** The least multiple of a not below x, without any bound on its size. */
  function LeastMultiple(x: nat, a: nat): (m: nat)
    requires a > 0
    ensures Multiple(m, a) && x <= m < x + a
  {
    DownIsMultiple(x + a - 1, a);
    (x + a - 1) / a * a
  }

  lemma LeastMultipleIsLeast(x: nat, a: nat, y: int)
    requires a > 0 && Multiple(y, a) && x <= y
    ensures LeastMultiple(x, a) <= y
  {
    if y < LeastMultiple(x, a) { MultiplesApart(y, LeastMultiple(x, a), a); }
  }

  /** What rounding up returns is the least multiple. */
  lemma AlignUpIsLeast(value: U64, a: U64)
    requires a > 0
    ensures AlignUp(value, a).Some? ==> AlignUp(value, a).value == LeastMultiple(value, a) < TWO64
  {
  }

  /** It gives up only when the least multiple does not fit. */
  ghost predicate GivesUpOnlyOnOverflow(a: U64)
    requires a > 0
  {
    forall value: U64 :: AlignUp(value, a).None? <==> LeastMultiple(value, a) >= TWO64
  }

  /** Rounding up gives up only on overflow for exactly the alignments that divide 2^64. For
      any other alignment the largest multiple in range, though aligned, is refused. */
  lemma AlignUpGivesUpExactly(a: U64)
    requires a > 0
    ensures GivesUpOnlyOnOverflow(a) <==> Multiple(TWO64, a)
  {
    if Multiple(TWO64, a) {
      forall value: U64 ensures AlignUp(value, a).None? <==> LeastMultiple(value, a) >= TWO64 {
        if AlignUp(value, a).None? && LeastMultiple(value, a) < TWO64 {
          MultiplesApart(LeastMultiple(value, a), TWO64, a);
        }
      }
    } else {
      var top: U64 := AlignDown(TWO64 - 1, a);
      DownIsMultiple(TWO64 - 1, a);
      LeastMultipleIsLeast(top, a, top);
      if top + a == TWO64 { MultipleShift(top, a); }
      assert AlignUp(top, a).None? && LeastMultiple(top, a) < TWO64;
    }
  }

  lemma MultipleShift(x: nat, a: nat)
    requires a > 0 && Multiple(x, a)
    ensures Multiple(x + a, a)
  {
    assert x + a == a * (x / a + 1);
    ModOfProduct(x / a + 1, a);
  }

  function Pow2(n: nat): (p: nat)
    ensures p > 0
  {
    if n == 0 then 1 else 2 * Pow2(n - 1)
  }

  lemma {:induction false} PowersAdd(m: nat, n: nat)
    ensures Pow2(m + n) == Pow2(m) * Pow2(n)
  {
    if m > 0 { PowersAdd(m - 1, n); }
  }

  lemma Pow2Of64()
    ensures Pow2(64) == TWO64
  {
    hide Pow2;
    Pow2Of8();
    Doubled(8);
    Doubled(16);
    Doubled(32);
  }

  lemma Doubled(n: nat)
    ensures Pow2(2 * n) == Pow2(n) * Pow2(n)
  {
    PowersAdd(n, n);
    hide Pow2;
  }

  lemma Pow2Of8()
    ensures Pow2(8) == 0x100
  {
  }

  lemma DoubleBelow(p: nat, q: nat)
    requires p >= 2 && q > 0
    ensures p * q > q
  {
  }

  /** Every power-of-two alignment that is a u64 divides 2^64. */
  lemma PowersOfTwoDivide(n: nat)
    requires n < 64
    ensures Pow2(n) < TWO64 && Multiple(TWO64, Pow2(n))
  {
    Pow2Of64();
    PowersAdd(64 - n, n);
    assert Pow2(64 - n) >= 2;
    hide Pow2;
    MultipleOf(Pow2(64 - n), Pow2(n));
    DoubleBelow(Pow2(64 - n), Pow2(n));
  }

  /** So rounding up to a power of two, such as a page size, gives up only on overflow. */
  lemma PageAlignmentIsExact(n: nat)
    requires n < 64
    ensures Pow2(n) < TWO64 && GivesUpOnlyOnOverflow(Pow2(n))
  {
    PowersOfTwoDivide(n);
    AlignUpGivesUpExactly(Pow2(n));
  }

  // ---- load bias --------------------------------------------------------------------

  function LoadBiasForSegment(m: Mapping, s: Segment, page: U64): Option<U64>
    requires page > 0
  {
    if AlignDown(s.offset, page) != m.offset || m.start < AlignDown(s.vaddr, page) then None
    else Some(m.start - AlignDown(s.vaddr, page))
  }

  /** The bias of the first segment that could be behind the mapping. */
  function LoadBiasForMapping(m: Mapping, segs: seq<Segment>, page: U64): Option<U64>
    requires page > 0
  {
    if segs == [] then None
    else
      var b := LoadBiasForSegment(m, segs[0], page);
      if b.Some? then b else LoadBiasForMapping(m, segs[1..], page)
  }

  /** m is how a loader maps a segment of an image it loads at the given bias. */
  ghost predicate Loads(bias: U64, s: Segment, m: Mapping, page: U64)
    requires page > 0
  {
    m.start == bias + AlignDown(s.vaddr, page) && m.offset == AlignDown(s.offset, page)
  }

  /** Loadable segments come in ascending address order. */
  ghost predicate Ascending(segs: seq<Segment>) {
    forall i, j :: 0 <= i < j < |segs| ==> segs[i].vaddr <= segs[j].vaddr
  }

  /** No earlier segment starts in the same page of the file but in another page of memory. */
  ghost predicate OwnFilePage(segs: seq<Segment>, i: nat, page: U64)
    requires page > 0 && i < |segs|
  {
    forall j :: 0 <= j < i && AlignDown(segs[j].offset, page) == AlignDown(segs[i].offset, page)
                ==> AlignDown(segs[j].vaddr, page) == AlignDown(segs[i].vaddr, page)
  }

  lemma AlignDownIsMonotone(x: U64, y: U64, a: U64)
    requires a > 0 && x <= y
    ensures AlignDown(x, a) <= AlignDown(y, a)
  {
    AlignDownIsGreatest(x, a, 0);
    AlignDownIsGreatest(y, a, AlignDown(x, a));
  }

  lemma LaterSegments(segs: seq<Segment>, i: nat, page: U64)
    requires page > 0 && 1 <= i < |segs| && Ascending(segs)
    requires AlignDown(segs[0].offset, page) != AlignDown(segs[i].offset, page)
    ensures Ascending(segs[1..]) && (OwnFilePage(segs[1..], i - 1, page) <==> OwnFilePage(segs, i, page))
  {
    hide AlignDown;
    var rest := segs[1..];
    if OwnFilePage(rest, i - 1, page) {
      forall j | 0 <= j < i && AlignDown(segs[j].offset, page) == AlignDown(segs[i].offset, page)
        ensures AlignDown(segs[j].vaddr, page) == AlignDown(segs[i].vaddr, page)
      {
        assert segs[j] == rest[j - 1];
      }
    }
    if OwnFilePage(segs, i, page) {
      forall j | 0 <= j < i - 1 && AlignDown(rest[j].offset, page) == AlignDown(rest[i - 1].offset, page)
        ensures AlignDown(rest[j].vaddr, page) == AlignDown(rest[i - 1].vaddr, page)
      {
        assert rest[j] == segs[j + 1];
      }
    }
  }

  /** A segment behind the first one in memory that shares its file page has no page of its
      own, unless they share their memory page too. */
  lemma FirstDecides(segs: seq<Segment>, i: nat, page: U64)
    requires page > 0 && i < |segs| && Ascending(segs)
    requires AlignDown(segs[0].offset, page) == AlignDown(segs[i].offset, page)
    ensures OwnFilePage(segs, i, page) <==> AlignDown(segs[0].vaddr, page) == AlignDown(segs[i].vaddr, page)
  {
    forall j | 0 <= j <= i
      ensures AlignDown(segs[0].vaddr, page) <= AlignDown(segs[j].vaddr, page) <= AlignDown(segs[i].vaddr, page)
    {
      assert segs[0].vaddr <= segs[j].vaddr <= segs[i].vaddr;
      AlignDownIsMonotone(segs[0].vaddr, segs[j].vaddr, page);
      AlignDownIsMonotone(segs[j].vaddr, segs[i].vaddr, page);
    }
    hide AlignDown;
  }

  /** The bias a segment was loaded at is recovered from its mapping exactly when the
      segment has a file page of its own: the search takes the first segment of the file
      page, whatever memory that one describes. */
  lemma {:induction false} LoadBiasRecoveredExactly(bias: U64, segs: seq<Segment>, i: nat, m: Mapping, page: U64)
    requires page > 0 && i < |segs| && Ascending(segs) && Loads(bias, segs[i], m, page)
    ensures LoadBiasForMapping(m, segs, page).Some?
    ensures LoadBiasForMapping(m, segs, page) == Some(bias) <==> OwnFilePage(segs, i, page)
  {
    AlignDownIsMonotone(segs[0].vaddr, segs[i].vaddr, page);
    hide AlignDown;
    if AlignDown(segs[0].offset, page) == m.offset {
      FirstDecides(segs, i, page);
    } else {
      hide OwnFilePage, Ascending;
      LaterSegments(segs, i, page);
      LoadBiasRecoveredExactly(bias, segs[1..], i - 1, m, page);
    }
  }

  lemma BiasOfSegment(m: Mapping, s: Segment, page: U64, b: U64)
    requires page > 0
    ensures LoadBiasForSegment(m, s, page) == Some(b) <==> Loads(b, s, m, page)
    ensures LoadBiasForSegment(m, s, page).Some? ==> Loads(LoadBiasForSegment(m, s, page).value, s, m, page)
  {
    hide AlignDown;
  }

  /** For any mapping at all: a bias is found exactly when some segment could be loaded there at
      some bias, and the one found is such a bias of the first such segment. */
  lemma {:induction false} BiasFoundExactly(m: Mapping, segs: seq<Segment>, page: U64)
    requires page > 0
    ensures var r := LoadBiasForMapping(m, segs, page);
            && (r.None? ==> forall i, b: U64 :: 0 <= i < |segs| ==> !Loads(b, segs[i], m, page))
            && (r.Some? ==> exists i :: 0 <= i < |segs| && Loads(r.value, segs[i], m, page)
                                        && forall j, b: U64 :: 0 <= j < i ==> !Loads(b, segs[j], m, page))
  {
    hide Loads, LoadBiasForSegment;
    if segs != [] {
      var r := LoadBiasForMapping(m, segs, page);
      BiasFoundExactly(m, segs[1..], page);
      forall b: U64 ensures LoadBiasForSegment(m, segs[0], page) == Some(b) <==> Loads(b, segs[0], m, page) {
        BiasOfSegment(m, segs[0], page, b);
      }
      if LoadBiasForSegment(m, segs[0], page).Some? {
        assert Loads(r.value, segs[0], m, page);
      } else if r.Some? {
        var i :| 0 <= i < |segs[1..]| && Loads(r.value, segs[1..][i], m, page)
                 && forall j, b: U64 :: 0 <= j < i ==> !Loads(b, segs[1..][j], m, page);
        assert segs[i + 1] == segs[1..][i];
        forall j, b: U64 | 0 <= j < i + 1 ensures !Loads(b, segs[j], m, page) {
          if j > 0 { assert segs[j] == segs[1..][j - 1]; }
        }
      } else {
        forall i, b: U64 | 0 <= i < |segs| ensures !Loads(b, segs[i], m, page) {
          if i > 0 { assert segs[i] == segs[1..][i - 1]; }
        }
      }
    }
  }

  /** Every load bias recovered from the executable mappings of one file. */
  function LoadBiases(mappings: seq<Mapping>, segs: seq<Segment>, page: U64): set<U64>
    requires page > 0
  {
    set m | m in mappings && LoadBiasForMapping(m, segs, page).Some? :: LoadBiasForMapping(m, segs, page).value
  }

  /** The executable segments xs of an image loaded once yield exactly one bias, the real
      one, if and only if each has a file page of its own. */
  lemma OneLoadOneModule(bias: U64, segs: seq<Segment>, xs: seq<nat>, mappings: seq<Mapping>, page: U64)
    requires page > 0 && Ascending(segs) && |mappings| == |xs| > 0
    requires forall k :: 0 <= k < |xs| ==> xs[k] < |segs| && Loads(bias, segs[xs[k]], mappings[k], page)
    ensures LoadBiases(mappings, segs, page) == {bias} <==> forall k :: 0 <= k < |xs| ==> OwnFilePage(segs, xs[k], page)
  {
    forall k | 0 <= k < |xs|
      ensures LoadBiasForMapping(mappings[k], segs, page).Some?
      ensures LoadBiasForMapping(mappings[k], segs, page) == Some(bias) <==> OwnFilePage(segs, xs[k], page)
    {
      LoadBiasRecoveredExactly(bias, segs, xs[k], mappings[k], page);
    }
    hide LoadBiasForMapping, OwnFilePage, Loads, Ascending;
    var all := LoadBiases(mappings, segs, page);
    forall k | 0 <= k < |xs| ensures LoadBiasForMapping(mappings[k], segs, page).value in all {
      assert mappings[k] in mappings;
    }
    assert mappings[0] in mappings;
  }

  /** A linker that packs segments tightly in the file lets a read-only segment share its
      last file page with the code behind it; the recovered bias is then a page off. */
  lemma SharedFilePageMisleads()
    ensures var image := [Segment(0, 0x6c0, 0, false), Segment(0x16c0, 0x900, 0x6c0, true)];
            var code := Mapping(0x7f00_0000_1000, 0);
            && Ascending(image) && Loads(0x7f00_0000_0000, image[1], code, 4096)
            && LoadBiasForMapping(code, image, 4096) == Some(0x7f00_0000_1000)
  {
    assert AlignDown(0x6c0, 4096) == 0 && AlignDown(0x16c0, 4096) == 0x1000 && AlignDown(0, 4096) == 0;
  }

  // ---- the address range of a module ------------------------------------------------

  ghost predicate Covers(segs: seq<Segment>, lo: int, hi: int) {
    forall s :: s in segs ==> lo <= s.vaddr && s.vaddr + s.memsz <= hi
  }

  /** A page-aligned interval around every segment, inside every other such interval. */
  ghost predicate LeastCover(segs: seq<Segment>, page: U64, lo: nat, hi: nat)
    requires page > 0
  {
    && Multiple(lo, page) && Multiple(hi, page) && Covers(segs, lo, hi)
    && forall l: nat, h: nat :: Multiple(l, page) && Multiple(h, page) && Covers(segs, l, h) ==> l <= lo && hi <= h
  }

  /** Where a module's non-empty least cover lies once it is moved to its bias. */
  ghost predicate ModuleRange(bias: U64, segs: seq<Segment>, page: U64, start: nat, end: nat)
    requires page > 0
  {
    bias <= start < end < TWO64 && LeastCover(segs, page, start - bias, end - bias)
  }

  ghost predicate NoRange(bias: U64, segs: seq<Segment>, page: U64)
    requires page > 0
  {
    forall s: nat, e: nat :: !ModuleRange(bias, segs, page, s, e)
  }

  /** There is at most one such range, and it depends on the set of segments only. */
  lemma ModuleRangeIsUnique(bias: U64, a: seq<Segment>, b: seq<Segment>, page: U64, s: nat, e: nat, s': nat, e': nat)
    requires page > 0 && forall x :: x in a <==> x in b
    requires ModuleRange(bias, a, page, s, e) && ModuleRange(bias, b, page, s', e')
    ensures s == s' && e == e'
  {
    assert Covers(a, s' - bias, e' - bias) && Covers(b, s - bias, e - bias);
  }

  /** The running bounds after the first n segments. */
  ghost predicate Bounds(segs: seq<Segment>, n: nat, page: U64, start: U64, end: U64)
    requires page > 0 && n <= |segs|
  {
    && (forall i :: 0 <= i < n ==> start <= AlignDown(segs[i].vaddr, page)
                                   && LeastMultiple(segs[i].vaddr + segs[i].memsz, page) <= end)
    && (n > 0 ==> exists i :: 0 <= i < n && start == AlignDown(segs[i].vaddr, page))
    && (if n == 0 then end == 0
        else exists i :: 0 <= i < n && end == LeastMultiple(segs[i].vaddr + segs[i].memsz, page))
  }

  lemma BoundsStep(segs: seq<Segment>, n: nat, page: U64, start: U64, end: U64)
    requires page > 0 && n < |segs| && Bounds(segs, n, page, start, end)
    requires n == 0 ==> start == TWO64 - 1
    requires LeastMultiple(segs[n].vaddr + segs[n].memsz, page) < TWO64
    ensures Bounds(segs, n + 1, page, Min(start, AlignDown(segs[n].vaddr, page)),
                   Max(end, LeastMultiple(segs[n].vaddr + segs[n].memsz, page)))
  {
    hide AlignDown, LeastMultiple;
  }

  /** The final bounds are the least cover. */
  lemma BoundsAreLeast(segs: seq<Segment>, page: U64, start: U64, end: U64)
    requires page > 0 && segs != [] && Bounds(segs, |segs|, page, start, end)
    ensures LeastCover(segs, page, start, end)
  {
    hide AlignDown, LeastMultiple, Multiple;
    forall s | s in segs ensures start <= s.vaddr && s.vaddr + s.memsz <= end {
      var i :| 0 <= i < |segs| && segs[i] == s;
      AlignDownIsGreatest(s.vaddr, page, 0);
    }
    var i :| 0 <= i < |segs| && start == AlignDown(segs[i].vaddr, page);
    var j :| 0 <= j < |segs| && end == LeastMultiple(segs[j].vaddr + segs[j].memsz, page);
    AlignDownIsGreatest(segs[i].vaddr, page, 0);
    forall l: nat, h: nat | Multiple(l, page) && Multiple(h, page) && Covers(segs, l, h)
      ensures l <= start && end <= h
    {
      assert segs[i] in segs && segs[j] in segs;
      AlignDownIsGreatest(segs[i].vaddr, page, l);
      LeastMultipleIsLeast(segs[j].vaddr + segs[j].memsz, page, h);
    }
  }

  /** A segment whose rounded end overflows leaves no room for a range. */
  lemma OverflowLeavesNoRange(bias: U64, segs: seq<Segment>, page: U64, n: nat)
    requires page > 0 && n < |segs| && LeastMultiple(segs[n].vaddr + segs[n].memsz, page) >= TWO64
    ensures NoRange(bias, segs, page)
  {
    forall s: nat, e: nat ensures !ModuleRange(bias, segs, page, s, e) {
      if ModuleRange(bias, segs, page, s, e) {
        assert segs[n] in segs;
        LeastMultipleIsLeast(segs[n].vaddr + segs[n].memsz, page, e - bias);
      }
    }
  }

  /** Rounds a segment's end up, or gives up exactly when the result would not fit. */
  function SegmentEnd(s: Segment, page: U64): (r: Option<U64>)
    requires page > 0 && Multiple(TWO64, page)
    ensures r == (var m := LeastMultiple(s.vaddr + s.memsz, page); if m < TWO64 then Some(m) else None)
  {
    AlignUpGivesUpExactly(page);
    if s.vaddr + s.memsz >= TWO64 then None else AlignUp(s.vaddr + s.memsz, page)
  }

  /** The running minimum and maximum find a module's range exactly when it has one: the
      least page-aligned interval around all its segments, moved to its bias. */
  method ModuleAvmaRange(bias: U64, segs: seq<Segment>, page: U64) returns (r: Option<(U64, U64)>)
    requires page > 0 && Multiple(TWO64, page)
    ensures r.Some? ==> ModuleRange(bias, segs, page, r.value.0, r.value.1)
    ensures r.None? ==> NoRange(bias, segs, page)
  {
    hide AlignDown, LeastMultiple, Multiple, Bounds, SegmentEnd;
    var start: U64, end: U64 := TWO64 - 1, 0;
    assert Bounds(segs, 0, page, start, end) by { NoBounds(segs, page); }
    for i := 0 to |segs|
      invariant Bounds(segs, i, page, start, end)
      invariant i == 0 ==> start == TWO64 - 1
    {
      var top := SegmentEnd(segs[i], page);
      if top.None? {
        OverflowLeavesNoRange(bias, segs, page, i);
        return None;
      }
      BoundsStep(segs, i, page, start, end);
      start := Min(start, AlignDown(segs[i].vaddr, page));
      end := Max(end, top.value);
    }
    if segs == [] {
      NothingToCover(bias, page);
      return None;
    }
    BoundsAreLeast(segs, page, start, end);
    if start >= end || bias + start >= TWO64 || bias + end >= TWO64 {
      forall s: nat, e: nat ensures !ModuleRange(bias, segs, page, s, e) {
        RangeIsMovedCover(bias, segs, page, start, end, s, e);
      }
      return None;
    }
    r := Some((bias + start, bias + end));
  }

  lemma NoBounds(segs: seq<Segment>, page: U64)
    requires page > 0
    ensures Bounds(segs, 0, page, TWO64 - 1, 0)
  {
  }

  lemma NothingToCover(bias: U64, page: U64)
    requires page > 0
    ensures NoRange(bias, [], page)
  {
    forall lo: nat, hi: nat ensures !LeastCover([], page, lo, hi) {
      if Multiple(lo, page) {
        MultipleShift(lo, page);
        assert Covers([], lo + page, lo + page);
      }
    }
  }

  lemma RangeIsMovedCover(bias: U64, segs: seq<Segment>, page: U64, lo: nat, hi: nat, s: nat, e: nat)
    requires page > 0 && LeastCover(segs, page, lo, hi)
    ensures ModuleRange(bias, segs, page, s, e) ==> s == bias + lo && e == bias + hi
  {
  }

  // ---- file offsets of code ---------------------------------------------------------

  /** The saturating sum leaves out the very last address. */
  predicate HoldsCode(s: Segment, vaddr: U64) {
    s.exec && s.vaddr <= vaddr < Min(s.vaddr + s.memsz, TWO64 - 1)
  }

  /** The file offset of a code address, through the first executable segment that holds it. */
  function VaddrToFileOffset(segs: seq<Segment>, vaddr: U64): Option<U64> {
    if segs == [] then None
    else if HoldsCode(segs[0], vaddr) then Some(Wrap(vaddr - segs[0].vaddr + segs[0].offset))
    else VaddrToFileOffset(segs[1..], vaddr)
  }

  /** The address is code of the segment: executable, and inside, but for the last address of
      all, which no segment's end can lie behind. */
  predicate CodeAt(s: Segment, vaddr: U64) {
    s.exec && vaddr >= s.vaddr && vaddr - s.vaddr < s.memsz && vaddr != TWO64 - 1
  }

  lemma CodeIsHeld(s: Segment, vaddr: U64)
    ensures HoldsCode(s, vaddr) <==> CodeAt(s, vaddr)
  {
  }

  /** Executable segments do not overlap. */
  ghost predicate CodeIsDisjoint(segs: seq<Segment>) {
    forall i, j, v: U64 :: 0 <= i < j < |segs| && CodeAt(segs[i], v) ==> !CodeAt(segs[j], v)
  }

  lemma {:induction false} OffsetThroughSegment(segs: seq<Segment>, i: nat, vaddr: U64)
    requires i < |segs| && CodeAt(segs[i], vaddr) && CodeIsDisjoint(segs)
    ensures VaddrToFileOffset(segs, vaddr) == Some(Wrap(vaddr - segs[i].vaddr + segs[i].offset))
  {
    CodeIsHeld(segs[0], vaddr);
    hide HoldsCode, CodeAt;
    if i > 0 {
      assert !CodeAt(segs[0], vaddr);
      OffsetThroughSegment(segs[1..], i - 1, vaddr);
    }
  }

  /** An offset is found exactly for the addresses some executable segment holds. */
  lemma {:induction false} OffsetFoundExactly(segs: seq<Segment>, vaddr: U64)
    ensures VaddrToFileOffset(segs, vaddr).Some? <==> exists s :: s in segs && CodeAt(s, vaddr)
  {
    if segs != [] { CodeIsHeld(segs[0], vaddr); }
    hide HoldsCode, CodeAt;
    if segs != [] {
      OffsetFoundExactly(segs[1..], vaddr);
      assert segs == [segs[0]] + segs[1..];
    }
  }

  /** The segment's file range does not run over the end of 64 bits. */
  predicate FileRangeFits(s: Segment) { s.offset + s.memsz <= TWO64 }

  /** Going to the file and back through the mapping gives the address the loader put the
      code at, exactly when the segment's address and offset agree modulo the page size. */
  lemma AddressesAgreeExactly(bias: U64, segs: seq<Segment>, i: nat, m: Mapping, page: U64, vaddr: U64)
    requires page > 0 && i < |segs| && CodeIsDisjoint(segs) && FileRangeFits(segs[i])
    requires Loads(bias, segs[i], m, page) && CodeAt(segs[i], vaddr)
    ensures VaddrToFileOffset(segs, vaddr).Some?
    ensures var offset := VaddrToFileOffset(segs, vaddr).value;
            m.start + (offset - m.offset) == bias + vaddr <==> segs[i].vaddr % page == segs[i].offset % page
  {
    var s := segs[i];
    OffsetThroughSegment(segs, i, vaddr);
    WrapOfSmall(vaddr - s.vaddr + s.offset);
    AlignDownIsGreatest(s.vaddr, page, 0);
    AlignDownIsGreatest(s.offset, page, 0);
    hide AlignDown, VaddrToFileOffset, CodeIsDisjoint;
  }

  /** The two halves of the profiler agree on code. For an image whose segments keep the page
      congruence, the address a probe is attached at, found through the symbol table and the
      mapping, is the one the unwinder's recovered bias gives, and the module range built
      from that bias contains it. */
  lemma ProbeAndUnwinderAgree(bias: U64, segs: seq<Segment>, i: nat, m: Mapping, page: U64, vaddr: U64, start: nat,
                              end: nat)
    requires page > 0 && i < |segs| && Ascending(segs) && CodeIsDisjoint(segs) && FileRangeFits(segs[i])
    requires Loads(bias, segs[i], m, page) && CodeAt(segs[i], vaddr)
    requires segs[i].vaddr % page == segs[i].offset % page && OwnFilePage(segs, i, page)
    requires ModuleRange(bias, segs, page, start, end)
    ensures var b, offset := LoadBiasForMapping(m, segs, page), VaddrToFileOffset(segs, vaddr);
            && b.Some? && offset.Some?
            && m.start + (offset.value - m.offset) == b.value + vaddr
            && start <= b.value + vaddr < end
  {
    AddressesAgreeExactly(bias, segs, i, m, page, vaddr);
    LoadBiasRecoveredExactly(bias, segs, i, m, page);
    assert segs[i] in segs;
    hide LoadBiasForMapping, VaddrToFileOffset, Loads, OwnFilePage, Multiple;
  }
}
