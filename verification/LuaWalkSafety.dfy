/** What the stack walk keeps on arbitrary memory: nothing here assumes that the target's
    bytes form a Lua stack. */
module LuaWalkSafety {
  import opened Machine
  import opened ProbeReads
  import opened LuaFrames
  import opened LuaWalk

  // ---- one turn, in words -----------------------------------------------------------

  /** The signed reading of a frame slot without its marker bits. */
  function Delta(slot: U64): int { (if slot < TWO63 then slot else slot - TWO64) - slot % 8 }

  /** The distance a frame's slot spells out: for a return address, two slots and operand A of the
      instruction before it; otherwise the delta. */
  function StepOf(r: Reads, slot: U64): int {
    if slot % 4 == FRAME_LUA then SLOT * (2 + r.u32(slot - 4) / 0x100 % 0x100) else Delta(slot)
  }

  /** The 64-bit guards reject exactly the steps that would leave the stack: a step is taken
      if and only if the true difference stays at or above bot, and then it is that difference. */
  lemma GuardsCatchWrapAround(slots: int -> U64, r: Reads, bot: U64, frame: U64)
    ensures var slot := slots(frame);
            var legal := if slot % 4 == FRAME_LUA then 4096 <= slot < TWO47 else Delta(slot) > 0;
            NextFrame(slots, r, bot, frame)
            == if legal && bot <= frame - StepOf(r, slot) then Some(frame - StepOf(r, slot)) else None
  {
    var slot := slots(frame);
    var delta := StepOf(r, slot);
    SizedIsWholeSlots(slot);
    assert delta >= 0 && frame - delta >= -TWO64 ==>
             Wrap(frame - delta) == if delta <= frame then frame - delta else frame - delta + TWO64;
  }

  /** The object in the slot below a frame, without its tag bits. */
  function ObjectAt(slots: int -> U64, frame: int): int { slots(frame - SLOT) % TWO47 }

  /** A frame of a function: a user pointer that is not the state's own, to a function object. */
  ghost predicate IsFunctionFrame(w: Walk, slots: int -> U64, frame: int) {
    var gco := ObjectAt(slots, frame);
    gco >= 4096 && gco != w.L && slots(frame) % 8 != FRAME_VARG && w.r.u8(gco + GC_GCT) == GCT_FUNC
  }

  /** A frame without a function of its own: a vararg pseudo-frame, or the state itself. */
  ghost predicate IsPseudoFrame(w: Walk, slots: int -> U64, frame: int) {
    var gco := ObjectAt(slots, frame);
    gco >= 4096 && (slots(frame) % 8 == FRAME_VARG || (gco == w.L && w.r.u8(gco + GC_GCT) == GCT_THREAD))
  }

  /** What one turn makes of any frame on any bytes: out of the stack or neither a function's nor
      a pseudo-frame, it ends the walk; a pseudo-frame is passed over; a function of C or a
      builtin is reported with its entry or id, and a Lua function is whenever it has a
      prototype. Then the walk goes on below, the next level up after a function. */
  lemma TurnInWords(w: Walk, slots: int -> U64, frame: int, prev: Option<int>, level: nat, n: nat)
    requires n > 0
    ensures var gco := ObjectAt(slots, frame);
            var ffid := w.r.u8(gco + FN_FFID);
            var inside := w.bot < frame < w.maxstack;
            var own := IsFunctionFrame(w, slots, frame);
            var next := NextFrame(slots, w.r, w.bot, frame);
            var level' := if own then level + 1 else level;
            var below := if next.None? then [] else WalkFrom(w, slots, next.value, Some(frame), level', n - 1);
            var es := WalkFrom(w, slots, frame, prev, level, n);
            && (!inside || !(own || IsPseudoFrame(w, slots, frame)) ==> es == [])
            && (inside && !own && IsPseudoFrame(w, slots, frame) ==> es == below)
            && (inside && own && ffid == FF_C ==>
                  es == [LuaEvent(w.key, level, FUNC_TYPE_C, [], w.r.u64(gco + FN_CFUNC), 0)] + below)
            && (inside && own && ffid > FF_C ==> es == [LuaEvent(w.key, level, FUNC_TYPE_F, [], 0, ffid)] + below)
            && (inside && own && ffid == FF_LUA && w.r.u64(gco + FN_PC) == PT_SIZE ==> es == below)
            && (inside && own && ffid == FF_LUA && w.r.u64(gco + FN_PC) != PT_SIZE ==>
                  es != [] && es[1..] == below && es[0].key == w.key && es[0].level == level
                  && es[0].kind == if w.jit && level == 0 then FUNC_TYPE_JIT else FUNC_TYPE_LUA)
  {
    WalkUnfolds(w, slots, frame, prev, level, n);
    hide WalkFrom, NextFrame, FrameLine, ChunkName;
  }

  /** The frames an uncapped walk visits: the distance to bot is its termination measure. */
  ghost function Trail(w: Walk, slots: int -> U64, frame: int): seq<int>
    decreases if frame > w.bot then frame - w.bot else 0
  {
    if frame <= w.bot || frame >= w.maxstack || VisitFrame(slots, w.r, w.L, frame).Broken? then []
    else
      var next := NextFrame(slots, w.r, w.bot, frame);
      [frame] + if next.None? then [] else Trail(w, slots, next.value)
  }

  lemma TrailUnfolds(w: Walk, slots: int -> U64, frame: int)
    ensures Trail(w, slots, frame)
            == if frame <= w.bot || frame >= w.maxstack || VisitFrame(slots, w.r, w.L, frame).Broken? then []
               else
                 var next := NextFrame(slots, w.r, w.bot, frame);
                 [frame] + if next.None? then [] else Trail(w, slots, next.value)
  {
    hide VisitFrame, NextFrame;
  }

  lemma SlotDistance(frame: int, delta: int)
    requires delta % SLOT == 0
    ensures (frame - delta) % SLOT == frame % SLOT
  {
  }

  /** One step goes down, never below bot, by a whole number of slots. */
  lemma NextFrameDescends(slots: int -> U64, r: Reads, bot: U64, frame: U64)
    ensures var next := NextFrame(slots, r, bot, frame);
            next.Some? ==> bot <= next.value < frame && (Aligned(frame) ==> Aligned(next.value))
  {
    GuardsCatchWrapAround(slots, r, bot, frame);
    var ftsz := slots(frame);
    SizedIsWholeSlots(ftsz);
    TaggedMultiple(2 + CallOperandA(r, ftsz), 0);
    hide NextFrame, FrameSized, FrameType, CallOperandA;
    SlotDistance(frame, SLOT * (2 + CallOperandA(r, ftsz)));
    SlotDistance(frame, FrameSized(ftsz));
  }

  /** Frames strictly descend inside (bot, maxstack) and keep the alignment of the first. */
  lemma {:induction false} TrailDescends(w: Walk, slots: int -> U64, frame: int)
    ensures var t := Trail(w, slots, frame);
            && (t != [] ==> t[0] == frame)
            && (forall i :: 0 <= i < |t| ==>
                  w.bot < t[i] < w.maxstack && t[i] <= frame && (Aligned(frame) ==> Aligned(t[i])))
            && (forall i, j :: 0 <= i < j < |t| ==> t[j] < t[i])
    decreases if frame > w.bot then frame - w.bot else 0
  {
    hide VisitFrame, NextFrame, Aligned;
    var t := Trail(w, slots, frame);
    if t != [] {
      var next := NextFrame(slots, w.r, w.bot, frame);
      if next.Some? {
        NextFrameDescends(slots, w.r, w.bot, frame);
        TrailDescends(w, slots, next.value);
        assert t == [frame] + Trail(w, slots, next.value);
      }
    }
  }

  /** No depth cap is needed for termination: any cap of at least the trail's length yields
      the same events, and the trail is no longer than the slots above bot. */
  lemma {:induction false} CapOnlyTruncates(w: Walk,
                                            slots: int -> U64, frame: int, prev: Option<int>, level: nat, n: nat)
    ensures var t := Trail(w, slots, frame);
            && |t| <= Max(frame - w.bot, 0)
            && (n >= |t| ==> WalkFrom(w, slots, frame, prev, level, n) == WalkFrom(w, slots, frame, prev, level, |t|))
            && WalkFrom(w, slots, frame, prev, level, n) <= WalkFrom(w, slots, frame, prev, level, |t|)
    decreases n
  {
    hide *;
    TrailLength(w, slots, frame);
    TrailUnfolds(w, slots, frame);
    WalkUnfolds(w, slots, frame, prev, level, n);
    WalkUnfolds(w, slots, frame, prev, level, |Trail(w, slots, frame)|);
    if n > 0 && Trail(w, slots, frame) != [] {
      var v := VisitFrame(slots, w.r, w.L, frame);
      var next := NextFrame(slots, w.r, w.bot, frame);
      if next.Some? {
        CapOnlyTruncates(w, slots, next.value, Some(frame), if v.Function? then level + 1 else level, n - 1);
      }
    }
  }

  lemma {:induction false} TrailLength(w: Walk, slots: int -> U64, frame: int)
    ensures |Trail(w, slots, frame)| <= Max(frame - w.bot, 0)
    decreases if frame > w.bot then frame - w.bot else 0
  {
    hide VisitFrame, NextFrame, Aligned;
    if Trail(w, slots, frame) != [] {
      var next := NextFrame(slots, w.r, w.bot, frame);
      if next.Some? {
        NextFrameDescends(slots, w.r, w.bot, frame);
        TrailLength(w, slots, next.value);
      }
    }
  }

  /** At most one event per level, in increasing level order, at most n of them; only level 0
      can be tagged JIT; all carry the sample's key. */
  lemma {:induction false} LevelsAreDistinct(w: Walk,
                                             slots: int -> U64, frame: int, prev: Option<int>, level: nat, n: nat)
    ensures var es := WalkFrom(w, slots, frame, prev, level, n);
            && |es| <= n
            && (forall i :: 0 <= i < |es| ==> es[i].key == w.key && level <= es[i].level < level + n)
            && (forall i :: 0 <= i < |es| && es[i].kind == FUNC_TYPE_JIT ==> es[i].level == 0 && w.jit)
            && (forall i, j :: 0 <= i < j < |es| ==> es[i].level < es[j].level)
    decreases n
  {
    hide VisitFrame, NextFrame, Emitted;
    var es := WalkFrom(w, slots, frame, prev, level, n);
    if n > 0 && frame > w.bot && frame < w.maxstack {
      var v := VisitFrame(slots, w.r, w.L, frame);
      var next := NextFrame(slots, w.r, w.bot, frame);
      if !v.Broken? {
        EmittedShape(w, slots, v, prev, level);
        var level' := if v.Function? then level + 1 else level;
        if next.Some? {
          LevelsAreDistinct(w, slots, next.value, Some(frame), level', n - 1);
          assert es == Emitted(w, slots, v, prev, level) + WalkFrom(w, slots, next.value, Some(frame), level', n - 1);
        } else {
          assert es == Emitted(w, slots, v, prev, level);
        }
      }
    }
  }

  lemma EmittedShape(w: Walk, slots: int -> U64, v: Visit, prev: Option<int>, level: nat)
    ensures var es := Emitted(w, slots, v, prev, level);
            && |es| <= 1
            && (es != [] ==> && v.Function? && es[0].key == w.key && es[0].level == level
                             && (es[0].kind == FUNC_TYPE_JIT ==> level == 0 && w.jit))
  {
  }

  // ---- the stack slots a walk reads -------------------------------------------------

  /** The slots read in one turn at a frame: the frame's own and its function's, and to find
      the line of a function, those of the frame above that hold its position. */
  ghost function TurnReads(slots: int -> U64, v: Visit, frame: int, prev: Option<int>): set<int> {
    {frame, frame - SLOT}
    + if !v.Function? || prev.None? then {}
      else {prev.value} + if FrameTypeP(slots(prev.value)) == FRAME_CONT then {prev.value - 2 * SLOT} else {}
  }

  /** All frame slots that a walk of at most n frames reads. */
  ghost function SlotsRead(w: Walk, slots: int -> U64, frame: int, prev: Option<int>, n: nat): set<int>
    decreases n
  {
    if n == 0 || frame <= w.bot || frame >= w.maxstack then {}
    else
      var v, next := VisitFrame(slots, w.r, w.L, frame), NextFrame(slots, w.r, w.bot, frame);
      TurnReads(slots, v, frame, prev)
      + if v.Broken? || next.None? then {} else SlotsRead(w, slots, next.value, Some(frame), n - 1)
  }

  lemma SlotsReadUnfolds(w: Walk, slots: int -> U64, frame: int, prev: Option<int>, n: nat)
    requires n > 0 && frame > w.bot && frame < w.maxstack
    ensures var v, next := VisitFrame(slots, w.r, w.L, frame), NextFrame(slots, w.r, w.bot, frame);
            SlotsRead(w, slots, frame, prev, n)
            == TurnReads(slots, v, frame, prev)
               + if v.Broken? || next.None? then {} else SlotsRead(w, slots, next.value, Some(frame), n - 1)
  {
    hide VisitFrame, NextFrame, TurnReads;
  }

  /** Two readings of the stack that agree on a set of slots. */
  ghost predicate Agree(s1: int -> U64, s2: int -> U64, read: set<int>) {
    forall a :: a in read ==> s1(a) == s2(a)
  }

  lemma AgreeOnParts(s1: int -> U64, s2: int -> U64, a: set<int>, b: set<int>)
    requires Agree(s1, s2, a + b)
    ensures Agree(s1, s2, a) && Agree(s1, s2, b)
  {
  }

  /** One turn's visit, step and event are decided by the slots it reads. */
  lemma TurnIsDecided(w: Walk, s1: int -> U64, s2: int -> U64, frame: int, prev: Option<int>, level: nat)
    requires Agree(s1, s2, TurnReads(s1, VisitFrame(s1, w.r, w.L, frame), frame, prev))
    ensures VisitFrame(s1, w.r, w.L, frame) == VisitFrame(s2, w.r, w.L, frame)
    ensures NextFrame(s1, w.r, w.bot, frame) == NextFrame(s2, w.r, w.bot, frame)
    ensures var v := VisitFrame(s1, w.r, w.L, frame); Emitted(w, s1, v, prev, level) == Emitted(w, s2, v, prev, level)
  {
    hide LuaLine, BcPosOf, ChunkName, CallOperandA, Wrap;
    var v := VisitFrame(s1, w.r, w.L, frame);
    assert frame in TurnReads(s1, v, frame, prev) && frame - SLOT in TurnReads(s1, v, frame, prev);
    if v.Function? && prev.Some? {
      assert prev.value in TurnReads(s1, v, frame, prev);
      assert FrameTypeP(s1(prev.value)) == FRAME_CONT ==> prev.value - 2 * SLOT in TurnReads(s1, v, frame, prev);
    }
  }

  /** The slots listed are all that matter: a walk over any other stack contents that agree on
      them emits the same events. */
  lemma {:induction false} SlotsReadDecide(w: Walk, s1: int -> U64, s2: int -> U64, frame: int, prev: Option<int>,
                                           level: nat, n: nat)
    requires Agree(s1, s2, SlotsRead(w, s1, frame, prev, n))
    ensures WalkFrom(w, s1, frame, prev, level, n) == WalkFrom(w, s2, frame, prev, level, n)
    decreases n
  {
    hide *;
    WalkUnfolds(w, s1, frame, prev, level, n);
    WalkUnfolds(w, s2, frame, prev, level, n);
    if n > 0 && frame > w.bot && frame < w.maxstack {
      var v := VisitFrame(s1, w.r, w.L, frame);
      var next := NextFrame(s1, w.r, w.bot, frame);
      SlotsReadUnfolds(w, s1, frame, prev, n);
      AgreeOnParts(s1, s2, TurnReads(s1, v, frame, prev),
                   if v.Broken? || next.None? then {} else SlotsRead(w, s1, next.value, Some(frame), n - 1));
      TurnIsDecided(w, s1, s2, frame, prev, level);
      if !v.Broken? && next.Some? {
        SlotsReadDecide(w, s1, s2, next.value, Some(frame), if v.Function? then level + 1 else level, n - 1);
      }
    }
  }

  /** Whole slots from lo up to hi. */
  ghost predicate Within(read: set<int>, lo: int, hi: int) {
    forall a :: a in read ==> lo <= a && a + SLOT <= hi
  }

  lemma TurnReadsWithin(w: Walk, slots: int -> U64, v: Visit, frame: int, prev: Option<int>)
    requires Aligned(w.bot) && Aligned(w.maxstack) && Aligned(frame) && w.bot < frame < w.maxstack
    requires prev.Some? ==> frame < prev.value < w.maxstack && Aligned(prev.value)
    ensures Within(TurnReads(slots, v, frame, prev), w.bot, w.maxstack)
  {
    AlignedGap(w.bot, frame);
    AlignedGap(frame, w.maxstack);
    if prev.Some? {
      AlignedGap(frame, prev.value);
      AlignedGap(prev.value, w.maxstack);
    }
    hide Aligned;
  }

  /** On any bytes, every frame slot read lies in [bot, maxstack). */
  lemma {:induction false} SlotsReadWithin(w: Walk, slots: int -> U64, frame: int, prev: Option<int>, n: nat)
    requires Aligned(w.bot) && Aligned(w.maxstack) && Aligned(frame)
    requires prev.Some? ==> frame < prev.value < w.maxstack && Aligned(prev.value)
    ensures Within(SlotsRead(w, slots, frame, prev, n), w.bot, w.maxstack)
    decreases n
  {
    hide VisitFrame, NextFrame, TurnReads, Aligned;
    if n > 0 && frame > w.bot && frame < w.maxstack {
      var v := VisitFrame(slots, w.r, w.L, frame);
      var next := NextFrame(slots, w.r, w.bot, frame);
      TurnReadsWithin(w, slots, v, frame, prev);
      NextFrameDescends(slots, w.r, w.bot, frame);
      if !v.Broken? && next.Some? {
        SlotsReadWithin(w, slots, next.value, Some(frame), n - 1);
      }
    }
  }

  /** So two stacks that agree on every slot in that window walk alike. */
  lemma WindowSuffices(w: Walk, s1: int -> U64, s2: int -> U64, frame: int, prev: Option<int>, level: nat, n: nat)
    requires Aligned(w.bot) && Aligned(w.maxstack) && Aligned(frame)
    requires prev.Some? ==> frame < prev.value < w.maxstack && Aligned(prev.value)
    requires forall a :: w.bot <= a && a + SLOT <= w.maxstack ==> s1(a) == s2(a)
    ensures WalkFrom(w, s1, frame, prev, level, n) == WalkFrom(w, s2, frame, prev, level, n)
  {
    SlotsReadWithin(w, s1, frame, prev, n);
    assert Agree(s1, s2, SlotsRead(w, s1, frame, prev, n));
    hide *;
    SlotsReadDecide(w, s1, s2, frame, prev, level, n);
  }

  lemma StartIsOrdered(r: Reads, L: U64, stack: U64, s: Start)
    requires WalkStart(r, L) == Some(s) && stack == r.u64(Wrap(L + L_STACK))
    ensures s.bot == Wrap(stack + SLOT) && s.bot < s.base <= s.maxstack
  {
  }

  /** The address above an aligned stack is aligned, even the one that wraps to 0. */
  lemma BotIsAligned(stack: U64)
    requires Aligned(stack)
    ensures Aligned(Wrap(stack + SLOT)) && (stack + SLOT < TWO64 ==> Wrap(stack + SLOT) == stack + SLOT)
  {
    if stack + SLOT < TWO64 { WrapOfSmall(stack + SLOT); } else { assert Wrap(stack + SLOT) == 0; }
  }

  lemma StateWalksFrom(r: Reads, L: U64, s: Start, key: SampleKey, n: nat)
    requires L != 0 && WalkStart(r, L) == Some(s) && s.base >= SLOT
    ensures WalkState(r, L, key, n)
            == WalkFrom(Walk(r, L, s.bot, s.maxstack, key, s.jit), r.u64, s.base - SLOT, None, 0, n)
  {
    hide WalkStart, WalkFrom;
    WrapOfSmall(s.base - SLOT);
  }

  /** Every frame slot that the walk of a sample reads lies in [bot, maxstack), where bot is the
      slot above the stack's start, and nothing but those slots matters: any other contents of
      the stack that agree on them give the sample the same events. */
  lemma WalkStateStaysInStack(r: Reads, L: U64, stack: U64, s: Start, elsewhere: int -> U64, key: SampleKey, n: nat)
    requires L != 0 && WalkStart(r, L) == Some(s) && stack == r.u64(Wrap(L + L_STACK))
    requires Aligned(stack) && Aligned(s.maxstack) && Aligned(s.base)
    ensures s.bot == Wrap(stack + SLOT) && (stack + SLOT < TWO64 ==> s.bot == stack + SLOT)
    ensures var w := Walk(r, L, s.bot, s.maxstack, key, s.jit);
            var read := SlotsRead(w, r.u64, s.base - SLOT, None, n);
            && Within(read, s.bot, s.maxstack)
            && (Agree(r.u64, elsewhere, read) ==>
                  WalkState(r, L, key, n) == WalkFrom(w, elsewhere, s.base - SLOT, None, 0, n))
  {
    hide *;
    var w := Walk(r, L, s.bot, s.maxstack, key, s.jit);
    StartIsOrdered(r, L, stack, s);
    BotIsAligned(stack);
    AlignedNeighbours(s.base);
    BaseIsAboveASlot(s);
    StateWalksFrom(r, L, s, key, n);
    SlotsReadWithin(w, r.u64, s.base - SLOT, None, n);
    if Agree(r.u64, elsewhere, SlotsRead(w, r.u64, s.base - SLOT, None, n)) {
      SlotsReadDecide(w, r.u64, elsewhere, s.base - SLOT, None, 0, n);
    }
  }

  lemma BaseIsAboveASlot(s: Start)
    requires Aligned(s.bot) && Aligned(s.base) && s.bot < s.base
    ensures s.base >= SLOT
  {
    AlignedGap(s.bot, s.base);
  }
}
