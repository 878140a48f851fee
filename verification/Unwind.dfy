/** The native unwind loop, over an arbitrary frame iterator. */
module Unwind {
  import opened Machine
  import opened Snapshot

  /** One answer of the frame iterator. */
  datatype FrameResult = Frame(address: U64) | Finished | Failed

  /** One call of the iterator: the stack words it asked for, and its answer. */
  datatype IterStep = IterStep(asked: seq<U64>, result: FrameResult)

  /** What an iterator starts from: the sampled registers, and nothing of the stack. */
  datatype Regs = Regs(ip: U64, sp: U64, fp: U64, lr: U64)

  function RegsOf(s: NativeSample): Regs { Regs(s.ip, s.sp, s.fp, s.lr) }

  /** What an iterator does next inside one call, given the answers it had in that call. */
  datatype Turn = Ask(address: U64) | Reply(result: FrameResult)

  /** One call of an iterator from the inside: each question is free to depend on the answers
      before. A call asks a bounded number of questions; beyond that it fails. */
  datatype Call = Call(bound: nat, next: seq<Option<U64>> -> Turn)

  /** A frame iterator: its k-th call, given every answer it has ever had. */
  type FrameIterator = (nat, seq<Option<U64>>) -> Call

  type StackReader = U64 -> Option<U64>

  datatype Attempt = Attempt(ips: Option<seq<U64>>, truncated: bool, depthLimited: bool)

  // ---- iterators at work ------------------------------------------------------------

  /** The questions of a call, the answers to them, and how it ends. */
  datatype Exchange = Exchange(asked: seq<U64>, answers: seq<Option<U64>>, result: FrameResult)

  /** The rest of a call that has had the answers `got`. */
  function Talk(call: Call, read: StackReader, got: seq<Option<U64>>): Exchange
    decreases call.bound - |got|
  {
    if |got| >= call.bound then Exchange([], got, Failed)
    else
      match call.next(got)
      case Reply(result) => Exchange([], got, result)
      case Ask(a) =>
        var rest := Talk(call, read, got + [read(a)]);
        rest.(asked := [a] + rest.asked)
  }

  /** All answers before the k-th call. */
  function History(iter: FrameIterator, read: StackReader, k: nat): seq<Option<U64>> {
    if k == 0 then []
    else
      var before := History(iter, read, k - 1);
      before + Talk(iter(k - 1, before), read, []).answers
  }

  function StepAt(iter: FrameIterator, read: StackReader, k: nat): IterStep {
    var talk := Talk(iter(k, History(iter, read, k)), read, []);
    IterStep(talk.asked, talk.result)
  }

  /** The calls an iterator makes when its questions are answered by a reader. */
  function StepsOf(iter: FrameIterator, read: StackReader): nat -> IterStep { (k: nat) => StepAt(iter, read, k) }

  function SnapshotReader(s: NativeSample): StackReader { a => ReadStackWord(s.sp, s.stack, a) }

  /** Direct reads of the target, for comparison. */
  function MemoryReader(m: Memory): StackReader {
    assert Pow256(8) == TWO64;
    a => if Readable(m, a, 8) then Some(Load(m, a, 8)) else None
  }

  function SnapshotSteps(unwinder: Regs -> FrameIterator, s: NativeSample): nat -> IterStep {
    StepsOf(unwinder(RegsOf(s)), SnapshotReader(s))
  }

  predicate ReadsOutside(s: NativeSample, step: IterStep) {
    exists a :: a in step.asked && ReadStackWord(s.sp, s.stack, a).None?
  }

  /** How many frames the iterator yields before it ends, counting from i up to MAX_IPS. */
  function Depth(steps: nat -> IterStep, i: nat): (d: nat)
    requires i <= MAX_IPS
    ensures i <= d <= MAX_IPS
    ensures forall j :: i <= j < d ==> steps(j).result.Frame?
    ensures d < MAX_IPS ==> !steps(d).result.Frame?
    decreases MAX_IPS - i
  {
    if i == MAX_IPS || !steps(i).result.Frame? then i else Depth(steps, i + 1)
  }

  lemma {:induction false} DepthIs(steps: nat -> IterStep, i: nat, d: nat)
    requires i <= d <= MAX_IPS
    requires forall j :: i <= j < d ==> steps(j).result.Frame?
    requires d < MAX_IPS ==> !steps(d).result.Frame?
    ensures Depth(steps, i) == d
    decreases d - i
  {
    if i < d { DepthIs(steps, i + 1, d); }
  }

  /** One of the first n calls asked for a word outside the snapshot. */
  ghost predicate AnyOutside(s: NativeSample, steps: nat -> IterStep, n: nat) {
    exists i: nat :: i < n && ReadsOutside(s, steps(i))
  }

  lemma AnyOutsideStep(s: NativeSample, steps: nat -> IterStep, n: nat)
    ensures !AnyOutside(s, steps, 0)
    ensures AnyOutside(s, steps, n + 1) <==> AnyOutside(s, steps, n) || ReadsOutside(s, steps(n))
  {
    hide ReadsOutside;
  }

  /** The addresses of the first d frames. */
  function Addresses(steps: nat -> IterStep, d: nat): (r: seq<U64>)
    requires forall i: nat :: i < d ==> steps(i).result.Frame?
    ensures |r| == d && forall i :: 0 <= i < d ==> r[i] == steps(i).result.address
  {
    seq<U64>(d, i requires 0 <= i < d => steps(i).result.address)
  }

  /** The outcome of unwinding one sample. */
  ghost function Unwound(s: NativeSample, steps: nat -> IterStep): (r: Attempt)
    ensures r.ips.Some? ==> 2 <= |r.ips.value| <= MAX_IPS
    ensures r.depthLimited ==> r.ips.Some? && |r.ips.value| == MAX_IPS
  {
    if s.ip == 0 || s.sp == 0 then Attempt(None, false, false)
    else if |s.stack| < 8 then Attempt(None, true, false)
    else
      var d := Depth(steps, 0);
      Attempt(if d >= 2 then Some(Addresses(steps, d)) else None,
              AnyOutside(s, steps, Min(d + 1, MAX_IPS)),
              d == MAX_IPS)
  }

  // ---- what an attempt amounts to ---------------------------------------------------

  /** The call asked for a word that the snapshot does not hold. */
  ghost predicate AsksOutside(s: NativeSample, step: IterStep) {
    exists a :: a in step.asked && !(s.sp <= a && a + 8 <= s.sp + |s.stack| && a - s.sp + 8 < TWO64)
  }

  /** The call is made: every call before it yielded a frame, and 32 are not exceeded. */
  ghost predicate IsMade(steps: nat -> IterStep, i: nat) {
    i < MAX_IPS && forall j: nat :: j < i ==> steps(j).result.Frame?
  }

  /** An attempt without ip or sp has no outcome, and one with less than a word of stack only that
      it is truncated. Any other succeeds exactly when the first two calls yield frames; its
      addresses are theirs, up to the first call that yields none or to 32; it is truncated
      exactly when a call made asks outside the snapshot. */
  ghost predicate IsOutcome(s: NativeSample, steps: nat -> IterStep, r: Attempt) {
    var located := s.ip != 0 && s.sp != 0;
    var runs := located && |s.stack| >= 8;
    && (r.truncated <==> located && (|s.stack| < 8 || exists i: nat :: IsMade(steps, i) && AsksOutside(s, steps(i))))
    && (r.ips.Some? <==> runs && steps(0).result.Frame? && steps(1).result.Frame?)
    && (r.ips.Some? ==>
          var ips := r.ips.value;
          && 2 <= |ips| <= MAX_IPS
          && (forall i :: 0 <= i < |ips| ==> steps(i).result == Frame(ips[i]))
          && (|ips| < MAX_IPS ==> !steps(|ips|).result.Frame?))
    && (r.depthLimited <==> runs && forall i: nat :: i < MAX_IPS ==> steps(i).result.Frame?)
  }

  lemma OutsideIsUnanswered(s: NativeSample, step: IterStep)
    ensures ReadsOutside(s, step) <==> AsksOutside(s, step)
  {
    forall a: U64 ensures ReadStackWord(s.sp, s.stack, a).None?
                     <==> !(s.sp <= a && a + 8 <= s.sp + |s.stack| && a - s.sp + 8 < TWO64) {
      hide FromLE;
    }
    hide ReadStackWord;
  }

  lemma MadeCalls(steps: nat -> IterStep, i: nat)
    ensures IsMade(steps, i) <==> i < Min(Depth(steps, 0) + 1, MAX_IPS)
  {
    var d := Depth(steps, 0);
    hide Depth;
    if d < i && i < MAX_IPS { assert !steps(d).result.Frame?; }
  }

  lemma TruncatedExactly(s: NativeSample, steps: nat -> IterStep)
    ensures AnyOutside(s, steps, Min(Depth(steps, 0) + 1, MAX_IPS))
            <==> exists i: nat :: IsMade(steps, i) && AsksOutside(s, steps(i))
  {
    hide ReadsOutside, AsksOutside, IsMade, Depth;
    var calls := Min(Depth(steps, 0) + 1, MAX_IPS);
    forall i: nat ensures IsMade(steps, i) && AsksOutside(s, steps(i)) <==> i < calls && ReadsOutside(s, steps(i)) {
      MadeCalls(steps, i);
      OutsideIsUnanswered(s, steps(i));
    }
    if AnyOutside(s, steps, calls) {
      var i: nat :| i < calls && ReadsOutside(s, steps(i));
      assert IsMade(steps, i) && AsksOutside(s, steps(i));
    }
    if i: nat :| IsMade(steps, i) && AsksOutside(s, steps(i)) {
      assert i < calls && ReadsOutside(s, steps(i));
    }
  }

  lemma DepthInSteps(steps: nat -> IterStep)
    ensures Depth(steps, 0) >= 2 <==> steps(0).result.Frame? && steps(1).result.Frame?
    ensures Depth(steps, 0) == MAX_IPS <==> forall i: nat :: i < MAX_IPS ==> steps(i).result.Frame?
  {
  }

  lemma AddressesOfFrames(steps: nat -> IterStep)
    ensures var d := Depth(steps, 0);
            var ips := Addresses(steps, d);
            && |ips| == d <= MAX_IPS
            && (forall i :: 0 <= i < |ips| ==> steps(i).result == Frame(ips[i]))
            && (|ips| < MAX_IPS ==> !steps(|ips|).result.Frame?)
  {
  }

  /** Every attempt is as described. */
  lemma UnwoundIsOutcome(s: NativeSample, steps: nat -> IterStep)
    ensures IsOutcome(s, steps, Unwound(s, steps))
  {
    hide AnyOutside, AsksOutside, IsMade, Depth, Addresses;
    TruncatedExactly(s, steps);
    DepthInSteps(steps);
    AddressesOfFrames(steps);
  }

  /** The loop over the iterator. */
  method UnwindLoop(s: NativeSample, steps: nat -> IterStep) returns (r: Attempt)
    ensures r == Unwound(s, steps)
  {
    hide ReadsOutside, AnyOutside;
    AnyOutsideStep(s, steps, 0);
    if s.ip == 0 || s.sp == 0 { return Attempt(None, false, false); }
    if |s.stack| < 8 { return Attempt(None, true, false); }
    var frames: seq<U64> := [];
    var truncated, reachedLimit := false, false;
    while true
      invariant |frames| <= MAX_IPS && !reachedLimit
      invariant forall j :: 0 <= j < |frames| ==> steps(j).result == Frame(frames[j])
      invariant truncated <==> AnyOutside(s, steps, |frames|)
      decreases MAX_IPS - |frames|
    {
      if |frames| == MAX_IPS {
        reachedLimit := true;
        DepthIs(steps, 0, MAX_IPS);
        break;
      }
      var step := steps(|frames|);
      AnyOutsideStep(s, steps, |frames|);
      truncated := truncated || ReadsOutside(s, step);
      if !step.result.Frame? {
        DepthIs(steps, 0, |frames|);
        break;
      }
      frames := frames + [step.result.address];
    }
    assert frames == Addresses(steps, |frames|);
    r := Attempt(if |frames| >= 2 then Some(frames) else None, truncated, reachedLimit);
  }

  method UnwindSample(s: NativeSample, steps: nat -> IterStep) returns (r: Attempt)
    ensures r == Unwound(s, steps) && IsOutcome(s, steps, r)
  {
    r := UnwindLoop(s, steps);
    hide *;
    UnwoundIsOutcome(s, steps);
  }

  // ---- the snapshot stands in for the target ----------------------------------------

  ghost predicate AgreeOn(r1: StackReader, r2: StackReader, asked: seq<U64>) {
    forall a :: a in asked ==> r1(a) == r2(a)
  }

  lemma {:induction false} SameTalk(call: Call, r1: StackReader, r2: StackReader, got: seq<Option<U64>>)
    requires AgreeOn(r1, r2, Talk(call, r1, got).asked)
    ensures Talk(call, r1, got) == Talk(call, r2, got)
    decreases call.bound - |got|
  {
    if |got| < call.bound && call.next(got).Ask? {
      var a := call.next(got).address;
      var rest := Talk(call, r1, got + [r1(a)]);
      assert Talk(call, r1, got).asked == [a] + rest.asked;
      assert a in Talk(call, r1, got).asked;
      forall b | b in rest.asked ensures r1(b) == r2(b) { assert b in Talk(call, r1, got).asked; }
      SameTalk(call, r1, r2, got + [r1(a)]);
    }
  }

  /** Readers that agree on everything asked so far lead to the same calls. */
  lemma {:induction false} SameHistory(iter: FrameIterator, r1: StackReader, r2: StackReader, k: nat)
    requires forall i: nat :: i < k ==> AgreeOn(r1, r2, StepAt(iter, r1, i).asked)
    ensures History(iter, r1, k) == History(iter, r2, k)
  {
    if k > 0 {
      SameHistory(iter, r1, r2, k - 1);
      assert AgreeOn(r1, r2, StepAt(iter, r1, k - 1).asked);
      hide AgreeOn, Talk;
      SameTalk(iter(k - 1, History(iter, r1, k - 1)), r1, r2, []);
    }
  }

  lemma SameStep(iter: FrameIterator, r1: StackReader, r2: StackReader, k: nat)
    requires forall i: nat :: i <= k ==> AgreeOn(r1, r2, StepAt(iter, r1, i).asked)
    ensures StepAt(iter, r1, k) == StepAt(iter, r2, k)
  {
    SameHistory(iter, r1, r2, k);
    assert AgreeOn(r1, r2, StepAt(iter, r1, k).asked);
    hide AgreeOn, Talk;
    SameTalk(iter(k, History(iter, r1, k)), r1, r2, []);
  }

  /** A call that stays inside the snapshot gets the target's own words. */
  lemma InsideIsTarget(m: Memory, s: NativeSample, step: IterStep)
    requires s.stack <= SnapshotAt(m, s.sp) && !ReadsOutside(s, step)
    ensures AgreeOn(SnapshotReader(s), MemoryReader(m), step.asked)
  {
    hide SnapshotAt, Load, Readable;
    forall a | a in step.asked ensures SnapshotReader(s)(a) == MemoryReader(m)(a) {
      assert ReadStackWord(s.sp, s.stack, a).Some?;
      PrefixRefinesMemory(m, s.sp, s.stack, a);
    }
  }

  lemma SameCalls(m: Memory, s: NativeSample, iter: FrameIterator, calls: nat)
    requires s.stack <= SnapshotAt(m, s.sp) && !AnyOutside(s, StepsOf(iter, SnapshotReader(s)), calls)
    ensures forall i: nat :: i < calls ==> StepAt(iter, SnapshotReader(s), i) == StepAt(iter, MemoryReader(m), i)
  {
    hide SnapshotAt, StepAt, ReadsOutside, AgreeOn;
    var r1, r2 := SnapshotReader(s), MemoryReader(m);
    forall i: nat | i < calls ensures AgreeOn(r1, r2, StepAt(iter, r1, i).asked) {
      assert !ReadsOutside(s, StepsOf(iter, r1)(i));
      InsideIsTarget(m, s, StepAt(iter, r1, i));
    }
    hide SnapshotReader, MemoryReader, AnyOutside;
    forall i: nat | i < calls ensures StepAt(iter, r1, i) == StepAt(iter, r2, i) { SameStep(iter, r1, r2, i); }
  }

  /** Iterators that make the same calls as far as an attempt looks yield the same frames. */
  lemma SameFrames(s: NativeSample, s1: nat -> IterStep, s2: nat -> IterStep)
    requires forall i: nat :: i < Min(Depth(s1, 0) + 1, MAX_IPS) ==> s1(i) == s2(i)
    ensures Unwound(s, s1).ips == Unwound(s, s2).ips && Unwound(s, s1).depthLimited == Unwound(s, s2).depthLimited
  {
    var d := Depth(s1, 0);
    UnwoundUnfolds(s, s1);
    UnwoundUnfolds(s, s2);
    hide *;
    DepthIs(s2, 0, d);
    SameAddresses(s1, s2, d);
  }

  lemma SameAddresses(s1: nat -> IterStep, s2: nat -> IterStep, d: nat)
    requires forall i: nat :: i < d ==> s1(i) == s2(i) && s1(i).result.Frame?
    ensures Addresses(s1, d) == Addresses(s2, d)
  {
    hide Addresses;
  }

  lemma UnwoundUnfolds(s: NativeSample, steps: nat -> IterStep)
    ensures var r, d := Unwound(s, steps), Depth(steps, 0);
            if s.ip == 0 || s.sp == 0 || |s.stack| < 8 then r.ips == None && !r.depthLimited
            else
              && r.ips == (if d >= 2 then Some(Addresses(steps, d)) else None)
              && r.depthLimited == (d == MAX_IPS)
  {
    hide AnyOutside, Depth, Addresses;
  }

  /** An attempt that is not marked truncated is the attempt of an unwinder that reads target
      memory directly, at the time of the sample. */
  lemma UntruncatedReadsTarget(m: Memory, s: NativeSample, iter: FrameIterator)
    requires s.stack <= SnapshotAt(m, s.sp)
    ensures var r, t := Unwound(s, StepsOf(iter, SnapshotReader(s))), Unwound(s, StepsOf(iter, MemoryReader(m)));
            !r.truncated ==> r.ips == t.ips && r.depthLimited == t.depthLimited
  {
    hide SnapshotAt, StepAt, AnyOutside, SnapshotReader, MemoryReader;
    var s1 := StepsOf(iter, SnapshotReader(s));
    if !Unwound(s, s1).truncated && s.ip != 0 && s.sp != 0 {
      SameCalls(m, s, iter, Min(Depth(s1, 0) + 1, MAX_IPS));
      SameFrames(s, s1, StepsOf(iter, MemoryReader(m)));
      hide Unwound;
    }
  }
}
