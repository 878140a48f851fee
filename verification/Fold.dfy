/** Folding one sample: native frames and Lua events merged into one root-to-leaf stack. */
module Fold {
  import opened Machine
  import opened ProbeReads
  import opened Levels
  import opened LuaWalk
  import opened Rendering

  // ---- merging ----------------------------------------------------------------------

  /** A frame of the merged stack, before rendering. */
  datatype OutFrame = NativeFrame(name: string) | LuaFrame(text: string) | UnknownFrame

  /** The formattable events of a sequence, as frames. */
  function Formatted(chunk: Namer, es: seq<LuaEvent>): seq<OutFrame> {
    if es == [] then []
    else FrameOf(chunk, es[0]) + Formatted(chunk, es[1..])
  }

  function FrameOf(chunk: Namer, e: LuaEvent): seq<OutFrame> {
    var f := FormatLuaFrame(chunk, e);
    if f.None? then [] else [LuaFrame(f.value)]
  }

  /** Merges native slots, root first, with sorted events: a named slot is itself, an unnamed
      one takes the next event, and events left over go on top. */
  function Merge(chunk: Namer, natives: seq<Option<string>>, es: seq<LuaEvent>, includeC: bool): seq<OutFrame> {
    if natives == [] then Formatted(chunk, es)
    else if natives[0].Some? then
      (if includeC then [NativeFrame(natives[0].value)] else []) + Merge(chunk, natives[1..], es, includeC)
    else if es != [] then FrameOf(chunk, es[0]) + Merge(chunk, natives[1..], es[1..], includeC)
    else (if includeC then [UnknownFrame] else []) + Merge(chunk, natives[1..], es, includeC)
  }

  function Text(f: OutFrame): string {
    match f
    case NativeFrame(name) => name
    case LuaFrame(text) => text
    case UnknownFrame => "[unknown]"
  }

  function Texts(fs: seq<OutFrame>): (r: seq<string>)
    ensures |r| == |fs|
  {
    seq(|fs|, i requires 0 <= i < |fs| => Text(fs[i]))
  }

  function Join(frames: seq<string>): string {
    if frames == [] then ""
    else if |frames| == 1 then frames[0]
    else Join(frames[..|frames| - 1]) + ";" + frames[|frames| - 1]
  }

  // ---- the folded line --------------------------------------------------------------

  /** A folded line cut at its semicolons. */
  function Pieces(s: string): (r: seq<string>)
    ensures |r| >= 1
  {
    if s == "" then [""]
    else
      var ps, c := Pieces(s[..|s| - 1]), s[|s| - 1];
      if c == ';' then ps + [""] else ps[..|ps| - 1] + [ps[|ps| - 1] + [c]]
  }

  ghost predicate NoSemicolons(frames: seq<string>) { forall i :: 0 <= i < |frames| ==> ';' !in frames[i] }

  lemma {:induction false} PiecesAreClean(s: string)
    ensures NoSemicolons(Pieces(s))
  {
    if s != "" { PiecesAreClean(s[..|s| - 1]); }
  }

  lemma OneMoreChar(s: string, c: char)
    ensures var ps := Pieces(s);
            Pieces(s + [c]) == if c == ';' then ps + [""] else ps[..|ps| - 1] + [ps[|ps| - 1] + [c]]
  {
    assert (s + [c])[..|s|] == s;
  }

  /** Text without a semicolon extends the last piece. */
  lemma {:induction false} PiecesExtend(s: string, f: string)
    requires ';' !in f
    ensures var ps := Pieces(s); Pieces(s + f) == ps[..|ps| - 1] + [ps[|ps| - 1] + f]
  {
    var ps := Pieces(s);
    if f == "" {
      assert s + f == s && ps[|ps| - 1] + f == ps[|ps| - 1];
    } else {
      var g, c := f[..|f| - 1], f[|f| - 1];
      assert f == g + [c] && s + f == (s + g) + [c];
      hide Pieces;
      PiecesExtend(s, g);
      OneMoreChar(s + g, c);
      assert ps[|ps| - 1] + g + [c] == ps[|ps| - 1] + f;
    }
  }

  lemma JoinUnfolds(frames: seq<string>)
    requires frames != []
    ensures var n := |frames| - 1;
            Join(frames) == if n == 0 then frames[0] else Join(frames[..n]) + ";" + frames[n]
  {
  }

  lemma NoPieces()
    ensures Pieces("") == [""]
  {
  }

  lemma LastFrame(frames: seq<string>)
    requires frames != [] && NoSemicolons(frames)
    ensures var n := |frames| - 1;
            ';' !in frames[n] && NoSemicolons(frames[..n]) && frames == frames[..n] + ["" + frames[n]]
  {
    assert "" + frames[|frames| - 1] == frames[|frames| - 1];
  }

  lemma {:induction false} JoinedPieces(frames: seq<string>)
    requires frames != [] && NoSemicolons(frames)
    ensures Pieces(Join(frames)) == frames
  {
    hide *;
    var n := |frames| - 1;
    JoinUnfolds(frames);
    LastFrame(frames);
    if n == 0 {
      NoPieces();
      PiecesExtend("", frames[0]);
      assert "" + frames[0] == frames[0] && frames[..0] == [];
    } else {
      var before := Join(frames[..n]);
      JoinedPieces(frames[..n]);
      OneMoreChar(before, ';');
      PiecesExtend(before + ";", frames[n]);
      assert (frames[..n] + [""])[..n] == frames[..n];
    }
  }

  /** A folded line gives back the frames of its stack exactly when none of them holds a
      semicolon. */
  lemma LineGivesFramesExactly(frames: seq<string>)
    ensures Pieces(Join(frames)) == frames <==> frames != [] && NoSemicolons(frames)
  {
    PiecesAreClean(Join(frames));
    if frames != [] && NoSemicolons(frames) { JoinedPieces(frames); }
  }

  /** So stacks without semicolons share a count only if all their frames render alike. */
  lemma LineDeterminesFrames(a: seq<string>, b: seq<string>)
    requires a != [] && b != [] && NoSemicolons(a) && NoSemicolons(b)
    ensures Join(a) == Join(b) <==> a == b
  {
    JoinedPieces(a);
    JoinedPieces(b);
  }

  /** A semicolon in a chunk name makes one frame count as two. */
  lemma SemicolonMerges()
    ensures Join(["L:a;L:b"]) == Join(["L:a", "L:b"])
  {
    assert ["L:a", "L:b"][..1] == ["L:a"];
  }

  /** The folded stack of one sample, if it has any frame. */
  function Folded(chunk: Namer, natives: seq<Option<string>>, es: seq<LuaEvent>, includeC: bool): Option<string> {
    var fs := Merge(chunk, natives, SortByLevel(es), includeC);
    if fs == [] then None else Some(Join(Texts(fs)))
  }

  /** Doing one more step of a merge: its texts follow those done, and the rest is unchanged. */
  lemma OneMoreStep(done: seq<OutFrame>, step: seq<OutFrame>, rest: seq<OutFrame>)
    ensures Texts(done + step) == Texts(done) + Texts(step)
    ensures done + (step + rest) == (done + step) + rest
  {
  }

  lemma TextsOfStep(step: seq<OutFrame>)
    requires |step| <= 1
    ensures Texts(step) == if step == [] then [] else [Text(step[0])]
  {
  }

  /** What one native slot contributes when the events from es on are still unused. */
  function SlotFrames(chunk: Namer, native: Option<string>, es: seq<LuaEvent>, includeC: bool): seq<OutFrame> {
    if native.Some? then if includeC then [NativeFrame(native.value)] else []
    else if es != [] then FrameOf(chunk, es[0])
    else if includeC then [UnknownFrame] else []
  }

  /** The events a slot leaves for those above it. */
  function EventsAfter(native: Option<string>, es: seq<LuaEvent>): seq<LuaEvent> {
    if native.None? && es != [] then es[1..] else es
  }

  lemma MergeUnfolds(chunk: Namer, natives: seq<Option<string>>, es: seq<LuaEvent>, includeC: bool)
    requires natives != []
    ensures Merge(chunk, natives, es, includeC)
            == SlotFrames(chunk, natives[0], es, includeC)
               + Merge(chunk, natives[1..], EventsAfter(natives[0], es), includeC)
  {
  }

  lemma MergeEnds(chunk: Namer, natives: seq<Option<string>>, es: seq<LuaEvent>, k: nat, includeC: bool)
    requires k <= |es|
    ensures Merge(chunk, natives[|natives|..], es[k..], includeC) == Formatted(chunk, es[k..])
    ensures Formatted(chunk, es[k..]) == if k == |es| then [] else FrameOf(chunk, es[k]) + Formatted(chunk, es[k + 1..])
  {
    if k < |es| { assert es[k..][1..] == es[k + 1..]; }
  }

  /** The first loop: one native slot after the other. */
  method MergeSlots(chunk: Namer, natives: seq<Option<string>>, sorted: seq<LuaEvent>, includeC: bool)
    returns (frames: seq<string>, luaIdx: nat, ghost done: seq<OutFrame>)
    ensures luaIdx <= |sorted| && frames == Texts(done)
    ensures Merge(chunk, natives, sorted, includeC) == done + Formatted(chunk, sorted[luaIdx..])
  {
    hide FormatLuaFrame, Merge, Formatted, Texts, EventsAfter;
    frames, luaIdx, done := [], 0, [];
    TextsOfStep([]);
    ghost var all := Merge(chunk, natives, sorted, includeC);
    for i := 0 to |natives|
      invariant luaIdx <= |sorted| && frames == Texts(done)
      invariant all == done + Merge(chunk, natives[i..], sorted[luaIdx..], includeC)
    {
      ghost var unused := sorted[luaIdx..];
      MergeUnfolds(chunk, natives[i..], unused, includeC);
      ghost var step := SlotFrames(chunk, natives[i], unused, includeC);
      ghost var rest := Merge(chunk, natives[i + 1..], EventsAfter(natives[i], unused), includeC);
      match natives[i] {
        case Some(name) =>
          if includeC { frames := frames + [name]; }
        case None =>
          if luaIdx < |sorted| {
            var frame := FormatLuaFrame(chunk, sorted[luaIdx]);
            if frame.Some? { frames := frames + [frame.value]; }
            luaIdx := luaIdx + 1;
          } else if includeC {
            frames := frames + ["[unknown]"];
          }
      }
      assert sorted[luaIdx..] == EventsAfter(natives[i], unused) by { UnusedAfter(natives[i], unused); }
      TextsOfStep(step);
      OneMoreStep(done, step, rest);
      done := done + step;
    }
    MergeEnds(chunk, natives, sorted, luaIdx, includeC);
  }

  lemma UnusedAfter(native: Option<string>, es: seq<LuaEvent>)
    ensures EventsAfter(native, es) == if native.None? && es != [] then es[1..] else es
  {
  }

  /** The merging loops compute the fold. */
  method FoldSymbolizedStack(chunk: Namer, natives: seq<Option<string>>, lua: seq<LuaEvent>, includeC: bool)
    returns (r: Option<string>)
    ensures r == Folded(chunk, natives, lua, includeC)
  {
    hide FormatLuaFrame, SortByLevel, Merge, Formatted, Join, Texts;
    var sorted := SortByLevel(lua);
    var frames, luaIdx, done := MergeSlots(chunk, natives, sorted, includeC);
    ghost var all := Merge(chunk, natives, sorted, includeC);
    while luaIdx < |sorted|
      invariant luaIdx <= |sorted| && frames == Texts(done)
      invariant all == done + Formatted(chunk, sorted[luaIdx..])
    {
      MergeEnds(chunk, natives, sorted, luaIdx, includeC);
      ghost var step := FrameOf(chunk, sorted[luaIdx]);
      var frame := FormatLuaFrame(chunk, sorted[luaIdx]);
      if frame.Some? { frames := frames + [frame.value]; }
      TextsOfStep(step);
      OneMoreStep(done, step, Formatted(chunk, sorted[luaIdx + 1..]));
      done := done + step;
      luaIdx := luaIdx + 1;
    }
    MergeEnds(chunk, natives, sorted, luaIdx, includeC);
    assert all == done;
    r := if frames == [] then None else Some(Join(frames));
  }

  /** So the count of a sample whose one frame shows "a;L:b" and that of a sample whose two
      frames show "a" and "b" are one. */
  lemma SemicolonMergesSamples(chunk: Namer, one: LuaEvent, leaf: LuaEvent, root: LuaEvent)
    requires one.kind == leaf.kind == root.kind == FUNC_TYPE_LUA && one.line == leaf.line == root.line == 0
    requires chunk(CStr(one.name)) == "a;L:b" && chunk(CStr(leaf.name)) == "b" && chunk(CStr(root.name)) == "a"
    requires leaf.level < root.level
    ensures Folded(chunk, [], [one], false) == Folded(chunk, [], [leaf, root], false) == Some("L:a;L:b")
  {
    ShowsName(chunk, one, "a;L:b", "L:a;L:b");
    ShowsName(chunk, leaf, "b", "L:b");
    ShowsName(chunk, root, "a", "L:a");
    hide FormatLuaFrame, CStr, SortByLevel, Folded;
    SortOne(one);
    SortTwo(leaf, root);
    FormattedOne(chunk, one);
    FormattedTwo(chunk, root, leaf);
    hide Formatted;
    FoldedIs(chunk, [one], [one], [LuaFrame("L:a;L:b")], ["L:a;L:b"]);
    FoldedIs(chunk, [leaf, root], [root, leaf], [LuaFrame("L:a"), LuaFrame("L:b")], ["L:a", "L:b"]);
    SemicolonMerges();
    assert Join(["L:a;L:b"]) == "L:a;L:b";
  }

  lemma ShowsName(chunk: Namer, e: LuaEvent, name: string, shown: string)
    requires e.kind == FUNC_TYPE_LUA && e.line == 0 && chunk(CStr(e.name)) == name != "" && shown == "L:" + name
    ensures FormatLuaFrame(chunk, e) == Some(shown)
  {
    hide CStr;
  }

  lemma FoldedIs(chunk: Namer, es: seq<LuaEvent>, sorted: seq<LuaEvent>, fs: seq<OutFrame>, texts: seq<string>)
    requires SortByLevel(es) == sorted && Formatted(chunk, sorted) == fs != [] && Texts(fs) == texts
    ensures Folded(chunk, [], es, false) == Some(Join(texts))
  {
    LuaOnlyIgnoresNatives(chunk, [], sorted);
    hide SortByLevel, Formatted, Merge, Texts, Join;
  }

  lemma SortOne(e: LuaEvent)
    ensures SortByLevel([e]) == [e]
  {
    assert [e][..0] == [];
    assert SortByLevel([e]) == Insert(e, SortByLevel([]));
  }

  lemma SortTwo(leaf: LuaEvent, root: LuaEvent)
    requires leaf.level < root.level
    ensures SortByLevel([leaf, root]) == [root, leaf]
  {
    SortOne(leaf);
    assert [leaf, root][..1] == [leaf];
    assert SortByLevel([leaf, root]) == Insert(root, [leaf]);
  }

  lemma FormattedOne(chunk: Namer, e: LuaEvent)
    ensures Formatted(chunk, [e]) == FrameOf(chunk, e)
  {
    assert [e][1..] == [];
    assert Formatted(chunk, []) == [];
    hide FrameOf;
  }

  lemma FormattedTwo(chunk: Namer, root: LuaEvent, leaf: LuaEvent)
    ensures Formatted(chunk, [root, leaf]) == FrameOf(chunk, root) + FrameOf(chunk, leaf)
  {
    assert [root, leaf][1..] == [leaf];
    FormattedOne(chunk, leaf);
    hide FrameOf;
  }

  // ---- what the merge keeps ---------------------------------------------------------

  function Named(natives: seq<Option<string>>): seq<OutFrame> {
    if natives == [] then []
    else if natives[0].Some? then [NativeFrame(natives[0].value)] + Named(natives[1..])
    else Named(natives[1..])
  }

  function Unnamed(natives: seq<Option<string>>): nat {
    if natives == [] then 0 else (if natives[0].None? then 1 else 0) + Unnamed(natives[1..])
  }

  function NativesOf(fs: seq<OutFrame>): seq<OutFrame> {
    if fs == [] then []
    else if fs[0].NativeFrame? then [fs[0]] + NativesOf(fs[1..])
    else NativesOf(fs[1..])
  }

  function LuasOf(fs: seq<OutFrame>): seq<OutFrame> {
    if fs == [] then []
    else if fs[0].LuaFrame? then [fs[0]] + LuasOf(fs[1..])
    else LuasOf(fs[1..])
  }

  lemma {:induction false} NativesAppend(a: seq<OutFrame>, b: seq<OutFrame>)
    ensures NativesOf(a + b) == NativesOf(a) + NativesOf(b)
  {
    if a == [] {
      assert a + b == b;
    } else {
      assert (a + b)[0] == a[0] && (a + b)[1..] == a[1..] + b;
      NativesAppend(a[1..], b);
    }
  }

  lemma {:induction false} LuasAppend(a: seq<OutFrame>, b: seq<OutFrame>)
    ensures LuasOf(a + b) == LuasOf(a) + LuasOf(b)
  {
    if a == [] {
      assert a + b == b;
    } else {
      assert (a + b)[0] == a[0] && (a + b)[1..] == a[1..] + b;
      LuasAppend(a[1..], b);
    }
  }

  lemma ProjectAppend(a: seq<OutFrame>, b: seq<OutFrame>)
    ensures NativesOf(a + b) == NativesOf(a) + NativesOf(b) && LuasOf(a + b) == LuasOf(a) + LuasOf(b)
  {
    NativesAppend(a, b);
    LuasAppend(a, b);
  }

  lemma {:induction false} FormattedProject(chunk: Namer, es: seq<LuaEvent>)
    ensures NativesOf(Formatted(chunk, es)) == [] && LuasOf(Formatted(chunk, es)) == Formatted(chunk, es)
  {
    if es != [] {
      FormattedProject(chunk, es[1..]);
      ProjectAppend(FrameOf(chunk, es[0]), Formatted(chunk, es[1..]));
    }
  }

  lemma SlotProjects(chunk: Namer, native: Option<string>, es: seq<LuaEvent>)
    ensures var fs := SlotFrames(chunk, native, es, true);
            && NativesOf(fs) == (if native.Some? then [NativeFrame(native.value)] else [])
            && LuasOf(fs) == (if native.None? && es != [] then FrameOf(chunk, es[0]) else [])
            && |fs| == |NativesOf(fs)| + |LuasOf(fs)| + if native.None? && es == [] then 1 else 0
  {
    hide FormatLuaFrame;
    var fs := SlotFrames(chunk, native, es, true);
    if fs != [] { assert fs == [fs[0]] && fs[1..] == []; }
  }

  lemma {:induction false} MergeKeepsNatives(chunk: Namer, natives: seq<Option<string>>, es: seq<LuaEvent>)
    ensures NativesOf(Merge(chunk, natives, es, true)) == Named(natives)
  {
    if natives == [] {
      FormattedProject(chunk, es);
    } else {
      var rest := EventsAfter(natives[0], es);
      var tail := Merge(chunk, natives[1..], rest, true);
      MergeUnfolds(chunk, natives, es, true);
      SlotProjects(chunk, natives[0], es);
      NativesAppend(SlotFrames(chunk, natives[0], es, true), tail);
      hide Merge, SlotFrames, FrameOf, NativesOf, EventsAfter;
      MergeKeepsNatives(chunk, natives[1..], rest);
      assert [] + NativesOf(tail) == NativesOf(tail);
    }
  }

  lemma {:induction false} MergeKeepsLua(chunk: Namer, natives: seq<Option<string>>, es: seq<LuaEvent>)
    ensures LuasOf(Merge(chunk, natives, es, true)) == Formatted(chunk, es)
  {
    if natives == [] {
      FormattedProject(chunk, es);
    } else {
      var rest := EventsAfter(natives[0], es);
      var tail := Merge(chunk, natives[1..], rest, true);
      MergeUnfolds(chunk, natives, es, true);
      SlotProjects(chunk, natives[0], es);
      LuasAppend(SlotFrames(chunk, natives[0], es, true), tail);
      hide Merge, SlotFrames, FrameOf, LuasOf;
      MergeKeepsLua(chunk, natives[1..], rest);
      assert [] + LuasOf(tail) == LuasOf(tail);
    }
  }

  lemma SlotLength(chunk: Namer, native: Option<string>, es: seq<LuaEvent>)
    ensures |SlotFrames(chunk, native, es, true)| + |Formatted(chunk, EventsAfter(native, es))|
            == |Formatted(chunk, es)| + if native.None? && es != [] then 0 else 1
    ensures |EventsAfter(native, es)| == |es| - if native.None? && es != [] then 1 else 0
  {
    hide FrameOf;
  }

  lemma SlotKinds(natives: seq<Option<string>>, es: seq<LuaEvent>)
    requires natives != []
    ensures |Named(natives)| == |Named(natives[1..])| + if natives[0].Some? then 1 else 0
    ensures Max(0, Unnamed(natives) - |es|)
            == Max(0, Unnamed(natives[1..]) - |EventsAfter(natives[0], es)|)
               + if natives[0].None? && es == [] then 1 else 0
  {
    assert natives[0].Some? ==> Named(natives) == [NativeFrame(natives[0].value)] + Named(natives[1..]);
    hide Named;
  }

  lemma NothingToMerge(chunk: Namer, es: seq<LuaEvent>)
    ensures Merge(chunk, [], es, true) == Formatted(chunk, es) && Named([]) == [] && Max(0, Unnamed([]) - |es|) == 0
  {
    hide Formatted, FrameOf;
  }

  lemma {:induction false} MergeLength(chunk: Namer, natives: seq<Option<string>>, es: seq<LuaEvent>)
    ensures |Merge(chunk, natives, es, true)|
            == |Named(natives)| + |Formatted(chunk, es)| + Max(0, Unnamed(natives) - |es|)
  {
    hide *;
    if natives == [] {
      NothingToMerge(chunk, es);
    } else {
      MergeUnfolds(chunk, natives, es, true);
      SlotLength(chunk, natives[0], es);
      SlotKinds(natives, es);
      MergeLength(chunk, natives[1..], EventsAfter(natives[0], es));
    }
  }

  /** With C stacks on, nothing is lost, reordered or invented: the named natives in order,
      the formattable Lua events in order, and one unknown frame for each unnamed slot that
      finds no Lua event left. */
  lemma MergeKeepsFrames(chunk: Namer, natives: seq<Option<string>>, es: seq<LuaEvent>)
    ensures var fs := Merge(chunk, natives, es, true);
            && NativesOf(fs) == Named(natives)
            && LuasOf(fs) == Formatted(chunk, es)
            && |fs| == |Named(natives)| + |Formatted(chunk, es)| + Max(0, Unnamed(natives) - |es|)
  {
    MergeKeepsNatives(chunk, natives, es);
    MergeKeepsLua(chunk, natives, es);
    MergeLength(chunk, natives, es);
  }

  lemma FirstSlotUnnamed(chunk: Namer, after: seq<Option<string>>, es: seq<LuaEvent>, includeC: bool)
    requires es != []
    ensures var k := Unnamed([]);
            Merge(chunk, [] + [None] + after, es, includeC)
            == Merge(chunk, [], es[..k], includeC) + FrameOf(chunk, es[k]) + Merge(chunk, after, es[k + 1..], includeC)
  {
    assert ([] + [None] + after)[1..] == after;
    hide FrameOf;
    assert Formatted(chunk, []) == [];
  }

  /** Behind the first slot, everything is one slot and at most one event further on. */
  lemma EventsShift(before: seq<Option<string>>, es: seq<LuaEvent>)
    requires before != [] && Unnamed(before) < |es|
    ensures var k, k', rest := Unnamed(before), Unnamed(before[1..]), EventsAfter(before[0], es);
            && k' < |rest| && rest[k'] == es[k] && rest[k' + 1..] == es[k + 1..]
            && rest[..k'] == EventsAfter(before[0], es[..k]) && (before[0].None? ==> k >= 1)
  {
  }

  /** Each unnamed slot holds its own event: the k-th takes the k-th Lua event, right after
      everything merged for the slots before it and right before everything after. */
  lemma {:induction false} UnnamedSlotTakesItsEvent(chunk: Namer, before: seq<Option<string>>,
                                                   after: seq<Option<string>>, es: seq<LuaEvent>, includeC: bool)
    requires Unnamed(before) < |es|
    ensures var k := Unnamed(before);
            Merge(chunk, before + [None] + after, es, includeC)
            == Merge(chunk, before, es[..k], includeC) + FrameOf(chunk, es[k])
               + Merge(chunk, after, es[k + 1..], includeC)
  {
    hide *;
    var k := Unnamed(before);
    var all := before + [None] + after;
    MergeUnfolds(chunk, all, es, includeC);
    if before == [] {
      FirstSlotUnnamed(chunk, after, es, includeC);
    } else {
      var rest := EventsAfter(before[0], es);
      var k' := Unnamed(before[1..]);
      assert all[0] == before[0] && all[1..] == before[1..] + [None] + after;
      EventsShift(before, es);
      MergeUnfolds(chunk, before, es[..k], includeC);
      UnnamedSlotTakesItsEvent(chunk, before[1..], after, rest, includeC);
      SlotSeesFirst(chunk, before[0], es, k, includeC);
      Regroup(SlotFrames(chunk, before[0], es, includeC), Merge(chunk, before[1..], rest[..k'], includeC),
              FrameOf(chunk, es[k]), Merge(chunk, after, es[k + 1..], includeC));
    }
  }

  /** A stack cut anywhere: the slots up to the cut take the first events, and those behind it
      the rest. */
  lemma {:induction false} MergeSplits(chunk: Namer, a: seq<Option<string>>, b: seq<Option<string>>,
                                       es: seq<LuaEvent>, includeC: bool)
    ensures var k := Min(Unnamed(a), |es|);
            Merge(chunk, a + b, es, includeC) == Merge(chunk, a, es[..k], includeC) + Merge(chunk, b, es[k..], includeC)
  {
    if a == [] {
      NothingCut(chunk, b, es, includeC);
    } else {
      hide *;
      var k, rest := Min(Unnamed(a), |es|), EventsAfter(a[0], es);
      var k' := Min(Unnamed(a[1..]), |rest|);
      assert (a + b)[0] == a[0] && (a + b)[1..] == a[1..] + b;
      CutShifts(a, es);
      MergeUnfolds(chunk, a + b, es, includeC);
      MergeUnfolds(chunk, a, es[..k], includeC);
      SlotSeesFirst(chunk, a[0], es, k, includeC);
      MergeSplits(chunk, a[1..], b, rest, includeC);
      Regroup2(SlotFrames(chunk, a[0], es, includeC), Merge(chunk, a[1..], rest[..k'], includeC),
               Merge(chunk, b, es[k..], includeC));
    }
  }

  lemma NothingCut(chunk: Namer, b: seq<Option<string>>, es: seq<LuaEvent>, includeC: bool)
    ensures var k := Min(Unnamed([]), |es|);
            Merge(chunk, [] + b, es, includeC) == Merge(chunk, [], es[..k], includeC) + Merge(chunk, b, es[k..], includeC)
  {
    assert [] + b == b && es[0..] == es && es[..0] == [];
    assert Merge(chunk, [], [], includeC) == [];
    hide Merge;
  }

  lemma UnnamedUnfolds(a: seq<Option<string>>)
    requires a != []
    ensures Unnamed(a) == (if a[0].None? then 1 else 0) + Unnamed(a[1..])
  {
  }

  lemma CutShifts(a: seq<Option<string>>, es: seq<LuaEvent>)
    requires a != []
    ensures var k, rest := Min(Unnamed(a), |es|), EventsAfter(a[0], es);
            var k' := Min(Unnamed(a[1..]), |rest|);
            && 0 <= k <= |es| && 0 <= k' <= |rest| && rest[k'..] == es[k..] && rest[..k'] == EventsAfter(a[0], es[..k])
            && (a[0].None? && es != [] ==> k >= 1)
  {
    hide Unnamed;
    UnnamedUnfolds(a);
    var k, rest := Min(Unnamed(a), |es|), EventsAfter(a[0], es);
    var k' := Min(Unnamed(a[1..]), |rest|);
    if a[0].None? && es != [] {
      assert k == k' + 1 && rest == es[1..];
      assert es[1..][k'..] == es[k..] && es[1..][..k'] == es[..k][1..];
    } else {
      assert k == k' && rest == es;
    }
  }

  lemma Regroup2<T>(a: seq<T>, b: seq<T>, c: seq<T>)
    ensures a + (b + c) == (a + b) + c
  {
  }

  /** Events that no slot asks for go on top of everything. */
  lemma LeftoverGoesOnTop(chunk: Namer, natives: seq<Option<string>>, es: seq<LuaEvent>, includeC: bool)
    ensures var k := Min(Unnamed(natives), |es|);
            Merge(chunk, natives, es, includeC) == Merge(chunk, natives, es[..k], includeC) + Formatted(chunk, es[k..])
  {
    assert natives + [] == natives;
    assert Merge(chunk, [], es[Min(Unnamed(natives), |es|)..], includeC)
        == Formatted(chunk, es[Min(Unnamed(natives), |es|)..]);
    hide Merge, Formatted;
    MergeSplits(chunk, natives, [], es, includeC);
  }

  /** A named slot is its own frame, right behind everything merged for the slots before it. */
  lemma NamedSlotIsItself(chunk: Namer, before: seq<Option<string>>, name: string, after: seq<Option<string>>,
                          es: seq<LuaEvent>, includeC: bool)
    ensures var k := Min(Unnamed(before), |es|);
            Merge(chunk, before + ([Some(name)] + after), es, includeC)
            == Merge(chunk, before, es[..k], includeC)
               + ((if includeC then [NativeFrame(name)] else []) + Merge(chunk, after, es[k..], includeC))
  {
    var k := Min(Unnamed(before), |es|);
    MergeSplits(chunk, before, [Some(name)] + after, es, includeC);
    assert ([Some(name)] + after)[1..] == after;
    MergeUnfolds(chunk, [Some(name)] + after, es[k..], includeC);
    hide Merge, Formatted;
  }

  /** With C stacks on and no Lua events, every slot shows itself: its name, or that it is
      unknown. */
  lemma {:induction false} SlotsShowThemselves(chunk: Namer, natives: seq<Option<string>>)
    ensures var ts := Texts(Merge(chunk, natives, [], true));
            && |ts| == |natives|
            && forall i :: 0 <= i < |natives| ==> ts[i] == if natives[i].Some? then natives[i].value else "[unknown]"
  {
    if natives != [] {
      SlotsShowThemselves(chunk, natives[1..]);
      MergeUnfolds(chunk, natives, [], true);
      var first, rest := SlotFrames(chunk, natives[0], [], true), Merge(chunk, natives[1..], [], true);
      TextsOfStep(first);
      OneMoreStep(first, rest, []);
      assert EventsAfter(natives[0], []) == [];
      hide Merge, Texts;
      assert Texts(first + rest) == Texts(first) + Texts(rest);
    }
  }

  /** The events that render at all, in order. */
  function Renderable(chunk: Namer, es: seq<LuaEvent>): seq<LuaEvent> {
    if es == [] then []
    else (if FormatLuaFrame(chunk, es[0]).Some? then [es[0]] else []) + Renderable(chunk, es[1..])
  }

  /** Lua frames show what their events render to; an event that renders to nothing leaves no
      frame. */
  lemma {:induction false} EventsShowThemselves(chunk: Namer, es: seq<LuaEvent>)
    ensures var ts, kept := Texts(Formatted(chunk, es)), Renderable(chunk, es);
            && |ts| == |kept|
            && forall i :: 0 <= i < |kept| ==> FormatLuaFrame(chunk, kept[i]) == Some(ts[i])
  {
    hide FormatLuaFrame;
    if es != [] {
      EventsShowThemselves(chunk, es[1..]);
      var first, rest := FrameOf(chunk, es[0]), Formatted(chunk, es[1..]);
      TextsOfStep(first);
      OneMoreStep(first, rest, []);
      hide Texts, Formatted;
      assert Texts(first + rest) == Texts(first) + Texts(rest);
    }
  }

  /** A slot looks at no event but the first. */
  lemma SlotSeesFirst(chunk: Namer, native: Option<string>, es: seq<LuaEvent>, k: nat, includeC: bool)
    requires k <= |es| && (native.None? && es != [] ==> k >= 1)
    ensures SlotFrames(chunk, native, es[..k], includeC) == SlotFrames(chunk, native, es, includeC)
  {
  }

  lemma Regroup<T>(a: seq<T>, b: seq<T>, c: seq<T>, d: seq<T>)
    ensures a + (b + c + d) == (a + b) + c + d
  {
  }

  /** In Lua-only output the native slots leave no trace at all. */
  lemma {:induction false} LuaOnlyIgnoresNatives(chunk: Namer, natives: seq<Option<string>>, es: seq<LuaEvent>)
    ensures Merge(chunk, natives, es, false) == Formatted(chunk, es)
  {
    if natives != [] {
      LuaOnlyIgnoresNatives(chunk, natives[1..], EventsAfter(natives[0], es));
    }
  }

  /** The fold of a sample does not depend on the order its Lua events arrived in. */
  lemma FoldIgnoresArrival(chunk: Namer, natives: seq<Option<string>>,
                           a: seq<LuaEvent>, b: seq<LuaEvent>, includeC: bool)
    requires multiset(a) == multiset(b) && DistinctLevels(a)
    ensures Folded(chunk, natives, a, includeC) == Folded(chunk, natives, b, includeC)
  {
    SortIgnoresArrival(a, b);
  }
}
