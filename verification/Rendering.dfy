/** One Lua event as a folded frame, and what can be read off it again. */
module Rendering {
  import opened Machine
  import opened ProbeReads
  import opened LuaWalk

  // ---- formatting -------------------------------------------------------------------

  /** Renders a chunk name: UTF-8 decoding and reduction to a base name. */
  type Namer = seq<Byte> -> string

  function Digit(d: nat): char
    requires d < 16
  {
    "0123456789abcdef"[d]
  }

  function Digits(n: nat, base: nat): (s: string)
    requires 2 <= base <= 16
    ensures s != ""
  {
    if n < base then [Digit(n)] else Digits(n / base, base) + [Digit(n % base)]
  }

  function Decimal(n: int): string { if n < 0 then "-" + Digits(-n, 10) else Digits(n, 10) }

  function Hex(n: nat): string { "0x" + Digits(n, 16) }

  /** One Lua event as a folded frame. Every other kind renders nothing. */
  function FormatLuaFrame(chunk: Namer, e: LuaEvent): Option<string> {
    if e.kind == FUNC_TYPE_LUA then FormatNamed("L:", chunk(CStr(e.name)), e.line)
    else if e.kind == FUNC_TYPE_JIT then FormatNamed("JIT:", chunk(CStr(e.name)), e.line)
    else if e.kind == FUNC_TYPE_C then Some("C:" + Hex(e.funcp))
    else if e.kind == FUNC_TYPE_F then Some("builtin#" + Decimal(e.line))
    else None
  }

  function FormatNamed(prefix: string, chunk: string, line: int): Option<string> {
    if line > 0 then Some(prefix + chunk + ":" + Decimal(line))
    else if chunk != "" then Some(prefix + chunk)
    else None
  }

  // ---- what a printed number says ---------------------------------------------------

  /** The value of a digit character; 16 for anything else. */
  function CharValue(c: char): int {
    if '0' <= c <= '9' then c as int - '0' as int
    else if 'a' <= c <= 'f' then c as int - 'a' as int + 10
    else 16
  }

  /** A text read as a number. */
  function Value(s: string, base: int): int {
    if s == "" then 0 else Value(s[..|s| - 1], base) * base + CharValue(s[|s| - 1])
  }

  /** The usual way to write n: digits of the base, their value n, and no leading zero. */
  ghost predicate IsNumeral(s: string, n: int, base: int) {
    && s != ""
    && (forall i :: 0 <= i < |s| ==> CharValue(s[i]) < base)
    && Value(s, base) == n
    && (|s| > 1 ==> s[0] != '0')
  }

  lemma DigitHasValue(d: nat)
    requires d < 16
    ensures CharValue(Digit(d)) == d && (Digit(d) == '0' <==> d == 0)
  {
  }

  lemma OneMoreDigit(s: string, c: char, base: int)
    ensures Value(s + [c], base) == Value(s, base) * base + CharValue(c)
  {
    assert (s + [c])[..|s|] == s;
  }

  lemma NoDigits(base: int)
    ensures Value("", base) == 0
  {
  }

  /** A printed number is the number. */
  lemma {:induction false} DigitsAreNumeral(n: nat, base: nat)
    requires 2 <= base <= 16
    ensures IsNumeral(Digits(n, base), n, base) && (n > 0 ==> Digits(n, base)[0] != '0')
  {
    var (q, d) := Split(n, base);
    var s := if q == 0 then "" else Digits(q, base);
    SmallRemainder(n, base);
    hide Digit, Digits, Value, CharValue, Split;
    DigitsSplit(n, base);
    DigitHasValue(d);
    NoDigits(base);
    OneMoreDigit(s, Digit(d), base);
    if q != 0 {
      DigitsAreNumeral(q, base);
    } else {
      ZeroTimes(base);
    }
  }

  lemma SmallRemainder(n: nat, base: nat)
    requires 2 <= base <= 16
    ensures Split(n, base).1 < base
  {
  }

  lemma ZeroTimes(base: int)
    ensures 0 * base == 0
  {
  }

  /** What the folded frame of an event must look like: tag, name, and the numeral of its line,
      address or id. */
  ghost predicate IsRendering(chunk: Namer, e: LuaEvent, f: Option<string>) {
    var name := chunk(CStr(e.name));
    var tag := if e.kind == FUNC_TYPE_JIT then "JIT:" else "L:";
    if e.kind == FUNC_TYPE_LUA || e.kind == FUNC_TYPE_JIT then
      if e.line > 0 then exists d :: IsNumeral(d, e.line, 10) && f == Some(tag + name + ":" + d)
      else f == if name == "" then None else Some(tag + name)
    else if e.kind == FUNC_TYPE_C then exists d :: IsNumeral(d, e.funcp, 16) && f == Some("C:0x" + d)
    else if e.kind == FUNC_TYPE_F then
      if e.line >= 0 then exists d :: IsNumeral(d, e.line, 10) && f == Some("builtin#" + d)
      else exists d :: IsNumeral(d, -e.line, 10) && f == Some("builtin#-" + d)
    else f == None
  }

  /** Every event renders as its numbers are written. */
  lemma FrameShowsItsNumbers(chunk: Namer, e: LuaEvent)
    ensures IsRendering(chunk, e, FormatLuaFrame(chunk, e))
  {
    hide Digits, IsNumeral, CStr;
    if e.kind == FUNC_TYPE_C {
      DigitsAreNumeral(e.funcp, 16);
      assert "C:" + Hex(e.funcp) == "C:0x" + Digits(e.funcp, 16);
    } else if e.line >= 0 {
      DigitsAreNumeral(e.line, 10);
    } else {
      DigitsAreNumeral(-e.line, 10);
      assert "builtin#" + Decimal(e.line) == "builtin#-" + Digits(-e.line, 10);
    }
  }

  lemma DigitIsInjective(a: nat, b: nat)
    requires a < 16 && b < 16 && Digit(a) == Digit(b)
    ensures a == b
  {
  }

  /** The last digit of a number, and the number before it. */
  function Split(n: nat, base: nat): (r: (nat, nat))
    requires 2 <= base <= 16
    ensures r.1 < 16 && n == r.0 * base + r.1 && (n > 0 ==> r.0 < n) && (r.0 == 0 <==> n < base)
  {
    (n / base, n % base)
  }

  lemma DigitsSplit(n: nat, base: nat)
    requires 2 <= base <= 16
    ensures var (q, d) := Split(n, base);
            Digits(n, base) == (if q == 0 then "" else Digits(q, base)) + [Digit(d)]
  {
    hide Digit;
  }

  /** Different numbers have different digits. */
  lemma {:induction false} DigitsAreInjective(m: nat, n: nat, base: nat)
    requires 2 <= base <= 16 && Digits(m, base) == Digits(n, base)
    ensures m == n
  {
    hide *;
    var (p, c) := Split(m, base);
    var (q, d) := Split(n, base);
    DigitsSplit(m, base);
    DigitsSplit(n, base);
    var s := if p == 0 then "" else Digits(p, base);
    var t := if q == 0 then "" else Digits(q, base);
    SameEnds(s, Digit(c), t, Digit(d));
    DigitIsInjective(c, d);
    if p != 0 && q != 0 { DigitsAreInjective(p, q, base); }
  }

  lemma SameEnds(s: string, c: char, t: string, d: char)
    requires s + [c] == t + [d]
    ensures s == t && c == d
  {
    assert (s + [c])[|s|] == c && (t + [d])[|t|] == d;
    assert (s + [c])[..|s|] == s && (t + [d])[..|t|] == t;
  }

  /** Frames that render alike are of one kind; C functions that do are at one address, and
      built-in functions are the same one. */
  lemma RenderingTellsApart(chunk: Namer, a: LuaEvent, b: LuaEvent)
    requires FormatLuaFrame(chunk, a).Some? && FormatLuaFrame(chunk, a) == FormatLuaFrame(chunk, b)
    ensures a.kind == b.kind
    ensures a.kind == FUNC_TYPE_C ==> a.funcp == b.funcp
    ensures a.kind == FUNC_TYPE_F && a.line >= 0 && b.line >= 0 ==> a.line == b.line
  {
    hide Digits, CStr;
    var s, t := FormatLuaFrame(chunk, a).value, FormatLuaFrame(chunk, b).value;
    assert s[0] == t[0];
    if a.kind == FUNC_TYPE_C {
      assert s[4..] == Digits(a.funcp, 16) && t[4..] == Digits(b.funcp, 16);
      DigitsAreInjective(a.funcp, b.funcp, 16);
    } else if a.kind == FUNC_TYPE_F && a.line >= 0 && b.line >= 0 {
      assert s[8..] == Digits(a.line, 10) && t[8..] == Digits(b.line, 10);
      DigitsAreInjective(a.line, b.line, 10);
    }
  }

  lemma {:induction false} DigitsHoldNoColon(n: nat, base: nat)
    requires 2 <= base <= 16
    ensures ':' !in Digits(n, base)
  {
    DigitIsNoColon();
    hide *;
    var (q, d) := Split(n, base);
    DigitsSplit(n, base);
    if q != 0 { DigitsHoldNoColon(q, base); }
  }

  lemma DigitIsNoColon()
    ensures forall d: nat :: d < 16 ==> Digit(d) != ':'
  {
  }

  /** What follows the last colon is determined by the whole. */
  lemma LastColonSplits(a: string, d: string, b: string, e: string)
    requires ':' !in d && ':' !in e && a + ":" + d == b + ":" + e
    ensures a == b && d == e
  {
    LastColonAt(a, d);
    LastColonAt(b, e);
    var s, t := a + ":" + d, b + ":" + e;
    assert |a| == |b|;
    assert s[..|a|] == a && t[..|b|] == b && s[|a| + 1..] == d && t[|b| + 1..] == e;
  }

  lemma LastColonAt(a: string, d: string)
    requires ':' !in d
    ensures var s := a + ":" + d; s[|a|] == ':' && forall k :: |a| < k < |s| ==> s[k] != ':'
  {
    var s := a + ":" + d;
    forall k | |a| < k < |s| ensures s[k] != ':' { assert s[k] == d[k - |a| - 1]; }
  }

  lemma NamedLineIsDetermined(a: string, m: nat, b: string, n: nat)
    ensures a + ":" + Decimal(m) == b + ":" + Decimal(n) <==> a == b && m == n
  {
    hide Digits;
    DigitsHoldNoColon(m, 10);
    DigitsHoldNoColon(n, 10);
    if a + ":" + Decimal(m) == b + ":" + Decimal(n) {
      LastColonSplits(a, Decimal(m), b, Decimal(n));
      DigitsAreInjective(m, n, 10);
    }
  }

  /** What a Lua or JIT frame shows behind its tag. */
  function Shown(chunk: string, line: int): string {
    if line > 0 then chunk + ":" + Decimal(line) else chunk
  }

  /** Lua frames of one kind render alike exactly when they show the same; with both lines
      positive that is the same chunk and the same line. */
  lemma LuaFramesRenderAlikeExactly(chunk: Namer, a: LuaEvent, b: LuaEvent)
    requires a.kind == b.kind && (a.kind == FUNC_TYPE_LUA || a.kind == FUNC_TYPE_JIT)
    requires FormatLuaFrame(chunk, a).Some? && FormatLuaFrame(chunk, b).Some?
    ensures var x, y := chunk(CStr(a.name)), chunk(CStr(b.name));
            && (FormatLuaFrame(chunk, a) == FormatLuaFrame(chunk, b) <==> Shown(x, a.line) == Shown(y, b.line))
            && (a.line > 0 && b.line > 0 ==> (Shown(x, a.line) == Shown(y, b.line) <==> x == y && a.line == b.line))
            && (a.line <= 0 && b.line <= 0 ==> (Shown(x, a.line) == Shown(y, b.line) <==> x == y))
  {
    hide CStr, Decimal, Hex;
    var x, y := chunk(CStr(a.name)), chunk(CStr(b.name));
    var tag := if a.kind == FUNC_TYPE_LUA then "L:" else "JIT:";
    TaggedIs(chunk, a, tag);
    TaggedIs(chunk, b, tag);
    hide FormatLuaFrame;
    SameBehindTag(tag, Shown(x, a.line), Shown(y, b.line));
    if a.line > 0 && b.line > 0 { NamedLineIsDetermined(x, a.line, y, b.line); }
  }

  lemma TaggedIs(chunk: Namer, e: LuaEvent, tag: string)
    requires FormatLuaFrame(chunk, e).Some?
    requires (e.kind == FUNC_TYPE_LUA && tag == "L:") || (e.kind == FUNC_TYPE_JIT && tag == "JIT:")
    ensures FormatLuaFrame(chunk, e).value == tag + Shown(chunk(CStr(e.name)), e.line)
  {
    hide CStr, Decimal, Hex;
    var x := chunk(CStr(e.name));
    assert tag + x + ":" + Decimal(e.line) == tag + (x + ":" + Decimal(e.line));
  }

  lemma SameBehindTag(tag: string, x: string, y: string)
    ensures tag + x == tag + y <==> x == y
  {
    assert (tag + x)[|tag|..] == x && (tag + y)[|tag|..] == y;
  }

  /** A chunk whose name ends like a line number renders on line 0 like another on that line. */
  lemma LineOrName(chunk: Namer, a: LuaEvent, b: LuaEvent)
    requires a.kind == FUNC_TYPE_LUA && chunk(CStr(a.name)) == "a:5" && a.line == 0
    requires b.kind == FUNC_TYPE_LUA && chunk(CStr(b.name)) == "a" && b.line == 5
    ensures FormatLuaFrame(chunk, a) == FormatLuaFrame(chunk, b) == Some("L:a:5")
  {
    assert Decimal(5) == "5";
    assert "L:" + "a" + ":" + "5" == "L:a:5" && "L:" + "a:5" == "L:a:5";
    hide CStr;
  }
}
