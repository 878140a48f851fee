/** Lines of /proc/pid/maps. Text is UTF-8 bytes. */
module MapsFile {
  import opened Machine
  import opened MapsFields
  import opened MapsPath

  const DASH := 45
  const SLASH := 47

  // "(deleted)", and how it ends a path.
  const DELETED: seq<Byte> := [40, 100, 101, 108, 101, 116, 101, 100, 41]
  const DELETED_SUFFIX: seq<Byte> := [SPACE] + DELETED

  // ---- numbers ----------------------------------------------------------------------

  datatype Radix = Hex | Decimal

  function Base(r: Radix): nat { if r.Hex? then 16 else 10 }

  function DigitOf(b: Byte, r: Radix): Option<nat> {
    var d := if 48 <= b <= 57 then b - 48
             else if 97 <= b <= 122 then b - 87
             else if 65 <= b <= 90 then b - 55
             else 36;
    if d < Base(r) then Some(d) else None
  }

  /** The number v with one more digit behind it. */
  function Shifted(v: nat, d: nat, r: Radix): nat { (if r.Hex? then 16 * v else 10 * v) + d }

  /** Digits accumulated left to right, refusing anything that overflows 64 bits. */
  function DigitsValue(s: seq<Byte>, r: Radix): Option<U64> {
    if s == [] then Some(0)
    else
      var before, d := DigitsValue(s[..|s| - 1], r), DigitOf(s[|s| - 1], r);
      if before.None? || d.None? || Shifted(before.value, d.value, r) >= TWO64 then None
      else Some(Shifted(before.value, d.value, r))
  }

  /** An unsigned number with an optional plus sign. */
  function ParseNumber(s: seq<Byte>, r: Radix): Option<U64> {
    if s == [] || s == [43] then None else DigitsValue(if s[0] == 43 then s[1..] else s, r)
  }

  function DigitByte(d: nat): Byte
    requires d < 16
  {
    if d < 10 then 48 + d else 87 + d
  }

  function Higher(n: nat, r: Radix): nat { if r.Hex? then n / 16 else n / 10 }

  function Lowest(n: nat, r: Radix): (d: nat)
    ensures d < Base(r) && Shifted(Higher(n, r), d, r) == n
  {
    if r.Hex? then n % 16 else n % 10
  }

  /** Digits of n, padded with zeros to a width. */
  function NumberText(n: nat, r: Radix, width: nat): (s: seq<Byte>)
    ensures s != [] && forall i :: 0 <= i < |s| ==> 48 <= s[i] <= 57 || 97 <= s[i] <= 102
    decreases n, width
  {
    var last := [DigitByte(Lowest(n, r))];
    if n < Base(r) && width <= 1 then last
    else NumberText(Higher(n, r), r, if width == 0 then 0 else width - 1) + last
  }

  lemma OneMoreDigit(rest: seq<Byte>, v: U64, d: nat, r: Radix)
    requires d < Base(r) && DigitsValue(rest, r) == Some(v) && Shifted(v, d, r) < TWO64
    ensures DigitsValue(rest + [DigitByte(d)], r) == Some(Shifted(v, d, r))
  {
    var s := rest + [DigitByte(d)];
    assert s[..|s| - 1] == rest;
    assert DigitOf(DigitByte(d), r) == Some(d);
  }

  /** Reading a number back, whatever zeros pad it. */
  lemma {:induction false} NumberRoundTrip(n: U64, r: Radix, width: nat)
    ensures DigitsValue(NumberText(n, r, width), r) == Some(n)
    decreases n, width
  {
    var q, d := Higher(n, r), Lowest(n, r);
    assert DigitsValue([], r) == Some(0);
    if n < Base(r) && width <= 1 {
      OneMoreDigit([], q, d, r);
      assert [] + [DigitByte(d)] == [DigitByte(d)];
    } else {
      var fewer := if width == 0 then 0 else width - 1;
      NumberRoundTrip(q, r, fewer);
      hide DigitsValue, DigitByte;
      OneMoreDigit(NumberText(q, r, fewer), q, d, r);
    }
  }

  lemma ParsesBack(n: U64, r: Radix, width: nat)
    ensures ParseNumber(NumberText(n, r, width), r) == Some(n)
  {
    NumberRoundTrip(n, r, width);
    hide DigitsValue;
  }

  /** The value of a digit of either case; 16 for anything else. */
  function ByteValue(b: Byte): int {
    if 48 <= b <= 57 then b - 48 else if 97 <= b <= 102 then b - 87 else if 65 <= b <= 70 then b - 55 else 16
  }

  ghost predicate AllDigits(s: seq<Byte>, r: Radix) {
    forall i :: 0 <= i < |s| ==> ByteValue(s[i]) < if r.Hex? then 16 else 10
  }

  /** The number that digits spell, without any bound. */
  function Spelled(s: seq<Byte>, r: Radix): int {
    if s == [] then 0
    else (if r.Hex? then 16 * Spelled(s[..|s| - 1], r) else 10 * Spelled(s[..|s| - 1], r)) + ByteValue(s[|s| - 1])
  }

  lemma {:induction false} SpelledIsNatural(s: seq<Byte>, r: Radix)
    ensures Spelled(s, r) >= 0
  {
    if s != [] { SpelledIsNatural(s[..|s| - 1], r); }
  }

  lemma AllDigitsUnfold(s: seq<Byte>, r: Radix)
    requires s != []
    ensures AllDigits(s, r) <==> AllDigits(s[..|s| - 1], r) && DigitOf(s[|s| - 1], r).Some?
    ensures DigitOf(s[|s| - 1], r).Some? ==> DigitOf(s[|s| - 1], r).value == ByteValue(s[|s| - 1])
  {
    assert s == s[..|s| - 1] + [s[|s| - 1]];
  }

  /** Digits are read as the number they spell, exactly when they are all digits and it fits. */
  lemma {:induction false} DigitsReadExactly(s: seq<Byte>, r: Radix)
    ensures DigitsValue(s, r) == if AllDigits(s, r) && Spelled(s, r) < TWO64 then Some(Spelled(s, r)) else None
  {
    if s != [] {
      DigitsReadExactly(s[..|s| - 1], r);
      SpelledIsNatural(s[..|s| - 1], r);
      AllDigitsUnfold(s, r);
      hide AllDigits, DigitOf;
    }
  }

  /** A text without one plus sign at its front. */
  function Unsigned(s: seq<Byte>): seq<Byte> { if s != [] && s[0] == 43 then s[1..] else s }

  ghost predicate IsNumber(s: seq<Byte>, r: Radix) {
    Unsigned(s) != [] && AllDigits(Unsigned(s), r) && Spelled(Unsigned(s), r) < TWO64
  }

  lemma NumberReadsExactly(s: seq<Byte>, r: Radix)
    ensures ParseNumber(s, r) == if IsNumber(s, r) then Some(Spelled(Unsigned(s), r)) else None
  {
    DigitsReadExactly(Unsigned(s), r);
    hide DigitsValue, Spelled, AllDigits;
    assert s == [43] || s == [] <==> Unsigned(s) == [];
  }

  // ---- lines ------------------------------------------------------------------------

  datatype MapEntry = MapEntry(start: U64, end: U64, offset: U64, executable: bool, device: seq<Byte>, inode: U64,
                               path: Option<seq<Byte>>)

  function SplitOnce(s: seq<Byte>, b: Byte): Option<(seq<Byte>, seq<Byte>)> {
    if s == [] then None
    else if s[0] == b then Some(([], s[1..]))
    else
      var rest := SplitOnce(s[1..], b);
      if rest.None? then None else Some(([s[0]] + rest.value.0, rest.value.1))
  }

  function StripDeleted(raw: seq<Byte>): seq<Byte> {
    var n := |raw| - |DELETED_SUFFIX|;
    if n >= 0 && raw[n..] == DELETED_SUFFIX then raw[..n] else raw
  }

  /** Reads one line; `lossy` replaces what is not UTF-8. */
  function ParseMapLine(line: seq<Byte>, lossy: seq<Byte> -> seq<Byte>): Option<MapEntry> {
    var f := Fields(line);
    if |f| < 5 then None
    else
      var offset, inode, range := ParseNumber(f[2], Hex), ParseNumber(f[4], Decimal), SplitOnce(f[0], DASH);
      if offset.None? || inode.None? || range.None? then None
      else
        var start, end := ParseNumber(range.value.0, Hex), ParseNumber(range.value.1, Hex);
        if start.None? || end.None? then None
        else Some(MapEntry(start.value, end.value, offset.value, |f[1]| > 2 && f[1][2] == 120, f[3], inode.value,
                           ParsePath(Join(f[5..]), lossy)))
  }

  function ParsePath(raw: seq<Byte>, lossy: seq<Byte> -> seq<Byte>): Option<seq<Byte>> {
    if raw == [] || raw[0] != SLASH then None else Some(lossy(Unescape(StripDeleted(raw))))
  }

  lemma {:induction false} SplitAtDash(a: seq<Byte>, b: seq<Byte>)
    requires DASH !in a
    ensures SplitOnce(a + [DASH] + b, DASH) == Some((a, b))
  {
    var s := a + [DASH] + b;
    if a == [] {
      assert s[1..] == b;
    } else {
      assert s[1..] == a[1..] + [DASH] + b && [a[0]] + a[1..] == a;
      SplitAtDash(a[1..], b);
    }
  }

  /** The split is at the first such byte, if there is one. */
  lemma {:induction false} SplitsAtFirst(s: seq<Byte>, b: Byte)
    ensures SplitOnce(s, b).None? <==> b !in s
    ensures SplitOnce(s, b).Some? ==>
              var (x, y) := SplitOnce(s, b).value;
              s == x + [b] + y && b !in x
  {
    if s != [] {
      SplitsAtFirst(s[1..], b);
      assert s == [s[0]] + s[1..];
    }
  }

  /** Two texts around the first dash. */
  ghost predicate IsRange(s: seq<Byte>, x: seq<Byte>, y: seq<Byte>) { s == x + [DASH] + y && DASH !in x }

  /** Which lines are read at all, and as what numbers: five fields, a hexadecimal offset, a
      decimal inode, and two hexadecimal addresses around the first dash, all within 64 bits. */
  lemma LineReadsExactly(line: seq<Byte>, lossy: seq<Byte> -> seq<Byte>)
    ensures var f, e := Fields(line), ParseMapLine(line, lossy);
            && (e.Some? <==>
                  && |f| >= 5 && IsNumber(f[2], Hex) && IsNumber(f[4], Decimal)
                  && exists x: seq<Byte>, y: seq<Byte> :: IsRange(f[0], x, y) && IsNumber(x, Hex) && IsNumber(y, Hex))
            && (e.Some? ==>
                  && e.value.offset == Spelled(Unsigned(f[2]), Hex) && e.value.inode == Spelled(Unsigned(f[4]), Decimal)
                  && e.value.device == f[3]
                  && (e.value.executable <==> |f[1]| > 2 && f[1][2] == 120)
                  && exists x: seq<Byte>, y: seq<Byte> :: IsRange(f[0], x, y)
                                    && e.value.start == Spelled(Unsigned(x), Hex)
                                    && e.value.end == Spelled(Unsigned(y), Hex))
  {
    hide Fields, SplitOnce, ParseNumber, IsNumber, Spelled, Unsigned, ParsePath, Join;
    var f := Fields(line);
    if |f| >= 5 {
      NumberReadsExactly(f[2], Hex);
      NumberReadsExactly(f[4], Decimal);
      SplitsAtFirst(f[0], DASH);
      forall x: seq<Byte>, y: seq<Byte> | IsRange(f[0], x, y) ensures SplitOnce(f[0], DASH) == Some((x, y)) {
        SplitAtDash(x, y);
      }
      if SplitOnce(f[0], DASH).Some? {
        var (x, y) := SplitOnce(f[0], DASH).value;
        assert IsRange(f[0], x, y);
        NumberReadsExactly(x, Hex);
        NumberReadsExactly(y, Hex);
      }
    }
  }

  // ---- printing a line --------------------------------------------------------------

  /** The free choices in printing a line: white space, zero padding, permission letters,
      which bytes of the path are escaped, and what follows the inode. */
  datatype Style = Style(gaps: seq<seq<Byte>>, width: nat, permissions: seq<Byte>, escaped: set<Byte>, deleted: bool,
                         pseudo: seq<Piece>)

  /** The first five fields. */
  function Head(e: MapEntry, st: Style): (ps: seq<Piece>)
    requires |st.gaps| == 7
    ensures |ps| == 5
  {
    [Piece(st.gaps[0], NumberText(e.start, Hex, st.width) + [DASH] + NumberText(e.end, Hex, st.width)),
     Piece(st.gaps[1], st.permissions),
     Piece(st.gaps[2], NumberText(e.offset, Hex, st.width)),
     Piece(st.gaps[3], e.device),
     Piece(st.gaps[4], NumberText(e.inode, Decimal, 0))]
  }

  /** The path as printed, with the mark of an unlinked file; or a pseudo-path, or nothing. */
  function Tail(e: MapEntry, st: Style): seq<Byte>
    requires |st.gaps| == 7
  {
    if e.path.None? then Text(st.pseudo)
    else st.gaps[5] + (Escape(e.path.value, st.escaped) + if st.deleted then st.gaps[6] + DELETED else [])
  }

  function Line(e: MapEntry, st: Style): seq<Byte>
    requires |st.gaps| == 7
  {
    Text(Head(e, st)) + Tail(e, st)
  }

  /** A line whose first five fields can be told apart. Nothing is asked of the path but that
      it is absolute, and of its printing but that it leaves slashes alone. */
  ghost predicate Prints(e: MapEntry, st: Style) {
    && |st.gaps| == 7
    && (forall i :: 0 <= i < 7 ==> IsGap(st.gaps[i]) && (i > 0 ==> st.gaps[i] != []))
    && IsWord(st.permissions) && IsWord(e.device)
    && (e.executable <==> |st.permissions| > 2 && st.permissions[2] == 120)
    && SLASH !in st.escaped
    && (if e.path.Some? then e.path.value != [] && e.path.value[0] == SLASH
        else Separated(st.pseudo) && (st.pseudo != [] ==> IsWord(st.pseudo[0].word) && st.pseudo[0].word[0] != SLASH))
  }

  lemma NumberIsWord(n: nat, r: Radix, width: nat)
    ensures IsWord(NumberText(n, r, width)) && DASH !in NumberText(n, r, width)
  {
  }

  lemma HeadIsWellSpaced(e: MapEntry, st: Style)
    requires Prints(e, st)
    ensures WellSpaced(Head(e, st))
  {
    NumberIsWord(e.start, Hex, st.width);
    NumberIsWord(e.end, Hex, st.width);
    NumberIsWord(e.offset, Hex, st.width);
    NumberIsWord(e.inode, Decimal, 0);
    hide NumberText;
  }

  lemma TailStartsWithGap(e: MapEntry, st: Style)
    requires Prints(e, st)
    ensures var t := Tail(e, st); t != [] ==> IsSpace(t[0])
  {
    hide Escape;
  }

  lemma LineFields(e: MapEntry, st: Style)
    requires Prints(e, st)
    ensures var f := Fields(Line(e, st));
            && |f| >= 5
            && f[0] == NumberText(e.start, Hex, st.width) + [DASH] + NumberText(e.end, Hex, st.width)
            && f[1] == st.permissions && f[2] == NumberText(e.offset, Hex, st.width)
            && f[3] == e.device && f[4] == NumberText(e.inode, Decimal, 0)
            && f[5..] == Fields(Tail(e, st))
  {
    HeadIsWellSpaced(e, st);
    FieldsOfText(Head(e, st));
    TailStartsWithGap(e, st);
    FieldsAppend(Text(Head(e, st)), Tail(e, st));
    hide Tail, NumberText, Fields, Text, Prints;
  }

  /** Whatever the path, the other fields of a line read back as printed. */
  lemma LineParses(e: MapEntry, st: Style, lossy: seq<Byte> -> seq<Byte>)
    requires Prints(e, st)
    ensures ParseMapLine(Line(e, st), lossy) == Some(e.(path := ParsePath(Squeezed(Tail(e, st)), lossy)))
  {
    LineFields(e, st);
    NumberIsWord(e.start, Hex, st.width);
    SplitAtDash(NumberText(e.start, Hex, st.width), NumberText(e.end, Hex, st.width));
    ParsesBack(e.start, Hex, st.width);
    ParsesBack(e.end, Hex, st.width);
    ParsesBack(e.offset, Hex, st.width);
    ParsesBack(e.inode, Decimal, 0);
    hide Head, Tail, Line, NumberText, ParseNumber, SplitOnce, ParsePath, Join, Fields, Text;
  }

  // ---- what becomes of a path -------------------------------------------------------

  predicate EndsDeleted(s: seq<Byte>) {
    |s| >= |DELETED_SUFFIX| && s[|s| - |DELETED_SUFFIX|..] == DELETED_SUFFIX
  }

  /** The path read back, before invalid UTF-8 is replaced. */
  function Recovered(path: seq<Byte>, escaped: set<Byte>, deleted: bool): seq<Byte> {
    var squeezed := Squeezed(Escape(path, escaped));
    Unescape(if deleted then squeezed else StripDeleted(squeezed))
  }

  lemma {:induction false} JoinOneMore(words: seq<seq<Byte>>, word: seq<Byte>)
    requires words != []
    ensures Join(words + [word]) == Join(words) + ([SPACE] + word)
  {
    var all := words + [word];
    JoinFront(words[0], words[1..] + [word]);
    JoinFront(words[0], words[1..]);
    assert all == [words[0]] + (words[1..] + [word]) && words == [words[0]] + words[1..];
    if |words| == 1 {
      assert words[1..] + [word] == [word];
      assert Join([word]) == word;
      assert words[0] + [SPACE] + word == words[0] + ([SPACE] + word);
    } else {
      JoinOneMore(words[1..], word);
      hide Join;
      assert words[0] + [SPACE] + (Join(words[1..]) + ([SPACE] + word))
          == (words[0] + [SPACE] + Join(words[1..])) + ([SPACE] + word);
    }
  }

  lemma MarkIsWord()
    ensures IsWord(DELETED)
  {
  }

  lemma MarkIsField(gap: seq<Byte>)
    requires IsGap(gap) && gap != []
    ensures Fields(gap + DELETED) == [DELETED] && IsSpace((gap + DELETED)[0])
  {
    hide Fields, IsSpace, IsWord, DELETED;
    MarkIsWord();
    FieldsOfNothing();
    SkipGap(gap, DELETED);
    TakeWord(DELETED, []);
    assert DELETED + [] == DELETED;
    assert (gap + DELETED)[0] == gap[0];
  }

  /** The mark of an unlinked file is a field of its own. */
  lemma MarkIsSqueezed(raw: seq<Byte>, gap: seq<Byte>)
    requires Fields(raw) != [] && IsGap(gap) && gap != []
    ensures Squeezed(raw + (gap + DELETED)) == Squeezed(raw) + DELETED_SUFFIX
  {
    hide Fields, Join, IsGap, IsSpace, DELETED;
    MarkIsField(gap);
    FieldsAppend(raw, gap + DELETED);
    JoinOneMore(Fields(raw), DELETED);
  }

  lemma EscapedSlash(path: seq<Byte>, escaped: set<Byte>)
    requires path != [] && path[0] == SLASH && SLASH !in escaped
    ensures var raw := Escape(path, escaped);
            raw != [] && raw[0] == SLASH && Fields(raw) != [] && Squeezed(raw) != [] && Squeezed(raw)[0] == SLASH
  {
    var raw := Escape(path, escaped);
    assert raw[0] == SLASH;
    FieldsOfWord(raw);
    SqueezedWord(raw);
    hide Escape, Fields, Squeezed, WordLength;
  }

  lemma StripsMark(s: seq<Byte>)
    ensures StripDeleted(s + DELETED_SUFFIX) == s
    ensures StripDeleted(s) == if EndsDeleted(s) then s[..|s| - |DELETED_SUFFIX|] else s
  {
  }

  /** For every line and every path: what the parser makes of it. */
  lemma MapLineReads(e: MapEntry, st: Style, lossy: seq<Byte> -> seq<Byte>)
    requires Prints(e, st) && e.path.Some?
    ensures ParseMapLine(Line(e, st), lossy)
            == Some(e.(path := Some(lossy(Recovered(e.path.value, st.escaped, st.deleted)))))
  {
    LineParses(e, st, lossy);
    var raw := Escape(e.path.value, st.escaped);
    var mark := if st.deleted then st.gaps[6] + DELETED else [];
    EscapedSlash(e.path.value, st.escaped);
    assert Squeezed(Tail(e, st)) == Squeezed(raw + mark) by { SkipGap(st.gaps[5], raw + mark); }
    hide ParseMapLine, Escape, Fields, Squeezed, Unescape, Line, Tail, StripDeleted;
    if st.deleted {
      MarkIsSqueezed(raw, st.gaps[6]);
    } else {
      assert raw + mark == raw;
    }
    StripsMark(Squeezed(raw));
  }

  /** What a path needs to survive: printed, it has only single inner spaces, it holds no
      escape of its own, and, of a file still linked, it does not look unlinked. */
  ghost predicate Survives(path: seq<Byte>, escaped: set<Byte>, deleted: bool) {
    && Tidy(Escape(path, escaped))
    && NoBareEscape(path, escaped)
    && (deleted || !EndsDeleted(Escape(path, escaped)))
  }

  lemma StrippingShows(s: seq<Byte>)
    requires EndsDeleted(s)
    ensures |Unescape(StripDeleted(s))| < |Unescape(s)|
  {
    var n := |s| - |DELETED_SUFFIX|;
    assert s == s[..n] + DELETED_SUFFIX;
    UnescapeBeforeSpace(s[..n], DELETED_SUFFIX);
    UnescapeUnfolds(DELETED_SUFFIX);
    StripsMark(s);
    hide Unescape, StripDeleted;
  }

  /** Exactly which paths are read back as they were, for every path and every choice of
      escaped bytes: no two of the failures ever make up for each other. */
  lemma PathSurvivesExactly(path: seq<Byte>, escaped: set<Byte>, deleted: bool)
    ensures Recovered(path, escaped, deleted) == path <==> Survives(path, escaped, deleted)
  {
    var raw := Escape(path, escaped);
    var q := Squeezed(raw);
    var r := if deleted then q else StripDeleted(q);
    PathDecodesExactly(path, escaped);
    SqueezedExactly(raw);
    SqueezingShows(raw);
    StripsMark(q);
    hide Escape, Unescape, Squeezed, StripDeleted, EndsDeleted, NoBareEscape, Tidy;
    if !deleted && EndsDeleted(q) { StrippingShows(q); }
  }

  /** A line reads back as it was printed whenever its path survives; and only then, where
      replacing invalid UTF-8 yields this path from nothing but itself. */
  lemma MapLineSurvivesExactly(e: MapEntry, st: Style, lossy: seq<Byte> -> seq<Byte>)
    requires Prints(e, st) && e.path.Some? && lossy(e.path.value) == e.path.value
    ensures Survives(e.path.value, st.escaped, st.deleted) ==> ParseMapLine(Line(e, st), lossy) == Some(e)
    ensures ParseMapLine(Line(e, st), lossy) == Some(e) && (forall s :: lossy(s) == e.path.value ==> s == e.path.value)
            ==> Survives(e.path.value, st.escaped, st.deleted)
  {
    MapLineReads(e, st, lossy);
    PathSurvivesExactly(e.path.value, st.escaped, st.deleted);
    hide ParseMapLine, Line, Recovered, Survives;
  }

  lemma {:induction false} EscapedHasNoSpace(s: seq<Byte>, escaped: set<Byte>)
    requires {9, 10, 12, 13, SPACE} <= escaped
    ensures forall i :: 0 <= i < |Escape(s, escaped)| ==> !IsSpace(Escape(s, escaped)[i])
  {
    if s != [] { EscapedHasNoSpace(s[1..], escaped); }
  }

  lemma NoSpaceNotDeleted(s: seq<Byte>)
    requires forall i :: 0 <= i < |s| ==> !IsSpace(s[i])
    ensures !EndsDeleted(s)
  {
    var n := |s| - |DELETED_SUFFIX|;
    if n >= 0 { assert s[n..][0] != SPACE; }
  }

  /** Where white space and backslash are escaped, every mapping reads back from its line,
      even one whose path itself ends in " (deleted)". */
  lemma MapLineRoundTrip(e: MapEntry, st: Style, lossy: seq<Byte> -> seq<Byte>)
    requires Prints(e, st) && (e.path.Some? ==> lossy(e.path.value) == e.path.value)
    requires e.path.Some? ==> {9, 10, 12, 13, SPACE, BACKSLASH} <= st.escaped
    ensures ParseMapLine(Line(e, st), lossy) == Some(e)
  {
    if e.path.Some? {
      EscapedHasNoSpace(e.path.value, st.escaped);
      NoSpaceNotDeleted(Escape(e.path.value, st.escaped));
      hide ParseMapLine, Line, Escape;
      MapLineSurvivesExactly(e, st, lossy);
    } else {
      LineParses(e, st, lossy);
      FieldsOfText(st.pseudo);
      hide ParseMapLine, Line, Fields, Text;
      if st.pseudo != [] { JoinFront(Words(st.pseudo)[0], Words(st.pseudo)[1..]); }
      assert st.pseudo != [] ==> Words(st.pseudo) == [Words(st.pseudo)[0]] + Words(st.pseudo)[1..];
    }
  }

  // "/x (deleted)", the name of a file.
  const ODD_NAME: seq<Byte> := [SLASH, 120] + DELETED_SUFFIX

  lemma OddNameIsTidy()
    ensures Tidy(ODD_NAME) && BACKSLASH !in ODD_NAME && 10 !in ODD_NAME
  {
  }

  lemma OddNameRecovered()
    ensures Recovered(ODD_NAME, {10}, false) == [SLASH, 120]
  {
    hide Escape, Squeezed, Unescape, StripDeleted, Tidy, DELETED_SUFFIX;
    OddNameIsTidy();
    EscapeKeepsPlain(ODD_NAME, {10});
    SqueezedExactly(ODD_NAME);
    StripsMark([SLASH, 120]);
    UnescapeKeepsPlain([SLASH, 120]);
  }

  /** A printing that escapes only the line break reads a linked file of that name as /x. */
  lemma OddNameMisread(e: MapEntry, st: Style, lossy: seq<Byte> -> seq<Byte>)
    requires Prints(e, st) && e.path == Some(ODD_NAME) && st.escaped == {10} && !st.deleted
    ensures ParseMapLine(Line(e, st), lossy) == Some(e.(path := Some(lossy([SLASH, 120]))))
  {
    hide ParseMapLine, Line, Recovered, ODD_NAME, Prints;
    OddNameRecovered();
    MapLineReads(e, st, lossy);
  }
}
