/** Octal-escaped paths, as /proc/pid/maps prints them. Text is UTF-8 bytes. */
module MapsPath {
  import opened Machine

  const SPACE := 32
  const BACKSLASH := 92

  // ---- octal escapes ----------------------------------------------------------------

  predicate IsOctal(b: Byte) { 48 <= b <= 55 }

  /** An escape starts here: a backslash and three octal digits. */
  predicate EscapeAt(s: seq<Byte>, i: nat) {
    i + 3 < |s| && s[i] == BACKSLASH && IsOctal(s[i + 1]) && IsOctal(s[i + 2]) && IsOctal(s[i + 3])
  }

  /** The byte three digits stand for, in 8-bit arithmetic that wraps. */
  function OctalByte(a: Byte, b: Byte, c: Byte): Byte
    requires IsOctal(a) && IsOctal(b) && IsOctal(c)
  {
    ((a - 48) * 64 % 0x100 + (b - 48) * 8 + c - 48) % 0x100
  }

  /** Three digits stand for their octal value, cut to a byte where that passes 255. */
  lemma OctalByteIsValue(a: Byte, b: Byte, c: Byte)
    requires IsOctal(a) && IsOctal(b) && IsOctal(c)
    ensures OctalByte(a, b, c) == (64 * (a - 48) + 8 * (b - 48) + (c - 48)) % 0x100
  {
  }

  function Unescape(s: seq<Byte>): seq<Byte> {
    if s == [] then []
    else if EscapeAt(s, 0) then [OctalByte(s[1], s[2], s[3])] + Unescape(s[4..])
    else [s[0]] + Unescape(s[1..])
  }

  lemma UnescapeStep(path: seq<Byte>, i: nat)
    requires i < |path|
    ensures Unescape(path[i..])
            == if EscapeAt(path, i) then [OctalByte(path[i + 1], path[i + 2], path[i + 3])] + Unescape(path[i + 4..])
               else [path[i]] + Unescape(path[i + 1..])
  {
    var rest := path[i..];
    assert EscapeAt(rest, 0) <==> EscapeAt(path, i);
    if EscapeAt(path, i) { assert rest[4..] == path[i + 4..]; } else { assert rest[1..] == path[i + 1..]; }
  }

  lemma Regroup(done: seq<Byte>, b: Byte, rest: seq<Byte>)
    ensures (done + [b]) + rest == done + ([b] + rest)
  {
  }

  /** The decoding loop. */
  method UnescapeMapsPath(path: seq<Byte>) returns (decoded: seq<Byte>)
    ensures decoded == Unescape(path)
  {
    hide Unescape, OctalByte;
    decoded := [];
    var index := 0;
    assert path[0..] == path;
    while index < |path|
      invariant index <= |path|
      invariant decoded + Unescape(path[index..]) == Unescape(path)
    {
      UnescapeStep(path, index);
      if EscapeAt(path, index) {
        var b := OctalByte(path[index + 1], path[index + 2], path[index + 3]);
        Regroup(decoded, b, Unescape(path[index + 4..]));
        decoded := decoded + [b];
        index := index + 4;
      } else {
        Regroup(decoded, path[index], Unescape(path[index + 1..]));
        decoded := decoded + [path[index]];
        index := index + 1;
      }
    }
    UnescapeEnds();
    assert path[index..] == [];
  }

  lemma UnescapeEnds()
    ensures Unescape([]) == []
  {
  }

  /** How the kernel writes a byte it escapes. */
  function OctalEscape(b: Byte): (s: seq<Byte>)
    ensures |s| == 4 && EscapeAt(s, 0)
  {
    [BACKSLASH, 48 + b / 64, 48 + b / 8 % 8, 48 + b % 8]
  }

  function Escape(s: seq<Byte>, escaped: set<Byte>): seq<Byte> {
    if s == [] then []
    else (if s[0] in escaped then OctalEscape(s[0]) else [s[0]]) + Escape(s[1..], escaped)
  }

  lemma OctalDigitsOfByte(b: Byte)
    ensures var s := OctalEscape(b); OctalByte(s[1], s[2], s[3]) == b
  {
    var hi, mid, lo := b / 64, b / 8 % 8, b % 8;
    assert b == hi * 64 + mid * 8 + lo;
    assert hi * 64 % 0x100 == hi * 64;
  }

  /** The path holds an escape of its own that the printing leaves as it is. */
  predicate BareEscapeAt(s: seq<Byte>, i: nat, escaped: set<Byte>) {
    && EscapeAt(s, i) && s[i] !in escaped
    && s[i + 1] !in escaped && s[i + 2] !in escaped && s[i + 3] !in escaped
  }

  ghost predicate NoBareEscape(s: seq<Byte>, escaped: set<Byte>) {
    forall i :: 0 <= i < |s| ==> !BareEscapeAt(s, i, escaped)
  }

  /** What printing and decoding make of a path. */
  function Decoded(s: seq<Byte>, escaped: set<Byte>): seq<Byte> { Unescape(Escape(s, escaped)) }

  lemma {:induction false} OctalStart(s: seq<Byte>, escaped: set<Byte>, n: nat)
    requires n <= |Escape(s, escaped)| && forall i :: 0 <= i < n ==> IsOctal(Escape(s, escaped)[i])
    ensures n <= |s| && forall i :: 0 <= i < n ==> s[i] == Escape(s, escaped)[i] && s[i] !in escaped
  {
    if n > 0 {
      var t := Escape(s, escaped);
      assert IsOctal(t[0]);
      var rest := Escape(s[1..], escaped);
      assert t == [s[0]] + rest;
      forall i | 0 <= i < n - 1 ensures IsOctal(rest[i]) { assert rest[i] == t[i + 1]; }
      OctalStart(s[1..], escaped, n - 1);
      forall i | 0 <= i < n ensures s[i] == t[i] && s[i] !in escaped {
        if i > 0 { assert s[i] == s[1..][i - 1] && t[i] == rest[i - 1]; }
      }
    }
  }

  lemma PlainStart(s: seq<Byte>, escaped: set<Byte>)
    requires BareEscapeAt(s, 0, escaped)
    ensures Escape(s, escaped) == s[..4] + Escape(s[4..], escaped)
  {
    assert s[1..][1..] == s[2..] && s[2..][1..] == s[3..] && s[3..][1..] == s[4..];
    var rest := Escape(s[4..], escaped);
    assert Escape(s[3..], escaped) == [s[3]] + rest;
    assert Escape(s[2..], escaped) == [s[2]] + Escape(s[3..], escaped);
    assert Escape(s[1..], escaped) == [s[1]] + Escape(s[2..], escaped);
    assert s[..4] == [s[0], s[1], s[2], s[3]];
  }

  /** Printing creates no escape behind a backslash it leaves as it is. */
  lemma BareEscapesOnly(s: seq<Byte>, escaped: set<Byte>)
    requires s != [] && s[0] !in escaped
    ensures EscapeAt(Escape(s, escaped), 0) <==> BareEscapeAt(s, 0, escaped)
  {
    var all := Escape(s, escaped);
    if EscapeAt(all, 0) {
      var rest := Escape(s[1..], escaped);
      assert all == [s[0]] + rest;
      OctalStart(s[1..], escaped, 3);
      hide Escape;
      assert s[1..4] == rest[..3];
    }
    if BareEscapeAt(s, 0, escaped) { PlainStart(s, escaped); }
  }

  /** Printing and decoding take a bare escape for what it spells, and nothing else. */
  lemma DecodedStep(s: seq<Byte>, escaped: set<Byte>)
    requires s != []
    ensures Decoded(s, escaped)
            == if BareEscapeAt(s, 0, escaped) then [OctalByte(s[1], s[2], s[3])] + Decoded(s[4..], escaped)
               else [s[0]] + Decoded(s[1..], escaped)
  {
    hide OctalByte;
    var rest := Escape(s[1..], escaped);
    if s[0] in escaped {
      OctalDigitsOfByte(s[0]);
      var all := OctalEscape(s[0]) + rest;
      assert EscapeAt(all, 0) && all[4..] == rest;
    } else if BareEscapeAt(s, 0, escaped) {
      PlainStart(s, escaped);
      var all := Escape(s, escaped);
      assert EscapeAt(all, 0) && all[4..] == Escape(s[4..], escaped);
    } else {
      BareEscapesOnly(s, escaped);
      assert ([s[0]] + rest)[1..] == rest;
    }
  }

  lemma BareEscapesShift(s: seq<Byte>, escaped: set<Byte>)
    requires s != []
    ensures NoBareEscape(s, escaped) <==> !BareEscapeAt(s, 0, escaped) && NoBareEscape(s[1..], escaped)
  {
    var t := s[1..];
    forall i | 0 <= i < |t| ensures BareEscapeAt(t, i, escaped) <==> BareEscapeAt(s, i + 1, escaped) { }
    if !BareEscapeAt(s, 0, escaped) && NoBareEscape(t, escaped) {
      forall i | 0 <= i < |s| ensures !BareEscapeAt(s, i, escaped) {
        if i > 0 { assert !BareEscapeAt(t, i - 1, escaped); }
      }
    }
    if NoBareEscape(s, escaped) {
      forall i | 0 <= i < |t| ensures !BareEscapeAt(t, i, escaped) { assert !BareEscapeAt(s, i + 1, escaped); }
    }
  }

  /** Which paths survive, for every path and every choice of escaped bytes: exactly those
      without a bare escape. Every bare escape makes the path shorter. */
  lemma {:induction false} PathDecodesExactly(s: seq<Byte>, escaped: set<Byte>)
    ensures Decoded(s, escaped) == s <==> NoBareEscape(s, escaped)
    ensures |Decoded(s, escaped)| <= |s| && (|Decoded(s, escaped)| == |s| ==> NoBareEscape(s, escaped))
    decreases |s|
  {
    hide *;
    if s == [] {
      NothingDecoded(escaped);
    } else {
      DecodedStep(s, escaped);
      BareEscapesShift(s, escaped);
      if BareEscapeAt(s, 0, escaped) {
        BareEscapeFits(s, escaped);
        PathDecodesExactly(s[4..], escaped);
      } else {
        PathDecodesExactly(s[1..], escaped);
        assert [s[0]] + s[1..] == s;
      }
    }
  }

  lemma NothingDecoded(escaped: set<Byte>)
    ensures Decoded([], escaped) == [] && NoBareEscape([], escaped)
  {
  }

  lemma BareEscapeFits(s: seq<Byte>, escaped: set<Byte>)
    requires BareEscapeAt(s, 0, escaped)
    ensures 4 <= |s|
  {
  }

  /** Decoding undoes any escaping that covers the backslash itself, for every byte string. */
  lemma UnescapeUndoesEscape(s: seq<Byte>, escaped: set<Byte>)
    requires BACKSLASH in escaped
    ensures Unescape(Escape(s, escaped)) == s
  {
    PathDecodesExactly(s, escaped);
  }

  /** With an escape set that leaves backslash and digits alone, such as the line break on its
      own, exactly the paths without an escape of their own survive. */
  lemma PlainEscapingExactly(s: seq<Byte>, escaped: set<Byte>)
    requires escaped !! {BACKSLASH, 48, 49, 50, 51, 52, 53, 54, 55}
    ensures Unescape(Escape(s, escaped)) == s <==> forall i :: 0 <= i < |s| ==> !EscapeAt(s, i)
  {
    PathDecodesExactly(s, escaped);
    forall i | 0 <= i < |s| ensures BareEscapeAt(s, i, escaped) <==> EscapeAt(s, i) { }
    hide Unescape, Escape;
  }

  /** Text without a backslash is left alone. */
  lemma {:induction false} UnescapeKeepsPlain(s: seq<Byte>)
    requires BACKSLASH !in s
    ensures Unescape(s) == s
  {
    if s != [] { UnescapeKeepsPlain(s[1..]); }
  }

  lemma {:induction false} EscapeKeepsPlain(s: seq<Byte>, escaped: set<Byte>)
    requires forall b :: b in s ==> b !in escaped
    ensures Escape(s, escaped) == s
  {
    if s != [] { EscapeKeepsPlain(s[1..], escaped); }
  }

  const OCTAL_DIGITS: set<Byte> := {48, 49, 50, 51, 52, 53, 54, 55}

  /** Which escapings survive decoding for every byte string: exactly those that escape the
      backslash, or else every octal digit. Any other turns some literal \ddd into one byte. */
  lemma RoundTripExactly(escaped: set<Byte>)
    ensures (forall s :: Unescape(Escape(s, escaped)) == s) <==> BACKSLASH in escaped || OCTAL_DIGITS <= escaped
  {
    hide Unescape, Escape;
    if BACKSLASH in escaped || OCTAL_DIGITS <= escaped {
      forall s ensures Unescape(Escape(s, escaped)) == s { PathDecodesExactly(s, escaped); }
    } else {
      var d :| d in OCTAL_DIGITS && d !in escaped;
      var s: seq<Byte> := [BACKSLASH, d, d, d];
      assert BareEscapeAt(s, 0, escaped);
      PathDecodesExactly(s, escaped);
      assert Unescape(Escape(s, escaped)) != s;
    }
  }
}
