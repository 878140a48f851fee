/** Splitting a line at white space and joining its fields again, and what that does to a path. */
module MapsFields {
  import opened Machine
  import opened MapsPath

  // ---- fields -----------------------------------------------------------------------

  predicate IsSpace(b: Byte) { b == 9 || b == 10 || b == 12 || b == 13 || b == SPACE }

  /** How many bytes precede the first white space. */
  function WordLength(s: seq<Byte>): (n: nat)
    ensures n <= |s| && (forall i :: 0 <= i < n ==> !IsSpace(s[i])) && (n < |s| ==> IsSpace(s[n]))
  {
    if s == [] || IsSpace(s[0]) then 0 else 1 + WordLength(s[1..])
  }

  function Fields(s: seq<Byte>): seq<seq<Byte>> {
    if s == [] then []
    else if IsSpace(s[0]) then Fields(s[1..])
    else [s[..WordLength(s)]] + Fields(s[WordLength(s)..])
  }

  function Join(words: seq<seq<Byte>>): seq<Byte> {
    if words == [] then [] else if |words| == 1 then words[0] else words[0] + [SPACE] + Join(words[1..])
  }

  /** One field of a line with the white space before it. */
  datatype Piece = Piece(gap: seq<Byte>, word: seq<Byte>)

  predicate IsWord(s: seq<Byte>) { s != [] && forall i :: 0 <= i < |s| ==> !IsSpace(s[i]) }
  predicate IsGap(s: seq<Byte>) { forall i :: 0 <= i < |s| ==> IsSpace(s[i]) }

  /** A line set with any white space: fields apart from each other. */
  predicate WellSpaced(ps: seq<Piece>) {
    forall i :: 0 <= i < |ps| ==> IsWord(ps[i].word) && IsGap(ps[i].gap) && (i > 0 ==> ps[i].gap != [])
  }

  /** Fields that can follow others. */
  predicate Separated(ps: seq<Piece>) {
    WellSpaced(ps) && (ps != [] ==> ps[0].gap != [])
  }

  function Text(ps: seq<Piece>): seq<Byte> {
    if ps == [] then [] else ps[0].gap + ps[0].word + Text(ps[1..])
  }

  function Words(ps: seq<Piece>): (ws: seq<seq<Byte>>)
    ensures |ws| == |ps|
  {
    seq(|ps|, i requires 0 <= i < |ps| => ps[i].word)
  }

  lemma {:induction false} SkipGap(gap: seq<Byte>, rest: seq<Byte>)
    requires IsGap(gap)
    ensures Fields(gap + rest) == Fields(rest)
  {
    if gap == [] {
      assert gap + rest == rest;
    } else {
      SkipGap(gap[1..], rest);
      assert (gap + rest)[1..] == gap[1..] + rest;
    }
  }

  lemma {:induction false} WordEnds(word: seq<Byte>, rest: seq<Byte>)
    requires forall i :: 0 <= i < |word| ==> !IsSpace(word[i])
    requires rest != [] ==> IsSpace(rest[0])
    ensures WordLength(word + rest) == |word|
  {
    if word == [] {
      assert word + rest == rest;
    } else {
      WordEnds(word[1..], rest);
      assert (word + rest)[1..] == word[1..] + rest;
    }
  }

  lemma TakeWord(word: seq<Byte>, rest: seq<Byte>)
    requires IsWord(word) && (rest != [] ==> IsSpace(rest[0]))
    ensures Fields(word + rest) == [word] + Fields(rest)
  {
    var s := word + rest;
    WordEnds(word, rest);
    assert s[..|word|] == word && s[|word|..] == rest;
  }

  lemma WordAndRest(s: seq<Byte>)
    requires s != [] && !IsSpace(s[0])
    ensures var n := WordLength(s);
            n >= 1 && IsWord(s[..n]) && (s[n..] != [] ==> IsSpace(s[n])) && s == s[..n] + s[n..]
  {
  }

  lemma FieldsOfNothing()
    ensures Fields([]) == []
  {
  }

  lemma FieldsOfSpace(s: seq<Byte>)
    requires s != [] && IsSpace(s[0])
    ensures Fields(s) == Fields(s[1..])
  {
  }

  /** White space is a border: the fields around it are those of either side. */
  lemma {:induction false} FieldsAppend(s: seq<Byte>, rest: seq<Byte>)
    requires rest != [] ==> IsSpace(rest[0])
    ensures Fields(s + rest) == Fields(s) + Fields(rest)
    decreases |s|
  {
    hide *;
    FieldsOfNothing();
    if s == [] {
      assert s + rest == rest;
    } else if IsSpace(s[0]) {
      FieldsAppend(s[1..], rest);
      assert (s + rest)[1..] == s[1..] + rest;
      FieldsOfSpace(s);
      FieldsOfSpace(s + rest);
    } else {
      var n := WordLength(s);
      WordAndRest(s);
      FieldsAppend(s[n..], rest);
      assert s + rest == s[..n] + (s[n..] + rest);
      TakeWord(s[..n], s[n..]);
      TakeWord(s[..n], s[n..] + rest);
    }
  }

  /** Splitting finds exactly the words of a line, however it is spaced. */
  lemma {:induction false} FieldsOfText(ps: seq<Piece>)
    requires WellSpaced(ps)
    ensures Fields(Text(ps)) == Words(ps)
  {
    if ps != [] {
      var rest := Text(ps[1..]);
      FieldsOfText(ps[1..]);
      TextStartsWithGap(ps);
      SkipGap(ps[0].gap, ps[0].word + rest);
      TakeWord(ps[0].word, rest);
      assert ps[0].gap + ps[0].word + rest == ps[0].gap + (ps[0].word + rest);
      assert Words(ps) == [ps[0].word] + Words(ps[1..]);
    }
  }

  lemma TextStartsWithGap(ps: seq<Piece>)
    requires WellSpaced(ps) && ps != []
    ensures var rest := Text(ps[1..]); rest != [] ==> IsSpace(rest[0])
  {
  }

  /** Exactly tab, line feed, form feed, carriage return and space separate fields. */
  lemma SeparatorsExactly(x: Byte, b: Byte, y: Byte)
    requires x !in {9, 10, 12, 13, 32} && y !in {9, 10, 12, 13, 32}
    ensures Fields([x] + ([b] + [y])) == if b in {9, 10, 12, 13, 32} then [[x], [y]] else [[x, b, y]]
  {
    FieldsOfNothing();
    TakeWord([y], []);
    assert [y] + [] == [y];
    if IsSpace(b) {
      FieldsOfSpace([b] + [y]);
      assert ([b] + [y])[1..] == [y];
      TakeWord([x], [b] + [y]);
    } else {
      assert [x] + ([b] + [y]) == [x, b, y] + [] && [x, b, y] + [] == [x, b, y];
      TakeWord([x, b, y], []);
    }
  }

  // ---- splitting and joining again --------------------------------------------------

  function Squeezed(s: seq<Byte>): seq<Byte> { Join(Fields(s)) }

  /** What squeezing makes of the text behind a byte of a word. */
  function SqueezedRest(s: seq<Byte>): seq<Byte> {
    if Fields(s) == [] then []
    else if IsSpace(s[0]) then [SPACE] + Squeezed(s)
    else Squeezed(s)
  }

  lemma SqueezedSpace(s: seq<Byte>)
    requires s != [] && IsSpace(s[0])
    ensures Squeezed(s) == Squeezed(s[1..]) && Fields(s) == Fields(s[1..])
  {
  }

  lemma JoinFront(word: seq<Byte>, words: seq<seq<Byte>>)
    ensures Join([word] + words) == if words == [] then word else word + [SPACE] + Join(words)
  {
    assert ([word] + words)[1..] == words;
  }

  lemma FieldsOfWord(s: seq<Byte>)
    requires s != [] && !IsSpace(s[0])
    ensures var n := WordLength(s); n >= 1 && Fields(s) == [s[..n]] + Fields(s[n..])
    ensures WordLength(s) == 1 + WordLength(s[1..])
  {
  }

  lemma SqueezedOneByteWord(s: seq<Byte>)
    requires s != [] && !IsSpace(s[0]) && WordLength(s) == 1
    ensures Squeezed(s) == [s[0]] + SqueezedRest(s[1..])
  {
    var t := s[1..];
    var words := Fields(t);
    FieldsOfWord(s);
    JoinFront(s[..1], words);
    assert t == [] ==> words == [];
    hide Fields, Join, WordLength;
    assert s[..1] == [s[0]];
    assert [s[0]] + [SPACE] + Join(words) == [s[0]] + ([SPACE] + Join(words));
  }

  lemma JoinLongerWord(a: Byte, word: seq<Byte>, words: seq<seq<Byte>>)
    ensures Join([[a] + word] + words) == [a] + Join([word] + words)
  {
    JoinFront([a] + word, words);
    JoinFront(word, words);
    hide Join;
    assert [a] + word + [SPACE] + Join(words) == [a] + (word + [SPACE] + Join(words));
  }

  /** The fields of a word's tail are those of the word, but for its first byte. */
  lemma FieldsOfWordTail(s: seq<Byte>)
    requires s != [] && !IsSpace(s[0]) && WordLength(s) > 1
    ensures var word, words := s[1..WordLength(s)], Fields(s[WordLength(s)..]);
            !IsSpace(s[1]) && Fields(s) == [[s[0]] + word] + words && Fields(s[1..]) == [word] + words
  {
    FieldsOfWord(s);
    FieldsOfWord(s[1..]);
    var n := WordLength(s);
    hide *;
    TailParts(s, n);
  }

  lemma TailParts(s: seq<Byte>, n: nat)
    requires 1 <= n <= |s|
    ensures s[n..] == s[1..][n - 1..] && s[..n] == [s[0]] + s[1..n] && s[1..][..n - 1] == s[1..n]
  {
  }

  lemma SqueezedLongerWord(s: seq<Byte>)
    requires s != [] && !IsSpace(s[0]) && WordLength(s) > 1
    ensures Squeezed(s) == [s[0]] + SqueezedRest(s[1..])
  {
    hide Fields, Join, WordLength;
    FieldsOfWordTail(s);
    JoinLongerWord(s[0], s[1..WordLength(s)], Fields(s[WordLength(s)..]));
  }

  lemma SqueezedWord(s: seq<Byte>)
    requires s != [] && !IsSpace(s[0])
    ensures Squeezed(s) == [s[0]] + SqueezedRest(s[1..])
  {
    FieldsOfWord(s);
    hide *;
    if WordLength(s) == 1 { SqueezedOneByteWord(s); } else { SqueezedLongerWord(s); }
  }

  /** Only single spaces, each between two other bytes. */
  ghost predicate Tidy(s: seq<Byte>) {
    forall i :: 0 <= i < |s| && IsSpace(s[i]) ==> s[i] == SPACE && 0 < i && i + 1 < |s| && !IsSpace(s[i + 1])
  }

  ghost predicate TidyRest(s: seq<Byte>) {
    s != [] && IsSpace(s[0]) ==> s[0] == SPACE && |s| > 1 && !IsSpace(s[1])
  }

  lemma TidyStep(s: seq<Byte>)
    requires s != [] && !IsSpace(s[0])
    ensures Tidy(s) <==> if s[1..] != [] && IsSpace(s[1]) then TidyRest(s[1..]) && Tidy(s[2..]) else Tidy(s[1..])
  {
    var t, u := s[1..], if |s| > 1 then s[2..] else [];
    if s[1..] != [] && IsSpace(s[1]) {
      if TidyRest(t) && Tidy(u) {
        forall i | 0 <= i < |s| && IsSpace(s[i]) ensures s[i] == SPACE && 0 < i && i + 1 < |s| && !IsSpace(s[i + 1]) {
          if i >= 2 { assert s[i] == u[i - 2]; }
        }
      }
      if Tidy(s) {
        forall i | 0 <= i < |u| && IsSpace(u[i]) ensures u[i] == SPACE && 0 < i && i + 1 < |u| && !IsSpace(u[i + 1]) {
          assert u[i] == s[i + 2];
        }
      }
    } else {
      if Tidy(t) {
        forall i | 0 <= i < |s| && IsSpace(s[i]) ensures s[i] == SPACE && 0 < i && i + 1 < |s| && !IsSpace(s[i + 1]) {
          if i >= 1 { assert s[i] == t[i - 1]; }
        }
      }
      if Tidy(s) {
        forall i | 0 <= i < |t| && IsSpace(t[i]) ensures t[i] == SPACE && 0 < i && i + 1 < |t| && !IsSpace(t[i + 1]) {
          assert t[i] == s[i + 1];
        }
      }
    }
  }

  /** Splitting and joining leave a text alone exactly when it is tidy. */
  lemma {:induction false} SqueezedExactly(s: seq<Byte>)
    ensures |Squeezed(s)| <= |s| && (Squeezed(s) == s <==> Tidy(s))
    decreases |s|, 0
  {
    if s == [] {
    } else if IsSpace(s[0]) {
      SqueezedSpace(s);
      SqueezedExactly(s[1..]);
      assert !Tidy(s);
    } else {
      SqueezedWord(s);
      TidyStep(s);
      SqueezedRestExactly(s[1..]);
      hide *;
      assert s == [s[0]] + s[1..];
    }
  }

  /** A rest is left alone exactly when it continues a tidy text. */
  lemma {:induction false} SqueezedRestExactly(t: seq<Byte>)
    ensures |SqueezedRest(t)| <= |t|
    ensures SqueezedRest(t) == t
            <==> if t != [] && IsSpace(t[0]) then TidyRest(t) && Tidy(t[1..]) else Tidy(t)
    decreases |t|, 1
  {
    if t == [] {
      assert SqueezedRest(t) == [];
    } else if IsSpace(t[0]) {
      SqueezedSpace(t);
      SqueezedExactly(t[1..]);
      if |t| > 1 && !IsSpace(t[1]) { FieldsOfWord(t[1..]); }
      assert |t| == 1 ==> Fields(t[1..]) == [];
      hide Fields, Join, WordLength, Squeezed;
      assert t == [t[0]] + t[1..];
    } else {
      FieldsOfWord(t);
      hide Fields, Join, WordLength, Squeezed, Tidy;
      SqueezedExactly(t);
    }
  }

  // ---- squeezing and decoding -------------------------------------------------------

  lemma RestOfWord(t: seq<Byte>)
    requires t != [] && !IsSpace(t[0])
    ensures SqueezedRest(t) == Squeezed(t) == [t[0]] + SqueezedRest(t[1..])
  {
    FieldsOfWord(t);
    SqueezedWord(t);
    hide Squeezed, Fields, WordLength;
  }

  lemma RestOfSpace(t: seq<Byte>)
    requires t == [] || IsSpace(t[0])
    ensures SqueezedRest(t) == if Fields(t) == [] then [] else [SPACE] + Squeezed(t[1..])
    ensures t == [] ==> Fields(t) == []
  {
    if t != [] { SqueezedSpace(t); }
    hide Squeezed;
  }

  /** A word is kept as it is. */
  lemma {:induction false} WordKept(t: seq<Byte>, n: nat)
    requires n <= |t| && forall i :: 0 <= i < n ==> !IsSpace(t[i])
    ensures SqueezedRest(t) == t[..n] + SqueezedRest(t[n..])
  {
    hide *;
    if n == 0 {
      assert t[0..] == t;
    } else {
      WordKept(t[1..], n - 1);
      RestOfWord(t);
      assert t[1..][n - 1..] == t[n..] && t[..n] == [t[0]] + t[1..][..n - 1];
    }
  }

  /** What comes out as a word went in as one. */
  lemma {:induction false} WordWasThere(t: seq<Byte>, n: nat)
    requires n <= |SqueezedRest(t)| && forall i :: 0 <= i < n ==> !IsSpace(SqueezedRest(t)[i])
    ensures n <= |t| && t[..n] == SqueezedRest(t)[..n]
  {
    if n > 0 {
      StartsWithWord(t);
      RestOfWord(t);
      hide *;
      var rest := SqueezedRest(t[1..]);
      forall i | 0 <= i < n - 1 ensures !IsSpace(rest[i]) { assert rest[i] == SqueezedRest(t)[i + 1]; }
      WordWasThere(t[1..], n - 1);
      assert t[..n] == [t[0]] + t[1..][..n - 1] && ([t[0]] + rest)[..n] == [t[0]] + rest[..n - 1];
    }
  }

  lemma StartsWithWord(t: seq<Byte>)
    requires SqueezedRest(t) != [] && !IsSpace(SqueezedRest(t)[0])
    ensures t != [] && !IsSpace(t[0])
  {
    if t == [] || IsSpace(t[0]) {
      RestOfSpace(t);
      hide SqueezedRest;
    }
  }

  lemma EscapeStart(s: seq<Byte>, t: seq<Byte>)
    requires |s| >= 4 && |t| >= 4 && s[..4] == t[..4] && EscapeAt(s, 0)
    ensures EscapeAt(t, 0) && OctalByte(s[1], s[2], s[3]) == OctalByte(t[1], t[2], t[3])
  {
    assert s[..4][0] == t[..4][0] && s[..4][1] == t[..4][1] && s[..4][2] == t[..4][2] && s[..4][3] == t[..4][3];
  }

  lemma EscapeIsWord(s: seq<Byte>)
    requires EscapeAt(s, 0)
    ensures |s| >= 4 && forall i :: 0 <= i < 4 ==> !IsSpace(s[i])
  {
  }

  /** Squeezing does not break an escape. */
  lemma EscapeStays(s: seq<Byte>)
    requires EscapeAt(s, 0)
    ensures EscapeAt(Squeezed(s), 0) && |s| >= 4 && Squeezed(s) == s[..4] + SqueezedRest(s[4..])
  {
    EscapeIsWord(s);
    SqueezedWord(s);
    hide *;
    WordKept(s[1..], 3);
    FourInFront(s, SqueezedRest(s[4..]));
    EscapeStart(s, Squeezed(s));
  }

  lemma FourInFront(s: seq<Byte>, rest: seq<Byte>)
    requires |s| >= 4
    ensures s[1..][3..] == s[4..] && [s[0]] + (s[1..][..3] + rest) == s[..4] + rest && (s[..4] + rest)[..4] == s[..4]
  {
  }

  /** Squeezing does not make an escape. */
  lemma EscapeWasThere(s: seq<Byte>)
    requires s != [] && !IsSpace(s[0]) && EscapeAt(Squeezed(s), 0)
    ensures EscapeAt(s, 0)
  {
    SqueezedWord(s);
    EscapeIsWord(Squeezed(s));
    hide *;
    var t, q := s[1..], SqueezedRest(s[1..]);
    assert Squeezed(s) == [s[0]] + q;
    forall i | 0 <= i < 3 ensures !IsSpace(q[i]) { assert q[i] == Squeezed(s)[i + 1]; }
    WordWasThere(t, 3);
    assert s[..4] == [s[0]] + t[..3] && Squeezed(s)[..4] == [s[0]] + q[..3];
    EscapeStart(Squeezed(s), s);
  }

  lemma EscapeKept(s: seq<Byte>)
    requires s != [] && !IsSpace(s[0])
    ensures EscapeAt(Squeezed(s), 0) <==> EscapeAt(s, 0)
    ensures EscapeAt(s, 0) ==> Squeezed(s) == s[..4] + SqueezedRest(s[4..])
  {
    hide Squeezed, SqueezedRest;
    if EscapeAt(s, 0) { EscapeStays(s); }
    if EscapeAt(Squeezed(s), 0) { EscapeWasThere(s); }
  }

  lemma UnescapeUnfolds(s: seq<Byte>)
    requires s != []
    ensures Unescape(s) == if EscapeAt(s, 0) then [OctalByte(s[1], s[2], s[3])] + Unescape(s[4..])
                           else [s[0]] + Unescape(s[1..])
  {
  }

  /** Behind the head of a word, squeezing and decoding go on with the rest. */
  lemma SqueezedHeadDecodes(s: seq<Byte>)
    requires s != [] && !IsSpace(s[0])
    ensures var k := if EscapeAt(s, 0) then 4 else 1;
            && k <= |s| && Squeezed(s) == s[..k] + SqueezedRest(s[k..])
            && exists b :: Unescape(s) == [b] + Unescape(s[k..])
                           && Unescape(Squeezed(s)) == [b] + Unescape(SqueezedRest(s[k..]))
  {
    EscapeKept(s);
    SqueezedWord(s);
    hide Squeezed, SqueezedRest, Unescape, OctalByte;
    var q := Squeezed(s);
    UnescapeUnfolds(s);
    UnescapeUnfolds(q);
    if EscapeAt(s, 0) {
      assert q[..4] == s[..4] && q[4..] == SqueezedRest(s[4..]);
      EscapeStart(s, q);
    } else {
      assert s[..1] == [s[0]] && q[1..] == SqueezedRest(s[1..]);
    }
  }

  lemma SameHeads(a: Byte, x: seq<Byte>, b: Byte, y: seq<Byte>)
    ensures [a] + x == [b] + y ==> a == b && x == y
  {
    assert ([a] + x)[0] == a && ([b] + y)[0] == b && ([a] + x)[1..] == x && ([b] + y)[1..] == y;
  }

  lemma NothingSqueezed()
    ensures Squeezed([]) == [] && SqueezedRest([]) == []
  {
  }

  /** Squeezing never lengthens the decoded text, and shows in it whenever it does anything. */
  lemma {:induction false} SqueezingShows(s: seq<Byte>)
    ensures |Unescape(Squeezed(s))| <= |Unescape(s)|
    ensures Unescape(Squeezed(s)) == Unescape(s) ==> Squeezed(s) == s
    decreases |s|, 0
  {
    hide Unescape, Squeezed, SqueezedRest, OctalByte;
    if s == [] {
      NothingSqueezed();
    } else if IsSpace(s[0]) {
      SqueezedSpace(s);
      UnescapeUnfolds(s);
      SqueezingShows(s[1..]);
    } else {
      SqueezedHeadDecodes(s);
      var k := if EscapeAt(s, 0) then 4 else 1;
      var b :| Unescape(s) == [b] + Unescape(s[k..])
               && Unescape(Squeezed(s)) == [b] + Unescape(SqueezedRest(s[k..]));
      SqueezingOfRestShows(s[k..]);
      SameHeads(b, Unescape(s[k..]), b, Unescape(SqueezedRest(s[k..])));
      assert s == s[..k] + s[k..];
    }
  }

  lemma {:induction false} SqueezingOfRestShows(t: seq<Byte>)
    ensures |Unescape(SqueezedRest(t))| <= |Unescape(t)|
    ensures Unescape(SqueezedRest(t)) == Unescape(t) ==> SqueezedRest(t) == t
    decreases |t|, 1
  {
    hide Unescape, Squeezed, SqueezedRest, OctalByte, Fields;
    if t == [] {
      NothingSqueezed();
    } else if IsSpace(t[0]) {
      RestOfSpace(t);
      UnescapeUnfolds(t);
      UnescapeEnds();
      var q := Squeezed(t[1..]);
      UnescapeUnfolds([SPACE] + q);
      assert ([SPACE] + q)[1..] == q && t == [t[0]] + t[1..];
      SqueezingShows(t[1..]);
      SameHeads(SPACE, Unescape(q), t[0], Unescape(t[1..]));
    } else {
      RestOfWord(t);
      SqueezingShows(t);
    }
  }

  lemma EscapeInFront(a: seq<Byte>, b: seq<Byte>)
    requires a != [] && b != [] && b[0] == SPACE
    ensures EscapeAt(a + b, 0) <==> EscapeAt(a, 0)
  {
    var s := a + b;
    assert forall i :: 0 <= i < |a| ==> s[i] == a[i];
    assert s[|a|] == SPACE;
  }

  lemma {:induction false} UnescapeBeforeSpace(a: seq<Byte>, b: seq<Byte>)
    requires b != [] && b[0] == SPACE
    ensures Unescape(a + b) == Unescape(a) + Unescape(b)
    decreases |a|
  {
    hide Unescape, OctalByte;
    if a == [] {
      UnescapeEnds();
      assert a + b == b;
    } else {
      var s := a + b;
      UnescapeUnfolds(a);
      UnescapeUnfolds(s);
      EscapeInFront(a, b);
      if EscapeAt(a, 0) {
        assert s[4..] == a[4..] + b && s[..4] == a[..4];
        EscapeStart(a, s);
        UnescapeBeforeSpace(a[4..], b);
      } else {
        assert s[1..] == a[1..] + b;
        UnescapeBeforeSpace(a[1..], b);
      }
    }
  }
}
