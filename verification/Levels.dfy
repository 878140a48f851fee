/** Sorting the Lua events of a sample by level, root first. */
module Levels {
  import opened LuaWalk

  // ---- sorting by level -------------------------------------------------------------

  /** Stable insertion behind every event of at least the same level. */
  function Insert(e: LuaEvent, es: seq<LuaEvent>): (r: seq<LuaEvent>)
    ensures multiset(r) == multiset(es) + multiset{e}
  {
    if es == [] || es[0].level < e.level then [e] + es
    else
      assert es == [es[0]] + es[1..];
      [es[0]] + Insert(e, es[1..])
  }

  /** A stable sort by descending level, root first. */
  function SortByLevel(es: seq<LuaEvent>): (r: seq<LuaEvent>)
    ensures multiset(r) == multiset(es)
  {
    if es == [] then []
    else
      assert es == es[..|es| - 1] + [es[|es| - 1]];
      Insert(es[|es| - 1], SortByLevel(es[..|es| - 1]))
  }

  ghost predicate DescendingLevels(es: seq<LuaEvent>) {
    forall i, j :: 0 <= i < j < |es| ==> es[i].level >= es[j].level
  }

  lemma {:induction false} InsertKeepsOrder(e: LuaEvent, es: seq<LuaEvent>)
    requires DescendingLevels(es)
    ensures DescendingLevels(Insert(e, es))
  {
    if es != [] && es[0].level >= e.level {
      InsertKeepsOrder(e, es[1..]);
      var rest := Insert(e, es[1..]);
      forall j | 0 <= j < |rest| ensures rest[j].level <= es[0].level {
        assert rest[j] in multiset(rest);
        assert rest[j] == e || rest[j] in es[1..];
      }
    }
  }

  lemma {:induction false} SortDescends(es: seq<LuaEvent>)
    ensures DescendingLevels(SortByLevel(es))
  {
    if es != [] {
      SortDescends(es[..|es| - 1]);
      InsertKeepsOrder(es[|es| - 1], SortByLevel(es[..|es| - 1]));
    }
  }

  ghost predicate DistinctLevels(es: seq<LuaEvent>) {
    forall i, j :: 0 <= i < j < |es| ==> es[i].level != es[j].level
  }

  lemma SameRoot(a: seq<LuaEvent>, b: seq<LuaEvent>)
    requires multiset(a) == multiset(b) && a != []
    requires DescendingLevels(a) && DescendingLevels(b) && DistinctLevels(a)
    ensures b != [] && a[0] == b[0]
  {
    assert a[0] in multiset(b);
    var i :| 0 <= i < |b| && b[i] == a[0];
    assert b[0] in multiset(a);
    var j :| 0 <= j < |a| && a[j] == b[0];
    assert b[0].level >= b[i].level;
    assert j == 0;
  }

  lemma TailOf(a: seq<LuaEvent>)
    requires a != []
    ensures multiset(a[1..]) == multiset(a) - multiset{a[0]}
    ensures DescendingLevels(a) ==> DescendingLevels(a[1..])
    ensures DistinctLevels(a) ==> DistinctLevels(a[1..])
  {
    assert a == [a[0]] + a[1..];
  }

  /** The events of one level, in order. */
  function AtLevel(es: seq<LuaEvent>, l: int): seq<LuaEvent> {
    if es == [] then [] else (if es[0].level == l then [es[0]] else []) + AtLevel(es[1..], l)
  }

  lemma {:induction false} NoneAtLevel(es: seq<LuaEvent>, l: int)
    requires forall i :: 0 <= i < |es| ==> es[i].level != l
    ensures AtLevel(es, l) == []
  {
    if es != [] { NoneAtLevel(es[1..], l); }
  }

  lemma AtLevelUnfolds(e: LuaEvent, es: seq<LuaEvent>, l: int)
    ensures AtLevel([e] + es, l) == (if e.level == l then [e] else []) + AtLevel(es, l)
    ensures AtLevel([e], l) == if e.level == l then [e] else []
    ensures AtLevel([], l) == []
  {
    assert ([e] + es)[1..] == es && [e][1..] == [];
  }

  lemma AtLevelOfNone(l: int)
    ensures AtLevel([], l) == []
  {
  }

  lemma {:induction false} AtLevelAppend(a: seq<LuaEvent>, b: seq<LuaEvent>, l: int)
    ensures AtLevel(a + b, l) == AtLevel(a, l) + AtLevel(b, l)
  {
    hide *;
    if a == [] {
      assert a + b == b;
      AtLevelOfNone(l);
    } else {
      assert a == [a[0]] + a[1..] && a + b == [a[0]] + (a[1..] + b);
      AtLevelUnfolds(a[0], a[1..], l);
      AtLevelUnfolds(a[0], a[1..] + b, l);
      AtLevelAppend(a[1..], b, l);
    }
  }

  lemma InsertUnfolds(e: LuaEvent, es: seq<LuaEvent>)
    ensures Insert(e, es) == if es == [] || es[0].level < e.level then [e] + es else [es[0]] + Insert(e, es[1..])
  {
  }

  lemma BelowFirst(es: seq<LuaEvent>, l: int)
    requires DescendingLevels(es)
    ensures es != [] ==> DescendingLevels(es[1..])
    ensures es == [] || es[0].level < l ==> AtLevel(es, l) == []
  {
    if es == [] || es[0].level < l { NoneAtLevel(es, l); }
  }

  lemma EitherOrder<T>(a: seq<T>, b: seq<T>)
    requires a == [] || b == []
    ensures a + b == b + a
  {
  }

  lemma {:induction false} InsertIsStable(e: LuaEvent, es: seq<LuaEvent>, l: int)
    requires DescendingLevels(es)
    ensures AtLevel(Insert(e, es), l) == AtLevel(es, l) + AtLevel([e], l)
  {
    hide *;
    InsertUnfolds(e, es);
    BelowFirst(es, l);
    AtLevelUnfolds(e, es, l);
    if es == [] || es[0].level < e.level {
      EitherOrder(AtLevel([e], l), AtLevel(es, l));
    } else {
      var first := if es[0].level == l then [es[0]] else [];
      InsertIsStable(e, es[1..], l);
      AtLevelUnfolds(es[0], Insert(e, es[1..]), l);
      AtLevelUnfolds(es[0], es[1..], l);
      assert [es[0]] + es[1..] == es;
      assert first + (AtLevel(es[1..], l) + AtLevel([e], l)) == (first + AtLevel(es[1..], l)) + AtLevel([e], l);
    }
  }

  lemma SortUnfolds(es: seq<LuaEvent>)
    ensures es == [] ==> SortByLevel(es) == []
    ensures es != [] ==> SortByLevel(es) == Insert(es[|es| - 1], SortByLevel(es[..|es| - 1]))
  {
    hide Insert;
  }

  /** The sort is stable: events of one level keep the order they arrived in. */
  lemma {:induction false} SortIsStable(es: seq<LuaEvent>, l: int)
    ensures AtLevel(SortByLevel(es), l) == AtLevel(es, l)
  {
    hide *;
    SortUnfolds(es);
    if es != [] {
      var n := |es| - 1;
      SortIsStable(es[..n], l);
      SortDescends(es[..n]);
      InsertIsStable(es[n], SortByLevel(es[..n]), l);
      AtLevelAppend(es[..n], [es[n]], l);
      assert es[..n] + [es[n]] == es;
    }
  }

  /** Strictly descending arrangements of the same events are equal. */
  lemma {:induction false} DescendingIsUnique(a: seq<LuaEvent>, b: seq<LuaEvent>)
    requires multiset(a) == multiset(b)
    requires DescendingLevels(a) && DescendingLevels(b) && DistinctLevels(a) && DistinctLevels(b)
    ensures a == b
  {
    if a == [] {
      assert |multiset(b)| == 0;
    } else {
      SameRoot(a, b);
      TailOf(a);
      TailOf(b);
      hide DescendingLevels, DistinctLevels;
      DescendingIsUnique(a[1..], b[1..]);
      assert a == [a[0]] + a[1..] && b == [b[0]] + b[1..];
    }
  }

  /** Any part of events of distinct levels has distinct levels. */
  lemma DistinctLevelsOfPart(a: seq<LuaEvent>, b: seq<LuaEvent>)
    requires multiset(b) <= multiset(a) && DistinctLevels(a)
    ensures DistinctLevels(b)
  {
    forall i, j | 0 <= i < j < |b| ensures b[i].level != b[j].level {
      if b[i].level == b[j].level {
        assert b[i] in multiset(b) && b[j] in multiset(b);
        assert b[i] in multiset(a) && b[j] in multiset(a);
        var k :| 0 <= k < |a| && a[k] == b[i];
        var l :| 0 <= l < |a| && a[l] == b[j];
        assert k == l;
        TwiceInMultiset(b, i, j);
        OnceInMultiset(a, k);
        assert false;
      }
    }
  }

  lemma DistinctLevelsOfPermutation(a: seq<LuaEvent>, b: seq<LuaEvent>)
    requires multiset(a) == multiset(b) && DistinctLevels(a)
    ensures DistinctLevels(b)
  {
    hide *;
    DistinctLevelsOfPart(a, b);
  }

  /** Events of distinct levels are determined, up to order, by which they are. */
  lemma SameMembers(a: seq<LuaEvent>, b: seq<LuaEvent>)
    requires DistinctLevels(a) && DistinctLevels(b) && forall e :: e in a <==> e in b
    ensures multiset(a) == multiset(b)
  {
    forall e ensures multiset(a)[e] == multiset(b)[e] {
      CountIsMembership(a, e);
      CountIsMembership(b, e);
    }
  }

  lemma CountIsMembership(a: seq<LuaEvent>, e: LuaEvent)
    requires DistinctLevels(a)
    ensures multiset(a)[e] == if e in a then 1 else 0
  {
    if e in a {
      var i :| 0 <= i < |a| && a[i] == e;
      OnceInMultiset(a, i);
    } else {
      assert e !in multiset(a);
    }
  }

  lemma TwiceInMultiset(s: seq<LuaEvent>, i: nat, j: nat)
    requires i < j < |s| && s[i] == s[j]
    ensures multiset(s)[s[i]] >= 2
  {
    assert s == s[..j] + [s[j]] + s[j + 1..];
    assert s[..j][i] in multiset(s[..j]);
  }

  lemma OnceInMultiset(s: seq<LuaEvent>, k: nat)
    requires k < |s| && DistinctLevels(s)
    ensures multiset(s)[s[k]] == 1
  {
    assert s == s[..k] + [s[k]] + s[k + 1..];
    assert s[k] !in s[..k] && s[k] !in s[k + 1..];
  }

  /** Events of distinct levels sort to the same sequence in whatever order they arrived. */
  lemma SortIgnoresArrival(a: seq<LuaEvent>, b: seq<LuaEvent>)
    requires multiset(a) == multiset(b) && DistinctLevels(a)
    ensures SortByLevel(a) == SortByLevel(b)
  {
    SortDescends(a);
    SortDescends(b);
    DistinctLevelsOfPermutation(a, SortByLevel(a));
    DistinctLevelsOfPermutation(a, SortByLevel(b));
    DescendingIsUnique(SortByLevel(a), SortByLevel(b));
  }
}
