/** The wildcard matcher of watch patterns and key listings (SysMatchPattern, mxsystem.cpp), against the
    language a pattern stands for. */
module Matcher {
  import opened Bytes
  import opened Keys

  // ----- The program -----

  /** find_first_of; |s| where the C++ code gets npos. */
  function IndexOf(s: Str, c: byte): (i: nat)
    ensures i <= |s| && (i < |s| ==> s[i] == c) && c !in s[..i]
  {
    if s == [] then 0
    else if s[0] == c then 0
    else
      var i := IndexOf(s[1..], c);
      assert s[..1 + i] == [s[0]] + s[1..][..i];
      1 + i
  }

  predicate Occurs(t: Str, m: Str, i: nat) {
    i + |m| <= |t| && t[i..i + |m|] == m
  }

  lemma OccursShift(t: Str, m: Str, j: nat)
    requires 1 <= j <= |t| + 1 && t != []
    ensures Occurs(t, m, j) <==> Occurs(t[1..], m, j - 1)
  {
    if j + |m| <= |t| { SliceShift(t, j, |m|); }
  }

  lemma SliceShift(t: Str, j: nat, n: nat)
    requires 1 <= j && j + n <= |t|
    ensures t[j..j + n] == t[1..][j - 1..j - 1 + n]
  {
    var a, b := t[j..j + n], t[1..][j - 1..j - 1 + n];
    forall i | 0 <= i < n
      ensures a[i] == b[i]
    {
      assert a[i] == t[j + i] && b[i] == t[1..][j - 1 + i];
    }
  }

  lemma LaterOccurrences(t: Str, m: Str)
    requires t != []
    ensures forall j :: 1 <= j <= |t| + 1 ==> (Occurs(t, m, j) <==> Occurs(t[1..], m, j - 1))
  {
    hide Occurs;
    forall j | 1 <= j <= |t| + 1
      ensures Occurs(t, m, j) <==> Occurs(t[1..], m, j - 1)
    {
      OccursShift(t, m, j);
    }
  }

  /** std::string::find: the first occurrence; |t| + 1 where the C++ code gets npos. */
  function Find(t: Str, m: Str): (i: nat)
    ensures i == |t| + 1 || Occurs(t, m, i)
    ensures forall j :: 0 <= j < i ==> !Occurs(t, m, j)
  {
    if Occurs(t, m, 0) then 0
    else if t == [] then 1
    else
      var i := Find(t[1..], m);
      LaterOccurrences(t, m);
      1 + i
  }

  function Match(p: Str, t: Str): bool
    decreases |p|
  {
    if p == [SLASH, STAR] then true
    else
      var ks := IndexOf(p, STAR);
      if ks == |p| then p == t
      else if ks > 1 then
        if !StartsWith(t, p[..ks]) then false
        else Match(p[ks - 1..], t[ks - 1..])
      else if ks == 1 then
        var suffix := p[2..];
        var next := IndexOf(suffix, STAR);
        if next < |suffix| then
          var midfix := p[2..2 + next];
          var pos := Find(t, midfix);
          if pos == |t| + 1 then false
          else Match(p[next + 1..], t[pos + |midfix|..])
        else
          |suffix| <= |t| && Find(t, suffix) == |t| - |suffix|
      else false
  }

  // ----- The language -----

  /** A star stands for any string; every other character for itself. */
  ghost predicate Glob(p: Str, t: Str)
    decreases |p|
  {
    if p == [] then t == []
    else if p[0] == STAR then exists i :: 0 <= i <= |t| && Glob(p[1..], t[i..])
    else t != [] && t[0] == p[0] && Glob(p[1..], t[1..])
  }

  /** Patterns the matcher is for: every star directly follows a slash. */
  predicate Slashed(p: Str) {
    forall i :: 0 <= i < |p| && p[i] == STAR ==> i > 0 && p[i - 1] == SLASH
  }

  /** p in which the first star, with the slash before it, stands for nothing. */
  function Collapsed(p: Str): Str
    requires 0 < IndexOf(p, STAR) < |p|
  {
    var k := IndexOf(p, STAR);
    p[..k - 1] + p[k + 1..]
  }

  /** What a pattern is meant to match: its glob language, where the first slash-star-slash may also
      stand for one slash. */
  ghost predicate Language(p: Str, t: Str) {
    || Glob(p, t)
    || (var k := IndexOf(p, STAR);
        0 < k && k + 1 < |p| && p[k + 1] == SLASH && Glob(Collapsed(p), t))
  }

  /** The text after the last star. */
  function Tail(p: Str): Str
    decreases |p|
  {
    var k := IndexOf(p, STAR);
    if k == |p| then p else Tail(p[k + 1..])
  }

  predicate OnlyAtEnd(s: Str, t: Str) {
    forall i :: 0 <= i <= |t| && Occurs(t, s, i) ==> i + |s| == |t|
  }

  /** r is what is left of t for the last star and the tail, once the pieces of q that end at a star
      have been found in t one after another. */
  ghost predicate Rest(q: Str, t: Str, r: Str)
    decreases |q|
  {
    var k := IndexOf(q, STAR);
    if k == |q| then r == t
    else exists i :: 0 <= i <= |t| && Occurs(t, q[..k], i) && Rest(q[k + 1..], t[i + k..], r)
  }

  /** The piece m stands at i, and r is what is left after it. */
  ghost predicate PieceRest(m: Str, q: Str, t: Str, r: Str, i: nat)
  {
    i <= |t| && Occurs(t, m, i) && Rest(q, t[i + |m|..], r)
  }

  // ----- Pieces -----

  lemma {:induction false} LiteralPiece(m: Str, q: Str, t: Str)
    requires STAR !in m
    ensures Glob(m + q, t) <==> StartsWith(t, m) && Glob(q, t[|m|..])
  {
    if m == [] {
      assert m + q == q && t[0..] == t;
    } else {
      assert (m + q)[0] == m[0] && (m + q)[1..] == m[1..] + q;
      if t != [] && t[0] == m[0] {
        LiteralPiece(m[1..], q, t[1..]);
        if |m| <= |t| {
          assert t[..|m|] == [t[0]] + t[1..][..|m| - 1];
          assert t[|m|..] == t[1..][|m| - 1..];
          assert m == [m[0]] + m[1..];
        }
      } else if |m| <= |t| {
        assert t[..|m|][0] == t[0];
      }
    }
  }

  lemma StarGlob(q: Str, t: Str)
    ensures Glob([STAR] + q, t) <==> exists i :: 0 <= i <= |t| && Glob(q, t[i..])
  {
    assert ([STAR] + q)[1..] == q;
  }

  /** A star that finds its continuation in a suffix finds it in the whole string. */
  lemma StarWidens(q: Str, t: Str, j: nat)
    requires j <= |t| && Glob([STAR] + q, t[j..])
    ensures Glob([STAR] + q, t)
  {
    hide Glob;
    StarGlob(q, t);
    StarGlob(q, t[j..]);
    var i :| 0 <= i <= |t[j..]| && Glob(q, t[j..][i..]);
    assert t[j..][i..] == t[j + i..];
  }

  lemma {:induction false} RestWidens(q: Str, t: Str, j: nat, r: Str) returns (w: Str, n: nat)
    requires j <= |t| && Rest(q, t[j..], r)
    ensures Rest(q, t, w) && n <= |w| && w[n..] == r
  {
    var k := IndexOf(q, STAR);
    if k == |q| {
      w, n := t, j;
    } else {
      var i := SomePiece(q, t[j..], r);
      PieceWidens(q[..k], q[k + 1..], t, j, r, i);
      w, n := r, 0;
      assert w[0..] == r;
    }
  }

  lemma SomePiece(q: Str, t: Str, r: Str) returns (i: nat)
    requires Rest(q, t, r) && IndexOf(q, STAR) < |q|
    ensures var k := IndexOf(q, STAR);
            PieceRest(q[..k], q[k + 1..], t, r, i)
  {
    var k := IndexOf(q, STAR);
    i :| 0 <= i <= |t| && Occurs(t, q[..k], i) && Rest(q[k + 1..], t[i + k..], r);
  }

  lemma PieceWidens(m: Str, q: Str, t: Str, j: nat, r: Str, i: nat)
    requires j <= |t| && PieceRest(m, q, t[j..], r, i)
    ensures PieceRest(m, q, t, r, j + i)
  {
    hide Rest;
    var u, k := t[j..], |m|;
    assert t[j + i..j + i + k] == u[i..i + k];
    assert u[i + k..] == t[j + i + k..];
  }

  lemma OnlyAtEndNarrows(s: Str, w: Str, n: nat)
    requires n <= |w| && OnlyAtEnd(s, w)
    ensures OnlyAtEnd(s, w[n..])
  {
    forall i | 0 <= i <= |w[n..]| && Occurs(w[n..], s, i)
      ensures i + |s| == |w[n..]|
    {
      assert w[n + i..n + i + |s|] == w[n..][i..i + |s|];
      assert Occurs(w, s, n + i);
    }
  }

  /** The condition under which the last test, which looks at the first occurrence only, is right. */
  ghost predicate TailUnique(q: Str, t: Str) {
    Tail(q) == [] || forall r :: Rest(q, t, r) ==> OnlyAtEnd(Tail(q), r)
  }

  // ----- After the first star -----

  lemma LastPiece(q: Str, t: Str)
    requires STAR !in q && q != []
    ensures Match([SLASH, STAR] + q, t) <==> Glob([STAR] + q, t) && OnlyAtEnd(q, t)
  {
    var p := [SLASH, STAR] + q;
    assert p[2..] == q;
    FirstStar(q);
    NoStar(q);
    EndsWith(q, t);
    var f := Find(t, q);
    if Match(p, t) {
      forall i | 0 <= i <= |t| && Occurs(t, q, i)
        ensures i + |q| == |t|
      {
        assert f <= i;
      }
    } else if |q| <= |t| && Occurs(t, q, |t| - |q|) {
      assert f <= |t| - |q|;
      assert Occurs(t, q, f);
    }
  }

  lemma FirstStar(q: Str)
    ensures IndexOf([SLASH, STAR] + q, STAR) == 1
  {
    assert ([SLASH, STAR] + q)[1..][0] == STAR;
  }

  lemma NoStar(q: Str)
    requires STAR !in q
    ensures IndexOf(q, STAR) == |q|
  {
  }

  lemma EndsWith(q: Str, t: Str)
    requires STAR !in q
    ensures Glob([STAR] + q, t) <==> |q| <= |t| && Occurs(t, q, |t| - |q|)
  {
    hide Glob, Occurs;
    if Glob([STAR] + q, t) { StarThenEnd(q, t); }
    if |q| <= |t| && Occurs(t, q, |t| - |q|) { EndUnderStar(q, t); }
  }

  lemma StarThenEnd(q: Str, t: Str)
    requires STAR !in q && Glob([STAR] + q, t)
    ensures |q| <= |t| && Occurs(t, q, |t| - |q|)
  {
    hide Glob;
    StarGlob(q, t);
    var i :| 0 <= i <= |t| && Glob(q, t[i..]);
    WholePiece(q, t[i..]);
    assert t[i..] == t[i..i + |q|];
  }

  lemma EndUnderStar(q: Str, t: Str)
    requires STAR !in q && |q| <= |t| && Occurs(t, q, |t| - |q|)
    ensures Glob([STAR] + q, t)
  {
    hide Glob;
    StarGlob(q, t);
    var i := |t| - |q|;
    assert t[i..] == t[i..i + |q|];
    WholePiece(q, t[i..]);
  }

  lemma WholePiece(q: Str, t: Str)
    requires STAR !in q
    ensures Glob(q, t) <==> t == q
  {
    LiteralPiece(q, [], t);
    assert q + [] == q;
  }

  /** The piece m stands at i, and the star after it finds q in what follows. */
  ghost predicate PieceSplits(m: Str, q: Str, t: Str, i: nat) {
    i <= |t| && Occurs(t, m, i) && Glob([STAR] + q, t[i + |m|..])
  }

  /** A star, a piece and another star: the piece must occur, and the rest match after it. */
  lemma MiddlePiece(m: Str, q: Str, t: Str)
    requires STAR !in m
    ensures Glob([STAR] + (m + [STAR] + q), t) <==> exists i: nat :: PieceSplits(m, q, t, i)
  {
    hide Glob, PieceSplits;
    var p := m + [STAR] + q;
    StarGlob(p, t);
    forall i: nat
      ensures i <= |t| && Glob(p, t[i..]) <==> PieceSplits(m, q, t, i)
    {
      if i <= |t| { PieceAt(m, q, t, i); } else { PieceInside(m, q, t, i); }
    }
  }

  lemma PieceInside(m: Str, q: Str, t: Str, i: nat)
    requires i > |t|
    ensures !PieceSplits(m, q, t, i)
  {
  }

  lemma PieceAt(m: Str, q: Str, t: Str, i: nat)
    requires STAR !in m && i <= |t|
    ensures Glob(m + [STAR] + q, t[i..]) <==> PieceSplits(m, q, t, i)
  {
    hide Glob;
    assert m + [STAR] + q == m + ([STAR] + q);
    LiteralPiece(m, [STAR] + q, t[i..]);
    if i + |m| <= |t| {
      assert t[i..][..|m|] == t[i..i + |m|];
      assert t[i..][|m|..] == t[i + |m|..];
    }
  }

  /** From the first star on, the greedy leftmost search decides the language exactly when the tail is
      unique: the leftmost choice of every middle piece loses no match. */
  lemma {:induction false} AfterStar(q: Str, t: Str)
    requires Slashed([SLASH, STAR] + q)
    ensures Match([SLASH, STAR] + q, t) <==> Glob([STAR] + q, t) && TailUnique(q, t)
    decreases |q|
  {
    hide Glob, TailUnique, Slashed, Match;
    var k := IndexOf(q, STAR);
    if q == [] {
      StarOnly(t);
    } else if k == |q| {
      assert q[..k] == q;
      LastPiece(q, t);
      LastTail(q, t);
    } else {
      var m, q' := q[..k], q[k + 1..];
      SlashedRest(q, k);
      assert q == m + [STAR] + q';
      MatchMiddle(q, t);
      var f := Find(t, m);
      MiddlePiece(m, q', t);
      if f <= |t| {
        AfterStar(q', t[f + k..]);
        Leftmost(m, q', t, f);
      }
    }
  }

  lemma StarOnly(t: Str)
    ensures Match([SLASH, STAR] + [], t) && Glob([STAR] + [], t) && TailUnique([], t)
  {
    assert [SLASH, STAR] + [] == [SLASH, STAR];
    StarGlob([], t);
    assert t[|t|..] == [] && Glob([], t[|t|..]);
  }

  lemma LastTail(q: Str, t: Str)
    requires STAR !in q && q != []
    ensures TailUnique(q, t) <==> OnlyAtEnd(q, t)
  {
    NoStar(q);
    assert Rest(q, t, t);
  }

  /** What SysMatchPattern does with a middle piece. */
  lemma MatchMiddle(q: Str, t: Str)
    requires 0 < IndexOf(q, STAR) < |q| && q[IndexOf(q, STAR) - 1] == SLASH
    ensures var k := IndexOf(q, STAR);
            var f := Find(t, q[..k]);
            Match([SLASH, STAR] + q, t) == if f == |t| + 1 then false else Match([SLASH, STAR] + q[k + 1..], t[f + k..])
  {
    hide *;
    var k := IndexOf(q, STAR);
    FirstStar(q);
    Shapes(q, k);
    MatchUnfold([SLASH, STAR] + q, t);
  }

  lemma Shapes(q: Str, k: nat)
    requires 0 < k < |q| && q[k - 1] == SLASH && q[k] == STAR
    ensures var p := [SLASH, STAR] + q;
            |p| == |q| + 2 && p[2..] == q && p[2..2 + k] == q[..k] && p[k + 1..] == [SLASH, STAR] + q[k + 1..]
  {
    var p := [SLASH, STAR] + q;
    assert p[k + 1] == SLASH && p[k + 2] == STAR;
    assert p[2..] == q;
  }

  lemma MatchUnfold(p: Str, t: Str)
    requires IndexOf(p, STAR) == 1 && 2 < |p| && IndexOf(p[2..], STAR) < |p| - 2
    ensures var next := IndexOf(p[2..], STAR);
            var pos := Find(t, p[2..2 + next]);
            Match(p, t) == if pos == |t| + 1 then false else Match(p[next + 1..], t[pos + |p[2..2 + next]|..])
  {
    hide Find, StartsWith, IndexOf;
  }

  lemma SlashedRest(q: Str, k: nat)
    requires Slashed([SLASH, STAR] + q) && k < |q| && q[k] == STAR
    ensures k > 0 && q[k - 1] == SLASH && Slashed([SLASH, STAR] + q[k + 1..])
  {
    var p := [SLASH, STAR] + q;
    assert p[k + 2] == STAR && p[k + 1] == SLASH && p[1] == STAR;
    assert k > 0 && p[k + 1] == q[k - 1];
    var s := [SLASH, STAR] + q[k + 1..];
    forall i | 0 <= i < |s| && s[i] == STAR
      ensures i > 0 && s[i - 1] == SLASH
    {
      if i >= 2 {
        assert s[i] == p[k + 1 + i];
        assert s[i - 1] == (if i == 2 then STAR else p[k + i]);
      }
    }
  }

  /** The exchange argument: any occurrence of a middle piece can be exchanged for the first one. */
  lemma Leftmost(m: Str, q: Str, t: Str, f: nat)
    requires STAR !in m && f <= |t| && Occurs(t, m, f) && forall j :: 0 <= j < f ==> !Occurs(t, m, j)
    ensures var p := m + [STAR] + q;
            Glob([STAR] + q, t[f + |m|..]) && TailUnique(q, t[f + |m|..]) <==> Glob([STAR] + p, t) && TailUnique(p, t)
  {
    MiddlePiece(m, q, t);
    RestLeftmost(m, q, t, f);
    hide Glob, TailUnique;
    if Glob([STAR] + q, t[f + |m|..]) {
      assert PieceSplits(m, q, t, f);
    }
    if i: nat :| PieceSplits(m, q, t, i) {
      Exchange(m, q, t, f, i);
    }
  }

  lemma Exchange(m: Str, q: Str, t: Str, f: nat, i: nat)
    requires f <= |t| && Occurs(t, m, f) && (forall j :: 0 <= j < f ==> !Occurs(t, m, j)) && PieceSplits(m, q, t, i)
    ensures Glob([STAR] + q, t[f + |m|..])
  {
    hide Glob;
    var u := t[f + |m|..];
    assert t[i + |m|..] == u[i - f..];
    StarWidens(q, u, i - f);
  }

  lemma PieceThenStar(m: Str, q: Str)
    requires STAR !in m
    ensures var p := m + [STAR] + q;
            IndexOf(p, STAR) == |m| && p[..|m|] == m && p[|m| + 1..] == q && Tail(p) == Tail(q)
  {
    var p := m + [STAR] + q;
    var k := IndexOf(p, STAR);
    assert p[|m|] == STAR;
    assert forall i :: 0 <= i < |m| ==> p[i] == m[i] && m[i] != STAR;
    assert forall i :: 0 <= i < k ==> p[..k][i] == p[i] && p[i] != STAR;
  }

  lemma RestLeftmost(m: Str, q: Str, t: Str, f: nat)
    requires STAR !in m && f <= |t| && Occurs(t, m, f) && forall j :: 0 <= j < f ==> !Occurs(t, m, j)
    ensures TailUnique(q, t[f + |m|..]) <==> TailUnique(m + [STAR] + q, t)
  {
    hide Rest, OnlyAtEnd, Tail, IndexOf;
    var p := m + [STAR] + q;
    var u := t[f + |m|..];
    PieceThenStar(m, q);
    forall r
      ensures Rest(p, t, r) <==> exists i: nat :: PieceRest(m, q, t, r, i)
    {
      RestOfPiece(m, q, t, r);
    }
    forall r | Rest(q, u, r)
      ensures Rest(p, t, r)
    {
      assert PieceRest(m, q, t, r, f);
    }
    if Tail(q) != [] && TailUnique(q, u) {
      forall r | Rest(p, t, r)
        ensures OnlyAtEnd(Tail(q), r)
      {
        var i: nat :| PieceRest(m, q, t, r, i);
        ExchangeRest(m, q, t, f, i, r);
      }
    }
  }

  lemma ExchangeRest(m: Str, q: Str, t: Str, f: nat, i: nat, r: Str)
    requires f <= |t| && Occurs(t, m, f) && (forall j :: 0 <= j < f ==> !Occurs(t, m, j)) && PieceRest(m, q, t, r, i)
    requires forall w :: Rest(q, t[f + |m|..], w) ==> OnlyAtEnd(Tail(q), w)
    ensures OnlyAtEnd(Tail(q), r)
  {
    hide Rest, OnlyAtEnd, Tail;
    var u := t[f + |m|..];
    assert t[i + |m|..] == u[i - f..];
    var w, n := RestWidens(q, u, i - f, r);
    OnlyAtEndNarrows(Tail(q), w, n);
  }

  lemma RestOfPiece(m: Str, q: Str, t: Str, r: Str)
    requires STAR !in m
    ensures Rest(m + [STAR] + q, t, r) <==> exists i: nat :: PieceRest(m, q, t, r, i)
  {
    hide IndexOf, Tail;
    PieceThenStar(m, q);
    var p := m + [STAR] + q;
    if Rest(p, t, r) {
      var i := SomePiece(p, t, r);
    }
  }

  // ----- Whole patterns -----

  lemma StarStep(q: Str, t: Str)
    requires t != []
    ensures Glob([STAR] + q, t) <==> Glob(q, t) || Glob([STAR] + q, t[1..])
  {
    hide Glob;
    StarGlob(q, t);
    StarGlob(q, t[1..]);
    if Glob([STAR] + q, t) {
      var i :| 0 <= i <= |t| && Glob(q, t[i..]);
      if i == 0 {
        assert t[0..] == t;
      } else {
        assert t[i..] == t[1..][i - 1..];
      }
    }
    if Glob(q, t) { assert t[0..] == t; }
    if Glob([STAR] + q, t[1..]) {
      var i :| 0 <= i <= |t[1..]| && Glob(q, t[1..][i..]);
      assert t[1..][i..] == t[i + 1..];
    }
  }

  /** Keys, and patterns whose first character is a slash before a star, are absolute. */
  predicate Absolute(p: Str, t: Str) {
    IndexOf(p, STAR) == 1 ==> t != [] && t[0] == SLASH
  }

  /** The prefix mode of SysMatchPattern leaves one slash in front of the first star. */
  lemma MatchPrefix(p: Str, t: Str)
    requires Slashed(p) && IndexOf(p, STAR) < |p| && Absolute(p, t)
    ensures var k := IndexOf(p, STAR);
            && k > 0 && p == p[..k - 1] + [SLASH, STAR] + p[k + 1..]
            && (Match(p, t) <==> StartsWith(t, p[..k]) && Match([SLASH, STAR] + p[k + 1..], t[k - 1..]))
  {
    hide Match, Find;
    var k := IndexOf(p, STAR);
    assert p[k] == STAR && p[k - 1] == SLASH;
    assert p[k - 1..] == [SLASH, STAR] + p[k + 1..];
    if k == 1 {
      assert p[..k] == [SLASH];
      assert t[..1] == [SLASH];
      assert t[0..] == t && p[0..] == p;
    } else {
      PrefixMode(p, t);
    }
  }

  lemma PrefixMode(p: Str, t: Str)
    requires 1 < IndexOf(p, STAR) < |p|
    ensures var k := IndexOf(p, STAR);
            Match(p, t) == if !StartsWith(t, p[..k]) then false else Match(p[k - 1..], t[k - 1..])
  {
    hide Find, StartsWith;
  }

  lemma SplitAt(p: Str, k: nat)
    requires k < |p|
    ensures p == p[..k] + ([p[k]] + p[k + 1..])
  {
  }

  lemma SplitAtStar(p: Str, k: nat)
    requires Slashed(p) && k == IndexOf(p, STAR) < |p|
    ensures k > 0 && p[k - 1] == SLASH && p == p[..k] + ([STAR] + p[k + 1..])
    ensures STAR !in p[..k] && STAR !in p[..k - 1]
    ensures Collapsed(p) == p[..k - 1] + p[k + 1..]
  {
    assert p[k] == STAR;
    assert p[k - 1] == SLASH;
    hide IndexOf, Slashed;
    SplitAt(p, k);
    PrefixLacks(p, k);
  }

  lemma PrefixLacks(p: Str, k: nat)
    requires 0 < k <= |p| && STAR !in p[..k]
    ensures STAR !in p[..k - 1]
  {
    assert forall i :: 0 <= i < k - 1 ==> p[..k - 1][i] == p[..k][i];
  }

  /** The language of a pattern, seen from its first star. */
  lemma LanguagePrefix(p: Str, t: Str)
    requires Slashed(p) && IndexOf(p, STAR) < |p|
    ensures var k := IndexOf(p, STAR);
            k > 0 && (Language(p, t) <==> StartsWith(t, p[..k]) && Glob([STAR] + p[k + 1..], t[k - 1..]))
  {
    var k := IndexOf(p, STAR);
    var q := p[k + 1..];
    SplitAtStar(p, k);
    assert q != [] ==> q[0] == p[k + 1] && q[0] != STAR;
    hide Glob, IndexOf, Collapsed, Slashed;
    LiteralPiece(p[..k], [STAR] + q, t);
    LiteralPiece(p[..k - 1], q, t);
    HeadOf(q, t, k - 1);
    PrefixByOne(p, t, k);
    if StartsWith(t, p[..k]) {
      StarStep(q, t[k - 1..]);
      assert t[k - 1..][1..] == t[k..];
    }
  }

  lemma HeadOf(q: Str, t: Str, i: nat)
    requires q != [] ==> q[0] != STAR
    ensures i < |t| && Glob(q, t[i..]) ==> q != [] && t[i] == q[0]
    ensures i <= |t| && q != [] && Glob(q, t[i..]) ==> i < |t|
  {
  }

  lemma PrefixByOne(p: Str, t: Str, k: nat)
    requires 0 < k <= |p|
    ensures StartsWith(t, p[..k]) <==> StartsWith(t, p[..k - 1]) && k <= |t| && t[k - 1] == p[k - 1]
  {
    if k <= |t| {
      assert t[..k] == t[..k - 1] + [t[k - 1]];
      assert p[..k] == p[..k - 1] + [p[k - 1]];
    }
  }

  /** The condition of the exact characterisation, for a whole pattern. */
  ghost predicate TailFits(p: Str, t: Str) {
    var k := IndexOf(p, STAR);
    0 < k < |p| && k - 1 <= |t| ==> TailUnique(p[k + 1..], t[k - 1..])
  }

  /** SysMatchPattern answers yes exactly for the targets in the language of the pattern in whose
      remainder, after the pieces before the last star, the tail of the pattern occurs only at the end. */
  lemma MatchExactly(p: Str, t: Str)
    requires Slashed(p) && Absolute(p, t)
    ensures Match(p, t) <==> Language(p, t) && TailFits(p, t)
  {
    hide Glob, Find, TailUnique;
    var k := IndexOf(p, STAR);
    if k == |p| {
      assert p[..k] == p;
      WholePiece(p, t);
    } else {
      MatchPrefix(p, t);
      LanguagePrefix(p, t);
      if StartsWith(t, p[..k]) {
        var q := p[k + 1..];
        assert Slashed([SLASH, STAR] + q) by { SlashedFrom(p, k); }
        AfterStar(q, t[k - 1..]);
      }
    }
  }

  lemma SlashedFrom(p: Str, k: nat)
    requires Slashed(p) && 0 < k < |p| && p[k] == STAR
    ensures Slashed([SLASH, STAR] + p[k + 1..])
  {
    var s := [SLASH, STAR] + p[k + 1..];
    assert p[k - 1] == SLASH;
    assert forall i :: 0 <= i < |s| ==> s[i] == p[k - 1 + i];
  }

  /** Every match is in the language. */
  lemma MatchSound(p: Str, t: Str)
    requires Slashed(p) && Absolute(p, t) && Match(p, t)
    ensures Language(p, t)
  {
    MatchExactly(p, t);
  }

  /** Where the text after the last star is empty or occurs in the target only at its end, the matcher
      decides the language. */
  lemma MatchDecides(p: Str, t: Str)
    requires Slashed(p) && Absolute(p, t)
    requires Tail(p) == [] || OnlyAtEnd(Tail(p), t)
    ensures Match(p, t) <==> Language(p, t)
  {
    hide Glob, Match, Language;
    MatchExactly(p, t);
    var k := IndexOf(p, STAR);
    if 0 < k < |p| && k - 1 <= |t| && Tail(p) != [] {
      var q := p[k + 1..];
      OnlyAtEndNarrows(Tail(p), t, k - 1);
      forall r | Rest(q, t[k - 1..], r)
        ensures OnlyAtEnd(Tail(q), r)
      {
        var n := RestIsSuffix(q, t[k - 1..], r);
        OnlyAtEndNarrows(Tail(q), t[k - 1..], n);
      }
    }
  }

  lemma {:induction false} RestIsSuffix(q: Str, t: Str, r: Str) returns (n: nat)
    requires Rest(q, t, r)
    ensures n <= |t| && r == t[n..]
    decreases |q|
  {
    var k := IndexOf(q, STAR);
    if k == |q| {
      n := 0;
    } else {
      var i := SomePiece(q, t, r);
      var m := RestIsSuffix(q[k + 1..], t[i + k..], r);
      n := i + k + m;
      assert t[i + k..][m..] == t[n..];
    }
  }

  /** Without that condition the language may hold more: the pattern slash-star-slash-a and the target
      slash-a-slash-a, whose first "/a" is not its last. */
  lemma FirstOccurrenceOnly()
    ensures var p, t: Str := [SLASH, STAR, SLASH, 97], [SLASH, 97, SLASH, 97];
            Slashed(p) && Absolute(p, t) && Language(p, t) && !Match(p, t)
  {
    var p, t: Str := [SLASH, STAR, SLASH, 97], [SLASH, 97, SLASH, 97];
    var s: Str := [SLASH, 97];
    assert p == [SLASH, STAR] + s;
    FirstStar(s);
    LastPiece(s, t);
    assert Occurs(t, s, 0) && !OnlyAtEnd(s, t);
    assert Glob(p, t) by {
      EndsWith(s, t[1..]);
      assert t[1..][1..3] == s;
      assert p[1..] == [STAR] + s;
    }
  }

  /** And the language holds more than the glob: slash-star-slash-a also stands for slash-a. */
  lemma OneSlashForThree()
    ensures var p, t: Str := [SLASH, STAR, SLASH, 97], [SLASH, 97];
            !Glob(p, t) && Language(p, t) && Match(p, t)
  {
    var p, t: Str := [SLASH, STAR, SLASH, 97], [SLASH, 97];
    var s: Str := [SLASH, 97];
    assert p == [SLASH, STAR] + s;
    FirstStar(s);
    LastPiece(s, t);
    EndsWith(s, t);
    assert t[0..2] == s && t[0..] == t;
    assert OnlyAtEnd(s, t);
    EndsWith(s, t[1..]);
    assert p[1..] == [STAR] + s;
    var c := Collapsed(p);
    assert c == s;
    WholePiece(s, t);
  }

  /** RdbListSubkeys: a plain prefix goes to the range query, a pattern filters all keys. */
  method ListSubkeys(ks: seq<Key>, dir: Str) returns (r: seq<Key>)
    requires Ascending(ks) && dir != []
    ensures STAR !in dir && dir[|dir| - 1] == SLASH ==> r == Under(ks, dir)
    ensures STAR !in dir && dir[|dir| - 1] != SLASH ==> r == []
    ensures STAR in dir ==> r == Matching(ks, dir)
  {
    if IndexOf(dir, STAR) == |dir| {
      assert dir[..|dir|] == dir;
      r := FindSubkeys(ks, dir);
      return;
    }
    hide Match, Matching;
    NoneMatching(dir);
    r := [];
    var i := 0;
    while i < |ks|
      invariant i <= |ks|
      invariant r + Matching(ks[i..], dir) == Matching(ks, dir)
    {
      MatchingStep(ks, i, dir);
      if Match(dir, ks[i]) {
        r := r + [ks[i]];
      }
      i := i + 1;
    }
  }

  lemma NoneMatching(p: Str)
    ensures Matching([], p) == []
  {
  }

  lemma MatchingStep(ks: seq<Key>, i: nat, p: Str)
    requires i < |ks|
    ensures Matching(ks[i..], p) == (if Match(p, ks[i]) then [ks[i]] else []) + Matching(ks[i + 1..], p)
  {
    hide Match;
    assert ks[i..][1..] == ks[i + 1..];
  }

  /** The keys of ks, in their order, that the pattern p matches. */
  function Matching(ks: seq<Key>, p: Str): (r: seq<Key>)
    ensures forall k :: k in r <==> k in ks && Match(p, k)
  {
    if ks == [] then []
    else (if Match(p, ks[0]) then [ks[0]] else []) + Matching(ks[1..], p)
  }

  /** The keys a pattern selects come in the order of the keys. */
  lemma {:induction false} MatchingAscends(ks: seq<Key>, p: Str)
    requires Ascending(ks)
    ensures Ascending(Matching(ks, p))
  {
    hide Match, Less;
    if ks != [] {
      MatchingAscends(ks[1..], p);
      var rest := Matching(ks[1..], p);
      forall i | 0 <= i < |rest|
        ensures Less(ks[0], rest[i])
      {
        assert rest[i] in rest;
        var j :| 0 <= j < |ks[1..]| && ks[1..][j] == rest[i];
        assert ks[j + 1] == rest[i];
      }
    }
  }
}
