/** Database keys and the order std::map keeps them in (rdb/mxrdb.cpp). */
module Keys {
  import opened Bytes

  type Str = seq<byte>

  const SLASH: byte := 47
  const STAR: byte := 42

  /** A key is a C string: it holds no NUL. */
  type Key = s: Str | 0 !in s

  /** The C string at the front of a field: what stands before the first NUL. */
  function CStr(f: seq<byte>): (s: Key)
    ensures s <= f
    ensures 0 in f ==> |s| < |f| && f[|s|] == 0
  {
    if f == [] || f[0] == 0 then [] else [f[0]] + CStr(f[1..])
  }

  lemma {:induction false} CStrStops(k: Key, rest: seq<byte>)
    requires rest != [] && rest[0] == 0
    ensures CStr(k + rest) == k
  {
    if k == [] {
      assert k + rest == rest;
    } else {
      assert (k + rest)[1..] == k[1..] + rest;
      CStrStops(k[1..], rest);
    }
  }

  /** std::string's operator<. */
  predicate Less(a: Str, b: Str) {
    b != [] && (a == [] || a[0] < b[0] || (a[0] == b[0] && Less(a[1..], b[1..])))
  }

  lemma {:induction false} LessIrreflexive(a: Str)
    ensures !Less(a, a)
  {
    if a != [] { LessIrreflexive(a[1..]); }
  }

  lemma {:induction false} LessTransitive(a: Str, b: Str, c: Str)
    requires Less(a, b) && Less(b, c)
    ensures Less(a, c)
  {
    if a != [] && a[0] == b[0] && b[0] == c[0] {
      LessTransitive(a[1..], b[1..], c[1..]);
    }
  }

  lemma {:induction false} LessTotal(a: Str, b: Str)
    ensures a == b || Less(a, b) || Less(b, a)
  {
    if a != [] && b != [] && a[0] == b[0] {
      LessTotal(a[1..], b[1..]);
      assert a == [a[0]] + a[1..] && b == [b[0]] + b[1..];
    }
  }

  predicate Ascending(ks: seq<Key>) {
    forall i, j :: 0 <= i < j < |ks| ==> Less(ks[i], ks[j])
  }

  /** ks lists the keys of s in ascending order: what iterating the std::map visits. */
  ghost predicate InOrder(ks: seq<Key>, s: set<Key>) {
    Ascending(ks) && (forall k :: k in ks <==> k in s)
  }

  lemma {:induction false} LeastKey(s: set<Key>) returns (m: Key)
    requires s != {}
    ensures m in s && forall k :: k in s && k != m ==> Less(m, k)
  {
    var c :| c in s;
    if s == {c} {
      m := c;
    } else {
      assert s - {c} != {};
      var n := LeastKey(s - {c});
      LessTotal(c, n);
      if Less(c, n) {
        m := c;
        forall k | k in s && k != m ensures Less(m, k) {
          if k != n { LessTransitive(c, n, k); }
        }
      } else {
        m := n;
      }
    }
  }

  ghost function Sorted(s: set<Key>): (ks: seq<Key>)
    ensures InOrder(ks, s)
  {
    if s == {} then []
    else
      assert exists m :: m in s && forall k :: k in s && k != m ==> Less(m, k) by { var m := LeastKey(s); }
      var m :| m in s && forall k :: k in s && k != m ==> Less(m, k);
      [m] + Sorted(s - {m})
  }

  lemma {:induction false} InOrderUnique(a: seq<Key>, b: seq<Key>, s: set<Key>)
    requires InOrder(a, s) && InOrder(b, s)
    ensures a == b
  {
    assert forall k :: k in s ==> k in a && k in b;
    assert (a != [] ==> a[0] in s) && (b != [] ==> b[0] in s);
    if a != [] {
      assert a[0] in b && b[0] in a;
      if a[0] != b[0] {
        var i :| 0 <= i < |b| && b[i] == a[0];
        var j :| 0 <= j < |a| && a[j] == b[0];
        assert Less(b[0], a[0]) && Less(a[0], b[0]);
        LessTransitive(a[0], b[0], a[0]);
        LessIrreflexive(a[0]);
        assert false;
      } else {
        InOrderTail(a, s);
        InOrderTail(b, s);
        InOrderUnique(a[1..], b[1..], s - {a[0]});
        assert a == [a[0]] + a[1..] && b == [b[0]] + b[1..];
      }
    }
  }

  lemma InOrderTail(a: seq<Key>, s: set<Key>)
    requires InOrder(a, s) && a != []
    ensures InOrder(a[1..], s - {a[0]})
  {
    LessIrreflexive(a[0]);
    forall k | k in s - {a[0]} ensures k in a[1..] {
      var i :| 0 <= i < |a| && a[i] == k;
      assert a[1..][i - 1] == k;
    }
    forall k | k in a[1..] ensures k in s && k != a[0] {
      var i :| 0 <= i < |a[1..]| && a[1..][i] == k;
      assert a[i + 1] == k && Less(a[0], a[i + 1]);
    }
  }

  lemma Distinct(ks: seq<Key>, s: set<Key>)
    requires InOrder(ks, s)
    ensures forall i, j :: 0 <= i < j < |ks| ==> ks[i] != ks[j]
  {
    hide Less;
    forall i, j | 0 <= i < j < |ks|
      ensures ks[i] != ks[j]
    {
      LessIrreflexive(ks[i]);
    }
  }

  // ----- Prefix range -----

  predicate StartsWith(k: Str, p: Str) {
    |p| <= |k| && k[..|p|] == p
  }

  /** prefix.back()++ */
  function Bump(p: Str): (q: Str)
    requires p != [] && p[|p| - 1] < 255
    ensures |q| == |p|
  {
    p[|p| - 1 := p[|p| - 1] + 1]
  }

  /** The keys from p up to, but not including, Bump(p) are exactly those that start with p. */
  lemma {:induction false} PrefixRange(p: Str, k: Str)
    requires p != [] && p[|p| - 1] < 255
    ensures !Less(k, p) && Less(k, Bump(p)) <==> StartsWith(k, p)
  {
    if |p| == 1 {
      if k != [] {
        assert StartsWith(k, p) <==> k[0] == p[0];
      }
    } else if k != [] {
      PrefixRange(p[1..], k[1..]);
      assert Bump(p)[1..] == Bump(p[1..]) && Bump(p)[0] == p[0];
      if StartsWith(k, p) {
        assert k[0] == k[..|p|][0] && k[1..][..|p| - 1] == k[..|p|][1..];
      }
      if k[0] == p[0] && StartsWith(k[1..], p[1..]) {
        assert k[..|p|] == [k[0]] + k[1..][..|p| - 1];
        assert p == [p[0]] + p[1..];
      }
    }
  }

  /** The first position whose key is not less than x. */
  method LowerBound(ks: seq<Key>, x: Str) returns (i: nat)
    requires Ascending(ks)
    ensures i <= |ks|
    ensures forall j :: 0 <= j < i ==> Less(ks[j], x)
    ensures forall j :: i <= j < |ks| ==> !Less(ks[j], x)
  {
    i := 0;
    while i < |ks| && Less(ks[i], x)
      invariant i <= |ks|
      invariant forall j :: 0 <= j < i ==> Less(ks[j], x)
    {
      i := i + 1;
    }
    forall j | i <= j < |ks| ensures !Less(ks[j], x) {
      if i < j && Less(ks[j], x) { LessTransitive(ks[i], ks[j], x); }
    }
  }

  /** The keys of ks, in their order, that start with p. */
  function Under(ks: seq<Key>, p: Str): (r: seq<Key>)
    ensures forall k :: k in r <==> k in ks && StartsWith(k, p)
  {
    if ks == [] then []
    else (if StartsWith(ks[0], p) then [ks[0]] else []) + Under(ks[1..], p)
  }

  lemma {:induction false} UnderSlice(ks: seq<Key>, p: Str, lo: nat, hi: nat)
    requires lo <= hi <= |ks|
    requires forall j :: 0 <= j < |ks| ==> (StartsWith(ks[j], p) <==> lo <= j < hi)
    ensures Under(ks, p) == ks[lo..hi]
  {
    hide StartsWith;
    if ks != [] {
      var tail := ks[1..];
      var lo', hi' := if lo > 0 then lo - 1 else 0, if hi > 0 then hi - 1 else 0;
      forall j | 0 <= j < |tail|
        ensures StartsWith(tail[j], p) <==> lo' <= j < hi'
      {
        assert tail[j] == ks[j + 1];
      }
      UnderSlice(tail, p, lo', hi');
      SliceOfTail(ks, lo, hi);
    }
  }

  lemma SliceOfTail(ks: seq<Key>, lo: nat, hi: nat)
    requires lo <= hi <= |ks| && ks != []
    ensures lo == 0 < hi ==> ks[lo..hi] == [ks[0]] + ks[1..][..hi - 1]
    ensures lo > 0 ==> ks[lo..hi] == ks[1..][lo - 1..hi - 1]
  {
    var tail := ks[1..];
    if lo > 0 {
      assert forall i :: 0 <= i < hi - lo ==> ks[lo..hi][i] == ks[lo + i] && tail[lo - 1..hi - 1][i] == tail[lo - 1 + i];
    }
  }

  /** Two lower bounds, of the prefix and of the prefix incremented, enclose the keys below the prefix. */
  lemma RangeIsUnder(ks: seq<Key>, p: Str, lo: nat, hi: nat)
    requires p != [] && p[|p| - 1] < 255 && lo <= |ks| && hi <= |ks|
    requires forall j :: 0 <= j < |ks| ==> (Less(ks[j], p) <==> j < lo)
    requires forall j :: 0 <= j < |ks| ==> (Less(ks[j], Bump(p)) <==> j < hi)
    ensures lo <= hi && Under(ks, p) == ks[lo..hi]
  {
    hide Less, Bump, Under;
    if hi < lo {
      PrefixRange(p, p);
      LessIrreflexive(p);
      LessTransitive(ks[hi], p, Bump(p));
    }
    forall j | 0 <= j < |ks|
      ensures StartsWith(ks[j], p) <==> lo <= j < hi
    {
      PrefixRange(p, ks[j]);
    }
    UnderSlice(ks, p, lo, hi);
  }

  /** RdbFindSubkeys: an empty result unless the prefix ends in '/', else the keys below it. */
  method FindSubkeys(ks: seq<Key>, prefix: Str) returns (subkeys: seq<Key>)
    requires Ascending(ks) && prefix != []
    ensures prefix[|prefix| - 1] != SLASH ==> subkeys == []
    ensures prefix[|prefix| - 1] == SLASH ==> subkeys == Under(ks, prefix)
  {
    if prefix[|prefix| - 1] != SLASH {
      return [];
    }
    var lo := LowerBound(ks, prefix);
    var hi := LowerBound(ks, Bump(prefix));
    RangeIsUnder(ks, prefix, lo, hi);
    hide Under, Less, Bump, Ascending;
    subkeys := [];
    var it := lo;
    while it != hi
      invariant lo <= it <= hi
      invariant subkeys == ks[lo..it]
      decreases hi - it
    {
      subkeys := subkeys + [ks[it]];
      it := it + 1;
    }
  }
}
