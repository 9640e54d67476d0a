/** Permission masks (mxrdb.h) as the code generator computes them (network/mxrpcgen.py): 128 bits in two
    words, tested for inclusion. */
module Permissions {
  /** 1 << i in 64 bits; 0 once the bit has left the word. */
  function Mask(i: nat): bv64 {
    if i == 0 then 1 else Next(Mask(i - 1))
  }

  function Next(m: bv64): bv64 { m << 1 }

  predicate Bit(m: bv64, i: nat) {
    Meets(m, Mask(i))
  }

  // ----- Words: facts about 64-bit operations, by their names -----

  predicate Meets(x: bv64, y: bv64) { x & y != 0 }

  predicate Included(x: bv64, y: bv64) { x & y == x }

  predicate Single(m: bv64) { m & (m - 1) == 0 }

  /** All bits of x are below the single bit m. */
  predicate Below(x: bv64, m: bv64) { x & (m - 1) == x }

  /** No bit of x is below the single bit m. */
  predicate ClearBelow(x: bv64, m: bv64) { x & (m - 1) == 0 }

  function Union(x: bv64, y: bv64): bv64 { x | y }

  function Minus(x: bv64, y: bv64): bv64 { x & !y }

  lemma NextSingle(m: bv64)
    requires Single(m)
    ensures Single(Next(m)) && Below(m, Next(m))
  {
  }

  lemma NextLow(m: bv64)
    requires Single(m)
    ensures ((m - 1) | m) == Next(m) - 1
  {
  }

  lemma NextClear(d: bv64, m: bv64)
    requires Single(m) && ClearBelow(d, m) && !Meets(d, m)
    ensures ClearBelow(d, Next(m))
  {
    NextLow(m);
  }

  lemma NextBelow(x: bv64, m: bv64)
    requires Single(m) && Below(x, m)
    ensures Below(x, Next(m))
  {
  }

  lemma BelowMisses(x: bv64, m: bv64)
    requires Single(m) && Below(x, m)
    ensures !Meets(x, m)
  {
  }

  lemma MeetsBoth(x: bv64, m: bv64)
    requires Meets(x, m)
    ensures Meets(m, x)
  {
  }

  lemma OneFacts(d: bv64)
    ensures Single(1) && ClearBelow(d, 1)
    ensures ClearBelow(d, 0) ==> d == 0
    ensures !Meets(0, d)
    ensures Meets(d, d) <==> d != 0
  {
  }

  lemma UnionMisses(x: bv64, y: bv64, m: bv64)
    requires !Meets(x, m) && !Meets(y, m)
    ensures !Meets(Union(x, y), m)
  {
  }

  lemma LeftMeets(x: bv64, y: bv64, m: bv64)
    requires Meets(x, m)
    ensures Meets(Union(x, y), m)
  {
  }

  lemma RightMeets(x: bv64, y: bv64, m: bv64)
    requires Meets(y, m)
    ensures Meets(Union(x, y), m)
  {
  }

  lemma IncludedMeets(a: bv64, b: bv64, m: bv64)
    requires Included(a, b) && Meets(a, m)
    ensures Meets(b, m)
  {
  }

  lemma Uncovered(a: bv64, b: bv64)
    requires !Included(a, b)
    ensures Minus(a, b) != 0
  {
  }

  lemma MinusMeets(a: bv64, b: bv64, m: bv64)
    requires Single(m) && Meets(Minus(a, b), m)
    ensures Meets(a, m) && !Meets(b, m)
  {
  }

  lemma EightShifts(m: bv64)
    ensures Next(Next(Next(Next(Next(Next(Next(Next(m)))))))) == m << 8
  {
  }

  // ----- Masks -----

  lemma EightMore(i: nat)
    ensures Mask(i + 8) == Mask(i) << 8
  {
    hide Next;
    var a, b, c, d := Mask(i + 1), Mask(i + 2), Mask(i + 3), Mask(i + 4);
    var e, f, g := Mask(i + 5), Mask(i + 6), Mask(i + 7);
    assert a == Next(Mask(i)) && b == Next(a) && c == Next(b) && d == Next(c);
    assert e == Next(d) && f == Next(e) && g == Next(f) && Mask(i + 8) == Next(g);
    EightShifts(Mask(i));
  }

  lemma Masks()
    ensures Mask(56) == 0x100_0000_0000_0000 && Mask(64) == 0
  {
    EightMore(0); EightMore(8); EightMore(16); EightMore(24);
    EightMore(32); EightMore(40); EightMore(48); EightMore(56);
  }

  lemma {:induction false} MaskSingle(i: nat)
    ensures Single(Mask(i))
  {
    hide Single, Next;
    OneFacts(0);
    if i > 0 {
      MaskSingle(i - 1);
      NextSingle(Mask(i - 1));
    }
  }

  lemma NextOfZero()
    ensures Next(0) == 0
  {
  }

  lemma {:induction false} ZeroFrom(i: nat, j: nat)
    requires Mask(i) == 0 && i <= j
    ensures Mask(j) == 0
    decreases j
  {
    hide Next;
    if i < j {
      ZeroFrom(i, j - 1);
      NextOfZero();
    }
  }

  lemma MaskNonZero(i: nat)
    requires i < 64
    ensures Mask(i) != 0
  {
    hide Next;
    if Mask(i) == 0 {
      ZeroFrom(i, 63);
      TopMask();
    }
  }

  lemma TopMask()
    ensures Mask(63) != 0
  {
    Masks();
    hide Next;
    var m := Mask(56);
    var a, b, c, d, e, f := Mask(57), Mask(58), Mask(59), Mask(60), Mask(61), Mask(62);
    assert a == Next(m) && b == Next(a) && c == Next(b) && d == Next(c) && e == Next(d) && f == Next(e) && Mask(63) == Next(f);
    SevenShifts(m);
  }

  lemma SevenShifts(m: bv64)
    requires m == 0x100_0000_0000_0000
    ensures Next(Next(Next(Next(Next(Next(Next(m))))))) != 0
  {
  }

  lemma {:induction false} NoLowBits(d: bv64, k: nat)
    requires forall i :: 0 <= i < k ==> !Bit(d, i)
    ensures ClearBelow(d, Mask(k))
  {
    hide Meets, ClearBelow, Next, Single;
    if k > 0 {
      NoLowBits(d, k - 1);
      MaskSingle(k - 1);
      assert !Bit(d, k - 1);
      NextClear(d, Mask(k - 1));
    } else {
      OneFacts(d);
    }
  }

  lemma SomeBit(d: bv64) returns (i: nat)
    requires d != 0
    ensures i < 64 && Bit(d, i)
  {
    hide Bit, ClearBelow, Next;
    if forall j :: 0 <= j < 64 ==> !Bit(d, j) {
      NoLowBits(d, 64);
      Masks();
      OneFacts(d);
    }
    i :| 0 <= i < 64 && Bit(d, i);
  }

  /** The inclusion test of one word is inclusion of its bits. */
  lemma WordSubset(a: bv64, b: bv64)
    ensures Included(a, b) <==> forall i :: 0 <= i < 64 && Bit(a, i) ==> Bit(b, i)
  {
    hide Included, Meets, Minus, Next, Single, Mask;
    if Included(a, b) {
      forall i | 0 <= i < 64 && Bit(a, i) ensures Bit(b, i) { IncludedMeets(a, b, Mask(i)); }
    } else {
      Uncovered(a, b);
      var i := SomeBit(Minus(a, b));
      MaskSingle(i);
      MinusMeets(a, b, Mask(i));
      assert Bit(a, i) && !Bit(b, i);
    }
  }

  /** A mask lies below every later one. */
  lemma {:induction false} MaskBelow(i: nat, k: nat)
    requires i < k
    ensures Below(Mask(i), Mask(k))
    decreases k
  {
    hide Below, Meets, Single, Next;
    MaskSingle(k - 1);
    if i < k - 1 {
      MaskBelow(i, k - 1);
      NextBelow(Mask(i), Mask(k - 1));
    } else {
      NextSingle(Mask(i));
    }
  }

  lemma BitOfMask(i: nat, j: nat)
    requires i < 64 && j < 64
    ensures Bit(Mask(i), j) <==> i == j
  {
    hide Below, Meets, Single, Next, Mask;
    MaskSingle(i);
    MaskSingle(j);
    if i == j {
      MaskNonZero(i);
      OneFacts(Mask(i));
    } else if i < j {
      MaskBelow(i, j);
      BelowMisses(Mask(i), Mask(j));
    } else {
      MaskBelow(j, i);
      BelowMisses(Mask(j), Mask(i));
      if Meets(Mask(i), Mask(j)) { MeetsBoth(Mask(i), Mask(j)); }
    }
  }

  /** Setting bit i of a word. */
  lemma SetBit(m: bv64, i: nat, j: nat)
    requires i < 64 && j < 64
    ensures Bit(Union(m, Mask(i)), j) <==> Bit(m, j) || i == j
  {
    hide Meets, Mask, Union;
    BitOfMask(i, j);
    if Bit(m, j) {
      LeftMeets(m, Mask(i), Mask(j));
    } else if Bit(Mask(i), j) {
      RightMeets(m, Mask(i), Mask(j));
    } else {
      UnionMisses(m, Mask(i), Mask(j));
    }
  }

  lemma NoneSet(j: nat)
    ensures !Bit(0, j)
  {
    hide Meets, Mask;
    OneFacts(Mask(j));
  }

  // ----- Two words -----

  /** Permission i is in the mask. */
  predicate Has(hi: bv64, lo: bv64, i: nat) {
    if i < 64 then Bit(lo, i) else i < 128 && Bit(hi, i - 64)
  }

  /** The mask stands for a set of permission numbers. */
  ghost predicate StandsFor(hi: bv64, lo: bv64, s: set<nat>) {
    (forall i :: i in s ==> i < 128) && forall i :: 0 <= i < 128 ==> (Has(hi, lo, i) <==> i in s)
  }

  class PdbPermissions {
    var lo: bv64
    var hi: bv64

    constructor (hi: bv64, lo: bv64)
      ensures this.hi == hi && this.lo == lo
    {
      this.hi, this.lo := hi, lo;
    }

    /** test(hi, lo) */
    predicate TestAll(hi: bv64, lo: bv64)
      reads this
    {
      Included(hi, this.hi) && Included(lo, this.lo)
    }

    /** test(i) */
    predicate Test(i: nat)
      reads this
      requires i < 128
    {
      if i < 64 then Meets(lo, Mask(i)) else Meets(hi, Mask(i - 64))
    }

    method Set(i: nat)
      requires i < 128
      modifies this
      ensures forall j :: 0 <= j < 128 ==> (Test(j) <==> old(Test(j)) || j == i)
    {
      hide Meets, Mask, Union;
      if i < 64 {
        lo := Union(lo, Mask(i));
      } else {
        hi := Union(hi, Mask(i - 64));
      }
      forall j | 0 <= j < 128
        ensures Test(j) <==> old(Test(j)) || j == i
      {
        if i < 64 && j < 64 {
          SetBit(old(lo), i, j);
        } else if i >= 64 && j >= 64 {
          SetBit(old(hi), i - 64, j - 64);
        }
      }
    }
  }

  /** The two-word test of a required mask against a role's mask is inclusion of the sets they stand for. */
  lemma TestIsSubset(p: PdbPermissions, role: set<nat>, hi: bv64, lo: bv64, required: set<nat>)
    requires StandsFor(p.hi, p.lo, role) && StandsFor(hi, lo, required)
    ensures p.TestAll(hi, lo) <==> required <= role
  {
    hide Included, Bit;
    WordSubset(hi, p.hi);
    WordSubset(lo, p.lo);
    if p.TestAll(hi, lo) {
      forall i | i in required
        ensures i in role
      {
        assert Has(hi, lo, i) && Has(p.hi, p.lo, i);
      }
    }
    if required <= role {
      forall i | 0 <= i < 64
        ensures Bit(lo, i) ==> Bit(p.lo, i)
        ensures Bit(hi, i) ==> Bit(p.hi, i)
      {
        assert Has(hi, lo, i) ==> Has(p.hi, p.lo, i);
        assert Has(hi, lo, i + 64) ==> Has(p.hi, p.lo, i + 64);
      }
    }
  }

  // ----- The generator -----

  type Name = string

  /** The numbers of some permission names. */
  ghost function Numbers(permap: map<Name, nat>, names: seq<Name>): set<nat>
    requires forall n :: n in names ==> n in permap
  {
    set n | n in names :: permap[n]
  }

  /** _calculate_permission: the mask of a list of permission names. */
  method CalculatePermission(permap: map<Name, nat>, names: seq<Name>) returns (hi: bv64, lo: bv64)
    requires forall n :: n in names ==> n in permap && permap[n] < 128
    ensures StandsFor(hi, lo, Numbers(permap, names))
    ensures forall i :: 0 <= i < 128 ==> (Has(hi, lo, i) <==> exists n :: n in names && permap[n] == i)
  {
    hide Bit, Mask, Union;
    lo, hi := 0, 0;
    forall j ensures !Bit(0, j) { NoneSet(j); }
    var k := 0;
    while k < |names|
      invariant k <= |names|
      invariant StandsFor(hi, lo, Numbers(permap, names[..k]))
    {
      var i := permap[names[k]];
      ghost var h, l := hi, lo;
      if i < 64 {
        lo := Union(lo, Mask(i));
      } else {
        hi := Union(hi, Mask(i - 64));
      }
      MaskGrows(h, l, hi, lo, i, Numbers(permap, names[..k]));
      assert Numbers(permap, names[..k + 1]) == Numbers(permap, names[..k]) + {i} by {
        assert names[..k + 1] == names[..k] + [names[k]];
      }
      k := k + 1;
    }
    assert names[..k] == names;
  }

  lemma MaskGrows(h: bv64, l: bv64, hi: bv64, lo: bv64, i: nat, s: set<nat>)
    requires i < 128 && StandsFor(h, l, s)
    requires if i < 64 then lo == Union(l, Mask(i)) && hi == h else hi == Union(h, Mask(i - 64)) && lo == l
    ensures StandsFor(hi, lo, s + {i})
  {
    hide Bit, Mask, Union;
    forall j | 0 <= j < 128
      ensures Has(hi, lo, j) <==> j in s + {i}
    {
      assert Has(h, l, j) <==> j in s;
      if i < 64 && j < 64 {
        SetBit(l, i, j);
      } else if i >= 64 && j >= 64 {
        SetBit(h, i - 64, j - 64);
      }
    }
  }

  /** One case of the generated check: a method with its required mask. */
  datatype Case = Case(pid: nat, hi: bv64, lo: bv64)

  /** PdbCheckMethodPermissions, as generated: permission 0 opens everything; a known method is open when
      it requires nothing or its mask is included; an unknown method is closed. */
  predicate CheckMethod(cases: seq<Case>, pid: nat, perm: PdbPermissions)
    reads perm
  {
    perm.Test(0) || CheckCases(cases, pid, perm)
  }

  predicate CheckCases(cases: seq<Case>, pid: nat, perm: PdbPermissions)
    reads perm
  {
    cases != [] &&
    if cases[0].pid == pid then (cases[0].hi == 0 && cases[0].lo == 0) || perm.TestAll(cases[0].hi, cases[0].lo)
    else CheckCases(cases[1..], pid, perm)
  }

  /** _generate_perm_lookup: one case for each method, from the names it requires. */
  method GenerateCases(permap: map<Name, nat>, methods: seq<(nat, seq<Name>)>) returns (cases: seq<Case>)
    requires forall i :: 0 <= i < |methods| ==> forall n :: n in methods[i].1 ==> n in permap && permap[n] < 128
    ensures |cases| == |methods|
    ensures forall i :: 0 <= i < |methods| ==>
              && cases[i].pid == methods[i].0
              && StandsFor(cases[i].hi, cases[i].lo, Numbers(permap, methods[i].1))
  {
    hide StandsFor;
    cases := [];
    var i := 0;
    while i < |methods|
      invariant i == |cases| <= |methods|
      invariant forall j :: 0 <= j < i ==>
                  && cases[j].pid == methods[j].0
                  && StandsFor(cases[j].hi, cases[j].lo, Numbers(permap, methods[j].1))
    {
      var hi, lo := CalculatePermission(permap, methods[i].1);
      cases := cases + [Case(methods[i].0, hi, lo)];
      i := i + 1;
    }
  }

  /** The generated check is true for a known method exactly when the role has permission 0 or every
      permission the method requires; for an unknown method exactly when the role has permission 0. */
  lemma {:induction false} CheckIsSubset(cases: seq<Case>, required: seq<set<nat>>, pid: nat, perm: PdbPermissions, role: set<nat>)
    requires |required| == |cases| && StandsFor(perm.hi, perm.lo, role)
    requires forall i :: 0 <= i < |cases| ==> StandsFor(cases[i].hi, cases[i].lo, required[i])
    requires forall i, j :: 0 <= i < j < |cases| ==> cases[i].pid != cases[j].pid
    ensures CheckMethod(cases, pid, perm) <==>
            0 in role || exists i :: 0 <= i < |cases| && cases[i].pid == pid && required[i] <= role
  {
    hide Meets, Mask;
    assert perm.Test(0) <==> 0 in role by { assert Has(perm.hi, perm.lo, 0) <==> 0 in role; }
    CheckCasesIsSubset(cases, required, pid, perm, role);
  }

  lemma {:induction false} CheckCasesIsSubset(cases: seq<Case>, required: seq<set<nat>>, pid: nat, perm: PdbPermissions, role: set<nat>)
    requires |required| == |cases| && StandsFor(perm.hi, perm.lo, role)
    requires forall i :: 0 <= i < |cases| ==> StandsFor(cases[i].hi, cases[i].lo, required[i])
    requires forall i, j :: 0 <= i < j < |cases| ==> cases[i].pid != cases[j].pid
    ensures CheckCases(cases, pid, perm) <==>
            exists i :: 0 <= i < |cases| && cases[i].pid == pid && required[i] <= role
  {
    hide StandsFor;
    if cases != [] {
      if cases[0].pid == pid {
        TestIsSubset(perm, role, cases[0].hi, cases[0].lo, required[0]);
        if cases[0].hi == 0 && cases[0].lo == 0 { ZeroMask(required[0]); }
      } else {
        CheckCasesIsSubset(cases[1..], required[1..], pid, perm, role);
        if exists i :: 0 <= i < |cases| && cases[i].pid == pid && required[i] <= role {
          var i :| 0 <= i < |cases| && cases[i].pid == pid && required[i] <= role;
          assert cases[1..][i - 1] == cases[i] && required[1..][i - 1] == required[i];
        }
        if exists i :: 0 <= i < |cases[1..]| && cases[1..][i].pid == pid && required[1..][i] <= role {
          var i :| 0 <= i < |cases[1..]| && cases[1..][i].pid == pid && required[1..][i] <= role;
          assert cases[i + 1].pid == pid && required[i + 1] <= role;
        }
      }
    }
  }

  lemma ZeroMask(s: set<nat>)
    requires StandsFor(0, 0, s)
    ensures s == {}
  {
    forall i | 0 <= i < 128
      ensures !Has(0, 0, i)
    {
      NoneSet(if i < 64 then i else i - 64);
    }
  }

  // ----- The whole table -----

  /** Every permission that is named has a number below 128. */
  predicate Known(permap: map<Name, nat>, names: seq<Name>) {
    forall n :: n in names ==> n in permap && permap[n] < 128
  }

  /** The permissions of a role: those of its first entry in the table, none for an unknown role. */
  ghost function RoleNumbers(permap: map<Name, nat>, roles: seq<(Name, seq<Name>)>, role: Name): set<nat>
    requires forall i :: 0 <= i < |roles| ==> Known(permap, roles[i].1)
  {
    if roles == [] then {}
    else if roles[0].0 == role then
      assert Known(permap, roles[0].1);
      Numbers(permap, roles[0].1)
    else RoleNumbers(permap, roles[1..], role)
  }

  /** Entry i is the first of the role, and lists a permission with number k. */
  ghost predicate Lists(permap: map<Name, nat>, roles: seq<(Name, seq<Name>)>, role: Name, k: nat, i: nat) {
    && i < |roles| && roles[i].0 == role && (forall j :: 0 <= j < i ==> roles[j].0 != role)
    && exists n :: n in roles[i].1 && n in permap && permap[n] == k
  }

  lemma ListsLater(permap: map<Name, nat>, roles: seq<(Name, seq<Name>)>, role: Name, k: nat, i: nat)
    requires roles != [] && roles[0].0 != role
    ensures !Lists(permap, roles, role, k, 0)
    ensures Lists(permap, roles, role, k, i + 1) <==> Lists(permap, roles[1..], role, k, i)
  {
    var rest := roles[1..];
    assert forall j :: 0 <= j < |rest| ==> rest[j] == roles[j + 1];
    assert forall j :: 1 <= j < |roles| ==> roles[j] == rest[j - 1];
  }

  /** Permission k belongs to a role exactly when the first entry of that name lists a permission with this
      number. */
  lemma {:induction false} RoleHasExactly(permap: map<Name, nat>, roles: seq<(Name, seq<Name>)>, role: Name, k: nat)
    requires forall i :: 0 <= i < |roles| ==> Known(permap, roles[i].1)
    ensures k in RoleNumbers(permap, roles, role) <==> exists i :: Lists(permap, roles, role, k, i)
  {
    if roles == [] {
    } else if roles[0].0 == role {
      assert Known(permap, roles[0].1);
      assert k in Numbers(permap, roles[0].1) <==> Lists(permap, roles, role, k, 0);
    } else {
      RoleHasExactly(permap, roles[1..], role, k);
      hide Lists;
      if i: nat :| Lists(permap, roles, role, k, i) {
        ListsLater(permap, roles, role, k, if i > 0 then i - 1 else 0);
      }
      if i: nat :| Lists(permap, roles[1..], role, k, i) {
        ListsLater(permap, roles, role, k, i);
      }
    }
  }

  /** The generated role table and PdbGetUserPermissions: the mask of a role. */
  method GetUserPermissions(permap: map<Name, nat>, roles: seq<(Name, seq<Name>)>, role: Name) returns (perm: PdbPermissions)
    requires forall i :: 0 <= i < |roles| ==> Known(permap, roles[i].1)
    ensures fresh(perm) && StandsFor(perm.hi, perm.lo, RoleNumbers(permap, roles, role))
    ensures forall i :: 0 <= i < |roles| && roles[i].0 == role && (forall j :: 0 <= j < i ==> roles[j].0 != role) ==>
              forall k :: 0 <= k < 128 ==> (perm.Test(k) <==> exists n :: n in roles[i].1 && n in permap && permap[n] == k)
    ensures (forall i :: 0 <= i < |roles| ==> roles[i].0 != role) ==> forall k :: 0 <= k < 128 ==> !perm.Test(k)
  {
    var i := 0;
    assert roles[0..] == roles;
    while i < |roles|
      invariant i <= |roles| && RoleNumbers(permap, roles, role) == RoleNumbers(permap, roles[i..], role)
      invariant forall j :: 0 <= j < i ==> roles[j].0 != role
    {
      assert roles[i..][1..] == roles[i + 1..];
      if roles[i].0 == role {
        assert Known(permap, roles[i].1);
        var hi, lo := CalculatePermission(permap, roles[i].1);
        perm := new PdbPermissions(hi, lo);
        hide Bit, Mask, Meets;
        assert forall k :: 0 <= k < 128 ==> (perm.Test(k) <==> Has(hi, lo, k)) by { TestIsHas(perm); }
        return;
      }
      i := i + 1;
    }
    hide Bit, Mask, Meets;
    forall j ensures !Bit(0, j) { NoneSet(j); }
    perm := new PdbPermissions(0, 0);
    TestIsHas(perm);
  }

  lemma TestIsHas(p: PdbPermissions)
    ensures forall k :: 0 <= k < 128 ==> (p.Test(k) <==> Has(p.hi, p.lo, k))
  {
    hide Mask, Meets;
  }

  /** From the tables of permissions, roles and methods to the decision: a role may call a method exactly when
      it has permission 0, or the method is known and the role has every permission it requires. */
  method MayCall(permap: map<Name, nat>, roles: seq<(Name, seq<Name>)>, methods: seq<(nat, seq<Name>)>, role: Name, pid: nat)
    returns (ok: bool)
    requires forall i :: 0 <= i < |roles| ==> Known(permap, roles[i].1)
    requires forall i :: 0 <= i < |methods| ==> Known(permap, methods[i].1)
    requires forall i, j :: 0 <= i < j < |methods| ==> methods[i].0 != methods[j].0
    ensures ok <==>
            || HasPermission(permap, roles, role, 0)
            || exists i :: 0 <= i < |methods| && methods[i].0 == pid
                           && forall n :: n in methods[i].1 && n in permap ==> HasPermission(permap, roles, role, permap[n])
    ensures forall i :: 0 <= i < |roles| && roles[i].0 == role && (forall j :: 0 <= j < i ==> roles[j].0 != role) ==>
              (ok <==>
                || (exists m :: m in roles[i].1 && m in permap && permap[m] == 0)
                || exists h :: 0 <= h < |methods| && methods[h].0 == pid
                               && forall n :: n in methods[h].1 && n in permap ==>
                                    exists m :: m in roles[i].1 && m in permap && permap[m] == permap[n])
    ensures (forall i :: 0 <= i < |roles| ==> roles[i].0 != role) ==>
              (ok <==> exists h :: 0 <= h < |methods| && methods[h].0 == pid && methods[h].1 == [])
  {
    var perm := GetUserPermissions(permap, roles, role);
    var cases := GenerateCases(permap, methods);
    ok := CheckMethod(cases, pid, perm);
    hide StandsFor, CheckMethod;
    ghost var required := seq(|methods|, i requires 0 <= i < |methods| => assert Known(permap, methods[i].1); Numbers(permap, methods[i].1));
    CheckIsSubset(cases, required, pid, perm, RoleNumbers(permap, roles, role));
    MayCallMeans(permap, roles, methods, role, pid, cases, required, ok);
    FirstEntryDecides(permap, roles, methods, role, pid, ok);
  }

  /** The first entry of the role lists a permission with number k. */
  ghost predicate HasPermission(permap: map<Name, nat>, roles: seq<(Name, seq<Name>)>, role: Name, k: nat) {
    exists i :: Lists(permap, roles, role, k, i)
  }

  /** The decision, by the sets of numbers and by the names in the tables. */
  lemma MayCallMeans(permap: map<Name, nat>, roles: seq<(Name, seq<Name>)>, methods: seq<(nat, seq<Name>)>, role: Name, pid: nat,
                     cases: seq<Case>, required: seq<set<nat>>, ok: bool)
    requires forall i :: 0 <= i < |roles| ==> Known(permap, roles[i].1)
    requires |required| == |cases| == |methods|
    requires forall i :: 0 <= i < |methods| ==>
               Known(permap, methods[i].1) && cases[i].pid == methods[i].0 && required[i] == Numbers(permap, methods[i].1)
    requires ok <==> 0 in RoleNumbers(permap, roles, role)
                     || exists i :: 0 <= i < |cases| && cases[i].pid == pid && required[i] <= RoleNumbers(permap, roles, role)
    ensures ok <==>
            || HasPermission(permap, roles, role, 0)
            || exists i :: 0 <= i < |methods| && methods[i].0 == pid
                           && forall n :: n in methods[i].1 && n in permap ==> HasPermission(permap, roles, role, permap[n])
  {
    var granted := RoleNumbers(permap, roles, role);
    forall k: nat ensures k in granted <==> HasPermission(permap, roles, role, k) { RoleHasExactly(permap, roles, role, k); }
    hide RoleNumbers, HasPermission;
    forall i | 0 <= i < |methods|
      ensures required[i] <= granted <==>
              forall n :: n in methods[i].1 && n in permap ==> HasPermission(permap, roles, role, permap[n])
    {
      assert Known(permap, methods[i].1);
      if required[i] <= granted {
        forall n | n in methods[i].1 && n in permap
          ensures HasPermission(permap, roles, role, permap[n])
        {
          assert permap[n] in required[i];
        }
      }
    }
  }

  lemma OnlyFirst(permap: map<Name, nat>, roles: seq<(Name, seq<Name>)>, role: Name, k: nat, i: nat)
    requires i < |roles| && roles[i].0 == role && (forall j :: 0 <= j < i ==> roles[j].0 != role)
    ensures HasPermission(permap, roles, role, k) <==> exists m :: m in roles[i].1 && m in permap && permap[m] == k
  {
    assert Lists(permap, roles, role, k, i) <==> exists m :: m in roles[i].1 && m in permap && permap[m] == k;
    if h: nat :| Lists(permap, roles, role, k, h) {
      assert !(h < i);
      assert !(i < h);
    }
  }

  lemma FirstEntryDecides(permap: map<Name, nat>, roles: seq<(Name, seq<Name>)>, methods: seq<(nat, seq<Name>)>, role: Name, pid: nat, ok: bool)
    requires forall i :: 0 <= i < |methods| ==> Known(permap, methods[i].1)
    requires ok <==>
             || HasPermission(permap, roles, role, 0)
             || exists i :: 0 <= i < |methods| && methods[i].0 == pid
                            && forall n :: n in methods[i].1 && n in permap ==> HasPermission(permap, roles, role, permap[n])
    ensures forall i :: 0 <= i < |roles| && roles[i].0 == role && (forall j :: 0 <= j < i ==> roles[j].0 != role) ==>
              (ok <==>
                || (exists m :: m in roles[i].1 && m in permap && permap[m] == 0)
                || exists h :: 0 <= h < |methods| && methods[h].0 == pid
                               && forall n :: n in methods[h].1 && n in permap ==>
                                    exists m :: m in roles[i].1 && m in permap && permap[m] == permap[n])
    ensures (forall i :: 0 <= i < |roles| ==> roles[i].0 != role) ==>
              (ok <==> exists h :: 0 <= h < |methods| && methods[h].0 == pid && methods[h].1 == [])
  {
    forall i | 0 <= i < |roles| && roles[i].0 == role && (forall j :: 0 <= j < i ==> roles[j].0 != role)
      ensures forall k: nat :: HasPermission(permap, roles, role, k) <==> exists m :: m in roles[i].1 && m in permap && permap[m] == k
    {
      forall k: nat
        ensures HasPermission(permap, roles, role, k) <==> exists m :: m in roles[i].1 && m in permap && permap[m] == k
      {
        OnlyFirst(permap, roles, role, k, i);
      }
    }
    if forall i :: 0 <= i < |roles| ==> roles[i].0 != role {
      forall h | 0 <= h < |methods|
        ensures (forall n :: n in methods[h].1 && n in permap ==> HasPermission(permap, roles, role, permap[n])) <==> methods[h].1 == []
      {
        assert Known(permap, methods[h].1);
        if methods[h].1 != [] { assert methods[h].1[0] in methods[h].1; }
      }
    }
  }
}
