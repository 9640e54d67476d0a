/** How RPC arguments travel: packed by C++ templates (mxsystem.h), unpacked by code that a generator
    writes (network/mxrpcgen.py), and the reply back (network/rpc.h). */
module Marshal {
  import opened Collections
  import opened Bytes

  /** A parameter type: trivially copyable of a given size, or RPCGenericType. */
  datatype Param = Fixed(size: nat) | Generic

  datatype Arg = FixedArg(bytes: seq<byte>) | GenericArg(bytes: seq<byte>)

  type Signature = seq<Param>

  predicate Fits(p: Param, a: Arg) {
    match p
    case Fixed(n) => a.FixedArg? && |a.bytes| == n
    case Generic => a.GenericArg? && |a.bytes| < U64
  }

  predicate Conforms(sig: Signature, args: seq<Arg>) {
    && |sig| == |args|
    && (forall i :: 0 <= i < |sig| ==> Fits(sig[i], args[i]))
    && Packable(args)
  }

  // ----- Packing -----

  /** Sizes of generic arguments are 64-bit. */
  predicate Sized(a: Arg) {
    a.GenericArg? ==> |a.bytes| < U64
  }

  /** SysPackArguments for one argument. */
  function PackOne(a: Arg): seq<byte>
    requires Sized(a)
  {
    if a.GenericArg? then E64(|a.bytes|) + a.bytes else a.bytes
  }

  predicate Packable(args: seq<Arg>) {
    forall a :: a in args ==> Sized(a)
  }

  function Packed(args: seq<Arg>): seq<byte>
    requires Packable(args)
  {
    if args == [] then [] else PackOne(args[0]) + Packed(args[1..])
  }

  lemma {:induction false} PackedSplit(a: seq<Arg>, b: seq<Arg>)
    requires Packable(a) && Packable(b)
    ensures Packed(a + b) == Packed(a) + Packed(b)
  {
    hide PackOne, Sized;
    if a == [] {
      assert a + b == b;
    } else {
      assert Packable(a[1..]);
      PackedSplit(a[1..], b);
      assert (a + b)[1..] == a[1..] + b;
      assert Packed(a + b) == PackOne(a[0]) + Packed(a[1..] + b);
    }
  }

  lemma PackedUpTo(args: seq<Arg>, i: nat)
    requires Packable(args) && i < |args|
    ensures Sized(args[i]) && Packed(args[..i + 1]) == Packed(args[..i]) + PackOne(args[i])
  {
    assert args[i] in args && args[..i + 1] == args[..i] + [args[i]];
    PackedSplit(args[..i], [args[i]]);
    PackedOne(args[i]);
  }

  lemma PackedOne(a: Arg)
    requires Sized(a)
    ensures Packed([a]) == PackOne(a)
  {
    var one: seq<Arg> := [a];
    assert one[1..] == [];
  }

  /** SysPackArguments: the fold over all arguments. */
  method Pack(args: seq<Arg>) returns (buffer: seq<byte>)
    requires Packable(args)
    ensures buffer == Packed(args)
  {
    buffer := [];
    var i := 0;
    while i < |args|
      invariant i <= |args|
      invariant buffer == Packed(args[..i])
    {
      hide Packed;
      PackedUpTo(args, i);
      if args[i].GenericArg? {
        buffer := buffer + (E64(|args[i].bytes|) + args[i].bytes);
      } else {
        buffer := buffer + args[i].bytes;
      }
      i := i + 1;
    }
    assert args[..i] == args;
  }

  /** sizeof(RPCGenericType): a vector. */
  const GENERIC_OBJECT: nat := 24

  /** SysVargSize, which the caller writes into the frame header before packing. The type of an argument that
      is passed by name is a reference, which SysVargSize does not take for RPCGenericType: such an argument
      counts as the object, not as what it holds. */
  function VargSize(args: seq<Arg>, named: seq<bool>): nat
    requires |named| == |args|
  {
    if args == [] then 0
    else
      (if args[0].FixedArg? then |args[0].bytes|
       else if named[0] then GENERIC_OBJECT
       else |args[0].bytes| + 8) + VargSize(args[1..], named[1..])
  }

  /** How many generic arguments are passed by name. */
  function NamedCount(args: seq<Arg>, named: seq<bool>): nat
    requires |named| == |args|
  {
    if args == [] then 0
    else (if args[0].GenericArg? && named[0] then 1 else 0) + NamedCount(args[1..], named[1..])
  }

  /** The bytes that these take when packed. */
  function NamedBytes(args: seq<Arg>, named: seq<bool>): nat
    requires |named| == |args|
  {
    if args == [] then 0
    else (if args[0].GenericArg? && named[0] then 8 + |args[0].bytes| else 0) + NamedBytes(args[1..], named[1..])
  }

  /** The announced size is the packed size exactly when the generic arguments passed by name take 24 packed
      bytes on average; the difference is that of the two sums. */
  lemma {:induction false} AnnouncedSize(args: seq<Arg>, named: seq<bool>)
    requires Packable(args) && |named| == |args|
    ensures VargSize(args, named) + NamedBytes(args, named) == |Packed(args)| + GENERIC_OBJECT * NamedCount(args, named)
    ensures VargSize(args, named) == |Packed(args)|
            <==> NamedBytes(args, named) == GENERIC_OBJECT * NamedCount(args, named)
    ensures NamedBytes(args, named) <= |Packed(args)| && NamedCount(args, named) <= |args|
  {
    if args != [] { AnnouncedSize(args[1..], named[1..]); }
  }

  // ----- The generator -----

  /** The C++ expressions the generator writes for an offset into the argument buffer: 0, the constant
      o_i, sizeof, a 64-bit load from the buffer, a sum. */
  datatype Expr = Zero | Offset(i: nat) | SizeOf(n: nat) | Load64(at: Expr) | Plus(l: Expr, r: Expr)

  /** The declaration of o_i; `constant` is the keyword constexpr, as opposed to const. */
  datatype Decl = Decl(constant: bool, i: nat, value: Expr)

  /** How the case fetches an argument from the buffer. */
  datatype Access = ReadFixed(at: Expr, n: nat) | ReadGeneric(at: Expr)

  function Place(i: nat): Expr {
    if i == 0 then Zero else Offset(i)
  }

  /** The declaration of o_{i+1}, from parameter i. */
  function DeclFor(p: Param, i: nat): Decl {
    match p
    case Fixed(n) => Decl(true, i + 1, if i == 0 then SizeOf(n) else Plus(Offset(i), SizeOf(n)))
    case Generic => Decl(false, i + 1, if i == 0 then Plus(Load64(Zero), SizeOf(8))
                                       else Plus(Plus(Offset(i), Load64(Offset(i))), SizeOf(8)))
  }

  function AccessFor(p: Param, i: nat): Access {
    match p
    case Fixed(n) => ReadFixed(Place(i), n)
    case Generic => ReadGeneric(Place(i))
  }

  function Decls(sig: Signature): (ds: seq<Decl>)
    ensures |ds| == (if |sig| > 1 then |sig| - 1 else 0)
  {
    seq(if |sig| > 1 then |sig| - 1 else 0, i requires 0 <= i < |sig| => DeclFor(sig[i], i))
  }

  function Accesses(sig: Signature): (xs: seq<Access>)
    ensures |xs| == |sig|
  {
    seq(|sig|, i requires 0 <= i < |sig| => AccessFor(sig[i], i))
  }

  /** _generate_case: one offset for every parameter but the last, then one access for each. */
  method GenerateCase(sig: Signature) returns (decls: seq<Decl>, accesses: seq<Access>)
    ensures decls == Decls(sig) && accesses == Accesses(sig)
  {
    decls, accesses := [], [];
    if |sig| > 1 {
      var i := 0;
      while i < |sig| - 1
        invariant i <= |sig| - 1 && decls == Decls(sig)[..i]
      {
        decls := decls + [DeclFor(sig[i], i)];
        i := i + 1;
      }
    }
    assert Decls(sig)[..|Decls(sig)|] == Decls(sig);
    var i := 0;
    while i < |sig|
      invariant i <= |sig| && accesses == Accesses(sig)[..i]
    {
      accesses := accesses + [AccessFor(sig[i], i)];
      i := i + 1;
    }
  }

  // ----- What the generated code does -----

  /** The value of an offset expression; None where it would read outside the buffer. */
  function Eval(e: Expr, os: map<nat, nat>, buf: seq<byte>): Option<nat> {
    match e
    case Zero => Some(0)
    case Offset(i) => if i in os then Some(os[i]) else None
    case SizeOf(n) => Some(n)
    case Load64(at) =>
      var a := Eval(at, os, buf);
      if a.Some? && a.value + 8 <= |buf| then Some(D64(buf[a.value..a.value + 8])) else None
    case Plus(l, r) =>
      var a, b := Eval(l, os, buf), Eval(r, os, buf);
      if a.Some? && b.Some? then Some(a.value + b.value) else None
  }

  /** The offsets o_1, o_2, … that the declarations define. */
  function Offsets(ds: seq<Decl>, buf: seq<byte>): Option<map<nat, nat>> {
    if ds == [] then Some(map[])
    else
      var os := Offsets(ds[..|ds| - 1], buf);
      var d := ds[|ds| - 1];
      if os.None? then None
      else
        var v := Eval(d.value, os.value, buf);
        if v.None? then None else Some(os.value[d.i := v.value])
  }

  function Fetch(a: Access, os: map<nat, nat>, buf: seq<byte>): Option<Arg> {
    var at := Eval(a.at, os, buf);
    match a
    case ReadFixed(_, n) =>
      if at.Some? && at.value + n <= |buf| then Some(FixedArg(buf[at.value..at.value + n])) else None
    case ReadGeneric(_) =>
      if at.None? || at.value + 8 > |buf| then None
      else
        var size := D64(buf[at.value..at.value + 8]);
        if at.value + 8 + size <= |buf| then Some(GenericArg(buf[at.value + 8..at.value + 8 + size])) else None
  }

  /** The offset of argument i in the packed buffer. */
  function Start(args: seq<Arg>, i: nat): nat
    requires Packable(args) && i <= |args|
  {
    |Packed(args[..i])|
  }

  lemma ArgumentAt(args: seq<Arg>, i: nat)
    requires Packable(args) && i < |args|
    ensures Start(args, i + 1) == Start(args, i) + |PackOne(args[i])| <= |Packed(args)|
    ensures Packed(args)[Start(args, i)..Start(args, i + 1)] == PackOne(args[i])
  {
    hide Packed, PackOne, Sized;
    PackedUpTo(args, i);
    PackableParts(args, i + 1);
    PackedSplit(args[..i + 1], args[i + 1..]);
    assert args == args[..i + 1] + args[i + 1..];
    Middle(Packed(args[..i]), PackOne(args[i]), Packed(args[i + 1..]));
  }

  lemma PackableParts(args: seq<Arg>, i: nat)
    requires Packable(args) && i <= |args|
    ensures Packable(args[..i]) && Packable(args[i..])
  {
  }

  lemma Middle(a: seq<byte>, b: seq<byte>, c: seq<byte>)
    ensures (a + b + c)[|a|..|a + b|] == b
  {
  }

  /** At the place of a generic argument stand its size and then its bytes. */
  lemma GenericAt(args: seq<Arg>, i: nat)
    requires Packable(args) && i < |args| && args[i].GenericArg?
    ensures var s, n, buf := Start(args, i), |args[i].bytes|, Packed(args);
            && s + 8 + n <= |buf| && Start(args, i + 1) == s + 8 + n
            && D64(buf[s..s + 8]) == n && buf[s + 8..s + 8 + n] == args[i].bytes
  {
    hide Packed, D64, E64, Start;
    ArgumentAt(args, i);
    assert Sized(args[i]);
    var s, n := Start(args, i), |args[i].bytes|;
    Prefixed(Packed(args), s, E64(n), args[i].bytes);
    D64E64(n);
  }

  lemma Prefixed(buf: seq<byte>, s: nat, a: seq<byte>, b: seq<byte>)
    requires s + |a + b| <= |buf| && buf[s..s + |a + b|] == a + b
    ensures buf[s..s + |a|] == a && buf[s + |a|..s + |a| + |b|] == b
  {
    assert buf[s..s + |a|] == buf[s..s + |a + b|][..|a|];
    assert buf[s + |a|..s + |a| + |b|] == buf[s..s + |a + b|][|a|..];
  }

  /** The offsets o_1 to o_k are where the packer put the arguments. */
  ghost predicate RightOffsets(args: seq<Arg>, os: map<nat, nat>, k: nat)
    requires Packable(args) && k <= |args|
  {
    forall i :: 1 <= i <= k ==> i in os && os[i] == Start(args, i)
  }

  /** The generated offsets are where the packer put the arguments. */
  lemma {:induction false} OffsetsAreStarts(sig: Signature, args: seq<Arg>, k: nat)
    requires Conforms(sig, args) && k <= |Decls(sig)|
    ensures var os := Offsets(Decls(sig)[..k], Packed(args));
            os.Some? && RightOffsets(args, os.value, k)
  {
    if k > 0 {
      OffsetsAreStarts(sig, args, k - 1);
      var ds := Decls(sig)[..k];
      assert ds[..k - 1] == Decls(sig)[..k - 1];
      assert ds[k - 1] == DeclFor(sig[k - 1], k - 1);
      var os := Offsets(ds[..k - 1], Packed(args)).value;
      assert Fits(sig[k - 1], args[k - 1]);
      assert k > 1 ==> k - 1 in os && os[k - 1] == Start(args, k - 1);
      hide Packed, Start, Eval, Fits, Packable, Offsets, RightOffsets;
      NextOffset(sig[k - 1], args, k - 1, os);
      LastOffset(ds, Packed(args));
      OneMoreOffset(args, os, k);
    }
  }

  lemma OneMoreOffset(args: seq<Arg>, os: map<nat, nat>, k: nat)
    requires Packable(args) && 1 <= k <= |args| && RightOffsets(args, os, k - 1)
    ensures RightOffsets(args, os[k := Start(args, k)], k)
  {
    hide Start;
  }

  lemma LastOffset(ds: seq<Decl>, buf: seq<byte>)
    requires ds != []
    ensures var os, d := Offsets(ds[..|ds| - 1], buf), ds[|ds| - 1];
            os.Some? && Eval(d.value, os.value, buf).Some? ==>
              Offsets(ds, buf) == Some(os.value[d.i := Eval(d.value, os.value, buf).value])
  {
    hide Eval;
  }

  lemma NextOffset(p: Param, args: seq<Arg>, i: nat, os: map<nat, nat>)
    requires Packable(args) && i < |args| && Fits(p, args[i])
    requires i > 0 ==> i in os && os[i] == Start(args, i)
    ensures Eval(DeclFor(p, i).value, os, Packed(args)) == Some(Start(args, i + 1))
  {
    hide Packed, PackOne, D64, E64, Start, Packable;
    var buf := Packed(args);
    StartStep(args, i);
    PlaceEval(args, i, os, buf);
    if p.Generic? {
      GenericAt(args, i);
      assert Eval(Load64(Place(i)), os, buf) == Some(|args[i].bytes|);
      if i > 0 {
        assert Eval(Plus(Offset(i), Load64(Offset(i))), os, buf) == Some(Start(args, i) + |args[i].bytes|);
      }
    }
  }

  lemma StartStep(args: seq<Arg>, i: nat)
    requires Packable(args) && i < |args|
    ensures args[i].FixedArg? ==> Start(args, i + 1) == Start(args, i) + |args[i].bytes| <= |Packed(args)|
                                  && Packed(args)[Start(args, i)..Start(args, i + 1)] == args[i].bytes
    ensures Start(args, 0) == 0
  {
    ArgumentAt(args, i);
    assert args[..0] == [];
  }

  lemma PlaceEval(args: seq<Arg>, i: nat, os: map<nat, nat>, buf: seq<byte>)
    requires Packable(args) && i < |args|
    requires i > 0 ==> i in os && os[i] == Start(args, i)
    ensures Eval(Place(i), os, buf) == Some(Start(args, i))
  {
    assert args[..0] == [];
  }

  lemma FetchAt(p: Param, args: seq<Arg>, i: nat, os: map<nat, nat>)
    requires Packable(args) && i < |args| && Fits(p, args[i])
    requires i > 0 ==> i in os && os[i] == Start(args, i)
    ensures Fetch(AccessFor(p, i), os, Packed(args)) == Some(args[i])
  {
    hide Packed, PackOne, D64, E64, Eval, Start, Packable, Place, Fetch;
    PlaceEval(args, i, os, Packed(args));
    if p.Generic? {
      FetchGeneric(args, i, os);
    } else {
      FetchFixed(args, i, os);
    }
  }

  lemma FetchFixed(args: seq<Arg>, i: nat, os: map<nat, nat>)
    requires Packable(args) && i < |args| && args[i].FixedArg?
    requires Eval(Place(i), os, Packed(args)) == Some(Start(args, i))
    ensures Fetch(ReadFixed(Place(i), |args[i].bytes|), os, Packed(args)) == Some(args[i])
  {
    hide Packed, PackOne, D64, E64, Eval, Start, Packable, Place;
    StartStep(args, i);
  }

  lemma FetchGeneric(args: seq<Arg>, i: nat, os: map<nat, nat>)
    requires Packable(args) && i < |args| && args[i].GenericArg?
    requires Eval(Place(i), os, Packed(args)) == Some(Start(args, i))
    ensures Fetch(ReadGeneric(Place(i)), os, Packed(args)) == Some(args[i])
  {
    hide Packed, PackOne, D64, E64, Eval, Start, Packable, Place;
    GenericAt(args, i);
  }

  /** For every signature, evaluating the generated accesses on the packed buffer yields the arguments. */
  lemma DispatcherInvertsPacking(sig: Signature, args: seq<Arg>)
    requires Conforms(sig, args)
    ensures var os := Offsets(Decls(sig), Packed(args));
            && os.Some?
            && forall i :: 0 <= i < |sig| ==> Fetch(Accesses(sig)[i], os.value, Packed(args)) == Some(args[i])
  {
    hide Eval, Packed, Fetch, Offsets;
    var n := |Decls(sig)|;
    OffsetsAreStarts(sig, args, n);
    assert Decls(sig)[..n] == Decls(sig);
    var os := Offsets(Decls(sig), Packed(args)).value;
    forall i | 0 <= i < |sig|
      ensures Fetch(Accesses(sig)[i], os, Packed(args)) == Some(args[i])
    {
      assert Fits(sig[i], args[i]);
      FetchAt(sig[i], args, i, os);
    }
  }

  // ----- A buffer cut short -----

  /** What evaluates on a prefix of a buffer evaluates to the same on all of it. */
  lemma {:induction false} EvalPrefix(e: Expr, os: map<nat, nat>, buf: seq<byte>, k: nat)
    requires k <= |buf|
    ensures Eval(e, os, buf[..k]).Some? ==> Eval(e, os, buf) == Eval(e, os, buf[..k])
  {
    hide D64;
    match e
    case Zero =>
    case Offset(_) =>
    case SizeOf(_) =>
    case Load64(at) =>
      EvalPrefix(at, os, buf, k);
      var a := Eval(at, os, buf[..k]);
      if a.Some? && a.value + 8 <= k { assert buf[..k][a.value..a.value + 8] == buf[a.value..a.value + 8]; }
    case Plus(l, r) =>
      EvalPrefix(l, os, buf, k);
      EvalPrefix(r, os, buf, k);
  }

  lemma {:induction false} OffsetsPrefix(ds: seq<Decl>, buf: seq<byte>, k: nat)
    requires k <= |buf|
    ensures Offsets(ds, buf[..k]).Some? ==> Offsets(ds, buf) == Offsets(ds, buf[..k])
  {
    hide Eval;
    if ds != [] {
      var n := |ds| - 1;
      OffsetsPrefix(ds[..n], buf, k);
      var os := Offsets(ds[..n], buf[..k]);
      if os.Some? { EvalPrefix(ds[n].value, os.value, buf, k); }
    }
  }

  /** On a packed buffer cut short anywhere, the last argument is not recovered. */
  lemma CutLosesLast(sig: Signature, args: seq<Arg>, k: nat)
    requires Conforms(sig, args) && k < |Packed(args)|
    ensures sig != []
    ensures var os, last := Offsets(Decls(sig), Packed(args)[..k]), |sig| - 1;
            os.Some? ==> Fetch(Accesses(sig)[last], os.value, Packed(args)[..k]) != Some(args[last])
  {
    assert sig != [];
    hide Packed, Eval, Offsets, Fetch, Start, Packable;
    var buf, last, n := Packed(args), |sig| - 1, |Decls(sig)|;
    OffsetsPrefix(Decls(sig), buf, k);
    OffsetsAreStarts(sig, args, n);
    assert Decls(sig)[..n] == Decls(sig) && Fits(sig[last], args[last]);
    var os := Offsets(Decls(sig), buf[..k]);
    if os.Some? { LastIsCut(sig[last], args, os.value, k); }
  }

  lemma LastIsCut(p: Param, args: seq<Arg>, os: map<nat, nat>, k: nat)
    requires Packable(args) && args != [] && k < |Packed(args)| && Fits(p, args[|args| - 1])
    requires var i := |args| - 1; i > 0 ==> i in os && os[i] == Start(args, i)
    ensures Fetch(AccessFor(p, |args| - 1), os, Packed(args)[..k]) != Some(args[|args| - 1])
  {
    var i := |args| - 1;
    ArgumentAt(args, i);
    assert args[..i + 1] == args;
    assert Start(args, i) + |PackOne(args[i])| == |Packed(args)|;
    PlaceEval(args, i, os, Packed(args)[..k]);
    hide Packed, D64, E64, Eval, Start, Packable;
  }

  // ----- Whether the generated code compiles -----

  /** What C++ accepts as the initialiser of a constexpr: no load, no offset that is only const. */
  predicate IsConstant(e: Expr, constants: set<nat>) {
    match e
    case Zero => true
    case SizeOf(_) => true
    case Offset(i) => i in constants
    case Load64(_) => false
    case Plus(l, r) => IsConstant(l, constants) && IsConstant(r, constants)
  }

  function Constants(ds: seq<Decl>): set<nat> {
    set d | d in ds && d.constant :: d.i
  }

  predicate Compiles(ds: seq<Decl>) {
    forall i :: 0 <= i < |ds| && ds[i].constant ==> IsConstant(ds[i].value, Constants(ds[..i]))
  }

  /** The generated offsets compile exactly for signatures in which no fixed-size parameter other than the
      last one comes after a generic parameter. */
  lemma CompilesExactly(sig: Signature)
    ensures Compiles(Decls(sig)) <==>
            forall i, j :: 0 <= i < j < |sig| - 1 && sig[i].Generic? ==> sig[j].Generic?
  {
    var ds := Decls(sig);
    forall j | 0 <= j < |ds|
      ensures IsConstant(ds[j].value, Constants(ds[..j])) || !ds[j].constant <==> j == 0 || !(sig[j].Fixed? && sig[j - 1].Generic?)
    {
      ConstantAt(sig, j);
    }
    if Compiles(ds) {
      forall k | 1 <= k < |sig| - 1 && sig[k].Fixed?
        ensures sig[k - 1].Fixed?
      {
        assert ds[k].constant && IsConstant(ds[k].value, Constants(ds[..k]));
      }
      forall i, j | 0 <= i < j < |sig| - 1 && sig[i].Generic?
        ensures sig[j].Generic?
      {
        GenericRun(sig, i, j);
      }
    }
    if forall i, j :: 0 <= i < j < |sig| - 1 && sig[i].Generic? ==> sig[j].Generic? {
      forall j | 0 <= j < |ds| && ds[j].constant
        ensures IsConstant(ds[j].value, Constants(ds[..j]))
      {
        assert j > 0 ==> !sig[j - 1].Generic?;
      }
    }
  }

  lemma ConstantAt(sig: Signature, j: nat)
    requires j < |Decls(sig)|
    ensures var d := Decls(sig)[j];
            var constants := Constants(Decls(sig)[..j]);
            IsConstant(d.value, constants) || !d.constant <==> j == 0 || !(sig[j].Fixed? && sig[j - 1].Generic?)
  {
    var ds := Decls(sig);
    if j > 0 && sig[j].Fixed? {
      assert ds[j].value == Plus(Offset(j), SizeOf(sig[j].size));
      assert ds[..j][j - 1] == DeclFor(sig[j - 1], j - 1);
      assert forall i :: 0 <= i < j ==> ds[..j][i] == DeclFor(sig[i], i);
    }
  }

  lemma {:induction false} GenericRun(sig: Signature, i: nat, j: nat)
    requires i < j < |sig| - 1 && sig[i].Generic?
    requires forall k :: 1 <= k < |sig| - 1 && sig[k].Fixed? ==> sig[k - 1].Fixed?
    ensures sig[j].Generic?
    decreases j - i
  {
    if i + 1 < j { GenericRun(sig, i, j - 1); }
  }

  // ----- Replies -----

  /** What the generated case leaves in retbuf. */
  function Reply(a: Option<Arg>): seq<byte>
    requires a.Some? ==> Sized(a.value)
  {
    if a.None? then [] else PackOne(a.value)
  }

  /** RPCClientThread::call: how the caller reads the reply for its return type. */
  function ReadReply(p: Param, payload: seq<byte>): Option<Arg> {
    match p
    case Fixed(n) => if n <= |payload| then Some(FixedArg(payload[..n])) else None
    case Generic =>
      if |payload| < 8 then None
      else
        var size := D64(payload[..8]);
        if 8 + size <= |payload| then Some(GenericArg(payload[8..8 + size])) else None
  }

  lemma ReplyRoundTrip(p: Param, a: Arg)
    requires Fits(p, a)
    ensures Reply(None) == []
    ensures ReadReply(p, Reply(Some(a))) == Some(a)
    ensures Reply(Some(a)) == [] <==> p == Fixed(0)
  {
    var r := Reply(Some(a));
    if p.Generic? {
      D64E64(|a.bytes|);
      assert r[..8] == E64(|a.bytes|);
      assert r[8..8 + |a.bytes|] == a.bytes;
    } else {
      assert r[..p.size] == r;
    }
  }

  // ----- The template unpacker -----

  function UnpackOne(p: Param, buf: seq<byte>): Option<Arg> {
    match p
    case Fixed(n) => Some(FixedArg(if |buf| < n then Zeros(n) else buf[..n]))
    case Generic =>
      if |buf| < 8 then None
      else
        var size := D64(buf[..8]);
        if 8 + size <= |buf| then Some(GenericArg(buf[8..8 + size])) else None
  }

  /** SysUnpackArguments: after a generic argument that is not the last it steps over as many bytes as
      the argument has, without its size prefix. None where it would read outside the buffer. */
  function Unpack(sig: Signature, buf: seq<byte>): Option<seq<Arg>>
    requires sig != []
  {
    var a := UnpackOne(sig[0], buf);
    if a.None? then None
    else if |sig| == 1 then Some([a.value])
    else
      var step := if sig[0].Generic? then |a.value.bytes| else sig[0].size;
      if |buf| < step then None
      else
        var rest := Unpack(sig[1..], buf[step..]);
        if rest.None? then None else Some([a.value] + rest.value)
  }

  /** SysUnpackArguments inverts the packing of every argument list exactly for signatures whose generic
      parameter, if any, comes last. */
  lemma UnpackInvertsExactly(sig: Signature)
    requires sig != [] && forall p :: p in sig ==> p != Fixed(0)
    ensures (forall args :: Conforms(sig, args) ==> Unpack(sig, Packed(args)) == Some(args))
            <==> forall i :: 0 <= i < |sig| - 1 ==> sig[i].Fixed?
  {
    if forall i :: 0 <= i < |sig| - 1 ==> sig[i].Fixed? {
      forall args | Conforms(sig, args)
        ensures Unpack(sig, Packed(args)) == Some(args)
      {
        UnpackInverts(sig, args);
      }
    } else {
      var args := UnpackFails(sig);
    }
  }

  lemma UnpackFixed(sig: Signature, buf: seq<byte>)
    requires |sig| > 1 && sig[0].Fixed? && sig[0].size <= |buf|
    ensures var n := sig[0].size;
            var rest := Unpack(sig[1..], buf[n..]);
            Unpack(sig, buf) == if rest.None? then None else Some([FixedArg(buf[..n])] + rest.value)
  {
  }

  lemma {:induction false} UnpackInverts(sig: Signature, args: seq<Arg>)
    requires sig != [] && Conforms(sig, args)
    requires forall i :: 0 <= i < |sig| - 1 ==> sig[i].Fixed?
    ensures Unpack(sig, Packed(args)) == Some(args)
  {
    var buf, rest := Packed(args), args[1..];
    assert Fits(sig[0], args[0]) && args == [args[0]] + rest;
    assert buf == PackOne(args[0]) + Packed(rest);
    if |sig| == 1 {
      assert rest == [] && buf == PackOne(args[0]);
      ReplyRoundTrip(sig[0], args[0]);
      assert sig[0].Fixed? ==> buf[..sig[0].size] == buf;
      assert Unpack(sig, buf) == Some([args[0]]);
      assert args == [args[0]];
    } else {
      assert buf[..sig[0].size] == args[0].bytes;
      assert buf[sig[0].size..] == Packed(rest);
      ConformsTail(sig, args);
      UnpackInverts(sig[1..], rest);
      UnpackFixed(sig, buf);
    }
  }

  lemma ConformsTail(sig: Signature, args: seq<Arg>)
    requires sig != [] && Conforms(sig, args)
    ensures Conforms(sig[1..], args[1..])
  {
    forall j | 0 <= j < |sig[1..]|
      ensures Fits(sig[1..][j], args[1..][j])
    {
      assert Fits(sig[j + 1], args[j + 1]);
    }
  }

  /** An argument of zeros. */
  function Plain(p: Param): (a: Arg)
    ensures Fits(p, a)
  {
    if p.Fixed? then FixedArg(Zeros(p.size)) else GenericArg([])
  }

  /** An argument that begins with a 1. */
  function Marked(p: Param): (a: Arg)
    requires p != Fixed(0)
    ensures Fits(p, a)
  {
    if p.Fixed? then FixedArg([1] + Zeros(p.size - 1)) else GenericArg([1])
  }

  lemma {:induction false} PlainArgs(sig: Signature) returns (args: seq<Arg>)
    ensures Conforms(sig, args)
  {
    args := [];
    if sig != [] {
      var rest := PlainArgs(sig[1..]);
      args := [Plain(sig[0])] + rest;
      ConformsCons(sig, Plain(sig[0]), rest);
    }
  }

  lemma ConformsCons(sig: Signature, a: Arg, rest: seq<Arg>)
    requires sig != [] && Fits(sig[0], a) && Conforms(sig[1..], rest)
    ensures Conforms(sig, [a] + rest)
    ensures Packed([a] + rest) == PackOne(a) + Packed(rest)
  {
    var args := [a] + rest;
    assert args[1..] == rest;
    assert forall i :: 1 <= i < |sig| ==> sig[i] == sig[1..][i - 1] && args[i] == rest[i - 1];
  }

  /** An empty generic argument before another one: the next argument is read from the size prefix. */
  lemma {:induction false} UnpackFails(sig: Signature) returns (args: seq<Arg>)
    requires sig != [] && (forall p :: p in sig ==> p != Fixed(0))
    requires exists i :: 0 <= i < |sig| - 1 && sig[i].Generic?
    ensures Conforms(sig, args) && Unpack(sig, Packed(args)) != Some(args)
  {
    if sig[0].Fixed? {
      var i :| 0 <= i < |sig| - 1 && sig[i].Generic?;
      assert sig[1..][i - 1].Generic?;
      assert forall p :: p in sig[1..] ==> p in sig;
      var rest := UnpackFails(sig[1..]);
      var a := Plain(sig[0]);
      args := [a] + rest;
      ConformsCons(sig, a, rest);
      assert Packed(args)[sig[0].size..] == Packed(rest);
      assert args[1..] == rest;
      UnpackFixed(sig, Packed(args));
      var r := Unpack(sig, Packed(args));
      assert r.Some? ==> r.value[1..] == Unpack(sig[1..], Packed(rest)).value;
    } else {
      var p := sig[1];
      assert p in sig && sig[1..][0] == p;
      var tail := PlainArgs(sig[1..][1..]);
      ConformsCons(sig[1..], Marked(p), tail);
      var rest := [Marked(p)] + tail;
      args := [GenericArg([])] + rest;
      ConformsCons(sig, GenericArg([]), rest);
      MisreadsPrefix(sig, args, Packed(rest));
    }
  }

  lemma MisreadsPrefix(sig: Signature, args: seq<Arg>, more: seq<byte>)
    requires |sig| > 1 && |args| == |sig| && sig[0].Generic? && sig[1] != Fixed(0) && args[1] == Marked(sig[1])
    requires sig[1].Fixed? ==> sig[1].size <= |more|
    ensures Unpack(sig, E64(0) + [] + more) != Some(args)
  {
    var buf := E64(0) + [] + more;
    D64E64(0);
    assert buf[..8] == E64(0);
    assert buf[0..] == buf;
    assert sig[1..][0] == sig[1];
    var u := UnpackOne(sig[1], buf);
    assert E64(0)[0] == 0;
    assert u.Some? && u.value != args[1] by {
      if sig[1].Fixed? {
        assert buf[..sig[1].size][0] == 0;
      }
    }
    var r := Unpack(sig[1..], buf);
    assert r.Some? ==> r.value[0] == u.value;
  }
}
