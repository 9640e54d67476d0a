/** What the real-time database promises its clients: a finite map from keys to typed records
    (rdb/mxrdb.cpp), and the bytes one record occupies in the pool (mxrdb.h). */
module Records {
  import opened Collections
  import opened Bytes
  import opened Keys

  /** sizeof(RdbEntry): a 56-byte lock, two times, flags, the type padded to 8 bytes, size and count. */
  const HEADER: nat := 104

  const CREATED_AT: nat := 56
  const MODIFIED_AT: nat := 64
  const FLAGS_AT: nat := 72
  const TYPE_AT: nat := 80
  const SIZE_AT: nat := 88
  const COUNT_AT: nat := 96

  datatype Record = Record(created: u64, modified: u64, flags: u64, ty: byte, size: u64, count: u64, data: seq<byte>)

  /** RdbTypeSize, by the order of RdbValueType; strings always take their maximal size. */
  function TypeSize(ty: byte): u64 {
    match ty
    case 0 => 1   // INT8
    case 1 => 2   // INT16
    case 2 => 4   // INT32
    case 3 => 8   // INT64
    case 4 => 1   // UINT8
    case 5 => 2   // UINT16
    case 6 => 4   // UINT32
    case 7 => 8   // UINT64
    case 8 => 4   // FLOAT32
    case 9 => 8   // FLOAT64
    case 10 => 512 // STRING
    case 11 => 1  // BOOL
    case _ => 0
  }

  /** RdbCalculateDataSize, in 64-bit arithmetic. */
  function DataSize(count: u64, size: u64): u64 {
    if count > 0 then (count * size) % U64 else size
  }

  predicate WellFormed(r: Record) {
    |r.data| == DataSize(r.count, r.size)
  }

  function Header(r: Record): (h: seq<byte>)
    ensures |h| == HEADER
  {
    Zeros(56) + E64(r.created) + E64(r.modified) + E64(r.flags) + [r.ty] + Zeros(7) + E64(r.size) + E64(r.count)
  }

  function Entry(r: Record): (e: seq<byte>)
    ensures |e| == HEADER + |r.data|
  {
    Header(r) + r.data
  }

  lemma EntryCreated(r: Record)
    ensures D64(Entry(r)[CREATED_AT..MODIFIED_AT]) == r.created
  {
    hide E64, D64;
    assert Entry(r)[CREATED_AT..MODIFIED_AT] == E64(r.created);
    D64E64(r.created);
  }

  lemma EntryFields(r: Record)
    ensures var e := Entry(r);
            && D64(e[MODIFIED_AT..FLAGS_AT]) == r.modified && D64(e[FLAGS_AT..TYPE_AT]) == r.flags
            && e[TYPE_AT] == r.ty && D64(e[SIZE_AT..COUNT_AT]) == r.size && D64(e[COUNT_AT..HEADER]) == r.count
            && e[HEADER..] == r.data
  {
    var e := Entry(r);
    assert e[MODIFIED_AT..FLAGS_AT] == E64(r.modified);
    assert e[FLAGS_AT..TYPE_AT] == E64(r.flags);
    assert e[SIZE_AT..COUNT_AT] == E64(r.size);
    assert e[COUNT_AT..HEADER] == E64(r.count);
    D64E64(r.modified);
    D64E64(r.flags);
    D64E64(r.size);
    D64E64(r.count);
  }

  lemma EntryUpdate(r: Record, modified: u64, data: seq<byte>)
    requires |data| == |r.data|
    ensures Splice(Splice(Entry(r), MODIFIED_AT, E64(modified)), HEADER, data)
            == Entry(r.(modified := modified, data := data))
  {
    assert Splice(Entry(r), MODIFIED_AT, E64(modified)) == Entry(r.(modified := modified));
  }

  lemma EntryFlags(r: Record, flags: u64)
    ensures Splice(Entry(r), FLAGS_AT, E64(flags)) == Entry(r.(flags := flags))
  {
  }

  /** The HISTORY_ENABLED bit, 1 << 1. */
  predicate HistoryOn(flags: u64) {
    (flags / 2) % 2 == 1
  }

  /** RdbSetEntryFlag for HISTORY_ENABLED: only that bit changes. */
  function SetHistory(flags: u64, active: bool): (r: u64)
    ensures HistoryOn(r) == active
    ensures r / 4 == flags / 4 && r % 2 == flags % 2
  {
    if HistoryOn(flags) == active then flags
    else if active then flags + 2
    else flags - 2
  }

  // ----- The map the database implements -----

  type View = map<Key, Record>

  datatype Op =
    | Create(key: Key, ty: byte, count: u64, init: seq<byte>)
    | Delete(key: Key)
    | Write(key: Key, data: seq<byte>)
    | Toggle(key: Key, active: bool)
    | Read(key: Key)
    | TypeOf(key: Key)

  /** A create whose initial bytes are fewer than the entry has. An empty argument is a null pointer: no bytes
      are read for it. */
  predicate Short(op: Op) {
    op.Create? && op.init != [] && |op.init| < DataSize(op.count, TypeSize(op.ty))
  }

  function InitialBytes(ty: byte, count: u64, init: seq<byte>): (b: seq<byte>)
    requires init != [] ==> DataSize(count, TypeSize(ty)) <= |init|
    ensures |b| == DataSize(count, TypeSize(ty))
    ensures forall i :: 0 <= i < |b| ==> b[i] == if init != [] then init[i] else 0
  {
    var n := DataSize(count, TypeSize(ty));
    if init != [] then init[..n] else Zeros(n)
  }

  datatype Reply = Done(ok: bool) | Data(bytes: seq<byte>) | Code(ty: byte)

  /** One request at time `now`; `granted` says whether a create was given space. */
  datatype Request = Request(op: Op, now: u64, granted: bool)

  /** A create that is given space reads its initial bytes: they must be there. */
  predicate Callable(q: Request) {
    q.granted ==> !Short(q.op)
  }

  function Apply(v: View, q: Request): (r: (View, Reply))
    requires Callable(q)
  {
    match q.op
    case Create(key, ty, count, init) =>
      if key in v || !q.granted then (v, Done(false))
      else (v[key := Record(q.now, q.now, 0, ty, TypeSize(ty), count, InitialBytes(ty, count, init))], Done(true))
    case Delete(key) =>
      if key in v then (v - {key}, Done(true)) else (v, Done(false))
    case Write(key, data) =>
      if key in v && |data| == DataSize(v[key].count, v[key].size)
      then (v[key := v[key].(modified := q.now, data := data)], Done(true))
      else (v, Done(false))
    case Toggle(key, active) =>
      if key in v then (v[key := v[key].(flags := SetHistory(v[key].flags, active))], Done(true))
      else (v, Done(false))
    case Read(key) => (v, Data(if key in v then v[key].data else []))
    case TypeOf(key) => (v, Code(if key in v then v[key].ty else 0xFF))
  }

  // ----- What one request does -----

  /** A granted create of a new key stores, at this time, a record of the given type and count without flags, as
      long as count and type say, filled with its initial bytes or with zeros. */
  lemma CreateMeans(v: View, q: Request)
    requires Callable(q) && q.op.Create?
    ensures var (w, reply) := Apply(v, q);
            var k, size := q.op.key, TypeSize(q.op.ty);
            if k !in v && q.granted then
              && reply == Done(true) && k in w && w == v[k := w[k]]
              && var r := w[k];
              && r.created == r.modified == q.now && r.flags == 0 && !HistoryOn(r.flags)
              && r.ty == q.op.ty && r.count == q.op.count && r.size == size
              && |r.data| == (if r.count > 0 then r.count * size % U64 else size)
              && forall i :: 0 <= i < |r.data| ==> r.data[i] == if q.op.init != [] then q.op.init[i] else 0
            else w == v && reply == Done(false)
  {
  }

  lemma DeleteMeans(v: View, q: Request)
    requires Callable(q) && q.op.Delete?
    ensures Apply(v, q) == (v - {q.op.key}, Done(q.op.key in v))
  {
    assert q.op.key !in v ==> v - {q.op.key} == v;
  }

  /** A write of the right length replaces the bytes and the time, and nothing else. */
  lemma WriteMeans(v: View, q: Request)
    requires AllWellFormed(v) && Callable(q) && q.op.Write?
    ensures var (w, reply) := Apply(v, q);
            var k := q.op.key;
            if k in v && |q.op.data| == |v[k].data| then
              && reply == Done(true) && k in w && w == v[k := w[k]]
              && w[k].data == q.op.data && w[k].modified == q.now
              && w[k].created == v[k].created && w[k].flags == v[k].flags
              && w[k].ty == v[k].ty && w[k].size == v[k].size && w[k].count == v[k].count
            else w == v && reply == Done(false)
  {
  }

  /** A toggle sets the history flag as asked, and changes no other flag and no other field. */
  lemma ToggleMeans(v: View, q: Request)
    requires Callable(q) && q.op.Toggle?
    ensures var (w, reply) := Apply(v, q);
            var k := q.op.key;
            if k in v then
              && reply == Done(true) && k in w && w == v[k := w[k]]
              && (w[k].flags / 2 % 2 == 1 <==> q.op.active)
              && w[k].flags / 4 == v[k].flags / 4 && w[k].flags % 2 == v[k].flags % 2
              && w[k] == v[k].(flags := w[k].flags)
            else w == v && reply == Done(false)
  {
  }

  /** Reading the bytes or the type of a key changes nothing. */
  lemma ReadMeans(v: View, q: Request)
    requires Callable(q) && (q.op.Read? || q.op.TypeOf?)
    ensures Apply(v, q).0 == v
    ensures q.op.Read? ==> Apply(v, q).1 == Data(if q.op.key in v then v[q.op.key].data else [])
    ensures q.op.TypeOf? ==> Apply(v, q).1 == Code(if q.op.key in v then v[q.op.key].ty else 255)
  {
  }

  function Run(v: View, qs: seq<Request>): View
    requires forall q :: q in qs ==> Callable(q)
  {
    if qs == [] then v else Apply(Run(v, qs[..|qs| - 1]), qs[|qs| - 1]).0
  }

  // ----- What a reader of one key sees -----

  function Cell(v: View, k: Key): Option<Record> {
    if k in v then Some(v[k]) else None
  }

  function About(qs: seq<Request>, k: Key): (r: seq<Request>)
    ensures forall q :: q in r ==> q in qs && q.op.key == k
  {
    if qs == [] then []
    else
      var l := qs[|qs| - 1];
      About(qs[..|qs| - 1], k) + (if l.op.key == k then [l] else [])
  }

  lemma ApplyOther(v: View, q: Request, k: Key)
    requires Callable(q) && q.op.key != k
    ensures Cell(Apply(v, q).0, k) == Cell(v, k)
  {
  }

  lemma ApplySame(v: View, w: View, q: Request)
    requires Callable(q) && Cell(v, q.op.key) == Cell(w, q.op.key)
    ensures Cell(Apply(v, q).0, q.op.key) == Cell(Apply(w, q).0, q.op.key)
    ensures Apply(v, q).1 == Apply(w, q).1
  {
  }

  /** No operation on one key changes another: the record of k after any run is what the requests
      about k alone produce, from any database that agrees on k. */
  lemma {:induction false} KeysAreIndependent(v: View, w: View, qs: seq<Request>, k: Key)
    requires forall q :: q in qs ==> Callable(q)
    requires Cell(v, k) == Cell(w, k)
    ensures Cell(Run(v, qs), k) == Cell(Run(w, About(qs, k)), k)
  {
    if qs != [] {
      var init, l := qs[..|qs| - 1], qs[|qs| - 1];
      KeysAreIndependent(v, w, init, k);
      var rest := About(init, k);
      if l.op.key == k {
        assert (rest + [l])[..|rest|] == rest;
        ApplySame(Run(v, init), Run(w, rest), l);
      } else {
        ApplyOther(Run(v, init), l, k);
        assert rest + [] == rest;
      }
    }
  }

  /** Whether a request, arriving when k holds `before`, replaces the bytes of k, and by what. */
  function Stores(q: Request, before: Option<seq<byte>>): Option<seq<byte>>
    requires Callable(q)
  {
    match q.op
    case Create(_, ty, count, init) =>
      if before.Some? || !q.granted then None
      else
        var n := if count > 0 then count * TypeSize(ty) % U64 else TypeSize(ty);
        Some(seq(n, i requires 0 <= i < n => if init != [] then init[i] else 0))
    case Write(_, data) => if before.Some? && |before.value| == |data| then Some(data) else None
    case _ => None
  }

  /** The bytes last created or written for k and not deleted since. */
  function LastStored(start: Option<seq<byte>>, qs: seq<Request>, k: Key): Option<seq<byte>>
    requires forall q :: q in qs ==> Callable(q)
  {
    if qs == [] then start
    else
      var l := qs[|qs| - 1];
      var before := LastStored(start, qs[..|qs| - 1], k);
      if l.op.key != k then before
      else if l.op.Delete? then None
      else if Stores(l, before).Some? then Stores(l, before)
      else before
  }

  ghost predicate AllWellFormed(v: View) {
    forall k :: k in v ==> WellFormed(v[k])
  }

  lemma {:induction false} RunWellFormed(v: View, qs: seq<Request>)
    requires AllWellFormed(v) && forall q :: q in qs ==> Callable(q)
    ensures AllWellFormed(Run(v, qs))
  {
    if qs != [] { RunWellFormed(v, qs[..|qs| - 1]); }
  }

  /** A read of k after any run returns exactly the bytes last created or written for k. */
  lemma {:induction false} ReadReturnsLastStored(v: View, qs: seq<Request>, k: Key)
    requires AllWellFormed(v) && forall q :: q in qs ==> Callable(q)
    ensures var start := if k in v then Some(v[k].data) else None;
            var last := LastStored(start, qs, k);
            && (k in Run(v, qs) <==> last.Some?)
            && (last.Some? ==> Run(v, qs)[k].data == last.value)
            && forall now, granted ::
                 Apply(Run(v, qs), Request(Read(k), now, granted)).1 == Data(if last.Some? then last.value else [])
  {
    if qs != [] {
      var init, l := qs[..|qs| - 1], qs[|qs| - 1];
      ReadReturnsLastStored(v, init, k);
      RunWellFormed(v, init);
      if l.op.key != k {
        ApplyOther(Run(v, init), l, k);
      } else if l.op.Create? {
        CreateMeans(Run(v, init), l);
      }
    }
  }
}
