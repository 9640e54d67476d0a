/** Whole runs of the real-time database: one request after another (network/rpc.cpp dispatches them,
    rdb/mxrdb.cpp serves them), with the history log beside it. */
module Server {
  import opened Collections
  import opened Bytes
  import opened Keys
  import opened Records
  import opened Rdb
  import opened Extents
  import History
  import Pool

  /** A request, with the largest pool the system allocator still provides when it arrives. */
  datatype Call = Call(op: Op, now: u64, limit: u64)

  /** Keys travel in a field of 512 bytes, terminator included. */
  predicate Proper(c: Call) {
    |c.op.key| < History.KEY_FIELD
  }

  // ----- What the server does, as a function of what it holds -----

  /** The records, the pool they live in, and where. */
  datatype Store = Store(view: View, pool: Pool.Pool, at: Places)

  predicate NewKey(s: Store, c: Call) {
    c.op.Create? && c.op.key !in s.view
  }

  /** Whether a create is given space: exactly when its key is new and the allocator has room. */
  predicate Granted(s: Store, c: Call)
    requires s.pool.size > 0
  {
    NewKey(s, c) && Pool.Allocate(s.pool, EntrySize(c.op), c.limit).1.At?
  }

  /** The request as the map of module Records sees it. */
  function RequestOf(s: Store, c: Call): Request
    requires s.pool.size > 0
  {
    Request(c.op, c.now, if c.op.Create? then Granted(s, c) else true)
  }

  /** Where the C++ program would leave its buffers: a create that overruns the pool or reads past its
      initial bytes, or a write whose history record is larger than the history buffer. */
  predicate Undefined(s: Store, c: Call, capacity: nat)
    requires s.pool.size > 0
  {
    || (NewKey(s, c) && CreationFor(s.pool, c.op, c.limit).Overran?)
    || Spills(s.view, c.op, capacity)
  }

  /** The guards, as a caller could check them before the request. */
  lemma UndefinedExactly(s: Store, c: Call, capacity: nat)
    requires s.pool.size > 0
    ensures Undefined(s, c, capacity) <==>
            || (c.op.Create? && c.op.key !in s.view &&
                var n := DataSize(c.op.count, TypeSize(c.op.ty));
                (|| s.pool.offset + HEADER + n >= U64
                 || (Pool.FirstFit(s.pool.free, HEADER + n) == |s.pool.free|
                     && s.pool.size < s.pool.offset && 2 * s.pool.size <= c.limit)
                 || (Granted(s, c) && c.op.init != [] && |c.op.init| < n)))
            || (c.op.Write? && c.op.key in s.view &&
                var r := s.view[c.op.key];
                |c.op.data| == DataSize(r.count, r.size) && r.flags / 2 % 2 == 1 && History.RECORD + |c.op.data| > capacity)
  {
    hide Pool.Allocate, Pool.FirstFit;
    if NewKey(s, c) { Pool.OverrunExactly(s.pool, EntrySize(c.op), c.limit); }
  }

  /** When a create is granted space: its key is new, and the allocator has room for header and data. */
  lemma GrantedWhen(s: Store, c: Call)
    requires s.pool.size > 0 && c.op.Create?
    ensures var total := HEADER + DataSize(c.op.count, TypeSize(c.op.ty));
            RequestOf(s, c).granted <==>
              && c.op.key !in s.view
              && s.pool.offset + total < U64
              && (|| Pool.FirstFit(s.pool.free, total) < |s.pool.free|
                  || s.pool.offset + total <= s.pool.size
                  || (s.pool.offset <= s.pool.size && Pool.Reachable(s.pool.size, s.pool.offset + total, c.limit)))
  {
    hide Pool.Allocate, Pool.FirstFit, Pool.Reachable;
    Pool.GrantedExactly(s.pool, EntrySize(c.op), c.limit);
  }

  /** One such request, in any store: a new key of 2^64 - 1 one-byte values. The C++ sum of header and data
      wraps to 103 bytes. */
  lemma HugeCount(s: Store, key: Key, now: u64, limit: u64, capacity: nat)
    requires s.pool.size > 0 && key !in s.view
    ensures Undefined(s, Call(Create(key, 4, U64 - 1, []), now, limit), capacity)
    ensures EntrySize(Create(key, 4, U64 - 1, [])) % U64 == 103
  {
    UndefinedExactly(s, Call(Create(key, 4, U64 - 1, []), now, limit), capacity);
  }

  /** Another: a new 64-bit integer with one initial byte, in a fresh pool of 1 KiB. */
  lemma ShortData(key: Key, b: byte, now: u64, limit: u64, capacity: nat)
    ensures var s, c := Store(map[], Pool.Pool(1024, 0, []), map[]), Call(Create(key, 7, 1, [b]), now, limit);
            Granted(s, c) && Undefined(s, c, capacity)
  {
  }

  /** And a write of the 8 bytes of a stored integer with history on, when the history buffer has 540 bytes. */
  lemma LongHistory(key: Key, data: seq<byte>, now: u64, limit: u64, p: Pool.Pool, at: Places)
    requires p.size > 0 && |data| == 8
    ensures var r := Record(0, 0, SetHistory(0, true), 7, 8, 1, Zeros(8));
            var s, c := Store(map[key := r], p, at), Call(Write(key, data), now, limit);
            WellFormed(r) && Undefined(s, c, 540) && !Undefined(s, c, 544)
  {
  }

  /** The store after a request. */
  function Next(s: Store, c: Call): (t: Store)
    requires s.pool.size > 0 && Callable(RequestOf(s, c))
    ensures t.pool.size > 0
  {
    var view := Apply(s.view, RequestOf(s, c)).0;
    if NewKey(s, c) then
      var (q, o) := Pool.Allocate(s.pool, EntrySize(c.op), c.limit);
      Pool.AllocateSize(s.pool, EntrySize(c.op), c.limit);
      Store(view, q, if o.At? then s.at[c.op.key := o.off] else s.at)
    else if c.op.Delete? && c.op.key in s.view && c.op.key in s.at then
      var extent := Pool.Block(s.at[c.op.key], HEADER + |s.view[c.op.key].data|);
      Store(view, Pool.Release(s.pool, extent), s.at - {c.op.key})
    else Store(view, s.pool, s.at)
  }

  /** No request before the end is undefined. */
  ghost predicate Defined(s: Store, cs: seq<Call>, capacity: nat)
    requires s.pool.size > 0
    decreases |cs|
  {
    cs == [] ||
    (!Undefined(s, cs[0], capacity) && Callable(RequestOf(s, cs[0])) && Defined(Next(s, cs[0]), cs[1..], capacity))
  }

  /** The store after a run. */
  ghost function After(s: Store, cs: seq<Call>, capacity: nat): (t: Store)
    requires s.pool.size > 0 && Defined(s, cs, capacity)
    ensures t.pool.size > 0
    decreases |cs|
  {
    if cs == [] then s else After(Next(s, cs[0]), cs[1..], capacity)
  }

  /** The requests of a run, with what the allocator decided. */
  ghost function Requests(s: Store, cs: seq<Call>, capacity: nat): (qs: seq<Request>)
    requires s.pool.size > 0 && Defined(s, cs, capacity)
    ensures |qs| == |cs| && forall q :: q in qs ==> Callable(q)
    decreases |cs|
  {
    if cs == [] then [] else [RequestOf(s, cs[0])] + Requests(Next(s, cs[0]), cs[1..], capacity)
  }

  /** The replies of the map of module Records to a sequence of requests. */
  function Replies(v: View, qs: seq<Request>): (rs: seq<Reply>)
    requires forall q :: q in qs ==> Callable(q)
    ensures |rs| == |qs|
  {
    if qs == [] then [] else Replies(v, qs[..|qs| - 1]) + [Apply(Run(v, qs[..|qs| - 1]), qs[|qs| - 1]).1]
  }

  /** The history rows a sequence of requests adds, in order. */
  function LogOf(v: View, qs: seq<Request>): seq<History.Row>
    requires forall q :: q in qs ==> Callable(q)
  {
    if qs == [] then []
    else LogOf(v, qs[..|qs| - 1]) + Logged(Run(v, qs[..|qs| - 1]), qs[|qs| - 1])
  }

  /** Reply i is the map's reply to request i, at its point of the run. */
  lemma {:induction false} ReplyAt(v: View, qs: seq<Request>, i: nat)
    requires (forall q :: q in qs ==> Callable(q)) && i < |qs|
    ensures Callable(qs[i]) && Replies(v, qs)[i] == Apply(Run(v, qs[..i]), qs[i]).1
  {
    hide Apply, Callable;
    assert qs[i] in qs;
    var n := |qs| - 1;
    if i < n {
      ReplyAt(v, qs[..n], i);
      assert qs[..n][..i] == qs[..i];
    }
  }

  // ----- What the history log holds -----

  /** What a run says of a key: nothing, or its type, whether history was last toggled on since the key was
      created, and how many bytes it has. */
  datatype Known = Absent | Present(ty: byte, on: bool, len: nat)

  function KnownAtStart(v: View, k: Key): Known {
    if k in v then Present(v[k].ty, HistoryOn(v[k].flags), |v[k].data|) else Absent
  }

  function KnownAfter(start: Known, qs: seq<Request>, k: Key): Known {
    if qs == [] then start
    else
      var q, before := qs[|qs| - 1], KnownAfter(start, qs[..|qs| - 1], k);
      if q.op.key != k then before
      else
        match q.op
        case Create(_, ty, count, _) =>
          if before.Absent? && q.granted then Present(ty, false, DataSize(count, TypeSize(ty))) else before
        case Delete(_) => Absent
        case Toggle(_, active) => if before.Present? then before.(on := active) else before
        case _ => before
  }

  /** One row for each write that has the length of its key, while the key exists and its history was last
      toggled on since it was created: with the time and the bytes of the write and the type of the key. */
  function HistoryRows(v: View, qs: seq<Request>): seq<History.Row> {
    if qs == [] then []
    else
      var q := qs[|qs| - 1];
      HistoryRows(v, qs[..|qs| - 1]) +
      if !q.op.Write? then []
      else
        var known := KnownAfter(KnownAtStart(v, q.op.key), qs[..|qs| - 1], q.op.key);
        if known.Present? && known.on && known.len == |q.op.data|
        then [History.Row(q.op.key, q.now, known.ty, q.op.data)]
        else []
  }

  lemma {:induction false} KnownIsRecord(v: View, qs: seq<Request>, k: Key)
    requires AllWellFormed(v) && forall q :: q in qs ==> Callable(q)
    ensures KnownAfter(KnownAtStart(v, k), qs, k) == KnownAtStart(Run(v, qs), k)
  {
    if qs != [] {
      var n := |qs| - 1;
      KnownIsRecord(v, qs[..n], k);
      RunWellFormed(v, qs[..n]);
      KnownStep(Run(v, qs[..n]), qs[n], k);
    }
  }

  lemma KnownStep(v: View, q: Request, k: Key)
    requires AllWellFormed(v) && Callable(q)
    ensures KnownAtStart(Apply(v, q).0, k) == KnownAfter(KnownAtStart(v, k), [q], k)
  {
    assert [q][..0] == [];
    if q.op.key != k {
      assert Cell(Apply(v, q).0, k) == Cell(v, k) by { ApplyOther(v, q, k); }
    } else {
      match q.op
      case Create(_, _, _, _) => CreateMeans(v, q);
      case Delete(_) =>
      case Write(_, _) => WriteMeans(v, q);
      case Toggle(_, _) => ToggleMeans(v, q);
      case Read(_) =>
      case TypeOf(_) =>
    }
  }

  /** The log of a run is exactly those rows, in order. */
  lemma {:induction false} LogIsHistory(v: View, qs: seq<Request>)
    requires AllWellFormed(v) && forall q :: q in qs ==> Callable(q)
    ensures LogOf(v, qs) == HistoryRows(v, qs)
  {
    if qs != [] {
      var n := |qs| - 1;
      LogIsHistory(v, qs[..n]);
      RunWellFormed(v, qs[..n]);
      assert qs[n] in qs;
      if qs[n].op.Write? {
        KnownIsRecord(v, qs[..n], qs[n].op.key);
        WriteMeans(Run(v, qs[..n]), qs[n]);
      }
    }
  }

  lemma UndefinedOrCallable(s: Store, c: Call, capacity: nat)
    requires s.pool.size > 0 && !Undefined(s, c, capacity)
    ensures Callable(RequestOf(s, c))
  {
  }

  /** One more request at the end of a run. */
  lemma {:induction false} OneMore(s: Store, cs: seq<Call>, c: Call, capacity: nat)
    requires s.pool.size > 0 && Defined(s, cs, capacity)
    ensures var t := After(s, cs, capacity);
            && (Defined(s, cs + [c], capacity) <==> !Undefined(t, c, capacity))
            && (Defined(s, cs + [c], capacity) ==>
                  && Callable(RequestOf(t, c))
                  && After(s, cs + [c], capacity) == Next(t, c)
                  && Requests(s, cs + [c], capacity) == Requests(s, cs, capacity) + [RequestOf(t, c)])
    decreases |cs|
  {
    hide Next, Undefined, RequestOf, Callable;
    var all := cs + [c];
    if cs == [] {
      assert all == [c] && [c][1..] == [];
      if !Undefined(s, c, capacity) {
        UndefinedOrCallable(s, c, capacity);
        assert Defined(Next(s, c), [], capacity);
      }
    } else {
      assert all[1..] == cs[1..] + [c] && all[0] == cs[0];
      OneMore(Next(s, cs[0]), cs[1..], c, capacity);
    }
  }

  lemma SnocRun(v: View, qs: seq<Request>, q: Request)
    requires (forall p :: p in qs ==> Callable(p)) && Callable(q)
    ensures forall p :: p in qs + [q] ==> Callable(p)
    ensures Run(v, qs + [q]) == Apply(Run(v, qs), q).0
    ensures Replies(v, qs + [q]) == Replies(v, qs) + [Apply(Run(v, qs), q).1]
    ensures LogOf(v, qs + [q]) == LogOf(v, qs) + Logged(Run(v, qs), q)
  {
    hide Apply, Logged, Callable;
    assert (qs + [q])[..|qs|] == qs;
  }

  /** The records of a run are the map's: what KeysAreIndependent and ReadReturnsLastStored say of every
      sequence of requests holds of every run. */
  lemma {:induction false} RunIsMapRun(s: Store, cs: seq<Call>, capacity: nat)
    requires s.pool.size > 0 && Defined(s, cs, capacity)
    ensures After(s, cs, capacity).view == Run(s.view, Requests(s, cs, capacity))
    decreases |cs|
  {
    if cs != [] {
      var init, c := cs[..|cs| - 1], cs[|cs| - 1];
      assert cs == init + [c];
      Prefix(s, init, [c], capacity);
      RunIsMapRun(s, init, capacity);
      OneMore(s, init, c, capacity);
      hide Defined, After, Requests;
      var t := After(s, init, capacity);
      SnocRun(s.view, Requests(s, init, capacity), RequestOf(t, c));
    }
  }

  lemma {:induction false} Prefix(s: Store, a: seq<Call>, b: seq<Call>, capacity: nat)
    requires s.pool.size > 0 && Defined(s, a + b, capacity)
    ensures Defined(s, a, capacity)
    decreases |a|
  {
    hide Next, Undefined, RequestOf, Callable;
    if a != [] {
      assert (a + b)[1..] == a[1..] + b && (a + b)[0] == a[0];
      Prefix(Next(s, a[0]), a[1..], b, capacity);
    }
  }

  // ----- The server -----

  ghost function StoreOf(db: Database): Store
    reads db
  {
    Store(db.records, db.State(), db.At())
  }

  /** One request. There is no reply exactly where the C++ program has no defined behaviour; else the reply,
      the store and the log are the specified ones. */
  method ServeOne(db: Database, log: History.Buffer, c: Call) returns (reply: Option<Reply>)
    requires db.Valid() && log.Valid() && log.handle != db.handle && Proper(c)
    modifies db, db.handle, log, log.handle
    ensures old(db.size) > 0 && db.Valid() && (db.handle == old(db.handle) || fresh(db.handle))
    ensures log.Valid() && log.handle == old(log.handle) && log.size == old(log.size)
    ensures reply.None? <==> Undefined(old(StoreOf(db)), c, log.size)
    ensures reply.None? ==> StoreOf(db) == old(StoreOf(db)) && log.Log() == old(log.Log())
    ensures reply.Some? ==>
              var q := RequestOf(old(StoreOf(db)), c);
              && Callable(q)
              && reply.value == Apply(old(db.records), q).1
              && StoreOf(db) == Next(old(StoreOf(db)), c)
              && log.Log() == old(log.Log()) + Logged(old(db.records), q)
  {
    hide Database.Valid, History.Buffer.Valid, Pool.Allocate, InitialBytes, Database.At;
    db.SizePositive();
    db.Indexed();
    match c.op {
      case Create(key, ty, count, init) =>
        var r := db.NewEntry(key, ty, init, count, c.now, c.limit);
        reply := if r.Overran? then None else Some(Done(r.Created?));
      case Delete(key) =>
        var ok := db.DeleteEntry(key, c.now);
        reply := Some(Done(ok));
      case Write(key, data) =>
        var ok := db.WriteValue(key, data, c.now, log);
        reply := if ok.None? then None else Some(Done(ok.value));
      case Toggle(key, active) =>
        var ok := db.ToggleHistory(key, active, c.now);
        reply := Some(Done(ok));
      case Read(key) =>
        var bytes := db.ReadValue(key, c.now);
        reply := Some(Data(bytes));
      case TypeOf(key) =>
        var ty := db.KeyType(key, c.now);
        reply := Some(Code(ty));
    }
  }

  /** What the server has done when it has served the requests cs from the store s: it holds t, it has given
      these replies and added these history rows. */
  ghost predicate Served(s: Store, cs: seq<Call>, t: Store, replies: seq<Reply>, rows: seq<History.Row>, capacity: nat)
    requires s.pool.size > 0
  {
    && Defined(s, cs, capacity)
    && t == After(s, cs, capacity)
    && t.view == Run(s.view, Requests(s, cs, capacity))
    && replies == Replies(s.view, Requests(s, cs, capacity))
    && rows == LogOf(s.view, Requests(s, cs, capacity)) == HistoryRows(s.view, Requests(s, cs, capacity))
  }

  lemma ServedNone(s: Store, capacity: nat)
    requires s.pool.size > 0
    ensures Served(s, [], s, [], [], capacity)
  {
  }

  lemma ServedNext(s: Store, cs: seq<Call>, t: Store, replies: seq<Reply>, rows: seq<History.Row>, c: Call, capacity: nat)
    requires s.pool.size > 0 && AllWellFormed(s.view) && Served(s, cs, t, replies, rows, capacity)
    requires t.pool.size > 0 && !Undefined(t, c, capacity)
    ensures var q := RequestOf(t, c);
            && Callable(q)
            && Served(s, cs + [c], Next(t, c), replies + [Apply(t.view, q).1], rows + Logged(t.view, q), capacity)
  {
    hide Undefined, RequestOf, Apply, Logged, Callable, Pool.Allocate;
    OneMore(s, cs, c, capacity);
    hide Defined, After, Requests, AllWellFormed;
    SnocRun(s.view, Requests(s, cs, capacity), RequestOf(t, c));
    LogIsHistory(s.view, Requests(s, cs + [c], capacity));
  }

  /** Any sequence of requests is served up to the first one that is undefined: the replies and the records
      are those of the map of module Records, the pool and the places are those of the allocator, and the
      history log grows by exactly the stored writes to keys with history enabled. */
  method Serve(db: Database, log: History.Buffer, calls: seq<Call>) returns (replies: seq<Reply>, ghost rows: seq<History.Row>)
    requires db.Valid() && log.Valid() && log.handle != db.handle
    requires forall c :: c in calls ==> Proper(c)
    modifies db, db.handle, log, log.handle
    ensures old(db.size) > 0 && db.Valid() && log.Valid() && log.size == old(log.size)
    ensures |replies| <= |calls|
    ensures Served(old(StoreOf(db)), calls[..|replies|], StoreOf(db), replies, rows, log.size)
    ensures var start, served := old(StoreOf(db)), calls[..|replies|];
            && Defined(start, served, log.size)
            && StoreOf(db) == After(start, served, log.size)
            && var qs := Requests(start, served, log.size);
            && db.records == Run(start.view, qs)
            && replies == Replies(start.view, qs)
            && rows == HistoryRows(start.view, qs)
    ensures log.Log() == old(log.Log()) + rows
    ensures |replies| < |calls| ==> db.size > 0 && Undefined(StoreOf(db), calls[|replies|], log.size)
  {
    hide *;
    db.SizePositive();
    StorePool(db);
    replies, rows := [], [];
    ghost var start, was := StoreOf(db), log.Log();
    db.Indexed();
    ServedNone(start, log.size);
    assert calls[..0] == [];
    while |replies| < |calls|
      invariant db.Valid() && log.Valid() && log.size == old(log.size)
      invariant log.handle == old(log.handle) && log.handle != db.handle
      invariant db.handle == old(db.handle) || fresh(db.handle)
      invariant |replies| <= |calls|
      invariant Served(start, calls[..|replies|], StoreOf(db), replies, rows, log.size)
      invariant log.Log() == was + rows
      decreases |calls| - |replies|
    {
      var c := calls[|replies|];
      ghost var served, t := calls[..|replies|], StoreOf(db);
      db.SizePositive();
      StorePool(db);
      var reply := ServeOne(db, log, c);
      if reply.None? {
        StorePool(db);
        ServedMeans(start, calls[..|replies|], StoreOf(db), replies, rows, log.size);
        return;
      }
      ServedNext(start, served, t, replies, rows, c, log.size);
      assert calls[..|replies| + 1] == served + [c];
      replies, rows := replies + [reply.value], rows + Logged(t.view, RequestOf(t, c));
    }
    db.SizePositive();
    StorePool(db);
    ServedMeans(start, calls[..|replies|], StoreOf(db), replies, rows, log.size);
  }

  lemma ServedMeans(s: Store, cs: seq<Call>, t: Store, replies: seq<Reply>, rows: seq<History.Row>, capacity: nat)
    requires s.pool.size > 0 && Served(s, cs, t, replies, rows, capacity)
    ensures Defined(s, cs, capacity) && t == After(s, cs, capacity)
    ensures var qs := Requests(s, cs, capacity);
            t.view == Run(s.view, qs) && replies == Replies(s.view, qs) && rows == HistoryRows(s.view, qs)
  {
  }

  lemma StorePool(db: Database)
    ensures StoreOf(db).view == db.records && StoreOf(db).pool.size == db.size
  {
  }
}
