/** The byte-pool allocator of the real-time database (rdb/mxrdb.cpp), as a function on its state.
    `offset` is _rdb_offset: it counts every byte ever handed out, including those handed out
    again from the free list, so it may pass `size`. */
module Pool {
  import opened Bytes

  datatype Block = Block(off: nat, len: nat) {
    function End(): nat { off + len }
  }

  datatype Pool = Pool(size: nat, offset: nat, free: seq<Block>) {
    /** Nothing was ever stored past this point. */
    function Top(): nat { if offset <= size then offset else size }
  }

  /** Where an allocation went. Overrun is where the model stops: the 64-bit sum of offset and request
      wraps, or the growing copy takes `offset` bytes out of a pool of fewer bytes. */
  datatype Outcome = At(off: nat) | NoMemory | Overrun

  function FirstFit(free: seq<Block>, total: nat): (i: nat)
    ensures i <= |free|
    ensures forall j :: 0 <= j < i ==> free[j].len < total
    ensures i < |free| ==> total <= free[i].len
  {
    if free == [] then 0
    else if total <= free[0].len then 0
    else
      var i := FirstFit(free[1..], total);
      assert forall j :: 1 <= j < 1 + i ==> free[j] == free[1..][j - 1];
      1 + i
  }

  function Carve(free: seq<Block>, i: nat, total: nat): seq<Block>
    requires i < |free| && total <= free[i].len
  {
    var b := free[i];
    if b.len == total then free[..i] + free[i + 1..]
    else free[i := Block(b.off + total, b.len - total)]
  }

  /** `limit` is the largest pool the system allocator still provides. */
  function Allocate(p: Pool, total: nat, limit: nat): (r: (Pool, Outcome))
    requires p.size > 0
    decreases p.offset + total - p.size
  {
    var i := FirstFit(p.free, total);
    if p.offset + total >= U64 then (p, Overrun)
    else if i < |p.free| then
      (p.(offset := p.offset + total, free := Carve(p.free, i, total)), At(p.free[i].off))
    else if p.offset + total <= p.size then
      (p.(offset := p.offset + total), At(p.offset))
    else if limit < 2 * p.size then (p, NoMemory)
    else if p.size < p.offset then (p, Overrun)
    else Allocate(p.(size := 2 * p.size), total, limit)
  }

  function Release(p: Pool, b: Block): Pool {
    p.(free := p.free + [b])
  }

  predicate Disjoint(a: Block, b: Block) {
    a.End() <= b.off || b.End() <= a.off
  }

  /** Live extents and free blocks lie inside the used part of the pool and never overlap. */
  ghost predicate Layout<K(!new)>(p: Pool, live: map<K, Block>) {
    && p.size > 0
    && (forall k :: k in live ==> live[k].len > 0 && live[k].End() <= p.Top())
    && (forall i :: 0 <= i < |p.free| ==> p.free[i].len > 0 && p.free[i].End() <= p.Top())
    && (forall k, l :: k in live && l in live && k != l ==> Disjoint(live[k], live[l]))
    && (forall i, j :: 0 <= i < j < |p.free| ==> Disjoint(p.free[i], p.free[j]))
    && (forall k, i :: k in live && 0 <= i < |p.free| ==> Disjoint(live[k], p.free[i]))
  }

  lemma {:induction false} AllocateKeepsLayout<K(!new)>(p: Pool, live: map<K, Block>, k: K, total: nat, limit: nat)
    requires Layout(p, live) && k !in live && total > 0
    ensures var (q, o) := Allocate(p, total, limit);
            && q.size >= p.size
            && Layout(q, if o.At? then live[k := Block(o.off, total)] else live)
            && (o.At? ==> o.off + total <= q.size)
    decreases p.offset + total - p.size
  {
    assert p.size > 0;
    hide Carve, Layout;
    var i := FirstFit(p.free, total);
    if p.offset + total >= U64 {
    } else if i < |p.free| {
      CarveKeepsLayout(p, live, k, i, total);
    } else if p.offset + total <= p.size {
      BumpKeepsLayout(p, live, k, total);
    } else if 2 * p.size <= limit && p.offset <= p.size {
      GrowthKeepsLayout(p, live);
      AllocateKeepsLayout(p.(size := 2 * p.size), live, k, total, limit);
    }
  }

  lemma GrowthKeepsLayout<K(!new)>(p: Pool, live: map<K, Block>)
    requires Layout(p, live)
    ensures Layout(p.(size := 2 * p.size), live)
  {
  }

  lemma BumpKeepsLayout<K(!new)>(p: Pool, live: map<K, Block>, k: K, total: nat)
    requires Layout(p, live) && k !in live && total > 0 && p.offset + total <= p.size
    ensures Layout(p.(offset := p.offset + total), live[k := Block(p.offset, total)])
  {
  }

  /** a lies inside b. */
  predicate Within(a: Block, b: Block) {
    b.off <= a.off && a.End() <= b.End()
  }

  /** The free block that block j of the carved list is, or is the rest of. */
  function Origin(free: seq<Block>, i: nat, total: nat, j: nat): nat
    requires i < |free|
  {
    if free[i].len == total && i <= j then j + 1 else j
  }

  lemma CarveShape(free: seq<Block>, i: nat, total: nat, j: nat)
    requires i < |free| && total <= free[i].len
    requires forall m, n :: 0 <= m < n < |free| ==> Disjoint(free[m], free[n])
    requires forall m :: 0 <= m < |free| ==> free[m].len > 0
    requires j < |Carve(free, i, total)|
    ensures var f := Carve(free, i, total);
            var o := Origin(free, i, total, j);
            && o < |free| && Within(f[j], free[o]) && f[j].len > 0
            && Disjoint(f[j], Block(free[i].off, total))
  {
    var f := Carve(free, i, total);
    var o := Origin(free, i, total, j);
    if o < i {
      assert Disjoint(free[o], free[i]);
    } else if i < o {
      assert Disjoint(free[i], free[o]);
    }
  }

  lemma WithinDisjoint(a: Block, a': Block, b: Block, b': Block)
    requires Disjoint(a, b) && Within(a', a) && Within(b', b)
    ensures Disjoint(a', b') && Disjoint(b', a')
  {
  }

  lemma CarveKeepsLayout<K(!new)>(p: Pool, live: map<K, Block>, k: K, i: nat, total: nat)
    requires Layout(p, live) && k !in live && total > 0
    requires i < |p.free| && total <= p.free[i].len
    ensures Layout(p.(offset := p.offset + total, free := Carve(p.free, i, total)),
                   live[k := Block(p.free[i].off, total)])
  {
    var f := Carve(p.free, i, total);
    var taken := Block(p.free[i].off, total);
    var live' := live[k := taken];
    var p' := p.(offset := p.offset + total, free := f);
    assert p.Top() <= p'.Top();
    forall j | 0 <= j < |f|
      ensures f[j].len > 0 && f[j].End() <= p'.Top()
      ensures forall l :: l in live' ==> Disjoint(live'[l], f[j])
    {
      CarveShape(p.free, i, total, j);
      var o := Origin(p.free, i, total, j);
      forall l | l in live'
        ensures Disjoint(live'[l], f[j])
      {
        if l != k { WithinDisjoint(live[l], live[l], p.free[o], f[j]); }
      }
    }
    forall m, n | 0 <= m < n < |f|
      ensures Disjoint(f[m], f[n])
    {
      CarveShape(p.free, i, total, m);
      CarveShape(p.free, i, total, n);
      WithinDisjoint(p.free[Origin(p.free, i, total, m)], f[m], p.free[Origin(p.free, i, total, n)], f[n]);
    }
    forall l, m | l in live' && m in live' && l != m
      ensures Disjoint(live'[l], live'[m])
    {
      if l == k {
        WithinDisjoint(live[m], live[m], p.free[i], taken);
      } else if m == k {
        WithinDisjoint(live[l], live[l], p.free[i], taken);
      }
    }
  }

  lemma ReleaseKeepsLayout<K(!new)>(p: Pool, live: map<K, Block>, k: K)
    requires Layout(p, live) && k in live
    ensures Layout(Release(p, live[k]), live - {k})
  {
  }

  // ----- Accounting -----

  function FreeBytes(free: seq<Block>): nat {
    if free == [] then 0 else free[0].len + FreeBytes(free[1..])
  }

  ghost function LiveBytes<K(!new)>(live: map<K, Block>): nat
    decreases |live|
  {
    if live == map[] then 0
    else
      var k :| k in live;
      live[k].len + LiveBytes(live - {k})
  }

  lemma {:induction false} LiveBytesRemove<K(!new)>(live: map<K, Block>, k: K)
    requires k in live
    ensures LiveBytes(live) == live[k].len + LiveBytes(live - {k})
    decreases |live|
  {
    var c :| c in live && LiveBytes(live) == live[c].len + LiveBytes(live - {c});
    if c != k {
      LiveBytesRemove(live - {c}, k);
      LiveBytesRemove(live - {k}, c);
      assert live - {c} - {k} == live - {k} - {c};
    }
  }

  lemma LiveBytesAdd<K(!new)>(live: map<K, Block>, k: K, b: Block)
    requires k !in live
    ensures LiveBytes(live[k := b]) == b.len + LiveBytes(live)
  {
    LiveBytesRemove(live[k := b], k);
    assert live[k := b] - {k} == live;
  }

  lemma {:induction false} FreeBytesSplit(a: seq<Block>, b: seq<Block>)
    ensures FreeBytes(a + b) == FreeBytes(a) + FreeBytes(b)
  {
    if a == [] {
      assert a + b == b;
    } else {
      FreeBytesSplit(a[1..], b);
      assert (a + b)[1..] == a[1..] + b;
    }
  }

  lemma FreeBytesMiddle(left: seq<Block>, b: Block, right: seq<Block>)
    ensures FreeBytes(left + [b] + right) == FreeBytes(left) + b.len + FreeBytes(right)
  {
    FreeBytesSplit(left + [b], right);
    FreeBytesSplit(left, [b]);
    assert [b][1..] == [];
  }

  lemma CarveBytes(free: seq<Block>, i: nat, total: nat)
    requires i < |free| && total <= free[i].len
    ensures FreeBytes(Carve(free, i, total)) + total == FreeBytes(free)
  {
    hide FreeBytes;
    var b := free[i];
    var left, right := free[..i], free[i + 1..];
    assert free == left + [b] + right;
    FreeBytesMiddle(left, b, right);
    if b.len == total {
      FreeBytesSplit(left, right);
    } else {
      var c := Block(b.off + total, b.len - total);
      assert Carve(free, i, total) == left + [c] + right;
      FreeBytesMiddle(left, c, right);
    }
  }

  /** How many bytes an allocation took from the free list. */
  function Reuse(p: Pool, total: nat): nat {
    if FirstFit(p.free, total) < |p.free| then total else 0
  }

  lemma {:induction false} AllocateBytes(p: Pool, total: nat, limit: nat)
    requires p.size > 0
    ensures var (q, o) := Allocate(p, total, limit);
            && (o.At? ==> q.offset == p.offset + total && FreeBytes(q.free) + Reuse(p, total) == FreeBytes(p.free))
            && (!o.At? ==> q.offset == p.offset && q.free == p.free)
    decreases p.offset + total - p.size
  {
    var i := FirstFit(p.free, total);
    if p.offset + total >= U64 {
    } else if i < |p.free| {
      CarveBytes(p.free, i, total);
    } else if p.offset + total <= p.size {
    } else if 2 * p.size <= limit && p.offset <= p.size {
      AllocateBytes(p.(size := 2 * p.size), total, limit);
    }
  }

  // ----- Growth -----

  /** Growing stops below twice what was needed, and never happens for a request that fits a free block. */
  lemma {:induction false} GrowthBound(p: Pool, total: nat, limit: nat)
    requires p.size > 0
    ensures var (q, o) := Allocate(p, total, limit);
            && (q.size == p.size || p.size < q.size < 2 * (p.offset + total))
            && q.size <= (if p.size < limit then limit else p.size)
            && (FirstFit(p.free, total) < |p.free| ==> q.size == p.size)
    decreases p.offset + total - p.size
  {
    if FirstFit(p.free, total) == |p.free| && p.offset + total > p.size && 2 * p.size <= limit && p.offset <= p.size {
      GrowthBound(p.(size := 2 * p.size), total, limit);
    }
  }

  /** The model stops exactly where the sum wraps or the copy of a growing pool would leave it. */
  lemma {:induction false} OverrunExactly(p: Pool, total: nat, limit: nat)
    requires p.size > 0
    ensures Allocate(p, total, limit).1.Overrun? <==>
            || p.offset + total >= U64
            || (FirstFit(p.free, total) == |p.free| && p.size < p.offset && 2 * p.size <= limit)
    ensures Allocate(p, total, limit).1.Overrun? ==> Allocate(p, total, limit).0 == p
    decreases p.offset + total - p.size
  {
    if FirstFit(p.free, total) == |p.free| && p.offset + total > p.size && 2 * p.size <= limit && p.offset <= p.size {
      OverrunExactly(p.(size := 2 * p.size), total, limit);
    }
  }

  /** A size doubled k times. */
  function Doubled(size: nat, k: nat): nat
    decreases k
  {
    if k == 0 then size else Doubled(2 * size, k - 1)
  }

  lemma {:induction false} DoubledGrows(size: nat, k: nat)
    ensures size <= Doubled(size, k)
    decreases k
  {
    if k > 0 { DoubledGrows(2 * size, k - 1); }
  }

  /** The number of bytes the pool must hold for the request is reached by some doubling within the limit. */
  ghost predicate Reachable(size: nat, need: nat, limit: nat) {
    exists k :: 1 <= k && need <= Doubled(size, k) <= limit
  }

  lemma ReachableStep(size: nat, need: nat, limit: nat)
    ensures Reachable(size, need, limit) <==> 2 * size <= limit && (need <= 2 * size || Reachable(2 * size, need, limit))
  {
    if k: nat :| 1 <= k && need <= Doubled(size, k) <= limit {
      assert Doubled(size, k) == Doubled(2 * size, k - 1);
      DoubledGrows(2 * size, k - 1);
    }
    if 2 * size <= limit && need <= 2 * size {
      assert Doubled(2 * size, 0) == 2 * size && Doubled(size, 1) == Doubled(2 * size, 0);
    }
    if k: nat :| 2 * size <= limit && 1 <= k && need <= Doubled(2 * size, k) <= limit {
      assert Doubled(size, k + 1) == Doubled(2 * size, k);
    }
  }

  /** A request is granted exactly when the counter does not wrap and a free block fits, or the end of
      the pool does, or the used bytes lie in the pool and some doubling within the limit makes room;
      and then it is the first block that fits, or the end. */
  lemma {:induction false} GrantedExactly(p: Pool, total: nat, limit: nat)
    requires p.size > 0
    ensures var i := FirstFit(p.free, total);
            var o := Allocate(p, total, limit).1;
            && (o.At? <==>
                && p.offset + total < U64
                && (i < |p.free| || p.offset + total <= p.size
                    || (p.offset <= p.size && Reachable(p.size, p.offset + total, limit))))
            && (o.At? ==> o.off == if i < |p.free| then p.free[i].off else p.offset)
    decreases p.offset + total - p.size
  {
    if FirstFit(p.free, total) == |p.free| && p.offset + total > p.size {
      ReachableStep(p.size, p.offset + total, limit);
      if 2 * p.size <= limit && p.offset <= p.size {
        GrantedExactly(p.(size := 2 * p.size), total, limit);
      }
    }
  }

  // ----- Whole runs -----

  datatype Event<K> = Take(k: K, total: nat, limit: nat) | Drop(k: K)

  /** The allocator with the blocks it has outstanding and a count of the bytes it took from the free list. */
  datatype Ledger<K> = Ledger(pool: Pool, live: map<K, Block>, reused: nat, granted: nat)

  function Step<K>(s: Ledger<K>, e: Event<K>): Ledger<K>
    requires s.pool.size > 0
  {
    match e
    case Take(k, total, limit) =>
      if k in s.live || total == 0 then s
      else
        var (q, o) := Allocate(s.pool, total, limit);
        if o.At? then
          Ledger(q, s.live[k := Block(o.off, total)], s.reused + Reuse(s.pool, total), s.granted + total)
        else s.(pool := q)
    case Drop(k) =>
      if k !in s.live then s
      else s.(pool := Release(s.pool, s.live[k]), live := s.live - {k})
  }

  /** Bytes handed out since a pool that started at `base`: each is live, free, or was handed out twice. */
  ghost predicate Balanced<K(!new)>(s: Ledger<K>, base: int) {
    && s.pool.offset == base + s.granted
    && s.granted == LiveBytes(s.live) + FreeBytes(s.pool.free) + s.reused
  }

  lemma StepKeeps<K(!new)>(s: Ledger<K>, e: Event<K>, base: int)
    requires Layout(s.pool, s.live) && Balanced(s, base)
    ensures Layout(Step(s, e).pool, Step(s, e).live) && Balanced(Step(s, e), base)
    ensures s.pool.size <= Step(s, e).pool.size
  {
    match e
    case Take(k, total, limit) =>
      if k !in s.live && total > 0 {
        AllocateKeepsLayout(s.pool, s.live, k, total, limit);
        AllocateBytes(s.pool, total, limit);
        var (q, o) := Allocate(s.pool, total, limit);
        if o.At? {
          LiveBytesAdd(s.live, k, Block(o.off, total));
        }
      }
    case Drop(k) =>
      if k in s.live {
        ReleaseKeepsLayout(s.pool, s.live, k);
        LiveBytesRemove(s.live, k);
        FreeBytesSplit(s.pool.free, [s.live[k]]);
      }
  }

  function Run<K>(s: Ledger<K>, es: seq<Event<K>>): Ledger<K>
    requires s.pool.size > 0
    ensures Run(s, es).pool.size > 0
    decreases |es|
  {
    if es == [] then s
    else
      var t := Step(s, es[0]);
      StepSize(s, es[0]);
      Run(t, es[1..])
  }

  lemma {:induction false} AllocateSize(p: Pool, total: nat, limit: nat)
    requires p.size > 0
    ensures Allocate(p, total, limit).0.size >= p.size
    decreases p.offset + total - p.size
  {
    if FirstFit(p.free, total) == |p.free| && p.offset + total > p.size && 2 * p.size <= limit && p.offset <= p.size {
      AllocateSize(p.(size := 2 * p.size), total, limit);
    }
  }

  lemma StepSize<K>(s: Ledger<K>, e: Event<K>)
    requires s.pool.size > 0
    ensures Step(s, e).pool.size >= s.pool.size
  {
    if e.Take? { AllocateSize(s.pool, e.total, e.limit); }
  }

  function Fresh<K>(size: nat): Ledger<K> {
    Ledger(Pool(size, 0, []), map[], 0, 0)
  }

  /** In every reachable state nothing overlaps, everything lies in the pool, and every byte ever
      handed out is accounted for. */
  lemma {:induction false} RunKeeps<K(!new)>(s: Ledger<K>, es: seq<Event<K>>, base: int)
    requires Layout(s.pool, s.live) && Balanced(s, base)
    ensures Layout(Run(s, es).pool, Run(s, es).live) && Balanced(Run(s, es), base)
    ensures var t := Run(s, es);
            && t.pool.offset == base + t.granted
            && t.granted == LiveBytes(t.live) + FreeBytes(t.pool.free) + t.reused
    ensures var t := Run(s, es);
            && (forall k, l :: k in t.live && l in t.live && k != l ==> Disjoint(t.live[k], t.live[l]))
            && (forall k, i :: k in t.live && 0 <= i < |t.pool.free| ==> Disjoint(t.live[k], t.pool.free[i]))
            && (forall i, j :: 0 <= i < j < |t.pool.free| ==> Disjoint(t.pool.free[i], t.pool.free[j]))
            && (forall k :: k in t.live ==> t.live[k].len > 0 && t.live[k].End() <= t.pool.size)
            && (forall i :: 0 <= i < |t.pool.free| ==> t.pool.free[i].len > 0 && t.pool.free[i].End() <= t.pool.size)
    decreases |es|
  {
    if es != [] {
      StepKeeps(s, es[0], base);
      RunKeeps(Step(s, es[0]), es[1..], base);
    }
  }

  /** `offset <= size` is not an invariant: ten times create and delete one 112-byte entry in a pool of
      1 KiB, and the next request that no free block fits copies 1120 bytes out of 1024. */
  lemma OffsetPassesSize()
    ensures var s := Run(Fresh<nat>(1024), Cycle(10));
            && s.live == map[] && s.pool.offset == 1120 && s.pool.size == 1024
            && Allocate(s.pool, 200, 4096).1.Overrun?
  {
    CycleState(9);
    var s := Run(Fresh<nat>(1024), Cycle(10));
    assert FirstFit(s.pool.free, 200) == 1 by {
      assert s.pool.free == [Block(0, 112)];
      assert s.pool.free[1..] == [];
    }
  }

  function Cycle(n: nat): seq<Event<nat>> {
    if n == 0 then [] else Cycle(n - 1) + [Take(0, 112, 4096), Drop(0)]
  }

  /** Creating and deleting the one 112-byte entry of an otherwise empty pool. */
  lemma OneCycle(s: Ledger<nat>)
    requires s.live == map[] && s.pool.size == 1024 && s.pool.offset < 1024
    requires s.pool.free == [Block(0, 112)] || (s.pool.free == [] && s.pool.offset == 0)
    ensures var t := Step(s, Take(0, 112, 4096));
            && t.pool.size == 1024
            && Step(t, Drop(0)) == Ledger(Pool(1024, s.pool.offset + 112, [Block(0, 112)]), map[],
                                          s.reused + Reuse(s.pool, 112), s.granted + 112)
  {
    var t := Step(s, Take(0, 112, 4096));
    if s.pool.free == [Block(0, 112)] {
      assert Carve(s.pool.free, 0, 112) == [];
    }
    assert t.live == map[0 := Block(0, 112)];
    assert t.live - {0} == map[];
  }

  lemma {:induction false} CycleState(n: nat)
    requires n < 10
    ensures Run(Fresh<nat>(1024), Cycle(n + 1)) ==
            Ledger(Pool(1024, 112 * (n + 1), [Block(0, 112)]), map[], 112 * n, 112 * (n + 1))
  {
    hide Step, Reuse, FirstFit;
    var d, e: Event<nat> := Take(0, 112, 4096), Drop(0);
    assert Cycle(n + 1) == Cycle(n) + [d, e];
    var s := Fresh<nat>(1024);
    if n > 0 {
      CycleState(n - 1);
      RunAppend(s, Cycle(n), [d, e]);
      s := Run(s, Cycle(n));
    }
    assert n == 0 ==> Cycle(0) + [d, e] == [d, e];
    OneCycle(s);
    RunTwo(s, d, e);
    assert Reuse(s.pool, 112) == (if n == 0 then 0 else 112) by { FirstOfOne(s.pool); }
  }

  lemma FirstOfOne(p: Pool)
    ensures p.free == [] ==> Reuse(p, 112) == 0
    ensures p.free == [Block(0, 112)] ==> Reuse(p, 112) == 112
  {
  }

  lemma RunTwo<K>(s: Ledger<K>, d: Event<K>, e: Event<K>)
    requires s.pool.size > 0
    ensures Step(s, d).pool.size > 0 && Run(s, [d, e]) == Step(Step(s, d), e)
  {
    StepSize(s, d);
    assert [d, e][1..] == [e];
    var t := Step(s, d);
    assert Run(s, [d, e]) == Run(t, [e]);
    StepSize(t, e);
    assert [e][1..] == [];
    assert Run(t, [e]) == Run(Step(t, e), []);
  }

  lemma {:induction false} RunAppend<K>(s: Ledger<K>, a: seq<Event<K>>, b: seq<Event<K>>)
    requires s.pool.size > 0
    ensures Run(s, a + b) == Run(Run(s, a), b)
    decreases |a|
  {
    if a == [] {
      assert a + b == b;
    } else {
      StepSize(s, a[0]);
      RunAppend(Step(s, a[0]), a[1..], b);
      assert (a + b)[1..] == a[1..] + b;
    }
  }
}
