/** The real-time database (rdb/mxrdb.cpp): records packed in one growing byte pool, found through an
    index of pointers into it. The pool and the index refine the map of module Records. */
module Rdb {
  import opened Collections
  import opened Bytes
  import opened Keys
  import opened Records
  import opened Extents
  import History
  import Image
  import Pool
  type Block = Pool.Block

  /** An RdbEntry*: it points into one particular allocation of the pool. */
  datatype EntryPtr = EntryPtr(base: array<byte>, off: nat)

  /** How a create ended. Overran is where the model stops: see Database.Allocate and Database.NewEntry. */
  datatype Creation = Created(off: nat) | Existing | NoSpace | Overran

  function CreationOf(o: Pool.Outcome): Creation {
    match o
    case At(off) => Created(off)
    case NoMemory => NoSpace
    case Overrun => Overran
  }

  /** The bytes a create asks the pool for. */
  function EntrySize(op: Op): nat
    requires op.Create?
  {
    HEADER + DataSize(op.count, TypeSize(op.ty))
  }

  /** How a create of a new key ends in a pool: as the allocator says, except that granted space is
      filled from initial bytes that must be there. */
  function CreationFor(p: Pool.Pool, op: Op, limit: u64): Creation
    requires op.Create? && p.size > 0
  {
    var o := Pool.Allocate(p, EntrySize(op), limit).1;
    if o.At? && Short(op) then Overran else CreationOf(o)
  }

  ghost function EntriesOf(recs: View): (m: Images)
    ensures m.Keys == recs.Keys
  {
    map k | k in recs :: Entry(recs[k])
  }

  function RoundUp(n: nat): (r: nat)
    ensures n <= r < n + 1024 && r % 1024 == 0
  {
    if n % 1024 != 0 then 1024 * (n / 1024 + 1) else n
  }

  class Database {
    var handle: array<byte>         // _rdb_handle
    var size: nat                   // _rdb_size
    var offset: nat                 // _rdb_offset
    var index: map<Key, EntryPtr>   // _rdb_offset_map
    var free: seq<Block>            // _rdb_free_blocks
    ghost var records: View         // the map this database stands for
    ghost var base: int             // _rdb_offset when the pool was set up
    ghost var granted: nat          // bytes handed out since
    ghost var reused: nat           // of those, bytes that came from the free list

    ghost function At(): (m: Places)
      reads this
      ensures m.Keys == index.Keys
    {
      map k | k in index :: index[k].off
    }

    ghost function State(): Pool.Pool
      reads this
    {
      Pool.Pool(size, offset, free)
    }

    ghost predicate Stored(imgs: Images)
      reads this, handle
    {
      && handle.Length == size > 0
      && index.Keys == imgs.Keys
      && (forall k :: k in index ==> index[k].base == handle)
      && Held(handle[..], At(), imgs)
    }

    /** Every record is in the pool, byte for byte, where the index points; nothing overlaps; and
        every byte ever handed out is accounted for. */
    ghost predicate Valid()
      reads this, handle
    {
      && size < U64 && offset < U64
      && AllWellFormed(records)
      && Stored(EntriesOf(records))
      && var live := LiveOf(At(), EntriesOf(records));
         && Pool.Layout(State(), live)
         && Pool.Balanced(Pool.Ledger(State(), live, reused, granted), base)
    }

    /** RdbInit without a saved image. */
    constructor (initial: nat)
      requires initial > 0 && RoundUp(initial) < U64
      ensures Valid() && fresh(handle)
      ensures records == map[] && size == RoundUp(initial) && offset == 0 && free == []
    {
      var n := RoundUp(initial);
      handle := new byte[n];
      size := n;
      offset := 0;
      index := map[];
      free := [];
      records := map[];
      base, granted, reused := 0, 0, 0;
    }

    /** The second half of RdbGrow: points every index entry at the same offset of the new pool. */
    method Rebase(temp: array<byte>)
      modifies this`index
      ensures At() == old(At())
      ensures forall k :: k in index ==> index[k].base == temp
    {
      ghost var was := index;
      var it := index.Keys;
      while it != {}
        invariant it <= index.Keys == was.Keys
        invariant forall k :: k in index ==> index[k].off == was[k].off
        invariant forall k :: k in index && k !in it ==> index[k].base == temp
        decreases it
      {
        var k :| k in it;
        index := index[k := EntryPtr(temp, index[k].off)];
        it := it - {k};
      }
    }

    /** RdbInit from a saved image (RdbLoadFromFile): the pool takes the least multiple of 1024 bytes that
        holds the saved data. An image without data makes RdbInit start afresh. */
    constructor Load(image: seq<byte>, initial: nat, ghost es: Image.Listing, ghost pool: seq<byte>, ghost recs: View)
      requires initial > 0 && Restorable(es, pool, recs) && image == Image.FileBytes(es, pool)
      requires RoundUp(if |pool| == 0 then initial else |pool|) < U64
      ensures Valid() && fresh(handle)
      ensures records == recs && At() == Image.PlacesOf(es)
      ensures offset == |pool| && free == []
      ensures size == RoundUp(if |pool| == 0 then initial else |pool|)
    {
      hide Pool.Layout, LiveOf, EntriesOf, Held, WellFormed, Image.FileBytes, Image.MapBytes, Image.PlacesOf;
      Image.FileParts(es, pool);
      var mapsize, rdbsize := D64(image[..8]), D64(image[8..16]);
      var n := RoundUp(if rdbsize == 0 then initial else rdbsize);
      var block := new byte[n];
      handle := block;
      size := n;
      offset := rdbsize;
      free := [];
      records := recs;
      granted := Pool.LiveBytes(LiveOf(Image.PlacesOf(es), EntriesOf(recs)));
      base := rdbsize - Pool.LiveBytes(LiveOf(Image.PlacesOf(es), EntriesOf(recs)));
      reused := 0;
      var at := Image.LoadOffsetMap(image[16..16 + mapsize], es);
      index := map k | k in at :: EntryPtr(block, at[k]);
      new;
      Memcpy(handle, 0, image[16 + mapsize..]);
      assert At() == Image.PlacesOf(es);
      assert handle[..|pool|] == handle[..][0..0 + |pool|] == pool;
      RestoredPool(handle[..], es, pool, recs);
    }

    /** RdbWriteOffsetMap. `order` is the order in which the std::map visits its keys. */
    method WriteOffsetMap(order: seq<Key>) returns (data: seq<byte>)
      requires Valid() && InOrder(order, index.Keys)
      ensures data == Image.MapBytes(ListingOf(order, At()))
    {
      hide Pool.Layout, Pool.Balanced, LiveOf, EntriesOf, Held, Image.MapBytes, WellFormed;
      PlacesFit();
      ghost var es := ListingOf(order, At());
      data := [];
      var i := 0;
      Image.EmptyBytes();
      while i < |order|
        invariant i <= |order|
        invariant data == Image.MapBytes(es[..i])
      {
        var key := order[i];
        assert key in index.Keys;
        assert es[..i + 1] == es[..i] + [(key, index[key].off)];
        Image.MapBytesAppend(es[..i], (key, index[key].off));
        data := data + key + [0] + E64(index[key].off);
        i := i + 1;
      }
      assert es[..i] == es;
    }

    /** RdbSaveToFile. None where the copy of `offset` bytes would leave the pool. */
    method Save(order: seq<Key>) returns (image: Option<seq<byte>>)
      requires Valid() && InOrder(order, index.Keys)
      requires |Image.MapBytes(ListingOf(order, At()))| < U64
      ensures image == if offset <= size then Some(Image.FileBytes(ListingOf(order, At()), handle[..offset])) else None
    {
      hide Pool.Layout, Pool.Balanced, LiveOf, EntriesOf, Held, Image.MapBytes, WellFormed;
      var data := WriteOffsetMap(order);
      if size < offset {
        return None;
      }
      image := Some(E64(|data|) + E64(offset) + data + handle[..offset]);
    }

    /** RdbGrow: doubles the pool and points the index into the copy. */
    method Grow(limit: u64, ghost imgs: Images) returns (ok: bool)
      requires Stored(imgs) && Pool.Layout(State(), LiveOf(At(), imgs))
      requires offset <= size
      modifies this`handle, this`size, this`index
      ensures ok <==> 2 * old(size) <= limit
      ensures ok ==> fresh(handle) && size == 2 * old(size)
      ensures !ok ==> handle == old(handle) && size == old(size) && index == old(index)
      ensures Stored(imgs) && At() == old(At())
    {
      hide Held, Holds, LiveOf, Pool.Layout;
      if limit < 2 * size {
        return false;
      }
      var temp := new byte[2 * size];
      Memcpy(temp, 0, handle[..offset]);
      assert temp[..offset] == handle[..offset];
      HeldAfterCopy(handle[..], temp[..], State(), At(), imgs);
      size := 2 * size;
      Rebase(temp);
      handle := temp;
      return true;
    }

    /** new (_rdb_handle + at) RdbEntry() */
    method Construct(at: nat, ghost imgs: Images)
      requires Stored(imgs) && at + HEADER <= size
      requires Clear(LiveOf(At(), imgs), at, HEADER)
      modifies handle
      ensures Stored(imgs) && Holds(handle[..], at, Zeros(HEADER))
    {
      HeldFrame(handle[..], At(), imgs, at, Zeros(HEADER));
      Memcpy(handle, at, Zeros(HEADER));
    }

    /** A free block that fits gives up its front, and leaves the list when nothing is left of it. */
    method TakeBlock(i: nat, total: nat) returns (at: nat)
      requires i < |free| && total <= free[i].len
      modifies this`offset, this`free
      ensures at == old(free)[i].off && offset == old(offset) + total && free == Pool.Carve(old(free), i, total)
    {
      at := free[i].off;
      offset := offset + total;
      if free[i].len == total {
        free := free[..i] + free[i + 1..];
      } else {
        free := free[i := Pool.Block(at + total, free[i].len - total)];
      }
    }

    /** RdbAllocate: first fit, else the end of the pool, else grow and retry. The new entry's header
        is cleared. Overrun is reported, with nothing done, where the 64-bit sum of the counter and the
        request would wrap, and where the copy in RdbGrow would leave the pool. */
    method Allocate(bytes: nat, limit: u64, ghost imgs: Images) returns (r: Pool.Outcome)
      requires Stored(imgs)
      requires Pool.Layout(State(), LiveOf(At(), imgs))
      modifies this`handle, this`size, this`offset, this`index, this`free, handle
      ensures (State(), r) == Pool.Allocate(old(State()), HEADER + bytes, limit)
      ensures Stored(imgs) && At() == old(At())
      ensures handle == old(handle) || fresh(handle)
      ensures r.At? ==> r.off + HEADER + bytes <= size && Holds(handle[..], r.off, Zeros(HEADER))
      decreases offset + HEADER + bytes - size
    {
      hide Pool.Layout, Holds, LiveOf, Clear, Held, Pool.Carve;
      var total := HEADER + bytes;
      AllocateClear(State(), LiveOf(At(), imgs), total, limit);
      ghost var target := Pool.Allocate(State(), total, limit);
      var i := 0;
      while i < |free| && free[i].len < total
        invariant i <= |free|
        invariant forall j :: 0 <= j < i ==> free[j].len < total
      {
        i := i + 1;
      }
      assert i == Pool.FirstFit(free, total);
      if offset + total >= U64 {
        return Pool.Overrun;
      }
      if i < |free| {
        var at := TakeBlock(i, total);
        assert (State(), Pool.At(at)) == target;
        assert At() == old(At());
        Construct(at, imgs);
        return Pool.At(at);
      }
      if offset + total > size {
        if limit < 2 * size {
          return Pool.NoMemory;
        }
        if size < offset {
          return Pool.Overrun;
        }
        var ok := Grow(limit, imgs);
        Pool.GrowthKeepsLayout(old(State()), LiveOf(At(), imgs));
        r := Allocate(bytes, limit, imgs);
        return r;
      }
      var at := offset;
      offset := offset + total;
      assert (State(), Pool.At(at)) == target;
      assert At() == old(At());
      Construct(at, imgs);
      return Pool.At(at);
    }

    ghost function Books(): Pool.Ledger<Key>
      reads this
      requires index.Keys == records.Keys
    {
      Pool.Ledger(State(), LiveOf(At(), EntriesOf(records)), reused, granted)
    }

    /** Writes the header and the data of a new entry. */
    method Fill(at: nat, rec: Record, ghost imgs: Images)
      requires Stored(imgs) && at + HEADER + |rec.data| <= size
      requires Clear(LiveOf(At(), imgs), at, HEADER + |rec.data|)
      modifies handle
      ensures Stored(imgs) && Holds(handle[..], at, Entry(rec))
    {
      hide Header, Holds, Held, LiveOf;
      assert Clear(LiveOf(At(), imgs), at, HEADER) && Clear(LiveOf(At(), imgs), at + HEADER, |rec.data|);
      HeldFrame(handle[..], At(), imgs, at, Header(rec));
      Memcpy(handle, at, Header(rec));
      HeldFrame(handle[..], At(), imgs, at + HEADER, rec.data);
      HoldsAppend(handle[..], at, Header(rec), rec.data);
      Memcpy(handle, at + HEADER, rec.data);
    }

    /** _rdb_offset_map.emplace */
    method Link(key: Key, at: nat, rec: Record, ghost again: nat)
      requires size < U64 && offset < U64
      requires AllWellFormed(records) && Stored(EntriesOf(records)) && key !in records
      requires WellFormed(rec) && Holds(handle[..], at, Entry(rec))
      requires var live := LiveOf(At(), EntriesOf(records))[key := Pool.Block(at, |Entry(rec)|)];
               && Pool.Layout(State(), live)
               && Pool.Balanced(Pool.Ledger(State(), live, reused + again, granted + |Entry(rec)|), base)
      modifies this`index, this`records, this`reused, this`granted
      ensures Valid()
      ensures records == old(records)[key := rec] && At() == old(At())[key := at]
    {
      hide Pool.Layout, Pool.Balanced, LiveOf, EntriesOf, Entry, Holds, Held, WellFormed, AllWellFormed;
      AddImage(handle[..], At(), EntriesOf(records), key, at, Entry(rec));
      AddEntry(records, key, rec);
      index := index[key := EntryPtr(handle, at)];
      records := records[key := rec];
      reused, granted := reused + again, granted + |Entry(rec)|;
      assert At() == old(At())[key := at];
    }

    /** The part of RdbNewEntry after the lookup: space, header and data, index. */
    method Insert(key: Key, rec: Record, limit: u64) returns (o: Pool.Outcome)
      requires Valid() && key !in records && WellFormed(rec)
      modifies this, handle
      ensures Valid() && (handle == old(handle) || fresh(handle)) && base == old(base)
      ensures (State(), o) == Pool.Allocate(old(State()), HEADER + |rec.data|, limit)
      ensures records == if o.At? then old(records)[key := rec] else old(records)
      ensures At() == if o.At? then old(At())[key := o.off] else old(At())
    {
      hide Pool.Layout, Pool.Balanced, Pool.Allocate, LiveOf, EntriesOf, Entry, Holds, Clear, Held, WellFormed;
      ghost var imgs := EntriesOf(records);
      TakeBooks(Books(), key, HEADER + |rec.data|, limit, base);
      Pool.GrowthBound(State(), HEADER + |rec.data|, limit);
      Pool.OverrunExactly(State(), HEADER + |rec.data|, limit);
      Pool.AllocateBytes(State(), HEADER + |rec.data|, limit);
      o := Allocate(|rec.data|, limit, imgs);
      if o.At? {
        Fill(o.off, rec, imgs);
        Link(key, o.off, rec, Pool.Reuse(old(State()), HEADER + |rec.data|));
      }
    }

    /** RdbNewEntry. Overran is reported, with nothing done, where the allocator overruns and where space
        is granted to initial bytes that are too few. */
    method NewEntry(key: Key, ty: byte, init: seq<byte>, count: u64, now: u64, limit: u64)
      returns (r: Creation)
      requires Valid()
      modifies this, handle
      ensures Valid() && (handle == old(handle) || fresh(handle)) && base == old(base)
      ensures r == if key in old(records) then Existing
                   else CreationFor(old(State()), Create(key, ty, count, init), limit)
      ensures Callable(Request(Create(key, ty, count, init), now, r.Created?))
      ensures (records, Done(r.Created?))
              == Apply(old(records), Request(Create(key, ty, count, init), now, r.Created?))
      ensures At() == if r.Created? then old(At())[key := r.off] else old(At())
      ensures State() == if r.Existing? || r.Overran? then old(State())
                         else Pool.Allocate(old(State()), EntrySize(Create(key, ty, count, init)), limit).0
    {
      hide Valid, Pool.Allocate, At;
      Indexed();
      SizePositive();
      if key in index {
        return Existing;
      }
      var dataSize := TypeSize(ty);
      var n := DataSize(count, dataSize);
      var short := init != [] && |init| < n;
      if short && Pool.Allocate(Pool.Pool(size, offset, free), HEADER + n, limit).1.At? {
        return Overran;
      }
      var rec := Record(now, now, 0, ty, dataSize, count, if short then Zeros(n) else InitialBytes(ty, count, init));
      Pool.OverrunExactly(State(), HEADER + n, limit);
      var o := Insert(key, rec, limit);
      return CreationOf(o);
    }

    /** RdbCalculateDataSize, from the header of the entry at `at`. */
    method DataSizeAt(at: nat, ghost r: Record) returns (n: u64)
      requires Holds(handle[..], at, Entry(r)) && WellFormed(r)
      ensures n == |r.data| && at + HEADER + n <= handle.Length
    {
      hide Entry, Holds;
      StoredFields(handle[..], at, r);
      n := DataSize(D64(handle[..][at + COUNT_AT..at + HEADER]), D64(handle[..][at + SIZE_AT..at + COUNT_AT]));
    }

    lemma PlacesFit()
      requires Valid()
      ensures forall k :: k in index ==> index[k].off <= size && At()[k] <= size
    {
      hide Pool.Layout, Pool.Balanced, Entry;
      forall k | k in index
        ensures index[k].off <= size
      {
        assert Holds(handle[..], At()[k], EntriesOf(records)[k]);
      }
    }

    lemma SizePositive()
      requires Valid()
      ensures size > 0
    {
    }

    lemma Lookup(key: Key)
      requires Valid() && key in index
      ensures key in records && WellFormed(records[key])
      ensures At()[key] == index[key].off && index[key].base == handle
      ensures Holds(handle[..], index[key].off, Entry(records[key]))
    {
      hide Pool.Layout, Pool.Balanced, Holds, Entry;
    }

    /** RdbDeleteEntry with RdbFree: the freed extent is read back out of the header. */
    method DeleteEntry(key: Key, ghost now: u64) returns (ok: bool)
      requires Valid()
      modifies this
      ensures Valid() && handle == old(handle)
      ensures (records, Done(ok)) == Apply(old(records), Request(Delete(key), now, true))
      ensures At() == old(At()) - {key} && base == old(base)
      ensures !ok ==> State() == old(State())
      ensures ok ==> key in old(At()) && key in old(records)
                     && State() == Pool.Release(old(State()),
                                                Pool.Block(old(At())[key], HEADER + |old(records)[key].data|))
    {
      hide Pool.Layout, Pool.Balanced, LiveOf, EntriesOf, Holds, Held, WellFormed;
      if key !in index {
        assert At() - {key} == At();
        return false;
      }
      Lookup(key);
      DropEntry(handle[..], At(), records, key);
      DropBooks(Books(), key, base);
      var at := index[key].off;
      index := index - {key};
      var n := DataSizeAt(at, records[key]);
      free := free + [Pool.Block(at, HEADER + n)];
      records := records - {key};
      assert At() == old(At()) - {key};
      return true;
    }

    /** RdbReadValueDirect: no bytes for an unknown key. */
    method ReadValue(key: Key, ghost now: u64) returns (bytes: seq<byte>)
      requires Valid()
      ensures Data(bytes) == Apply(records, Request(Read(key), now, true)).1
    {
      hide Pool.Layout, Pool.Balanced, LiveOf, EntriesOf, Holds, Held, Entry;
      if key !in index {
        return [];
      }
      Lookup(key);
      var at := index[key].off;
      var n := DataSizeAt(at, records[key]);
      StoredFields(handle[..], at, records[key]);
      assert handle[at + HEADER..at + HEADER + n] == handle[..][at + HEADER..at + HEADER + n];
      return handle[at + HEADER..at + HEADER + n];
    }

    /** RdbGetKeyType */
    method KeyType(key: Key, ghost now: u64) returns (ty: byte)
      requires Valid()
      ensures Code(ty) == Apply(records, Request(TypeOf(key), now, true)).1
    {
      hide Pool.Layout, Pool.Balanced, LiveOf, EntriesOf, Holds, Held, Entry;
      if key !in index {
        return 0xFF;
      }
      Lookup(key);
      StoredFields(handle[..], index[key].off, records[key]);
      return handle[index[key].off + TYPE_AT];
    }

    /** memcpy of bytes over part of a stored entry. */
    method Patch(key: Key, i: nat, src: seq<byte>, ghost imgs: Images)
      requires Stored(imgs) && Pool.Layout(State(), LiveOf(At(), imgs))
      requires key in imgs && i + |src| <= |imgs[key]|
      modifies handle
      ensures Stored(imgs[key := Splice(imgs[key], i, src)])
    {
      hide Pool.Layout, LiveOf, Splice, Held;
      ghost var was, at := handle[..], At();
      assert at[key] == index[key].off;
      HeldInside(was, State(), at, imgs, key, i, src);
      Memcpy(handle, index[key].off + i, src);
      assert At() == at;
    }

    /** The two stores of RdbWriteValueDirect: the modification time and the data. */
    method Overwrite(key: Key, data: seq<byte>, now: u64)
      requires Valid() && key in index && |data| == |records[key].data|
      modifies this`records, handle
      ensures Valid() && At() == old(At())
      ensures records == old(records)[key := old(records)[key].(modified := now, data := data)]
    {
      hide Pool.Layout, Pool.Balanced, LiveOf, EntriesOf, Entry, Holds, Held;
      Lookup(key);
      ghost var r := records[key];
      ghost var imgs, r' := EntriesOf(records), r.(modified := now, data := data);
      ghost var stamp := Splice(Entry(r), MODIFIED_AT, E64(now));
      ghost var stamped: Images := imgs[key := stamp];
      EntryUpdate(r, now, data);
      ReplaceEntry(At(), records, key, r');
      SameLive(At(), imgs, key, stamp);
      Patch(key, MODIFIED_AT, E64(now), imgs);
      Patch(key, HEADER, data, stamped);
      assert stamped[key := Entry(r')] == imgs[key := Entry(r')];
      records := records[key := r'];
    }

    lemma Indexed()
      requires Valid()
      ensures index.Keys == records.Keys && AllWellFormed(records)
    {
    }

    /** The header fields of a stored entry that writers look at. */
    method ReadHeader(key: Key) returns (n: u64, flags: u64, ty: byte)
      requires Valid() && key in index
      ensures key in records && n == |records[key].data| && flags == records[key].flags && ty == records[key].ty
      ensures n == DataSize(records[key].count, records[key].size)
    {
      hide Pool.Layout, Pool.Balanced, LiveOf, EntriesOf, Entry, Holds, Held;
      Lookup(key);
      var at := index[key].off;
      StoredFields(handle[..], at, records[key]);
      n := DataSizeAt(at, records[key]);
      flags := D64(handle[..][at + FLAGS_AT..at + TYPE_AT]);
      ty := handle[at + TYPE_AT];
    }

    /** RdbWriteValueDirect, with the history record it adds for keys that have history enabled. None, with
        nothing done, where that record would be copied past the history buffer. */
    method WriteValue(key: Key, data: seq<byte>, now: u64, log: History.Buffer) returns (ok: Option<bool>)
      requires Valid() && log.Valid() && log.handle != handle && |key| < History.KEY_FIELD
      modifies this`records, handle, log`offset, log`table, log`pending, log.handle
      ensures Valid() && At() == old(At())
      ensures log.Valid() && log.handle == old(log.handle) && log.size == old(log.size)
      ensures ok.None? <==> Spills(old(records), Write(key, data), log.size)
      ensures ok.Some? ==> (records, Done(ok.value)) == Apply(old(records), Request(Write(key, data), now, true))
      ensures ok.Some? ==> log.Log() == old(log.Log()) + Logged(old(records), Request(Write(key, data), now, true))
      ensures ok.None? ==> records == old(records) && log.Log() == old(log.Log())
      ensures ok == Some(true) ==> key in old(records)
      ensures log.Log() == if ok == Some(true) && HistoryOn(old(records)[key].flags)
                           then old(log.Log()) + [History.Row(key, now, old(records)[key].ty, data)]
                           else old(log.Log())
    {
      hide Valid, History.Buffer.Valid, At;
      Indexed();
      if key !in index {
        return Some(false);
      }
      var n, flags, ty := ReadHeader(key);
      if |data| != n {
        return Some(false);
      }
      if HistoryOn(flags) && History.RECORD + |data| > log.size {
        return None;
      }
      Overwrite(key, data, now);
      if HistoryOn(flags) {
        var fits := log.Add(History.Row(key, now, ty, data));
      }
      return Some(true);
    }

    /** RdbToggleHistory */
    method ToggleHistory(key: Key, active: bool, ghost now: u64) returns (ok: bool)
      requires Valid()
      modifies this`records, handle
      ensures Valid() && At() == old(At())
      ensures (records, Done(ok)) == Apply(old(records), Request(Toggle(key, active), now, true))
    {
      hide Pool.Layout, Pool.Balanced, LiveOf, EntriesOf, Entry, Holds, Held;
      if key !in index {
        return false;
      }
      var n, was, ty := ReadHeader(key);
      var flags := SetHistory(was, active);
      ghost var r := records[key];
      EntryFlags(r, flags);
      ReplaceEntry(At(), records, key, r.(flags := flags));
      Patch(key, FLAGS_AT, E64(flags), EntriesOf(records));
      records := records[key := r.(flags := flags)];
      return true;
    }
  }

  /** The listing RdbWriteOffsetMap writes. */
  function ListingOf(order: seq<Key>, at: Places): (es: Image.Listing)
    requires forall k :: k in order ==> k in at
    ensures |es| == |order|
  {
    seq(|order|, i requires 0 <= i < |order| => assert order[i] in order; (order[i], at[order[i]] % U64))
  }

  /** What a saved image must be for loading it to make sense: the listing places the records in the
      saved bytes, without overlap. */
  ghost predicate Restorable(es: Image.Listing, pool: seq<byte>, recs: View) {
    && |Image.MapBytes(es)| < U64 && |pool| < U64
    && AllWellFormed(recs)
    && Image.PlacesOf(es).Keys == recs.Keys
    && Held(pool, Image.PlacesOf(es), EntriesOf(recs))
    && Pool.Layout(Pool.Pool(|pool| + 1, |pool|, []), LiveOf(Image.PlacesOf(es), EntriesOf(recs)))
  }

  lemma RestoredPool(mem: seq<byte>, es: Image.Listing, pool: seq<byte>, recs: View)
    requires Restorable(es, pool, recs) && |mem| > 0 && |pool| <= |mem| && mem[..|pool|] == pool
    ensures var live := LiveOf(Image.PlacesOf(es), EntriesOf(recs));
            && Held(mem, Image.PlacesOf(es), EntriesOf(recs))
            && Pool.Layout(Pool.Pool(|mem|, |pool|, []), live)
            && Pool.Balanced(Pool.Ledger(Pool.Pool(|mem|, |pool|, []), live, 0, Pool.LiveBytes(live)),
                             |pool| - Pool.LiveBytes(live))
  {
    hide Holds, EntriesOf, Image.PlacesOf, LiveOf;
    var at, imgs := Image.PlacesOf(es), EntriesOf(recs);
    HeldCopy(pool, mem, |pool|, at, imgs);
  }

  /** Saving an orderly database yields a restorable image with the same places. */
  lemma SavedRestorable(mem: seq<byte>, p: Pool.Pool, order: seq<Key>, at: Places, recs: View)
    requires Held(mem, at, EntriesOf(recs)) && AllWellFormed(recs)
    requires Pool.Layout(p, LiveOf(at, EntriesOf(recs))) && p.offset <= p.size == |mem| < U64
    requires InOrder(order, at.Keys) && forall k :: k in at ==> at[k] < U64
    requires |Image.MapBytes(ListingOf(order, at))| < U64
    ensures Image.PlacesOf(ListingOf(order, at)) == at
    ensures Restorable(ListingOf(order, at), mem[..p.offset], recs)
  {
    hide Holds, EntriesOf, LiveOf;
    ListedPlaces(order, at);
    HeldCopy(mem, mem[..p.offset], p.offset, at, EntriesOf(recs));
  }

  lemma ListedPlaces(order: seq<Key>, at: Places)
    requires InOrder(order, at.Keys) && forall k :: k in at ==> at[k] < U64
    ensures Image.PlacesOf(ListingOf(order, at)) == at
  {
    hide Image.PlacesOf;
    var es := ListingOf(order, at);
    Distinct(order, at.Keys);
    assert Image.NoDuplicates(es);
    forall k | k in at
      ensures k in Image.PlacesOf(es) && Image.PlacesOf(es)[k] == at[k]
    {
      var i :| 0 <= i < |order| && order[i] == k;
      assert es[i] == (k, at[k]);
      Image.PlacesAt(es, i);
    }
    forall k | k in Image.PlacesOf(es)
      ensures k in at
    {
      Image.PlacesKeys(es, k);
      var i :| 0 <= i < |es| && es[i].0 == k;
      assert order[i] in order;
    }
  }

  /** Close and restart: every record comes back, where it was, in a pool trimmed to the saved bytes.
      There is no image to restart from exactly when the counter has passed the size of the pool. */
  method Restart(db: Database, order: seq<Key>, initial: nat) returns (again: Option<Database>)
    requires db.Valid() && InOrder(order, db.index.Keys) && |Image.MapBytes(ListingOf(order, db.At()))| < U64
    requires initial > 0 && RoundUp(if db.offset == 0 then initial else db.offset) < U64
    ensures again.Some? <==> db.offset <= db.size
    ensures again.Some? ==>
              && var d := again.value;
              && d.Valid() && fresh(d) && fresh(d.handle)
              && d.records == db.records && d.At() == db.At()
              && d.offset == db.offset && d.free == []
              && d.size == RoundUp(if db.offset == 0 then initial else db.offset)
  {
    hide Pool.Layout, Pool.Balanced, LiveOf, EntriesOf, Held, Image.MapBytes, WellFormed;
    db.PlacesFit();
    var image := db.Save(order);
    if image.None? {
      return None;
    }
    SavedRestorable(db.handle[..], db.State(), order, db.At(), db.records);
    assert db.handle[..db.offset] == db.handle[..][..db.offset];
    var d := new Database.Load(image.value, initial, ListingOf(order, db.At()), db.handle[..db.offset], db.records);
    again := Some(d);
  }

  lemma RoundUpLeast(n: nat, m: nat)
    requires n <= m && m % 1024 == 0
    ensures RoundUp(n) <= m
  {
  }

  /** The history row a request adds: a write that is stored, to a key with history enabled. */
  function Logged(v: View, q: Request): (rows: seq<History.Row>)
    requires Callable(q)
  {
    if q.op.Write? && Apply(v, q).1 == Done(true) && HistoryOn(v[q.op.key].flags)
    then [History.Row(q.op.key, q.now, v[q.op.key].ty, q.op.data)]
    else []
  }

  /** A write that would be stored, to a key with history enabled, whose history record is larger than the
      whole history buffer. */
  predicate Spills(v: View, op: Op, capacity: nat) {
    && op.Write? && op.key in v && |op.data| == DataSize(v[op.key].count, v[op.key].size)
    && HistoryOn(v[op.key].flags) && History.RECORD + |op.data| > capacity
  }

  lemma SameLive(at: Places, imgs: Images, key: Key, b: seq<byte>)
    requires at.Keys == imgs.Keys && key in imgs && |b| == |imgs[key]|
    ensures LiveOf(at, imgs[key := b]) == LiveOf(at, imgs)
  {
  }

  lemma ReplaceEntry(at: Places, recs: View, key: Key, rec: Record)
    requires AllWellFormed(recs) && WellFormed(rec) && key in recs && |rec.data| == |recs[key].data|
    requires at.Keys == recs.Keys
    ensures AllWellFormed(recs[key := rec]) && EntriesOf(recs)[key] == Entry(recs[key])
    ensures EntriesOf(recs[key := rec]) == EntriesOf(recs)[key := Entry(rec)]
    ensures LiveOf(at, EntriesOf(recs[key := rec])) == LiveOf(at, EntriesOf(recs))
  {
  }

  lemma DropEntry(mem: seq<byte>, at: Places, recs: View, key: Key)
    requires AllWellFormed(recs) && Held(mem, at, EntriesOf(recs)) && key in recs
    ensures AllWellFormed(recs - {key}) && EntriesOf(recs - {key}) == EntriesOf(recs) - {key}
    ensures Held(mem, at - {key}, EntriesOf(recs - {key}))
    ensures LiveOf(at - {key}, EntriesOf(recs - {key})) == LiveOf(at, EntriesOf(recs)) - {key}
    ensures LiveOf(at, EntriesOf(recs))[key] == Pool.Block(at[key], HEADER + |recs[key].data|)
  {
  }

  /** What a deletion does to the books. */
  lemma DropBooks(s: Pool.Ledger<Key>, k: Key, base: int)
    requires Pool.Layout(s.pool, s.live) && Pool.Balanced(s, base) && k in s.live
    ensures var q := Pool.Release(s.pool, s.live[k]);
            Pool.Layout(q, s.live - {k}) && Pool.Balanced(Pool.Ledger(q, s.live - {k}, s.reused, s.granted), base)
  {
    Pool.StepKeeps(s, Pool.Drop(k), base);
  }

  /** The header fields and the data of a stored record, as read back out of the pool. */
  lemma StoredFields(mem: seq<byte>, at: nat, r: Record)
    requires Holds(mem, at, Entry(r))
    ensures at + HEADER + |r.data| <= |mem|
    ensures D64(mem[at + FLAGS_AT..at + TYPE_AT]) == r.flags && mem[at + TYPE_AT] == r.ty
    ensures D64(mem[at + SIZE_AT..at + COUNT_AT]) == r.size && D64(mem[at + COUNT_AT..at + HEADER]) == r.count
    ensures mem[at + HEADER..at + HEADER + |r.data|] == r.data
  {
    var e := Entry(r);
    EntryFields(r);
    HoldsPart(mem, at, e, FLAGS_AT, TYPE_AT);
    HoldsPart(mem, at, e, TYPE_AT, TYPE_AT + 1);
    assert mem[at + TYPE_AT] == mem[at + TYPE_AT..at + TYPE_AT + 1][0] == e[TYPE_AT..TYPE_AT + 1][0];
    HoldsPart(mem, at, e, SIZE_AT, COUNT_AT);
    HoldsPart(mem, at, e, COUNT_AT, HEADER);
    HoldsPart(mem, at, e, HEADER, |e|);
  }

  lemma AddEntry(recs: View, key: Key, rec: Record)
    requires AllWellFormed(recs) && WellFormed(rec)
    ensures AllWellFormed(recs[key := rec])
    ensures EntriesOf(recs[key := rec]) == EntriesOf(recs)[key := Entry(rec)]
  {
  }

  lemma AddImage(mem: seq<byte>, at: Places, imgs: Images, key: Key, off: nat, b: seq<byte>)
    requires Held(mem, at, imgs) && key !in imgs && Holds(mem, off, b)
    ensures Held(mem, at[key := off], imgs[key := b])
    ensures LiveOf(at[key := off], imgs[key := b]) == LiveOf(at, imgs)[key := Pool.Block(off, |b|)]
  {
  }

  /** What an allocation does to the books. */
  lemma TakeBooks(s: Pool.Ledger<Key>, k: Key, total: nat, limit: nat, base: int)
    requires Pool.Layout(s.pool, s.live) && Pool.Balanced(s, base) && k !in s.live && total >= HEADER
    ensures var (q, o) := Pool.Allocate(s.pool, total, limit);
            if o.At? then
              var live := s.live[k := Pool.Block(o.off, total)];
              && o.off + total <= q.size && Clear(s.live, o.off, total)
              && Pool.Layout(q, live)
              && Pool.Balanced(Pool.Ledger(q, live, s.reused + Pool.Reuse(s.pool, total), s.granted + total), base)
            else Pool.Layout(q, s.live) && Pool.Balanced(Pool.Ledger(q, s.live, s.reused, s.granted), base)
  {
    Pool.StepKeeps(s, Pool.Take(k, total, limit), base);
    AllocateClear(s.pool, s.live, total, limit);
  }

  /** The bytes [at, at + n) belong to no live block. */
  ghost predicate Clear(live: map<Key, Block>, at: nat, n: nat) {
    forall l :: l in live ==> Pool.Disjoint(live[l], Pool.Block(at, n))
  }

  lemma AllocateClear(p: Pool.Pool, live: map<Key, Block>, total: nat, limit: nat)
    requires Pool.Layout(p, live) && total >= HEADER
    ensures var (q, o) := Pool.Allocate(p, total, limit);
            o.At? ==> o.off + total <= q.size && Clear(live, o.off, HEADER) && Clear(live, o.off, total)
  {
    var k := Unused(live.Keys);
    Pool.AllocateKeepsLayout(p, live, k, total, limit);
    var (q, o) := Pool.Allocate(p, total, limit);
    if o.At? {
      var live' := live[k := Pool.Block(o.off, total)];
      forall l | l in live
        ensures Pool.Disjoint(live[l], Pool.Block(o.off, total))
      {
        assert Pool.Disjoint(live'[l], live'[k]);
      }
    }
  }

  lemma HeldAfterCopy(mem: seq<byte>, temp: seq<byte>, p: Pool.Pool, at: Places, imgs: Images)
    requires Held(mem, at, imgs) && Pool.Layout(p, LiveOf(at, imgs))
    requires p.offset <= p.size == |mem| && p.offset <= |temp| && temp[..p.offset] == mem[..p.offset]
    ensures Held(temp, at, imgs)
  {
    hide Holds, Pool.Disjoint;
    assert forall k :: k in imgs ==> LiveOf(at, imgs)[k].End() <= p.Top();
    HeldCopy(mem, temp, p.offset, at, imgs);
  }

  /** There is always another key. */
  lemma {:induction false} Unused(s: set<Key>) returns (k: Key)
    ensures k !in s
  {
    k := Longer(s);
  }

  lemma {:induction false} Longer(s: set<Key>) returns (k: Key)
    ensures forall l :: l in s ==> |l| < |k|
  {
    if s == {} {
      k := [];
    } else {
      var c :| c in s;
      var m := Longer(s - {c});
      k := if |c| < |m| then m else c + [1];
    }
  }
}
