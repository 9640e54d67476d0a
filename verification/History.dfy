/** The write-behind history log (rdb/mxrdb.cpp): variable-length records collected in a byte buffer and
    moved to a database table when the buffer is full. */
module History {
  import opened Bytes
  import opened Keys

  datatype Row = Row(key: Key, timestamp: u64, ty: byte, data: seq<byte>)

  const KEY_FIELD: nat := 512
  const SIZE_AT: nat := 520
  const TIME_AT: nat := 528
  /** sizeof(RdbHistoryData) */
  const RECORD: nat := 536

  /** Keys fit their field with the terminator; data sizes are 64-bit. */
  predicate Storable(r: Row) {
    |r.key| < KEY_FIELD && |r.data| < U64
  }

  function Encode(r: Row): (b: seq<byte>)
    requires Storable(r)
    ensures |b| == RECORD + |r.data|
  {
    r.key + [0] + Zeros(KEY_FIELD - |r.key| - 1) + [r.ty] + Zeros(7) + E64(|r.data|) + E64(r.timestamp) + r.data
  }

  lemma EncodeFields(r: Row)
    requires Storable(r)
    ensures var b := Encode(r);
            && CStr(b[..KEY_FIELD]) == r.key && b[KEY_FIELD] == r.ty
            && D64(b[SIZE_AT..TIME_AT]) == |r.data| && D64(b[TIME_AT..RECORD]) == r.timestamp
            && b[RECORD..] == r.data
  {
    var b := Encode(r);
    assert b[..KEY_FIELD] == r.key + [0] + Zeros(KEY_FIELD - |r.key| - 1);
    CStrStops(r.key, [0] + Zeros(KEY_FIELD - |r.key| - 1));
    assert r.key + ([0] + Zeros(KEY_FIELD - |r.key| - 1)) == b[..KEY_FIELD];
    assert b[SIZE_AT..TIME_AT] == E64(|r.data|);
    assert b[TIME_AT..RECORD] == E64(r.timestamp);
    D64E64(|r.data|);
    D64E64(r.timestamp);
  }

  function EncodeAll(rs: seq<Row>): (b: seq<byte>)
    requires forall r :: r in rs ==> Storable(r)
  {
    if rs == [] then [] else Encode(rs[0]) + EncodeAll(rs[1..])
  }

  lemma {:induction false} EncodeAllAppend(rs: seq<Row>, r: Row)
    requires (forall q :: q in rs ==> Storable(q)) && Storable(r)
    ensures EncodeAll(rs + [r]) == EncodeAll(rs) + Encode(r)
  {
    if rs == [] {
      assert [] + [r] == [r] && [r][1..] == [];
    } else {
      assert (rs + [r])[1..] == rs[1..] + [r];
      EncodeAllAppend(rs[1..], r);
    }
  }

  /** One record of the buffer, found only by the size field of its own header. */
  function DecodeAt(m: seq<byte>, at: nat): (r: (Row, nat))
    requires at + RECORD <= |m|
    requires at + RECORD + D64(m[at + SIZE_AT..at + TIME_AT]) <= |m|
  {
    var n := D64(m[at + SIZE_AT..at + TIME_AT]);
    (Row(CStr(m[at..at + KEY_FIELD]), D64(m[at + TIME_AT..at + RECORD]), m[at + KEY_FIELD], m[at + RECORD..at + RECORD + n]),
     at + RECORD + n)
  }

  lemma DecodeEncoded(m: seq<byte>, at: nat, r: Row)
    requires Storable(r) && Holds(m, at, Encode(r))
    ensures at + RECORD <= |m| && D64(m[at + SIZE_AT..at + TIME_AT]) == |r.data|
    ensures at + RECORD + |r.data| <= |m| && DecodeAt(m, at) == (r, at + |Encode(r)|)
  {
    hide Encode, Holds, CStr;
    var b := Encode(r);
    EncodeFields(r);
    HoldsPart(m, at, b, 0, KEY_FIELD);
    HoldsPart(m, at, b, KEY_FIELD, KEY_FIELD + 1);
    assert m[at + KEY_FIELD] == m[at + KEY_FIELD..at + KEY_FIELD + 1][0] == b[KEY_FIELD..KEY_FIELD + 1][0];
    HoldsPart(m, at, b, SIZE_AT, TIME_AT);
    HoldsPart(m, at, b, TIME_AT, RECORD);
    HoldsPart(m, at, b, RECORD, |b|);
    assert m[at + 0..at + KEY_FIELD] == m[at..at + KEY_FIELD];
    assert b[0..KEY_FIELD] == b[..KEY_FIELD];
    assert b[RECORD..|b|] == b[RECORD..];
  }

  class Buffer {
    var handle: array<byte>      // _rdb_history_handle
    var offset: nat              // _rdb_history_offset
    var size: nat                // _rdb_history_size
    var table: seq<Row>          // the rows of the "history" table
    ghost var pending: seq<Row>  // the records the buffer stands for

    ghost predicate Valid()
      reads this, handle
    {
      && handle.Length == size
      && (forall r :: r in pending ==> Storable(r))
      && offset <= size
      && handle[..offset] == EncodeAll(pending)
    }

    /** Everything ever added, in order. */
    ghost function Log(): seq<Row>
      reads this
    {
      table + pending
    }

    constructor (capacity: nat)
      ensures Valid() && fresh(handle) && size == capacity && Log() == [] && pending == []
    {
      handle := new byte[capacity];
      size := capacity;
      offset := 0;
      table := [];
      pending := [];
    }

    /** RdbHistoryFlushUnlocked */
    method Flush()
      requires Valid()
      modifies this`offset, this`table, this`pending
      ensures Valid() && Log() == old(Log()) && pending == [] && offset == 0
    {
      var walk := 0;
      ghost var i, before := 0, table;
      while walk < offset
        invariant Valid() && offset == old(offset) && pending == old(pending)
        invariant i <= |pending| && walk <= offset
        invariant handle[walk..offset] == EncodeAll(pending[i..])
        invariant table == before + pending[..i]
        decreases offset - walk
      {
        assert pending[i..] != [];
        ghost var r := pending[i];
        assert pending[i..][0] == r && pending[i..][1..] == pending[i + 1..];
        NextRecord(handle[..], walk, offset, pending[i..]);
        assert handle[walk..offset] == handle[..][walk..offset];
        var (row, next) := DecodeAt(handle[..], walk);
        table := table + [row];
        assert handle[next..offset] == handle[..][next..offset];
        walk := next;
        assert pending[..i + 1] == pending[..i] + [r];
        i := i + 1;
      }
      AllEncoded(pending[i..]);
      assert pending[..i] == pending;
      offset := 0;
      pending := [];
    }

    /** RdbHistoryAdd: flushes when the record does not fit behind the others. The C++ program copies a
        record larger than the whole buffer past its end; the model stops there and says so. */
    method Add(r: Row) returns (fits: bool)
      requires Valid() && Storable(r)
      modifies this`offset, this`table, this`pending, handle
      ensures Valid() && handle == old(handle) && size == old(size)
      ensures fits <==> RECORD + |r.data| <= size
      ensures Log() == old(Log()) + (if fits then [r] else [])
    {
      if offset + RECORD + |r.data| > size {
        Flush();
      }
      if offset + RECORD + |r.data| > size {
        return false;
      }
      ghost var was := handle[..];
      EncodeAllAppend(pending, r);
      Memcpy(handle, offset, Encode(r));
      assert handle[..offset] == was[..offset];
      offset := offset + |Encode(r)|;
      pending := pending + [r];
      return true;
    }
  }

  /** The record at the front of an encoded run, and where the next one starts. */
  lemma NextRecord(m: seq<byte>, at: nat, top: nat, rs: seq<Row>)
    requires at < top <= |m| && (forall r :: r in rs ==> Storable(r)) && m[at..top] == EncodeAll(rs)
    ensures rs != []
    ensures Holds(m, at, Encode(rs[0])) && at + |Encode(rs[0])| <= top
    ensures at + RECORD <= |m| && at + RECORD + D64(m[at + SIZE_AT..at + TIME_AT]) <= |m|
    ensures DecodeAt(m, at) == (rs[0], at + |Encode(rs[0])|)
    ensures m[at + |Encode(rs[0])|..top] == EncodeAll(rs[1..])
  {
    hide Encode, CStr;
    var e := Encode(rs[0]);
    assert m[at..top] == e + EncodeAll(rs[1..]);
    assert m[at..at + |e|] == m[at..top][..|e|] == e;
    assert m[at + |e|..top] == m[at..top][|e|..];
    DecodeEncoded(m, at, rs[0]);
  }

  lemma AllEncoded(rs: seq<Row>)
    requires (forall r :: r in rs ==> Storable(r)) && EncodeAll(rs) == []
    ensures rs == []
  {
  }
}
