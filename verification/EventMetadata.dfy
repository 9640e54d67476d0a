/** The packed table of event statistics: written by the server (network/mxevt.cpp), parsed by the web
    frontend (frontend/src/lib/convert.ts). */
module EventMetadata {
  import opened Collections
  import opened Bytes
  import opened Keys
  import Rex
  import Records

  /** One event of the statistics snapshot. */
  datatype Stat = Stat(name: Key, total: u64, clients: seq<u64>, frames: seq<u64>)

  /** sizeof(string32) */
  const NAME: nat := 32

  /** Names fit their field with the terminator; clients and frames are aligned and fit 64-bit sizes. */
  predicate Fits(s: Stat) {
    |s.name| < NAME && |s.clients| == |s.frames| && 8 * |s.clients| < U64
  }

  // ----- Writing -----

  function Words(xs: seq<u64>): (b: seq<byte>)
    ensures |b| == 8 * |xs|
  {
    if xs == [] then [] else E64(xs[0]) + Words(xs[1..])
  }

  function NameField(n: Key): (f: seq<byte>)
    requires |n| < NAME
    ensures |f| == NAME
  {
    n + Zeros(NAME - |n|)
  }

  /** What EvtPopulateMetadataBuffer writes for event `id`: the size of the clients vector goes before both. */
  function Record(id: u16, s: Stat): (b: seq<byte>)
    requires Fits(s)
    ensures |b| == 2 + NAME + 24 + 16 * |s.clients|
  {
    E16(id) + NameField(s.name) + E64(s.total)
    + E64(8 * |s.clients|) + Words(s.clients)
    + E64(8 * |s.clients|) + Words(s.frames)
  }

  predicate AllFit(stats: seq<Stat>) {
    |stats| < U16 && forall i :: 0 <= i < |stats| ==> Fits(stats[i])
  }

  /** The records of events i + 1, i + 2, and so on. */
  function Table(stats: seq<Stat>, i: nat): seq<byte>
    requires AllFit(stats) && i <= |stats|
    decreases |stats| - i
  {
    if i == |stats| then [] else Record(i + 1, stats[i]) + Table(stats, i + 1)
  }

  function Count(stats: seq<Stat>): nat {
    if stats == [] then 0 else |stats[0].clients| + Count(stats[1..])
  }

  function CountFrames(stats: seq<Stat>): nat {
    if stats == [] then 0 else |stats[0].frames| + CountFrames(stats[1..])
  }

  /** EvtCalculateStatisticsBufferSize */
  function BufferSize(stats: seq<Stat>): nat {
    |stats| * 2 + |stats| * NAME + |stats| * 8 + |stats| * 8 * 2 + Count(stats) * 8 + CountFrames(stats) * 8
  }

  /** The size computed beforehand is exactly what all records take. */
  lemma {:induction false} SizeIsExact(stats: seq<Stat>, i: nat)
    requires AllFit(stats) && i <= |stats|
    ensures |Table(stats, i)| == BufferSize(stats[i..])
    decreases |stats| - i
  {
    if i < |stats| {
      SizeIsExact(stats, i + 1);
      assert stats[i..][1..] == stats[i + 1..] && stats[i..][0] == stats[i];
    }
  }

  /** The 16-bit signed value of a length. */
  function Int16(n: u16): int {
    if n < 0x8000 then n else n - U16
  }

  /** EvtGetAllMetadata. The loop counts in a signed 16-bit variable. With 32767 events every record is
      written, the count wraps to -32768, and the loop goes on outside the vectors: it has not ended, and
      the model stops. With more, the bound is negative and nothing is written. */
  method GetAllMetadata(stats: seq<Stat>) returns (result: array<byte>, ended: bool)
    requires AllFit(stats)
    ensures fresh(result)
    ensures ended <==> |stats| != 0x7FFF
    ensures result[..] == if |stats| <= 0x7FFF then Table(stats, 0) else Zeros(BufferSize(stats))
    ensures ended && result[..] == Table(stats, 0) <==> |stats| <= 32766
  {
    hide BufferSize, Record, Table, Fits, Zeros, Splice, Writing;
    SizeIsExact(stats, 0);
    assert stats[0..] == stats;
    result := new byte[BufferSize(stats)](_ => 0);
    assert result[..] == Zeros(BufferSize(stats));
    var data := 0;
    var i := 1;
    ended := true;
    ghost var done := 0;
    StartWriting(stats, result[..]);
    while i <= Int16(|stats|) && ended
      invariant Writing(stats, done, i, ended, result[..], data)
      decreases |stats| - done, ended
    {
      WritingNext(stats, done, i, result[..], data);
      if i < 1 {
        ended := false;
      } else {
        data := PopulateMetadataBuffer(i, stats[i - 1], result, data);
        i := if i == 0x7FFF then -0x8000 else i + 1;
        done := done + 1;
      }
    }
    WritingEnds(stats, done, i, ended, result[..], data);
  }

  /** Where the loop stands after `done` records. */
  ghost predicate Writing(stats: seq<Stat>, done: nat, i: int, ended: bool, mem: seq<byte>, data: nat)
    requires AllFit(stats)
  {
    if |stats| > 0x7FFF then i == 1 && ended && done == 0 && mem == Zeros(BufferSize(stats))
    else
      && done <= |stats| && Written(stats, done, mem, data)
      && i == (if done == 0x7FFF then -0x8000 else done + 1)
      && (ended || done == 0x7FFF)
  }

  lemma StartWriting(stats: seq<Stat>, mem: seq<byte>)
    requires AllFit(stats) && mem == Zeros(BufferSize(stats)) && |mem| == |Table(stats, 0)|
    ensures Writing(stats, 0, 1, true, mem, 0)
  {
    hide Table;
    NothingWritten(stats, mem);
  }

  lemma WritingNext(stats: seq<Stat>, done: nat, i: int, mem: seq<byte>, data: nat)
    requires AllFit(stats) && Writing(stats, done, i, true, mem, data) && i <= Int16(|stats|)
    ensures done <= |stats|
    ensures i < 1 ==> Writing(stats, done, i, false, mem, data)
    ensures i >= 1 ==>
              && done == i - 1 < |stats|
              && var r := Record(i, stats[i - 1]);
              && data + |r| <= |mem|
              && Writing(stats, done + 1, if i == 0x7FFF then -0x8000 else i + 1, true, Splice(mem, data, r), data + |r|)
  {
    hide Record, Table, Fits, Splice, Written;
    if i >= 1 { RecordNext(stats, done, mem, data); }
  }

  lemma WritingEnds(stats: seq<Stat>, done: nat, i: int, ended: bool, mem: seq<byte>, data: nat)
    requires AllFit(stats) && Writing(stats, done, i, ended, mem, data) && (i > Int16(|stats|) || !ended)
    ensures ended <==> |stats| != 0x7FFF
    ensures mem == if |stats| <= 0x7FFF then Table(stats, 0) else Zeros(BufferSize(stats))
    ensures ended && mem == Table(stats, 0) <==> |stats| <= 32766
  {
    hide Record, Table, Fits, BufferSize, Zeros;
    if |stats| > 0x7FFF { ZerosIncomplete(stats); } else { AllWritten(stats, mem, data); }
  }

  /** A value of the 16-bit count at which the loop over n events ends. */
  predicate Ends(n: u16, i: int) {
    -0x8000 <= i <= 0x7FFF && i > Int16(n)
  }

  /** With 32767 events, and only then, there is none. */
  lemma NeverEndsExactly(n: u16)
    ensures (forall i :: !Ends(n, i)) <==> n == 0x7FFF
  {
    assert n != 0x7FFF ==> Ends(n, 0x7FFF);
  }

  /** The first n records are in the buffer, and there is exactly room for the others. */
  ghost predicate Written(stats: seq<Stat>, n: nat, mem: seq<byte>, data: nat)
    requires AllFit(stats) && n <= |stats|
  {
    data + |Table(stats, n)| == |mem| && mem[..data] + Table(stats, n) == Table(stats, 0)
  }

  lemma NothingWritten(stats: seq<Stat>, mem: seq<byte>)
    requires AllFit(stats) && |mem| == |Table(stats, 0)|
    ensures Written(stats, 0, mem, 0)
  {
    assert mem[..0] + Table(stats, 0) == Table(stats, 0);
  }

  lemma RecordNext(stats: seq<Stat>, n: nat, mem: seq<byte>, data: nat)
    requires AllFit(stats) && n < |stats| && Written(stats, n, mem, data)
    ensures var r := Record(n + 1, stats[n]);
            data + |r| <= |mem| && Written(stats, n + 1, Splice(mem, data, r), data + |r|)
  {
    var r := Record(n + 1, stats[n]);
    var rest := Table(stats, n + 1);
    assert Table(stats, n) == r + rest;
    hide Record, Table;
    SpliceNext(mem, data, r, rest);
  }

  lemma SpliceNext(mem: seq<byte>, data: nat, r: seq<byte>, rest: seq<byte>)
    requires data + |r| <= |mem|
    ensures Splice(mem, data, r)[..data + |r|] + rest == mem[..data] + (r + rest)
  {
    assert Splice(mem, data, r)[..data + |r|] == mem[..data] + r;
  }

  lemma AllWritten(stats: seq<Stat>, mem: seq<byte>, data: nat)
    requires AllFit(stats) && Written(stats, |stats|, mem, data)
    ensures mem == Table(stats, 0)
  {
    assert Table(stats, |stats|) == [];
    assert mem[..data] + [] == mem;
  }

  /** One memcpy and the step of the pointer behind it. */
  method Put(result: array<byte>, data: nat, src: seq<byte>, ghost was: seq<byte>, ghost done: seq<byte>) returns (next: nat)
    requires |done| <= data && data + |src| <= result.Length == |was|
    requires result[..] == Splice(was, data - |done|, done)
    modifies result
    ensures next == data + |src|
    ensures result[..] == Splice(was, data - |done|, done + src)
  {
    Memcpy(result, data, src);
    SpliceMore(was, data - |done|, done, src);
    next := data + |src|;
  }

  lemma SpliceMore(m: seq<byte>, at: nat, done: seq<byte>, src: seq<byte>)
    requires at + |done| + |src| <= |m|
    ensures Splice(Splice(m, at, done), at + |done|, src) == Splice(m, at, done + src)
  {
  }

  /** EvtPopulateMetadataBuffer: writes one record at `at`, field by field, and returns the end of it. */
  method PopulateMetadataBuffer(eventid: u16, s: Stat, result: array<byte>, at: nat) returns (data: nat)
    requires Fits(s) && at + |Record(eventid, s)| <= result.Length
    modifies result
    ensures data == at + |Record(eventid, s)|
    ensures result[..] == Splice(old(result[..]), at, Record(eventid, s))
  {
    hide E16, E64, Words, NameField, Splice;
    ghost var was, done := result[..], [];
    SpliceNothing(was, at);
    data := Put(result, at, E16(eventid), was, done);
    done := done + E16(eventid);
    data := Put(result, data, NameField(s.name), was, done);
    done := done + NameField(s.name);
    data := Put(result, data, E64(s.total), was, done);
    done := done + E64(s.total);
    var nclientbytes := 8 * |s.clients|;
    data := Put(result, data, E64(nclientbytes), was, done);
    done := done + E64(nclientbytes);
    data := Put(result, data, Words(s.clients), was, done);
    done := done + Words(s.clients);
    data := Put(result, data, E64(nclientbytes), was, done);
    done := done + E64(nclientbytes);
    data := Put(result, data, Words(s.frames), was, done);
    done := done + Words(s.frames);
    assert [] + E16(eventid) == E16(eventid);
  }

  lemma SpliceNothing(m: seq<byte>, at: nat)
    requires at <= |m|
    ensures Splice(m, at, []) == m
  {
  }

  /** A table that was never written is not the table. */
  lemma ZerosIncomplete(stats: seq<Stat>)
    requires AllFit(stats) && stats != []
    ensures Zeros(BufferSize(stats)) != Table(stats, 0)
  {
    hide Record, BufferSize;
    FirstId(stats[0]);
    assert Table(stats, 0) == Record(1, stats[0]) + Table(stats, 1);
    assert Table(stats, 0)[0] == 1;
  }

  lemma FirstId(s: Stat)
    requires Fits(s)
    ensures Record(1, s)[0] == 1
  {
    hide NameField, Words, E64;
    assert E16(1)[0] == 1;
  }

  // ----- Parsing -----

  /** The column types of MxGenericType.unpack with a width of their own, and byte arrays. */
  datatype ColumnType =
    | Signed(width: nat)
    | Unsigned(width: nat)
    | Float(width: nat)
    | Boolean
    | Chars(width: nat)
    | ByteArray

  predicate Wide(c: ColumnType) {
    c.Boolean? || c.ByteArray? || c.width > 0
  }

  type Column = c: ColumnType | Wide(c) witness Boolean

  const INT16: Column := Signed(2)
  const STR32: Column := Chars(32)
  const UINT64: Column := Unsigned(8)

  /** A floating-point number is its bytes. */
  datatype Value = Number(n: int) | Real(bits: seq<byte>) | Flag(on: bool) | Text(s: seq<byte>) | Blob(b: seq<byte>)

  /** Two's complement. */
  function SignedValue(b: seq<byte>): int {
    if 2 * DecodeLE(b) < Pow256(|b|) then DecodeLE(b) else DecodeLE(b) - Pow256(|b|)
  }

  /** One column at packoffset, with the next packoffset; None where the view throws. */
  function ReadColumn(c: Column, view: seq<byte>, at: nat): (r: Option<(Value, nat)>)
    ensures r.Some? ==> r.value.1 > at
  {
    match c
    case Signed(n) => if at + n <= |view| then Some((Number(SignedValue(view[at..at + n])), at + n)) else None
    case Unsigned(n) => if at + n <= |view| then Some((Number(DecodeLE(view[at..at + n])), at + n)) else None
    case Float(n) => if at + n <= |view| then Some((Real(view[at..at + n]), at + n)) else None
    case Boolean => if at < |view| then Some((Flag(view[at] == 1), at + 1)) else None
    case Chars(n) => Some((Text(if at <= |view| then CStr(view[at..]) else []), at + n))
    case ByteArray =>
      if at + 8 > |view| then None
      else
        var n := D64(view[at..at + 8]);
        if at + 8 + n <= |view| then Some((Blob(view[at + 8..at + 8 + n]), at + 8 + n)) else None
  }

  /** Two's complement, both ways: a signed number of n bytes is read back from the bytes of its remainder. */
  lemma SignedRoundTrip(v: int, n: nat)
    requires n > 0 && -2 * v <= Pow256(n) && 2 * v < Pow256(n)
    ensures SignedValue(EncodeLE(if v < 0 then v + Pow256(n) else v, n)) == v
  {
    DecodeEncode(if v < 0 then v + Pow256(n) else v, n);
  }

  /** What the other columns hold: a boolean is true for the byte 1 alone, and a floating-point number is its
      bytes; each moves on by its width, and none reads past the view. */
  lemma ColumnMeans(view: seq<byte>, at: nat, n: nat)
    requires n > 0
    ensures ReadColumn(Boolean, view, at) == if at < |view| then Some((Flag(view[at] == 1), at + 1)) else None
    ensures ReadColumn(Float(n), view, at) == if at + n <= |view| then Some((Real(view[at..at + n]), at + n)) else None
    ensures ReadColumn(Signed(n), view, at).Some? <==> at + n <= |view|
    ensures at + n <= |view| ==> ReadColumn(Unsigned(n), view, at) == Some((Number(DecodeLE(view[at..at + n])), at + n))
    ensures at + n <= |view| ==> ReadColumn(Signed(n), view, at) == Some((Number(SignedValue(view[at..at + n])), at + n))
  {
  }

  function ReadRow(cs: seq<Column>, view: seq<byte>, at: nat): (r: Option<(seq<Value>, nat)>)
    ensures r.Some? && cs != [] ==> r.value.1 > at
  {
    if cs == [] then Some(([], at))
    else
      var v := ReadColumn(cs[0], view, at);
      if v.None? then None
      else
        WithCells([v.value.0], ReadRow(cs[1..], view, v.value.1))
  }

  function WithCells(cells: seq<Value>, rest: Option<(seq<Value>, nat)>): Option<(seq<Value>, nat)> {
    if rest.None? then None else Some((cells + rest.value.0, rest.value.1))
  }

  function WithRows(rows: seq<seq<Value>>, rest: Option<seq<seq<Value>>>): Option<seq<seq<Value>>> {
    if rest.None? then None else Some(rows + rest.value)
  }

  lemma WithMore(cells: seq<Value>, v: Value, row: Option<(seq<Value>, nat)>,
                 rows: seq<seq<Value>>, r: seq<Value>, table: Option<seq<seq<Value>>>)
    ensures WithCells([], row) == row && WithCells(cells, WithCells([v], row)) == WithCells(cells + [v], row)
    ensures WithRows([], table) == table && WithRows(rows, WithRows([r], table)) == WithRows(rows + [r], table)
  {
    if row.Some? {
      assert [] + row.value.0 == row.value.0;
      assert cells + ([v] + row.value.0) == cells + [v] + row.value.0;
    }
    if table.Some? {
      assert [] + table.value == table.value;
      assert rows + ([r] + table.value) == rows + [r] + table.value;
    }
  }

  function ReadRows(cs: seq<Column>, view: seq<byte>, at: nat): Option<seq<seq<Value>>>
    requires cs != []
    decreases |view| - at
  {
    if at >= |view| then Some([])
    else
      var r := ReadRow(cs, view, at);
      if r.None? then None
      else
        WithRows([r.value.0], ReadRows(cs, view, r.value.1))
  }

  /** MxGenericType.unpack on a generic reply: the size prefix is skipped when there is anything behind it. */
  method Unpack(data: seq<byte>, structure: seq<Column>) returns (output: Option<seq<seq<Value>>>)
    requires structure != []
    ensures output == if |data| == 0 then None
                      else ReadRows(structure, if |data| > 8 then data[8..] else data, 0)
  {
    if |data| == 0 {
      return None;
    }
    hide ReadColumn, WithCells, WithRows;
    var view := if |data| > 8 then data[8..] else data;
    var packoffset := 0;
    var rows: seq<seq<Value>> := [];
    WithMore([], Number(0), None, [], [], ReadRows(structure, view, 0));
    while packoffset < |view|
      invariant ReadRows(structure, view, 0) == WithRows(rows, ReadRows(structure, view, packoffset))
      decreases |view| - packoffset
    {
      var element: seq<Value> := [];
      ghost var start := packoffset;
      var k := 0;
      assert structure[0..] == structure;
      WithMore([], Number(0), ReadRow(structure, view, start), [], [], None);
      while k < |structure|
        invariant k <= |structure| && start <= packoffset && (k > 0 ==> start < packoffset)
        invariant ReadRow(structure, view, start) == WithCells(element, ReadRow(structure[k..], view, packoffset))
      {
        NextColumn(structure, k, view, packoffset);
        var v := ReadColumn(structure[k], view, packoffset);
        if v.None? {
          NoRow(element, rows);
          return None;
        }
        WithMore(element, v.value.0, ReadRow(structure[k + 1..], view, v.value.1), [], [], None);
        element := element + [v.value.0];
        packoffset := v.value.1;
        k := k + 1;
      }
      RowDone(structure, view, packoffset, element);
      WithMore([], Number(0), None, rows, element, ReadRows(structure, view, packoffset));
      rows := rows + [element];
    }
    AllRead(structure, view, packoffset, rows);
    output := Some(rows);
  }

  lemma NextColumn(cs: seq<Column>, k: nat, view: seq<byte>, at: nat)
    requires k < |cs|
    ensures var v := ReadColumn(cs[k], view, at);
            ReadRow(cs[k..], view, at) == if v.None? then None else WithCells([v.value.0], ReadRow(cs[k + 1..], view, v.value.1))
  {
    assert cs[k..][0] == cs[k] && cs[k..][1..] == cs[k + 1..];
  }

  lemma NoRow(cells: seq<Value>, rows: seq<seq<Value>>)
    ensures WithCells(cells, None) == None && WithRows(rows, None) == None
  {
  }

  lemma RowDone(cs: seq<Column>, view: seq<byte>, at: nat, cells: seq<Value>)
    ensures WithCells(cells, ReadRow(cs[|cs|..], view, at)) == Some((cells, at))
  {
    assert cells + [] == cells;
  }

  lemma AllRead(cs: seq<Column>, view: seq<byte>, at: nat, rows: seq<seq<Value>>)
    requires cs != [] && |view| <= at
    ensures WithRows(rows, ReadRows(cs, view, at)) == Some(rows)
  {
    assert rows + [] == rows;
  }

  // ----- The round trip -----

  const EVENT_COLUMNS: seq<Column> := [INT16, STR32, UINT64, ByteArray, ByteArray]

  /** What the frontend should see of event i + 1. */
  function RowOf(stats: seq<Stat>, i: nat): seq<Value>
    requires i < |stats|
  {
    [Number(i + 1), Text(stats[i].name), Number(stats[i].total), Blob(Words(stats[i].clients)), Blob(Words(stats[i].frames))]
  }

  function RowsOf(stats: seq<Stat>, i: nat): seq<seq<Value>>
    requires i <= |stats|
    decreases |stats| - i
  {
    if i == |stats| then [] else [RowOf(stats, i)] + RowsOf(stats, i + 1)
  }

  /** The fields of a record, wherever it stands in the view. */
  lemma RecordFields(view: seq<byte>, at: nat, id: u16, s: Stat)
    requires Fits(s) && Holds(view, at, Record(id, s))
    ensures var n := 8 * |s.clients|;
            && at + 58 + 2 * n <= |view|
            && D16(view[at..at + 2]) == id
            && CStr(view[at + 2..]) == s.name
            && D64(view[at + 34..at + 42]) == s.total
            && D64(view[at + 42..at + 50]) == n && view[at + 50..at + 50 + n] == Words(s.clients)
            && D64(view[at + 50 + n..at + 58 + n]) == n && view[at + 58 + n..at + 58 + 2 * n] == Words(s.frames)
  {
    hide E16, E64, D16, D64, CStr, Words;
    var n := 8 * |s.clients|;
    var r := Record(id, s);
    D16E16(id);
    D64E64(s.total);
    D64E64(n);
    HoldsPart(view, at, r, 0, 2);
    HoldsPart(view, at, r, 2, 34);
    HoldsPart(view, at, r, 34, 42);
    HoldsPart(view, at, r, 42, 50);
    HoldsPart(view, at, r, 50, 50 + n);
    HoldsPart(view, at, r, 50 + n, 58 + n);
    HoldsPart(view, at, r, 58 + n, 58 + 2 * n);
    RecordParts(id, s);
    var field := NameField(s.name);
    assert view[at + 2..] == s.name + (field[|s.name|..] + view[at + 34..]);
    CStrStops(s.name, field[|s.name|..] + view[at + 34..]);
  }

  lemma RecordParts(id: u16, s: Stat)
    requires Fits(s)
    ensures var n := 8 * |s.clients|;
            var r := Record(id, s);
            && r[0..2] == E16(id) && r[2..34] == NameField(s.name) && r[34..42] == E64(s.total)
            && r[42..50] == E64(n) && r[50..50 + n] == Words(s.clients)
            && r[50 + n..58 + n] == E64(n) && r[58 + n..58 + 2 * n] == Words(s.frames)
  {
    hide E16, E64, Words, NameField;
  }

  lemma ColumnsParse(view: seq<byte>, at: nat, id: u16, s: Stat)
    requires Fits(s) && id < 0x8000 && Holds(view, at, Record(id, s))
    ensures var n := 8 * |s.clients|;
            && ReadColumn(INT16, view, at) == Some((Number(id), at + 2))
            && ReadColumn(STR32, view, at + 2) == Some((Text(s.name), at + 34))
            && ReadColumn(UINT64, view, at + 34) == Some((Number(s.total), at + 42))
            && ReadColumn(ByteArray, view, at + 42) == Some((Blob(Words(s.clients)), at + 50 + n))
            && ReadColumn(ByteArray, view, at + 50 + n) == Some((Blob(Words(s.frames)), at + 58 + 2 * n))
  {
    hide Record, Holds, CStr, D64, D16, Words, NameField, ReadColumn;
    HeadsParse(view, at, id, s);
    BlobsParse(view, at, id, s);
  }

  lemma HeadsParse(view: seq<byte>, at: nat, id: u16, s: Stat)
    requires Fits(s) && id < 0x8000 && Holds(view, at, Record(id, s))
    ensures ReadColumn(INT16, view, at) == Some((Number(id), at + 2))
    ensures ReadColumn(STR32, view, at + 2) == Some((Text(s.name), at + 34))
    ensures ReadColumn(UINT64, view, at + 34) == Some((Number(s.total), at + 42))
  {
    hide Record, Holds, CStr, D64, D16, Words, NameField, ReadColumn;
    RecordFields(view, at, id, s);
    ReadShort(view, at, id);
    ReadName(view, at + 2);
    ReadLong(view, at + 34);
  }

  lemma BlobsParse(view: seq<byte>, at: nat, id: u16, s: Stat)
    requires Fits(s) && Holds(view, at, Record(id, s))
    ensures var n := 8 * |s.clients|;
            && ReadColumn(ByteArray, view, at + 42) == Some((Blob(Words(s.clients)), at + 50 + n))
            && ReadColumn(ByteArray, view, at + 50 + n) == Some((Blob(Words(s.frames)), at + 58 + 2 * n))
  {
    hide Record, Holds, CStr, D64, D16, Words, NameField, ReadColumn;
    RecordFields(view, at, id, s);
    ReadBlob(view, at + 42);
    ReadBlob(view, at + 50 + 8 * |s.clients|);
  }

  lemma ReadShort(view: seq<byte>, at: nat, id: u16)
    requires at + 2 <= |view| && D16(view[at..at + 2]) == id < 0x8000
    ensures ReadColumn(INT16, view, at) == Some((Number(id), at + 2))
  {
    Widths();
  }

  lemma ReadName(view: seq<byte>, at: nat)
    requires at <= |view|
    ensures ReadColumn(STR32, view, at) == Some((Text(CStr(view[at..])), at + 32))
  {
  }

  lemma ReadLong(view: seq<byte>, at: nat)
    requires at + 8 <= |view|
    ensures ReadColumn(UINT64, view, at) == Some((Number(D64(view[at..at + 8])), at + 8))
  {
  }

  lemma ReadBlob(view: seq<byte>, at: nat)
    requires at + 8 <= |view| && at + 8 + D64(view[at..at + 8]) <= |view|
    ensures var n := D64(view[at..at + 8]);
            ReadColumn(ByteArray, view, at) == Some((Blob(view[at + 8..at + 8 + n]), at + 8 + n))
  {
  }

  /** A row of the event table, column by column. */
  lemma FiveColumns(view: seq<byte>, at: nat, p: nat, q: nat, a: Value, b: Value, c: Value, d: Value, e: Value)
    requires ReadColumn(INT16, view, at) == Some((a, at + 2))
    requires ReadColumn(STR32, view, at + 2) == Some((b, at + 34))
    requires ReadColumn(UINT64, view, at + 34) == Some((c, at + 42))
    requires ReadColumn(ByteArray, view, at + 42) == Some((d, p))
    requires ReadColumn(ByteArray, view, p) == Some((e, q))
    ensures ReadRow(EVENT_COLUMNS, view, at) == Some(([a, b, c, d, e], q))
  {
    hide ReadColumn, ReadRow;
    var one: seq<Column> := [ByteArray];
    var two: seq<Column> := [ByteArray, ByteArray];
    var three: seq<Column> := [UINT64, ByteArray, ByteArray];
    var four: seq<Column> := [STR32, UINT64, ByteArray, ByteArray];
    assert [ByteArray] + [] == one && [ByteArray] + one == two && [UINT64] + two == three;
    assert [STR32] + three == four && [INT16] + four == EVENT_COLUMNS;
    assert [e] + [] == [e] && [d] + [e] == [d, e] && [c] + [d, e] == [c, d, e];
    assert [b] + [c, d, e] == [b, c, d, e] && [a] + [b, c, d, e] == [a, b, c, d, e];
    RowEnds(view, q);
    RowCons(ByteArray, [], view, p, e, [], q);
    RowCons(ByteArray, one, view, at + 42, d, [e], q);
    RowCons(UINT64, two, view, at + 34, c, [d, e], q);
    RowCons(STR32, three, view, at + 2, b, [c, d, e], q);
    RowCons(INT16, four, view, at, a, [b, c, d, e], q);
  }

  lemma RowParses(view: seq<byte>, at: nat, stats: seq<Stat>, i: nat)
    requires AllFit(stats) && i < |stats| <= 32766 && Holds(view, at, Record(i + 1, stats[i]))
    ensures ReadRow(EVENT_COLUMNS, view, at) == Some((RowOf(stats, i), at + |Record(i + 1, stats[i])|))
  {
    hide Record, Holds, Words, ReadColumn, ReadRow;
    var s := stats[i];
    var n := 8 * |s.clients|;
    ColumnsParse(view, at, i + 1, s);
    FiveColumns(view, at, at + 50 + n, at + 58 + 2 * n,
                Number(i + 1), Text(s.name), Number(s.total), Blob(Words(s.clients)), Blob(Words(s.frames)));
  }

  lemma RowEnds(view: seq<byte>, at: nat)
    ensures ReadRow([], view, at) == Some(([], at))
  {
  }

  lemma RowCons(c: Column, cs: seq<Column>, view: seq<byte>, at: nat, v: Value, vs: seq<Value>, end: nat)
    requires ReadColumn(c, view, at).Some? && ReadColumn(c, view, at).value.0 == v
    requires ReadRow(cs, view, ReadColumn(c, view, at).value.1) == Some((vs, end))
    ensures [c] + cs != [] && ReadRow([c] + cs, view, at) == Some(([v] + vs, end))
  {
    assert ([c] + cs)[1..] == cs;
  }

  /** The frontend recovers every id, name, total, client list and frame list of up to 32766 events. */
  lemma {:induction false} TableParses(view: seq<byte>, at: nat, stats: seq<Stat>, i: nat)
    requires AllFit(stats) && i <= |stats| <= 32766
    requires at <= |view| && view[at..] == Table(stats, i)
    ensures ReadRows(EVENT_COLUMNS, view, at) == Some(RowsOf(stats, i))
    decreases |stats| - i
  {
    hide Record, Table, ReadRow, ReadRows, RowOf, RowsOf, Fits;
    if i == |stats| {
      NoMoreRows(view, at, stats);
    } else {
      FirstRow(view, at, stats, i);
      TableParses(view, at + |Record(i + 1, stats[i])|, stats, i + 1);
      OneMoreRow(view, at, stats, i, at + |Record(i + 1, stats[i])|);
    }
  }

  lemma NoMoreRows(view: seq<byte>, at: nat, stats: seq<Stat>)
    requires AllFit(stats) && at <= |view| && view[at..] == Table(stats, |stats|)
    ensures ReadRows(EVENT_COLUMNS, view, at) == Some(RowsOf(stats, |stats|))
  {
    assert |view[at..]| == 0;
  }

  lemma FirstRow(view: seq<byte>, at: nat, stats: seq<Stat>, i: nat)
    requires AllFit(stats) && i < |stats| <= 32766
    requires at <= |view| && view[at..] == Table(stats, i)
    ensures var next := at + |Record(i + 1, stats[i])|;
            && at < next <= |view| && view[next..] == Table(stats, i + 1)
            && ReadRow(EVENT_COLUMNS, view, at) == Some((RowOf(stats, i), next))
  {
    var r := Record(i + 1, stats[i]);
    assert Table(stats, i) == r + Table(stats, i + 1);
    hide Record, Table, ReadRow, RowOf, Fits;
    SuffixAfter(view, at, r, Table(stats, i + 1));
    RowParses(view, at, stats, i);
  }

  lemma OneMoreRow(view: seq<byte>, at: nat, stats: seq<Stat>, i: nat, next: nat)
    requires i < |stats| && at < |view| && ReadRow(EVENT_COLUMNS, view, at) == Some((RowOf(stats, i), next))
    requires ReadRows(EVENT_COLUMNS, view, next) == Some(RowsOf(stats, i + 1))
    ensures ReadRows(EVENT_COLUMNS, view, at) == Some(RowsOf(stats, i))
  {
    hide ReadRow, RowOf;
  }

  lemma SuffixAfter(view: seq<byte>, at: nat, r: seq<byte>, rest: seq<byte>)
    requires at <= |view| && view[at..] == r + rest
    ensures at + |r| <= |view| && view[at..at + |r|] == r && view[at + |r|..] == rest
  {
    assert view[at..at + |r|] == view[at..][..|r|];
    assert view[at + |r|..] == view[at..][|r|..];
  }

  /** From the server's snapshot to the frontend's rows, through the size-prefixed reply. The rows are what
      they should be exactly for 1 to 32766 events; a reply without events is taken for data. */
  method PublishAndParse(stats: seq<Stat>) returns (rows: Option<seq<seq<Value>>>)
    requires AllFit(stats) && BufferSize(stats) < U64
    ensures rows == Some(RowsOf(stats, 0)) <==> 1 <= |stats| <= 32766
    ensures 1 <= |stats| <= 32766 ==> |rows.value| == |stats| && forall i :: 0 <= i < |stats| ==> rows.value[i] == RowOf(stats, i)
  {
    var table, ended := GetAllMetadata(stats);
    SizeIsExact(stats, 0);
    assert stats[0..] == stats;
    hide BufferSize, Record, ReadRows, ReadRow, RowOf, RowsOf, Table;
    RowsOfAt(stats, 0);
    if !ended {
      return None;
    }
    var reply := E64(table.Length) + table[..];
    rows := Unpack(reply, EVENT_COLUMNS);
    if |stats| == 0 {
      NoTable(stats, reply);
    } else {
      SomeTable(stats);
      assert reply[8..] == table[..] && table[..][0..] == table[..];
      if |stats| <= 32766 {
        TableParses(table[..], 0, stats, 0);
      } else {
        ZeroId(table[..], stats);
      }
    }
  }

  /** The five cells of an event. */
  lemma RowCells(stats: seq<Stat>)
    ensures forall i :: 0 <= i < |stats| ==>
              RowOf(stats, i) == [Number(i + 1), Text(stats[i].name), Number(stats[i].total),
                                  Blob(Words(stats[i].clients)), Blob(Words(stats[i].frames))]
  {
  }

  /** The size prefix of a reply without events is read as a row, which it is too short for. */
  lemma NoTable(stats: seq<Stat>, reply: seq<byte>)
    requires AllFit(stats) && stats == [] && |reply| == 8 + |Table(stats, 0)|
    ensures |reply| == 8 && ReadRows(EVENT_COLUMNS, reply, 0) == None
  {
    hide SignedValue, CStr, DecodeLE;
    var cs: seq<Column> := EVENT_COLUMNS;
    assert ReadColumn(cs[1..][1..][0], reply, 34) == None;
    assert ReadRow(cs[1..][1..], reply, 34) == None;
    assert ReadRow(cs[1..], reply, 2) == None;
    assert ReadRow(cs, reply, 0) == None;
  }

  lemma SomeTable(stats: seq<Stat>)
    requires AllFit(stats) && stats != []
    ensures |Table(stats, 0)| > 0 && |RowsOf(stats, 0)| > 0 && RowsOf(stats, 0)[0] == RowOf(stats, 0)
    ensures RowOf(stats, 0)[0] == Number(1)
  {
    hide Record;
    assert Table(stats, 0) == Record(1, stats[0]) + Table(stats, 1);
  }

  /** A table of zeros is not read as the rows of the events. */
  lemma ZeroId(view: seq<byte>, stats: seq<Stat>)
    requires AllFit(stats) && stats != [] && |view| >= 2 && view[0] == 0 && view[1] == 0
    ensures ReadRows(EVENT_COLUMNS, view, 0) != Some(RowsOf(stats, 0))
  {
    SomeTable(stats);
    FirstCell(view);
    var cs: seq<Column> := EVENT_COLUMNS;
    hide ReadRow, RowsOf, RowOf, EVENT_COLUMNS;
    var r := ReadRow(cs, view, 0);
    if r.Some? {
      var all := ReadRows(cs, view, 0);
      assert all.Some? ==> all.value[0] == r.value.0;
    }
  }

  lemma FirstCell(view: seq<byte>)
    requires |view| >= 2 && view[0] == 0 && view[1] == 0
    ensures var r := ReadRow(EVENT_COLUMNS, view, 0);
            r.Some? ==> r.value.0 != [] && r.value.0[0] == Number(0)
  {
    var id := view[0..2];
    assert id == [0, 0] && id[1..] == [0] && id[1..][1..] == [];
    assert DecodeLE(id[1..][1..]) == 0 && DecodeLE(id[1..]) == 0 && DecodeLE(id) == 0;
    Widths();
    assert ReadColumn(INT16, view, 0) == Some((Number(0), 2));
    hide ReadColumn;
  }

  lemma {:induction false} RowsOfAt(stats: seq<Stat>, i: nat)
    requires i <= |stats|
    ensures |RowsOf(stats, i)| == |stats| - i
    ensures forall j :: 0 <= j < |stats| - i ==> RowsOf(stats, i)[j] == RowOf(stats, i + j)
    decreases |stats| - i
  {
    hide RowOf;
    if i < |stats| {
      RowsOfAt(stats, i + 1);
      var rest := RowsOf(stats, i + 1);
      assert RowsOf(stats, i) == [RowOf(stats, i)] + rest;
      forall j | 0 <= j < |stats| - i
        ensures RowsOf(stats, i)[j] == RowOf(stats, i + j)
      {
        if j > 0 { assert rest[j - 1] == RowOf(stats, i + 1 + (j - 1)); }
      }
    }
  }

  // ----- Types of values -----

  /** typeidFromType */
  function TypeIdFromType(name: string): Option<byte> {
    match name
    case "int8" => Some(0)
    case "int16" => Some(1)
    case "int32" => Some(2)
    case "int64" => Some(3)
    case "uint8" => Some(4)
    case "uint16" => Some(5)
    case "uint32" => Some(6)
    case "uint64" => Some(7)
    case "float32" => Some(8)
    case "float64" => Some(9)
    case "string" => Some(10)
    case "bool" => Some(11)
    case _ => None
  }

  /** sizeFromType */
  function SizeFromType(name: string): Option<nat> {
    match name
    case "int8" => Some(1)
    case "int16" => Some(2)
    case "int32" => Some(4)
    case "int64" => Some(8)
    case "uint8" => Some(1)
    case "uint16" => Some(2)
    case "uint32" => Some(4)
    case "uint64" => Some(8)
    case "float32" => Some(4)
    case "float64" => Some(8)
    case "string32" => Some(32)
    case "bool" => Some(1)
    case _ => None
  }

  /** The frontend and the database agree on the size of every type but strings, for which the frontend has
      no size and the database takes 512 bytes; the database gives any other type no size. */
  lemma SizesAgree(name: string, ty: byte)
    requires TypeIdFromType(name) == Some(ty)
    ensures name != "string" ==> SizeFromType(name) == Some(Records.TypeSize(ty))
    ensures name == "string" ==> SizeFromType(name) == None && Records.TypeSize(ty) == 512
  {
  }

  lemma UnknownTypeHasNoSize(ty: byte)
    requires forall name :: TypeIdFromType(name) != Some(ty)
    ensures Records.TypeSize(ty) == 0
  {
    assert TypeIdFromType("int8") == Some(0) && TypeIdFromType("int16") == Some(1) && TypeIdFromType("int32") == Some(2);
    assert TypeIdFromType("int64") == Some(3) && TypeIdFromType("uint8") == Some(4) && TypeIdFromType("uint16") == Some(5);
    assert TypeIdFromType("uint32") == Some(6) && TypeIdFromType("uint64") == Some(7) && TypeIdFromType("float32") == Some(8);
    assert TypeIdFromType("float64") == Some(9) && TypeIdFromType("string") == Some(10) && TypeIdFromType("bool") == Some(11);
  }

  // ----- The frontend's view of the two byte columns -----

  function FromWords(b: seq<byte>): seq<u64> {
    if |b| < 8 then [] else [D64(b[..8])] + FromWords(b[8..])
  }

  /** The byte arrays are read back as the client ids and the frame counters. */
  lemma {:induction false} WordsParse(xs: seq<u64>)
    ensures FromWords(Words(xs)) == xs
  {
    if xs != [] {
      WordsParse(xs[1..]);
      D64E64(xs[0]);
      assert Words(xs)[..8] == E64(xs[0]) && Words(xs)[8..] == Words(xs[1..]);
    }
  }

  lemma {:induction false} WordAt(b: seq<byte>, j: nat)
    requires 8 * j + 8 <= |b|
    ensures j < |FromWords(b)| && FromWords(b)[j] == D64(b[8 * j..8 * j + 8])
    decreases j
  {
    hide D64;
    if j > 0 {
      WordAt(b[8..], j - 1);
      LaterSlice(b, 8 * j);
    }
  }

  lemma LaterSlice(b: seq<byte>, at: nat)
    requires 8 <= at && at + 8 <= |b|
    ensures b[8..][at - 8..at] == b[at..at + 8]
  {
  }

  lemma {:induction false} WordCount(b: seq<byte>)
    ensures |FromWords(b)| == |b| / 8
  {
    if |b| >= 8 { WordCount(b[8..]); }
  }

  datatype ClientIo = ClientIo(read: nat, write: nat)

  /** event_io_extract: the two halves of a counter. */
  function Halves(io: u64): ClientIo {
    ClientIo(io / U32 % U32, io % U32)
  }

  /** A counter that was summed up from what a client sent in the low half and received in the high half gives
      back both. */
  lemma HalvesMean(sent: u32, received: u32)
    ensures Halves(sent + U32 * received) == ClientIo(received, sent)
  {
  }

  /** What the frontend holds for a list of clients and their counters, under hexadecimal ids. */
  function IoTable(clients: seq<u64>, frames: seq<u64>): map<string, ClientIo>
    requires |clients| == |frames|
  {
    if clients == [] then map[]
    else
      var n := |clients| - 1;
      IoTable(clients[..n], frames[..n])[Rex.ToHex(clients[n]) := Halves(frames[n])]
  }

  /** computeClientsIO; None where it returns undefined or the view throws. */
  method ComputeClientsIo(clients: seq<byte>, frames: seq<byte>) returns (cio: Option<map<string, ClientIo>>)
    ensures cio.Some? <==> clients != [] && |clients| == |frames| && |clients| % 8 == 0
    ensures cio.Some? ==> |FromWords(clients)| == |FromWords(frames)|
                          && cio.value == IoTable(FromWords(clients), FromWords(frames))
  {
    hide FromWords, D64, Rex.ToHex, Halves;
    if clients == [] || frames == [] || |clients| != |frames| {
      return None;
    }
    ghost var xs, fs := FromWords(clients), FromWords(frames);
    WordCount(clients);
    WordCount(frames);
    var table: map<string, ClientIo> := map[];
    var i := 0;
    while i < |clients|
      invariant i % 8 == 0 && i / 8 <= |xs| == |fs| && i <= |clients|
      invariant table == IoTable(xs[..i / 8], fs[..i / 8])
      decreases |clients| - i
    {
      if i + 8 > |clients| {
        return None;
      }
      ghost var j := i / 8;
      WordAt(clients, j);
      WordAt(frames, j);
      assert xs[..j + 1][..j] == xs[..j] && fs[..j + 1][..j] == fs[..j];
      var key := Rex.ToHex(D64(clients[i..i + 8]));
      table := table[key := Halves(D64(frames[i..i + 8]))];
      i := i + 8;
    }
    assert xs[..i / 8] == xs && fs[..i / 8] == fs;
    cio := Some(table);
  }

  /** The frontend holds nothing but the clients. */
  lemma {:induction false} NothingElse(clients: seq<u64>, frames: seq<u64>, k: string)
    requires |clients| == |frames| && k in IoTable(clients, frames)
    ensures exists i :: 0 <= i < |clients| && k == Rex.ToHex(clients[i])
  {
    hide Rex.ToHex, Halves;
    var n := |clients| - 1;
    if k != Rex.ToHex(clients[n]) {
      NothingElse(clients[..n], frames[..n], k);
      var i :| 0 <= i < n && k == Rex.ToHex(clients[..n][i]);
      assert clients[..n][i] == clients[i];
    }
  }

  /** For a client list without repetitions, the frontend finds under each client's hexadecimal id the two
      halves of that client's counter, and nothing else. */
  lemma {:induction false} ClientsFound(clients: seq<u64>, frames: seq<u64>)
    requires |clients| == |frames|
    requires forall j, k :: 0 <= j < k < |clients| ==> clients[j] != clients[k]
    ensures var t := IoTable(clients, frames);
            && |t| == |clients|
            && forall i :: 0 <= i < |clients| ==> Rex.ToHex(clients[i]) in t && t[Rex.ToHex(clients[i])] == Halves(frames[i])
  {
    hide Rex.ToHex, Halves;
    if clients != [] {
      var n := |clients| - 1;
      ClientsFound(clients[..n], frames[..n]);
      forall i | 0 <= i < n
        ensures Rex.ToHex(clients[i]) != Rex.ToHex(clients[n])
      {
        Rex.HexRoundTrip(clients[i]);
        Rex.HexRoundTrip(clients[n]);
      }
      if Rex.ToHex(clients[n]) in IoTable(clients[..n], frames[..n]) {
        NothingElse(clients[..n], frames[..n], Rex.ToHex(clients[n]));
      }
    }
  }
}
