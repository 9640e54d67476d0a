/** The database file (rdb/mxrdb.cpp): two sizes, the index as NUL-terminated keys with offsets, the pool. */
module Image {
  import opened Bytes
  import opened Keys

  type Listing = seq<(Key, u64)>

  function MapBytes(es: Listing): seq<byte> {
    if es == [] then [] else es[0].0 + [0] + E64(es[0].1) + MapBytes(es[1..])
  }

  lemma {:induction false} MapBytesAppend(es: Listing, e: (Key, u64))
    ensures MapBytes(es + [e]) == MapBytes(es) + e.0 + [0] + E64(e.1)
  {
    hide E64;
    if es == [] {
      assert [] + [e] == [e] && [e][1..] == [];
      assert MapBytes([e]) == e.0 + [0] + E64(e.1) + MapBytes([]);
    } else {
      var front, tail := es[0].0 + [0] + E64(es[0].1), MapBytes(es[1..]);
      MapBytesAppend(es[1..], e);
      assert (es + [e])[1..] == es[1..] + [e] && (es + [e])[0] == es[0];
      assert MapBytes(es) == front + tail && MapBytes(es + [e]) == front + MapBytes(es[1..] + [e]);
      hide MapBytes;
      Regroup(front, tail, e.0, [0], E64(e.1));
    }
  }

  lemma Regroup(a: seq<byte>, b: seq<byte>, c: seq<byte>, d: seq<byte>, e: seq<byte>)
    ensures a + (b + c + d + e) == a + b + c + d + e
  {
  }

  lemma EmptyBytes()
    ensures MapBytes([]) == []
  {
  }

  function FileBytes(es: Listing, pool: seq<byte>): seq<byte>
    requires |MapBytes(es)| < U64 && |pool| < U64
  {
    E64(|MapBytes(es)|) + E64(|pool|) + MapBytes(es) + pool
  }

  lemma FileParts(es: Listing, pool: seq<byte>)
    requires |MapBytes(es)| < U64 && |pool| < U64
    ensures var f := FileBytes(es, pool);
            var m := |MapBytes(es)|;
            && |f| == 16 + m + |pool|
            && D64(f[..8]) == m && D64(f[8..16]) == |pool|
            && f[16..16 + m] == MapBytes(es) && f[16 + m..] == pool
  {
    var f := FileBytes(es, pool);
    D64E64(|MapBytes(es)|);
    D64E64(|pool|);
    assert f[..8] == E64(|MapBytes(es)|);
    assert f[8..16] == E64(|pool|);
  }

  predicate Lists(es: Listing, k: Key) {
    exists i :: 0 <= i < |es| && es[i].0 == k
  }

  predicate NoDuplicates(es: Listing) {
    forall j, k :: 0 <= j < k < |es| ==> es[j].0 != es[k].0
  }

  /** What a listing says about where each key is; a later entry for a key it already has is ignored. */
  function PlacesOf(es: Listing): map<Key, nat> {
    if es == [] then map[]
    else
      var n := |es| - 1;
      var m := PlacesOf(es[..n]);
      if es[n].0 in m then m else m[es[n].0 := es[n].1]
  }

  lemma {:induction false} PlacesKeys(es: Listing, k: Key)
    ensures k in PlacesOf(es) <==> Lists(es, k)
  {
    if es != [] {
      var n := |es| - 1;
      var rest := es[..n];
      PlacesKeys(rest, k);
      if Lists(rest, k) {
        var i :| 0 <= i < |rest| && rest[i].0 == k;
        assert es[i].0 == k;
      } else {
        assert forall j :: 0 <= j < n ==> rest[j] == es[j] && rest[j].0 != k;
        assert Lists(es, k) <==> es[n].0 == k;
      }
    }
  }

  lemma {:induction false} PlacesAt(es: Listing, i: nat)
    requires i < |es| && NoDuplicates(es)
    ensures es[i].0 in PlacesOf(es) && PlacesOf(es)[es[i].0] == es[i].1
  {
    hide Lists;
    var n := |es| - 1;
    var rest := es[..n];
    assert NoDuplicates(rest);
    if i < n {
      assert rest[i] == es[i];
      PlacesAt(rest, i);
    } else {
      LastIsNew(es);
      PlacesKeys(rest, es[n].0);
    }
  }

  lemma LastIsNew(es: Listing)
    requires es != [] && NoDuplicates(es)
    ensures !Lists(es[..|es| - 1], es[|es| - 1].0)
  {
    var n := |es| - 1;
    forall j | 0 <= j < n
      ensures es[..n][j].0 != es[n].0
    {
      assert es[..n][j] == es[j];
    }
  }

  /** FindString: one past the terminator of the string at idx. */
  method FindString(data: seq<byte>, idx: nat, ghost end: nat) returns (next: nat)
    requires idx <= end < |data| && data[end] == 0
    ensures idx < next <= end + 1 && data[next - 1] == 0 && forall i :: idx <= i < next - 1 ==> data[i] != 0
  {
    var i := idx;
    while data[i] != 0
      invariant idx <= i <= end
      invariant forall j :: idx <= j < i ==> data[j] != 0
      decreases end - i
    {
      i := i + 1;
    }
    return i + 1;
  }

  /** The first entry of a listing, in the bytes at idx. */
  lemma FirstEntry(data: seq<byte>, idx: nat, es: Listing)
    requires idx < |data| && data[idx..] == MapBytes(es)
    ensures es != []
    ensures var n := idx + |es[0].0|;
            && n + 9 <= |data| && data[idx..n] == es[0].0 && data[n] == 0
            && D64(data[n + 1..n + 9]) == es[0].1
            && data[n + 9..] == MapBytes(es[1..])
  {
    hide E64, D64;
    FourParts(data, idx, es[0].0, E64(es[0].1), MapBytes(es[1..]));
    D64E64(es[0].1);
  }

  lemma FourParts(data: seq<byte>, idx: nat, k: seq<byte>, v: seq<byte>, tail: seq<byte>)
    requires idx <= |data| && data[idx..] == k + [0] + v + tail && |v| == 8
    ensures var n := idx + |k|;
            && n + 9 <= |data| && data[idx..n] == k && data[n] == 0
            && data[n + 1..n + 9] == v && data[n + 9..] == tail
  {
    var n := idx + |k|;
    var rest := data[idx..];
    assert |rest| == |k| + 9 + |tail|;
    assert data[idx..n] == rest[..|k|];
    assert data[n] == rest[|k|];
    assert data[n + 1..n + 9] == rest[|k| + 1..|k| + 9];
    assert data[n + 9..] == rest[|k| + 9..];
  }

  /** One turn of the loop of RdbLoadOffsetMap. */
  method ReadEntry(data: seq<byte>, idx: nat, ghost es: Listing) returns (k: Key, offset: u64, next: nat)
    requires idx < |data| && data[idx..] == MapBytes(es)
    ensures es != [] && (k, offset) == es[0]
    ensures idx < next <= |data| && data[next..] == MapBytes(es[1..])
  {
    hide MapBytes;
    FirstEntry(data, idx, es);
    ghost var end := idx + |es[0].0|;
    var nidx := FindString(data, idx, end);
    assert forall j :: idx <= j < end ==> data[j] == data[idx..end][j - idx] != 0;
    k := data[idx..nidx - 1];
    offset := D64(data[nidx..nidx + 8]);
    next := nidx + 8;
  }

  /** RdbLoadOffsetMap: parses the listing back exactly. */
  method LoadOffsetMap(data: seq<byte>, ghost es: Listing) returns (at: map<Key, nat>)
    requires data == MapBytes(es)
    ensures at == PlacesOf(es)
  {
    at := map[];
    var idx := 0;
    ghost var i := 0;
    assert data[0..] == data && es[0..] == es;
    while idx < |data|
      invariant idx <= |data| && i <= |es|
      invariant data[idx..] == MapBytes(es[i..])
      invariant at == PlacesOf(es[..i])
      decreases |data| - idx
    {
      hide MapBytes;
      EntriesLeft(es, i, data[idx..]);
      var k, offset, next := ReadEntry(data, idx, es[i..]);
      assert es[..i + 1][..i] == es[..i];
      if k !in at {
        at := at[k := offset];
      }
      idx := next;
      i := i + 1;
    }
    EmptyListing(es[i..]);
    assert es[..i] == es;
  }

  lemma EntriesLeft(es: Listing, i: nat, rest: seq<byte>)
    requires i <= |es| && rest != [] && rest == MapBytes(es[i..])
    ensures i < |es| && es[i..][0] == es[i] && es[i..][1..] == es[i + 1..]
  {
  }

  lemma EmptyListing(es: Listing)
    requires MapBytes(es) == []
    ensures es == []
  {
  }
}
