/** Raw memory: bytes, little-endian integers, and slices of a buffer. */
module Bytes {
  type byte = x: int | 0 <= x < 256

  const U16: nat := 0x1_0000
  const U32: nat := 0x1_0000_0000
  const U64: nat := 0x1_0000_0000_0000_0000

  type u16 = x: int | 0 <= x < U16
  type u32 = x: int | 0 <= x < U32
  type u64 = x: int | 0 <= x < U64

  function Zeros(n: nat): (s: seq<byte>)
    ensures |s| == n && forall i :: 0 <= i < n ==> s[i] == 0
  {
    seq(n, _ => 0)
  }

  function Pow256(n: nat): (r: nat)
    ensures r > 0
  {
    if n == 0 then 1 else 256 * Pow256(n - 1)
  }

  lemma Widths()
    ensures Pow256(2) == U16 && Pow256(4) == U32 && Pow256(8) == U64
  {
    assert Pow256(1) == 256;
    assert Pow256(3) == 256 * U16;
    assert Pow256(5) == 256 * U32;
    assert Pow256(6) == U16 * U32;
    assert Pow256(7) == 256 * U16 * U32;
  }

  /** The low n bytes of v, least significant first (what memcpy of an n-byte integer stores on x86). */
  function EncodeLE(v: nat, n: nat): (s: seq<byte>)
    ensures |s| == n
  {
    if n == 0 then [] else [v % 256] + EncodeLE(v / 256, n - 1)
  }

  function DecodeLE(s: seq<byte>): nat {
    if s == [] then 0 else s[0] + 256 * DecodeLE(s[1..])
  }

  lemma {:induction false} DecodeEncode(v: nat, n: nat)
    requires v < Pow256(n)
    ensures DecodeLE(EncodeLE(v, n)) == v
  {
    if n != 0 {
      DecodeEncode(v / 256, n - 1);
      assert EncodeLE(v, n)[1..] == EncodeLE(v / 256, n - 1);
    }
  }

  lemma {:induction false} EncodeDecode(s: seq<byte>)
    ensures DecodeLE(s) < Pow256(|s|)
    ensures EncodeLE(DecodeLE(s), |s|) == s
  {
    if s != [] {
      var d := DecodeLE(s[1..]);
      EncodeDecode(s[1..]);
      LowByte(s[0], d);
      assert s == [s[0]] + s[1..];
    }
  }

  lemma LowByte(b: byte, d: nat)
    ensures (b + 256 * d) % 256 == b && (b + 256 * d) / 256 == d
  {
  }

  function E64(v: u64): (s: seq<byte>)
    ensures |s| == 8
  {
    EncodeLE(v, 8)
  }

  function D64(s: seq<byte>): (v: u64)
    requires |s| == 8
  {
    EncodeDecode(s);
    Widths();
    DecodeLE(s)
  }

  lemma D64E64(v: u64)
    ensures D64(E64(v)) == v
  {
    Widths();
    DecodeEncode(v, 8);
  }

  function E32(v: u32): (s: seq<byte>)
    ensures |s| == 4
  {
    EncodeLE(v, 4)
  }

  function D32(s: seq<byte>): (v: u32)
    requires |s| == 4
  {
    EncodeDecode(s);
    Widths();
    DecodeLE(s)
  }

  lemma D32E32(v: u32)
    ensures D32(E32(v)) == v
  {
    Widths();
    DecodeEncode(v, 4);
  }

  function E16(v: u16): (s: seq<byte>)
    ensures |s| == 2
  {
    EncodeLE(v, 2)
  }

  function D16(s: seq<byte>): (v: u16)
    requires |s| == 2
  {
    EncodeDecode(s);
    Widths();
    DecodeLE(s)
  }

  lemma D16E16(v: u16)
    ensures D16(E16(v)) == v
  {
    Widths();
    DecodeEncode(v, 2);
  }

  /** memcpy(dst + off, src, |src|). */
  method Memcpy(dst: array<byte>, off: nat, src: seq<byte>)
    requires off + |src| <= dst.Length
    modifies dst
    ensures dst[..] == Splice(old(dst[..]), off, src)
  {
    forall i | 0 <= i < |src| {
      dst[off + i] := src[i];
    }
  }

  /** m with the bytes from off on overwritten by src. */
  function Splice(m: seq<byte>, off: nat, src: seq<byte>): (r: seq<byte>)
    requires off + |src| <= |m|
    ensures |r| == |m|
    ensures r[off..off + |src|] == src
    ensures forall i :: 0 <= i < |m| && !(off <= i < off + |src|) ==> r[i] == m[i]
  {
    m[..off] + src + m[off + |src|..]
  }

  /** The bytes [off, off + n) of m are exactly b. */
  predicate Holds(m: seq<byte>, off: nat, b: seq<byte>) {
    off + |b| <= |m| && m[off..off + |b|] == b
  }

  lemma HoldsFrame(m: seq<byte>, off: nat, b: seq<byte>, at: nat, src: seq<byte>)
    requires Holds(m, off, b)
    requires at + |src| <= |m|
    requires at + |src| <= off || off + |b| <= at
    ensures Holds(Splice(m, at, src), off, b)
  {
    var r := Splice(m, at, src);
    assert forall i :: off <= i < off + |b| ==> r[i] == m[i];
  }

  lemma HoldsPart(m: seq<byte>, off: nat, b: seq<byte>, i: nat, j: nat)
    requires Holds(m, off, b) && i <= j <= |b|
    ensures off + j <= |m| && m[off + i..off + j] == b[i..j]
  {
    forall k | i <= k < j
      ensures m[off + k] == b[k]
    {
      assert m[off + k] == m[off..off + |b|][k];
    }
    assert m[off + i..off + j] == b[i..j];
  }

  lemma HoldsAppend(m: seq<byte>, off: nat, a: seq<byte>, b: seq<byte>)
    requires Holds(m, off, a) && off + |a| + |b| <= |m|
    ensures Holds(Splice(m, off + |a|, b), off, a + b)
  {
    var r := Splice(m, off + |a|, b);
    HoldsFrame(m, off, a, off + |a|, b);
    assert r[off..off + |a| + |b|] == r[off..off + |a|] + r[off + |a|..off + |a| + |b|];
  }

  /** Overwriting inside a region that holds b. */
  lemma HoldsInside(m: seq<byte>, off: nat, b: seq<byte>, i: nat, src: seq<byte>)
    requires Holds(m, off, b) && i + |src| <= |b|
    ensures Holds(Splice(m, off + i, src), off, Splice(b, i, src))
  {
    var r := Splice(m, off + i, src);
    var c := Splice(b, i, src);
    forall k | 0 <= k < |b|
      ensures r[off + k] == c[k]
    {
      assert m[off + k] == m[off..off + |b|][k];
      if i <= k < i + |src| {
        assert r[off + k] == r[off + i..off + i + |src|][k - i];
        assert c[k] == c[i..i + |src|][k - i];
      }
    }
    assert r[off..off + |b|] == c;
  }
}
