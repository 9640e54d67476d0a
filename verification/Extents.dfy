/** Byte strings laid out in a pool: facts about the pool's bytes as a value. */
module Extents {
  import opened Bytes
  import opened Keys
  import Pool

  type Places = map<Key, nat>
  type Images = map<Key, seq<byte>>

  /** The block each image occupies. */
  ghost function LiveOf(at: Places, imgs: Images): (m: map<Key, Pool.Block>)
    requires at.Keys == imgs.Keys
    ensures m.Keys == imgs.Keys
  {
    map k | k in imgs :: Pool.Block(at[k], |imgs[k]|)
  }

  /** Every image is in the pool, byte for byte, at its place. */
  ghost predicate Held(mem: seq<byte>, at: Places, imgs: Images) {
    && at.Keys == imgs.Keys
    && forall k :: k in imgs ==> Holds(mem, at[k], imgs[k])
  }

  /** Writing outside every live block disturbs nothing. */
  lemma HeldFrame(mem: seq<byte>, at: Places, imgs: Images, pos: nat, src: seq<byte>)
    requires Held(mem, at, imgs) && pos + |src| <= |mem|
    requires forall k :: k in imgs ==> Pool.Disjoint(LiveOf(at, imgs)[k], Pool.Block(pos, |src|))
    ensures Held(Splice(mem, pos, src), at, imgs)
  {
    forall k | k in imgs
      ensures Holds(Splice(mem, pos, src), at[k], imgs[k])
    {
      assert Pool.Disjoint(LiveOf(at, imgs)[k], Pool.Block(pos, |src|));
      HoldsFrame(mem, at[k], imgs[k], pos, src);
    }
  }

  /** Writing inside the block of k changes the image of k, at the same offset, and no other. */
  lemma HeldInside(mem: seq<byte>, p: Pool.Pool, at: Places, imgs: Images, k: Key, i: nat, src: seq<byte>)
    requires Held(mem, at, imgs) && k in imgs
    requires Pool.Layout(p, LiveOf(at, imgs))
    requires i + |src| <= |imgs[k]|
    ensures at[k] + i + |src| <= |mem|
    ensures Held(Splice(mem, at[k] + i, src), at, imgs[k := Splice(imgs[k], i, src)])
  {
    hide Splice;
    HoldsInside(mem, at[k], imgs[k], i, src);
    var m := Splice(mem, at[k] + i, src);
    forall l | l in imgs && l != k
      ensures Holds(m, at[l], imgs[l])
    {
      OthersUntouched(mem, p, at, imgs, k, i, src, l);
    }
  }

  lemma OthersUntouched(mem: seq<byte>, p: Pool.Pool, at: Places, imgs: Images, k: Key, i: nat, src: seq<byte>, l: Key)
    requires Held(mem, at, imgs) && k in imgs && l in imgs && l != k
    requires Pool.Layout(p, LiveOf(at, imgs))
    requires i + |src| <= |imgs[k]| && at[k] + |imgs[k]| <= |mem|
    ensures Holds(Splice(mem, at[k] + i, src), at[l], imgs[l])
  {
    var live := LiveOf(at, imgs);
    assert Pool.Disjoint(live[k], live[l]);
    HoldsFrame(mem, at[l], imgs[l], at[k] + i, src);
  }

  /** A copy of the used part of the pool holds the same images. */
  lemma HeldCopy(mem: seq<byte>, copy: seq<byte>, top: nat, at: Places, imgs: Images)
    requires Held(mem, at, imgs)
    requires forall k :: k in imgs ==> LiveOf(at, imgs)[k].End() <= top
    requires top <= |mem| && top <= |copy| && mem[..top] == copy[..top]
    ensures Held(copy, at, imgs)
  {
    forall k | k in imgs
      ensures Holds(copy, at[k], imgs[k])
    {
      assert LiveOf(at, imgs)[k].End() <= top;
      CopiedPrefix(mem, copy, top, at[k], imgs[k]);
    }
  }

  lemma CopiedPrefix(m: seq<byte>, n: seq<byte>, top: nat, off: nat, b: seq<byte>)
    requires top <= |m| && top <= |n| && m[..top] == n[..top]
    requires Holds(m, off, b) && off + |b| <= top
    ensures Holds(n, off, b)
  {
    forall i | 0 <= i < |b|
      ensures n[off + i] == b[i]
    {
      assert m[off..off + |b|][i] == m[off + i] == m[..top][off + i] == n[..top][off + i];
    }
    assert n[off..off + |b|] == b;
  }
}
