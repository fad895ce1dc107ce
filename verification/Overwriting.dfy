/** Writing into a file of a volume: one chunk within one block, at or before the end of the file. */
module Overwriting {
  import opened Bytes
  import opened Volume

  /** `c` with the bytes from `off` on replaced by `t`, and extended when `t` reaches past its end. */
  function Overwrite(c: seq<byte>, off: nat, t: seq<byte>): (r: seq<byte>)
    requires off <= |c|
    ensures |r| == if off + |t| <= |c| then |c| else off + |t|
    ensures forall x :: 0 <= x < |r| ==> r[x] == if off <= x < off + |t| then t[x - off] else c[x]
  { c[..off] + t + (if off + |t| <= |c| then c[off + |t|..] else []) }

  lemma OverwriteTwice(c: seq<byte>, off: nat, t: seq<byte>, u: seq<byte>)
    requires off <= |c|
    ensures Overwrite(Overwrite(c, off, t), off + |t|, u) == Overwrite(c, off, t + u)
  {
    var l, r := Overwrite(Overwrite(c, off, t), off + |t|, u), Overwrite(c, off, t + u);
    assert |l| == |r|;
  }

  function Max(a: nat, b: nat): nat { if a < b then b else a }

  /** The volume with the size of inode `i` replaced. */
  function Sized(v: Vol, i: nat, size: u32): Vol
    requires i < |v.ino|
  { v.(ino := v.ino[i := v.ino[i].(size := size)]) }

  lemma SizedRefs(v: Vol, i: nat, size: u32)
    requires i < |v.ino|
    ensures SameRefs(v, Sized(v, i, size))
    ensures forall f, j :: 0 <= f < 159 && 0 <= j < |v.ino| ==> BlockOf(Sized(v, i, size), j, f) == BlockOf(v, j, f)
  {}

  lemma SizedSound(v: Vol, i: nat, size: u32, lo: nat, hi: nat)
    requires i < |v.ino| && Sound(v, lo, hi)
    ensures Sound(Sized(v, i, size), lo, hi)
  {
    hide Ref;
    SizedRefs(v, i, size);
  }

  /** Sectors of other files and other blocks of this one are not touched by a write to block `f`. */
  lemma WriteOthers(v: Vol, lo: nat, hi: nat, i: nat, f: nat, s: Sector, j: nat)
    requires Sound(v, lo, hi) && i < |v.ino| && f < 159 && BlockOf(v, i, f) != 0
    requires j < |v.ino| && j != i && Filled(v, j)
    ensures BlockOf(v, i, f) < |v.disk|
    ensures var v' := v.(disk := v.disk[BlockOf(v, i, f) := s]); Filled(v', j) && Content(v', j) == Content(v, j)
  {
    assert Exists(v, SlotOf(i, f));
    WriteBlock(v, lo, hi, i, f, s, j);
  }

  lemma WriteSound(v: Vol, lo: nat, hi: nat, i: nat, f: nat, s: Sector)
    requires Sound(v, lo, hi) && i < |v.ino| && f < 159 && BlockOf(v, i, f) != 0
    ensures BlockOf(v, i, f) < |v.disk|
    ensures var v' := v.(disk := v.disk[BlockOf(v, i, f) := s]); SameRefs(v, v') && Sound(v', lo, hi)
  {
    var b := BlockOf(v, i, f);
    assert Exists(v, SlotOf(i, f));
    forall k | 0 <= k < |v.ino| ensures Ref(v, Ind(k)) != b { assert Exists(v, Ind(k)); }
    WriteKeepsRefs(v, b, s);
  }

  ghost predicate Present(v: Vol, i: nat, size: nat)
    requires i < |v.ino|
  { size <= 159 * 512 && forall f :: 0 <= f < 159 && f * 512 < size ==> 0 < BlockOf(v, i, f) < |v.disk| }

  /**
   * One chunk: with `size` for the size of file `i`, its content is overwritten at `off`, and the
   * blocks up to the new end are present.
   */
  lemma WriteChunk(v: Vol, lo: nat, hi: nat, i: nat, size: u32, off: nat, chunk: seq<byte>)
    requires Sound(v, lo, hi) && i < |v.ino| && Filled(Sized(v, i, size), i) && off <= size && off / 512 < 159
    requires off % 512 + |chunk| <= 512 && 0 < |chunk| && BlockOf(v, i, off / 512) != 0
    ensures BlockOf(v, i, off / 512) < |v.disk| && off + |chunk| <= 159 * 512
    ensures var w := BlockOf(v, i, off / 512); var size' := Max(size, off + |chunk|);
      var v' := v.(disk := v.disk[w := Splice(v.disk[w], off % 512, chunk)]);
      && Filled(Sized(v', i, size'), i)
      && Content(Sized(v', i, size'), i) == Overwrite(Content(Sized(v, i, size), i), off, chunk)
  {
    hide Sound, Content, Ref;
    var f, size' := off / 512, Max(size, off + |chunk|);
    var u := Sized(v, i, size);
    OwnedInRange(v, lo, hi, i, f);
    SizedSound(v, i, size, lo, hi);
    SizedRefs(v, i, size);
    var w := BlockOf(v, i, f);
    var s: Sector := Splice(v.disk[w], off % 512, chunk);
    ContentBytes(u, i);
    WriteBlock(u, lo, hi, i, f, s, i);
    var u1 := u.(disk := u.disk[w := s]);
    ChunkPresent(u1, i, size, off, size');
    ResizeContent(u1, i, size');
    var v' := v.(disk := v.disk[w := s]);
    assert Sized(v', i, size') == u1.(ino := u1.ino[i := u1.ino[i].(size := size')]);
    ChunkBytes(u, u1, Sized(v', i, size'), i, size, off, chunk, s);
  }

  lemma OwnedInRange(v: Vol, lo: nat, hi: nat, i: nat, f: nat)
    requires Sound(v, lo, hi) && i < |v.ino| && f < 159 && BlockOf(v, i, f) != 0
    ensures lo <= BlockOf(v, i, f) < hi <= |v.disk|
  { assert Exists(v, SlotOf(i, f)); }

  lemma ContentBytes(v: Vol, i: nat)
    requires i < |v.ino| && Filled(v, i)
    ensures forall x :: 0 <= x < v.ino[i].size ==>
              0 <= x / 512 < 159 && BlockOf(v, i, x / 512) < |v.disk| && Content(v, i)[x] == v.disk[BlockOf(v, i, x / 512)][x % 512]
  {
    forall x | 0 <= x < v.ino[i].size
      ensures 0 <= x / 512 < 159 && BlockOf(v, i, x / 512) < |v.disk| && Content(v, i)[x] == v.disk[BlockOf(v, i, x / 512)][x % 512]
    {
      assert 0 <= x / 512 < 159 && x / 512 * 512 < v.ino[i].size;
    }
  }

  lemma ChunkPresent(v: Vol, i: nat, size: u32, off: nat, size': nat)
    requires i < |v.ino| && Filled(v, i) && v.ino[i].size == size && off <= size && off / 512 < 159
    requires size <= size' <= Max(size, (off / 512 + 1) * 512) && 0 < BlockOf(v, i, off / 512) < |v.disk|
    ensures Present(v, i, size')
  {
    forall g | 0 <= g < 159 && g * 512 < size' ensures 0 < BlockOf(v, i, g) < |v.disk| {
      assert g * 512 < size || g == off / 512;
    }
  }

  lemma ChunkBytes(v: Vol, v1: Vol, v': Vol, i: nat, size: u32, off: nat, chunk: seq<byte>, s: Sector)
    requires i < |v.ino| == |v1.ino| == |v'.ino| && Filled(v, i) && Filled(v1, i) && Filled(v', i)
    requires v.ino[i].size == size == v1.ino[i].size && off <= size && off / 512 < 159
    requires off % 512 + |chunk| <= 512 && 0 < |chunk|
    requires var w := BlockOf(v1, i, off / 512);
      0 < w < |v.disk| && v1.disk == v.disk[w := s] && s == Splice(v.disk[w], off % 512, chunk)
    requires forall x :: 0 <= x < size ==>
               Content(v1, i)[x] == if x / 512 == off / 512 then s[x % 512] else Content(v, i)[x]
    requires forall x :: 0 <= x < size && x / 512 == off / 512 ==> Content(v, i)[x] == v.disk[BlockOf(v1, i, off / 512)][x % 512]
    requires |Content(v', i)| == Max(size, off + |chunk|)
    requires forall x :: 0 <= x < size ==> Content(v', i)[x] == Content(v1, i)[x]
    requires forall x :: 0 <= x < Max(size, off + |chunk|) ==>
               BlockOf(v1, i, x / 512) < |v1.disk| && Content(v', i)[x] == ByteAt(v1, i, x)
    ensures Content(v', i) == Overwrite(Content(v, i), off, chunk)
  {
    var r := Overwrite(Content(v, i), off, chunk);
    forall x | 0 <= x < |r| ensures Content(v', i)[x] == r[x] {
      if off <= x < off + |chunk| {
        assert x / 512 == off / 512 && x % 512 == off % 512 + (x - off);
      } else {
        assert Content(v', i)[x] == Content(v1, i)[x];
        if x / 512 == off / 512 { assert x % 512 == x - off / 512 * 512; }
      }
    }
  }
}
