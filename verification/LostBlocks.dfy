/**
 * kernel/fs.c: what a file loses with its last reference. iupdate writes every field of an inode except its
 * block addresses, so the blocks that writei allocated are known only to the inode in memory.
 */
module LostBlocks {
  import opened Bytes
  import opened Layout
  import opened Volume
  import opened Balloc
  import opened Kfs
  import opened WriteI
  import opened Boot

  /** Entry `k` is a referenced inode. */
  ghost predicate InHand(fs: Fs, k: nat)
  { FsOk(fs) && GeoOk(fs.disk) && k < |fs.cache| && fs.cache[k].count > 0 && fs.cache[k].inum < Inodes(fs.disk) }

  lemma HandParts(fs: Fs, k: nat)
    requires InHand(fs, k)
    ensures FsOk(fs) && GeoOk(fs.disk) && k < |fs.cache| && fs.cache[k].count > 0 && fs.cache[k].inum < Inodes(fs.disk)
    ensures InodeSector(fs.cache[k].inum) < |fs.disk|
  {}

  /** From `fs` to `fs'`: the same inode, its addresses in memory kept where there were any, and those on disk unchanged. */
  ghost predicate Onward(fs: Fs, fs': Fs, k: nat)
  {
    && InHand(fs, k) && InHand(fs', k) && fs'.cache[k] == fs.cache[k].(d := fs'.cache[k].d)
    && Inodes(fs'.disk) == Inodes(fs.disk)
    && (forall j :: 0 <= j < 32 && fs.cache[k].d.addrs[j] != 0 ==> fs'.cache[k].d.addrs[j] == fs.cache[k].d.addrs[j])
    && GetInode(fs'.disk, fs.cache[k].inum).addrs == GetInode(fs.disk, fs.cache[k].inum).addrs
  }

  lemma OnwardTrans(fs: Fs, fs1: Fs, fs2: Fs, k: nat)
    requires Onward(fs, fs1, k) && Onward(fs1, fs2, k)
    ensures Onward(fs, fs2, k)
  { hide InHand, GetInode; HandParts(fs, k); HandParts(fs1, k); HandParts(fs2, k); }

  /** The block for a round: a new one for an empty slot, in memory only. */
  lemma SlotFilled(fs: Fs, k: nat, lbn: nat)
    requires InHand(fs, k) && lbn < 31 && fs.cache[k].d.addrs[lbn] == 0 && TakeBlock(fs, k, lbn).Some?
    ensures Onward(fs, TakeBlock(fs, k, lbn).value, k) && TakeBlock(fs, k, lbn).value.cache[k].d.addrs[lbn] != 0
    ensures forall j :: 0 <= j < 32 && j != lbn ==> TakeBlock(fs, k, lbn).value.cache[k].d.addrs[j] == fs.cache[k].d.addrs[j]
  {
    hide FsOk, OthersKept, Alloc, Files, GetInode, CacheUnique;
    var fs1 := TakeBlock(fs, k, lbn).value;
    TakeBlockOk(fs, k, lbn);
    TakeBlockFiles(fs, k, lbn);
    KeptEntry(fs, fs1, k);
    OkParts(fs1);
  }

  lemma ChunkOnward(fs: Fs, k: nat, off: nat, chunk: seq<byte>)
    requires InHand(fs, k) && off / 512 < 31 && fs.cache[k].d.addrs[off / 512] != 0
    requires off % 512 + |chunk| <= 512 && 0 < |chunk|
    ensures var w := fs.cache[k].d.addrs[off / 512];
      && w < |fs.disk|
      && Onward(fs, fs.(disk := fs.disk[w := Splice(fs.disk[w], off % 512, chunk)]), k)
  {
    hide FsOk, OthersKept, Files, GetInode, CacheUnique;
    HandParts(fs, k);
    var c: seq<byte> := seq(off, _ => 0);
    PutChunk(fs, k, off, chunk, off, c, false);
    var w := fs.cache[k].d.addrs[off / 512];
    OkParts(fs.(disk := fs.disk[w := Splice(fs.disk[w], off % 512, chunk)]));
  }

  /** A round fills its slot if that is empty, and no other. */
  lemma RoundOnward(fs: Fs, k: nat, off: nat, p: seq<byte>)
    requires InHand(fs, k) && off / 512 < 31 && p != [] && Round(fs, k, off, p).Some?
    ensures var fs1 := Round(fs, k, off, p).value;
      && Onward(fs, fs1, k) && fs1.cache[k].d.addrs[off / 512] != 0
      && forall j :: 0 <= j < 32 && (j != off / 512 || fs.cache[k].d.addrs[j] != 0) ==>
           fs1.cache[k].d.addrs[j] == fs.cache[k].d.addrs[j]
  {
    hide InHand, GetInode, TakeBlock, Splice;
    HandParts(fs, k);
    var lbn := off / 512;
    if fs.cache[k].d.addrs[lbn] == 0 {
      SlotFilled(fs, k, lbn);
      var fs0 := TakeBlock(fs, k, lbn).value;
      ChunkOnward(fs0, k, off, p[..Chunk(off, p)]);
      OnwardTrans(fs, fs0, Round(fs, k, off, p).value, k);
    } else {
      ChunkOnward(fs, k, off, p[..Chunk(off, p)]);
    }
  }

  lemma OnwardNow(fs: Fs, k: nat)
    requires InHand(fs, k)
    ensures Onward(fs, fs, k)
  {}

  /** The loop changes the addresses in memory exactly when it needs a block. */
  lemma {:induction false} LoopOnward(fs: Fs, k: nat, off: nat, p: seq<byte>)
    requires InHand(fs, k) && off + |p| <= 31 * 512 && Loop(fs, k, off, p).Some?
    ensures var fs' := Loop(fs, k, off, p).value;
      && Onward(fs, fs', k)
      && (fs'.cache[k].d.addrs == fs.cache[k].d.addrs <==> Needed(fs.cache[k].d, off, |p|) == 0)
    decreases |p|
  {
    hide InHand, Round, Needed, Onward;
    HandParts(fs, k);
    if p == [] {
      OnwardNow(fs, k);
      NeededNothing(fs.cache[k].d, off);
    } else {
      var fs1, n := Round(fs, k, off, p).value, Chunk(off, p);
      LoopUnfolds(fs, k, off, p);
      RoundOnward(fs, k, off, p);
      OnwardHand(fs, fs1, k);
      LoopOnward(fs1, k, off + n, p[n..]);
      var fs' := Loop(fs, k, off, p).value;
      OnwardHand(fs1, fs', k);
      OnwardTrans(fs, fs1, fs', k);
      OnwardHand(fs, fs', k);
      NeededStep(fs.cache[k].d, fs1.cache[k].d, off, p);
      if fs.cache[k].d.addrs[off / 512] != 0 { assert fs1.cache[k].d.addrs == fs.cache[k].d.addrs; }
    }
  }

  lemma OnwardHand(fs: Fs, fs': Fs, k: nat)
    requires Onward(fs, fs', k)
    ensures InHand(fs, k) && InHand(fs', k) && k < |fs.cache| && k < |fs'.cache|
    ensures forall j :: 0 <= j < 32 && fs.cache[k].d.addrs[j] != 0 ==> fs'.cache[k].d.addrs[j] == fs.cache[k].d.addrs[j]
  {}

  /** The end of writei writes neither set of addresses. */
  lemma FinishOnward(fs: Fs, k: nat, off: nat, n: nat)
    requires InHand(fs, k) && off < 0x1_0000_0000
    ensures Onward(fs, Finish(fs, k, off, n), k) && Finish(fs, k, off, n).cache[k].d.addrs == fs.cache[k].d.addrs
  {
    hide FsOk, Files, GetInode, PutHeader, CacheUnique;
    var e := fs.cache[k];
    HeaderOk(fs, k, if n > 0 && e.d.size < off then e.d.(size := off) else e.d);
    OkParts(Finish(fs, k, off, n));
  }

  /**
   * A file whose addresses in memory are those on disk survives a write and the return of its last reference
   * exactly when the write needs no block; otherwise the blocks it got, and what was written to them, are lost.
   */
  lemma WriteSurvivesExactly(fs: Fs, k: nat, off: nat, p: seq<byte>)
    requires InHand(fs, k) && fs.cache[k].count == 1 && off + |p| <= 31 * 512
    requires fs.cache[k].d.addrs == GetInode(fs.disk, fs.cache[k].inum).addrs
    requires Write(fs, k, off, p).Wrote?
    ensures var fs' := Write(fs, k, off, p).fs;
      && GeoOk(fs'.disk) && k < |fs'.cache| && fs'.cache[k].count == 1 && GeoOk(Iput(fs', k).disk)
      && (Files(Iput(fs', k)) == Files(fs') <==> Needed(fs.cache[k].d, off, |p|) == 0)
  {
    hide InHand, Files, Loop, Finish, Needed, GetInode, Onward, FsOk;
    HandParts(fs, k);
    LoopOnward(fs, k, off, p);
    var fs1 := Loop(fs, k, off, p).value;
    OnwardHand(fs, fs1, k);
    FinishOnward(fs1, k, off + |p|, |p|);
    var fs' := Finish(fs1, k, off + |p|, |p|);
    OnwardTrans(fs, fs1, fs', k);
    OnwardEnd(fs, fs', k);
    HandParts(fs', k);
    IputPuts(fs', k);
  }

  lemma OnwardEnd(fs: Fs, fs': Fs, k: nat)
    requires Onward(fs, fs', k)
    ensures InHand(fs', k) && k < |fs.cache| && k < |fs'.cache|
    ensures fs'.cache[k].count == fs.cache[k].count && fs'.cache[k].inum == fs.cache[k].inum
    ensures InodeSector(fs.cache[k].inum) < |fs.disk| && InodeSector(fs.cache[k].inum) < |fs'.disk|
    ensures GetInode(fs'.disk, fs.cache[k].inum).addrs == GetInode(fs.disk, fs.cache[k].inum).addrs
  {}

  // ---------------------------------------------------------------- a file of an image

  /** iget on the booted kernel loads any inode into the first entry. */
  lemma FirstIget(d: Disk, i: nat)
    requires GeoOk(d) && i < Inodes(d)
    ensures InodeSector(i) < |d| && Iget(Booted(d), i).Got? && Iget(Booted(d), i).k == 0
    ensures Iget(Booted(d), i).fs == Booted(d).(cache := Booted(d).cache[0 := MemInode(i, 1, true, GetInode(d, i))])
  {
    var c := Booted(d).cache;
    assert forall j :: 0 <= j < |c| ==> c[j].count == 0;
  }

  lemma OneBlockNeeded(n: Dinode, len: nat)
    requires n.addrs[0] == 0 && 0 < len <= 512
    ensures Needed(n, 0, len) == 1
  {
    assert EmptySlots(n, 0, 1) == 1 + EmptySlots(n, 1, 1);
  }

  lemma EmptyFileHasNoBlock(d: Disk, free: u32, fs: seq<M.File>, k: nat)
    requires M.Image(d, free, fs) && k < |fs| && fs[k].data == []
    ensures |d| == 2048 && k + 2 < 100 && GetInode(d, k + 2).addrs[0] == 0 && GetInode(d, k + 2).kind == T_FILE
    ensures var v := M.VolOf(d); Filled(v, k + 2) && Content(v, k + 2) == [] && v.ino[k + 2] == GetInode(d, k + 2)
  {
    hide M.Image, M.RootBytes, A.Good;
    ImageParts(d, free, fs);
    ImageFiles(d, free, fs);
    var v := M.VolOf(d);
    assert A.Tight(v, k + 2) && BlockOf(v, k + 2, 0) == v.ino[k + 2].addrs[0];
    assert v.ino[k + 2] == GetInode(d, k + 2);
  }

  /**
   * Such a loss is one open, write and close away from boot: the first block written to an empty file of an
   * image with a sector to spare.
   */
  lemma BootLosesBlock(d: Disk, free: u32, fs: seq<M.File>, k: nat, p: seq<byte>)
    requires M.Image(d, free, fs) && k < |fs| && fs[k].data == [] && free < 2048 && 0 < |p| <= 512
    ensures GeoOk(d) && k + 2 < Inodes(d) && InodeSector(k + 2) < |d|
    ensures var g := Iget(Booted(d), k + 2);
      && g.Got? && InHand(g.fs, g.k)
      && var w := Write(g.fs, g.k, 0, p);
      && w.Wrote? && g.k < |w.fs.cache| && w.fs.cache[g.k].count == 1
      && GeoOk(w.fs.disk) && GeoOk(Iput(w.fs, g.k).disk) && Files(Iput(w.fs, g.k)) != Files(w.fs)
  {
    hide M.Image, M.VolOf, FsOk, GetInode, Files, Filled, Content, CacheUnique, Needed, ClearFrom;
    BootOk(d, free, fs);
    BootGeo(d, free, fs);
    EmptyFileHasNoBlock(d, free, fs, k);
    var i := k + 2;
    FirstIget(d, i);
    IgetReferences(Booted(d), i);
    var fs1 := Iget(Booted(d), i).fs;
    OkParts(fs1);
    MakeFileIs(fs1, 0, []);
    OneBlockNeeded(fs1.cache[0].d, |p|);
    SectorToSpare(d, free, fs);
    WriteOverwrites(fs1, 0, 0, p, []);
    RoomForOne(fs1, |p|);
    WriteSurvivesExactly(fs1, 0, 0, p);
  }

  lemma RoomForOne(fs: Fs, len: nat)
    requires GeoOk(fs.disk) && 0 < |fs.cache| && len <= 31 * 512 && Needed(fs.cache[0].d, 0, len) == 1 && 0 < ClearFrom(fs.disk, 0)
    ensures RoomFor(fs, 0, 0, len)
  {}

  lemma SectorToSpare(d: Disk, free: u32, fs: seq<M.File>)
    requires M.Image(d, free, fs) && free < 2048 && GeoOk(d) && Inodes(d) == 100
    ensures 0 < ClearFrom(d, 0)
  {
    hide M.Image, ClearFrom;
    ImageParts(d, free, fs);
    ClearNone(d, 0);
    assert !InUse(d, free);
  }
}
