/** kernel/fs.c: ialloc and mknod, which enter a new inode in a directory. */
module Creation {
  import opened Options
  import opened Bytes
  import opened Layout
  import opened Volume
  import opened Balloc
  import opened Kfs
  import opened Overwriting
  import opened WriteI
  import opened Directory
  import opened PathWalk

  // ---------------------------------------------------------------- the operation

  /** The scan of ialloc: the first inode from `i` on whose type on disk is 0. */
  function FreeInode(d: Disk, i: nat): (r: nat)
    requires GeoOk(d) && i <= Inodes(d)
    ensures i <= r <= Inodes(d) && (r < Inodes(d) ==> GetInode(d, r).kind == 0)
    ensures forall x :: i <= x < r ==> GetInode(d, x).kind != 0
    decreases Inodes(d) - i
  { if i == Inodes(d) || GetInode(d, i).kind == 0 then i else FreeInode(d, i + 1) }

  /** dip->type = type */
  function PutKind(d: Disk, i: nat, kind: u16): Disk
    requires InodeSector(i) < |d|
  { d[InodeSector(i) := Splice(d[InodeSector(i)], InodeOffset(i), U16Bytes(kind))] }

  /** The inode in entry `k` becomes `n`, and iupdate writes its header. */
  function Update(fs: Fs, k: nat, n: Dinode): Fs
    requires k < |fs.cache| && InodeSector(fs.cache[k].inum) < |fs.disk|
  { Fs(PutHeader(fs.disk, fs.cache[k].inum, n), fs.cache[k := fs.cache[k].(d := n)]) }

  /** At most 14 bytes of the name. */
  function Cut(name: seq<byte>): (r: seq<byte>)
    ensures |r| <= 14
  { if |name| <= 14 then name else name[..14] }

  /** The inode number and the name are written over entry `e`; the rest of the entry stays. */
  function PutEntry(disk: Disk, n: Dinode, e: nat, i: u16, name: seq<byte>): (r: Disk)
    requires Readable(disk, n) && e < Slots(n.size)
    ensures |r| == |disk|
  {
    assert e / 32 * 512 < n.size;
    var w, o := n.addrs[e / 32], 16 * (e % 32);
    disk[w := Splice(Splice(disk[w], o, U16Bytes(i)), o + 2, Cut(name))]
  }

  /**
   * NoInode: no inode has type 0, and ialloc runs past the table. NoSlot is the panic of mknod; MustSleep
   * and TableFull are those of iget; Broken is a directory outside the direct range.
   */
  datatype Made = Made(fs: Fs, k: nat) | NoInode | NoSlot | MustSleep | TableFull | Broken

  /** ialloc */
  function Ialloc(fs: Fs, kind: u16): Made
    requires GeoOk(fs.disk)
  {
    var i := FreeInode(fs.disk, 1);
    if i == Inodes(fs.disk) then NoInode
    else
      match Iget(fs.(disk := PutKind(fs.disk, i, kind)), i)
      case Got(fs1, k) => Made(fs1, k)
      case MustWait => Made.MustSleep
      case NoEntry => Made.TableFull
  }

  /** The new entry in the directory, and the directory's new size. */
  function Enlist(fs: Fs, k: nat, kd: nat, name: seq<byte>): Made
    requires kd < |fs.cache| && k < |fs.cache|
  {
    var n := fs.cache[kd].d;
    if !Readable(fs.disk, n) || |fs.disk| <= InodeSector(fs.cache[kd].inum) || 0x1_0000 <= fs.cache[k].inum then Made.Broken
    else
      var e := FreeSlot(fs.disk, n, 0);
      if e == Slots(n.size) then NoSlot
      else
        var fs1 := fs.(disk := PutEntry(fs.disk, n, e, fs.cache[k].inum, name));
        Made(Update(fs1, kd, n.(size := n.size + 16)), k)
  }

  /** mknod in the directory of entry `kd`. */
  function Mknod(fs: Fs, kd: nat, name: seq<byte>, kind: u16, major: u16, minor: u16): Made
    requires GeoOk(fs.disk) && kd < |fs.cache|
  {
    var r := Ialloc(fs, kind);
    if !r.Made? then r
    else if |r.fs.cache| <= kd || |r.fs.cache| <= r.k || |r.fs.disk| <= InodeSector(r.fs.cache[r.k].inum) then Made.Broken
    else
      var n := r.fs.cache[r.k].d.(major := major, minor := minor, nlink := 0, size := 0);
      Enlist(Update(r.fs, r.k, n), r.k, kd, name)
  }

  // ---------------------------------------------------------------- what is kept

  /** Files outside `xs` are as before. */
  ghost predicate Keeps(v: Vol, v': Vol, xs: set<nat>)
  {
    && |v'.ino| == |v.ino| && |v'.disk| == |v.disk|
    && forall j: nat :: j < |v.ino| && j !in xs ==>
         && v'.ino[j] == v.ino[j] && SameBlocks(v, v', j)
         && (Filled(v, j) ==> Filled(v', j) && Content(v', j) == Content(v, j))
  }

  lemma KeepsTrans(v: Vol, v1: Vol, v2: Vol, xs: set<nat>, ys: set<nat>)
    requires Keeps(v, v1, xs) && Keeps(v1, v2, ys)
    ensures Keeps(v, v2, xs + ys)
  {
    hide Filled, Content;
    forall j: nat | j < |v.ino| && j !in xs + ys
      ensures SameBlocks(v, v2, j) && (Filled(v, j) ==> Filled(v2, j) && Content(v2, j) == Content(v, j))
    {
      assert SameBlocks(v, v1, j) && SameBlocks(v1, v2, j) && v1.ino[j] == v.ino[j];
    }
  }

  lemma OthersKeeps(fs: Fs, fs': Fs, k: nat)
    requires GeoOk(fs.disk) && GeoOk(fs'.disk) && k < |fs.cache| && |fs'.disk| == |fs.disk| && OthersKept(fs, fs', k)
    ensures Keeps(Files(fs), Files(fs'), {fs.cache[k].inum})
  { hide Filled, Content, SameBlocks; }

  /** The header of a file changes, in memory and on disk, on volumes. */
  lemma HeaderVolume(v: Vol, v': Vol, lo: nat, i: nat, n: Dinode, c0: nat, t: Sector)
    requires Sound(v, lo, |v.disk|) && i < |v.ino| && 0 < c0 < lo <= |v.disk| && n.addrs == v.ino[i].addrs
    requires v' == v.(ino := v.ino[i := n]).(disk := v.disk[c0 := t])
    ensures forall j :: 0 <= j < |v.ino| && j != i && Filled(v, j) ==> Filled(v', j) && Content(v', j) == Content(v, j)
    ensures forall j :: 0 <= j < |v.ino| ==> SameBlocks(v, v', j)
  {
    var u := v.(ino := v.ino[i := n]);
    SameAddrsRefs(v, u);
    SoundSameRefs(v, u, lo, |v.disk|);
    forall j | 0 <= j < |v.ino| ensures SameBlocks(v, v', j) { OtherBlocks(v, lo, |v.disk|, i, 0, c0, t, j); }
    hide SameBlocks, Sound, Content, SameRefs;
    forall j | 0 <= j < |v.ino| && j != i && Filled(v, j) ensures Filled(v', j) && Content(v', j) == Content(v, j) {
      SameContent(v, u, j);
      MetadataContent(u, lo, |v.disk|, c0, t, j);
    }
  }

  /** iupdate with any change except the addresses. */
  lemma UpdateOk(fs: Fs, k: nat, n: Dinode)
    requires FsOk(fs) && k < |fs.cache| && fs.cache[k].count > 0 && n.addrs == fs.cache[k].d.addrs
    ensures GeoOk(fs.disk) && fs.cache[k].inum < Inodes(fs.disk)
    ensures var i := fs.cache[k].inum; var fs' := Update(fs, k, n);
      && FsOk(fs') && GeoOk(fs'.disk) && |fs'.disk| == |fs.disk| && Inodes(fs'.disk) == Inodes(fs.disk)
      && OthersKept(fs, fs', k) && Files(fs').ino[i] == n && SameBlocks(Files(fs), Files(fs'), i)
      && GetInode(fs'.disk, i) == n.(addrs := GetInode(fs.disk, i).addrs)
  {
    var i := fs.cache[k].inum;
    hide FsOk, Sound, Files, InUse, GetInode, Ref, CacheUnique, PutHeader, Content, Filled, Find, SameBlocks;
    OkParts(fs);
    HeaderOk(fs, k, n);
    FindLive(fs, k);
    var v, c0 := Files(fs), InodeSector(i);
    var fs' := Update(fs, k, n);
    OkParts(fs');
    HeaderVolume(v, Files(fs'), DataStart(fs.disk), i, n, c0, fs'.disk[c0]);
  }

  // ---------------------------------------------------------------- ialloc

  lemma U16Back(s: seq<byte>, o: nat)
    requires o + 2 <= |s|
    ensures U16Bytes(U16At(s, o)) == s[o..o + 2]
  {}

  lemma U32Back(s: seq<byte>, o: nat)
    requires o + 4 <= |s|
    ensures U32Bytes(U32At(s, o)) == s[o..o + 4]
  {
    var x := U32At(s, o);
    var y := s[o + 1] as int + 0x100 * s[o + 2] as int + 0x1_0000 * s[o + 3] as int;
    var z := s[o + 2] as int + 0x100 * s[o + 3] as int;
    assert x / 256 == y && x % 256 == s[o] && y / 256 == z && y % 256 == s[o + 1] && z / 256 == s[o + 3] && z % 256 == s[o + 2];
  }

  /** Writing the type alone is writing the header with that type. */
  lemma PutKindIsHeader(d: Disk, i: nat, kind: u16)
    requires InodeSector(i) < |d|
    ensures PutKind(d, i, kind) == PutHeader(d, i, GetInode(d, i).(kind := kind))
  {
    var s, o := d[InodeSector(i)], InodeOffset(i);
    var n := GetInode(d, i).(kind := kind);
    U16Back(s, o + 2);
    U16Back(s, o + 4);
    U16Back(s, o + 6);
    U32Back(s, o + 8);
    assert HeaderBytes(n) == U16Bytes(kind) + s[o + 2..o + 4] + s[o + 4..o + 6] + s[o + 6..o + 8] + s[o + 8..o + 12];
    assert HeaderBytes(n) == U16Bytes(kind) + s[o + 2..o + 12];
    assert Splice(s, o, U16Bytes(kind)) == Splice(s, o, HeaderBytes(n));
  }

  /** Referenced inodes are allocated; a directory has on disk the addresses it has in memory. */
  ghost predicate Typed(fs: Fs)
    requires GeoOk(fs.disk) && CacheUnique(fs)
  {
    forall k :: 0 <= k < |fs.cache| && fs.cache[k].count > 0 ==>
      && fs.cache[k].d.kind != 0
      && (fs.cache[k].d.kind == T_DIR ==> fs.cache[k].d.addrs == GetInode(fs.disk, fs.cache[k].inum).addrs)
  }

  lemma ReferencedIsTyped(fs: Fs, k: nat)
    requires FsOk(fs) && GeoOk(fs.disk) && CacheUnique(fs) && Typed(fs) && k < |fs.cache| && fs.cache[k].count > 0
    ensures GetInode(fs.disk, fs.cache[k].inum).kind != 0
  { assert Agrees(fs.cache[k].d, GetInode(fs.disk, fs.cache[k].inum)); }

  lemma FreeIsNotCached(fs: Fs, i: nat)
    requires FsOk(fs) && GeoOk(fs.disk) && CacheUnique(fs) && Typed(fs) && i < Inodes(fs.disk) && GetInode(fs.disk, i).kind == 0
    ensures Find(fs.cache, i, 0) == |fs.cache| && Files(fs).ino[i] == GetInode(fs.disk, i)
  {
    var k := Find(fs.cache, i, 0);
    if k < |fs.cache| { ReferencedIsTyped(fs, k); }
  }

  /** ialloc is iget of the first free inode, followed by an update of its type. */
  lemma IallocIs(fs: Fs, kind: u16)
    requires FsOk(fs) && GeoOk(fs.disk) && CacheUnique(fs) && Typed(fs)
    ensures var r := Ialloc(fs, kind); var i := FreeInode(fs.disk, 1);
      && (r.NoInode? <==> i == Inodes(fs.disk))
      && (r.Made? || r.NoInode? || (r.TableFull? && TableUsed(fs)))
      && (r.Made? ==>
            && i < Inodes(fs.disk) && Iget(fs, i).Got? && Iget(fs, i).k == r.k < |fs.cache| && fs.cache[r.k].count == 0
            && Iget(fs, i).fs.cache[r.k] == MemInode(i, 1, true, GetInode(fs.disk, i))
            && r.fs == Update(Iget(fs, i).fs, r.k, GetInode(fs.disk, i).(kind := kind)))
  {
    hide FsOk, GetInode, PutHeader, PutKind, Typed, CacheUnique, FreeInode;
    var i := FreeInode(fs.disk, 1);
    if i < Inodes(fs.disk) {
      FreeIsNotCached(fs, i);
      var n := GetInode(fs.disk, i).(kind := kind);
      PutKindIsHeader(fs.disk, i, kind);
      PutHeaderGets(fs.disk, i, n, i);
      assert n.(addrs := GetInode(fs.disk, i).addrs) == n;
    }
  }

  /** A new inode: nothing refers to it, and every other file is as before. */
  ghost predicate NewInode(fs: Fs, fs': Fs, k: nat, i: nat)
    requires GeoOk(fs.disk) && GeoOk(fs'.disk)
  {
    && FsOk(fs') && |fs'.cache| == |fs.cache| && |fs'.disk| == |fs.disk| && Inodes(fs'.disk) == Inodes(fs.disk)
    && k < |fs.cache| && fs.cache[k].count == 0 && LiveAt(fs'.cache, k, i) && fs'.cache[k].busy
    && (forall j :: 0 <= j < |fs.cache| && j != k ==> fs'.cache[j] == fs.cache[j])
    && i < Inodes(fs.disk) && Keeps(Files(fs), Files(fs'), {i})
    && (forall j :: 0 <= j < Inodes(fs.disk) && j != i ==> GetInode(fs'.disk, j) == GetInode(fs.disk, j))
    && GetInode(fs'.disk, i).addrs == GetInode(fs.disk, i).addrs
    && Files(fs').ino[i] == fs'.cache[k].d && fs'.cache[k].d.addrs == GetInode(fs.disk, i).addrs
    && (forall j :: 0 <= j < Inodes(fs.disk) ==> RefCount(fs', j) == RefCount(fs, j) + if j == i then 1 else 0)
  }

  lemma GotIsNew(fs: Fs, i: nat)
    requires FsOk(fs) && GeoOk(fs.disk) && i < Inodes(fs.disk) && Iget(fs, i).Got? && fs.cache[Iget(fs, i).k].count == 0
    requires Iget(fs, i).fs.cache[Iget(fs, i).k].d == GetInode(fs.disk, i)
    ensures GeoOk(Iget(fs, i).fs.disk) && NewInode(fs, Iget(fs, i).fs, Iget(fs, i).k, i)
  {
    hide FsOk, Files, GetInode, Filled, Content;
    IgetReferences(fs, i);
  }

  lemma UpdateNew(fs: Fs, fs1: Fs, k: nat, i: nat, n: Dinode)
    requires GeoOk(fs.disk) && GeoOk(fs1.disk) && NewInode(fs, fs1, k, i) && n.addrs == fs1.cache[k].d.addrs
    ensures k < |fs1.cache| && InodeSector(fs1.cache[k].inum) < |fs1.disk|
    ensures GeoOk(Update(fs1, k, n).disk) && NewInode(fs, Update(fs1, k, n), k, i) && Update(fs1, k, n).cache[k].d == n
  {
    hide FsOk, Files, GetInode, Filled, Content, SameBlocks, Find;
    UpdateOk(fs1, k, n);
    var fs2 := Update(fs1, k, n);
    OthersKeeps(fs1, fs2, k);
    KeepsTrans(Files(fs), Files(fs1), Files(fs2), {i}, {i});
    assert {i} + {i} == {i};
  }

  // ---------------------------------------------------------------- the new directory entry

  lemma TwoSplices(s: seq<byte>, o: nat, i: u16, name: seq<byte>)
    requires o + 16 <= |s| && |name| <= 14 && s[o..o + 16] == seq(16, _ => 0)
    ensures Splice(Splice(s, o, U16Bytes(i)), o + 2, name) == Splice(s, o, DirentBytes(i, name))
  {
    var l, r := Splice(Splice(s, o, U16Bytes(i)), o + 2, name), Splice(s, o, DirentBytes(i, name));
    forall x | 0 <= x < |s| ensures l[x] == r[x] {
      assert o <= x < o + 16 ==> s[x] == s[o..o + 16][x - o];
    }
  }

  /** The entry goes to the end of the directory, in one of its blocks. */
  lemma PutEntryAtEnd(v: Vol, d: nat, i: u16, name: seq<byte>)
    requires d < |v.ino| && DirOk(v, d) && v.ino[d].size % 512 != 0
    ensures Readable(v.disk, v.ino[d]) && FreeSlot(v.disk, v.ino[d], 0) < Slots(v.ino[d].size)
    ensures var n := v.ino[d]; var o := n.size; var w := n.addrs[o / 512];
      && 0 < w < |v.disk| && o % 512 + 16 <= 512 && o / 512 < 31
      && PutEntry(v.disk, n, FreeSlot(v.disk, n, 0), i, name)
         == v.disk[w := Splice(v.disk[w], o % 512, DirentBytes(i, Cut(name)))]
  {
    hide DirOk, FreeSlot, Splice, Slots;
    FreeSlotAtEnd(v, d);
    var n := v.ino[d];
    var e := n.size / 16;
    DirParts(v, d);
    SlotArith(n.size, e);
    EndArith(n.size);
    SlotBeyond(v, d, e);
    assert BlockOf(v, d, n.size / 512) == n.addrs[n.size / 512];
    TwoSplices(v.disk[n.addrs[n.size / 512]], n.size % 512, i, Cut(name));
  }

  lemma EndArith(size: nat)
    requires size % 16 == 0 && size % 512 != 0 && size <= 31 * 512
    ensures size / 16 / 32 == size / 512 && 16 * (size / 16 % 32) == size % 512 && size % 512 + 16 <= 512
    ensures size / 512 * 512 < size && size / 512 < 31
  {}

  lemma DirHolds(fs: Fs, d: nat)
    requires GeoOk(fs.disk) && d < Inodes(fs.disk) && DirOk(Files(fs), d)
    ensures Holds(fs, d, Files(fs).ino[d].size, Content(Files(fs), d))
  { HoldsNow(fs, d); }

  /** After the entry was stored and the size raised, the blocks are still zero beyond the size. */
  lemma TailAfterEntry(v: Vol, v': Vol, d: nat, t: seq<byte>, f: nat)
    requires d < |v.ino| == |v'.ino| && DirOk(v, d) && v.ino[d].size % 512 != 0 && |t| == 16 && |v'.disk| == |v.disk|
    requires v'.ino[d] == v.ino[d].(size := v.ino[d].size + 16) && f < 31 && f * 512 < v.ino[d].size + 16
    requires var w := v.ino[d].addrs[v.ino[d].size / 512];
      && 0 < w < |v.disk| && v.ino[d].size % 512 + 16 <= 512
      && v'.disk[w] == Splice(v.disk[w], v.ino[d].size % 512, t)
    ensures ZeroTail(v', d, f)
  {
    var size := v.ino[d].size;
    EndArith(size);
    assert BlockOf(v', d, f) == v.ino[d].addrs[f] && BlockOf(v, d, f) == v.ino[d].addrs[f];
    if f == size / 512 { assert ZeroTail(v, d, f); }
  }

  /** Directory `d` has the 16 bytes `t` at its end. */
  ghost predicate Grew(v: Vol, v': Vol, d: nat, t: seq<byte>)
  {
    && d < |v.ino| == |v'.ino| && |v'.disk| == |v.disk| && v.ino[d].size <= 31 * 512
    && v'.ino[d] == v.ino[d].(size := v.ino[d].size + 16)
    && Filled(v, d) && Filled(v', d) && Content(v', d) == Content(v, d) + t
    && forall f :: 0 <= f < 31 && f * 512 < v'.ino[d].size ==> ZeroTail(v', d, f)
  }

  ghost predicate Enlisted(fs: Fs, fs': Fs, kd: nat, i: u16, name: seq<byte>)
  {
    && GeoOk(fs.disk) && GeoOk(fs'.disk) && kd < |fs.cache| && Inodes(fs'.disk) == Inodes(fs.disk)
    && FsOk(fs') && |fs'.disk| == |fs.disk| && OthersKept(fs, fs', kd)
    && fs.cache[kd].inum < Inodes(fs.disk)
    && GetInode(fs'.disk, fs.cache[kd].inum).addrs == GetInode(fs.disk, fs.cache[kd].inum).addrs
    && fs'.cache[kd].d == fs.cache[kd].d.(size := fs'.cache[kd].d.size)
    && Grew(Files(fs), Files(fs'), fs.cache[kd].inum, DirentBytes(i, Cut(name)))
  }

  lemma EntryTails(v: Vol, v1: Vol, v2: Vol, d: nat, t: seq<byte>)
    requires d < |v.ino| == |v1.ino| == |v2.ino| && DirOk(v, d) && v.ino[d].size % 512 != 0 && |t| == 16
    requires v1.ino[d] == v.ino[d] && v2.ino[d] == v.ino[d].(size := v.ino[d].size + 16) && |v1.disk| == |v.disk|
    requires var w := v.ino[d].addrs[v.ino[d].size / 512];
      && 0 < w < |v.disk| && v.ino[d].size % 512 + 16 <= 512
      && v1.disk[w] == Splice(v.disk[w], v.ino[d].size % 512, t)
    requires SameBlocks(v1, v2, d)
    ensures forall f :: 0 <= f < 31 && f * 512 < v2.ino[d].size ==> ZeroTail(v2, d, f)
  {
    hide DirOk, ZeroTail, Splice;
    DirParts(v, d);
    EndArith(v.ino[d].size);
    forall f | 0 <= f < 31 && f * 512 < v2.ino[d].size ensures ZeroTail(v2, d, f) { TailAfterEntry(v, v2, d, t, f); }
  }

  /** The block written and the size raised, when the directory has a free entry. */
  lemma EnlistWrites(fs: Fs, kd: nat, i: u16, name: seq<byte>)
    requires FsOk(fs) && GeoOk(fs.disk) && kd < |fs.cache| && fs.cache[kd].count > 0
    requires fs.cache[kd].inum < Inodes(fs.disk) && DirOk(Files(fs), fs.cache[kd].inum) && fs.cache[kd].d.size % 512 != 0
    ensures var n := fs.cache[kd].d; Readable(fs.disk, n) && FreeSlot(fs.disk, n, 0) < Slots(n.size) && n.size <= 31 * 512
    ensures var n := fs.cache[kd].d; var d1 := PutEntry(fs.disk, n, FreeSlot(fs.disk, n, 0), i, name);
      && InodeSector(fs.cache[kd].inum) < |d1|
      && Enlisted(fs, Update(fs.(disk := d1), kd, n.(size := n.size + 16)), kd, i, name)
  {
    hide FsOk, Files, Content, Filled, CacheUnique, GetInode, PutHeader, Splice, Slots, FreeSlot, Readable, PutEntry, DirOk, OthersKept, ZeroTail, Find, SameBlocks, Holds;
    OkParts(fs);
    FindLive(fs, kd);
    var v, d, n, de := Files(fs), fs.cache[kd].inum, fs.cache[kd].d, DirentBytes(i, Cut(name));
    PutEntryAtEnd(v, d, i, name);
    DirParts(v, d);
    DirHolds(fs, d);
    PutChunk(fs, kd, n.size, de, n.size, Content(v, d), true);
    var fs1 := fs.(disk := PutEntry(fs.disk, n, FreeSlot(fs.disk, n, 0), i, name));
    OkParts(fs1);
    FindLive(fs1, kd);
    HoldsGives(fs1, d, n.size + 16, Overwrite(Content(v, d), n.size, de));
    assert Overwrite(Content(v, d), n.size, de) == Content(v, d) + de;
    var n2 := n.(size := n.size + 16);
    ResizeOk(fs1, kd, n.size + 16);
    var fs2 := Update(fs1, kd, n2);
    OthersTrans(fs, fs1, fs2, kd);
    UpdateOk(fs1, kd, n2);
    EntryTails(v, Files(fs1), Files(fs2), d, de);
  }

  lemma HoldsGives(fs: Fs, i: nat, size: u32, c: seq<byte>)
    requires GeoOk(fs.disk) && i < Inodes(fs.disk) && Holds(fs, i, size, c)
    ensures Filled(Sized(Files(fs), i, size), i) && Content(Sized(Files(fs), i, size), i) == c
  {}

  // ---------------------------------------------------------------- mknod

  ghost predicate TreeOk(fs: Fs)
  { FsOk(fs) && DirsOk(Files(fs)) && Typed(fs) }

  lemma TreeParts(fs: Fs)
    requires TreeOk(fs)
    ensures FsOk(fs) && GeoOk(fs.disk) && CacheUnique(fs) && DirsOk(Files(fs)) && Typed(fs)
  {}

  /** Inode `i`, which had type 0, is `n` and directory `d` has an entry for it; other files are as before. */
  ghost predicate Entered(v: Vol, v': Vol, d: nat, i: nat, name: seq<byte>, n: Dinode)
  {
    && d < |v.ino| == |v'.ino| && 0 < i < |v.ino| && i < 0x1_0000 && i != d
    && v.ino[i].kind == 0 && v.ino[d].kind == T_DIR && v.ino[d].size % 512 != 0
    && v'.ino[i] == n.(addrs := v.ino[i].addrs)
    && Grew(v, v', d, DirentBytes(i, Cut(name))) && Keeps(v, v', {i, d})
  }

  /** A new inode, but for its addresses. */
  function NewNode(kind: u16, major: u16, minor: u16): Dinode { Dinode(kind, major, minor, 0, 0, seq(32, _ => 0)) }

  /** What mknod in the directory of entry `kd` leaves behind; entry `k` has the new inode. */
  ghost predicate Created(fs: Fs, fs': Fs, k: nat, kd: nat, name: seq<byte>, n: Dinode)
  {
    && FsOk(fs') && GeoOk(fs.disk) && GeoOk(fs'.disk) && |fs'.cache| == |fs.cache| && k < |fs.cache| && kd < |fs.cache| && k != kd
    && var v, d, i := Files(fs), fs.cache[kd].inum, fs'.cache[k].inum;
    && Entered(v, Files(fs'), d, i, name, n)
    && (forall j :: 1 <= j < i ==> v.ino[j].kind != 0)
    && CacheMoved(fs, fs', k, kd) && DiskMoved(fs, fs', {i, d})
    && (forall j :: 0 <= j < |v.ino| ==> RefCount(fs', j) == RefCount(fs, j) + if j == i then 1 else 0)
  }

  /** Entry `k`, which was free, is in use, entry `kd` has a new size, the others are as before. */
  ghost predicate CacheMoved(fs: Fs, fs': Fs, k: nat, kd: nat)
    requires k < |fs.cache| == |fs'.cache| && kd < |fs.cache|
  {
    && fs.cache[k].count == 0 && fs'.cache[k].count == 1 && fs'.cache[k].busy
    && fs'.cache[kd] == fs.cache[kd].(d := fs.cache[kd].d.(size := fs'.cache[kd].d.size))
    && forall j :: 0 <= j < |fs.cache| && j != k && j != kd ==> fs'.cache[j] == fs.cache[j]
  }

  /** Inodes on disk outside `xs` are as before; no address on disk changes. */
  ghost predicate DiskMoved(fs: Fs, fs': Fs, xs: set<nat>)
    requires GeoOk(fs.disk) && GeoOk(fs'.disk)
  {
    && Inodes(fs'.disk) == Inodes(fs.disk)
    && forall j: nat :: j < Inodes(fs.disk) ==>
         && GetInode(fs'.disk, j).addrs == GetInode(fs.disk, j).addrs
         && (j !in xs ==> GetInode(fs'.disk, j) == GetInode(fs.disk, j))
  }

  lemma KindOnDisk(fs: Fs, i: nat)
    requires FsOk(fs) && GeoOk(fs.disk) && i < Inodes(fs.disk)
    ensures GetInode(fs.disk, i).kind == Files(fs).ino[i].kind
  {
    hide Sound, AllMarked, GetInode;
    var k := Find(fs.cache, i, 0);
    if k < |fs.cache| { AgreesAt(fs, k); }
  }

  lemma AgreesAt(fs: Fs, k: nat)
    requires FsOk(fs) && GeoOk(fs.disk) && k < |fs.cache| && fs.cache[k].count > 0
    ensures fs.cache[k].inum < Inodes(fs.disk) && fs.cache[k].d.kind == GetInode(fs.disk, fs.cache[k].inum).kind
  { assert Agrees(fs.cache[k].d, GetInode(fs.disk, fs.cache[k].inum)); }

  /** The inode before it is entered in the directory. */
  lemma InodeMade(fs: Fs, kind: u16, major: u16, minor: u16)
    requires TreeOk(fs) && GeoOk(fs.disk) && Ialloc(fs, kind).Made?
    ensures var (fs1, k) := (Ialloc(fs, kind).fs, Ialloc(fs, kind).k); var i := FreeInode(fs.disk, 1);
      && k < |fs1.cache| && fs1.cache[k].inum == i && InodeSector(i) < |fs1.disk|
      && var fs2 := Update(fs1, k, fs1.cache[k].d.(major := major, minor := minor, nlink := 0, size := 0));
      && GeoOk(fs2.disk) && NewInode(fs, fs2, k, i) && fs2.cache[k].count == 1
      && fs2.cache[k].d == Dinode(kind, major, minor, 0, 0, GetInode(fs.disk, i).addrs)
  {
    hide FsOk, Files, GetInode, DirsOk, Typed, CacheUnique, NewInode, PutHeader, FreeInode;
    TreeParts(fs);
    IallocIs(fs, kind);
    var i, k := FreeInode(fs.disk, 1), Ialloc(fs, kind).k;
    GotIsNew(fs, i);
    var fs0 := Iget(fs, i).fs;
    var n := GetInode(fs.disk, i).(kind := kind);
    UpdateNew(fs, fs0, k, i, n);
    var fs1 := Update(fs0, k, n);
    UpdateNew(fs, fs1, k, i, n.(major := major, minor := minor, nlink := 0, size := 0));
  }

  /** Directories outside `xs` stay well-formed when files outside `xs` are kept. */
  lemma DirKept(v: Vol, v': Vol, d: nat, xs: set<nat>)
    requires d < |v.ino| && DirOk(v, d) && Keeps(v, v', xs) && d !in xs
    requires forall x :: x in xs ==> x < |v.ino| && v'.ino[x].kind != 0
    ensures DirOk(v', d)
  {
    hide Content;
    forall f | 0 <= f < 31 && f * 512 < v'.ino[d].size ensures ZeroTail(v', d, f) {
      assert ZeroTail(v, d, f) && BlockOf(v, d, f) == v.ino[d].addrs[f] == BlockOf(v', d, f);
    }
  }

  lemma EntriesAppend(c: seq<byte>, i: u16, name: seq<byte>)
    requires |c| % 16 == 0 && |name| <= 14
    ensures EntriesOf(c + DirentBytes(i, name)) == EntriesOf(c) + [Entry(i, NameField(name))]
  {
    var de := DirentBytes(i, name);
    var l, r := EntriesOf(c + de), EntriesOf(c) + [Entry(i, NameField(name))];
    assert |c + de| / 16 == |c| / 16 + 1;
    forall e | 0 <= e < |l| ensures l[e] == r[e] {
      var p := 16 * e;
      if e < |c| / 16 {
        assert (c + de)[p..p + 16] == c[p..p + 16];
      } else {
        assert p == |c|;
        assert (c + de)[p..p + 16] == de;
        U16RoundTrip(i);
        assert de[2..] == NameField(name);
      }
    }
  }

  lemma DirGrew(v: Vol, v': Vol, d: nat, i: u16, name: seq<byte>)
    requires d < |v.ino| && DirOk(v, d) && v.ino[d].size % 512 != 0 && |name| <= 14 && Grew(v, v', d, DirentBytes(i, name))
    requires 0 < i < |v.ino| && i != d && v'.ino[i].kind != 0 && v.ino[d].kind != 0
    requires forall j :: 0 <= j < |v.ino| && j != i && j != d ==> v'.ino[j] == v.ino[j]
    ensures DirOk(v', d)
    ensures Filled(v, d) && Filled(v', d)
    ensures EntriesOf(Content(v', d)) == EntriesOf(Content(v, d)) + [Entry(i, NameField(name))]
  {
    hide Content, Filled, ZeroTail, DirentBytes;
    EndArith(v.ino[d].size);
    EntriesAppend(Content(v, d), i, name);
  }

  lemma EmptyDir(v: Vol, i: nat)
    requires i < |v.ino| && v.ino[i].size == 0
    ensures DirOk(v, i) && EntriesOf(Content(v, i)) == []
  {}

  /** mknod keeps the directories well-formed. */
  lemma EnteredDirs(v: Vol, v': Vol, d: nat, i: nat, name: seq<byte>, n: Dinode)
    requires Entered(v, v', d, i, name, n) && DirsOk(v) && n.kind != 0 && n.size == 0
    ensures DirsOk(v')
  {
    hide Content, Filled, DirOk, ZeroTail, Grew, SameBlocks;
    GrewParts(v, v', d, DirentBytes(i, Cut(name)));
    forall j | 0 <= j < |v'.ino| && v'.ino[j].kind == T_DIR ensures DirOk(v', j) {
      if j == i {
        EmptyDir(v', i);
      } else if j == d {
        DirGrew(v, v', d, i, Cut(name));
      } else {
        DirKept(v, v', j, {i, d});
      }
    }
  }

  lemma GrewParts(v: Vol, v': Vol, d: nat, t: seq<byte>)
    requires Grew(v, v', d, t)
    ensures d < |v.ino| == |v'.ino| && v.ino[d].size <= 31 * 512 && v'.ino[d] == v.ino[d].(size := v.ino[d].size + 16)
  {}

  lemma CreatedTyped(fs: Fs, fs': Fs, k: nat, kd: nat, name: seq<byte>, n: Dinode)
    requires TreeOk(fs) && Created(fs, fs', k, kd, name, n) && n.kind != 0 && fs.cache[kd].count > 0
    ensures GeoOk(fs'.disk) && CacheUnique(fs') && Typed(fs')
  {
    hide FsOk, Files, GetInode, DirsOk, Keeps, Grew, Find;
    TreeParts(fs);
    OkParts(fs');
    NewEntry(fs, fs', k, kd, name, n);
    forall j | 0 <= j < |fs'.cache| && fs'.cache[j].count > 0
      ensures fs'.cache[j].d.kind != 0
      ensures fs'.cache[j].d.kind == T_DIR ==> fs'.cache[j].d.addrs == GetInode(fs'.disk, fs'.cache[j].inum).addrs
    {}
  }

  lemma NewEntry(fs: Fs, fs': Fs, k: nat, kd: nat, name: seq<byte>, n: Dinode)
    requires TreeOk(fs) && Created(fs, fs', k, kd, name, n)
    ensures GeoOk(fs'.disk) && fs'.cache[k].inum < Inodes(fs'.disk) && fs'.cache[k].d.kind == n.kind
    ensures fs'.cache[k].d.addrs == GetInode(fs'.disk, fs'.cache[k].inum).addrs
  {
    var i := fs'.cache[k].inum;
    hide FsOk, Files, GetInode, DirsOk, Keeps, Grew, Find;
    TreeParts(fs);
    DirIsTyped(fs', k);
    KindOnDisk(fs, i);
    FreeIsNotCached(fs, i);
  }

  lemma GrewFrom(v: Vol, v2: Vol, v': Vol, d: nat, t: seq<byte>, xs: set<nat>)
    requires Keeps(v, v2, xs) && d < |v.ino| && d !in xs && Filled(v, d) && Grew(v2, v', d, t)
    ensures Grew(v, v', d, t)
  { hide Content, Filled, ZeroTail; }

  lemma HalvesEnter(v: Vol, v2: Vol, v': Vol, d: nat, i: nat, name: seq<byte>, n: Dinode)
    requires d < |v.ino| == |v'.ino| && 0 < i < |v.ino| && i < 0x1_0000 && i != d && v.ino[i].kind == 0 && v.ino[d].kind == T_DIR
    requires DirOk(v, d) && v.ino[d].size % 512 != 0 && Keeps(v, v2, {i}) && Keeps(v2, v', {d})
    requires Grew(v2, v', d, DirentBytes(i, Cut(name))) && v2.ino[i] == n && n.addrs == v.ino[i].addrs
    ensures Entered(v, v', d, i, name, n)
  {
    hide Content, Filled, ZeroTail, SameBlocks, DirOk, Grew;
    KeepsTrans(v, v2, v', {i}, {d});
    assert {i} + {d} == {i, d};
    DirParts(v, d);
    GrewFrom(v, v2, v', d, DirentBytes(i, Cut(name)), {i});
  }

  /** Putting the two halves of mknod together. */
  lemma HalvesJoin(fs: Fs, fs2: Fs, fs': Fs, k: nat, kd: nat, i: nat, name: seq<byte>)
    requires TreeOk(fs) && GeoOk(fs.disk) && GeoOk(fs2.disk) && NewInode(fs, fs2, k, i) && fs2.cache[k].count == 1
    requires kd < |fs.cache| && fs.cache[kd].count > 0 && fs.cache[kd].d.kind == T_DIR && fs.cache[kd].d.size % 512 != 0
    requires i == FreeInode(fs.disk, 1) && i < 0x1_0000 && Enlisted(fs2, fs', kd, i, name)
    ensures Created(fs, fs', k, kd, name, fs2.cache[k].d)
  {
    hide FsOk, Files, GetInode, DirsOk, Typed, DirOk, Find, CacheUnique, FreeInode, Keeps, Grew, Content, Filled, SameBlocks;
    TreeParts(fs);
    var v, v2, v', d := Files(fs), Files(fs2), Files(fs'), fs.cache[kd].inum;
    FirstFreeInode(fs, i);
    DirIsTyped(fs, kd);
    FreeIsNotCached(fs, i);
    DirAt(v, d);
    OthersKeeps(fs2, fs', kd);
    HalvesEnter(v, v2, v', d, i, name, fs2.cache[k].d);
    assert CacheMoved(fs, fs', k, kd);
    assert DiskMoved(fs, fs', {i, d});
  }

  lemma DirIsTyped(fs: Fs, kd: nat)
    requires FsOk(fs) && GeoOk(fs.disk) && kd < |fs.cache| && fs.cache[kd].count > 0
    ensures fs.cache[kd].inum < Inodes(fs.disk) && Files(fs).ino[fs.cache[kd].inum] == fs.cache[kd].d
  { OkParts(fs); FindLive(fs, kd); }

  lemma FirstFreeInode(fs: Fs, i: nat)
    requires FsOk(fs) && GeoOk(fs.disk) && i == FreeInode(fs.disk, 1) && i < Inodes(fs.disk)
    ensures 0 < i && Files(fs).ino[i].kind == 0 && forall j :: 1 <= j < i ==> Files(fs).ino[j].kind != 0
  {
    hide FsOk, Files, GetInode;
    KindOnDisk(fs, i);
    forall j | 1 <= j < i ensures Files(fs).ino[j].kind != 0 { KindOnDisk(fs, j); }
  }

  lemma NoFreeInode(fs: Fs)
    requires FsOk(fs) && GeoOk(fs.disk)
    ensures FreeInode(fs.disk, 1) == Inodes(fs.disk) <==> forall j :: 1 <= j < Inodes(fs.disk) ==> Files(fs).ino[j].kind != 0
  {
    hide FsOk, Files, GetInode;
    forall j | 1 <= j < Inodes(fs.disk) ensures GetInode(fs.disk, j).kind == Files(fs).ino[j].kind { KindOnDisk(fs, j); }
  }

  lemma NewKeepsDir(fs: Fs, fs2: Fs, k: nat, i: nat, kd: nat)
    requires GeoOk(fs.disk) && GeoOk(fs2.disk) && NewInode(fs, fs2, k, i) && fs2.cache[k].d.kind != 0
    requires kd < |fs.cache| && fs.cache[kd].count > 0 && fs.cache[kd].inum != i && fs.cache[kd].inum < Inodes(fs.disk)
    requires DirOk(Files(fs), fs.cache[kd].inum)
    ensures k != kd && fs2.cache[kd] == fs.cache[kd] && DirOk(Files(fs2), fs.cache[kd].inum)
  {
    hide FsOk, GetInode, Content, Filled, DirOk, Find, SameBlocks;
    DirKept(Files(fs), Files(fs2), fs.cache[kd].inum, {i});
  }

  /** Entry `kd` is a directory in use. */
  ghost predicate DirHeld(fs: Fs, kd: nat)
  {
    && FsOk(fs) && GeoOk(fs.disk) && kd < |fs.cache| && fs.cache[kd].count > 0
    && fs.cache[kd].inum < Inodes(fs.disk) && DirOk(Files(fs), fs.cache[kd].inum)
  }

  lemma HeldDir(fs: Fs, kd: nat)
    requires DirHeld(fs, kd)
    ensures FsOk(fs) && GeoOk(fs.disk) && kd < |fs.cache| && fs.cache[kd].count > 0
    ensures fs.cache[kd].inum < Inodes(fs.disk) && DirOk(Files(fs), fs.cache[kd].inum)
  {}

  /** The second half: it fails exactly when the blocks of the directory are full. */
  lemma EnlistOk(fs: Fs, k: nat, kd: nat, name: seq<byte>)
    requires kd < |fs.cache| && k < |fs.cache| && fs.cache[k].inum < 0x1_0000 && DirHeld(fs, kd)
    ensures var r := Enlist(fs, k, kd, name);
      && (r.Made? || r.NoSlot?) && (r.NoSlot? <==> fs.cache[kd].d.size % 512 == 0)
      && (r.Made? ==> r.k == k && Enlisted(fs, r.fs, kd, fs.cache[k].inum, name))
  {
    hide FsOk, Files, GetInode, PutHeader, DirOk, FreeSlot, Slots, Readable, PutEntry, Enlisted, DirHeld;
    HeldDir(fs, kd);
    var d := fs.cache[kd].inum;
    DirIsTyped(fs, kd);
    FreeSlotAtEnd(Files(fs), d);
    SectorOnDisk(fs.disk, d);
    if fs.cache[kd].d.size % 512 != 0 { EnlistWrites(fs, kd, fs.cache[k].inum, name); }
  }

  /**
   * mknod succeeds exactly when an inode is free, an entry of the inode table is free, and the size of the
   * directory is not a multiple of 512; it then takes the first free inode, appends one entry to the
   * directory, keeps every other file, and leaves directories and the inode table well-formed.
   */
  lemma MknodCreates(fs: Fs, kd: nat, name: seq<byte>, kind: u16, major: u16, minor: u16)
    requires GeoOk(fs.disk) && kd < |fs.cache| && fs.cache[kd].count > 0 && fs.cache[kd].d.kind == T_DIR
    requires TreeOk(fs) && kind != 0
    ensures var r := Mknod(fs, kd, name, kind, major, minor);
      && (r.Made? || r.NoInode? || r.NoSlot? || r.TableFull?)
      && (r.NoInode? <==> forall j :: 1 <= j < Inodes(fs.disk) ==> Files(fs).ino[j].kind != 0)
      && (r.TableFull? ==> TableUsed(fs))
      && (r.NoSlot? ==> fs.cache[kd].d.size % 512 == 0)
      && (r.Made? ==>
            && !TableUsed(fs) && fs.cache[kd].d.size % 512 != 0
            && Created(fs, r.fs, r.k, kd, name, NewNode(kind, major, minor)))
  {
    hide FsOk, Files, GetInode, DirsOk, Typed, CacheUnique, NewInode, FreeInode, Ialloc, Enlist, DirOk, Enlisted, PutHeader, Created;
    TreeParts(fs);
    IallocIs(fs, kind);
    NoFreeInode(fs);
    if Ialloc(fs, kind).Made? {
      var fs1, k, i := Ialloc(fs, kind).fs, Ialloc(fs, kind).k, FreeInode(fs.disk, 1);
      InodeMade(fs, kind, major, minor);
      var fs2 := Update(fs1, k, fs1.cache[k].d.(major := major, minor := minor, nlink := 0, size := 0));
      DirIsTyped(fs, kd);
      FirstFreeInode(fs, i);
      DirAt(Files(fs), fs.cache[kd].inum);
      NewKeepsDir(fs, fs2, k, i, kd);
      NewParts(fs, fs2, k, i);
      EnlistOk(fs2, k, kd, name);
      var r := Enlist(fs2, k, kd, name);
      if r.Made? {
        HalvesJoin(fs, fs2, r.fs, k, kd, i, name);
        CreatedEntry(fs, r.fs, k, kd, name, fs2.cache[k].d, NewNode(kind, major, minor));
      }
    }
  }

  lemma CreatedEntry(fs: Fs, fs': Fs, k: nat, kd: nat, name: seq<byte>, n: Dinode, m: Dinode)
    requires Created(fs, fs', k, kd, name, n) && m == n.(addrs := m.addrs)
    ensures Created(fs, fs', k, kd, name, m)
  { hide Keeps, Grew, FsOk; }

  lemma NewParts(fs: Fs, fs2: Fs, k: nat, i: nat)
    requires GeoOk(fs.disk) && GeoOk(fs2.disk) && NewInode(fs, fs2, k, i)
    ensures FsOk(fs2) && |fs2.cache| == |fs.cache| && k < |fs.cache| && fs.cache[k].count == 0 && fs2.cache[k].inum == i
    ensures Inodes(fs2.disk) == Inodes(fs.disk) && i < Inodes(fs.disk) <= 0x1_0000
  {}

  /** mknod keeps the invariant. */
  lemma CreatedKeepsTree(fs: Fs, fs': Fs, k: nat, kd: nat, name: seq<byte>, n: Dinode)
    requires TreeOk(fs) && Created(fs, fs', k, kd, name, n) && fs.cache[kd].count > 0 && n.kind != 0 && n.size == 0
    ensures TreeOk(fs')
  {
    hide DirsOk, Typed, Files, Entered, CacheMoved, DiskMoved, FsOk;
    TreeParts(fs);
    EnteredDirs(Files(fs), Files(fs'), fs.cache[kd].inum, fs'.cache[k].inum, name, n);
    CreatedTyped(fs, fs', k, kd, name, n);
  }

  // ---------------------------------------------------------------- names afterwards

  lemma LookupAppend(es: seq<Entry>, en: Entry, name: seq<byte>)
    ensures LookupIn(es + [en], name)
         == if LookupIn(es, name).Some? then LookupIn(es, name) else if Hit(en, name) then Some(en.inum) else None
  {
    var e, e2 := IndexOf(es, name, 0), IndexOf(es + [en], name, 0);
    assert (es + [en])[|es|] == en;
    assert e2 < |es| ==> (es + [en])[e2] == es[e2];
    assert e < |es| ==> (es + [en])[e] == es[e];
  }

  /** Every directory gives every name the inode it gave before; `d` gives the new name the new inode. */
  lemma NamesAfter(v: Vol, v': Vol, d: nat, i: nat, name: seq<byte>, n: Dinode, j: nat, x: seq<byte>)
    requires Entered(v, v', d, i, name, n) && DirsOk(v) && DirsOk(v') && n.kind != 0 && n.size == 0 && 0 !in name
    requires j < |v'.ino| && v'.ino[j].kind == T_DIR
    ensures j != i ==> v.ino[j].kind == T_DIR
    ensures NameIn(v', j, x)
         == if j == i then None
            else if j == d && x == Cut(name) && NameIn(v, d, x).None? then Some(i) else NameIn(v, j, x)
  {
    hide DirsOk, DirOk, Content, Filled, Grew, SameBlocks, EntriesOf, LookupIn;
    DirAt(v', j);
    DirAt(v, d);
    DirParts(v, d);
    GrewParts(v, v', d, DirentBytes(i, Cut(name)));
    if j == i {
      EmptyDir(v', i);
    } else if j == d {
      DirGrew(v, v', d, i, Cut(name));
      LookupAppend(EntriesOf(Content(v, d)), Entry(i, NameField(Cut(name))), x);
      NameRoundTrip(Cut(name));
    } else {
      DirAt(v, j);
      DirParts(v, j);
    }
  }
}
