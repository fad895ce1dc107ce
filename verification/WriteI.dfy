/** kernel/fs.c: writei on the direct blocks of a file. */
module WriteI {
  import opened Options
  import opened Bytes
  import opened Layout
  import opened Bitmap
  import opened Volume
  import opened Balloc
  import opened Kfs
  import opened Overwriting

  // ---------------------------------------------------------------- writei

  /** ip->addrs[lbn] = balloc(ip->dev); None is the panic of balloc. */
  function TakeBlock(fs: Fs, k: nat, lbn: nat): Option<Fs>
    requires GeoOk(fs.disk) && k < |fs.cache| && lbn < 32
  {
    var a := Alloc(fs.disk);
    if a.None? then None
    else
      var e := fs.cache[k];
      Some(Fs(a.value.0, fs.cache[k := e.(d := e.d.(addrs := e.d.addrs[lbn := a.value.1]))]))
  }

  /** One round of the loop of writei, at a direct block. */
  function Round(fs: Fs, k: nat, off: nat, p: seq<byte>): Option<Fs>
    requires GeoOk(fs.disk) && k < |fs.cache| && off / 512 < 31
  {
    var lbn := off / 512;
    var r := if fs.cache[k].d.addrs[lbn] == 0 then TakeBlock(fs, k, lbn) else Some(fs);
    if r.None? || |r.value.disk| <= r.value.cache[k].d.addrs[lbn] then None
    else
      var fs1 := r.value;
      var w := fs1.cache[k].d.addrs[lbn];
      Some(fs1.(disk := fs1.disk[w := Splice(fs1.disk[w], off % 512, p[..Chunk(off, p)])]))
  }

  function Loop(fs: Fs, k: nat, off: nat, p: seq<byte>): Option<Fs>
    decreases |p|
  {
    if p == [] then Some(fs)
    else if !GeoOk(fs.disk) || |fs.cache| <= k || 31 <= off / 512 then None
    else
      var r := Round(fs, k, off, p);
      if r.None? then None else Loop(r.value, k, off + Chunk(off, p), p[Chunk(off, p)..])
  }

  /** The end of writei: the size grows when bytes were written past it, and iupdate writes the header. */
  function Finish(fs: Fs, k: nat, off: nat, n: nat): Fs
    requires GeoOk(fs.disk) && k < |fs.cache| && fs.cache[k].inum < Inodes(fs.disk) && off < 0x1_0000_0000
  {
    var e := fs.cache[k];
    var d := if n > 0 && e.d.size < off then e.d.(size := off) else e.d;
    Fs(PutHeader(fs.disk, e.inum, d), fs.cache[k := e.(d := d)])
  }

  /** Full is the panic of balloc. Devices go to their driver, which is not modelled. */
  datatype WriteResult = Wrote(fs: Fs, n: nat) | Full | ToDevice | PanicType

  function Write(fs: Fs, k: nat, off: nat, p: seq<byte>): WriteResult
    requires GeoOk(fs.disk) && k < |fs.cache| && fs.cache[k].inum < Inodes(fs.disk) && off + |p| <= 31 * 512
  {
    var kind := fs.cache[k].d.kind;
    if kind == T_DEV then ToDevice
    else if kind != T_FILE then PanicType
    else
      var r := Loop(fs, k, off, p);
      if r.None? || !GeoOk(r.value.disk) || |r.value.cache| <= k || Inodes(r.value.disk) <= r.value.cache[k].inum then Full
      else Wrote(Finish(r.value, k, off + |p|, |p|), |p|)
  }

  // ---------------------------------------------------------------- small changes of the file system

  /** A referenced entry gets new contents: the inode in force changes, and no other. */
  lemma UpdateEntry(fs: Fs, k: nat, n: Dinode)
    requires GeoOk(fs.disk) && CacheUnique(fs) && k < |fs.cache| && fs.cache[k].count > 0
    ensures var fs' := fs.(cache := fs.cache[k := fs.cache[k].(d := n)]); var i := fs.cache[k].inum;
      && i < Inodes(fs.disk) && CacheUnique(fs')
      && Files(fs') == Files(fs).(ino := Files(fs).ino[i := n])
      && forall j :: 0 <= j < Inodes(fs.disk) ==> RefCount(fs', j) == RefCount(fs, j)
  {
    var fs', i := fs.(cache := fs.cache[k := fs.cache[k].(d := n)]), fs.cache[k].inum;
    FindLive(fs, k);
    assert CacheUnique(fs');
    forall j | 0 <= j < Inodes(fs.disk)
      ensures RefCount(fs', j) == RefCount(fs, j) && Eff(fs', j) == if j == i then n else Eff(fs, j)
    {
      FindStable(fs.cache, fs'.cache, j, 0);
    }
    assert Files(fs').ino == Files(fs).ino[i := n];
  }

  /** A sector that holds neither superblock nor inodes changes: the inodes in force stay. */
  lemma UpdateSector(fs: Fs, d': Disk, c: nat)
    requires GeoOk(fs.disk) && GeoOk(d') && |d'| == |fs.disk| && Inodes(d') == Inodes(fs.disk) && c < |d'|
    requires forall x :: 0 <= x < |d'| && x != c ==> d'[x] == fs.disk[x]
    requires forall i :: 0 <= i < Inodes(fs.disk) ==> InodeSector(i) != c
    ensures Files(fs.(disk := d')) == Files(fs).(disk := Files(fs).disk[c := d'[c]])
    ensures forall i :: 0 <= i < Inodes(fs.disk) ==> GetInode(d', i) == GetInode(fs.disk, i)
  {
    assert d' == fs.disk[c := d'[c]];
    var fs' := fs.(disk := d');
    assert Files(fs').ino == Files(fs).ino;
  }

  lemma SameCounts(fs: Fs, d': Disk)
    ensures forall j :: RefCount(fs.(disk := d'), j) == RefCount(fs, j)
  {}

  lemma HeaderSector(d: Disk, i: nat)
    requires GeoOk(d) && i < Inodes(d)
    ensures forall n: Dinode :: var d' := PutHeader(d, i, n);
      && GeoOk(d') && Inodes(d') == Inodes(d) && DataStart(d') == DataStart(d)
      && forall x :: 0 <= x < |d'| && x != InodeSector(i) ==> d'[x] == d[x]
  {}

  /** Only `i`'s header changes on disk. */
  lemma UpdateHeader(fs: Fs, k: nat, n: Dinode)
    requires GeoOk(fs.disk) && CacheUnique(fs) && k < |fs.cache| && fs.cache[k].count > 0
    ensures fs.cache[k].inum < Inodes(fs.disk)
    ensures var i := fs.cache[k].inum; var d' := PutHeader(fs.disk, i, n);
      var fs' := Fs(d', fs.cache[k := fs.cache[k].(d := n)]);
      && GeoOk(d') && Inodes(d') == Inodes(fs.disk) && CacheUnique(fs')
      && (forall x :: 0 <= x < |d'| && x != InodeSector(i) ==> d'[x] == fs.disk[x])
      && Files(fs').ino == Files(fs).ino[i := n]
      && (forall j :: 0 <= j < Inodes(fs.disk) ==>
            && RefCount(fs', j) == RefCount(fs, j)
            && GetInode(d', j) == if j == i then n.(addrs := GetInode(fs.disk, i).addrs) else GetInode(fs.disk, j))
  {
    var i := fs.cache[k].inum;
    var d' := PutHeader(fs.disk, i, n);
    var fs1 := fs.(cache := fs.cache[k := fs.cache[k].(d := n)]);
    UpdateEntry(fs, k, n);
    HeaderSector(fs.disk, i);
    CachedHeader(fs1, k, n);
    SameCounts(fs1, d');
    hide GetInode, PutHeader, Find, Files, Eff, CacheUnique;
    forall j | 0 <= j < Inodes(fs.disk)
      ensures GetInode(d', j) == if j == i then n.(addrs := GetInode(fs.disk, i).addrs) else GetInode(fs.disk, j)
    {
      PutHeaderGets(fs.disk, i, n, j);
    }
  }

  /** The header on disk of a cached inode is not in force. */
  lemma CachedHeader(fs: Fs, k: nat, n: Dinode)
    requires GeoOk(fs.disk) && CacheUnique(fs) && k < |fs.cache| && fs.cache[k].count > 0
    ensures fs.cache[k].inum < Inodes(fs.disk)
    ensures var d' := PutHeader(fs.disk, fs.cache[k].inum, n);
      GeoOk(d') && Files(fs.(disk := d')).ino == Files(fs).ino && CacheUnique(fs.(disk := d'))
  {
    var i := fs.cache[k].inum;
    var d' := PutHeader(fs.disk, i, n);
    HeaderSector(fs.disk, i);
    FindLive(fs, k);
    hide PutHeader, GetInode;
    forall j | 0 <= j < Inodes(fs.disk) ensures Eff(fs.(disk := d'), j) == Eff(fs, j) {
      PutHeaderGets(fs.disk, i, n, j);
    }
    assert Files(fs.(disk := d')).ino == Files(fs).ino;
  }

  // ---------------------------------------------------------------- the invariant through writei

  /** What every part of writei keeps about files other than `i`, and about references. */
  ghost predicate OthersKept(fs: Fs, fs': Fs, k: nat)
    requires GeoOk(fs.disk) && GeoOk(fs'.disk) && k < |fs.cache|
  {
    var v, v' := Files(fs), Files(fs');
    && |fs'.cache| == |fs.cache| && Inodes(fs'.disk) == Inodes(fs.disk)
    && fs'.cache[k] == fs.cache[k].(d := fs'.cache[k].d)
    && (forall j :: 0 <= j < |fs.cache| && j != k ==> fs'.cache[j] == fs.cache[j])
    && (forall j :: 0 <= j < Inodes(fs.disk) ==> RefCount(fs', j) == RefCount(fs, j))
    && (forall j :: 0 <= j < |v.ino| && j != fs.cache[k].inum ==>
          v'.ino[j] == v.ino[j] && GetInode(fs'.disk, j) == GetInode(fs.disk, j))
    && (forall j :: 0 <= j < |v.ino| && j != fs.cache[k].inum ==> SameBlocks(v, v', j))
    && (forall j :: 0 <= j < |v.ino| && j != fs.cache[k].inum && Filled(v, j) ==>
          Filled(v', j) && Content(v', j) == Content(v, j))
  }

  lemma OthersTrans(fs: Fs, fs1: Fs, fs2: Fs, k: nat)
    requires GeoOk(fs.disk) && GeoOk(fs1.disk) && GeoOk(fs2.disk) && k < |fs.cache|
    requires OthersKept(fs, fs1, k) && OthersKept(fs1, fs2, k)
    ensures OthersKept(fs, fs2, k)
  {
    hide Content, Filled;
    var v, v1, v2 := Files(fs), Files(fs1), Files(fs2);
    forall j | 0 <= j < |v.ino| && j != fs.cache[k].inum ensures SameBlocks(v, v2, j) {
      assert SameBlocks(v, v1, j) && SameBlocks(v1, v2, j) && v1.ino[j] == v.ino[j];
    }
    forall j | 0 <= j < |v.ino| && j != fs.cache[k].inum && Filled(v, j)
      ensures Filled(v2, j) && Content(v2, j) == Content(v, j)
    {
      assert Filled(v1, j) && Content(v1, j) == Content(v, j);
    }
  }

  /** The volume of TakeBlock: the bitmap sector is written and a direct slot of `i` gets `b`. */
  lemma TakeBlockFiles(fs: Fs, k: nat, lbn: nat)
    requires FsOk(fs) && k < |fs.cache| && fs.cache[k].count > 0 && lbn < 31 && TakeBlock(fs, k, lbn).Some?
    ensures var (d', b) := Alloc(fs.disk).value; var fs' := TakeBlock(fs, k, lbn).value;
      var i := fs.cache[k].inum; var c := BitSector(b, Inodes(fs.disk)); var v := Files(fs);
      && b < |fs.disk| && i < |v.ino| && 1 < c < DataStart(fs.disk)
      && GeoOk(d') && fs'.disk == d' && CacheUnique(fs') && DataStart(d') == DataStart(fs.disk)
      && Files(fs') == SetAddr(v.(disk := v.disk[c := d'[c]]), i, lbn, b)
      && (forall j :: 0 <= j < Inodes(fs.disk) ==> RefCount(fs', j) == RefCount(fs, j) && GetInode(d', j) == GetInode(fs.disk, j))
  {
    var (d', b) := Alloc(fs.disk).value;
    var fs', n := TakeBlock(fs, k, lbn).value, fs.cache[k].d.(addrs := fs.cache[k].d.addrs[lbn := b]);
    AllocTakesLeast(fs.disk);
    BitmapSector(fs.disk, b);
    FindLive(fs, k);
    hide Alloc, Sound, CacheAgrees, AllMarked, InUse, GetInode, Eff, Files;
    UpdateSector(fs, d', BitSector(b, Inodes(fs.disk)));
    UpdateEntry(fs.(disk := d'), k, n);
    SameCounts(fs, d');
  }

  /** Attaching an unmarked sector through a changed bitmap sector, on volumes. */
  lemma AttachMarked(v: Vol, lo: nat, c: nat, t: Sector, i: nat, lbn: nat, b: u32)
    requires Sound(v, lo, |v.disk|) && 0 < c < lo <= b < |v.disk| && i < |v.ino| && lbn < 31
    requires Unowned(v, b) && v.ino[i].addrs[lbn] == 0
    ensures var v' := SetAddr(v.(disk := v.disk[c := t]), i, lbn, b);
      && Sound(v', lo, |v.disk|)
      && (forall s :: Exists(v, s) ==> Ref(v', s) == if s == Direct(i, lbn) then b else Ref(v, s))
      && (forall j :: 0 <= j < |v.ino| && Filled(v, j) ==> Filled(v', j) && Content(v', j) == Content(v, j))
      && (forall j :: 0 <= j < |v.ino| ==> SameBlocks(v, v', j))
  {
    var vm := v.(disk := v.disk[c := t]);
    var v' := SetAddr(vm, i, lbn, b);
    MetadataWrite(v, lo, |v.disk|, c, t);
    AttachDirect(vm, i, lbn, b);
    AttachSound(vm, v', lo, |v.disk|, Direct(i, lbn), b, |v.disk|);
    forall j | 0 <= j < |v.ino| ensures SameBlocks(v, v', j) { OtherBlocks(v, lo, |v.disk|, i, lbn, c, t, j); }
    forall j | 0 <= j < |v.ino| && Filled(v, j) ensures Filled(v', j) && Content(v', j) == Content(v, j) {
      MetadataContent(v, lo, |v.disk|, c, t, j);
      AttachContent(vm, v', lo, |v.disk|, Direct(i, lbn), b, j);
    }
  }

  lemma UnmarkedIsUnowned(fs: Fs, b: nat)
    requires FsOk(fs) && b < |fs.disk| && !InUse(fs.disk, b)
    ensures DataStart(fs.disk) <= b && Unowned(Files(fs), b)
  {
    assert InUse(fs.disk, 0);
    forall s | Exists(Files(fs), s) ensures Ref(Files(fs), s) != b {
      assert Ref(Files(fs), s) != 0 ==> InUse(fs.disk, Ref(Files(fs), s));
    }
  }

  /** The same attachment seen with another size of file `i`. */
  lemma AttachSized(v: Vol, lo: nat, c: nat, t: Sector, i: nat, lbn: nat, b: u32, size: u32)
    requires Sound(v, lo, |v.disk|) && 0 < c < lo <= b < |v.disk| && i < |v.ino| && lbn < 31
    requires Unowned(v, b) && v.ino[i].addrs[lbn] == 0 && Filled(Sized(v, i, size), i)
    ensures var v' := SetAddr(v.(disk := v.disk[c := t]), i, lbn, b);
      && Filled(Sized(v', i, size), i) && Content(Sized(v', i, size), i) == Content(Sized(v, i, size), i)
  {
    var u := Sized(v, i, size);
    SizedSound(v, i, size, lo, |v.disk|);
    SizedRefs(v, i, size);
    assert Unowned(u, b);
    AttachMarked(u, lo, c, t, i, lbn, b);
    assert Sized(SetAddr(v.(disk := v.disk[c := t]), i, lbn, b), i, size) == SetAddr(u.(disk := u.disk[c := t]), i, lbn, b);
  }

  lemma TakeBlockAgrees(fs: Fs, k: nat, lbn: nat)
    requires FsOk(fs) && k < |fs.cache| && fs.cache[k].count > 0 && lbn < 31 && TakeBlock(fs, k, lbn).Some?
    requires fs.cache[k].d.addrs[lbn] == 0
    requires var fs' := TakeBlock(fs, k, lbn).value;
      && GeoOk(fs'.disk) && CacheUnique(fs') && Inodes(fs'.disk) == Inodes(fs.disk)
      && forall j :: 0 <= j < Inodes(fs.disk) ==> GetInode(fs'.disk, j) == GetInode(fs.disk, j)
    ensures CacheAgrees(TakeBlock(fs, k, lbn).value)
  {
    var fs' := TakeBlock(fs, k, lbn).value;
    hide FsOk, GetInode, Alloc, Files, CacheUnique;
    OkParts(fs);
    forall j | 0 <= j < |fs'.cache| && fs'.cache[j].count > 0
      ensures Agrees(fs'.cache[j].d, GetInode(fs'.disk, fs'.cache[j].inum))
    {
      assert Agrees(fs.cache[j].d, GetInode(fs.disk, fs.cache[j].inum));
    }
  }

  lemma TakeBlockMarked(fs: Fs, fs': Fs, s: Slot, b: nat)
    requires GeoOk(fs.disk) && AllMarked(fs) && b < |fs.disk| && OnlyBitOf(fs.disk, fs'.disk, b) && InUse(fs'.disk, b)
    requires DataStart(fs'.disk) == DataStart(fs.disk) <= |fs.disk|
    requires forall t :: Exists(Files(fs), t) ==> Ref(Files(fs'), t) == if t == s then b else Ref(Files(fs), t)
    ensures AllMarked(fs')
  {
    hide Ref, Files, InUse;
    forall x | 0 <= x < DataStart(fs'.disk) ensures InUse(fs'.disk, x) {
      assert InUse(fs.disk, x);
    }
    forall t | Exists(Files(fs'), t) && Ref(Files(fs'), t) != 0
      ensures Ref(Files(fs'), t) < |fs'.disk| && InUse(fs'.disk, Ref(Files(fs'), t))
    {
      assert Exists(Files(fs), t);
    }
  }

  /** writei gets a block for an empty direct slot: the invariant holds and no byte of any file has changed. */
  lemma TakeBlockOk(fs: Fs, k: nat, lbn: nat)
    requires FsOk(fs) && k < |fs.cache| && fs.cache[k].count > 0 && lbn < 31 && TakeBlock(fs, k, lbn).Some?
    requires fs.cache[k].d.addrs[lbn] == 0
    ensures var fs' := TakeBlock(fs, k, lbn).value; var i := fs.cache[k].inum;
      && FsOk(fs') && OthersKept(fs, fs', k) && i < Inodes(fs.disk)
      && fs'.cache[k].d == fs.cache[k].d.(addrs := fs'.cache[k].d.addrs)
      && 0 < fs'.cache[k].d.addrs[lbn] < |fs'.disk|
      && (forall size: u32 :: Filled(Sized(Files(fs), i, size), i) ==>
            && Filled(Sized(Files(fs'), i, size), i)
            && Content(Sized(Files(fs'), i, size), i) == Content(Sized(Files(fs), i, size), i))
  {
    hide FsOk, CacheAgrees, CacheUnique, Sound, AllMarked, Alloc, GetInode, Eff, Files, Content, Filled, FirstClear, Ref, InUse, OnlyBitOf, SameBlocks;
    OkParts(fs);
    var (d', b) := Alloc(fs.disk).value;
    var fs', v, i := TakeBlock(fs, k, lbn).value, Files(fs), fs.cache[k].inum;
    AllocTakesLeast(fs.disk);
    TakeBlockFiles(fs, k, lbn);
    TakeBlockAgrees(fs, k, lbn);
    FindLive(fs, k);
    UnmarkedIsUnowned(fs, b);
    var lo, c := DataStart(fs.disk), BitSector(b, Inodes(fs.disk));
    AttachMarked(v, lo, c, d'[c], i, lbn, b);
    TakeBlockMarked(fs, fs', Direct(i, lbn), b);
    MakeOk(fs');
    forall size: u32 | Filled(Sized(v, i, size), i)
      ensures Filled(Sized(Files(fs'), i, size), i) && Content(Sized(Files(fs'), i, size), i) == Content(Sized(v, i, size), i)
    {
      AttachSized(v, lo, c, d'[c], i, lbn, b, size);
    }
  }

  /** A sector of the data area is written: no bit, no inode and no reference changes. */
  lemma DataSectorFrame(fs: Fs, w: nat, t: Sector)
    requires GeoOk(fs.disk) && DataStart(fs.disk) <= w < |fs.disk|
    ensures var d' := fs.disk[w := t];
      && GeoOk(d') && Inodes(d') == Inodes(fs.disk) && DataStart(d') == DataStart(fs.disk)
      && (forall x :: 0 <= x < |d'| ==> (InUse(d', x) <==> InUse(fs.disk, x)))
      && Files(fs.(disk := d')) == Files(fs).(disk := d')
      && (forall j :: 0 <= j < Inodes(fs.disk) ==> GetInode(d', j) == GetInode(fs.disk, j))
  {
    var d' := fs.disk[w := t];
    forall x | 0 <= x < |d'| ensures InUse(d', x) <==> InUse(fs.disk, x) { BitmapSector(fs.disk, x); }
    UpdateSector(fs, d', w);
  }

  lemma DataSectorOk(fs: Fs, i: nat, f: nat, t: Sector)
    requires FsOk(fs) && i < Inodes(fs.disk) && f < 159 && BlockOf(Files(fs), i, f) != 0
    ensures DataStart(fs.disk) <= BlockOf(Files(fs), i, f) < |fs.disk|
    ensures var d' := fs.disk[BlockOf(Files(fs), i, f) := t];
      && FsOk(fs.(disk := d')) && Inodes(d') == Inodes(fs.disk) && Files(fs.(disk := d')) == Files(fs).(disk := d')
      && (forall j :: 0 <= j < Inodes(fs.disk) ==> GetInode(d', j) == GetInode(fs.disk, j))
      && (forall x :: 0 <= x < |d'| ==> (InUse(d', x) <==> InUse(fs.disk, x)))
  {
    hide FsOk, Sound, Files, InUse, GetInode, Ref, CacheUnique;
    OkParts(fs);
    var v, w := Files(fs), BlockOf(Files(fs), i, f);
    OwnedInRange(v, DataStart(fs.disk), |fs.disk|, i, f);
    WriteSound(v, DataStart(fs.disk), |fs.disk|, i, f, t);
    DataSectorFrame(fs, w, t);
    var fs' := fs.(disk := fs.disk[w := t]);
    SameUnique(fs, fs');
    assert CacheAgrees(fs') by {
      forall j | 0 <= j < |fs'.cache| && fs'.cache[j].count > 0
        ensures Agrees(fs'.cache[j].d, GetInode(fs'.disk, fs'.cache[j].inum))
      {
        UniqueGives(fs, j);
        assert Agrees(fs.cache[j].d, GetInode(fs.disk, fs.cache[j].inum));
      }
    }
    SameMarked(fs, fs');
    MakeOk(fs');
  }

  lemma UniqueGives(fs: Fs, j: nat)
    requires GeoOk(fs.disk) && CacheUnique(fs) && j < |fs.cache| && fs.cache[j].count > 0
    ensures fs.cache[j].inum < Inodes(fs.disk)
  {}

  lemma SameUnique(fs: Fs, fs': Fs)
    requires GeoOk(fs.disk) && GeoOk(fs'.disk) && CacheUnique(fs) && fs'.cache == fs.cache && Inodes(fs'.disk) == Inodes(fs.disk)
    ensures CacheUnique(fs')
  {}

  lemma SameMarked(fs: Fs, fs': Fs)
    requires GeoOk(fs.disk) && GeoOk(fs'.disk) && AllMarked(fs) && |fs'.disk| == |fs.disk|
    requires DataStart(fs'.disk) == DataStart(fs.disk) && SameRefs(Files(fs), Files(fs'))
    requires forall x :: 0 <= x < |fs.disk| ==> (InUse(fs'.disk, x) <==> InUse(fs.disk, x))
    ensures AllMarked(fs')
  {
    hide InUse, Ref, Files;
  }

  // ---------------------------------------------------------------- one round

  /** File `i` with `size` for its size. */
  ghost predicate Holds(fs: Fs, i: nat, size: u32, c: seq<byte>)
    requires GeoOk(fs.disk) && i < Inodes(fs.disk)
  { Filled(Sized(Files(fs), i, size), i) && Content(Sized(Files(fs), i, size), i) == c }

  /** The chunk written to a block that is present. */
  lemma PutChunk(fs: Fs, k: nat, off: nat, chunk: seq<byte>, size: u32, c: seq<byte>, h: bool)
    requires FsOk(fs) && k < |fs.cache| && fs.cache[k].count > 0 && off / 512 < 31 && fs.cache[k].d.addrs[off / 512] != 0
    requires off % 512 + |chunk| <= 512 && 0 < |chunk| && off <= size
    requires |c| == size && fs.cache[k].inum < Inodes(fs.disk) && (h ==> Holds(fs, fs.cache[k].inum, size, c))
    ensures fs.cache[k].d.addrs[off / 512] < |fs.disk| && off + |chunk| <= 31 * 512
    ensures var w := fs.cache[k].d.addrs[off / 512]; var i := fs.cache[k].inum;
      var fs' := fs.(disk := fs.disk[w := Splice(fs.disk[w], off % 512, chunk)]);
      && FsOk(fs') && OthersKept(fs, fs', k) && Inodes(fs'.disk) == Inodes(fs.disk)
      && GetInode(fs'.disk, i) == GetInode(fs.disk, i)
      && (h ==> Holds(fs', i, Max(size, off + |chunk|), Overwrite(c, off, chunk)))
  {
    hide FsOk, Sound, Files, InUse, GetInode, Ref, CacheUnique, Content, Filled;
    OkParts(fs);
    var i, f := fs.cache[k].inum, off / 512;
    FindLive(fs, k);
    var v := Files(fs);
    SlotIsDirect(v, i, f);
    var w := BlockOf(v, i, f);
    OwnedInRange(v, DataStart(fs.disk), |fs.disk|, i, f);
    var t: Sector := Splice(fs.disk[w], off % 512, chunk);
    DataSectorOk(fs, i, f, t);
    var fs' := fs.(disk := fs.disk[w := t]);
    if h { WriteChunk(v, DataStart(fs.disk), |fs.disk|, i, size, off, chunk); }
    SameCounts(fs, fs'.disk);
    forall j | 0 <= j < |v.ino| && j != i ensures SameBlocks(v, Files(fs'), j) {
      OtherBlocks(v, DataStart(fs.disk), |fs.disk|, i, f, w, t, j);
    }
    forall j | 0 <= j < |v.ino| && j != i && Filled(v, j) ensures Filled(Files(fs'), j) && Content(Files(fs'), j) == Content(v, j) {
      WriteOthers(v, DataStart(fs.disk), |fs.disk|, i, f, t, j);
    }
  }

  lemma SlotIsDirect(v: Vol, i: nat, f: nat)
    requires i < |v.ino| && f < 31
    ensures BlockOf(v, i, f) == v.ino[i].addrs[f]
  {}

  // ---------------------------------------------------------------- room on the disk

  /** The sectors from `b` on whose bits are clear. */
  ghost function ClearFrom(d: Disk, b: nat): nat
    requires GeoOk(d) && b <= |d|
    decreases |d| - b
  { if b == |d| then 0 else (if InUse(d, b) then 0 else 1) + ClearFrom(d, b + 1) }

  /** Direct slots in `[lo, hi)` without a block. */
  function EmptySlots(n: Dinode, lo: nat, hi: nat): nat
    requires hi <= 31
    decreases hi - lo
  { if hi <= lo then 0 else (if n.addrs[lo] == 0 then 1 else 0) + EmptySlots(n, lo + 1, hi) }

  lemma {:induction false} ClearSame(d: Disk, d': Disk, b: nat)
    requires GeoOk(d) && GeoOk(d') && |d'| == |d| && b <= |d|
    requires forall x :: b <= x < |d| ==> (InUse(d', x) <==> InUse(d, x))
    ensures ClearFrom(d', b) == ClearFrom(d, b)
    decreases |d| - b
  { hide InUse; if b < |d| { ClearSame(d, d', b + 1); } }

  lemma {:induction false} ClearLess(d: Disk, d': Disk, b: nat, x: nat)
    requires GeoOk(d) && GeoOk(d') && |d'| == |d| && b <= x < |d| && !InUse(d, x) && InUse(d', x)
    requires forall y :: b <= y < |d| && y != x ==> (InUse(d', y) <==> InUse(d, y))
    ensures ClearFrom(d', b) == ClearFrom(d, b) - 1
    decreases |d| - b
  {
    hide InUse;
    if b == x { ClearSame(d, d', b + 1); } else { ClearLess(d, d', b + 1, x); }
  }

  lemma {:induction false} ClearNone(d: Disk, b: nat)
    requires GeoOk(d) && b <= |d|
    ensures ClearFrom(d, b) == 0 <==> forall x :: b <= x < |d| ==> InUse(d, x)
    decreases |d| - b
  { hide InUse; if b < |d| { ClearNone(d, b + 1); } }

  /** balloc succeeds exactly when a bit is clear, and then one less is. */
  lemma AllocRoom(d: Disk)
    requires GeoOk(d)
    ensures Alloc(d).Some? <==> 0 < ClearFrom(d, 0)
    ensures Alloc(d).Some? ==> GeoOk(Alloc(d).value.0) && ClearFrom(Alloc(d).value.0, 0) == ClearFrom(d, 0) - 1
  {
    AllocTakesLeast(d);
    ClearNone(d, 0);
    if Alloc(d).Some? {
      var (d', b) := Alloc(d).value;
      hide InUse, Alloc;
      ClearLess(d, d', 0, b);
    }
  }

  // ---------------------------------------------------------------- rounds

  /**
   * What a round and the whole loop of writei do; `c'` is what file `i` then holds with size `size'`, if
   * `h`, that is if all its blocks were present before.
   */
  ghost predicate Written(fs: Fs, fs': Fs, k: nat, size': u32, c': seq<byte>, h: bool)
  {
    && GeoOk(fs.disk) && k < |fs.cache| && FsOk(fs') && OthersKept(fs, fs', k)
    && fs'.cache[k].d == fs.cache[k].d.(addrs := fs'.cache[k].d.addrs)
    && fs'.cache[k].inum < Inodes(fs'.disk) && (h ==> Holds(fs', fs'.cache[k].inum, size', c'))
  }

  lemma OthersRefl(fs: Fs, k: nat)
    requires GeoOk(fs.disk) && k < |fs.cache|
    ensures OthersKept(fs, fs, k)
  {}

  lemma BlockReady(fs: Fs, k: nat, lbn: nat, size: u32, c: seq<byte>, h: bool)
    requires FsOk(fs) && k < |fs.cache| && fs.cache[k].count > 0 && lbn < 31
    requires fs.cache[k].inum < Inodes(fs.disk) && (h ==> Holds(fs, fs.cache[k].inum, size, c))
    ensures var r := if fs.cache[k].d.addrs[lbn] == 0 then TakeBlock(fs, k, lbn) else Some(fs);
      var need := if fs.cache[k].d.addrs[lbn] == 0 then 1 else 0;
      && (r.Some? <==> need <= ClearFrom(fs.disk, 0))
      && (r.Some? ==>
            && Written(fs, r.value, k, size, c, h) && r.value.cache[k].count > 0
            && 0 < r.value.cache[k].d.addrs[lbn]
            && (forall j :: 0 <= j < 32 && j != lbn ==> r.value.cache[k].d.addrs[j] == fs.cache[k].d.addrs[j])
            && ClearFrom(r.value.disk, 0) == ClearFrom(fs.disk, 0) - need)
  {
    hide FsOk, OthersKept, Alloc, Files, Content, Filled, CacheUnique;
    OkParts(fs);
    if fs.cache[k].d.addrs[lbn] == 0 {
      AllocRoom(fs.disk);
      if TakeBlock(fs, k, lbn).Some? {
        TakeBlockOk(fs, k, lbn);
        KeptEntry(fs, TakeBlock(fs, k, lbn).value, k);
      }
    } else {
      OthersRefl(fs, k);
    }
  }

  lemma KeptEntry(fs: Fs, fs': Fs, k: nat)
    requires GeoOk(fs.disk) && FsOk(fs') && k < |fs.cache| && OthersKept(fs, fs', k)
    ensures |fs'.cache| == |fs.cache| && fs'.cache[k].count == fs.cache[k].count && fs'.cache[k].inum == fs.cache[k].inum
    ensures GeoOk(fs'.disk) && Inodes(fs'.disk) == Inodes(fs.disk)
  {}

  /** One round: it fails exactly when it needs a block and the disk is full. */
  lemma RoundWrites(fs: Fs, k: nat, off: nat, p: seq<byte>, size: u32, c: seq<byte>, h: bool)
    requires FsOk(fs) && k < |fs.cache| && fs.cache[k].count > 0 && off / 512 < 31 && p != [] && off <= size == |c|
    requires fs.cache[k].inum < Inodes(fs.disk) && (h ==> Holds(fs, fs.cache[k].inum, size, c))
    ensures off + Chunk(off, p) <= 31 * 512
    ensures var r := Round(fs, k, off, p); var n := Chunk(off, p);
      var need := if fs.cache[k].d.addrs[off / 512] == 0 then 1 else 0;
      && (r.Some? <==> need <= ClearFrom(fs.disk, 0))
      && (r.Some? ==>
            && Written(fs, r.value, k, Max(size, off + n), Overwrite(c, off, p[..n]), h) && r.value.cache[k].count > 0
            && (forall j :: 0 <= j < 32 && j != off / 512 ==> r.value.cache[k].d.addrs[j] == fs.cache[k].d.addrs[j])
            && ClearFrom(r.value.disk, 0) == ClearFrom(fs.disk, 0) - need)
  {
    hide FsOk, OthersKept, Alloc, Files, Content, Filled, CacheUnique, TakeBlock, Holds, InUse;
    OkParts(fs);
    var lbn, n := off / 512, Chunk(off, p);
    BlockReady(fs, k, lbn, size, c, h);
    var r := if fs.cache[k].d.addrs[lbn] == 0 then TakeBlock(fs, k, lbn) else Some(fs);
    if r.Some? {
      var fs1 := r.value;
      KeptEntry(fs, fs1, k);
      PutChunk(fs1, k, off, p[..n], size, c, h);
      var w := fs1.cache[k].d.addrs[lbn];
      var fs2 := fs1.(disk := fs1.disk[w := Splice(fs1.disk[w], off % 512, p[..n])]);
      KeptEntry(fs1, fs2, k);
      OthersTrans(fs, fs1, fs2, k);
      ClearAfterPut(fs1, k, lbn, Splice(fs1.disk[w], off % 512, p[..n]));
    }
  }

  lemma ClearAfterPut(fs: Fs, k: nat, lbn: nat, t: Sector)
    requires FsOk(fs) && k < |fs.cache| && fs.cache[k].count > 0 && lbn < 31 && fs.cache[k].d.addrs[lbn] != 0
    ensures fs.cache[k].d.addrs[lbn] < |fs.disk|
    ensures var d' := fs.disk[fs.cache[k].d.addrs[lbn] := t]; GeoOk(d') && ClearFrom(d', 0) == ClearFrom(fs.disk, 0)
  {
    hide FsOk, InUse, Files, CacheUnique;
    OkParts(fs);
    FindLive(fs, k);
    SlotIsDirect(Files(fs), fs.cache[k].inum, lbn);
    DataSectorOk(fs, fs.cache[k].inum, lbn, t);
    var d' := fs.disk[fs.cache[k].d.addrs[lbn] := t];
    OkParts(fs.(disk := d'));
    ClearSame(fs.disk, d', 0);
  }

  // ---------------------------------------------------------------- the loop and the end of writei

  /** Blocks that writing `len` bytes at `off` has to allocate. */
  function Needed(n: Dinode, off: nat, len: nat): nat
    requires off + len <= 31 * 512
  { if len == 0 then 0 else EmptySlots(n, off / 512, (off + len + 511) / 512) }

  lemma {:induction false} EmptySame(n: Dinode, n': Dinode, lo: nat, hi: nat)
    requires hi <= 31 && forall j :: lo <= j < hi ==> n'.addrs[j] == n.addrs[j]
    ensures EmptySlots(n', lo, hi) == EmptySlots(n, lo, hi)
    decreases hi - lo
  { if lo < hi { EmptySame(n, n', lo + 1, hi); } }

  /** After the first chunk the rest needs what the whole needed, less the block of the chunk. */
  lemma NeededStep(n: Dinode, n': Dinode, off: nat, p: seq<byte>)
    requires p != [] && off + |p| <= 31 * 512
    requires forall j :: 0 <= j < 32 && j != off / 512 ==> n'.addrs[j] == n.addrs[j]
    ensures off / 512 < 31
    ensures Needed(n, off, |p|)
         == (if n.addrs[off / 512] == 0 then 1 else 0) + Needed(n', off + Chunk(off, p), |p| - Chunk(off, p))
  {
    var lbn, hi, c := off / 512, (off + |p| + 511) / 512, Chunk(off, p);
    if c < |p| {
      assert off + c == (lbn + 1) * 512;
      EmptySame(n, n', lbn + 1, hi);
    } else {
      assert hi == lbn + 1;
      assert EmptySlots(n, lbn + 1, hi) == 0;
    }
  }

  lemma WrittenTrans(fs: Fs, fs1: Fs, fs2: Fs, k: nat, size1: u32, c1: seq<byte>, size2: u32, c2: seq<byte>, h: bool)
    requires Written(fs, fs1, k, size1, c1, h) && Written(fs1, fs2, k, size2, c2, h)
    ensures Written(fs, fs2, k, size2, c2, h)
  {
    hide FsOk, OthersKept, Holds;
    OkParts(fs1);
    OkParts(fs2);
    OthersTrans(fs, fs1, fs2, k);
  }

  lemma WrittenNothing(fs: Fs, k: nat, size: u32, c: seq<byte>, h: bool)
    requires FsOk(fs) && k < |fs.cache| && fs.cache[k].inum < Inodes(fs.disk) && (h ==> Holds(fs, fs.cache[k].inum, size, c))
    ensures Written(fs, fs, k, size, c, h)
  {}

  lemma WrittenGives(fs: Fs, fs': Fs, k: nat, size: u32, c: seq<byte>, h: bool)
    requires Written(fs, fs', k, size, c, h)
    ensures FsOk(fs') && GeoOk(fs'.disk) && |fs'.cache| == |fs.cache| && k < |fs.cache|
    ensures fs'.cache[k].count == fs.cache[k].count && fs'.cache[k].inum == fs.cache[k].inum
    ensures fs'.cache[k].inum < Inodes(fs'.disk) && (h ==> Holds(fs', fs'.cache[k].inum, size, c))
    ensures fs'.cache[k].d == fs.cache[k].d.(addrs := fs'.cache[k].d.addrs) && Inodes(fs'.disk) == Inodes(fs.disk)
    ensures OthersKept(fs, fs', k)
  {
    hide OthersKept;
    KeptEntry(fs, fs', k);
  }

  lemma OverwriteParts(c: seq<byte>, off: nat, p: seq<byte>, n: nat)
    requires off <= |c| && n <= |p|
    ensures p == [] ==> Overwrite(c, off, p) == c
    ensures |Overwrite(c, off, p[..n])| == Max(|c|, off + n)
    ensures Overwrite(Overwrite(c, off, p[..n]), off + n, p[n..]) == Overwrite(c, off, p)
  {
    OverwriteTwice(c, off, p[..n], p[n..]);
    assert p[..n] + p[n..] == p;
  }

  lemma HoldsNow(fs: Fs, i: nat)
    requires GeoOk(fs.disk) && i < Inodes(fs.disk) && Filled(Files(fs), i)
    ensures Holds(fs, i, Files(fs).ino[i].size, Content(Files(fs), i))
  {
    hide Files, Content, Filled;
    var v := Files(fs);
    assert Sized(v, i, v.ino[i].size) == v by { assert v.ino[i := v.ino[i].(size := v.ino[i].size)] == v.ino; }
  }

  /** Entry `k` is referenced, and file contents are tracked if `h`. */
  ghost predicate Writable(fs: Fs, k: nat, size: u32, c: seq<byte>, h: bool)
  {
    && FsOk(fs) && GeoOk(fs.disk) && k < |fs.cache| && fs.cache[k].count > 0 && fs.cache[k].inum < Inodes(fs.disk)
    && |c| == size && (h ==> Holds(fs, fs.cache[k].inum, size, c))
  }

  /** The disk has a free sector for every block that is needed. */
  ghost predicate RoomFor(fs: Fs, k: nat, off: nat, len: nat)
  {
    && GeoOk(fs.disk) && k < |fs.cache| && off + len <= 31 * 512
    && Needed(fs.cache[k].d, off, len) <= ClearFrom(fs.disk, 0)
  }

  /** A round that succeeds, and what is left to do. */
  lemma RoundThenLoop(fs: Fs, k: nat, off: nat, p: seq<byte>, size: u32, c: seq<byte>, h: bool)
    requires GeoOk(fs.disk) && k < |fs.cache| && off / 512 < 31 && Round(fs, k, off, p).Some?
    requires Writable(fs, k, size, c, h) && off + |p| <= 31 * 512 && off <= |c| && p != []
    ensures var n := Chunk(off, p); var fs1 := Round(fs, k, off, p).value;
      var size1 := Max(size, off + n); var c1 := Overwrite(c, off, p[..n]);
      && Written(fs, fs1, k, size1, c1, h) && Writable(fs1, k, size1, c1, h)
      && (RoomFor(fs, k, off, |p|) <==> RoomFor(fs1, k, off + n, |p| - n))
      && Overwrite(c1, off + n, p[n..]) == Overwrite(c, off, p)
  {
    hide FsOk, Round, Needed, Written, Holds, OthersKept, CacheUnique, ClearFrom, Overwrite, GeoOk;
    var n, fs1 := Chunk(off, p), Round(fs, k, off, p).value;
    RoundWrites(fs, k, off, p, size, c, h);
    WrittenGives(fs, fs1, k, Max(size, off + n), Overwrite(c, off, p[..n]), h);
    NeededStep(fs.cache[k].d, fs1.cache[k].d, off, p);
    OverwriteParts(c, off, p, n);
  }

  lemma LoopUnfolds(fs: Fs, k: nat, off: nat, p: seq<byte>)
    requires GeoOk(fs.disk) && k < |fs.cache| && p != [] && off / 512 < 31
    ensures Loop(fs, k, off, p)
         == if Round(fs, k, off, p).None? then None else Loop(Round(fs, k, off, p).value, k, off + Chunk(off, p), p[Chunk(off, p)..])
  { hide Round; }

  lemma LoopWritesNothing(fs: Fs, k: nat, off: nat, size: u32, c: seq<byte>, h: bool)
    requires Writable(fs, k, size, c, h) && off <= size && off <= 31 * 512
    ensures RoomFor(fs, k, off, 0) && Written(fs, fs, k, Max(size, off), Overwrite(c, off, []), h)
  {
    NeededNothing(fs.cache[k].d, off);
    OverwriteParts(c, off, [], 0);
    WrittenNothing(fs, k, size, c, h);
  }

  lemma RoundFails(fs: Fs, k: nat, off: nat, p: seq<byte>, size: u32, c: seq<byte>, h: bool)
    requires Writable(fs, k, size, c, h) && off <= size && p != [] && off + |p| <= 31 * 512
    requires GeoOk(fs.disk) && k < |fs.cache| && off / 512 < 31 && Round(fs, k, off, p).None?
    ensures !RoomFor(fs, k, off, |p|)
  {
    hide FsOk, Round, Holds, Needed;
    RoundWrites(fs, k, off, p, size, c, h);
    NeededStep(fs.cache[k].d, fs.cache[k].d, off, p);
  }

  /** The loop of writei: it fails exactly when the disk has fewer free sectors than blocks are needed. */
  lemma {:induction false} LoopWrites(fs: Fs, k: nat, off: nat, p: seq<byte>, size: u32, c: seq<byte>, h: bool)
    requires Writable(fs, k, size, c, h) && off + |p| <= 31 * 512 && off <= size
    ensures var r := Loop(fs, k, off, p);
      && (r.Some? <==> RoomFor(fs, k, off, |p|))
      && (r.Some? ==> Written(fs, r.value, k, Max(size, off + |p|), Overwrite(c, off, p), h))
    decreases |p|
  {
    hide FsOk, Round, Loop, Written, Holds, OthersKept, Overwrite, RoomFor, Writable;
    if p == [] {
      LoopNothing(fs, k, off);
      LoopWritesNothing(fs, k, off, size, c, h);
    } else {
      WritableParts(fs, k, size, c, h);
      LoopUnfolds(fs, k, off, p);
      if Round(fs, k, off, p).Some? {
        var n, fs1 := Chunk(off, p), Round(fs, k, off, p).value;
        var size1, c1 := Max(size, off + n), Overwrite(c, off, p[..n]);
        RoundThenLoop(fs, k, off, p, size, c, h);
        LoopWrites(fs1, k, off + n, p[n..], size1, c1, h);
        if Loop(fs, k, off, p).Some? {
          WrittenTrans(fs, fs1, Loop(fs, k, off, p).value, k, size1, c1, Max(size, off + |p|), Overwrite(c, off, p), h);
        }
      } else {
        RoundFails(fs, k, off, p, size, c, h);
      }
    }
  }

  lemma LoopNothing(fs: Fs, k: nat, off: nat)
    ensures Loop(fs, k, off, []) == Some(fs)
  {}

  lemma WritableParts(fs: Fs, k: nat, size: u32, c: seq<byte>, h: bool)
    requires Writable(fs, k, size, c, h)
    ensures FsOk(fs) && GeoOk(fs.disk) && k < |fs.cache| && fs.cache[k].count > 0 && fs.cache[k].inum < Inodes(fs.disk) && |c| == size
  {}

  lemma NeededNothing(n: Dinode, off: nat)
    requires off <= 31 * 512
    ensures Needed(n, off, 0) == 0
  {}

  /** iupdate on a referenced inode whose addresses did not change: the files in force are as in memory. */
  lemma HeaderOk(fs: Fs, k: nat, n: Dinode)
    requires FsOk(fs) && k < |fs.cache| && fs.cache[k].count > 0 && n.addrs == fs.cache[k].d.addrs
    ensures fs.cache[k].inum < Inodes(fs.disk)
    ensures var i := fs.cache[k].inum; var d' := PutHeader(fs.disk, i, n);
      var fs' := Fs(d', fs.cache[k := fs.cache[k].(d := n)]); var c := InodeSector(i); var v := Files(fs);
      && FsOk(fs') && Inodes(d') == Inodes(fs.disk) && 0 < c < DataStart(fs.disk) && c < |fs.disk|
      && Files(fs') == v.(ino := v.ino[i := n]).(disk := v.disk[c := d'[c]])
      && (forall j :: 0 <= j < Inodes(fs.disk) ==>
            RefCount(fs', j) == RefCount(fs, j) && (j != i ==> GetInode(d', j) == GetInode(fs.disk, j)))
      && GetInode(d', i) == n.(addrs := GetInode(fs.disk, i).addrs)
      && (forall x :: 0 <= x < |fs.disk| ==> (InUse(d', x) <==> InUse(fs.disk, x)))
  {
    hide FsOk, Sound, Files, InUse, GetInode, Ref, CacheUnique, CacheAgrees, AllMarked, PutHeader, Find;
    OkParts(fs);
    UpdateHeader(fs, k, n);
    FindLive(fs, k);
    var i := fs.cache[k].inum;
    var d' := PutHeader(fs.disk, i, n);
    var fs' := Fs(d', fs.cache[k := fs.cache[k].(d := n)]);
    var v, c := Files(fs), InodeSector(i);
    assert d' == fs.disk[c := d'[c]];
    HeaderBits(fs.disk, i, n);
    HeaderAgrees(fs, fs', k, n);
    var u := v.(ino := v.ino[i := n]);
    SameAddrsRefs(v, u);
    SoundSameRefs(v, u, DataStart(fs.disk), |fs.disk|);
    MetadataWrite(u, DataStart(fs.disk), |fs.disk|, c, d'[c]);
    RefsTrans(v, u, Files(fs'));
    SameMarked(fs, fs');
    MakeOk(fs');
  }

  lemma RefsTrans(v: Vol, v1: Vol, v2: Vol)
    requires SameRefs(v, v1) && SameRefs(v1, v2)
    ensures SameRefs(v, v2)
  { hide Ref; }

  lemma SameAddrsRefs(v: Vol, u: Vol)
    requires u.disk == v.disk && |u.ino| == |v.ino| && forall j :: 0 <= j < |v.ino| ==> u.ino[j].addrs == v.ino[j].addrs
    ensures SameRefs(v, u)
  {}

  lemma SoundSameRefs(v: Vol, u: Vol, lo: nat, hi: nat)
    requires Sound(v, lo, hi) && SameRefs(v, u) && |u.disk| == |v.disk|
    ensures Sound(u, lo, hi)
  { hide Ref; }

  lemma HeaderBits(d: Disk, i: nat, n: Dinode)
    requires GeoOk(d) && i < Inodes(d)
    ensures var d' := PutHeader(d, i, n);
      && GeoOk(d') && DataStart(d') == DataStart(d) && 0 < InodeSector(i) < DataStart(d)
      && forall x :: 0 <= x < |d| ==> (InUse(d', x) <==> InUse(d, x))
  {
    HeaderSector(d, i);
    var d' := PutHeader(d, i, n);
    hide PutHeader;
    forall x | 0 <= x < |d| ensures InUse(d', x) <==> InUse(d, x) { BitmapSector(d, x); }
  }

  lemma HeaderAgrees(fs: Fs, fs': Fs, k: nat, n: Dinode)
    requires GeoOk(fs.disk) && CacheUnique(fs) && CacheAgrees(fs) && k < |fs.cache| && fs.cache[k].count > 0
    requires GeoOk(fs'.disk) && CacheUnique(fs') && Inodes(fs'.disk) == Inodes(fs.disk) && n.addrs == fs.cache[k].d.addrs
    requires fs'.cache == fs.cache[k := fs.cache[k].(d := n)]
    requires forall j :: 0 <= j < Inodes(fs.disk) ==>
               GetInode(fs'.disk, j) == if j == fs.cache[k].inum then n.(addrs := GetInode(fs.disk, j).addrs) else GetInode(fs.disk, j)
    ensures CacheAgrees(fs')
  {
    hide GetInode;
    forall j | 0 <= j < |fs'.cache| && fs'.cache[j].count > 0
      ensures Agrees(fs'.cache[j].d, GetInode(fs'.disk, fs'.cache[j].inum))
    {
      assert Agrees(fs.cache[j].d, GetInode(fs.disk, fs.cache[j].inum));
    }
  }

  /** Changing the size of the inode in memory and its header on disk, on volumes. */
  lemma SizeAndHeader(v: Vol, v': Vol, lo: nat, i: nat, size: u32, c0: nat, t: Sector)
    requires Sound(v, lo, |v.disk|) && i < |v.ino| && 0 < c0 < lo <= |v.disk|
    requires v' == Sized(v, i, size).(disk := v.disk[c0 := t])
    ensures Filled(Sized(v, i, size), i) ==> Filled(v', i) && Content(v', i) == Content(Sized(v, i, size), i)
    ensures forall j :: 0 <= j < |v.ino| && j != i && Filled(v, j) ==> Filled(v', j) && Content(v', j) == Content(v, j)
    ensures forall j :: 0 <= j < |v.ino| ==> SameBlocks(v, v', j)
  {
    forall j | 0 <= j < |v.ino| ensures SameBlocks(v, v', j) { OtherBlocks(v, lo, |v.disk|, i, 0, c0, t, j); }
    hide SameBlocks, Sound, Content, Filled;
    var u := Sized(v, i, size);
    SizedSound(v, i, size, lo, |v.disk|);
    if Filled(u, i) { MetadataContent(u, lo, |v.disk|, c0, t, i); }
    forall j | 0 <= j < |v.ino| && j != i && Filled(v, j) ensures Filled(v', j) && Content(v', j) == Content(v, j) {
      SizedOther(v, i, size, j);
      MetadataContent(u, lo, |v.disk|, c0, t, j);
    }
  }

  /** iupdate after a change of the size. */
  lemma ResizeOk(fs: Fs, k: nat, size: u32)
    requires FsOk(fs) && k < |fs.cache| && fs.cache[k].count > 0 && fs.cache[k].inum < Inodes(fs.disk)
    ensures var i := fs.cache[k].inum; var n := fs.cache[k].d.(size := size); var d' := PutHeader(fs.disk, i, n);
      var fs' := Fs(d', fs.cache[k := fs.cache[k].(d := n)]);
      && FsOk(fs') && GeoOk(d') && Inodes(d') == Inodes(fs.disk) && OthersKept(fs, fs', k)
      && (Filled(Sized(Files(fs), i, size), i) ==>
            Filled(Files(fs'), i) && Content(Files(fs'), i) == Content(Sized(Files(fs), i, size), i))
  {
    var i, n := fs.cache[k].inum, fs.cache[k].d.(size := size);
    hide FsOk, Sound, Files, InUse, GetInode, Ref, CacheUnique, PutHeader, Content, Filled, Find, SameBlocks;
    OkParts(fs);
    HeaderOk(fs, k, n);
    FindLive(fs, k);
    var v, c0 := Files(fs), InodeSector(i);
    var d' := PutHeader(fs.disk, i, n);
    var fs' := Fs(d', fs.cache[k := fs.cache[k].(d := n)]);
    OkParts(fs');
    SizeAndHeader(v, Files(fs'), DataStart(fs.disk), i, size, c0, d'[c0]);
  }

  lemma FinishWrites(fs: Fs, k: nat, off: nat, n: nat, size': u32, c: seq<byte>, h: bool)
    requires FsOk(fs) && k < |fs.cache| && fs.cache[k].count > 0 && off < 0x1_0000_0000
    requires fs.cache[k].inum < Inodes(fs.disk) && (h ==> Holds(fs, fs.cache[k].inum, size', c))
    requires size' == if n > 0 then Max(fs.cache[k].d.size, off) else fs.cache[k].d.size
    ensures var fs' := Finish(fs, k, off, n); var i := fs.cache[k].inum;
      && FsOk(fs') && OthersKept(fs, fs', k) && Inodes(fs'.disk) == Inodes(fs.disk)
      && fs'.cache[k].d == fs.cache[k].d.(size := size')
      && (h ==> Filled(Files(fs'), i) && Content(Files(fs'), i) == c)
  {
    hide FsOk, Files, CacheUnique, PutHeader, Content, Filled, OthersKept;
    ResizeOk(fs, k, size');
  }

  lemma SizedOther(v: Vol, i: nat, size: u32, j: nat)
    requires i < |v.ino| && j < |v.ino| && j != i && Filled(v, j)
    ensures Filled(Sized(v, i, size), j) && Content(Sized(v, i, size), j) == Content(v, j)
  {
    SizedRefs(v, i, size);
    SameContent(v, Sized(v, i, size), j);
  }

  /** Entry `k` is a referenced inode, and its file holds `c`. */
  ghost predicate FileIs(fs: Fs, k: nat, c: seq<byte>)
  {
    && FsOk(fs) && k < |fs.cache| && fs.cache[k].count > 0 && fs.cache[k].inum < Inodes(fs.disk)
    && Filled(Files(fs), fs.cache[k].inum) && Content(Files(fs), fs.cache[k].inum) == c && fs.cache[k].d.size == |c|
  }

  /** Entry `k` differs in size and addresses at most; all other files and entries are as before. */
  ghost predicate OnlyFile(fs: Fs, fs': Fs, k: nat)
  {
    && GeoOk(fs.disk) && GeoOk(fs'.disk) && k < |fs.cache| && OthersKept(fs, fs', k)
    && fs'.cache[k].d == fs.cache[k].d.(size := fs'.cache[k].d.size, addrs := fs'.cache[k].d.addrs)
  }

  lemma FileParts(fs: Fs, k: nat, c: seq<byte>)
    requires FileIs(fs, k, c)
    ensures FsOk(fs) && GeoOk(fs.disk) && k < |fs.cache| && fs.cache[k].count > 0 && fs.cache[k].inum < Inodes(fs.disk)
    ensures Filled(Files(fs), fs.cache[k].inum) && Content(Files(fs), fs.cache[k].inum) == c && fs.cache[k].d.size == |c|
  {}

  lemma MakeFileIs(fs: Fs, k: nat, c: seq<byte>)
    requires FsOk(fs) && k < |fs.cache| && fs.cache[k].count > 0 && fs.cache[k].inum < Inodes(fs.disk)
    requires Filled(Files(fs), fs.cache[k].inum) && Content(Files(fs), fs.cache[k].inum) == c
    ensures FileIs(fs, k, c)
  { hide Filled, Content; FindLive(fs, k); }

  /**
   * writei refines byte-range overwrite: it succeeds exactly when the disk has a free sector for every
   * block it must allocate; it then returns n, the content of the file is overwritten (and extended) at
   * off, the size is the larger of the old size and off + n, every other file is as before, and memory
   * and disk agree.
   */
  lemma WriteOverwrites(fs: Fs, k: nat, off: nat, p: seq<byte>, c: seq<byte>)
    requires FileIs(fs, k, c) && fs.cache[k].d.kind == T_FILE && off <= |c| && off + |p| <= 31 * 512
    ensures var r := Write(fs, k, off, p);
      && (r.Wrote? || r.Full?)
      && (r.Wrote? <==> Needed(fs.cache[k].d, off, |p|) <= ClearFrom(fs.disk, 0))
      && (r.Wrote? ==> r.n == |p| && FileIs(r.fs, k, Overwrite(c, off, p)) && OnlyFile(fs, r.fs, k))
  {
    hide FsOk, Files, Content, Filled, Loop, Finish, Needed, CacheUnique, OthersKept, Written, Holds, FileIs, ClearFrom;
    FileParts(fs, k, c);
    FindLive(fs, k);
    var i, size := fs.cache[k].inum, fs.cache[k].d.size;
    HoldsNow(fs, i);
    LoopWrites(fs, k, off, p, size, c, true);
    var r := Loop(fs, k, off, p);
    if r.Some? {
      var fs1, c1 := r.value, Overwrite(c, off, p);
      WrittenGives(fs, fs1, k, Max(size, off + |p|), c1, true);
      FinishWrites(fs1, k, off + |p|, |p|, Max(size, off + |p|), c1, true);
      var fs2 := Finish(fs1, k, off + |p|, |p|);
      KeptEntry(fs1, fs2, k);
      MakeFileIs(fs2, k, c1);
      OthersTrans(fs, fs1, fs2, k);
    }
  }

  /** Wherever it writes within the direct range, writei keeps the invariant and all other files. */
  lemma WriteKeeps(fs: Fs, k: nat, off: nat, p: seq<byte>)
    requires FsOk(fs) && k < |fs.cache| && fs.cache[k].count > 0 && off + |p| <= 31 * 512
    ensures GeoOk(fs.disk) && fs.cache[k].inum < Inodes(fs.disk)
    ensures var r := Write(fs, k, off, p); r.Wrote? ==> FsOk(r.fs) && OnlyFile(fs, r.fs, k)
  {
    hide FsOk, Files, Loop, Finish, Needed, CacheUnique, OthersKept, Written, Holds, ClearFrom, Overwrite;
    OkParts(fs);
    FindLive(fs, k);
    var size, r := fs.cache[k].d.size, Loop(fs, k, off, p);
    var c: seq<byte> := seq(Max(size, off), _ => 0);
    LoopWrites(fs, k, off, p, |c|, c, false);
    if Write(fs, k, off, p).Wrote? {
      var fs1, n, size' := r.value, off + |p|, if p != [] then Max(size, off + |p|) else size;
      WrittenGives(fs, fs1, k, Max(|c|, n), Overwrite(c, off, p), false);
      FinishWrites(fs1, k, n, |p|, size', c, false);
      KeptEntry(fs1, Finish(fs1, k, n, |p|), k);
      OthersTrans(fs, fs1, Finish(fs1, k, n, |p|), k);
    }
  }
}
