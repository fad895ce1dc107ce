/**
 * kernel/fs.c: the inode cache over the disk. The inode in force for a number is the cached one while
 * it is referenced, and the one on disk otherwise; the two differ in block addresses, because iupdate
 * does not write them back.
 */
module Kfs {
  import opened Layout
  import opened Volume
  import opened Balloc

  /** struct inode; the one device makes `dev` superfluous. */
  datatype MemInode = MemInode(inum: nat, count: nat, busy: bool, d: Dinode)

  /** The disk and the table inode[]. */
  datatype Fs = Fs(disk: Disk, cache: seq<MemInode>)

  predicate LiveAt(cache: seq<MemInode>, k: nat, i: nat)
    requires k < |cache|
  { cache[k].count > 0 && cache[k].inum == i }

  /** The scan of iget: the first referenced entry of inode `i` from `k` on. */
  function Find(cache: seq<MemInode>, i: nat, k: nat): (r: nat)
    requires k <= |cache|
    ensures k <= r <= |cache| && (r < |cache| ==> LiveAt(cache, r, i))
    ensures forall j :: k <= j < r ==> !LiveAt(cache, j, i)
    decreases |cache| - k
  { if k == |cache| || LiveAt(cache, k, i) then k else Find(cache, i, k + 1) }

  function FirstFree(cache: seq<MemInode>, k: nat): (r: nat)
    requires k <= |cache|
    ensures k <= r <= |cache| && (r < |cache| ==> cache[r].count == 0)
    ensures forall j :: k <= j < r ==> cache[j].count > 0
    decreases |cache| - k
  { if k == |cache| || cache[k].count == 0 then k else FirstFree(cache, k + 1) }

  /** The inode in force. */
  function Eff(fs: Fs, i: nat): Dinode
    requires InodeSector(i) < |fs.disk|
  {
    var k := Find(fs.cache, i, 0);
    if k < |fs.cache| then fs.cache[k].d else GetInode(fs.disk, i)
  }

  /** The files in force. */
  function Files(fs: Fs): (v: Vol)
    requires GeoOk(fs.disk)
    ensures |v.ino| == Inodes(fs.disk) && v.disk == fs.disk
  { Vol(fs.disk, seq(Inodes(fs.disk), i requires 0 <= i < Inodes(fs.disk) => Eff(fs, i))) }

  // ---------------------------------------------------------------- the invariant

  /** At most one referenced entry per inode, and only for inodes that exist. */
  ghost predicate CacheUnique(fs: Fs)
    requires GeoOk(fs.disk)
  {
    && (forall k :: 0 <= k < |fs.cache| && fs.cache[k].count > 0 ==> fs.cache[k].inum < Inodes(fs.disk))
    && (forall j, k :: 0 <= j < k < |fs.cache| && fs.cache[j].count > 0 && fs.cache[k].count > 0 ==>
          fs.cache[j].inum != fs.cache[k].inum)
  }

  /** type, major, minor, nlink and size agree with the disk; addresses on disk are in force too. */
  ghost predicate Agrees(n: Dinode, onDisk: Dinode)
  {
    && n == onDisk.(addrs := n.addrs)
    && forall k :: 0 <= k < 32 && onDisk.addrs[k] != 0 ==> n.addrs[k] == onDisk.addrs[k]
  }

  ghost predicate CacheAgrees(fs: Fs)
    requires GeoOk(fs.disk) && CacheUnique(fs)
  {
    forall k :: 0 <= k < |fs.cache| && fs.cache[k].count > 0 ==>
      Agrees(fs.cache[k].d, GetInode(fs.disk, fs.cache[k].inum))
  }

  /** Everything below the data area and every owned sector has its bitmap bit set. */
  ghost predicate AllMarked(fs: Fs)
    requires GeoOk(fs.disk)
  {
    && (forall b :: 0 <= b < DataStart(fs.disk) ==> InUse(fs.disk, b))
    && (forall s :: Exists(Files(fs), s) && Ref(Files(fs), s) != 0 ==>
          Ref(Files(fs), s) < |fs.disk| && InUse(fs.disk, Ref(Files(fs), s)))
  }

  ghost predicate FsOk(fs: Fs)
  {
    && GeoOk(fs.disk) && CacheUnique(fs) && CacheAgrees(fs)
    && Sound(Files(fs), DataStart(fs.disk), |fs.disk|)
    && AllMarked(fs)
  }

  // ---------------------------------------------------------------- the cache

  lemma FindLive(fs: Fs, k: nat)
    requires GeoOk(fs.disk) && CacheUnique(fs) && k < |fs.cache| && fs.cache[k].count > 0
    ensures Find(fs.cache, fs.cache[k].inum, 0) == k
    ensures fs.cache[k].inum < Inodes(fs.disk) && Eff(fs, fs.cache[k].inum) == fs.cache[k].d
    ensures Files(fs).ino[fs.cache[k].inum] == fs.cache[k].d
  {
    var i := fs.cache[k].inum;
    var r := Find(fs.cache, i, 0);
    assert LiveAt(fs.cache, k, i);
  }

  /** References held to inode `i`. */
  function RefCount(fs: Fs, i: nat): nat
  { var k := Find(fs.cache, i, 0); if k < |fs.cache| then fs.cache[k].count else 0 }

  /** MustWait is the sleep on a busy inode, NoEntry the panic "out of inode". */
  datatype GetResult = Got(fs: Fs, k: nat) | MustWait | NoEntry

  function Iget(fs: Fs, i: nat): GetResult
    requires InodeSector(i) < |fs.disk|
  {
    var k := Find(fs.cache, i, 0);
    if k < |fs.cache| then
      if fs.cache[k].busy then MustWait
      else Got(fs.(cache := fs.cache[k := fs.cache[k].(count := fs.cache[k].count + 1, busy := true)]), k)
    else
      var f := FirstFree(fs.cache, 0);
      if f == |fs.cache| then NoEntry
      else Got(fs.(cache := fs.cache[f := MemInode(i, 1, true, GetInode(fs.disk, i))]), f)
  }

  /** iput, on an entry that is referenced. */
  function Iput(fs: Fs, k: nat): Fs
    requires k < |fs.cache| && fs.cache[k].count > 0
  { fs.(cache := fs.cache[k := fs.cache[k].(count := fs.cache[k].count - 1, busy := false)]) }

  /** A change of the cache alone that keeps the inodes in force keeps everything about files. */
  lemma SameForce(fs: Fs, fs': Fs)
    requires FsOk(fs) && fs'.disk == fs.disk && CacheUnique(fs') && CacheAgrees(fs')
    requires forall i :: 0 <= i < Inodes(fs.disk) ==> Eff(fs', i) == Eff(fs, i)
    ensures Files(fs') == Files(fs) && FsOk(fs')
  {
    assert Files(fs').ino == Files(fs).ino;
  }

  lemma {:induction false} FindStable(c: seq<MemInode>, c': seq<MemInode>, i: nat, k: nat)
    requires |c'| == |c| && k <= |c| && forall j :: 0 <= j < |c| ==> (LiveAt(c', j, i) <==> LiveAt(c, j, i))
    ensures Find(c', i, k) == Find(c, i, k)
    decreases |c| - k
  { if k < |c| { FindStable(c, c', i, k + 1); } }

  /** One entry changes between referenced states of the same inode: the inodes in force are the same. */
  lemma RecountForce(fs: Fs, k: nat, e: MemInode)
    requires FsOk(fs) && k < |fs.cache| && fs.cache[k].count > 0
    requires e.count > 0 && e.inum == fs.cache[k].inum && e.d == fs.cache[k].d
    ensures var fs' := fs.(cache := fs.cache[k := e]);
      && FsOk(fs') && Files(fs') == Files(fs)
      && (forall i :: 0 <= i < Inodes(fs.disk) ==> RefCount(fs', i) == if i == e.inum then e.count else RefCount(fs, i))
  {
    hide Sound, AllMarked, GetInode, Agrees;
    var fs' := fs.(cache := fs.cache[k := e]);
    FindLive(fs, k);
    assert CacheUnique(fs');
    forall j | 0 <= j < |fs'.cache| && fs'.cache[j].count > 0
      ensures Agrees(fs'.cache[j].d, GetInode(fs'.disk, fs'.cache[j].inum)) {
      assert Agrees(fs.cache[j].d, GetInode(fs.disk, fs.cache[j].inum));
    }
    forall i | 0 <= i < Inodes(fs.disk)
      ensures Eff(fs', i) == Eff(fs, i) && RefCount(fs', i) == if i == e.inum then e.count else RefCount(fs, i)
    {
      FindStable(fs.cache, fs'.cache, i, 0);
    }
    SameForce(fs, fs');
  }

  lemma AgreesWithItself(n: Dinode)
    ensures Agrees(n, n)
  {}

  /** Free entry `f` filled with inode `i` from disk. */
  function Loaded(fs: Fs, f: nat, i: nat): Fs
    requires f < |fs.cache| && InodeSector(i) < |fs.disk|
  { fs.(cache := fs.cache[f := MemInode(i, 1, true, GetInode(fs.disk, i))]) }

  lemma LoadUnique(fs: Fs, f: nat, i: nat)
    requires GeoOk(fs.disk) && CacheUnique(fs) && CacheAgrees(fs) && f < |fs.cache| && i < Inodes(fs.disk)
    requires Find(fs.cache, i, 0) == |fs.cache|
    ensures CacheUnique(Loaded(fs, f, i)) && CacheAgrees(Loaded(fs, f, i))
  {
    hide GetInode, Agrees, Find;
    AgreesWithItself(GetInode(fs.disk, i));
    forall j | 0 <= j < |fs.cache| && fs.cache[j].count > 0 ensures fs.cache[j].inum != i {
      assert !LiveAt(fs.cache, j, i);
    }
  }

  lemma LoadInForce(fs: Fs, f: nat, i: nat, j: nat)
    requires GeoOk(fs.disk) && i < Inodes(fs.disk) && j < Inodes(fs.disk) && f < |fs.cache| && fs.cache[f].count == 0
    requires CacheUnique(Loaded(fs, f, i)) && Find(fs.cache, i, 0) == |fs.cache|
    ensures Eff(Loaded(fs, f, i), j) == Eff(fs, j)
    ensures RefCount(Loaded(fs, f, i), j) == if j == i then 1 else RefCount(fs, j)
  {
    hide GetInode, CacheUnique;
    if j == i { FindLive(Loaded(fs, f, i), f); } else { FindStable(fs.cache, Loaded(fs, f, i).cache, j, 0); }
  }

  /** The inodes in force stay the same. */
  lemma LoadForce(fs: Fs, f: nat, i: nat)
    requires FsOk(fs) && f < |fs.cache| && fs.cache[f].count == 0 && i < Inodes(fs.disk)
    requires Find(fs.cache, i, 0) == |fs.cache|
    ensures var fs' := Loaded(fs, f, i);
      && FsOk(fs') && Files(fs') == Files(fs)
      && (forall j :: 0 <= j < Inodes(fs.disk) ==> RefCount(fs', j) == if j == i then 1 else RefCount(fs, j))
  {
    hide Sound, AllMarked, GetInode, CacheUnique, CacheAgrees, Eff, RefCount, Find;
    LoadUnique(fs, f, i);
    forall j | 0 <= j < Inodes(fs.disk)
      ensures Eff(Loaded(fs, f, i), j) == Eff(fs, j) && RefCount(Loaded(fs, f, i), j) == if j == i then 1 else RefCount(fs, j)
    {
      LoadInForce(fs, f, i, j);
    }
    SameForce(fs, Loaded(fs, f, i));
  }

  /** One more reference to inode `i`, held by entry `k`, and nothing else changed. */
  ghost predicate Referenced(fs: Fs, fs': Fs, k: nat, i: nat)
    requires GeoOk(fs.disk) && i < Inodes(fs.disk)
  {
    && FsOk(fs') && fs'.disk == fs.disk && Files(fs') == Files(fs) && |fs'.cache| == |fs.cache|
    && k < |fs'.cache| && LiveAt(fs'.cache, k, i) && fs'.cache[k].busy && fs'.cache[k].d == Files(fs).ino[i]
    && (forall j :: 0 <= j < |fs.cache| && j != k ==> fs'.cache[j] == fs.cache[j])
    && (forall j :: 0 <= j < Inodes(fs.disk) ==> RefCount(fs', j) == RefCount(fs, j) + if j == i then 1 else 0)
  }

  lemma IgetReferences(fs: Fs, i: nat)
    requires FsOk(fs) && i < Inodes(fs.disk) && Iget(fs, i).Got?
    ensures Referenced(fs, Iget(fs, i).fs, Iget(fs, i).k, i)
  {
    hide FsOk, Files, Eff, GetInode;
    var k := Find(fs.cache, i, 0);
    OkParts(fs);
    if k < |fs.cache| {
      FindLive(fs, k);
      RecountForce(fs, k, fs.cache[k].(count := fs.cache[k].count + 1, busy := true));
    } else {
      LoadForce(fs, FirstFree(fs.cache, 0), i);
      FilesNotCached(fs, i);
    }
  }

  lemma OkParts(fs: Fs)
    requires FsOk(fs)
    ensures GeoOk(fs.disk) && CacheUnique(fs) && forall i :: 0 <= i < Inodes(fs.disk) ==> InodeSector(i) < |fs.disk|
    ensures CacheAgrees(fs) && Sound(Files(fs), DataStart(fs.disk), |fs.disk|) && AllMarked(fs)
  {}

  lemma MakeOk(fs: Fs)
    requires GeoOk(fs.disk) && CacheUnique(fs) && CacheAgrees(fs)
    requires Sound(Files(fs), DataStart(fs.disk), |fs.disk|) && AllMarked(fs)
    ensures FsOk(fs)
  {}

  lemma FilesNotCached(fs: Fs, i: nat)
    requires FsOk(fs) && i < Inodes(fs.disk) && Find(fs.cache, i, 0) == |fs.cache|
    ensures Files(fs).ino[i] == GetInode(fs.disk, i)
  {}

  /**
   * iget sleeps exactly when the entry of the inode is busy, and panics exactly when the inode has no entry
   * and every entry is in use; otherwise it takes one more reference to the inode and to no other, and every
   * file is as before.
   */
  lemma IgetGets(fs: Fs, i: nat)
    requires FsOk(fs) && i < Inodes(fs.disk)
    ensures var r := Iget(fs, i);
      && (r.MustWait? <==> exists k :: 0 <= k < |fs.cache| && LiveAt(fs.cache, k, i) && fs.cache[k].busy)
      && (r.NoEntry? <==> forall k :: 0 <= k < |fs.cache| ==> fs.cache[k].count > 0 && !LiveAt(fs.cache, k, i))
      && (r.Got? ==> Referenced(fs, r.fs, r.k, i))
  {
    hide FsOk, Files, Eff, GetInode, Referenced, CacheUnique;
    OkParts(fs);
    var k := Find(fs.cache, i, 0);
    forall j | 0 <= j < |fs.cache| && LiveAt(fs.cache, j, i) ensures j == k { FindLive(fs, j); }
    if Iget(fs, i).Got? { IgetReferences(fs, i); }
  }

  // ---------------------------------------------------------------- giving references back

  /** `v'` has some of the references of `v` and no others. */
  ghost predicate FewerRefs(v: Vol, v': Vol)
  {
    && v'.disk == v.disk && |v'.ino| == |v.ino|
    && forall i, k :: 0 <= i < |v.ino| && 0 <= k < 32 && v'.ino[i].addrs[k] != 0 ==> v'.ino[i].addrs[k] == v.ino[i].addrs[k]
  }

  lemma FewerRefsRef(v: Vol, v': Vol, s: Slot)
    requires FewerRefs(v, v') && Exists(v, s) && Ref(v', s) != 0
    ensures Ref(v', s) == Ref(v, s)
  {}

  lemma FewerRefsSound(v: Vol, v': Vol, lo: nat, hi: nat)
    requires FewerRefs(v, v') && Sound(v, lo, hi)
    ensures Sound(v', lo, hi)
  {
    forall s | Exists(v', s) && Ref(v', s) != 0 ensures Ref(v', s) == Ref(v, s) { FewerRefsRef(v, v', s); }
  }

  lemma DropFewerRefs(v: Vol, v': Vol, i: nat, onDisk: Dinode, n: Dinode)
    requires v'.disk == v.disk && |v'.ino| == |v.ino| && i < |v.ino| && v.ino[i] == n && Agrees(n, onDisk)
    requires forall j :: 0 <= j < |v.ino| ==> v'.ino[j] == if j == i then onDisk else v.ino[j]
    ensures FewerRefs(v, v')
  {}

  lemma DropUnique(fs: Fs, k: nat)
    requires GeoOk(fs.disk) && CacheUnique(fs) && CacheAgrees(fs) && k < |fs.cache| && fs.cache[k].count == 1
    ensures CacheUnique(Iput(fs, k)) && CacheAgrees(Iput(fs, k))
    ensures fs.cache[k].inum < Inodes(fs.disk) && InodeSector(fs.cache[k].inum) < |fs.disk|
    ensures Agrees(fs.cache[k].d, GetInode(fs.disk, fs.cache[k].inum))
  {
    hide GetInode, Agrees;
    var fs' := Iput(fs, k);
    forall j | 0 <= j < |fs'.cache| && fs'.cache[j].count > 0
      ensures fs'.cache[j].inum < Inodes(fs.disk) && Agrees(fs'.cache[j].d, GetInode(fs.disk, fs'.cache[j].inum))
    {
      assert Agrees(fs.cache[j].d, GetInode(fs.disk, fs.cache[j].inum));
    }
  }

  lemma DropInForce(fs: Fs, k: nat, j: nat)
    requires GeoOk(fs.disk) && CacheUnique(fs) && k < |fs.cache| && fs.cache[k].count == 1 && j < Inodes(fs.disk)
    ensures var fs', i := Iput(fs, k), fs.cache[k].inum;
      && RefCount(fs', j) == (if j == i then 0 else RefCount(fs, j))
      && Eff(fs', j) == (if j == i then GetInode(fs.disk, j) else Eff(fs, j))
  {
    hide GetInode;
    if j != fs.cache[k].inum { FindStable(fs.cache, Iput(fs, k).cache, j, 0); }
  }

  /** The last reference dropped: the inode on disk is in force again. */
  lemma DropForce(fs: Fs, k: nat)
    requires FsOk(fs) && k < |fs.cache| && fs.cache[k].count == 1
    ensures var fs' := Iput(fs, k); var i := fs.cache[k].inum;
      && i < Inodes(fs.disk) && FsOk(fs')
      && (forall j :: 0 <= j < Inodes(fs.disk) ==>
            && RefCount(fs', j) == (if j == i then 0 else RefCount(fs, j))
            && Files(fs').ino[j] == (if j == i then GetInode(fs.disk, i) else Files(fs).ino[j]))
  {
    hide Sound, GetInode, FewerRefs, CacheUnique, CacheAgrees, RefCount;
    var fs', i := Iput(fs, k), fs.cache[k].inum;
    OkParts(fs);
    FindLive(fs, k);
    DropUnique(fs, k);
    forall j | 0 <= j < Inodes(fs.disk)
      ensures RefCount(fs', j) == (if j == i then 0 else RefCount(fs, j))
      ensures Eff(fs', j) == (if j == i then GetInode(fs.disk, i) else Eff(fs, j))
    {
      DropInForce(fs, k, j);
    }
    var v, v' := Files(fs), Files(fs');
    DropFewerRefs(v, v', i, GetInode(fs.disk, i), fs.cache[k].d);
    FewerRefsSound(v, v', DataStart(fs.disk), |fs.disk|);
    forall s | Exists(v', s) && Ref(v', s) != 0 ensures Ref(v', s) < |fs.disk| && InUse(fs.disk, Ref(v', s)) {
      FewerRefsRef(v, v', s);
    }
  }

  /**
   * iput gives one reference back. Files stay as they are exactly when other references remain or the
   * addresses in memory are the ones on disk: iupdate never writes addresses, so the blocks a file got
   * since it was read in are lost with the last reference.
   */
  lemma IputPuts(fs: Fs, k: nat)
    requires FsOk(fs) && k < |fs.cache| && fs.cache[k].count > 0
    ensures var fs' := Iput(fs, k); var i := fs.cache[k].inum;
      && i < Inodes(fs.disk) && FsOk(fs') && fs'.disk == fs.disk && |fs'.cache| == |fs.cache|
      && (forall j :: 0 <= j < |fs.cache| && j != k ==> fs'.cache[j] == fs.cache[j])
      && (forall j :: 0 <= j < Inodes(fs.disk) ==> RefCount(fs', j) == RefCount(fs, j) - if j == i then 1 else 0)
      && (Files(fs') == Files(fs) <==> fs.cache[k].count > 1 || fs.cache[k].d.addrs == GetInode(fs.disk, i).addrs)
  {
    FindLive(fs, k);
    if fs.cache[k].count > 1 {
      RecountForce(fs, k, fs.cache[k].(count := fs.cache[k].count - 1, busy := false));
    } else {
      var i, fs' := fs.cache[k].inum, Iput(fs, k);
      DropForce(fs, k);
      assert Agrees(fs.cache[k].d, GetInode(fs.disk, i));
      if fs.cache[k].d.addrs == GetInode(fs.disk, i).addrs {
        assert Files(fs').ino == Files(fs).ino;
      } else {
        assert Files(fs').ino[i] != Files(fs).ino[i];
      }
    }
  }
}
