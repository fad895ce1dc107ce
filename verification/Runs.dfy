/**
 * Runs of the file system: any sequence of path lookups, creations, writes in the direct range, duplications,
 * unlocks and releases, from an image that mkfs made. A call that panics or sleeps leaves the state.
 */
module Runs {
  import opened Options
  import opened Bytes
  import opened Layout
  import opened Volume
  import opened Balloc
  import opened Kfs
  import opened WriteI
  import opened Directory
  import opened PathWalk
  import opened Creation
  import opened Boot

  datatype Op =
    | Look(path: seq<byte>)
    | Create(kd: nat, name: seq<byte>, kind: u16, major: u16, minor: u16)
    | Store(k: nat, off: nat, p: seq<byte>)
    | Dup(k: nat)
    | Unlock(k: nat)
    | Put(k: nat)

  predicate InUseEntry(fs: Fs, k: nat) { k < |fs.cache| && fs.cache[k].count > 0 }

  function Step(fs: Fs, op: Op): Fs
    requires GeoOk(fs.disk)
  {
    match op
    case Look(path) => (match Namei(fs, path) case Found(fs', _) => fs' case NotFound(fs') => fs' case _ => fs)
    case Create(kd, name, kind, major, minor) =>
      if InUseEntry(fs, kd) && fs.cache[kd].d.kind == T_DIR && kind != 0 then
        var r := Mknod(fs, kd, name, kind, major, minor);
        if r.Made? then r.fs else fs
      else fs
    case Store(k, off, p) =>
      if InUseEntry(fs, k) && fs.cache[k].inum < Inodes(fs.disk) && off + |p| <= 31 * 512 then
        var r := Write(fs, k, off, p);
        if r.Wrote? then r.fs else fs
      else fs
    case Dup(k) => if InUseEntry(fs, k) then fs.(cache := fs.cache[k := fs.cache[k].(count := fs.cache[k].count + 1)]) else fs
    case Unlock(k) => if InUseEntry(fs, k) then fs.(cache := fs.cache[k := fs.cache[k].(busy := false)]) else fs
    case Put(k) => if InUseEntry(fs, k) then Iput(fs, k) else fs
  }

  function Run(fs: Fs, ops: seq<Op>): Fs
    decreases |ops|
  { if ops == [] then fs else var rest := Run(fs, ops[..|ops| - 1]); if GeoOk(rest.disk) then Step(rest, ops[|ops| - 1]) else rest }

  // ---------------------------------------------------------------- references

  /** Entries gaining a reference, as inode numbers; an inode that does not exist stands for none. */
  function Gains(fs: Fs, op: Op): Option<nat>
    requires GeoOk(fs.disk)
  {
    match op
    case Look(path) =>
      var r := Namei(fs, path);
      if r.Found? && r.k < |r.fs.cache| then Some(r.fs.cache[r.k].inum) else None
    case Create(kd, name, kind, major, minor) =>
      if InUseEntry(fs, kd) && fs.cache[kd].d.kind == T_DIR && kind != 0 then
        var r := Mknod(fs, kd, name, kind, major, minor);
        if r.Made? && r.k < |r.fs.cache| then Some(r.fs.cache[r.k].inum) else None
      else None
    case Dup(k) => if InUseEntry(fs, k) then Some(fs.cache[k].inum) else None
    case _ => None
  }

  function Loses(fs: Fs, op: Op): Option<nat>
  { if op.Put? && InUseEntry(fs, op.k) then Some(fs.cache[op.k].inum) else None }

  function Is(x: Option<nat>, i: nat): nat { if x == Some(i) then 1 else 0 }

  /** What every step keeps: the invariant, and each count moves with the references given out and back. */
  ghost predicate StepOk(fs: Fs, op: Op, fs': Fs)
    requires GeoOk(fs.disk)
  {
    && TreeOk(fs') && GeoOk(fs'.disk) && Inodes(fs'.disk) == Inodes(fs.disk) && |fs'.cache| == |fs.cache|
    && forall i :: 0 <= i < Inodes(fs.disk) ==>
         RefCount(fs', i) + Is(Loses(fs, op), i) == RefCount(fs, i) + Is(Gains(fs, op), i)
  }

  // ---------------------------------------------------------------- each operation

  lemma HeldTyped(fs: Fs, fs': Fs, k: nat, i: nat)
    requires TreeOk(fs) && GeoOk(fs.disk) && Held(fs, fs', k, i) && Files(fs).ino[i].kind != 0
    ensures TreeOk(fs') && GeoOk(fs'.disk)
  {
    hide FsOk, Files, GetInode, DirsOk;
    TreeParts(fs);
    OkParts(fs');
    forall j | 0 <= j < |fs'.cache| && fs'.cache[j].count > 0
      ensures fs'.cache[j].d.kind != 0
      ensures fs'.cache[j].d.kind == T_DIR ==> fs'.cache[j].d.addrs == GetInode(fs'.disk, fs'.cache[j].inum).addrs
    {
      if j != k { assert SameEntry(fs.cache, fs'.cache, j); } else { FindLive(fs', k); }
    }
  }

  lemma RestoredTyped(fs: Fs, fs': Fs)
    requires TreeOk(fs) && GeoOk(fs.disk) && Restored(fs, fs')
    ensures TreeOk(fs') && GeoOk(fs'.disk)
  {
    hide FsOk, Files, GetInode, DirsOk;
    TreeParts(fs);
    OkParts(fs');
    forall j | 0 <= j < |fs'.cache| && fs'.cache[j].count > 0
      ensures fs'.cache[j].d.kind != 0
      ensures fs'.cache[j].d.kind == T_DIR ==> fs'.cache[j].d.addrs == GetInode(fs'.disk, fs'.cache[j].inum).addrs
    {
      assert SameEntry(fs.cache, fs'.cache, j);
    }
  }

  lemma LookOk(fs: Fs, path: seq<byte>)
    requires TreeOk(fs) && GeoOk(fs.disk)
    ensures StepOk(fs, Look(path), Step(fs, Look(path)))
  {
    hide FsOk, Files, GetInode, DirsOk, Typed, Namei, Walk, Parts, OnTrail, TreeOk, RefCount, Busy, TableUsed;
    TreeParts(fs);
    NameiResolves(fs, path);
    var r := Namei(fs, path);
    if r.Found? {
      var i := r.fs.cache[r.k].inum;
      RootTyped(Files(fs), Parts(path));
      HeldTyped(fs, r.fs, r.k, i);
    } else if r.NotFound? {
      RestoredTyped(fs, r.fs);
    }
  }

  lemma RootTyped(v: Vol, parts: seq<seq<byte>>)
    requires DirsOk(v)
    ensures Walk(v, 1, parts).Some? ==> v.ino[Walk(v, 1, parts).value].kind != 0
  { hide Walk; }

  lemma CreateOk(fs: Fs, op: Op)
    requires TreeOk(fs) && GeoOk(fs.disk) && op.Create? && InUseEntry(fs, op.kd) && fs.cache[op.kd].d.kind == T_DIR && op.kind != 0
    ensures StepOk(fs, op, Step(fs, op))
  {
    hide FsOk, Files, GetInode, DirsOk, Typed, Mknod, TreeOk, RefCount, Entered, CacheMoved, DiskMoved, TableUsed;
    MknodCreates(fs, op.kd, op.name, op.kind, op.major, op.minor);
    TreeParts(fs);
    var r := Mknod(fs, op.kd, op.name, op.kind, op.major, op.minor);
    if r.Made? {
      CreatedKeepsTree(fs, r.fs, r.k, op.kd, op.name, NewNode(op.kind, op.major, op.minor));
      CreatedSizes(fs, r.fs, r.k, op.kd, op.name, NewNode(op.kind, op.major, op.minor));
    }
  }

  lemma CreatedSizes(fs: Fs, fs': Fs, k: nat, kd: nat, name: seq<byte>, n: Dinode)
    requires Created(fs, fs', k, kd, name, n)
    ensures GeoOk(fs.disk) && GeoOk(fs'.disk) && Inodes(fs'.disk) == Inodes(fs.disk) && |fs'.cache| == |fs.cache| && k < |fs.cache|
    ensures forall j :: 0 <= j < Inodes(fs.disk) ==> RefCount(fs', j) == RefCount(fs, j) + if j == fs'.cache[k].inum then 1 else 0
  {}

  /** Directories stay well-formed when one inode, which is not one of them, changes and stays allocated. */
  lemma DirsKept(v: Vol, v': Vol, i: nat)
    requires DirsOk(v) && Keeps(v, v', {i}) && i < |v.ino| && v.ino[i].kind != T_DIR
    requires v'.ino[i].kind != 0 && v'.ino[i].kind != T_DIR
    ensures DirsOk(v')
  {
    hide DirOk, SameBlocks, Content, Filled;
    forall d | 0 <= d < |v'.ino| && v'.ino[d].kind == T_DIR ensures DirOk(v', d) { DirKept(v, v', d, {i}); }
  }

  lemma StoreOk(fs: Fs, op: Op)
    requires TreeOk(fs) && GeoOk(fs.disk) && op.Store? && InUseEntry(fs, op.k)
    requires fs.cache[op.k].inum < Inodes(fs.disk) && op.off + |op.p| <= 31 * 512
    ensures StepOk(fs, op, Step(fs, op))
  {
    hide FsOk, Files, GetInode, DirsOk, Typed, Write, TreeOk, RefCount, CacheUnique;
    TreeParts(fs);
    var k := op.k;
    var r := Write(fs, k, op.off, op.p);
    if r.Wrote? {
      WriteKeeps(fs, k, op.off, op.p);
      WroteFile(fs, k, op.off, op.p);
      StoredTree(fs, r.fs, k);
      OnlySizes(fs, r.fs, k);
    }
  }

  lemma OnlySizes(fs: Fs, fs': Fs, k: nat)
    requires OnlyFile(fs, fs', k)
    ensures GeoOk(fs.disk) && GeoOk(fs'.disk) && Inodes(fs'.disk) == Inodes(fs.disk) && |fs'.cache| == |fs.cache|
    ensures forall j :: 0 <= j < Inodes(fs.disk) ==> RefCount(fs', j) == RefCount(fs, j)
  {}

  lemma WroteFile(fs: Fs, k: nat, off: nat, p: seq<byte>)
    requires GeoOk(fs.disk) && k < |fs.cache| && fs.cache[k].inum < Inodes(fs.disk) && off + |p| <= 31 * 512
    requires Write(fs, k, off, p).Wrote?
    ensures fs.cache[k].d.kind == T_FILE
  {}

  lemma StoredTree(fs: Fs, fs': Fs, k: nat)
    requires TreeOk(fs) && FsOk(fs') && OnlyFile(fs, fs', k) && fs.cache[k].count > 0 && fs.cache[k].d.kind == T_FILE
    ensures TreeOk(fs')
  {
    hide FsOk, Files, GetInode, DirsOk, Filled, Content, SameBlocks, Find;
    TreeParts(fs);
    OkParts(fs');
    FindLive(fs, k);
    FindLive(fs', k);
    var i := fs.cache[k].inum;
    SameSize(fs, fs', k);
    OthersKeeps(fs, fs', k);
    DirsKept(Files(fs), Files(fs'), i);
    forall j | 0 <= j < |fs'.cache| && fs'.cache[j].count > 0
      ensures fs'.cache[j].d.kind != 0
      ensures fs'.cache[j].d.kind == T_DIR ==> fs'.cache[j].d.addrs == GetInode(fs'.disk, fs'.cache[j].inum).addrs
    {}
  }

  lemma SameSize(fs: Fs, fs': Fs, k: nat)
    requires OnlyFile(fs, fs', k) && FsOk(fs)
    ensures GeoOk(fs.disk) && GeoOk(fs'.disk) && |fs'.disk| == |fs.disk|
  {
    assert 0 < |Files(fs).ino|;
    var j := if fs.cache[k].inum == 0 then 1 else 0;
    assert SameBlocks(Files(fs), Files(fs'), j);
  }

  lemma RecountOk(fs: Fs, op: Op)
    requires TreeOk(fs) && GeoOk(fs.disk) && (op.Dup? || op.Unlock?) && InUseEntry(fs, op.k)
    ensures StepOk(fs, op, Step(fs, op))
  {
    hide FsOk, Files, GetInode, DirsOk, Find;
    TreeParts(fs);
    var e := if op.Dup? then fs.cache[op.k].(count := fs.cache[op.k].count + 1) else fs.cache[op.k].(busy := false);
    RecountForce(fs, op.k, e);
    FindLive(fs, op.k);
    OkParts(Step(fs, op));
    assert RefCount(fs, fs.cache[op.k].inum) == fs.cache[op.k].count;
  }

  lemma PutOk(fs: Fs, op: Op)
    requires TreeOk(fs) && GeoOk(fs.disk) && op.Put? && InUseEntry(fs, op.k)
    ensures StepOk(fs, op, Step(fs, op))
  {
    hide FsOk, Files, GetInode, DirsOk, Find;
    TreeParts(fs);
    var fs' := Iput(fs, op.k);
    IputPuts(fs, op.k);
    OkParts(fs');
    PutDirs(fs, op.k);
    assert Typed(fs');
  }

  lemma PutDirs(fs: Fs, k: nat)
    requires TreeOk(fs) && InUseEntry(fs, k)
    ensures GeoOk(Iput(fs, k).disk) && DirsOk(Files(Iput(fs, k)))
  {
    hide FsOk, GetInode, DirsOk, Find, Files;
    TreeParts(fs);
    IputPuts(fs, k);
    FindLive(fs, k);
    if fs.cache[k].count == 1 && fs.cache[k].d.kind != T_DIR {
      DropForce(fs, k);
      ReferencedIsTyped(fs, k);
      KindOnDisk(fs, fs.cache[k].inum);
      SameDiskKeeps(Files(fs), Files(Iput(fs, k)), fs.cache[k].inum);
      DirsKept(Files(fs), Files(Iput(fs, k)), fs.cache[k].inum);
    }
  }

  lemma SameDiskKeeps(v: Vol, v': Vol, i: nat)
    requires v'.disk == v.disk && |v'.ino| == |v.ino| && forall j :: 0 <= j < |v.ino| && j != i ==> v'.ino[j] == v.ino[j]
    ensures Keeps(v, v', {i})
  {
    forall j: nat | j < |v.ino| && j != i
      ensures SameBlocks(v, v', j) && (Filled(v, j) ==> Filled(v', j) && Content(v', j) == Content(v, j))
    {
      forall f | 0 <= f < 159 ensures BlockOf(v', j, f) == BlockOf(v, j, f) {}
    }
  }

  /** Every operation keeps the invariant and accounts for every reference. */
  lemma StepKeeps(fs: Fs, op: Op)
    requires TreeOk(fs) && GeoOk(fs.disk)
    ensures StepOk(fs, op, Step(fs, op))
  {
    hide TreeOk, Namei, Mknod, Write, Iput, RefCount;
    match op
    case Look(path) => LookOk(fs, path);
    case Create(kd, _, kind, _, _) => if InUseEntry(fs, kd) && fs.cache[kd].d.kind == T_DIR && kind != 0 { CreateOk(fs, op); }
    case Store(k, off, p) => if InUseEntry(fs, k) && fs.cache[k].inum < Inodes(fs.disk) && off + |p| <= 31 * 512 { StoreOk(fs, op); }
    case Dup(k) => if InUseEntry(fs, k) { RecountOk(fs, op); }
    case Unlock(k) => if InUseEntry(fs, k) { RecountOk(fs, op); }
    case Put(k) => if InUseEntry(fs, k) { PutOk(fs, op); }
  }

  // ---------------------------------------------------------------- runs

  /** References to inode `i` given out, and given back, by a run. */
  function Given(fs: Fs, ops: seq<Op>, i: nat): nat
    decreases |ops|
  {
    if ops == [] then 0
    else
      var before := Run(fs, ops[..|ops| - 1]);
      Given(fs, ops[..|ops| - 1], i) + if GeoOk(before.disk) then Is(Gains(before, ops[|ops| - 1]), i) else 0
  }

  function Returned(fs: Fs, ops: seq<Op>, i: nat): nat
    decreases |ops|
  { if ops == [] then 0 else Returned(fs, ops[..|ops| - 1], i) + Is(Loses(Run(fs, ops[..|ops| - 1]), ops[|ops| - 1]), i) }

  lemma {:induction false} RunKeeps(fs: Fs, ops: seq<Op>)
    requires TreeOk(fs) && GeoOk(fs.disk)
    ensures TreeOk(Run(fs, ops)) && GeoOk(Run(fs, ops).disk) && Inodes(Run(fs, ops).disk) == Inodes(fs.disk)
    ensures forall i :: 0 <= i < Inodes(fs.disk) ==>
              RefCount(Run(fs, ops), i) + Returned(fs, ops, i) == RefCount(fs, i) + Given(fs, ops, i)
    decreases |ops|
  {
    hide TreeOk, RefCount, Step, Gains, Loses, GeoOk;
    if ops != [] {
      var before := Run(fs, ops[..|ops| - 1]);
      RunKeeps(fs, ops[..|ops| - 1]);
      StepKeeps(before, ops[|ops| - 1]);
    }
  }

  /** What the invariant says. */
  ghost predicate Safe(fs: Fs)
    requires GeoOk(fs.disk)
  {
    var v := Files(fs);
    && (forall s, t :: Exists(v, s) && Exists(v, t) && Ref(v, s) == Ref(v, t) != 0 ==> s == t)
    && (forall s :: Exists(v, s) && Ref(v, s) != 0 ==> DataStart(fs.disk) <= Ref(v, s) < |fs.disk| && InUse(fs.disk, Ref(v, s)))
    && (Alloc(fs.disk).Some? ==> DataStart(fs.disk) <= Alloc(fs.disk).value.1 && Unowned(v, Alloc(fs.disk).value.1))
    && (forall j, k :: 0 <= j < k < |fs.cache| && fs.cache[j].count > 0 && fs.cache[k].count > 0 ==>
          fs.cache[j].inum != fs.cache[k].inum)
    && (forall k :: 0 <= k < |fs.cache| && fs.cache[k].count > 0 ==>
          && InodeSector(fs.cache[k].inum) < |fs.disk|
          && fs.cache[k].d == GetInode(fs.disk, fs.cache[k].inum).(addrs := fs.cache[k].d.addrs))
  }

  lemma OkIsSafe(fs: Fs)
    requires FsOk(fs)
    ensures GeoOk(fs.disk) && Safe(fs)
  {
    OkParts(fs);
    AllocTakesLeast(fs.disk);
    if Alloc(fs.disk).Some? { UnmarkedIsUnowned(fs, Alloc(fs.disk).value.1); }
    hide Alloc, Ref, Files, InUse, GetInode, FsOk;
    forall k | 0 <= k < |fs.cache| && fs.cache[k].count > 0
      ensures && InodeSector(fs.cache[k].inum) < |fs.disk|
              && fs.cache[k].d == GetInode(fs.disk, fs.cache[k].inum).(addrs := fs.cache[k].d.addrs)
    {
      assert Agrees(fs.cache[k].d, GetInode(fs.disk, fs.cache[k].inum));
    }
  }

  lemma BootCounts(d: Disk)
    requires GeoOk(d)
    ensures forall i :: 0 <= i < Inodes(d) ==> RefCount(Booted(d), i) == 0
  {}

  /**
   * Safety over every run from an image that mkfs made: no sector is owned twice, every owned sector lies
   * in the data area and has its bit set, balloc would hand out only an unowned sector of the data area, at
   * most one entry is in use per inode and it agrees with the disk in all but its addresses, and the count
   * of every inode is the number of references given out and not given back.
   */
  lemma RunsFromImageAreSafe(d: Disk, free: u32, fs: seq<M.File>, ops: seq<Op>)
    requires M.Image(d, free, fs)
    ensures var s := Run(Booted(d), ops);
      && GeoOk(s.disk) && TreeOk(s) && Safe(s)
      && forall i :: 0 <= i < 100 ==> RefCount(s, i) == Given(Booted(d), ops, i) - Returned(Booted(d), ops, i)
  {
    hide M.Image, TreeOk, RefCount, Run, Given, Returned, FsOk;
    BootTree(d, free, fs);
    BootGeo(d, free, fs);
    BootCounts(d);
    RunKeeps(Booted(d), ops);
    TreeParts(Run(Booted(d), ops));
    OkIsSafe(Run(Booted(d), ops));
  }
}
