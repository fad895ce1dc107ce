/** kernel/fs.c: namei. It walks a path with one inode reference in hand, and must give every other one back. */
module PathWalk {
  import opened Options
  import opened Bytes
  import opened Layout
  import opened Volume
  import opened Balloc
  import opened Kfs
  import opened Directory

  /** MustSleep is the sleep of iget on a busy inode, TableFull its panic, Broken a directory outside the direct range. */
  datatype Result = Found(fs: Fs, k: nat) | NotFound(fs: Fs) | MustSleep | TableFull | Broken

  /** iget as a step of namei. */
  function Enter(fs: Fs, i: nat): Result
    requires InodeSector(i) < |fs.disk|
  {
    match Iget(fs, i)
    case Got(fs1, k) => Found(fs1, k)
    case MustWait => MustSleep
    case NoEntry => TableFull
  }

  /** The loop of namei, with dp held in entry `k` and `q` the rest of the path. */
  function From(fs: Fs, k: nat, q: seq<byte>): Result
    decreases |q|
  {
    var r := Skip(q);
    if |fs.cache| <= k || fs.cache[k].count == 0 then Broken
    else if r == [] then Found(fs, k)
    else
      var n := fs.cache[k].d;
      if n.kind != T_DIR then NotFound(Iput(fs, k))
      else if !Readable(fs.disk, n) then Broken
      else
        var e := Lookup(fs.disk, n, Comp(r), 0);
        if e == Slots(n.size) then NotFound(Iput(fs, k))
        else
          var j := SlotAt(fs.disk, n, e).inum;
          if |fs.disk| <= InodeSector(j) then Broken
          else
            var g := Enter(Iput(fs, k), j);
            if g.Found? then From(g.fs, g.k, r[|Comp(r)|..]) else g
  }

  function Namei(fs: Fs, path: seq<byte>): Result
    requires 2 < |fs.disk|
  { var g := Enter(fs, 1); if g.Found? then From(g.fs, g.k, path) else g }

  // ---------------------------------------------------------------- one reference in hand

  /** Entries in use are as they were, entries not in use are not in use. */
  ghost predicate SameEntry(c: seq<MemInode>, c': seq<MemInode>, j: nat)
    requires j < |c| == |c'|
  { if c[j].count > 0 then c'[j] == c[j] else c'[j].count == 0 }

  /** All references are as they were. */
  ghost predicate Restored(fs0: Fs, fs: Fs)
    requires GeoOk(fs0.disk)
  {
    && FsOk(fs) && fs.disk == fs0.disk && Files(fs) == Files(fs0) && |fs.cache| == |fs0.cache|
    && (forall j :: 0 <= j < |fs.cache| ==> SameEntry(fs0.cache, fs.cache, j))
    && (forall i :: 0 <= i < Inodes(fs0.disk) ==> RefCount(fs, i) == RefCount(fs0, i))
  }

  /** One more reference, to inode `i` in entry `k`, busy now and not before, and nothing else. */
  ghost predicate Held(fs0: Fs, fs: Fs, k: nat, i: nat)
    requires GeoOk(fs0.disk)
  {
    && FsOk(fs) && fs.disk == fs0.disk && Files(fs) == Files(fs0) && |fs.cache| == |fs0.cache|
    && k < |fs.cache| && i < Inodes(fs.disk) && LiveAt(fs.cache, k, i) && fs.cache[k].busy && fs.cache[k].d == Files(fs0).ino[i]
    && (forall j :: 0 <= j < |fs.cache| && j != k ==> SameEntry(fs0.cache, fs.cache, j))
    && (if fs0.cache[k].count > 0
        then !fs0.cache[k].busy && fs.cache[k] == fs0.cache[k].(count := fs0.cache[k].count + 1, busy := true)
        else fs.cache[k].count == 1 && fs.cache[k].d == GetInode(fs0.disk, i))
    && (forall j :: 0 <= j < Inodes(fs0.disk) ==> RefCount(fs, j) == RefCount(fs0, j) + if j == i then 1 else 0)
  }

  ghost predicate Busy(fs: Fs, i: nat)
  { exists k :: 0 <= k < |fs.cache| && LiveAt(fs.cache, k, i) && fs.cache[k].busy }

  ghost predicate TableUsed(fs: Fs) { forall k :: 0 <= k < |fs.cache| ==> fs.cache[k].count > 0 }

  lemma RestoredNow(fs: Fs)
    requires FsOk(fs)
    ensures GeoOk(fs.disk) && Restored(fs, fs)
  {}

  /** The entry that iget returns, and how it changed. */
  lemma IgetEntry(fs: Fs, i: nat)
    requires FsOk(fs) && i < Inodes(fs.disk) && Iget(fs, i).Got?
    ensures var fs1 := Iget(fs, i).fs; var k := Iget(fs, i).k;
      && k < |fs.cache| == |fs1.cache|
      && (if fs.cache[k].count > 0
          then !fs.cache[k].busy && fs1.cache[k] == fs.cache[k].(count := fs.cache[k].count + 1, busy := true)
          else fs1.cache[k] == MemInode(i, 1, true, GetInode(fs.disk, i)))
  {}

  lemma EnterHolds(fs0: Fs, fs: Fs, i: nat)
    requires GeoOk(fs0.disk) && Restored(fs0, fs) && i < Inodes(fs0.disk)
    ensures GeoOk(fs.disk) && Inodes(fs.disk) == Inodes(fs0.disk)
    ensures match Enter(fs, i)
      case Found(fs1, k) => Held(fs0, fs1, k, i)
      case MustSleep => Busy(fs0, i)
      case TableFull => TableUsed(fs0)
      case _ => false
  {
    hide FsOk, Files, GetInode;
    OkParts(fs);
    IgetGets(fs, i);
    if Iget(fs, i).Got? {
      IgetEntry(fs, i);
      var fs1, k := Iget(fs, i).fs, Iget(fs, i).k;
      assert Referenced(fs, fs1, k, i);
      assert SameEntry(fs0.cache, fs.cache, k);
      forall j | 0 <= j < |fs1.cache| && j != k ensures SameEntry(fs0.cache, fs1.cache, j) {
        assert SameEntry(fs0.cache, fs.cache, j);
      }
    } else if Iget(fs, i).MustWait? {
      var k :| 0 <= k < |fs.cache| && LiveAt(fs.cache, k, i) && fs.cache[k].busy;
      assert SameEntry(fs0.cache, fs.cache, k);
      assert LiveAt(fs0.cache, k, i);
    } else {
      forall k | 0 <= k < |fs.cache| ensures fs0.cache[k].count > 0 { assert SameEntry(fs0.cache, fs.cache, k); }
    }
  }

  lemma PutRestores(fs0: Fs, fs: Fs, k: nat, i: nat)
    requires GeoOk(fs0.disk) && Held(fs0, fs, k, i)
    ensures k < |fs.cache| && fs.cache[k].count > 0 && Restored(fs0, Iput(fs, k))
  {
    hide FsOk, Files, GetInode;
    OkParts(fs);
    IputPuts(fs, k);
    var fs' := Iput(fs, k);
    assert Files(fs') == Files(fs);
    forall j | 0 <= j < |fs'.cache| ensures SameEntry(fs0.cache, fs'.cache, j) {
      if j != k { assert SameEntry(fs0.cache, fs.cache, j); }
    }
  }

  // ---------------------------------------------------------------- the walk

  /** Inode `j` is one that following `parts` from inode `i` reaches. */
  ghost predicate OnTrail(v: Vol, i: nat, parts: seq<seq<byte>>, j: nat)
    requires DirsOk(v) && i < |v.ino|
    decreases |parts|
  {
    j == i || (parts != [] && v.ino[i].kind == T_DIR &&
               var n := NameIn(v, i, parts[0]); n.Some? && OnTrail(v, n.value, parts[1..], j))
  }

  /** What following `parts` from inode `i` must come to. */
  ghost predicate Outcome(fs0: Fs, r: Result, i: nat, parts: seq<seq<byte>>)
    requires GeoOk(fs0.disk) && DirsOk(Files(fs0)) && i < Inodes(fs0.disk)
  {
    var v := Files(fs0);
    match r
    case Found(fs', k) => k < |fs'.cache| && Held(fs0, fs', k, fs'.cache[k].inum) && Walk(v, i, parts) == Some(fs'.cache[k].inum)
    case NotFound(fs') => Restored(fs0, fs') && Walk(v, i, parts) == None
    case MustSleep => exists j :: 0 <= j < |v.ino| && OnTrail(v, i, parts, j) && Busy(fs0, j)
    case TableFull => TableUsed(fs0)
    case Broken => false
  }

  lemma HeldParts(fs0: Fs, fs: Fs, k: nat, i: nat)
    requires GeoOk(fs0.disk) && Held(fs0, fs, k, i)
    ensures FsOk(fs) && fs.disk == fs0.disk && k < |fs.cache| && fs.cache[k].count > 0 && fs.cache[k].inum == i
    ensures i < Inodes(fs0.disk) && fs.cache[k].d == Files(fs0).ino[i] && Files(fs0).disk == fs0.disk
  {}

  lemma OutcomeSteps(fs0: Fs, r: Result, i: nat, parts: seq<seq<byte>>, j: nat)
    requires GeoOk(fs0.disk) && DirsOk(Files(fs0)) && i < Inodes(fs0.disk) && parts != [] && Files(fs0).ino[i].kind == T_DIR
    requires j < Inodes(fs0.disk) && NameIn(Files(fs0), i, parts[0]) == Some(j) && Outcome(fs0, r, j, parts[1..])
    ensures Outcome(fs0, r, i, parts)
  {
    hide GeoOk, DirsOk, Files, Held, Restored, NameIn, TableUsed;
    if r.MustSleep? {
      var v := Files(fs0);
      var x :| 0 <= x < |v.ino| && OnTrail(v, j, parts[1..], x) && Busy(fs0, x);
      assert OnTrail(v, i, parts, x);
    }
  }

  lemma {:induction false} FromResolves(fs0: Fs, fs: Fs, k: nat, i: nat, q: seq<byte>)
    requires GeoOk(fs0.disk) && DirsOk(Files(fs0)) && Held(fs0, fs, k, i) && i < Inodes(fs0.disk)
    ensures Outcome(fs0, From(fs, k, q), i, Split(q))
    decreases |q|
  {
    hide GeoOk, DirsOk, DirOk, Files, Held, Restored, NameIn, Readable, SlotAt, Slots, FsOk, Enter, Busy, OnTrail, TableUsed;
    HeldParts(fs0, fs, k, i);
    var v, r := Files(fs0), Skip(q);
    if r != [] {
      PutRestores(fs0, fs, k, i);
      if v.ino[i].kind == T_DIR {
        DirAt(v, i);
        ScanFindsName(v, i, Comp(r));
        var j := NameIn(v, i, Comp(r));
        if j.Some? {
          assert InodeSector(j.value) < |fs.disk| by { SectorOnDisk(fs0.disk, j.value); }
          EnterHolds(fs0, Iput(fs, k), j.value);
          var g := Enter(Iput(fs, k), j.value);
          if g.Found? {
            FromResolves(fs0, g.fs, g.k, j.value, r[|Comp(r)|..]);
            OutcomeSteps(fs0, From(fs, k, q), i, Split(q), j.value);
          } else {
            StoppedAt(fs0, g, j.value, Split(q)[1..]);
            OutcomeSteps(fs0, g, i, Split(q), j.value);
          }
        }
      }
    }
  }

  lemma DirAt(v: Vol, i: nat)
    requires DirsOk(v) && i < |v.ino| && v.ino[i].kind == T_DIR
    ensures DirOk(v, i)
  {}

  lemma SectorOnDisk(d: Disk, i: nat)
    requires GeoOk(d) && i < Inodes(d)
    ensures InodeSector(i) < |d|
  {}

  lemma StoppedAt(fs0: Fs, g: Result, j: nat, parts: seq<seq<byte>>)
    requires GeoOk(fs0.disk) && DirsOk(Files(fs0)) && j < Inodes(fs0.disk)
    requires (g.MustSleep? && Busy(fs0, j)) || (g.TableFull? && TableUsed(fs0))
    ensures Outcome(fs0, g, j, parts)
  {
    hide GeoOk, DirsOk, Files, NameIn;
    assert OnTrail(Files(fs0), j, parts, j);
  }

  /**
   * namei refines path resolution: the path split on '/', empty parts dropped, each part looked up in the
   * content of the directory reached so far. On success there is one more reference, to the inode found,
   * and none to any other; on failure every reference is as before. It sleeps only on a busy inode that the
   * path reaches, and panics only when every entry of the table is in use.
   */
  lemma NameiResolves(fs: Fs, path: seq<byte>)
    requires FsOk(fs) && GeoOk(fs.disk) && DirsOk(Files(fs))
    ensures 2 < |fs.disk| && Outcome(fs, Namei(fs, path), 1, Parts(path))
  {
    hide FsOk, DirsOk, Files, Held, Restored, NameIn, TableUsed, Busy, Enter;
    RestoredNow(fs);
    SplitIsParts(path);
    EnterHolds(fs, fs, 1);
    var g := Enter(fs, 1);
    if g.Found? {
      FromResolves(fs, g.fs, g.k, 1, path);
    } else {
      StoppedAt(fs, g, 1, Parts(path));
    }
  }
}
