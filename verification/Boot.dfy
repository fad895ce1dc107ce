/** The kernel's file system on an image that mkfs made: the two programs agree on the layout. */
module Boot {
  import opened Options
  import opened Bytes
  import opened Layout
  import opened Bitmap
  import opened Volume
  import opened Balloc
  import opened Kfs
  import opened Directory
  import opened PathWalk
  import opened Creation
  import A = Append
  import M = Mkfs

  const NINODE := 100

  /** The disk and the zeroed inode table. */
  function Booted(d: Disk): Fs { Fs(d, seq(NINODE, _ => MemInode(0, 0, false, M.ZeroInode()))) }

  lemma ImageParts(d: Disk, free: u32, fs: seq<M.File>)
    requires M.Image(d, free, fs)
    ensures |d| == 2048 && SuperSize(d[1]) == 2048 && SuperInodes(d[1]) == 100 && 37 <= free <= 2048
    ensures forall b :: 0 <= b < 2048 ==> (Marked(d, 100, b) <==> b < free)
    ensures A.Good(M.VolOf(d), 37, free) && A.AllTight(M.VolOf(d))
  { M.HoldsBounds(M.Img(d, free, free, |fs| + 2), fs); }

  /** File `k` given to mkfs is inode k + 2, inode 1 the root directory, and no other inode is in use. */
  ghost predicate Shows(v: Vol, fs: seq<M.File>)
  {
    && |v.ino| == 100 && M.Named(fs)
    && v.ino[0].kind == 0 && v.ino[1].kind == T_DIR && Filled(v, 1) && Content(v, 1) == M.RootBytes(fs)
    && (forall i :: 2 <= i < |fs| + 2 ==> v.ino[i].kind == T_FILE && Filled(v, i) && Content(v, i) == fs[i - 2].data)
    && (forall i :: |fs| + 2 <= i < 100 ==> v.ino[i].kind == 0)
  }

  lemma ImageInode(m: M.Img, i: nat)
    requires M.ImgOk(m) && i < 100
    ensures var v := M.VolOf(m.disk); v.ino[i] == M.InodeOf(m, i) && Filled(v, i) && Content(v, i) == M.FileBytes(m, i)
  {}

  lemma ImageFiles(d: Disk, free: u32, fs: seq<M.File>)
    requires M.Image(d, free, fs)
    ensures |d| == 2048 && Shows(M.VolOf(d), fs)
  {
    var m := M.Img(d, free, free, |fs| + 2);
    hide M.ImgOk, M.InodeOf, M.FileBytes, M.VolOf, Filled, Content, M.RootBytes;
    ImageSize(m);
    forall i | 0 <= i < 100
      ensures var v := M.VolOf(d); v.ino[i] == M.InodeOf(m, i) && Filled(v, i) && Content(v, i) == M.FileBytes(m, i)
    {
      ImageInode(m, i);
    }
  }

  lemma ImageSize(m: M.Img)
    requires M.ImgOk(m)
    ensures |M.VolOf(m.disk).ino| == 100
  {}

  lemma BootGeo(d: Disk, free: u32, fs: seq<M.File>)
    requires M.Image(d, free, fs)
    ensures GeoOk(d) && Inodes(d) == 100 && DataStart(d) == 37 && Files(Booted(d)) == M.VolOf(d)
  {
    hide M.Holds;
    ImageParts(d, free, fs);
    var f := Booted(d);
    forall i | 0 <= i < 100 ensures Eff(f, i) == GetInode(d, i) {}
    assert Files(f).ino == M.Table(d);
  }

  lemma BootOk(d: Disk, free: u32, fs: seq<M.File>)
    requires M.Image(d, free, fs)
    ensures FsOk(Booted(d))
  {
    hide M.Image, M.VolOf, GetInode, Marked, Ref;
    BootGeo(d, free, fs);
    ImageParts(d, free, fs);
    var f, v := Booted(d), M.VolOf(d);
    assert AllMarked(f) by {
      forall s | Exists(v, s) && Ref(v, s) != 0 ensures Ref(v, s) < |d| && InUse(d, Ref(v, s)) {}
    }
  }

  // ---------------------------------------------------------------- the root directory

  /** "." and ".." name inode 1, the other entries the files in order. */
  ghost predicate RootList(es: seq<Entry>, fs: seq<M.File>)
    requires M.Named(fs)
  {
    && |es| == |fs| + 2 && es[0] == Entry(1, NameField(M.Dot())) && es[1] == Entry(1, NameField(M.DotDot()))
    && forall k :: 2 <= k < |es| ==> fs[k - 2] in fs && es[k] == Entry(k, NameField(fs[k - 2].name))
  }

  lemma DotEntries()
    ensures EntriesOf(DirentBytes(1, M.Dot()) + DirentBytes(1, M.DotDot()))
         == [Entry(1, NameField(M.Dot())), Entry(1, NameField(M.DotDot()))]
  {
    EntriesAppend([], 1, M.Dot());
    assert [] + DirentBytes(1, M.Dot()) == DirentBytes(1, M.Dot());
    EntriesAppend(DirentBytes(1, M.Dot()), 1, M.DotDot());
  }

  lemma RootListGrows(es: seq<Entry>, fs: seq<M.File>, f: M.File)
    requires M.Named(fs) && M.Named(fs + [f]) && |f.name| <= 13 && RootList(es, fs)
    ensures RootList(es + [Entry(|fs| + 2, NameField(f.name))], fs + [f])
  {
    hide NameField;
    var gs, es' := fs + [f], es + [Entry(|fs| + 2, NameField(f.name))];
    forall k | 2 <= k < |es'| ensures gs[k - 2] in gs && es'[k] == Entry(k, NameField(gs[k - 2].name)) {
      if k < |es| { assert es'[k] == es[k] && gs[k - 2] == fs[k - 2]; }
    }
  }

  lemma {:induction false} RootEntries(fs: seq<M.File>)
    requires M.Named(fs)
    ensures RootList(EntriesOf(M.RootBytes(fs)), fs)
    decreases |fs|
  {
    hide EntriesOf, NameField, DirentBytes, RootList;
    M.RootSize(fs);
    if fs == [] {
      DotEntries();
      DotList();
    } else {
      var gs, f := fs[..|fs| - 1], fs[|fs| - 1];
      assert forall g :: g in gs ==> g in fs;
      assert f in fs && fs == gs + [f];
      M.RootSize(gs);
      RootEntries(gs);
      EntriesAppend(M.RootBytes(gs), |fs| + 1, f.name);
      RootListGrows(EntriesOf(M.RootBytes(gs)), gs, f);
    }
  }

  lemma DotList()
    ensures RootList([Entry(1, NameField(M.Dot())), Entry(1, NameField(M.DotDot()))], [])
  {}

  lemma TightRoot(v: Vol)
    requires A.AllTight(v) && |v.ino| == 100
    ensures forall f :: 0 <= f < 31 ==> ZeroTail(v, 1, f)
  { assert A.Tight(v, 1); }

  lemma BootDir(d: Disk, free: u32, fs: seq<M.File>)
    requires M.Image(d, free, fs)
    ensures |d| == 2048 && |M.VolOf(d).ino| == 100 && DirOk(M.VolOf(d), 1)
  {
    hide M.Image, M.VolOf, GetInode, A.Good, A.AllTight, Filled, Content, EntriesOf, M.RootBytes, ZeroTail;
    ImageParts(d, free, fs);
    ImageFiles(d, free, fs);
    RootEntries(fs);
    M.RootSize(fs);
    var v := M.VolOf(d);
    TightRoot(v);
    var es := EntriesOf(Content(v, 1));
    forall en | en in es ensures 0 < en.inum < |v.ino| && v.ino[en.inum].kind != 0 {
      var k :| 0 <= k < |es| && es[k] == en;
    }
  }

  /** The kernel starts with every invariant of the file system: an image needs no repair. */
  lemma BootTree(d: Disk, free: u32, fs: seq<M.File>)
    requires M.Image(d, free, fs)
    ensures TreeOk(Booted(d)) && GeoOk(d) && Files(Booted(d)) == M.VolOf(d)
  {
    hide M.Image, M.VolOf, GetInode, FsOk, DirOk, Filled, Content, M.RootBytes;
    BootOk(d, free, fs);
    BootGeo(d, free, fs);
    BootDir(d, free, fs);
    ImageFiles(d, free, fs);
    var v := M.VolOf(d);
    forall i | 0 <= i < |v.ino| && v.ino[i].kind == T_DIR ensures DirOk(v, i) { assert i == 1; }
  }

  // ---------------------------------------------------------------- the names

  /** The first file from `k` on with the name. */
  function FirstNamed(fs: seq<M.File>, x: seq<byte>, k: nat): (r: nat)
    requires k <= |fs|
    ensures k <= r <= |fs| && (r < |fs| ==> fs[r].name == x) && forall j :: k <= j < r ==> fs[j].name != x
    decreases |fs| - k
  { if k == |fs| || fs[k].name == x then k else FirstNamed(fs, x, k + 1) }

  lemma RootNames(fs: seq<M.File>, x: seq<byte>)
    requires M.Named(fs) && forall f :: f in fs ==> 0 !in f.name
    requires x != M.Dot() && x != M.DotDot()
    ensures LookupIn(EntriesOf(M.RootBytes(fs)), x)
         == if FirstNamed(fs, x, 0) < |fs| then Some(FirstNamed(fs, x, 0) + 2) else None
  {
    hide M.RootBytes, EntriesOf, NameField, NameOf;
    RootEntries(fs);
    var es := EntriesOf(M.RootBytes(fs));
    NameRoundTrip(M.Dot());
    NameRoundTrip(M.DotDot());
    forall k | 2 <= k < |es| ensures Hit(es[k], x) <==> fs[k - 2].name == x {
      assert fs[k - 2] in fs && es[k] == Entry(k, NameField(fs[k - 2].name));
      NameRoundTrip(fs[k - 2].name);
    }
    var r, e := FirstNamed(fs, x, 0), IndexOf(es, x, 0);
    assert r < |fs| ==> Hit(es[r + 2], x);
    assert 2 <= e < |es| ==> Hit(es[e], x) && fs[e - 2].name == x;
  }

  /**
   * A path with one part resolves, on the booted kernel, to the inode of the first file of that name given
   * to mkfs, and that inode holds the bytes of that file; a name mkfs was not given does not resolve.
   */
  lemma BootFindsFiles(d: Disk, free: u32, fs: seq<M.File>, path: seq<byte>, x: seq<byte>)
    requires M.Image(d, free, fs) && (forall f :: f in fs ==> 0 !in f.name)
    requires Parts(path) == [x] && x != M.Dot() && x != M.DotDot()
    ensures GeoOk(d) && DirsOk(Files(Booted(d)))
    ensures var v := Files(Booted(d)); var r := FirstNamed(fs, x, 0);
      && Walk(v, 1, Parts(path)) == (if r < |fs| then Some(r + 2) else None)
      && (r < |fs| ==> r + 2 < |v.ino| && v.ino[r + 2].kind == T_FILE && Filled(v, r + 2) && Content(v, r + 2) == fs[r].data)
  {
    hide M.Image, M.VolOf, GetInode, FsOk, DirOk, Filled, Content, EntriesOf, LookupIn, M.RootBytes, Parts, Files;
    BootTree(d, free, fs);
    ImageFiles(d, free, fs);
    var v, r := M.VolOf(d), FirstNamed(fs, x, 0);
    DirAt(v, 1);
    RootNames(fs, x);
    assert NameIn(v, 1, x) == if r < |fs| then Some(r + 2) else None;
    assert Walk(v, 1, [x]) == if r < |fs| then Walk(v, r + 2, []) else None;
  }
}
