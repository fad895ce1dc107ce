/**
 * mkfs/mkfs.c: the image builder. The image has 2048 sectors: superblock in sector 1, a hundred
 * inodes in sectors 2 to 35, the bitmap in sector 36, data from sector 37.
 */
module Mkfs {
  import opened Options
  import opened Bytes
  import opened Layout
  import opened Volume
  import opened Bitmap
  import opened Append

  /** The image and the global counters freeblock, usedblocks and freeinode. */
  datatype Img = Img(disk: Disk, free: u32, used: u32, nextIno: nat)

  function EmptyInode(kind: u16): Dinode { Dinode(kind, 0, 0, 1, 0, seq(32, _ => 0)) }

  /** ialloc */
  function Ialloc(m: Img, kind: u16): Img
    requires InodeSector(m.nextIno) < |m.disk|
  { m.(disk := PutInode(m.disk, m.nextIno, EmptyInode(kind)), nextIno := m.nextIno + 1) }

  /** iappend; None is exit(1) or a failed assertion. */
  function Iappend(m: Img, i: nat, p: seq<byte>): Option<Img>
    requires InodeSector(i) < |m.disk|
  {
    var din := GetInode(m.disk, i);
    var r := AppendLoop(Build(m.disk, din, m.free, m.used), din.size, p);
    if r.None? || r.value.1 >= 0x1_0000_0000 || |r.value.0.disk| <= InodeSector(i) then None
    else
      var b := r.value.0;
      Some(m.(disk := PutInode(b.disk, i, b.din.(size := r.value.1)), free := b.free, used := b.used))
  }

  // ---------------------------------------------------------------- the image invariant

  /** The inodes on disk. */
  function Table(d: Disk): (t: seq<Dinode>)
    requires 36 <= |d|
    ensures |t| == 100
  { seq(100, i requires 0 <= i < 100 => GetInode(d, i)) }

  function VolOf(d: Disk): Vol
    requires 36 <= |d|
  { Vol(d, Table(d)) }

  /** A well-formed image: 37 is the first data sector, and the counters agree. */
  ghost predicate ImgOk(m: Img)
  {
    && 37 <= m.free == m.used && 37 <= |m.disk|
    && Good(VolOf(m.disk), 37, m.free) && AllTight(VolOf(m.disk))
  }

  lemma TableAfterPut(d: Disk, i: nat, n: Dinode)
    requires 36 <= |d| && i < 100
    ensures Table(PutInode(d, i, n)) == Table(d)[i := n]
  {
    forall j | 0 <= j < 100 ensures Table(PutInode(d, i, n))[j] == Table(d)[i := n][j] { PutInodeGets(d, i, n, j); }
  }

  lemma TableFrame(d: Disk, d': Disk)
    requires 37 <= |d| && SameBelow(d, d', 37)
    ensures Table(d') == Table(d)
  {
    forall j | 0 <= j < 100 ensures GetInode(d', j) == GetInode(d, j) { assert InodeSector(j) < 37; }
  }

  lemma MetadataGood(v: Vol, lo: nat, free: nat, c: nat, s: Sector)
    requires Good(v, lo, free) && 0 < c < lo <= free && c < |v.disk|
    ensures var v' := v.(disk := v.disk[c := s]); Good(v', lo, free) && SameFiles(v, v') && SameRefs(v, v')
  {
    var v' := v.(disk := v.disk[c := s]);
    MetadataWrite(v, lo, free, c, s);
    forall j | 0 <= j < |v.ino| ensures Filled(v', j) && Content(v', j) == Content(v, j) {
      MetadataContent(v, lo, free, c, s, j);
    }
  }

  lemma TightFrame(v: Vol, v': Vol, free: nat)
    requires AllTight(v) && SameRefs(v, v') && forall j :: 0 <= j < |v.ino| ==> v'.ino[j].size == v.ino[j].size
    requires Good(v, 37, free) && |v'.disk| == |v.disk| && forall c :: 37 <= c < |v.disk| ==> v'.disk[c] == v.disk[c]
    ensures AllTight(v')
  {
    forall j | 0 <= j < |v.ino| ensures Tight(v', j) {
      assert Exists(v, Ind(j)) && Tight(v, j);
      forall f | 0 <= f < 159 ensures BlockOf(v', j, f) == BlockOf(v, j, f) && ZeroTail(v', j, f) {
        assert Exists(v, SlotOf(j, f)) && ZeroTail(v, j, f);
      }
    }
  }

  // ---------------------------------------------------------------- iappend on the image

  /** What iappend does to the files of the image. */
  ghost predicate AppendedTo(m: Img, m': Img, i: nat, p: seq<byte>)
    requires i < 100 && ImgOk(m)
  {
    && ImgOk(m') && |m'.disk| == |m.disk| && m'.nextIno == m.nextIno
    && Longer(VolOf(m.disk), VolOf(m'.disk), i, p)
    && (forall j :: 0 <= j < 100 && j != i ==> GetInode(m'.disk, j) == GetInode(m.disk, j))
    && GetInode(m'.disk, i).kind == GetInode(m.disk, i).kind
    && m'.disk[1] == m.disk[1]
  }

  lemma RoundKeepsHeader(b: Build, off: nat, p: seq<byte>)
    ensures Round(b, off, p).Some? ==> Round(b, off, p).value.din.(addrs := b.din.addrs) == b.din
  {}

  lemma {:induction false} LoopKeepsHeader(b: Build, off: nat, p: seq<byte>)
    ensures AppendLoop(b, off, p).Some? ==> AppendLoop(b, off, p).value.0.din.(addrs := b.din.addrs) == b.din
    decreases |p|
  {
    hide Round;
    if p != [] && Round(b, off, p).Some? {
      RoundKeepsHeader(b, off, p);
      LoopKeepsHeader(Round(b, off, p).value, off + Chunk(off, p), p[Chunk(off, p)..]);
    }
  }

  lemma PutAfterLoop(d: Disk, d': Disk, i: nat, din: Dinode, free: nat)
    requires 37 <= |d| && 37 <= free && SameBelow(d, d', 37) && i < 100
    requires var v' := Vol(d', Table(d)[i := din]); Good(v', 37, free) && AllTight(v')
    ensures var v', w := Vol(d', Table(d)[i := din]), VolOf(PutInode(d', i, din));
      && Good(w, 37, free) && AllTight(w) && SameFiles(v', w)
  {
    var v' := Vol(d', Table(d)[i := din]);
    var c := InodeSector(i);
    var s: Sector := Splice(d'[c], InodeOffset(i), DinodeBytes(din));
    TableFrame(d, d');
    TableAfterPut(d', i, din);
    assert VolOf(PutInode(d', i, din)) == v'.(disk := v'.disk[c := s]);
    MetadataGood(v', 37, free, c, s);
    TightFrame(v', v'.(disk := v'.disk[c := s]), free);
  }

  lemma LongerSame(v: Vol, v1: Vol, v2: Vol, i: nat, p: seq<byte>)
    requires i < |v.ino| && Longer(v, v1, i, p) && SameFiles(v1, v2)
    ensures Longer(v, v2, i, p)
  {
    hide Content, Filled;
    assert Content(v2, i) == Content(v1, i);
    forall j | 0 <= j < |v.ino| && j != i ensures Content(v2, j) == Content(v, j) {
      assert Content(v2, j) == Content(v1, j);
    }
  }

  /** Appending `data` in one piece or in chunks: when it succeeds and what it does. */
  ghost predicate Outcome(m: Img, r: Option<Img>, i: nat, data: seq<byte>)
    requires ImgOk(m) && i < 100
  {
    var size := GetInode(m.disk, i).size;
    && (r.Some? <==> size + |data| <= 159 * 512 && m.free + Blocks(size + |data|) - Blocks(size) <= |m.disk|)
    && (r.Some? ==> AppendedTo(m, r.value, i, data) && r.value.free == m.free + Blocks(size + |data|) - Blocks(size))
  }

  /** The volume after the loop, before the inode is written back. */
  ghost predicate LoopDone(m: Img, b': Build, n: Dinode, i: nat, p: seq<byte>)
    requires 37 <= |m.disk| && i < 100
  {
    var v' := Vol(b'.disk, Table(m.disk)[i := n]);
    && Good(v', 37, b'.free) && AllTight(v') && Longer(VolOf(m.disk), v', i, p)
    && SameBelow(m.disk, b'.disk, 37) && 37 <= b'.free == b'.used
  }

  lemma ViewAtRest(m: Img, i: nat)
    requires 36 <= |m.disk| && i < 100
    ensures var din := GetInode(m.disk, i);
      View(Build(m.disk, din, m.free, m.used), Table(m.disk), i, din.size) == VolOf(m.disk)
  {
    var table := Table(m.disk);
    assert table[i := table[i].(size := table[i].size)] == table;
  }

  lemma AtRest(m: Img, i: nat)
    requires ImgOk(m) && i < 100
    ensures 37 <= |m.disk| && 37 <= m.free == m.used <= |m.disk| && GetInode(m.disk, i).size <= 159 * 512
    ensures var din := GetInode(m.disk, i); var v := View(Build(m.disk, din, m.free, m.used), Table(m.disk), i, din.size);
      Good(v, 37, m.free) && AllTight(v)
  {
    ViewAtRest(m, i);
    assert Filled(VolOf(m.disk), i);
  }

  lemma FromAppended(m: Img, b': Build, i: nat, p: seq<byte>)
    requires ImgOk(m) && i < 100
    requires var din := GetInode(m.disk, i); var b := Build(m.disk, din, m.free, m.used);
      && din.size + |p| <= 159 * 512
      && Appended(b, b', Table(m.disk), i, din.size, din.size + |p|, p, 37)
      && AllTight(View(b', Table(m.disk), i, din.size + |p|))
    ensures LoopDone(m, b', b'.din.(size := GetInode(m.disk, i).size + |p|), i, p)
  {
    hide Good, AllTight, Longer, SameBelow, GetInode, Table, VolOf, ImgOk, Filled, Content;
    AtRest(m, i);
    ViewAtRest(m, i);
    var din := GetInode(m.disk, i);
    GoodBound(View(b', Table(m.disk), i, din.size + |p|), 37, b'.free);
  }

  lemma IappendIs(m: Img, i: nat, p: seq<byte>)
    requires 37 <= |m.disk| && i < 100
    requires var din := GetInode(m.disk, i); var r := LoopOn(m, i, p);
      r.Some? && r.value.1 == din.size + |p| <= 159 * 512 && |r.value.0.disk| == |m.disk|
    ensures var din := GetInode(m.disk, i); var b' := LoopOn(m, i, p).value.0;
      Iappend(m, i, p) == Some(m.(disk := PutInode(b'.disk, i, b'.din.(size := din.size + |p|)), free := b'.free, used := b'.used))
  {
    hide AppendLoop, GetInode;
  }

  lemma WriteBack(m: Img, b': Build, n: Dinode, i: nat, p: seq<byte>)
    requires ImgOk(m) && i < 100 && LoopDone(m, b', n, i, p) && n.kind == GetInode(m.disk, i).kind
    requires |b'.disk| == |m.disk| && b'.disk[1] == m.disk[1]
    ensures AppendedTo(m, m.(disk := PutInode(b'.disk, i, n), free := b'.free, used := b'.used), i, p)
  {
    hide Good, AllTight, Longer, SameBelow, SameFiles, GetInode, PutInode;
    PutAfterLoop(m.disk, b'.disk, i, n, b'.free);
    LongerSame(VolOf(m.disk), Vol(b'.disk, Table(m.disk)[i := n]), VolOf(PutInode(b'.disk, i, n)), i, p);
    OtherInodes(m.disk, b'.disk, i, n);
  }

  /** The loop of iappend run on the image. */
  function LoopOn(m: Img, i: nat, p: seq<byte>): Option<(Build, nat)>
    requires InodeSector(i) < |m.disk|
  { var din := GetInode(m.disk, i); AppendLoop(Build(m.disk, din, m.free, m.used), din.size, p) }

  lemma LoopOutcome(m: Img, i: nat, p: seq<byte>)
    requires ImgOk(m) && i < 100 && 37 <= |m.disk|
    ensures var r := LoopOn(m, i, p); var size := GetInode(m.disk, i).size;
      && (r.Some? <==> size + |p| <= 159 * 512 && m.free + Blocks(size + |p|) - Blocks(size) <= |m.disk|)
      && (r.Some? ==>
            var b' := r.value.0;
            && r.value.1 == size + |p| <= 159 * 512
            && LoopDone(m, b', b'.din.(size := size + |p|), i, p)
            && b'.free == m.free + Blocks(size + |p|) - Blocks(size)
            && b'.din.kind == GetInode(m.disk, i).kind)
  {
    hide AppendLoop, Good, AllTight, Blocks, Table, GetInode, LoopDone, Appended, ImgOk, View;
    var din := GetInode(m.disk, i);
    var b := Build(m.disk, din, m.free, m.used);
    AtRest(m, i);
    AppendLoopAppends(b, Table(m.disk), i, din.size, 37, p);
    LoopKeepsHeader(b, din.size, p);
    if AppendLoop(b, din.size, p).Some? { FromAppended(m, AppendLoop(b, din.size, p).value.0, i, p); }
  }

  /**
   * iappend on a well-formed image: it succeeds exactly when the file stays addressable and the image
   * has enough sectors left; the file then has the bytes at its end and nothing else has changed.
   */
  lemma IappendAppends(m: Img, i: nat, p: seq<byte>)
    requires ImgOk(m) && i < 100
    ensures 37 <= |m.disk| && Outcome(m, Iappend(m, i, p), i, p)
  {
    hide ImgOk, LoopDone, AppendedTo, GetInode, Blocks, PutInode, AppendLoop;
    AtRest(m, i);
    LoopOutcome(m, i, p);
    var r, size := LoopOn(m, i, p), GetInode(m.disk, i).size;
    if r.Some? {
      var b' := r.value.0;
      DoneFrame(m, b', b'.din.(size := size + |p|), i, p);
      IappendIs(m, i, p);
      WriteBack(m, b', b'.din.(size := size + |p|), i, p);
    }
  }

  lemma DoneFrame(m: Img, b': Build, n: Dinode, i: nat, p: seq<byte>)
    requires 37 <= |m.disk| && i < 100 && LoopDone(m, b', n, i, p)
    ensures |b'.disk| == |m.disk| && b'.disk[1] == m.disk[1]
  {}

  lemma GoodBound(v: Vol, lo: nat, free: nat)
    requires Good(v, lo, free)
    ensures free <= |v.disk| < 0x1_0000_0000
  {}

  lemma OtherInodes(d: Disk, d': Disk, i: nat, n: Dinode)
    requires 37 <= |d| && SameBelow(d, d', 37) && i < 100
    ensures var d2 := PutInode(d', i, n);
      && |d2| == |d| && d2[1] == d'[1] && GetInode(d2, i) == n
      && forall j :: 0 <= j < 100 && j != i ==> GetInode(d2, j) == GetInode(d, j)
  {
    PutInodeGets(d', i, n, i);
    forall j | 0 <= j < 100 && j != i ensures GetInode(PutInode(d', i, n), j) == GetInode(d, j) {
      PutInodeGets(d', i, n, j);
      assert InodeSector(j) < 37;
    }
  }

  // ---------------------------------------------------------------- main

  /** A file given to mkfs: its base name and its bytes. */
  datatype File = File(name: seq<byte>, data: seq<byte>)

  function Dot(): seq<byte> { [46] }
  function DotDot(): seq<byte> { [46, 46] }

  /** The zeroed image with its superblock; freeblock is ninodes/IPB + 3 + bitblocks. */
  function Format(): Img
  { Img(seq(2048, _ => ZeroSector())[1 := Splice(ZeroSector(), 0, SuperBytes(2048, 2011, 100))], 37, 37, 1) }

  /** The read loop of main: the file is appended in chunks of at most 512 bytes. */
  function AddChunks(m: Img, i: nat, data: seq<byte>): Option<Img>
    requires InodeSector(i) < |m.disk|
    decreases |data|
  {
    if data == [] then Some(m)
    else
      var n := Min(|data|, 512);
      var r := Iappend(m, i, data[..n]);
      if r.None? || |r.value.disk| <= InodeSector(i) then None else AddChunks(r.value, i, data[n..])
  }

  /** ialloc, the directory entry and the bytes; strcpy needs a name of at most 13 bytes. */
  function AddFile(m: Img, f: File): Option<Img>
    requires |f.name| <= 13 && InodeSector(m.nextIno) < |m.disk| && m.nextIno < 0x1_0000
  {
    var m1 := Ialloc(m, T_FILE);
    var r := Iappend(m1, 1, DirentBytes(m.nextIno, f.name));
    if r.None? || |r.value.disk| <= InodeSector(m.nextIno) then None else AddChunks(r.value, m.nextIno, f.data)
  }

  function AddFiles(m: Img, fs: seq<File>): Option<Img>
    requires forall f :: f in fs ==> |f.name| <= 13
    decreases |fs|
  {
    if fs == [] then Some(m)
    else if m.nextIno >= 0x1_0000 || |m.disk| <= InodeSector(m.nextIno) then None
    else
      var r := AddFile(m, fs[0]);
      if r.None? then None else AddFiles(r.value, fs[1..])
  }

  /** The sector written by balloc: the first `used` bits set. */
  function UsedBits(used: nat): Sector
    requires used <= 4096
  { if used == 0 then ZeroSector() else SetSectorBit(UsedBits(used - 1), used - 1) }

  /** The root directory with its two entries. */
  function MakeRoot(): Option<Img>
  {
    var m1 := Ialloc(Format(), T_DIR);
    var r1 := Iappend(m1, 1, DirentBytes(1, Dot()));
    if r1.None? || |r1.value.disk| < 3 then None else Iappend(r1.value, 1, DirentBytes(1, DotDot()))
  }

  function Make(fs: seq<File>): Option<Disk>
    requires forall f :: f in fs ==> |f.name| <= 13
  {
    var r := MakeRoot();
    if r.None? then None
    else
      var t := AddFiles(r.value, fs);
      if t.None? || 4096 < t.value.used || |t.value.disk| < 37 then None
      else Some(t.value.disk[36 := UsedBits(t.value.used)])
  }

  // ---------------------------------------------------------------- what the image holds

  function ZeroInode(): Dinode { Dinode(0, 0, 0, 0, 0, seq(32, _ => 0)) }

  function RootBytes(fs: seq<File>): seq<byte>
    requires |fs| <= 98 && forall f :: f in fs ==> |f.name| <= 13
    decreases |fs|
  {
    if fs == [] then DirentBytes(1, Dot()) + DirentBytes(1, DotDot())
    else
      assert forall f :: f in fs[..|fs| - 1] ==> f in fs;
      assert fs[|fs| - 1] in fs;
      RootBytes(fs[..|fs| - 1]) + DirentBytes(|fs| + 1, fs[|fs| - 1].name)
  }

  function DataBlocks(fs: seq<File>): nat
    decreases |fs|
  { if fs == [] then 0 else DataBlocks(fs[..|fs| - 1]) + Blocks(|fs[|fs| - 1].data|) }

  ghost function FileBytes(m: Img, i: nat): seq<byte>
    requires ImgOk(m) && i < 100
  { assert Filled(VolOf(m.disk), i); Content(VolOf(m.disk), i) }

  ghost function InodeOf(m: Img, i: nat): Dinode
    requires ImgOk(m) && i < 100
  { GetInode(m.disk, i) }

  ghost predicate FilesHeld(m: Img, fs: seq<File>)
    requires ImgOk(m) && |fs| <= 98
  {
    forall i :: 2 <= i < |fs| + 2 ==> InodeOf(m, i).kind == T_FILE && FileBytes(m, i) == fs[i - 2].data
  }

  ghost predicate FreeInodes(m: Img, n: nat)
    requires ImgOk(m)
  { InodeOf(m, 0) == ZeroInode() && forall i :: n <= i < 100 ==> InodeOf(m, i) == ZeroInode() }

  ghost predicate Named(fs: seq<File>) { |fs| <= 98 && forall f :: f in fs ==> |f.name| <= 13 }

  /** The image so far holds exactly the files `fs`: inode k + 2 is file k, inode 1 the root directory. */
  ghost predicate Holds(m: Img, fs: seq<File>)
  {
    && Named(fs) && ImgOk(m) && |m.disk| == 2048 && m.nextIno == |fs| + 2
    && SuperSize(m.disk[1]) == 2048 && SuperInodes(m.disk[1]) == 100
    && FilesHeld(m, fs)
    && InodeOf(m, 1).kind == T_DIR && FileBytes(m, 1) == RootBytes(fs)
    && FreeInodes(m, |fs| + 2)
    && m.free == 37 + Blocks(32 + 16 * |fs|) + DataBlocks(fs)
  }

  /** The files are addressable and the image has room for their blocks and the root directory's. */
  predicate Fits(fs: seq<File>)
  {
    && (forall f :: f in fs ==> |f.data| <= 159 * 512)
    && 37 + Blocks(32 + 16 * |fs|) + DataBlocks(fs) <= 2048
  }

  // ---------------------------------------------------------------- proofs for main

  /** A fresh inode in a free place of the table changes no file. */
  lemma IallocKeeps(m: Img, kind: u16)
    requires ImgOk(m) && m.nextIno < 100 && GetInode(m.disk, m.nextIno) == ZeroInode()
    ensures var m' := Ialloc(m, kind); var i := m.nextIno;
      && ImgOk(m') && |m'.disk| == |m.disk| && m'.disk[1] == m.disk[1]
      && SameFiles(VolOf(m.disk), VolOf(m'.disk))
      && GetInode(m'.disk, i) == EmptyInode(kind)
      && (forall j :: 0 <= j < 100 && j != i ==> GetInode(m'.disk, j) == GetInode(m.disk, j))
  {
    var i, n := m.nextIno, EmptyInode(kind);
    var v := VolOf(m.disk);
    var v1 := Vol(m.disk, Table(m.disk)[i := n]);
    assert v.ino[i].addrs == n.addrs;
    forall t | Exists(v, t) ensures Ref(v1, t) == Ref(v, t) {}
    forall j | 0 <= j < 100 ensures Filled(v1, j) && Content(v1, j) == Content(v, j) {
      assert Filled(v, j);
      SameContent(v, v1, j);
    }
    ResizeGood(v, v1, 37, m.free);
    TightFrame(v, v1, m.free);
    PutAfterLoop(m.disk, m.disk, i, n, m.free);
    OtherInodes(m.disk, m.disk, i, n);
    SameFilesTrans(v, v1, VolOf(Ialloc(m, kind).disk));
  }

  lemma SameFilesTrans(v: Vol, v1: Vol, v2: Vol)
    requires SameFiles(v, v1) && SameFiles(v1, v2)
    ensures SameFiles(v, v2)
  {
    forall j | 0 <= j < |v.ino| ensures Content(v2, j) == Content(v, j) {
      assert Content(v2, j) == Content(v1, j);
    }
  }

  lemma AppendedToTrans(m: Img, m1: Img, m2: Img, i: nat, p: seq<byte>, q: seq<byte>)
    requires i < 100 && ImgOk(m) && AppendedTo(m, m1, i, p) && AppendedTo(m1, m2, i, q)
    ensures AppendedTo(m, m2, i, p + q)
  {
    hide ImgOk, GetInode, Content, Filled, Table;
    SizeOf(m, i);
    var v, v1, v2 := VolOf(m.disk), VolOf(m1.disk), VolOf(m2.disk);
    assert Content(v2, i) == Content(v1, i) + q && Content(v1, i) == Content(v, i) + p;
    assert Content(v, i) + p + q == Content(v, i) + (p + q);
    forall j | 0 <= j < 100 && j != i ensures Content(v2, j) == Content(v, j) {
      assert Content(v1, j) == Content(v, j);
    }
  }

  lemma OutcomeFails(m: Img, i: nat, p: seq<byte>, data: seq<byte>)
    requires ImgOk(m) && i < 100 && |p| <= |data| && Outcome(m, None, i, p)
    ensures Outcome(m, None, i, data)
  {
    assert 37 <= |m.disk|;
    hide ImgOk, GetInode, Blocks;
    var size := GetInode(m.disk, i).size;
    BlocksMonotone(size + |p|, size + |data|);
  }

  lemma OutcomeTrans(m: Img, m1: Img, r: Option<Img>, i: nat, p: seq<byte>, q: seq<byte>)
    requires ImgOk(m) && i < 100 && Outcome(m, Some(m1), i, p) && ImgOk(m1) && Outcome(m1, r, i, q)
    ensures Outcome(m, r, i, p + q)
  {
    hide ImgOk, GetInode, Blocks, AppendedTo;
    SizeOf(m, i);
    SizeAfter(m, m1, i, p);
    if r.Some? { AppendedToTrans(m, m1, r.value, i, p, q); }
  }

  lemma OutcomeNothing(m: Img, i: nat)
    requires ImgOk(m) && i < 100
    ensures Outcome(m, Some(m), i, [])
  {
    SizeOf(m, i);
    assert Content(VolOf(m.disk), i) + [] == Content(VolOf(m.disk), i);
  }

  /** The chunks of a file add up to the file; they fit exactly when the whole does. */
  lemma {:induction false} AddChunksAppends(m: Img, i: nat, data: seq<byte>)
    requires ImgOk(m) && i < 100
    ensures 37 <= |m.disk| && Outcome(m, AddChunks(m, i, data), i, data)
    decreases |data|
  {
    hide ImgOk, Outcome, Iappend;
    SizeOf(m, i);
    if data == [] {
      OutcomeNothing(m, i);
    } else {
      var n := Min(|data|, 512);
      var r := Iappend(m, i, data[..n]);
      IappendAppends(m, i, data[..n]);
      if r.None? {
        OutcomeFails(m, i, data[..n], data);
      } else {
        OutcomeGood(m, r.value, i, data[..n]);
        AddChunksAppends(r.value, i, data[n..]);
        assert data[..n] + data[n..] == data;
        OutcomeTrans(m, r.value, AddChunks(r.value, i, data[n..]), i, data[..n], data[n..]);
      }
    }
  }

  lemma OutcomeGood(m: Img, m1: Img, i: nat, p: seq<byte>)
    requires ImgOk(m) && i < 100 && Outcome(m, Some(m1), i, p)
    ensures ImgOk(m1) && |m1.disk| == |m.disk|
  {}

  lemma SizeOf(m: Img, i: nat)
    requires ImgOk(m) && i < 100
    ensures GetInode(m.disk, i).size == |Content(VolOf(m.disk), i)| <= 159 * 512
    ensures m.free <= |m.disk| && 37 <= |m.disk|
  {
    assert Filled(VolOf(m.disk), i);
  }

  lemma SizeAfter(m: Img, m1: Img, i: nat, p: seq<byte>)
    requires ImgOk(m) && i < 100 && AppendedTo(m, m1, i, p)
    ensures GetInode(m1.disk, i).size == GetInode(m.disk, i).size + |p| && |m1.disk| == |m.disk| && ImgOk(m1)
  {
    SizeOf(m, i);
    SizeOf(m1, i);
  }

  lemma {:induction false} RootSize(fs: seq<File>)
    requires Named(fs)
    ensures |RootBytes(fs)| == 32 + 16 * |fs|
    decreases |fs|
  {
    if fs != [] {
      assert forall f :: f in fs[..|fs| - 1] ==> f in fs;
      RootSize(fs[..|fs| - 1]);
    }
  }

  lemma Extended(fs: seq<File>, f: File)
    requires Named(fs) && |fs| < 98 && |f.name| <= 13
    ensures Named(fs + [f])
    ensures RootBytes(fs + [f]) == RootBytes(fs) + DirentBytes(|fs| + 2, f.name)
    ensures DataBlocks(fs + [f]) == DataBlocks(fs) + Blocks(|f.data|)
  {
    var gs := fs + [f];
    assert gs[..|gs| - 1] == fs && gs[|gs| - 1] == f;
    forall g | g in gs ensures |g.name| <= 13 { if g != f { assert g in fs; } }
  }

  /** One more file beside files that kept their inodes and bytes. */
  lemma FilesExtended(m: Img, m': Img, fs: seq<File>, f: File)
    requires ImgOk(m) && ImgOk(m') && |fs| < 98 && FilesHeld(m, fs) && FreeInodes(m, |fs| + 2)
    requires forall j :: 0 <= j < 100 && j != 1 && j != |fs| + 2 ==>
               InodeOf(m', j) == InodeOf(m, j) && FileBytes(m', j) == FileBytes(m, j)
    requires InodeOf(m', |fs| + 2).kind == T_FILE && FileBytes(m', |fs| + 2) == f.data
    ensures FilesHeld(m', fs + [f]) && FreeInodes(m', |fs| + 3)
  {
    hide ImgOk, InodeOf, FileBytes;
  }

  /** IallocKeeps and AppendedTo, said of single inodes. */
  lemma IallocStep(m: Img, kind: u16)
    requires ImgOk(m) && m.nextIno < 100 && InodeOf(m, m.nextIno) == ZeroInode()
    ensures 37 <= |m.disk|
    ensures var m' := Ialloc(m, kind); var i := m.nextIno;
      && ImgOk(m') && |m'.disk| == |m.disk| && m'.disk[1] == m.disk[1] && m'.free == m.free && m'.nextIno == i + 1
      && InodeOf(m', i) == EmptyInode(kind) && FileBytes(m', i) == []
      && (forall j :: 0 <= j < 100 && j != i ==> InodeOf(m', j) == InodeOf(m, j) && FileBytes(m', j) == FileBytes(m, j))
  {
    IallocKeeps(m, kind);
    SizeOf(Ialloc(m, kind), m.nextIno);
  }

  lemma AppendStep(m: Img, m': Img, i: nat, p: seq<byte>)
    requires ImgOk(m) && i < 100 && AppendedTo(m, m', i, p)
    ensures ImgOk(m') && |m'.disk| == |m.disk| >= 37 && m'.disk[1] == m.disk[1] && m'.nextIno == m.nextIno
    ensures InodeOf(m', i).kind == InodeOf(m, i).kind && FileBytes(m', i) == FileBytes(m, i) + p
    ensures forall j :: 0 <= j < 100 && j != i ==> InodeOf(m', j) == InodeOf(m, j) && FileBytes(m', j) == FileBytes(m, j)
  {
    SizeOf(m, i);
    hide ImgOk, GetInode, Content, Filled, Table;
    var v, v' := VolOf(m.disk), VolOf(m'.disk);
    forall j | 0 <= j < 100 && j != i ensures Content(v', j) == Content(v, j) {}
  }

  lemma BytesSize(m: Img, i: nat)
    requires ImgOk(m) && i < 100
    ensures InodeOf(m, i).size == |FileBytes(m, i)| && InodeOf(m, i) == GetInode(m.disk, i)
    ensures 37 <= |m.disk| && m.free <= |m.disk|
  {
    SizeOf(m, i);
  }

  /** One file: when it can be added, and the image that results. */
  lemma AddFileHolds(m: Img, fs: seq<File>, f: File)
    requires Holds(m, fs) && |fs| < 98 && |f.name| <= 13
    ensures m.nextIno < 100 && |m.disk| == 2048
    ensures var r := AddFile(m, f);
      && (r.Some? <==> (|f.data| <= 159 * 512
                        && m.free + Blocks(32 + 16 * (|fs| + 1)) - Blocks(32 + 16 * |fs|) + Blocks(|f.data|) <= 2048))
      && (r.Some? ==> Holds(r.value, fs + [f]))
  {
    hide ImgOk, FilesHeld, FreeInodes, InodeOf, FileBytes, GetInode, Outcome, Iappend, AddChunks, Ialloc, Blocks, AppendedTo, RootBytes, DirentBytes, DataBlocks;
    var i, m1 := m.nextIno, Ialloc(m, T_FILE);
    FirstFreeInode(m, |fs| + 2);
    IallocStep(m, T_FILE);
    var de := DirentBytes(i, f.name);
    RootSize(fs);
    BytesSize(m1, 1);
    IappendAppends(m1, 1, de);
    OutcomeSays(m1, Iappend(m1, 1, de), 1, de);
    var r2 := Iappend(m1, 1, de);
    if r2.Some? {
      var m2 := r2.value;
      AppendStep(m1, m2, 1, de);
      BytesSize(m2, i);
      AddChunksAppends(m2, i, f.data);
      OutcomeSays(m2, AddChunks(m2, i, f.data), i, f.data);
      BlocksZero();
      assert AddFile(m, f) == AddChunks(m2, i, f.data);
      if AddChunks(m2, i, f.data).Some? {
        var m3 := AddChunks(m2, i, f.data).value;
        AppendStep(m2, m3, i, f.data);
        assert [] + f.data == f.data;
        FilesExtended(m, m3, fs, f);
        Extended(fs, f);
      }
    }
  }

  lemma BlocksZero()
    ensures Blocks(0) == 0
  {}

  lemma FirstFreeInode(m: Img, n: nat)
    requires ImgOk(m) && FreeInodes(m, n) && n < 100
    ensures InodeOf(m, n) == ZeroInode()
  {}

  lemma OutcomeSays(m: Img, r: Option<Img>, i: nat, data: seq<byte>)
    requires ImgOk(m) && i < 100 && Outcome(m, r, i, data)
    ensures var size := |FileBytes(m, i)|;
      && (r.Some? <==> size + |data| <= 159 * 512 && m.free + Blocks(size + |data|) - Blocks(size) <= |m.disk|)
      && (r.Some? ==> AppendedTo(m, r.value, i, data) && r.value.free == m.free + Blocks(size + |data|) - Blocks(size))
  {
    hide Blocks, AppendedTo;
    SizeOf(m, i);
  }

  lemma {:induction false} FitsPrefix(fs: seq<File>, gs: seq<File>)
    requires Fits(fs + gs)
    ensures Fits(fs)
    decreases |gs|
  {
    if gs == [] {
      assert fs + gs == fs;
    } else {
      var hs := fs + gs;
      var rest := gs[..|gs| - 1];
      assert hs[..|hs| - 1] == fs + rest;
      BlocksMonotone(32 + 16 * |fs + rest|, 32 + 16 * |hs|);
      forall f | f in fs + rest ensures |f.data| <= 159 * 512 { assert f in hs; }
      FitsPrefix(fs, rest);
    }
  }

  /** Adding files one by one: it succeeds exactly when all of them fit. */
  lemma {:induction false} AddFilesHolds(m: Img, done: seq<File>, fs: seq<File>)
    requires Holds(m, done) && Fits(done) && |done| + |fs| <= 98 && forall f :: f in fs ==> |f.name| <= 13
    ensures var r := AddFiles(m, fs);
      && (r.Some? <==> Fits(done + fs))
      && (r.Some? ==> Holds(r.value, done + fs))
    decreases |fs|
  {
    hide Holds, Fits, AddFile;
    if fs == [] {
      assert done + fs == done;
    } else {
      var f := fs[0];
      assert done + [f] + fs[1..] == done + fs;
      AddFileFits(m, done, f);
      if AddFile(m, f).Some? {
        AddFilesHolds(AddFile(m, f).value, done + [f], fs[1..]);
      } else if Fits(done + fs) {
        FitsPrefix(done + [f], fs[1..]);
      }
    }
  }

  lemma AddFileFits(m: Img, fs: seq<File>, f: File)
    requires Holds(m, fs) && Fits(fs) && |fs| < 98 && |f.name| <= 13
    ensures m.nextIno < 100 && |m.disk| == 2048
    ensures AddFile(m, f).Some? <==> Fits(fs + [f])
    ensures AddFile(m, f).Some? ==> Holds(AddFile(m, f).value, fs + [f])
  {
    hide Blocks, AddFile, ImgOk, FilesHeld, FreeInodes;
    AddFileHolds(m, fs, f);
    Extended(fs, f);
    assert (forall g :: g in fs + [f] ==> |g.data| <= 159 * 512) <==> |f.data| <= 159 * 512 by {
      assert f in fs + [f];
    }
  }

  lemma ZeroSectorInode(i: nat)
    ensures DinodeAt(ZeroSector(), InodeOffset(i)) == ZeroInode()
  {
    assert DinodeAt(ZeroSector(), InodeOffset(i)).addrs == ZeroInode().addrs;
  }

  lemma FormatTable()
    ensures forall i :: 0 <= i < 100 ==> GetInode(Format().disk, i) == ZeroInode()
  {
    forall i | 0 <= i < 100 ensures GetInode(Format().disk, i) == ZeroInode() {
      assert Format().disk[InodeSector(i)] == ZeroSector();
      ZeroSectorInode(i);
    }
  }

  /** A volume without block addresses is well-formed. */
  lemma EmptyVolume(v: Vol, lo: nat)
    requires 0 < lo <= |v.disk| < 0x1_0000_0000 && ZeroFrom(v.disk, lo)
    requires forall i :: 0 <= i < |v.ino| ==> v.ino[i] == ZeroInode()
    ensures Good(v, lo, lo) && AllTight(v)
  {
    forall t | Exists(v, t) ensures Ref(v, t) == 0 { assert v.ino[t.i] == ZeroInode(); }
    forall i | 0 <= i < |v.ino| ensures Filled(v, i) && Tight(v, i) {
      assert v.ino[i] == ZeroInode() && Exists(v, Ind(i));
      forall f | 0 <= f < 159 ensures BlockOf(v, i, f) == 0 { assert Exists(v, SlotOf(i, f)); }
    }
  }

  lemma FormatOk()
    ensures ImgOk(Format()) && |Format().disk| == 2048 && FreeInodes(Format(), 1)
    ensures SuperSize(Format().disk[1]) == 2048 && SuperInodes(Format().disk[1]) == 100
  {
    FormatTable();
    SuperRoundTrip(ZeroSector(), 2048, 2011, 100);
    assert ZeroFrom(Format().disk, 37);
    hide GetInode;
    EmptyVolume(VolOf(Format().disk), 37);
  }

  lemma RootHolds()
    ensures MakeRoot().Some? && Holds(MakeRoot().value, [])
  {
    FormatOk();
    hide ImgOk, FreeInodes, InodeOf, FileBytes, GetInode, Outcome, Iappend, Ialloc, AppendedTo, Format;
    var m0 := Format();
    assert m0.nextIno == 1 && m0.free == 37 by { FormatCounters(); }
    FirstFreeInode(m0, 1);
    IallocStep(m0, T_DIR);
    var m1 := Ialloc(m0, T_DIR);
    var d1, d2 := DirentBytes(1, Dot()), DirentBytes(1, DotDot());
    BytesSize(m1, 1);
    IappendAppends(m1, 1, d1);
    OutcomeSays(m1, Iappend(m1, 1, d1), 1, d1);
    var m2 := Iappend(m1, 1, d1).value;
    AppendStep(m1, m2, 1, d1);
    IappendAppends(m2, 1, d2);
    OutcomeSays(m2, Iappend(m2, 1, d2), 1, d2);
    var m3 := Iappend(m2, 1, d2).value;
    AppendStep(m2, m3, 1, d2);
    RootBytesStart(FileBytes(m1, 1), d1, d2);
    FreeKept(m0, m3);
  }

  lemma FormatCounters()
    ensures Format().nextIno == 1 && Format().free == 37
  {}

  lemma RootBytesStart(c: seq<byte>, d1: seq<byte>, d2: seq<byte>)
    requires c == []
    ensures c + d1 + d2 == d1 + d2
  {}

  lemma FreeKept(m: Img, m': Img)
    requires ImgOk(m) && ImgOk(m') && FreeInodes(m, 1)
    requires forall j :: 0 <= j < 100 && j != 1 ==> InodeOf(m', j) == InodeOf(m, j)
    ensures FreeInodes(m', 2) && FilesHeld(m', [])
  {}

  lemma {:induction false} UsedBitsRead(used: nat, j: nat)
    requires used <= 4096 && j < 4096
    ensures SectorBit(UsedBits(used), j) <==> j < used
  {
    if used == 0 {
      ZeroHasNoBits(j % 8);
    } else {
      UsedBitsRead(used - 1, j);
      SetSectorBitReads(UsedBits(used - 1), used - 1, j);
    }
  }

  /** The finished image: the files, the root directory, and a bitmap with exactly the sectors below `free` marked. */
  ghost predicate Image(d: Disk, free: u32, fs: seq<File>)
  {
    && Holds(Img(d, free, free, |fs| + 2), fs)
    && forall b :: 0 <= b < 2048 ==> (Marked(d, 100, b) <==> b < free)
  }

  lemma BitmapWritten(m: Img, fs: seq<File>, s: Sector)
    requires Holds(m, fs)
    ensures Holds(m.(disk := m.disk[36 := s]), fs) && m.free == m.used
  {
    var m' := m.(disk := m.disk[36 := s]);
    BitmapStep(m, s);
    hide ImgOk, InodeOf, FileBytes, Blocks;
    forall j | 2 <= j < |fs| + 2 ensures InodeOf(m', j) == InodeOf(m, j) && FileBytes(m', j) == FileBytes(m, j) {}
  }

  lemma BitmapStep(m: Img, s: Sector)
    requires ImgOk(m)
    ensures var m' := m.(disk := m.disk[36 := s]);
      && ImgOk(m') && m.free == m.used
      && forall j :: 0 <= j < 100 ==> InodeOf(m', j) == InodeOf(m, j) && FileBytes(m', j) == FileBytes(m, j)
  {
    var d := m.disk[36 := s];
    var v := VolOf(m.disk);
    assert Table(d) == Table(m.disk);
    assert VolOf(d) == v.(disk := v.disk[36 := s]);
    MetadataGood(v, 37, m.free, 36, s);
    TightFrame(v, VolOf(d), m.free);
    forall j | 0 <= j < 100 ensures Content(VolOf(d), j) == Content(v, j) && GetInode(d, j) == GetInode(m.disk, j) {}
  }

  /**
   * mkfs: an image is produced exactly when every file is addressable and all blocks fit; it then holds
   * each file byte for byte under its directory entry, every sector is owned once, and the bitmap marks
   * exactly the sectors below freeblock.
   */
  lemma MakeBuildsImage(fs: seq<File>)
    requires Named(fs)
    ensures Make(fs).Some? <==> Fits(fs)
    ensures Make(fs).Some? ==> exists free :: Image(Make(fs).value, free, fs)
  {
    hide Holds, MakeRoot, AddFiles, Fits;
    RootHolds();
    FitsNothing();
    AddFilesHolds(MakeRoot().value, [], fs);
    assert [] + fs == fs;
    var r := AddFiles(MakeRoot().value, fs);
    if r.Some? {
      var m := r.value;
      HoldsBounds(m, fs);
      BitmapWritten(m, fs, UsedBits(m.used));
      forall b | 0 <= b < 2048 ensures Marked(Make(fs).value, 100, b) <==> b < m.free {
        UsedBitsRead(m.used, b);
      }
      HoldsCounters(m.(disk := m.disk[36 := UsedBits(m.used)]), fs);
      assert Image(Make(fs).value, m.free, fs);
    }
  }

  lemma FitsNothing()
    ensures Fits([])
  {}

  lemma HoldsBounds(m: Img, fs: seq<File>)
    requires Holds(m, fs)
    ensures m.used <= 2048 == |m.disk| && m.free == m.used
  {
    SizeOf(m, 1);
  }

  lemma HoldsCounters(m: Img, fs: seq<File>)
    requires Holds(m, fs)
    ensures m == Img(m.disk, m.free, m.free, |fs| + 2)
  {}
}
