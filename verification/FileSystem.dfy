/**
 * kernel/fs.c and kernel/bio.c as they run: ten buffers with busy flags over the disk, the inode table,
 * and the loops of balloc, bfree, iget, ialloc, iupdate, iput, readi, writei, namei and mknod. Each method
 * does to the disk and the inode table what the function of the same operation says, and gives every
 * buffer back.
 */
module FileSystem {
  import opened Options
  import opened Bytes
  import opened Layout
  import opened Bitmap
  import opened Volume
  import opened Balloc
  import opened Kfs
  import opened Overwriting
  import opened WriteI
  import opened ReadI
  import opened Directory
  import opened PathWalk
  import opened Creation

  const NBUF := 10

  /** How a call of iget ends when it does not return an entry. */
  datatype Entry = Entry(k: nat) | Asleep | OutOfInodes

  /** One step of the scan of balloc, and its result. */
  lemma ClearStep(d: Disk, b: nat)
    requires GeoOk(d) && b < |d|
    ensures BitSector(b, Inodes(d)) < |d|
    ensures FirstClear(d, b) == if SectorBit(d[BitSector(b, Inodes(d))], b % 4096) then FirstClear(d, b + 1) else b
    ensures FirstClear(d, 0) == b ==> Alloc(d) == Some((Mark(d, Inodes(d), b), b))
  { BitmapSector(d, b); }

  /** One step of the scan of ialloc. */
  lemma FreeStep(d: Disk, i: nat)
    requires GeoOk(d) && i < Inodes(d)
    ensures InodeSector(i) < |d|
    ensures FreeInode(d, i) == if DinodeAt(d[InodeSector(i)], InodeOffset(i)).kind == 0 then i else FreeInode(d, i + 1)
    ensures FreeInode(d, Inodes(d)) == Inodes(d) && 1 < Inodes(d)
  {}

  lemma SameSector(b: nat, ninodes: nat)
    ensures (b + 1) % 4096 != 0 ==> BitSector(b + 1, ninodes) == BitSector(b, ninodes)
  {}

  lemma NoneClear(d: Disk)
    requires GeoOk(d)
    ensures SuperSize(d[1]) == |d| && SuperInodes(d[1]) == Inodes(d)
    ensures FirstClear(d, |d|) == |d| && (FirstClear(d, 0) == |d| ==> Alloc(d).None?)
  {}

  lemma PieceIs(size: nat, off: nat, n: nat)
    requires off < size
    ensures var m := if n < size - off then n else size - off; Piece(size, off, n) == if m < 512 - off % 512 then m else 512 - off % 512
  {}

  lemma ReadUnfolds(fs: Fs, k: nat, buf: seq<byte>, d: nat, s: nat, left: nat)
    requires k < |fs.cache| && left > 0 && s < fs.cache[k].d.size && ReadLoop(fs, k, buf, d, s, left).Some?
    ensures var e := fs.cache[k].d; var n1 := Piece(e.size, s, left);
      && s / 512 < 31 && e.addrs[s / 512] < |fs.disk| && d + n1 <= |buf| && n1 <= left && s % 512 + n1 <= 512
      && ReadLoop(fs, k, buf, d, s, left)
         == ReadLoop(fs, k, Splice(buf, d, fs.disk[e.addrs[s / 512]][s % 512..s % 512 + n1]), d + 2 * n1, s + n1, left - n1)
  {}

  lemma ReadEnds(fs: Fs, k: nat, buf: seq<byte>, d: nat, s: nat, left: nat)
    requires k < |fs.cache| && (left == 0 || fs.cache[k].d.size <= s)
    ensures ReadLoop(fs, k, buf, d, s, left) == Some(buf) && Available(fs.cache[k].d.size, s, left) == 0
  {}

  lemma AllocOnDisk(d: Disk)
    requires GeoOk(d)
    ensures Alloc(d).Some? ==> Alloc(d).value.1 < |d| && |Alloc(d).value.0| == |d|
  {}

  lemma AddrOnDisk(fs: Fs, k: nat, lbn: nat)
    requires FsOk(fs) && k < |fs.cache| && fs.cache[k].count > 0 && lbn < 31
    ensures fs.cache[k].d.addrs[lbn] < |fs.disk|
  {
    OkParts(fs);
    FindLive(fs, k);
    assert Ref(Files(fs), Direct(fs.cache[k].inum, lbn)) == fs.cache[k].d.addrs[lbn];
  }

  /** The state between two rounds of writei that began in `fs0`. */
  ghost predicate Going(fs0: Fs, fs: Fs, k: nat)
  {
    && FsOk(fs) && GeoOk(fs0.disk) && GeoOk(fs.disk) && Inodes(fs.disk) == Inodes(fs0.disk)
    && k < |fs0.cache| == |fs.cache| && fs.cache[k].count > 0
    && fs.cache[k].inum == fs0.cache[k].inum < Inodes(fs0.disk) && fs.cache[k].d == fs0.cache[k].d.(addrs := fs.cache[k].d.addrs)
  }

  lemma GoingParts(fs0: Fs, fs: Fs, k: nat)
    requires Going(fs0, fs, k)
    ensures FsOk(fs) && GeoOk(fs0.disk) && GeoOk(fs.disk) && Inodes(fs.disk) == Inodes(fs0.disk)
    ensures k < |fs0.cache| == |fs.cache| && fs.cache[k].count > 0
    ensures fs.cache[k].inum == fs0.cache[k].inum < Inodes(fs0.disk) && InodeSector(fs.cache[k].inum) < |fs.disk|
  {}

  lemma RoundGoes(fs0: Fs, fs: Fs, k: nat, off: nat, p: seq<byte>)
    requires Going(fs0, fs, k) && p != [] && off + |p| <= 31 * 512
    ensures GeoOk(fs.disk) && k < |fs.cache| && off / 512 < 31
    ensures Round(fs, k, off, p).Some? ==> Going(fs0, Round(fs, k, off, p).value, k)
  {
    hide FsOk, Round, OthersKept, Holds;
    var c: seq<byte> := seq(off, _ => 0);
    RoundWrites(fs, k, off, p, off, c, false);
    if Round(fs, k, off, p).Some? {
      WrittenGives(fs, Round(fs, k, off, p).value, k, Max(off, off + Chunk(off, p)), Overwrite(c, off, p[..Chunk(off, p)]), false);
    }
  }

  lemma WriteEnds(fs0: Fs, fs: Fs, k: nat, off: nat, p: seq<byte>)
    requires Going(fs0, fs, k) && off + |p| <= 31 * 512 && fs0.cache[k].d.kind == T_FILE && Loop(fs0, k, off, p) == Some(fs)
    ensures Write(fs0, k, off, p) == Wrote(Finish(fs, k, off + |p|, |p|), |p|)
  { hide FsOk, Loop; }

  lemma BlockOfDir(disk: Disk, n: Dinode, off: nat)
    requires Readable(disk, n) && off % 512 == 0 && off < n.size
    ensures off / 512 < 31 && n.addrs[off / 512] < |disk| && off + 512 <= Slots(n.size) * 16
    ensures forall x :: off / 16 <= x < off / 16 + 32 ==>
              x < Slots(n.size) && SlotAt(disk, n, x) == EntryIn(disk[n.addrs[off / 512]], x - off / 16)
  {
    forall x | off / 16 <= x < off / 16 + 32 ensures x / 32 == off / 512 && x % 32 == x - off / 16 {}
  }

  ghost predicate NoneBefore(disk: Disk, n: Dinode, name: seq<byte>, e: nat)
    requires Readable(disk, n) && e <= Slots(n.size)
  { forall x :: 0 <= x < e ==> !Hit(SlotAt(disk, n, x), name) }

  lemma BlockMissed(disk: Disk, n: Dinode, name: seq<byte>, off: nat)
    requires Readable(disk, n) && off % 512 == 0 && off < n.size && off / 16 <= Slots(n.size)
    requires NoneBefore(disk, n, name, off / 16)
    ensures off / 512 < 31 && n.addrs[off / 512] < |disk| && off / 16 + 32 <= Slots(n.size)
    ensures (forall x :: 0 <= x < 32 ==> !Hit(EntryIn(disk[n.addrs[off / 512]], x), name)) ==>
              NoneBefore(disk, n, name, off / 16 + 32)
  {
    BlockOfDir(disk, n, off);
    hide EntryOf, Readable, NameOf;
  }

  lemma BlockHit(disk: Disk, n: Dinode, name: seq<byte>, off: nat, ep: nat)
    requires Readable(disk, n) && off % 512 == 0 && off < n.size && off / 16 <= Slots(n.size) && ep < 32
    requires NoneBefore(disk, n, name, off / 16)
    requires off / 512 < 31 && n.addrs[off / 512] < |disk|
    requires Hit(EntryIn(disk[n.addrs[off / 512]], ep), name)
    requires forall x :: 0 <= x < ep ==> !Hit(EntryIn(disk[n.addrs[off / 512]], x), name)
    ensures var e := Lookup(disk, n, name, 0); e < Slots(n.size) && SlotAt(disk, n, e) == EntryIn(disk[n.addrs[off / 512]], ep)
  {
    BlockOfDir(disk, n, off);
    hide EntryOf, Readable, NameOf;
    assert SlotAt(disk, n, off / 16 + ep) == EntryIn(disk[n.addrs[off / 512]], ep);
    assert Lookup(disk, n, name, 0) == off / 16 + ep;
  }

  lemma NoneYet(disk: Disk, n: Dinode, name: seq<byte>)
    requires Readable(disk, n)
    ensures NoneBefore(disk, n, name, 0)
  {}

  lemma LookupFails(disk: Disk, n: Dinode, name: seq<byte>, e: nat)
    requires Readable(disk, n) && n.size <= e * 16 && e <= Slots(n.size) && e % 32 == 0 && NoneBefore(disk, n, name, e)
    ensures Lookup(disk, n, name, 0) == Slots(n.size)
  {
    assert e == Slots(n.size);
    hide Slots, SlotAt, Readable, NameOf;
  }

  lemma RootInode(d: Disk)
    requires GeoOk(d)
    ensures 1 < Inodes(d)
  {}

  lemma DirScannable(fs: Fs, i: nat)
    requires FsOk(fs) && GeoOk(fs.disk) && DirsOk(Files(fs)) && i < Inodes(fs.disk) && Files(fs).ino[i].kind == T_DIR
    ensures DirOk(Files(fs), i) && Readable(fs.disk, Files(fs).ino[i])
  { DirAt(Files(fs), i); DirParts(Files(fs), i); }

  /** One turn of the loop of namei. */
  lemma FromUnfolds(fs: Fs, k: nat, q: seq<byte>)
    requires k < |fs.cache| && fs.cache[k].count > 0
    ensures var r := Skip(q); var n := fs.cache[k].d;
      && (r == [] ==> From(fs, k, q) == Found(fs, k))
      && (r != [] && n.kind != T_DIR ==> From(fs, k, q) == NotFound(Iput(fs, k)))
      && (r != [] && n.kind == T_DIR && Readable(fs.disk, n) ==>
            var e := Lookup(fs.disk, n, Comp(r), 0);
            && (e == Slots(n.size) ==> From(fs, k, q) == NotFound(Iput(fs, k)))
            && (e < Slots(n.size) && InodeSector(SlotAt(fs.disk, n, e).inum) < |fs.disk| ==>
                  var g := Enter(Iput(fs, k), SlotAt(fs.disk, n, e).inum);
                  From(fs, k, q) == if g.Found? then From(g.fs, g.k, r[|Comp(r)|..]) else g))
  {}

  lemma FromSkips(fs: Fs, k: nat, q: seq<byte>)
    ensures From(fs, k, Skip(q)) == From(fs, k, q)
  { SkipTwice(q); }

  lemma {:induction false} SkipTwice(q: seq<byte>)
    ensures Skip(Skip(q)) == Skip(q)
  { if q != [] && q[0] == SLASH { SkipTwice(q[1..]); } }

  /** What one turn of namei finds in the directory it holds. */
  lemma TurnFacts(fs0: Fs, fs: Fs, k: nat, i: nat, q: seq<byte>)
    requires FsOk(fs0) && GeoOk(fs0.disk) && DirsOk(Files(fs0)) && i < Inodes(fs0.disk) && Held(fs0, fs, k, i)
    requires q != [] && q[0] != SLASH
    ensures k < |fs.cache| && fs.cache[k].count > 0 && 0 < |Comp(q)|
    ensures var n := fs.cache[k].d;
      && (n.kind != T_DIR ==> From(fs, k, q) == NotFound(Iput(fs, k)))
      && (n.kind == T_DIR ==> Readable(fs.disk, n))
      && (n.kind == T_DIR && Lookup(fs.disk, n, Comp(q), 0) == Slots(n.size) ==> From(fs, k, q) == NotFound(Iput(fs, k)))
  {
    hide FsOk, DirsOk, Held, From, Readable, GeoOk, Lookup, SlotAt, Files;
    HeldParts(fs0, fs, k, i);
    FromUnfolds(fs, k, q);
    CompAt(q);
    if fs.cache[k].d.kind == T_DIR { DirScannable(fs0, i); }
  }

  lemma TurnEnters(fs0: Fs, fs: Fs, k: nat, i: nat, q: seq<byte>)
    requires FsOk(fs0) && GeoOk(fs0.disk) && DirsOk(Files(fs0)) && i < Inodes(fs0.disk) && Held(fs0, fs, k, i)
    requires q != [] && q[0] != SLASH && k < |fs.cache| && fs.cache[k].count > 0
    requires var n := fs.cache[k].d; n.kind == T_DIR && Readable(fs.disk, n) && Lookup(fs.disk, n, Comp(q), 0) < Slots(n.size)
    ensures var n := fs.cache[k].d; var j := SlotAt(fs.disk, n, Lookup(fs.disk, n, Comp(q), 0)).inum;
      && InodeSector(j) < |fs.disk|
      && var g := Enter(Iput(fs, k), j);
      && From(fs, k, q) == (if g.Found? then From(g.fs, g.k, q[|Comp(q)|..]) else g)
      && (g.Found? ==> Held(fs0, g.fs, g.k, j) && g.k < |g.fs.cache| && g.fs.cache[g.k].inum == j)
  {
    hide FsOk, DirsOk, Held, From, Readable, GeoOk, Lookup, SlotAt, Files, Enter, NameIn, Restored;
    HeldParts(fs0, fs, k, i);
    FromUnfolds(fs, k, q);
    DirScannable(fs0, i);
    PutRestores(fs0, fs, k, i);
    ScanFindsName(Files(fs0), i, Comp(q));
    var j := SlotAt(fs.disk, fs.cache[k].d, Lookup(fs.disk, fs.cache[k].d, Comp(q), 0)).inum;
    SectorOnDisk(fs.disk, j);
    EnterHolds(fs0, Iput(fs, k), j);
    var g := Enter(Iput(fs, k), j);
    if g.Found? { HeldParts(fs0, g.fs, g.k, j); }
  }

  lemma CompAt(q: seq<byte>)
    requires q != [] && q[0] != SLASH
    ensures 0 < |Comp(q)|
  {}

  lemma BlockInRange(disk: Disk, n: Dinode, off: nat)
    requires Readable(disk, n) && off % 512 == 0 && off < n.size
    ensures off / 512 < 31 && n.addrs[off / 512] < |disk| && off / 16 + 32 <= Slots(n.size)
  { BlockOfDir(disk, n, off); }

  /** The first entry of the sector that is not in use, or 32. */
  ghost predicate FirstFreeIn(s: Sector, ep: nat)
  { ep <= 32 && (ep < 32 ==> EntryIn(s, ep).inum == 0) && forall x :: 0 <= x < ep ==> EntryIn(s, x).inum != 0 }

  lemma SlotInBlock(disk: Disk, n: Dinode, off: nat, x: nat)
    requires Readable(disk, n) && off % 512 == 0 && off < n.size && x < 32
    ensures off / 512 < 31 && n.addrs[off / 512] < |disk| && off / 16 + x < Slots(n.size) && (off / 16 + x) / 32 == off / 512
    ensures SlotAt(disk, n, off / 16 + x) == EntryIn(disk[n.addrs[off / 512]], x)
  {
    hide EntryIn;
    assert (off / 16 + x) / 32 == off / 512 && (off / 16 + x) % 32 == x;
  }

  lemma {:induction false} ScanReaches(disk: Disk, n: Dinode, off: nat, x: nat, ep: nat)
    requires Readable(disk, n) && off % 512 == 0 && off < n.size && x <= ep <= 32 && off / 16 + 32 <= Slots(n.size)
    requires off / 512 < 31 && n.addrs[off / 512] < |disk|
    requires forall y :: 0 <= y < ep ==> EntryIn(disk[n.addrs[off / 512]], y).inum != 0
    ensures FreeSlot(disk, n, off / 16 + x) == FreeSlot(disk, n, off / 16 + ep)
    decreases ep - x
  {
    hide EntryIn, SlotAt, Slots, Readable;
    if x < ep {
      SlotInBlock(disk, n, off, x);
      ScanReaches(disk, n, off, x + 1, ep);
    }
  }

  /** After a block was scanned up to entry `ep`. */
  lemma BlockScanned(disk: Disk, n: Dinode, off: nat, ep: nat)
    requires Readable(disk, n) && off % 512 == 0 && off < n.size && off / 16 + 32 <= Slots(n.size)
    requires off / 512 < 31 && n.addrs[off / 512] < |disk|
    requires FirstFreeIn(disk[n.addrs[off / 512]], ep)
    ensures ep <= 32 && FreeSlot(disk, n, off / 16) == FreeSlot(disk, n, off / 16 + ep)
    ensures ep < 32 ==> (off / 16 + ep) / 32 == off / 512 && off / 16 + ep < Slots(n.size) && FreeSlot(disk, n, off / 16 + ep) == off / 16 + ep
  {
    hide EntryIn, SlotAt, Slots, Readable;
    ScanReaches(disk, n, off, 0, ep);
    if ep < 32 { SlotInBlock(disk, n, off, ep); }
  }

  lemma SlotsEnd(disk: Disk, n: Dinode, e: nat)
    requires Readable(disk, n) && n.size <= e * 16 && e <= Slots(n.size) && e % 32 == 0
    ensures e == Slots(n.size) && FreeSlot(disk, n, e) == e
  {}

  lemma SmallDir(disk: Disk, n: Dinode)
    requires Readable(disk, n)
    ensures n.size <= 31 * 512
  {}

  /** mknod between its two halves. */
  lemma HalfMade(fs: Fs, kd: nat, kind: u16, major: u16, minor: u16)
    requires TreeOk(fs) && GeoOk(fs.disk) && kd < |fs.cache| && fs.cache[kd].count > 0
    requires fs.cache[kd].d.kind == T_DIR && kind != 0 && Ialloc(fs, kind).Made?
    ensures var fs1 := Ialloc(fs, kind).fs; var k := Ialloc(fs, kind).k;
      && k < |fs1.cache| && kd < |fs1.cache| && fs1.cache[k].inum < 0x1_0000 && InodeSector(fs1.cache[k].inum) < |fs1.disk|
      && var fs2 := Update(fs1, k, fs1.cache[k].d.(major := major, minor := minor, nlink := 0, size := 0));
      && kd < |fs2.cache| && fs2.cache[k].inum == fs1.cache[k].inum
      && Readable(fs2.disk, fs2.cache[kd].d) && InodeSector(fs2.cache[kd].inum) < |fs2.disk|
  {
    hide FsOk, Files, GetInode, DirsOk, Typed, CacheUnique, NewInode, FreeInode, Ialloc, DirOk, PutHeader, Readable;
    TreeParts(fs);
    InodeMade(fs, kind, major, minor);
    IallocIs(fs, kind);
    var fs1, k, i := Ialloc(fs, kind).fs, Ialloc(fs, kind).k, FreeInode(fs.disk, 1);
    var fs2 := Update(fs1, k, fs1.cache[k].d.(major := major, minor := minor, nlink := 0, size := 0));
    DirIsTyped(fs, kd);
    FirstFreeInode(fs, i);
    DirAt(Files(fs), fs.cache[kd].inum);
    NewKeepsDir(fs, fs2, k, i, kd);
    NewParts(fs, fs2, k, i);
    DirIsTyped(fs2, kd);
    DirParts(Files(fs2), fs.cache[kd].inum);
    SectorOnDisk(fs2.disk, fs.cache[kd].inum);
  }

  class Kernel {
    var disk: Disk
    var cache: seq<MemInode>
    /** buf[].data and the B_BUSY bits of buf[].flags. */
    var data: seq<Sector>
    var busy: seq<bool>

    ghost predicate Valid()
      reads this
    { |data| == NBUF == |busy| }

    /** A buffer is free, so that getblk does not spin. */
    ghost predicate Ready()
      reads this
    { Valid() && exists b :: 0 <= b < NBUF && !busy[b] }

    ghost function State(): Fs
      reads this
    { Fs(disk, cache) }

    constructor (d: Disk, c: seq<MemInode>)
      ensures Ready() && State() == Fs(d, c)
    {
      disk, cache := d, c;
      data, busy := seq(NBUF, _ => ZeroSector()), seq(NBUF, _ => false);
      new;
      assert !busy[0];
    }

    // -------------------------------------------------------------- kernel/bio.c

    /** Only buffer `b` is busy beside those of `before`. */
    ghost predicate Only(before: seq<bool>, b: nat)
      reads this
    { Valid() && |before| == NBUF && b < NBUF && !before[b] && busy == before[b := true] }

    /** The first buffer that is not busy. */
    method Getblk() returns (b: nat)
      requires Ready()
      modifies this`busy
      ensures Only(old(busy), b)
      ensures forall j :: 0 <= j < b ==> old(busy)[j]
    {
      b := 0;
      while busy[b]
        invariant b < NBUF && forall j :: 0 <= j < b ==> busy[j]
        decreases NBUF - b
      {
        b := b + 1;
      }
      busy := busy[b := true];
    }

    method Bread(sector: nat) returns (b: nat)
      requires Ready() && sector < |disk|
      modifies this`busy, this`data
      ensures Only(old(busy), b)
      ensures data == old(data)[b := disk[sector]]
    {
      b := Getblk();
      data := data[b := disk[sector]];
    }

    method Bwrite(b: nat, sector: nat)
      requires Valid() && b < NBUF && sector < |disk|
      modifies this`disk
      ensures disk == old(disk)[sector := data[b]]
    { disk := disk[sector := data[b]]; }

    /** brelse of the buffer taken since `before`. */
    method Brelse(b: nat, ghost before: seq<bool>)
      requires Only(before, b)
      modifies this`busy
      ensures Valid() && busy == before
    { busy := busy[b := false]; }

    // -------------------------------------------------------------- balloc and bfree

    /** if (b % BPB == 0): the buffer goes back, and the bitmap sector of `b` is read into the next one. */
    method NextBitmap(bp: nat, b: nat, ninodes: nat, ghost before: seq<bool>) returns (bp': nat)
      requires Only(before, bp) && GeoOk(disk) && b < |disk| && ninodes == Inodes(disk)
      requires b % 4096 != 0 ==> data[bp] == disk[BitSector(b, ninodes)]
      modifies this`busy, this`data
      ensures Only(before, bp') && data[bp'] == disk[BitSector(b, ninodes)]
    {
      bp' := bp;
      BitmapSector(disk, b);
      if b % 4096 == 0 {
        Brelse(bp, before);
        bp' := Bread(BitSector(b, ninodes));
      }
    }

    /** The bitmap sector in `bp` with the bit of `b` set goes to the disk. */
    method MarkBlock(bp: nat, b: nat, ninodes: nat, ghost before: seq<bool>)
      requires Only(before, bp) && BitSector(b, ninodes) < |disk| && data[bp] == disk[BitSector(b, ninodes)]
      modifies this`disk, this`busy, this`data
      ensures Valid() && busy == before && disk == Mark(old(disk), ninodes, b)
    {
      data := data[bp := SetSectorBit(data[bp], b % 4096)];
      Bwrite(bp, BitSector(b, ninodes));
      Brelse(bp, before);
    }

    /** The scan of balloc, with the superblock in `bp` at first; `b` is the size when no bit is clear. */
    method ScanBitmap(bp0: nat, size: nat, ninodes: nat, ghost before: seq<bool>) returns (b: nat, bp: nat)
      requires Only(before, bp0) && GeoOk(disk) && size == |disk| && ninodes == Inodes(disk)
      modifies this`busy, this`data
      ensures Only(before, bp) && b == FirstClear(disk, 0) <= size
      ensures b < size ==> BitSector(b, ninodes) < |disk| && data[bp] == disk[BitSector(b, ninodes)]
    {
      hide GeoOk, FirstClear, Alloc, SectorBit, Inodes, Mark;
      NoneClear(disk);
      b, bp := 0, bp0;
      while b < size
        invariant 0 <= b <= size && Only(before, bp) && FirstClear(disk, 0) == FirstClear(disk, b)
        invariant b < size && b % 4096 != 0 ==> BitSector(b, ninodes) < |disk| && data[bp] == disk[BitSector(b, ninodes)]
      {
        bp := NextBitmap(bp, b, ninodes, before);
        ClearStep(disk, b);
        if !SectorBit(data[bp], b % 4096) { return; }
        SameSector(b, ninodes);
        b := b + 1;
        if b < size { ClearStep(disk, b); }
      }
    }

    /** None is the panic "out of blocks". */
    method Balloc() returns (r: Option<nat>)
      requires Ready() && GeoOk(disk)
      modifies this`disk, this`busy, this`data
      ensures Valid() && busy == old(busy)
      ensures r.Some? <==> Alloc(old(disk)).Some?
      ensures r.Some? ==> (disk, r.value) == Alloc(old(disk)).value
      ensures r.None? ==> disk == old(disk)
    {
      NoneClear(disk);
      var bp := Bread(1);
      var size, ninodes := SuperSize(data[bp]), SuperInodes(data[bp]);
      hide GeoOk, FirstClear, Inodes, Mark;
      var b;
      b, bp := ScanBitmap(bp, size, ninodes, old(busy));
      if b < size {
        ClearStep(disk, b);
        MarkBlock(bp, b, ninodes, old(busy));
        r := Some(b);
      } else {
        Brelse(bp, old(busy));
        r := None;
      }
    }

    method Bfree(b: nat)
      requires Ready() && GeoOk(disk) && b < |disk|
      modifies this`disk, this`busy, this`data
      ensures Valid() && busy == old(busy) && disk == Free(old(disk), b)
    {
      var bp := Bread(1);
      var ninodes := SuperInodes(data[bp]);
      Brelse(bp, old(busy));
      BitmapSector(disk, b);
      bp := Bread(BitSector(b, ninodes));
      data := data[bp := ClearSectorBit(data[bp], b % 4096)];
      Bwrite(bp, BitSector(b, ninodes));
      Brelse(bp, old(busy));
    }

    // -------------------------------------------------------------- the inode table

    /** The scan stops at a busy entry of the inode, where the original sleeps. */
    method IgetEntry(i: nat) returns (r: Entry)
      requires Ready() && InodeSector(i) < |disk|
      modifies this`cache, this`busy, this`data
      ensures Valid() && busy == old(busy)
      ensures match Iget(Fs(disk, old(cache)), i)
        case Got(fs, k) => r == Entry.Entry(k) && State() == fs
        case MustWait => r == Asleep && cache == old(cache)
        case NoEntry => r == OutOfInodes && cache == old(cache)
    {
      var ip: nat := 0;
      var nip: Option<nat> := None;
      while ip < |cache|
        invariant ip <= |cache| && cache == old(cache) && busy == old(busy) && Valid()
        invariant Find(cache, i, 0) == Find(cache, i, ip)
        invariant match nip case None => FirstFree(cache, 0) == FirstFree(cache, ip) case Some(f) => f < |cache| && FirstFree(cache, 0) == f
      {
        if cache[ip].count > 0 && cache[ip].inum == i {
          if cache[ip].busy { return Asleep; }
          cache := cache[ip := cache[ip].(count := cache[ip].count + 1, busy := true)];
          return Entry.Entry(ip);
        }
        if nip.None? && cache[ip].count == 0 { nip := Some(ip); }
        ip := ip + 1;
      }
      if nip.None? { return OutOfInodes; }
      var f := nip.value;
      cache := cache[f := cache[f].(inum := i, count := 1, busy := true)];
      var bp := Bread(InodeSector(i));
      cache := cache[f := cache[f].(d := DinodeAt(data[bp], InodeOffset(i)))];
      Brelse(bp, old(busy));
      assert cache == old(cache)[f := MemInode(i, 1, true, GetInode(disk, i))];
      r := Entry.Entry(f);
    }

    method IputEntry(k: nat)
      requires k < |cache| && cache[k].count > 0
      modifies this`cache
      ensures State() == Iput(old(State()), k)
    { cache := cache[k := cache[k].(count := cache[k].count - 1, busy := false)]; }

    method Iupdate(k: nat)
      requires Ready() && k < |cache| && InodeSector(cache[k].inum) < |disk|
      modifies this`disk, this`busy, this`data
      ensures Valid() && busy == old(busy) && disk == PutHeader(old(disk), cache[k].inum, cache[k].d)
    {
      var i := cache[k].inum;
      var bp := Bread(InodeSector(i));
      data := data[bp := Splice(data[bp], InodeOffset(i), HeaderBytes(cache[k].d))];
      Bwrite(bp, InodeSector(i));
      Brelse(bp, old(busy));
    }

    /** dip->type = type, and the sector goes to the disk. */
    method MarkInode(bp: nat, i: nat, kind: u16, ghost before: seq<bool>)
      requires Only(before, bp) && InodeSector(i) < |disk| && data[bp] == disk[InodeSector(i)]
      modifies this`disk, this`busy, this`data
      ensures Valid() && busy == before && disk == PutKind(old(disk), i, kind)
    {
      data := data[bp := Splice(data[bp], InodeOffset(i), U16Bytes(kind))];
      Bwrite(bp, InodeSector(i));
      Brelse(bp, before);
    }

    /** The scan of ialloc; a free inode exists: the original has no exit for a full table. */
    method FindInode(ninodes: nat) returns (inum: nat, bp: nat)
      requires Ready() && GeoOk(disk) && FreeInode(disk, 1) < ninodes == Inodes(disk)
      modifies this`busy, this`data
      ensures Only(old(busy), bp) && inum == FreeInode(disk, 1) && InodeSector(inum) < |disk|
      ensures data[bp] == disk[InodeSector(inum)]
    {
      hide GeoOk, FreeInode, DinodeAt, Inodes, Iget, PutKind;
      inum := 1;
      FreeStep(disk, inum);
      bp := Bread(InodeSector(inum));
      while DinodeAt(data[bp], InodeOffset(inum)).kind != 0
        invariant GeoOk(disk) && 1 <= inum < ninodes == Inodes(disk) && Only(old(busy), bp)
        invariant InodeSector(inum) < |disk| && data[bp] == disk[InodeSector(inum)]
        invariant FreeInode(disk, 1) == FreeInode(disk, inum)
        decreases ninodes - inum
      {
        FreeStep(disk, inum);
        Brelse(bp, old(busy));
        inum := inum + 1;
        FreeStep(disk, inum);
        bp := Bread(InodeSector(inum));
      }
      FreeStep(disk, inum);
    }

    method IallocEntry(kind: u16) returns (r: Entry)
      requires Ready() && GeoOk(disk) && FreeInode(disk, 1) < Inodes(disk)
      modifies this`disk, this`cache, this`busy, this`data
      ensures Valid() && busy == old(busy)
      ensures match Ialloc(old(State()), kind)
        case Made(fs, k) => r == Entry.Entry(k) && State() == fs
        case MustSleep => r == Asleep
        case TableFull => r == OutOfInodes
        case _ => false
    {
      NoneClear(disk);
      hide GeoOk, FreeInode, Inodes, Iget, PutKind, SuperInodes;
      var bp := Bread(1);
      var ninodes := SuperInodes(data[bp]);
      Brelse(bp, old(busy));
      var inum;
      inum, bp := FindInode(ninodes);
      MarkInode(bp, inum, kind, old(busy));
      r := IgetEntry(inum);
    }

    // -------------------------------------------------------------- readi

    /** The direct branch of bmap. */
    method Bmap(k: nat, bn: nat) returns (x: u32)
      requires k < |cache| && bn < 31
      ensures x == cache[k].d.addrs[bn]
    { x := cache[k].d.addrs[bn]; }

    /** for (i = 0; i < n1; i++) *dst++ = *s++ */
    method CopyOut(bp: nat, o: nat, n1: nat, dst: array<byte>, d: nat)
      requires Valid() && bp < NBUF && o + n1 <= 512 && d + n1 <= dst.Length
      modifies dst
      ensures dst[..] == Splice(old(dst[..]), d, data[bp][o..o + n1])
    {
      ghost var before := dst[..];
      for i := 0 to n1
        invariant dst[..] == Splice(before, d, data[bp][o..o + i])
      {
        dst[d + i] := data[bp][o + i];
      }
    }

    /** readi of a file that is not a device; `dst` is the memory from the caller's address on. */
    method ReadiInto(k: nat, dst: array<byte>, off: nat, n: nat) returns (r: nat)
      requires Ready() && k < |cache| && Readi(State(), k, dst[..], off, n).Read?
      modifies dst, this`busy, this`data
      ensures Valid() && busy == old(busy)
      ensures Readi(State(), k, old(dst[..]), off, n) == Read(dst[..], r)
    {
      hide ReadLoop, Available;
      var size := cache[k].d.size;
      ghost var fs := State();
      var s: nat, left: nat, d: nat := off, n, 0;
      while left > 0 && s < size
        invariant left <= n && busy == old(busy) && Valid() && State() == fs
        invariant ReadLoop(fs, k, dst[..], d, s, left) == ReadLoop(fs, k, old(dst[..]), 0, off, n)
        invariant Available(size, off, n) == n - left + Available(size, s, left)
      {
        var n1 := if left < size - s then left else size - s;
        n1 := if n1 < 512 - s % 512 then n1 else 512 - s % 512;
        PieceStep(size, s, left);
        PieceIs(size, s, left);
        ReadUnfolds(fs, k, dst[..], d, s, left);
        var b := Bmap(k, s / 512);
        var bp := Bread(b);
        CopyOut(bp, s % 512, n1, dst, d);
        Brelse(bp, old(busy));
        s, left, d := s + n1, left - n1, d + 2 * n1;
      }
      ReadEnds(fs, k, dst[..], d, s, left);
      r := n - left;
    }

    // -------------------------------------------------------------- writei

    /** for (i = 0; i < m; i++) *d++ = *s++ */
    method CopyIn(bp: nat, o: nat, s: seq<byte>)
      requires Valid() && bp < NBUF && o + |s| <= 512
      modifies this`data
      ensures Valid() && data == old(data)[bp := Splice(old(data)[bp], o, s)]
    {
      assert Splice(data[bp], o, s[..0]) == data[bp];
      for i := 0 to |s|
        invariant Valid() && data == old(data)[bp := Splice(old(data)[bp], o, s[..i])]
      {
        data := data[bp := data[bp][o + i := s[i]]];
        assert data[bp] == Splice(old(data)[bp], o, s[..i + 1]);
      }
      assert s[..|s|] == s;
    }

    /** One round of the loop of writei; false is the panic of balloc. */
    method WriteRound(k: nat, off: nat, p: seq<byte>) returns (ok: bool)
      requires Ready() && GeoOk(disk) && k < |cache| && off / 512 < 31 && cache[k].d.addrs[off / 512] < |disk|
      modifies this`disk, this`cache, this`busy, this`data
      ensures Valid() && busy == old(busy)
      ensures var r := Round(old(State()), k, off, p); (ok <==> r.Some?) && (ok ==> State() == r.value)
    {
      var lbn := off / 512;
      AllocOnDisk(disk);
      if cache[k].d.addrs[lbn] == 0 {
        var b := Balloc();
        if b.None? { return false; }
        cache := cache[k := cache[k].(d := cache[k].d.(addrs := cache[k].d.addrs[lbn := b.value]))];
      }
      hide GeoOk, Alloc;
      var m := Chunk(off, p);
      var w := Bmap(k, lbn);
      var bp := Bread(w);
      CopyIn(bp, off % 512, p[..m]);
      Bwrite(bp, w);
      Brelse(bp, old(busy));
      ok := true;
    }

    /** The loop of writei; false is the panic of balloc. */
    method WriteLoop(k: nat, off: nat, p: seq<byte>) returns (ok: bool)
      requires Ready() && Going(State(), State(), k) && off + |p| <= 31 * 512
      modifies this`disk, this`cache, this`busy, this`data
      ensures Valid() && busy == old(busy)
      ensures var r := Loop(old(State()), k, off, p); (ok <==> r.Some?) && (ok ==> State() == r.value)
      ensures ok ==> Going(old(State()), State(), k)
    {
      hide Going, Loop, Round, FsOk, GeoOk;
      ghost var fs0 := State();
      var done: nat := 0;
      assert p[done..] == p;
      while done < |p|
        invariant done <= |p| && Ready() && busy == old(busy)
        invariant Going(fs0, State(), k)
        invariant Loop(State(), k, off + done, p[done..]) == Loop(fs0, k, off, p)
        decreases |p| - done
      {
        GoingParts(fs0, State(), k);
        AddrOnDisk(State(), k, (off + done) / 512);
        RoundGoes(fs0, State(), k, off + done, p[done..]);
        var m := Chunk(off + done, p[done..]);
        LoopUnfolds(State(), k, off + done, p[done..]);
        assert p[done..][m..] == p[done + m..];
        ok := WriteRound(k, off + done, p[done..]);
        if !ok { return; }
        done := done + m;
      }
      assert p[done..] == [];
      LoopNothing(State(), k, off + done);
      ok := true;
    }

    /** The end of writei. */
    method WriteEnd(k: nat, off: nat, n: nat)
      requires Ready() && GeoOk(disk) && k < |cache| && cache[k].inum < Inodes(disk) && off < 0x1_0000_0000
      modifies this`disk, this`cache, this`busy, this`data
      ensures Valid() && busy == old(busy) && State() == Finish(old(State()), k, off, n)
    {
      SectorOnDisk(disk, cache[k].inum);
      hide GeoOk, PutHeader;
      if n > 0 && cache[k].d.size < off { cache := cache[k := cache[k].(d := cache[k].d.(size := off))]; }
      assert cache[k := cache[k]] == cache;
      Iupdate(k);
    }

    /** writei; after `ToDevice` and the panics the state is of no account. */
    method WriteiFrom(k: nat, off: nat, p: seq<byte>) returns (r: WriteResult)
      requires Ready() && FsOk(State()) && GeoOk(disk) && k < |cache| && cache[k].count > 0 && off + |p| <= 31 * 512
      requires cache[k].inum < Inodes(disk)
      modifies this`disk, this`cache, this`busy, this`data
      ensures Valid() && busy == old(busy)
      ensures r == Write(old(State()), k, off, p) && (r.Wrote? ==> State() == r.fs)
    {
      hide FsOk, GeoOk, Loop, Finish;
      if cache[k].d.kind == T_DEV { return ToDevice; }
      if cache[k].d.kind != T_FILE { return PanicType; }
      ghost var fs0 := State();
      var ok := WriteLoop(k, off, p);
      if !ok { return Full; }
      GoingParts(fs0, State(), k);
      WriteEnds(fs0, State(), k, off, p);
      WriteEnd(k, off + |p|, |p|);
      r := Wrote(Fs(disk, cache), |p|);
    }

    // -------------------------------------------------------------- namei

    /** The inner loop: the component against one name field. */
    method MatchName(q: seq<byte>, f: seq<byte>) returns (hit: bool, i: nat)
      requires |f| == 14 && 0 !in q
      ensures hit <==> NameOf(f) == Comp(q)
      ensures hit ==> i == |Comp(q)|
    {
      i := 0;
      while i < 14 && i < |q| && q[i] != SLASH && q[i] == f[i]
        invariant i <= 14 && i <= |q| && MatchEnd(q, f, 0) == MatchEnd(q, f, i)
      {
        i := i + 1;
      }
      MatchesExactly(q, f);
      hit := (i == |q| || q[i] == SLASH) && (i >= 14 || f[i] == 0);
    }

    /** The entries of one block. */
    method SearchBlock(bp: nat, q: seq<byte>) returns (ep: nat, i: nat)
      requires Valid() && bp < NBUF && 0 !in q
      ensures ep < 32 ==> i == |Comp(q)|
      ensures ep <= 32 && (ep < 32 ==> Hit(EntryIn(data[bp], ep), Comp(q)))
      ensures forall x :: 0 <= x < ep ==> !Hit(EntryIn(data[bp], x), Comp(q))
    {
      hide NameOf, Comp;
      ep, i := 0, 0;
      while ep < 32
        invariant ep <= 32 && forall x :: 0 <= x < ep ==> !Hit(EntryIn(data[bp], x), Comp(q))
      {
        var e := EntryIn(data[bp], ep);
        if e.inum != 0 {
          var hit;
          hit, i := MatchName(q, e.name);
          if hit { return; }
        }
        ep := ep + 1;
      }
    }

    /** The loop over the blocks of a directory; the entry in use that has the name, if any. */
    method SearchDir(k: nat, q: seq<byte>) returns (r: Option<u16>, i: nat)
      requires Ready() && k < |cache| && Readable(disk, cache[k].d) && 0 !in q
      modifies this`busy, this`data
      ensures Valid() && busy == old(busy)
      ensures var n := cache[k].d; var e := Lookup(disk, n, Comp(q), 0);
        r == if e < Slots(n.size) then Some(SlotAt(disk, n, e).inum) else None
      ensures r.Some? ==> i == |Comp(q)|
    {
      hide Comp, Readable, Lookup, NoneBefore, Slots, SlotAt;
      ghost var n := cache[k].d;
      var blk: nat := 0;
      NoneYet(disk, n, Comp(q));
      while blk * 512 < cache[k].d.size
        invariant blk * 32 <= Slots(n.size) && busy == old(busy) && Valid()
        invariant NoneBefore(disk, n, Comp(q), blk * 32)
        decreases cache[k].d.size - blk * 512
      {
        r, i := SearchOne(k, blk, q);
        if r.Some? { return; }
        blk := blk + 1;
      }
      LookupFails(disk, n, Comp(q), blk * 32);
      r, i := None, 0;
    }

    /** One block of a directory. */
    method SearchOne(k: nat, blk: nat, q: seq<byte>) returns (r: Option<u16>, i: nat)
      requires Ready() && k < |cache| && Readable(disk, cache[k].d) && 0 !in q && blk * 512 < cache[k].d.size
      requires blk * 32 <= Slots(cache[k].d.size) && NoneBefore(disk, cache[k].d, Comp(q), blk * 32)
      modifies this`busy, this`data
      ensures Valid() && busy == old(busy)
      ensures blk * 32 + 32 <= Slots(cache[k].d.size)
      ensures r.None? ==> NoneBefore(disk, cache[k].d, Comp(q), blk * 32 + 32)
      ensures r.Some? ==>
        var n := cache[k].d; var e := Lookup(disk, n, Comp(q), 0);
        e < Slots(n.size) && r == Some(SlotAt(disk, n, e).inum) && i == |Comp(q)|
    {
      hide NameOf, Comp, EntryOf, Readable, Lookup, NoneBefore, Slots, SlotAt;
      ghost var n := cache[k].d;
      BlockMissed(disk, n, Comp(q), blk * 512);
      var b := Bmap(k, blk);
      var bp := Bread(b);
      var ep;
      ep, i := SearchBlock(bp, q);
      r := None;
      if ep < 32 {
        r := Some(EntryIn(data[bp], ep).inum);
        BlockHit(disk, n, Comp(q), blk * 512, ep);
      }
      Brelse(bp, old(busy));
    }

    /** while (*cp == '/') cp++ */
    method SkipSlashes(path: seq<byte>, from: nat) returns (cp: nat)
      requires from <= |path|
      ensures from <= cp <= |path| && path[cp..] == Skip(path[from..]) && (cp < |path| ==> path[cp] != SLASH)
    {
      cp := from;
      while cp < |path| && path[cp] == SLASH
        invariant from <= cp <= |path| && Skip(path[cp..]) == Skip(path[from..])
      {
        assert path[cp..][1..] == path[cp + 1..];
        cp := cp + 1;
      }
      assert cp < |path| ==> path[cp..][0] == path[cp];
    }

    /** One turn of the loop of namei, at a component: `r` is the next directory, or how namei ends. */
    method NameiTurn(k: nat, q: seq<byte>, ghost fs0: Fs, ghost i: nat) returns (r: Result, n: nat)
      requires Ready() && FsOk(fs0) && GeoOk(fs0.disk) && DirsOk(Files(fs0)) && i < Inodes(fs0.disk)
      requires Held(fs0, State(), k, i) && q != [] && q[0] != SLASH && 0 !in q
      modifies this`cache, this`busy, this`data
      ensures Valid() && busy == old(busy)
      ensures r.Found? || r.NotFound? ==> State() == r.fs
      ensures r.Found? ==> r.k < |cache| && Held(fs0, State(), r.k, cache[r.k].inum) && 0 < n == |Comp(q)|
      ensures k < |old(cache)|
      ensures From(old(State()), k, q) == if r.Found? then From(r.fs, r.k, q[|Comp(q)|..]) else r
    {
      hide FsOk, DirsOk, Held, From, Readable, GeoOk, Lookup, SlotAt, Slots, Files, Comp, Inodes;
      n := 0;
      ghost var fs := State();
      TurnFacts(fs0, fs, k, i, q);
      if cache[k].d.kind != T_DIR {
        IputEntry(k);
        return Result.NotFound(Fs(disk, cache)), 0;
      }
      var j;
      j, n := SearchDir(k, q);
      IputEntry(k);
      if j.None? { return Result.NotFound(Fs(disk, cache)), 0; }
      TurnEnters(fs0, fs, k, i, q);
      var g := IgetEntry(j.value);
      if g == Asleep { return Result.MustSleep, 0; }
      if g == OutOfInodes { return Result.TableFull, 0; }
      r := Result.Found(Fs(disk, cache), g.k);
    }

    /** The loop of namei, with dp in entry `k`. */
    method NameiLoop(k: nat, path: seq<byte>, ghost fs0: Fs) returns (r: Result)
      requires Ready() && FsOk(fs0) && GeoOk(fs0.disk) && DirsOk(Files(fs0)) && k < |cache| && cache[k].inum < Inodes(fs0.disk)
      requires Held(fs0, State(), k, cache[k].inum) && 0 !in path
      modifies this`cache, this`busy, this`data
      ensures Valid() && busy == old(busy)
      ensures r == From(old(State()), k, path) && (r.Found? || r.NotFound? ==> State() == r.fs)
    {
      hide FsOk, DirsOk, Held, From, GeoOk, Restored, Comp, Skip, Files, Inodes;
      r := Result.Found(Fs(disk, cache), k);
      var cp: nat := 0;
      assert path[0..] == path;
      while true
        invariant cp <= |path| && Ready() && busy == old(busy) && r.Found? && State() == r.fs && r.k < |cache|
        invariant Held(fs0, State(), r.k, cache[r.k].inum)
        invariant From(r.fs, r.k, path[cp..]) == From(old(State()), k, path)
        decreases |path| - cp
      {
        HeldParts(fs0, State(), r.k, cache[r.k].inum);
        FromSkips(r.fs, r.k, path[cp..]);
        cp := SkipSlashes(path, cp);
        FromUnfolds(r.fs, r.k, path[cp..]);
        if cp == |path| { return; }
        var q, n := path[cp..], 0;
        assert forall m :: 0 <= m <= |q| ==> q[m..] == path[cp + m..];
        r, n := NameiTurn(r.k, q, fs0, cache[r.k].inum);
        if !r.Found? { return; }
        cp := cp + n;
      }
    }

    /**
     * namei. On success `r` has the entry; otherwise it tells apart the return of 0, the sleep and the
     * panic of iget.
     */
    method NameiPath(path: seq<byte>) returns (r: Result)
      requires Ready() && TreeOk(State()) && 2 < |disk| && 0 !in path
      modifies this`cache, this`busy, this`data
      ensures Valid() && busy == old(busy)
      ensures r == Namei(old(State()), path) && (r.Found? || r.NotFound? ==> State() == r.fs)
    {
      hide TreeOk, FsOk, DirsOk, Held, From, GeoOk, Restored;
      ghost var fs0 := State();
      TreeParts(fs0);
      RestoredNow(fs0);
      RootInode(fs0.disk);
      EnterHolds(fs0, fs0, 1);
      var g := IgetEntry(1);
      if g == Asleep { return Result.MustSleep; }
      if g == OutOfInodes { return Result.TableFull; }
      HeldParts(fs0, State(), g.k, 1);
      r := NameiLoop(g.k, path, fs0);
    }

    // -------------------------------------------------------------- mknod

    /** The block of entry `e` is in buffer `bp`. */
    ghost predicate Fetched(before: seq<bool>, n: Dinode, e: nat, bp: nat)
      reads this
    { Only(before, bp) && e / 32 < 31 && n.addrs[e / 32] < |disk| && data[bp] == disk[n.addrs[e / 32]] }

    /** The scan of mknod: the first entry not in use, with its block in a buffer when there is one. */
    method FindSlot(kd: nat) returns (e: nat, bp: nat)
      requires Ready() && kd < |cache| && Readable(disk, cache[kd].d)
      modifies this`busy, this`data
      ensures e == FreeSlot(disk, cache[kd].d, 0)
      ensures e == Slots(cache[kd].d.size) ==> Valid() && busy == old(busy)
      ensures e < Slots(cache[kd].d.size) ==> Fetched(old(busy), cache[kd].d, e, bp)
    {
      hide Readable, FreeSlot, Slots, SlotAt, Only, Fetched;
      ghost var n := cache[kd].d;
      var blk: nat := 0;
      bp := 0;
      while blk * 512 < cache[kd].d.size
        invariant blk * 32 <= Slots(n.size) && busy == old(busy) && Valid()
        invariant FreeSlot(disk, n, 0) == FreeSlot(disk, n, blk * 32)
        decreases cache[kd].d.size - blk * 512
      {
        var ep;
        ep, bp := ScanBlock(kd, blk);
        if ep != 32 { return blk * 32 + ep, bp; }
        blk := blk + 1;
      }
      SlotsEnd(disk, n, blk * 32);
      e := blk * 32;
    }

    /** One block of a directory: its first entry not in use, or 32 with the buffer given back. */
    method ScanBlock(kd: nat, blk: nat) returns (ep: nat, bp: nat)
      requires Ready() && kd < |cache| && Readable(disk, cache[kd].d) && blk * 512 < cache[kd].d.size
      requires blk * 32 <= Slots(cache[kd].d.size)
      modifies this`busy, this`data
      ensures ep <= 32 && blk * 32 + 32 <= Slots(cache[kd].d.size)
      ensures FreeSlot(disk, cache[kd].d, blk * 32) == FreeSlot(disk, cache[kd].d, blk * 32 + ep)
      ensures ep == 32 ==> Valid() && busy == old(busy)
      ensures ep < 32 ==> FreeSlot(disk, cache[kd].d, blk * 32 + ep) == blk * 32 + ep && Fetched(old(busy), cache[kd].d, blk * 32 + ep, bp)
    {
      hide FirstFreeIn, Readable, FreeSlot, Slots, SlotAt;
      BlockInRange(disk, cache[kd].d, blk * 512);
      var b := Bmap(kd, blk);
      bp := Bread(b);
      ep := FreeIn(bp);
      BlockScanned(disk, cache[kd].d, blk * 512, ep);
      if ep == 32 { Brelse(bp, old(busy)); }
    }

    /** The first entry of a block that is not in use. */
    method FreeIn(bp: nat) returns (ep: nat)
      requires Valid() && bp < NBUF
      ensures FirstFreeIn(data[bp], ep)
    {
      ep := 0;
      while ep < 32 && EntryIn(data[bp], ep).inum != 0
        invariant ep <= 32 && forall x :: 0 <= x < ep ==> EntryIn(data[bp], x).inum != 0
      {
        ep := ep + 1;
      }
    }

    /** ep->inum = i, and the loop that copies at most 14 bytes of the name. */
    method FillEntry(bp: nat, o: nat, i: u16, name: seq<byte>)
      requires Valid() && bp < NBUF && o + 16 <= 512
      modifies this`data
      ensures Valid() && data == old(data)[bp := Splice(Splice(old(data)[bp], o, U16Bytes(i)), o + 2, Cut(name))]
    {
      var s: Sector := Splice(data[bp], o, U16Bytes(i));
      data := data[bp := s];
      ghost var d1 := data;
      var c: nat := 0;
      assert Splice(s, o + 2, name[..0]) == s;
      while c < 14 && c < |name|
        invariant c <= 14 && c <= |name| && Valid() && data == d1[bp := Splice(s, o + 2, name[..c])]
      {
        data := data[bp := data[bp][o + 2 + c := name[c]]];
        assert data[bp] == Splice(s, o + 2, name[..c + 1]);
        c := c + 1;
      }
      assert name[..c] == Cut(name);
    }

    /** The second half of mknod; false is its panic. */
    method EnlistIn(k: nat, kd: nat, name: seq<byte>) returns (ok: bool)
      requires Ready() && kd < |cache| && k < |cache| && cache[k].inum < 0x1_0000
      requires Readable(disk, cache[kd].d) && InodeSector(cache[kd].inum) < |disk|
      modifies this`disk, this`cache, this`busy, this`data
      ensures Valid() && busy == old(busy)
      ensures Enlist(old(State()), k, kd, name) == if ok then Made(State(), k) else NoSlot
    {
      hide FreeSlot, Readable, PutHeader, Splice;
      var n := cache[kd].d;
      SmallDir(disk, n);
      var e, bp := FindSlot(kd);
      if e == Slots(n.size) { return false; }
      FillEntry(bp, 16 * (e % 32), cache[k].inum, name);
      var w := Bmap(kd, e / 32);
      Bwrite(bp, w);
      Brelse(bp, old(busy));
      cache := cache[kd := cache[kd].(d := n.(size := n.size + 16))];
      Iupdate(kd);
      ok := true;
    }

    /** mknod in the directory of entry `kd`, when an inode is free. */
    method MknodIn(kd: nat, name: seq<byte>, kind: u16, major: u16, minor: u16) returns (r: Made)
      requires Ready() && TreeOk(State()) && GeoOk(disk) && kd < |cache| && cache[kd].count > 0
      requires cache[kd].d.kind == T_DIR && kind != 0 && FreeInode(disk, 1) < Inodes(disk)
      modifies this`disk, this`cache, this`busy, this`data
      ensures Valid() && busy == old(busy)
      ensures r == Mknod(old(State()), kd, name, kind, major, minor)
      ensures r.Made? ==> State() == r.fs
    {
      hide TreeOk, GeoOk, FreeInode, Inodes, Ialloc, Enlist, Readable, PutHeader;
      ghost var fs := State();
      var g := IallocEntry(kind);
      if g == Asleep { return Made.MustSleep; }
      if g == OutOfInodes { return Made.TableFull; }
      var k := g.k;
      HalfMade(fs, kd, kind, major, minor);
      cache := cache[k := cache[k].(d := cache[k].d.(major := major, minor := minor, nlink := 0, size := 0))];
      Iupdate(k);
      var ok := EnlistIn(k, kd, name);
      if !ok { return NoSlot; }
      r := Made(Fs(disk, cache), k);
    }
  }

  // ---------------------------------------------------------------- kernel/fd.c

  /** struct fd of type FD_FILE. */
  class Descriptor {
    var readable: bool
    var writeable: bool
    var off: nat
    var k: nat

    ghost function Value(): Fd
      reads this
    { Fd(readable, writeable, off, k) }

    /** fd_read: the offset moves by what readi returned. */
    method ReadInto(fs: Kernel, dst: array<byte>, n: nat) returns (r: int)
      requires fs.Ready() && k < |fs.cache| && (readable ==> Readi(fs.State(), k, dst[..], off, n).Read?)
      modifies this`off, dst, fs`busy, fs`data
      ensures fs.Valid() && fs.busy == old(fs.busy)
      ensures match FdRead(fs.State(), old(Value()), old(dst[..]), n)
        case None => r == -1 && Value() == old(Value()) && dst[..] == old(dst[..])
        case Some((fd, buf, c)) => r == c && Value() == fd && dst[..] == buf
    {
      if !readable { return -1; }
      r := fs.ReadiInto(k, dst, off, n);
      if r > 0 { off := off + r; }
    }

    /** fd_write; false is a panic or a device below it. */
    method WriteFrom(fs: Kernel, p: seq<byte>) returns (ok: bool, r: int)
      requires fs.Ready() && FsOk(fs.State()) && GeoOk(fs.disk) && k < |fs.cache| && fs.cache[k].count > 0
      requires fs.cache[k].inum < Inodes(fs.disk) && off + |p| <= 31 * 512
      modifies this`off, fs`disk, fs`cache, fs`busy, fs`data
      ensures fs.Valid() && fs.busy == old(fs.busy)
      ensures !old(writeable) ==> ok && r == -1 && Value() == old(Value()) && fs.State() == old(fs.State())
      ensures old(writeable) ==>
        match FdWrite(old(fs.State()), old(Value()), p)
        case None => !ok
        case Some((fs', fd, c)) => ok && r == c && Value() == fd && fs.State() == fs'
    {
      if !writeable { return true, -1; }
      var w := fs.WriteiFrom(k, off, p);
      if !w.Wrote? { return false, -1; }
      r := w.n;
      if r > 0 { off := off + r; }
      ok := true;
    }
  }
}
