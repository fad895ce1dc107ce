/** mkfs/mkfs.c as code on its global state, each function proved against its model in Mkfs. */
module Builder {
  import opened Options
  import opened Bytes
  import opened Layout
  import opened Bitmap
  import opened Append
  import opened Mkfs

  class Builder {
    var disk: Disk
    var freeblock: u32
    var usedblocks: u32
    var freeinode: nat

    function State(): Img
      reads this
    { Img(disk, freeblock, usedblocks, freeinode) }

    constructor ()
      ensures State() == Format()
    {
      disk := seq(2048, _ => ZeroSector())[1 := Splice(ZeroSector(), 0, SuperBytes(2048, 2011, 100))];
      freeblock, usedblocks, freeinode := 37, 37, 1;
    }

    /** wsect within the image. */
    method Wsect(sec: nat, s: Sector)
      requires sec < |disk|
      modifies this`disk
      ensures disk == old(disk)[sec := s]
    { disk := disk[sec := s]; }

    /** rsect; None is its exit(1) when the sector is past the end of the image. */
    method Rsect(sec: nat) returns (s: Option<Sector>)
      ensures s == if sec < |disk| then Some(disk[sec]) else None
    { s := if sec < |disk| then Some(disk[sec]) else None; }

    method Winode(inum: nat, n: Dinode)
      requires InodeSector(inum) < |disk|
      modifies this`disk
      ensures disk == PutInode(old(disk), inum, n)
    {
      var buf := disk[InodeSector(inum)];
      Wsect(InodeSector(inum), Splice(buf, InodeOffset(inum), DinodeBytes(n)));
    }

    method IallocNew(kind: u16) returns (inum: nat)
      requires InodeSector(freeinode) < |disk|
      modifies this
      ensures inum == old(freeinode) && State() == Ialloc(old(State()), kind)
    {
      inum := freeinode;
      freeinode := freeinode + 1;
      Winode(inum, EmptyInode(kind));
    }

    method TakeBlock() returns (b: u32)
      modifies this`freeblock, this`usedblocks
      ensures b == old(freeblock) && freeblock == Next(old(freeblock)) && usedblocks == Next(old(usedblocks))
    {
      b := freeblock;
      freeblock, usedblocks := Next(freeblock), Next(usedblocks);
    }

    /** The first half of a round of iappend: the sector of file block `fbn`. */
    method BlockFor(d: Dinode, fbn: nat) returns (ok: bool, din: Dinode, wbn: u32)
      modifies this
      ensures freeinode == old(freeinode)
      ensures var e := EnsureBlock(Build(old(disk), d, old(freeblock), old(usedblocks)), fbn);
        && (ok <==> e.Some?) && (ok ==> e.value == (Build(disk, din, freeblock, usedblocks), wbn) && |disk| == |old(disk)|)
    {
      din, wbn := d, 0;
      if fbn < 31 {
        if din.addrs[fbn] == 0 {
          var b := TakeBlock();
          din := din.(addrs := din.addrs[fbn := b]);
        }
        return true, din, din.addrs[fbn];
      }
      if fbn - 31 >= 128 { return false, din, 0; }
      if din.addrs[31] == 0 {
        var b := TakeBlock();
        din := din.(addrs := din.addrs[31 := b]);
      }
      var p := din.addrs[31];
      var ind := Rsect(p);
      if ind.None? { return false, din, 0; }
      var k := fbn - 31;
      var buf := ind.value;
      if U32At(buf, 4 * k) == 0 {
        var b := TakeBlock();
        buf := Splice(buf, 4 * k, U32Bytes(b));
      }
      wbn := U32At(buf, 4 * k);
      assert disk[p := disk[p]] == disk;
      Wsect(p, buf);
      ok := true;
    }

    /** One round of the loop of iappend: the chunk of `p` that fits the block of `off`. */
    method RoundOf(d: Dinode, off: nat, p: seq<byte>) returns (ok: bool, din: Dinode)
      modifies this
      ensures freeinode == old(freeinode)
      ensures var r := Round(Build(old(disk), d, old(freeblock), old(usedblocks)), off, p);
        && (ok <==> r.Some?) && (ok ==> r.value == Build(disk, din, freeblock, usedblocks) && |disk| == |old(disk)|)
        && (ok ==> off / 512 < 159)
    {
      hide EnsureBlock;
      var fbn := off / 512;
      FoundInRange(Build(disk, d, freeblock, usedblocks), fbn);
      var got, din1, wbn := BlockFor(d, fbn);
      din := din1;
      if !got { return false, din; }
      var buf := Rsect(wbn);
      if buf.None? { return false, din; }
      var n1 := Min(|p|, (fbn + 1) * 512 - off);
      Wsect(wbn, Splice(buf.value, off - fbn * 512, p[..n1]));
      ok := true;
    }

    method IappendFile(inum: nat, p: seq<byte>) returns (ok: bool)
      requires InodeSector(inum) < |disk|
      modifies this
      ensures var r := Iappend(old(State()), inum, p); (ok <==> r.Some?) && (ok ==> State() == r.value)
      ensures ok ==> |disk| == |old(disk)| && freeinode == old(freeinode)
    {
      hide Round, GetInode, PutInode;
      var din := GetInode(disk, inum);
      var off: nat, k: nat := din.size, 0;
      ghost var start := AppendLoop(Build(disk, din, freeblock, usedblocks), off, p);
      assert p[0..] == p;
      while k < |p|
        invariant k <= |p| && |disk| == |old(disk)| && freeinode == old(freeinode) && off < 0x1_0000_0000
        invariant AppendLoop(Build(disk, din, freeblock, usedblocks), off, p[k..]) == start
      {
        var n1 := Chunk(off, p[k..]);
        assert p[k..][n1..] == p[k + n1..];
        ok, din := RoundOf(din, off, p[k..]);
        if !ok { return; }
        off, k := off + n1, k + n1;
      }
      assert p[k..] == [];
      Winode(inum, din.(size := off));
      ok := true;
    }

    /** balloc: the first `used` bits of the bitmap sector. */
    method Balloc(used: nat)
      requires used <= 4096 && 36 < |disk|
      modifies this`disk
      ensures disk == old(disk)[36 := UsedBits(used)]
    {
      var buf := ZeroSector();
      var i := 0;
      while i < used
        invariant i <= used && buf == UsedBits(i)
      {
        buf := SetSectorBit(buf, i);
        i := i + 1;
      }
      Wsect(100 / 3 + 3, buf);
    }

    method AppendChunks(inum: nat, data: seq<byte>) returns (ok: bool)
      requires InodeSector(inum) < |disk|
      modifies this
      ensures var r := AddChunks(old(State()), inum, data); (ok <==> r.Some?) && (ok ==> State() == r.value)
      ensures ok ==> |disk| == |old(disk)| && freeinode == old(freeinode)
    {
      hide Iappend;
      var k := 0;
      while k < |data|
        invariant k <= |data| && |disk| == |old(disk)| && freeinode == old(freeinode)
        invariant AddChunks(State(), inum, data[k..]) == AddChunks(old(State()), inum, data)
      {
        var cc := Min(|data| - k, 512);
        assert data[k..][..cc] == data[k..k + cc] && data[k..][cc..] == data[k + cc..];
        ok := IappendFile(inum, data[k..k + cc]);
        if !ok { return; }
        k := k + cc;
      }
      assert data[k..] == [];
      ok := true;
    }

    /** main after the image is formatted: the root directory, the files, the bitmap. */
    method BuildImage(fs: seq<File>) returns (ok: bool)
      requires State() == Format() && Named(fs)
      modifies this
      ensures ok <==> Make(fs).Some?
      ensures ok ==> disk == Make(fs).value
    {
      hide Iappend, AddChunks, Format;
      FormatSize();
      var root := IallocNew(T_DIR);
      ok := IappendFile(root, DirentBytes(root, Dot()));
      if !ok { return; }
      ok := IappendFile(root, DirentBytes(root, DotDot()));
      if !ok { return; }
      ghost var start := State();
      var i := 0;
      while i < |fs|
        invariant i <= |fs| && freeinode == i + 2 && |disk| == 2048
        invariant AddFiles(State(), fs[i..]) == AddFiles(start, fs)
      {
        ok := AddOne(fs[i]);
        if !ok { return; }
        assert fs[i..][1..] == fs[i + 1..];
        i := i + 1;
      }
      assert fs[i..] == [];
      if usedblocks > 4096 { return false; }
      Balloc(usedblocks);
      ok := true;
    }

    method AddOne(f: File) returns (ok: bool)
      requires |f.name| <= 13 && freeinode < 100 && |disk| == 2048
      modifies this
      ensures var r := AddFile(old(State()), f); (ok <==> r.Some?) && (ok ==> State() == r.value)
      ensures ok ==> |disk| == 2048 && freeinode == old(freeinode) + 1
    {
      hide Iappend, AddChunks;
      var inum := IallocNew(T_FILE);
      ok := IappendFile(1, DirentBytes(inum, f.name));
      if !ok { return; }
      ok := AppendChunks(inum, f.data);
    }
  }

  /** A block that could be had is an addressable one. */
  lemma FoundInRange(b: Build, f: nat)
    ensures EnsureBlock(b, f).Some? ==> f < 159
  {}

  lemma FormatSize()
    ensures |Format().disk| == 2048 && Format().nextIno == 1
  {}
}
