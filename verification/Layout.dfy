/**
 * include/fs.h: the on-disk structures. Sector 0 is unused, sector 1 holds the superblock, inodes
 * start at sector 2 with three 140-byte inodes a sector, the bitmap follows them, then the data.
 */
module Layout {
  import opened Bytes

  type Disk = seq<Sector>

  type Addrs = s: seq<u32> | |s| == 32 witness seq(32, _ => 0)

  /** struct dinode. */
  datatype Dinode = Dinode(kind: u16, major: u16, minor: u16, nlink: u16, size: u32, addrs: Addrs)

  const T_DIR: u16 := 1
  const T_FILE: u16 := 2
  const T_DEV: u16 := 3

  // ---------------------------------------------------------------- one inode in its sector

  function HeaderBytes(d: Dinode): (r: seq<byte>)
    ensures |r| == 12
  { U16Bytes(d.kind) + U16Bytes(d.major) + U16Bytes(d.minor) + U16Bytes(d.nlink) + U32Bytes(d.size) }

  function AddrBytes(a: Addrs): (r: seq<byte>)
    ensures |r| == 128
  { seq(128, j requires 0 <= j < 128 => U32Bytes(a[j / 4])[j % 4]) }

  function DinodeBytes(d: Dinode): (r: seq<byte>)
    ensures |r| == 140
  { HeaderBytes(d) + AddrBytes(d.addrs) }

  function DinodeAt(s: Sector, o: nat): Dinode
    requires o + 140 <= 512
  {
    Dinode(U16At(s, o), U16At(s, o + 2), U16At(s, o + 4), U16At(s, o + 6), U32At(s, o + 8),
           seq(32, k requires 0 <= k < 32 => U32At(s, o + 12 + 4 * k)))
  }

  /** An inode is decoded from its own 140 bytes only. */
  lemma DinodeAtReadsOwnBytes(s: Sector, t: Sector, o: nat)
    requires o + 140 <= 512 && forall k :: o <= k < o + 140 ==> s[k] == t[k]
    ensures DinodeAt(s, o) == DinodeAt(t, o)
  {
    forall k | 0 <= k < 32 ensures U32At(s, o + 12 + 4 * k) == U32At(t, o + 12 + 4 * k) {}
    assert DinodeAt(s, o).addrs == DinodeAt(t, o).addrs;
  }

  lemma HeaderFields(s: Sector, o: nat, d: Dinode)
    requires o + 140 <= 512 && forall k :: 0 <= k < 12 ==> s[o + k] == HeaderBytes(d)[k]
    ensures DinodeAt(s, o).(addrs := d.addrs) == d
  {
    var h := HeaderBytes(d);
    assert h[0] == d.kind % 256 && h[1] == d.kind / 256 && h[2] == d.major % 256 && h[3] == d.major / 256;
    assert h[4] == d.minor % 256 && h[5] == d.minor / 256 && h[6] == d.nlink % 256 && h[7] == d.nlink / 256;
    forall k | 0 <= k < 4 ensures h[8 + k] == U32Bytes(d.size)[k] {}
    U32RoundTrip(d.size);
    assert s[o + 0] == h[0] && s[o + 1] == h[1] && s[o + 2] == h[2] && s[o + 3] == h[3];
    assert s[o + 4] == h[4] && s[o + 5] == h[5] && s[o + 6] == h[6] && s[o + 7] == h[7];
    assert s[o + 8] == h[8] && s[o + 9] == h[9] && s[o + 10] == h[10] && s[o + 11] == h[11];
  }

  lemma AddrFields(s: Sector, o: nat, a: Addrs, k: nat)
    requires o + 140 <= 512 && k < 32 && forall j :: 0 <= j < 128 ==> s[o + 12 + j] == AddrBytes(a)[j]
    ensures U32At(s, o + 12 + 4 * k) == a[k]
  {
    var b := AddrBytes(a);
    forall j | 0 <= j < 4 ensures s[o + 12 + 4 * k + j] == U32Bytes(a[k])[j] {
      assert (4 * k + j) / 4 == k && (4 * k + j) % 4 == j;
      assert s[o + 12 + (4 * k + j)] == b[4 * k + j];
    }
    U32RoundTrip(a[k]);
  }

  lemma SplicedParts(s: Sector, o: nat, h: seq<byte>, a: seq<byte>)
    requires |h| == 12 && |a| == 128 && o + 140 <= 512
    ensures var t := Splice(s, o, h + a);
      && (forall k :: 0 <= k < 12 ==> t[o + k] == h[k])
      && (forall j :: 0 <= j < 128 ==> t[o + 12 + j] == a[j])
  {
    forall j | 0 <= j < 128 ensures Splice(s, o, h + a)[o + 12 + j] == a[j] {
      assert (h + a)[12 + j] == a[j];
    }
  }

  /** Storing an inode and reading it back. */
  lemma DinodeRoundTrip(s: Sector, o: nat, d: Dinode)
    requires o + 140 <= 512
    ensures DinodeAt(Splice(s, o, DinodeBytes(d)), o) == d
  {
    hide HeaderBytes, AddrBytes, Splice;
    var t: Sector := Splice(s, o, DinodeBytes(d));
    SplicedParts(s, o, HeaderBytes(d), AddrBytes(d.addrs));
    HeaderFields(t, o, d);
    forall k | 0 <= k < 32 ensures U32At(t, o + 12 + 4 * k) == d.addrs[k] {
      AddrFields(t, o, d.addrs, k);
    }
    assert DinodeAt(t, o).addrs == d.addrs;
  }

  /** Storing the twelve header bytes leaves the block addresses as they were. */
  lemma HeaderRoundTrip(s: Sector, o: nat, d: Dinode)
    requires o + 140 <= 512
    ensures DinodeAt(Splice(s, o, HeaderBytes(d)), o) == d.(addrs := DinodeAt(s, o).addrs)
  {
    var t: Sector := Splice(s, o, HeaderBytes(d));
    forall k | 0 <= k < 12 ensures t[o + k] == HeaderBytes(d)[k] {}
    HeaderFields(t, o, d);
    forall k | 0 <= k < 32 ensures U32At(t, o + 12 + 4 * k) == U32At(s, o + 12 + 4 * k) {}
    assert DinodeAt(t, o).addrs == DinodeAt(s, o).addrs;
  }

  // ---------------------------------------------------------------- the inode table

  /** IBLOCK(inum), i2b(inum). */
  function InodeSector(i: nat): nat { i / 3 + 2 }
  function InodeOffset(i: nat): (o: nat)
    ensures o + 140 <= 512
  { i % 3 * 140 }

  function GetInode(d: Disk, i: nat): Dinode
    requires InodeSector(i) < |d|
  { DinodeAt(d[InodeSector(i)], InodeOffset(i)) }

  /** winode: read the sector, replace the inode, write the sector. */
  function PutInode(d: Disk, i: nat, n: Dinode): (r: Disk)
    requires InodeSector(i) < |d|
    ensures |r| == |d|
  { d[InodeSector(i) := Splice(d[InodeSector(i)], InodeOffset(i), DinodeBytes(n))] }

  /** The part of iupdate that reaches the disk: every field except the block addresses. */
  function PutHeader(d: Disk, i: nat, n: Dinode): (r: Disk)
    requires InodeSector(i) < |d|
    ensures |r| == |d|
  { d[InodeSector(i) := Splice(d[InodeSector(i)], InodeOffset(i), HeaderBytes(n))] }

  lemma PutInodeGets(d: Disk, i: nat, n: Dinode, j: nat)
    requires InodeSector(i) < |d| && InodeSector(j) < |d|
    ensures GetInode(PutInode(d, i, n), j) == if j == i then n else GetInode(d, j)
  {
    var s := d[InodeSector(i)];
    if j == i {
      DinodeRoundTrip(s, InodeOffset(i), n);
    } else if InodeSector(j) == InodeSector(i) {
      DinodeAtReadsOwnBytes(s, Splice(s, InodeOffset(i), DinodeBytes(n)), InodeOffset(j));
    }
  }

  lemma PutHeaderGets(d: Disk, i: nat, n: Dinode, j: nat)
    requires InodeSector(i) < |d| && InodeSector(j) < |d|
    ensures GetInode(PutHeader(d, i, n), j)
         == if j == i then n.(addrs := GetInode(d, i).addrs) else GetInode(d, j)
  {
    var s := d[InodeSector(i)];
    if j == i {
      HeaderRoundTrip(s, InodeOffset(i), n);
    } else if InodeSector(j) == InodeSector(i) {
      DinodeAtReadsOwnBytes(s, Splice(s, InodeOffset(i), HeaderBytes(n)), InodeOffset(j));
    }
  }

  // ---------------------------------------------------------------- superblock and directory entries

  function SuperBytes(size: u32, nblocks: u32, ninodes: u32): (r: seq<byte>)
    ensures |r| == 12
  { U32Bytes(size) + U32Bytes(nblocks) + U32Bytes(ninodes) }

  function SuperSize(s: Sector): u32 { U32At(s, 0) }
  function SuperInodes(s: Sector): u32 { U32At(s, 8) }

  lemma SuperRoundTrip(s: Sector, size: u32, nblocks: u32, ninodes: u32)
    ensures SuperSize(Splice(s, 0, SuperBytes(size, nblocks, ninodes))) == size
    ensures SuperInodes(Splice(s, 0, SuperBytes(size, nblocks, ninodes))) == ninodes
  {
    var r := SuperBytes(size, nblocks, ninodes);
    forall k | 0 <= k < 4 ensures r[k] == U32Bytes(size)[k] && r[8 + k] == U32Bytes(ninodes)[k] {}
    U32RoundTrip(size);
    U32RoundTrip(ninodes);
  }

  /** The 14 bytes of the name field of a directory entry. */
  function NameField(name: seq<byte>): (r: seq<byte>)
    requires |name| <= 14
    ensures |r| == 14
  { name + seq(14 - |name|, _ => 0) }

  /** struct dirent: a 16-bit inode number and 14 bytes of name. */
  function DirentBytes(inum: u16, name: seq<byte>): (r: seq<byte>)
    requires |name| <= 14
    ensures |r| == 16
  { U16Bytes(inum) + NameField(name) }

  /** The name held by a name field: the bytes before the first zero. */
  function NameOf(f: seq<byte>): (r: seq<byte>)
    ensures |r| <= |f| && r == f[..|r|] && 0 !in r && (|r| < |f| ==> f[|r|] == 0)
  { if f == [] || f[0] == 0 then [] else [f[0]] + NameOf(f[1..]) }

  lemma {:induction false} NameOfPadded(name: seq<byte>, n: nat)
    requires 0 !in name
    ensures NameOf(name + seq(n, _ => 0)) == name
  {
    var pad: seq<byte> := seq(n, _ => 0);
    var f := name + pad;
    if name == [] {
      assert f == [] || f[0] == 0;
    } else {
      assert f[1..] == name[1..] + pad;
      NameOfPadded(name[1..], n);
    }
  }

  lemma NameRoundTrip(name: seq<byte>)
    requires |name| <= 14 && 0 !in name
    ensures NameOf(NameField(name)) == name
  {
    NameOfPadded(name, 14 - |name|);
  }
}
