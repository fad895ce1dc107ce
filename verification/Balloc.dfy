/** kernel/fs.c: balloc and bfree on the bitmap that mkfs laid out, over any number of bitmap sectors. */
module Balloc {
  import opened Options
  import opened Layout
  import opened Bitmap

  function Size(d: Disk): nat
    requires 1 < |d|
  { SuperSize(d[1]) }

  function Inodes(d: Disk): nat
    requires 1 < |d|
  { SuperInodes(d[1]) }

  /** The first sector after the bitmap. */
  function DataStart(d: Disk): nat
    requires 1 < |d|
  { Inodes(d) / 3 + 3 + Size(d) / 4096 + 1 }

  /** The superblock describes this disk, as mkfs writes it. */
  predicate GeoOk(d: Disk)
  { 1 < |d| < 0x8000_0000 && Size(d) == |d| && DataStart(d) <= |d| && 1 < Inodes(d) <= 0x1_0000 }

  predicate InUse(d: Disk, b: nat)
    requires GeoOk(d) && b < |d|
  { Marked(d, Inodes(d), b) }

  /** The loop of balloc: the first sector from `b` on whose bit is clear. */
  function FirstClear(d: Disk, b: nat): (r: nat)
    requires GeoOk(d) && b <= |d|
    ensures b <= r <= |d| && (r < |d| ==> !InUse(d, r))
    ensures forall x :: b <= x < r ==> InUse(d, x)
    decreases |d| - b
  { if b == |d| || !InUse(d, b) then b else FirstClear(d, b + 1) }

  /** balloc; None is the panic "out of blocks". */
  function Alloc(d: Disk): Option<(Disk, nat)>
    requires GeoOk(d)
  {
    var b := FirstClear(d, 0);
    if b >= |d| then None else Some((Mark(d, Inodes(d), b), b))
  }

  function Free(d: Disk, b: nat): Disk
    requires GeoOk(d) && b < |d|
  { Unmark(d, Inodes(d), b) }

  lemma BitmapSector(d: Disk, b: nat)
    requires GeoOk(d) && b < |d|
    ensures 1 < BitSector(b, Inodes(d)) < DataStart(d)
    ensures forall i :: 0 <= i < Inodes(d) ==> InodeSector(i) < BitSector(b, Inodes(d))
  {}

  /** Only the bitmap sector of `b` changes, and the superblock is not it. */
  ghost predicate OnlyBitOf(d: Disk, d': Disk, b: nat)
    requires GeoOk(d) && b < |d|
  {
    && |d'| == |d| && GeoOk(d') && Inodes(d') == Inodes(d)
    && (forall c :: 0 <= c < |d| && c != BitSector(b, Inodes(d)) ==> d'[c] == d[c])
    && (forall x :: 0 <= x < |d| && x != b ==> (InUse(d', x) <==> InUse(d, x)))
  }

  /**
   * balloc fails exactly when every bit below the size is set; otherwise it returns the least sector
   * whose bit is clear, sets that bit, and changes nothing else.
   */
  lemma AllocTakesLeast(d: Disk)
    requires GeoOk(d)
    ensures Alloc(d).None? <==> forall x :: 0 <= x < |d| ==> InUse(d, x)
    ensures Alloc(d).Some? ==>
      var (d', b) := Alloc(d).value;
      && b < |d| && !InUse(d, b) && (forall x :: 0 <= x < b ==> InUse(d, x))
      && OnlyBitOf(d, d', b) && InUse(d', b)
  {
    if Alloc(d).Some? {
      var (d', b) := Alloc(d).value;
      BitmapSector(d, b);
      forall x | 0 <= x < |d| ensures InUse(d', x) <==> x == b || InUse(d, x) { MarkReads(d, Inodes(d), b, x); }
    }
  }

  /** While nothing is freed, a later call returns a greater sector: `d2` has every bit that the first call left set. */
  lemma AllocIncreases(d: Disk, d2: Disk)
    requires GeoOk(d) && GeoOk(d2) && |d2| == |d| && Alloc(d).Some? && Alloc(d2).Some?
    requires GeoOk(Alloc(d).value.0) && |Alloc(d).value.0| == |d|
    requires forall x :: 0 <= x < |d| && InUse(Alloc(d).value.0, x) ==> InUse(d2, x)
    ensures Alloc(d).value.1 < Alloc(d2).value.1
  {
    AllocTakesLeast(d);
    AllocTakesLeast(d2);
    var (d', b) := Alloc(d).value;
    forall x | 0 <= x <= b ensures InUse(d2, x) { assert InUse(d', x); }
  }

  /** bfree of the sector just returned restores every byte of the disk. */
  lemma FreeRestores(d: Disk)
    requires GeoOk(d) && Alloc(d).Some?
    ensures GeoOk(Alloc(d).value.0)
    ensures Free(Alloc(d).value.0, Alloc(d).value.1) == d
  {
    AllocTakesLeast(d);
    UnmarkAfterMark(d, Inodes(d), Alloc(d).value.1);
  }
}
