/** The block bitmap: one bit a sector, least significant bit first, in the sectors after the inodes. */
module Bitmap {
  import opened Bytes
  import opened Layout

  // ---------------------------------------------------------------- bits of a byte

  /** (x & (1 << k)) != 0 */
  predicate Bit(x: nat, k: nat) { if k == 0 then x % 2 == 1 else Bit(x / 2, k - 1) }

  /** x | (1 << k) */
  function SetBit(x: nat, k: nat): nat { if k == 0 then x / 2 * 2 + 1 else x % 2 + 2 * SetBit(x / 2, k - 1) }

  /** x & ~(1 << k) */
  function ClearBit(x: nat, k: nat): nat { if k == 0 then x / 2 * 2 else x % 2 + 2 * ClearBit(x / 2, k - 1) }

  function Pow2(n: nat): nat { if n == 0 then 1 else 2 * Pow2(n - 1) }

  lemma {:induction false} BitsStayInWidth(x: nat, k: nat, n: nat)
    requires x < Pow2(n) && k < n
    ensures SetBit(x, k) < Pow2(n) && ClearBit(x, k) < Pow2(n)
  {
    if k > 0 { BitsStayInWidth(x / 2, k - 1, n - 1); }
  }

  lemma ByteWidth()
    ensures Pow2(8) == 256
  { assert Pow2(4) == 16; }

  function SetByte(x: byte, k: nat): byte
    requires k < 8
  { ByteWidth(); BitsStayInWidth(x, k, 8); SetBit(x, k) }

  function ClearByte(x: byte, k: nat): byte
    requires k < 8
  { ByteWidth(); BitsStayInWidth(x, k, 8); ClearBit(x, k) }

  lemma {:induction false} SetBitReads(x: nat, k: nat, j: nat)
    ensures Bit(SetBit(x, k), j) <==> j == k || Bit(x, j)
  {
    if k > 0 && j > 0 {
      assert SetBit(x, k) / 2 == SetBit(x / 2, k - 1);
      SetBitReads(x / 2, k - 1, j - 1);
    }
  }

  lemma {:induction false} ClearBitReads(x: nat, k: nat, j: nat)
    ensures Bit(ClearBit(x, k), j) <==> j != k && Bit(x, j)
  {
    if k > 0 && j > 0 {
      assert ClearBit(x, k) / 2 == ClearBit(x / 2, k - 1);
      ClearBitReads(x / 2, k - 1, j - 1);
    }
  }

  /** Clearing a bit that was just set restores the number. */
  lemma {:induction false} ClearAfterSet(x: nat, k: nat)
    requires !Bit(x, k)
    ensures ClearBit(SetBit(x, k), k) == x
  {
    if k > 0 { ClearAfterSet(x / 2, k - 1); }
  }

  lemma {:induction false} ZeroHasNoBits(k: nat)
    ensures !Bit(0, k)
  { if k > 0 { ZeroHasNoBits(k - 1); } }

  // ---------------------------------------------------------------- bits of a sector and of the disk

  predicate SectorBit(s: Sector, i: nat)
    requires i < 4096
  { Bit(s[i / 8], i % 8) }

  /** data[bi / 8] |= 1 << (bi % 8) */
  function SetSectorBit(s: Sector, i: nat): Sector
    requires i < 4096
  { s[i / 8 := SetByte(s[i / 8], i % 8)] }

  function ClearSectorBit(s: Sector, i: nat): Sector
    requires i < 4096
  { s[i / 8 := ClearByte(s[i / 8], i % 8)] }

  lemma SetSectorBitReads(s: Sector, i: nat, j: nat)
    requires i < 4096 && j < 4096
    ensures SectorBit(SetSectorBit(s, i), j) <==> j == i || SectorBit(s, j)
  {
    if j / 8 == i / 8 { SetBitReads(s[i / 8], i % 8, j % 8); }
  }

  lemma ClearSectorBitReads(s: Sector, i: nat, j: nat)
    requires i < 4096 && j < 4096
    ensures SectorBit(ClearSectorBit(s, i), j) <==> j != i && SectorBit(s, j)
  {
    if j / 8 == i / 8 { ClearBitReads(s[i / 8], i % 8, j % 8); }
  }

  lemma ClearAfterSetSector(s: Sector, i: nat)
    requires i < 4096 && !SectorBit(s, i)
    ensures ClearSectorBit(SetSectorBit(s, i), i) == s
  {
    ClearAfterSet(s[i / 8], i % 8);
  }

  /** BBLOCK(b, ninodes) */
  function BitSector(b: nat, ninodes: nat): nat { b / 4096 + ninodes / 3 + 3 }

  predicate Marked(d: Disk, ninodes: nat, b: nat)
    requires BitSector(b, ninodes) < |d|
  { SectorBit(d[BitSector(b, ninodes)], b % 4096) }

  function Mark(d: Disk, ninodes: nat, b: nat): Disk
    requires BitSector(b, ninodes) < |d|
  { var c := BitSector(b, ninodes); d[c := SetSectorBit(d[c], b % 4096)] }

  function Unmark(d: Disk, ninodes: nat, b: nat): Disk
    requires BitSector(b, ninodes) < |d|
  { var c := BitSector(b, ninodes); d[c := ClearSectorBit(d[c], b % 4096)] }

  lemma MarkReads(d: Disk, ninodes: nat, b: nat, x: nat)
    requires BitSector(b, ninodes) < |d| && BitSector(x, ninodes) < |d|
    ensures Marked(Mark(d, ninodes, b), ninodes, x) <==> x == b || Marked(d, ninodes, x)
  {
    if BitSector(b, ninodes) == BitSector(x, ninodes) {
      SetSectorBitReads(d[BitSector(b, ninodes)], b % 4096, x % 4096);
      assert x % 4096 == b % 4096 <==> x == b;
    }
  }

  lemma UnmarkReads(d: Disk, ninodes: nat, b: nat, x: nat)
    requires BitSector(b, ninodes) < |d| && BitSector(x, ninodes) < |d|
    ensures Marked(Unmark(d, ninodes, b), ninodes, x) <==> x != b && Marked(d, ninodes, x)
  {
    if BitSector(b, ninodes) == BitSector(x, ninodes) {
      ClearSectorBitReads(d[BitSector(b, ninodes)], b % 4096, x % 4096);
      assert x % 4096 == b % 4096 <==> x == b;
    }
  }

  /** Freeing a block that was just allocated restores every byte of the disk. */
  lemma UnmarkAfterMark(d: Disk, ninodes: nat, b: nat)
    requires BitSector(b, ninodes) < |d| && !Marked(d, ninodes, b)
    ensures Unmark(Mark(d, ninodes, b), ninodes, b) == d
  {
    ClearAfterSetSector(d[BitSector(b, ninodes)], b % 4096);
  }
}
