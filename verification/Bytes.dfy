/** Bytes, sectors and little-endian integers, as the AArch64 kernel and the image builder store them. */
module Bytes {
  type byte = x: int | 0 <= x < 256
  type u16 = x: int | 0 <= x < 0x1_0000
  type u32 = x: int | 0 <= x < 0x1_0000_0000

  type Sector = s: seq<byte> | |s| == 512 witness seq(512, _ => 0)

  /** A page of memory. */
  type Page = s: seq<byte> | |s| == 4096 witness seq(4096, _ => 0)

  function ZeroSector(): (s: Sector)
    ensures forall k :: 0 <= k < 512 ==> s[k] == 0
  { seq(512, _ => 0) }

  function U16At(s: seq<byte>, o: nat): u16
    requires o + 2 <= |s|
  { s[o] as int + 0x100 * s[o + 1] as int }

  function U32At(s: seq<byte>, o: nat): u32
    requires o + 4 <= |s|
  { s[o] as int + 0x100 * s[o + 1] as int + 0x1_0000 * s[o + 2] as int + 0x100_0000 * s[o + 3] as int }

  function U16Bytes(x: u16): seq<byte> { [x % 256, x / 256] }

  function U32Bytes(x: u32): seq<byte>
  { [x % 256, x / 256 % 256, x / 256 / 256 % 256, x / 256 / 256 / 256] }

  /** `s` with the bytes from `o` on replaced by `t`. */
  function Splice(s: seq<byte>, o: nat, t: seq<byte>): (r: seq<byte>)
    requires o + |t| <= |s|
    ensures |r| == |s|
    ensures forall k :: 0 <= k < |s| ==> r[k] == if o <= k < o + |t| then t[k - o] else s[k]
  { s[..o] + t + s[o + |t|..] }

  lemma U16RoundTrip(x: u16)
    ensures U16At(U16Bytes(x), 0) == x
  {}

  lemma U32RoundTrip(x: u32)
    ensures U32At(U32Bytes(x), 0) == x
  {
    var a := x / 256;
    var b := a / 256;
    assert x == 256 * a + x % 256 && a == 256 * b + a % 256 && b == 256 * (b / 256) + b % 256;
  }

  lemma SpliceU32(s: seq<byte>, o: nat, x: u32)
    requires o + 4 <= |s|
    ensures U32At(Splice(s, o, U32Bytes(x)), o) == x
  { U32RoundTrip(x); }

  /** How many bytes of `p`, to be written at `off`, lie in the block of `off`. */
  function Chunk(off: nat, p: seq<byte>): (n: nat)
    ensures off % 512 + n <= 512 && n <= |p| && (p != [] ==> 0 < n)
  { if 512 - off % 512 < |p| then 512 - off % 512 else |p| }
}
