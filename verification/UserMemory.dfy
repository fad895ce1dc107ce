/**
 * Pages of memory as bytes: the words of the page-table model hold eight little-endian bytes each, and a
 * program reads the byte at an address through the tables of its address space.
 */
module UserMemory {
  import opened Options
  import opened Bytes
  import opened Kalloc
  import opened PageTable

  function BitsOf(b: byte): bv8 { (((b / 16) as bv4) as bv8 << 4) | ((b % 16) as bv4) as bv8 }
  function ByteFrom(x: bv8): byte { 16 * ((x >> 4) as bv4) as int + ((x & 0xF) as bv4) as int }

  /** Byte `k` of a word: bits [11:0] are `lo`, [47:12] the frame, [63:48] `hi`. */
  function ByteOf(w: Word, k: nat): byte
    requires k < 8
  {
    match k
    case 0 => ByteFrom((w.lo & 0xFF) as bv8)
    case 1 => ((w.lo >> 8) as bv4) as int + 16 * (w.frame % 16)
    case 2 => w.frame / 0x10 % 256
    case 3 => w.frame / 0x10 / 256 % 256
    case 4 => w.frame / 0x10 / 256 / 256 % 256
    case 5 => w.frame / 0x10 / 256 / 256 / 256 % 256
    case 6 => ByteFrom((w.hi & 0xFF) as bv8)
    case _ => ByteFrom((w.hi >> 8) as bv8)
  }

  function LowOf(b0: byte, b1: byte): bv12 { ((((b1 % 16) as bv4) as bv12) << 8) | (BitsOf(b0) as bv12) }
  function HighOf(b6: byte, b7: byte): bv16 { ((BitsOf(b7) as bv16) << 8) | (BitsOf(b6) as bv16) }

  function FrameOf(b1: byte, b2: byte, b3: byte, b4: byte, b5: byte): int
  { b1 as int / 16 + 16 * (b2 as int + 256 * (b3 as int + 256 * (b4 as int + 256 * b5 as int))) }

  function WordOf(b: seq<byte>): Word
    requires |b| == 8
  {
    Word(HighOf(b[6], b[7]), FrameOf(b[1], b[2], b[3], b[4], b[5]), LowOf(b[0], b[1]))
  }

  lemma NibbleInts(y: int)
    requires 0 <= y < 16
    ensures (y as bv4) as int == y
  {}

  lemma Halves(h: bv4, l: bv4)
    ensures var x := (h as bv8 << 4) | l as bv8; (x >> 4) as bv4 == h && (x & 0xF) as bv4 == l
  {}

  lemma BitsAreByte(b: byte)
    ensures ByteFrom(BitsOf(b)) == b
  {
    NibbleInts(b / 16);
    NibbleInts(b % 16);
    Halves((b / 16) as bv4, (b % 16) as bv4);
  }

  lemma LowBits(x: bv8, y: bv4)
    ensures var lo := ((y as bv12) << 8) | (x as bv12); (lo & 0xFF) as bv8 == x && (lo >> 8) as bv4 == y
  {}

  lemma HighBits(x: bv8, y: bv8)
    ensures var hi := ((y as bv16) << 8) | (x as bv16); (hi & 0xFF) as bv8 == x && (hi >> 8) as bv8 == y
  {}

  lemma Digit16(d: int, rest: int)
    requires 0 <= d < 16
    ensures (d + 16 * rest) % 16 == d && (d + 16 * rest) / 16 == rest
  {}

  lemma Digit256(d: int, rest: int)
    requires 0 <= d < 256
    ensures (d + 256 * rest) % 256 == d && (d + 256 * rest) / 256 == rest
  {}

  lemma FrameBytes(b1: byte, b2: byte, b3: byte, b4: byte, b5: byte)
    ensures var f := FrameOf(b1, b2, b3, b4, b5);
      && f % 16 == b1 / 16 && f / 0x10 % 256 == b2 && f / 0x10 / 256 % 256 == b3
      && f / 0x10 / 256 / 256 % 256 == b4 && f / 0x10 / 256 / 256 / 256 % 256 == b5
  {
    var x5 := b5 as int;
    var x4 := b4 as int + 256 * x5;
    var x3 := b3 as int + 256 * x4;
    var x2 := b2 as int + 256 * x3;
    Digit16(b1 / 16, x2);
    Digit256(b2, x3);
    Digit256(b3, x4);
    Digit256(b4, x5);
  }

  lemma LowBytes(b0: byte, b1: byte)
    ensures var lo := LowOf(b0, b1); ByteFrom((lo & 0xFF) as bv8) == b0 && ((lo >> 8) as bv4) as int == b1 % 16
  {
    hide BitsOf, ByteFrom;
    BitsAreByte(b0);
    NibbleInts(b1 % 16);
    LowBits(BitsOf(b0), (b1 % 16) as bv4);
  }

  lemma HighBytes(b6: byte, b7: byte)
    ensures var hi := HighOf(b6, b7); ByteFrom((hi & 0xFF) as bv8) == b6 && ByteFrom((hi >> 8) as bv8) == b7
  {
    hide BitsOf, ByteFrom;
    BitsAreByte(b6);
    BitsAreByte(b7);
    HighBits(BitsOf(b6), BitsOf(b7));
  }

  /** Eight bytes stored as a word are read back. */
  lemma WordHoldsBytes(b: seq<byte>, k: nat)
    requires |b| == 8 && k < 8
    ensures ByteOf(WordOf(b), k) == b[k]
  {
    hide BitsOf, ByteFrom, LowOf, HighOf, FrameOf;
    LowBytes(b[0], b[1]);
    HighBytes(b[6], b[7]);
    FrameBytes(b[1], b[2], b[3], b[4], b[5]);
  }

  // ---------------------------------------------------------------- pages

  /** A page of bytes stored in frame `p`. */
  function StorePage(m: Mem, p: int, page: Page): Mem
  { m.(ram := (q, j) => if q == p && 0 <= j < 512 then WordOf(page[8 * j..8 * j + 8]) else m.ram(q, j)) }

  /** The bytes of frame `p`. */
  function PageOf(m: Mem, p: int): Page
  {
    var bytes: seq<byte> := seq(4096, x requires 0 <= x < 4096 => MemByte(m, p, x));
    bytes
  }

  function MemByte(m: Mem, p: int, x: nat): byte { ByteOf(m.ram(p, x / 8), x % 8) }

  lemma StoredPage(m: Mem, p: int, page: Page)
    ensures PageOf(StorePage(m, p, page), p) == page
  {
    var m' := StorePage(m, p, page);
    forall x | 0 <= x < 4096 ensures PageOf(m', p)[x] == page[x] {
      var j := x / 8;
      assert m'.ram(p, j) == WordOf(page[8 * j..8 * j + 8]);
      WordHoldsBytes(page[8 * j..8 * j + 8], x % 8);
      assert page[8 * j..8 * j + 8][x % 8] == page[8 * j + x % 8];
    }
  }

  /** What a program reads at address `a` of space `root`; none where nothing is mapped. */
  function UserByte(m: Mem, root: int, a: nat): Option<byte>
  {
    var e := Lookup(m, root, a / 4096);
    if e.None? then None else Some(PageOf(m, e.value.frame)[a % 4096])
  }

  /** The page that a program sees at virtual page `v`. */
  function UserPage(m: Mem, root: int, v: int): Option<Page>
  { var e := Lookup(m, root, v); if e.None? then None else Some(PageOf(m, e.value.frame)) }

  lemma ByteOfUserPage(m: Mem, root: int, v: nat, x: nat)
    requires x < 4096 && UserPage(m, root, v).Some?
    ensures UserByte(m, root, v * 4096 + x) == Some(UserPage(m, root, v).value[x])
  { assert (v * 4096 + x) / 4096 == v && (v * 4096 + x) % 4096 == x; }

  lemma SamePage(m: Mem, m': Mem, p: int)
    requires forall j :: m'.ram(p, j) == m.ram(p, j)
    ensures PageOf(m', p) == PageOf(m, p)
  {}
}
