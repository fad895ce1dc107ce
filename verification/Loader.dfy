/** kernel/exec.c: the loader of PT_LOAD segments, and that it inverts the image builder. */
module Loader {
  import opened Bytes
  import opened Layout
  import opened Volume
  import Mkfs

  /** Fault stands for what C leaves undefined: a sector that does not exist, or a copy past the page. */
  datatype LoadResult = Loaded(page: Page) | PanicIndirect | Fault

  /** The sector of file block `i` as kexec looks it up; None is the panic or an access out of bounds. */
  datatype Found = Sec(n: u32) | NoBlock | OutOfBounds

  function FindSector(d: Disk, n: Dinode, i: nat): Found
  {
    if i < 31 then Sec(n.addrs[i])
    else if |d| <= n.addrs[31] || 128 <= i - 31 then OutOfBounds
    else
      var p := U32At(d[n.addrs[31]], 4 * (i - 31));
      if p == 0 then NoBlock else Sec(p)
  }

  /** Blocks `i` to `last` copied to the page from slot `j` of 512 bytes on. */
  function LoadBlocks(d: Disk, n: Dinode, i: nat, last: nat, j: nat, page: Page): LoadResult
    decreases last + 1 - i
  {
    if last < i then Loaded(page)
    else
      match FindSector(d, n, i)
      case NoBlock => PanicIndirect
      case OutOfBounds => Fault
      case Sec(s) =>
        if |d| <= s || 8 <= j then Fault
        else LoadBlocks(d, n, i + 1, last, j + 1, Splice(page, j * 512, d[s]))
  }

  /** One PT_LOAD segment: p_offset and p_filesz of its program header, and the page from kalloc. */
  function LoadSegment(d: Disk, n: Dinode, off: nat, filesz: nat, page: Page): LoadResult
  { LoadBlocks(d, n, off / 512, (off + filesz) / 512, 0, page) }

  // ---------------------------------------------------------------- what is loaded

  /** kexec finds the sector the file system means. */
  lemma FindsBlock(v: Vol, i: nat, f: nat)
    requires i < |v.ino| && Filled(v, i) && f * 512 < v.ino[i].size
    ensures f < 159 && FindSector(v.disk, v.ino[i], f) == Sec(BlockOf(v, i, f))
    ensures 0 < BlockOf(v, i, f) < |v.disk|
  {}

  lemma BlockByte(v: Vol, i: nat, f: nat, x: nat)
    requires i < |v.ino| && Filled(v, i) && x < 512 && f * 512 + x < v.ino[i].size
    ensures f < 159 && BlockOf(v, i, f) < |v.disk| && Content(v, i)[f * 512 + x] == v.disk[BlockOf(v, i, f)][x]
  {
    var y := f * 512 + x;
    assert y / 512 == f && y % 512 == x;
    assert Content(v, i)[y] == ByteAt(v, i, y);
  }

  lemma {:induction false} BlocksLoaded(v: Vol, i: nat, f: nat, last: nat, j: nat, page: Page)
    requires i < |v.ino| && Filled(v, i) && last * 512 < v.ino[i].size && f <= last + 1 && j + (last + 1 - f) <= 8
    ensures var r := LoadBlocks(v.disk, v.ino[i], f, last, j, page);
      && r.Loaded?
      && (forall x :: 0 <= x < 4096 && (x < j * 512 || (j + (last + 1 - f)) * 512 <= x) ==> r.page[x] == page[x])
      && (forall x :: j * 512 <= x < (j + (last + 1 - f)) * 512 && (f - j) * 512 + x < v.ino[i].size ==>
            r.page[x] == Content(v, i)[(f - j) * 512 + x])
    decreases last + 1 - f
  {
    hide Filled, Content, FindSector, BlockOf;
    if f <= last {
      FindsBlock(v, i, f);
      var b := BlockOf(v, i, f);
      var page1: Page := Splice(page, j * 512, v.disk[b]);
      BlocksLoaded(v, i, f + 1, last, j + 1, page1);
      var r := LoadBlocks(v.disk, v.ino[i], f, last, j, page);
      forall x | j * 512 <= x < (j + (last + 1 - f)) * 512 && (f - j) * 512 + x < v.ino[i].size
        ensures r.page[x] == Content(v, i)[(f - j) * 512 + x]
      {
        if x < (j + 1) * 512 {
          assert r.page[x] == page1[x] == v.disk[b][x - j * 512];
          BlockByte(v, i, f, x - j * 512);
        } else {
          assert (f + 1 - (j + 1)) * 512 + x == (f - j) * 512 + x;
        }
      }
    }
  }

  // ---------------------------------------------------------------- when a segment is loaded

  /** The sector of file block `f` can be had. */
  predicate Available(d: Disk, n: Dinode, f: nat) { FindSector(d, n, f).Sec? && FindSector(d, n, f).n < |d| }

  /** Blocks from `i` to `last` that lie in the page, where block `i` goes to slot `j`. */
  ghost predicate AllAvailable(d: Disk, n: Dinode, i: nat, last: nat)
  { forall f :: i <= f <= last ==> Available(d, n, f) }

  /** The first block that cannot be had is an indirect one whose entry is 0, met before the page overflows. */
  ghost predicate StopsAtHole(d: Disk, n: Dinode, i: nat, last: nat, j: nat)
  {
    exists f :: i <= f <= last && f - i <= 8 - j && FindSector(d, n, f).NoBlock? && forall g :: i <= g < f ==> Available(d, n, g)
  }

  lemma {:induction false} LoadEndsFrom(d: Disk, n: Dinode, i: nat, last: nat, j: nat, page: Page)
    requires j <= 8
    ensures var r := LoadBlocks(d, n, i, last, j, page);
      && (r.Loaded? <==> (AllAvailable(d, n, i, last) && j + (last + 1 - i) <= 8) || last < i)
      && (r.PanicIndirect? <==> StopsAtHole(d, n, i, last, j))
    decreases last + 1 - i
  {
    hide FindSector, Splice;
    if i <= last {
      if Available(d, n, i) && j < 8 {
        var page1: Page := Splice(page, j * 512, d[FindSector(d, n, i).n]);
        LoadEndsFrom(d, n, i + 1, last, j + 1, page1);
        HoleLater(d, n, i, last, j);
        AvailableSplit(d, n, i, last);
      } else {
        HoleHere(d, n, i, last, j);
      }
    }
  }

  lemma AvailableSplit(d: Disk, n: Dinode, i: nat, last: nat)
    requires i <= last
    ensures AllAvailable(d, n, i, last) <==> Available(d, n, i) && AllAvailable(d, n, i + 1, last)
  { hide Available; }

  lemma HoleLater(d: Disk, n: Dinode, i: nat, last: nat, j: nat)
    requires i <= last && j < 8 && Available(d, n, i)
    ensures StopsAtHole(d, n, i, last, j) <==> StopsAtHole(d, n, i + 1, last, j + 1)
  {
    hide FindSector;
    if StopsAtHole(d, n, i, last, j) {
      var f :| i <= f <= last && f - i <= 8 - j && FindSector(d, n, f).NoBlock? && forall g :: i <= g < f ==> Available(d, n, g);
      assert f != i;
    }
    if StopsAtHole(d, n, i + 1, last, j + 1) {
      var f :| i + 1 <= f <= last && f - (i + 1) <= 8 - (j + 1) && FindSector(d, n, f).NoBlock?
        && forall g :: i + 1 <= g < f ==> Available(d, n, g);
      assert forall g :: i <= g < f ==> Available(d, n, g);
    }
  }

  lemma HoleHere(d: Disk, n: Dinode, i: nat, last: nat, j: nat)
    requires i <= last && j <= 8 && (j == 8 || !Available(d, n, i))
    ensures StopsAtHole(d, n, i, last, j) <==> FindSector(d, n, i).NoBlock?
  { hide FindSector; }

  /**
   * A segment is loaded exactly when each of its blocks can be had and they are at most 8; it ends in the
   * panic exactly at an indirect entry of 0 among the first nine blocks with nothing wrong before it; in every
   * other case kexec reads or writes out of bounds, for instance for 4096 bytes from the start of a block.
   */
  lemma SegmentEndsExactly(d: Disk, n: Dinode, off: nat, filesz: nat, page: Page)
    ensures var r := LoadSegment(d, n, off, filesz, page); var first, last := off / 512, (off + filesz) / 512;
      && (r.Loaded? <==> last - first < 8 && AllAvailable(d, n, first, last))
      && (r.PanicIndirect? <==> StopsAtHole(d, n, first, last, 0))
  {
    LoadEndsFrom(d, n, off / 512, (off + filesz) / 512, 0, page);
    assert off / 512 <= (off + filesz) / 512;
  }

  /** A whole page from the start of a block makes kexec copy a ninth block past the page. */
  lemma WholePageFaults(v: Vol, i: nat, off: nat, page: Page)
    requires i < |v.ino| && Filled(v, i) && off % 512 == 0 && (off + 4096) / 512 * 512 < v.ino[i].size
    ensures LoadSegment(v.disk, v.ino[i], off, 4096, page).Fault?
  {
    SegmentEndsExactly(v.disk, v.ino[i], off, 4096, page);
    forall f | off / 512 <= f <= (off + 4096) / 512 ensures !FindSector(v.disk, v.ino[i], f).NoBlock? { FindsBlock(v, i, f); }
  }

  /**
   * A segment whose block range exists in the file and spans at most 8 blocks is loaded: byte x of the
   * page is byte x of the file counted from the start of sector p_offset / 512.
   */
  lemma SegmentLoaded(v: Vol, i: nat, off: nat, filesz: nat, page: Page)
    requires i < |v.ino| && Filled(v, i)
    requires (off + filesz) / 512 * 512 < v.ino[i].size && (off + filesz) / 512 - off / 512 < 8
    ensures var r := LoadSegment(v.disk, v.ino[i], off, filesz, page); var first := off / 512 * 512;
      && r.Loaded?
      && (forall x :: 0 <= x < ((off + filesz) / 512 - off / 512 + 1) * 512 && first + x < v.ino[i].size ==>
            r.page[x] == Content(v, i)[first + x])
      && (forall x :: ((off + filesz) / 512 - off / 512 + 1) * 512 <= x < 4096 ==> r.page[x] == page[x])
  {
    BlocksLoaded(v, i, off / 512, (off + filesz) / 512, 0, page);
  }

  /**
   * The bytes of the segment itself sit p_offset % 512 bytes into the page, so they are where the
   * program expects them, at the start of the page mapped at p_vaddr, when p_offset is a multiple of 512.
   */
  lemma SegmentPlace(v: Vol, i: nat, off: nat, filesz: nat, page: Page)
    requires i < |v.ino| && Filled(v, i)
    requires (off + filesz) / 512 * 512 < v.ino[i].size && (off + filesz) / 512 - off / 512 < 8
    requires off + filesz <= v.ino[i].size
    ensures var r := LoadSegment(v.disk, v.ino[i], off, filesz, page);
      && r.Loaded?
      && (forall x :: off % 512 <= x < off % 512 + filesz ==> x < 4096 && r.page[x] == Content(v, i)[off - off % 512 + x])
      && (off % 512 == 0 ==> forall x :: 0 <= x < filesz ==> x < 4096 && r.page[x] == Content(v, i)[off + x])
  {
    hide LoadSegment, Filled, Content;
    SegmentLoaded(v, i, off, filesz, page);
    SegmentSpan(off, filesz);
  }

  /** The volume with block `f` of file `i` replaced. */
  function WithBlock(v: Vol, i: nat, f: nat, t: Sector): Vol
    requires i < |v.ino| && f < 159 && BlockOf(v, i, f) < |v.disk|
  { v.(disk := v.disk[BlockOf(v, i, f) := t]) }

  /** Where the file has a byte other than the first of the block, the program does not find it at its place. */
  lemma SegmentMisplaced(v: Vol, lo: nat, hi: nat, i: nat, off: nat, filesz: nat, page: Page, t: Sector)
    requires Sound(v, lo, hi) && i < |v.ino| && Filled(v, i) && off + filesz <= v.ino[i].size
    requires (off + filesz) / 512 * 512 < v.ino[i].size && (off + filesz) / 512 - off / 512 < 8
    requires off % 512 != 0 && 0 < filesz && t[0] != t[off % 512]
    ensures off / 512 < 159 && BlockOf(v, i, off / 512) < |v.disk|
    ensures var v' := WithBlock(v, i, off / 512, t);
      && Filled(v', i) && LoadSegment(v'.disk, v'.ino[i], off, filesz, page).Loaded?
      && LoadSegment(v'.disk, v'.ino[i], off, filesz, page).page[0] != Content(v', i)[off]
  {
    FindsBlock(v, i, off / 512);
    WriteBlock(v, lo, hi, i, off / 512, t, i);
    var v' := WithBlock(v, i, off / 512, t);
    hide LoadSegment, Content, Filled, Sound;
    SegmentLoaded(v', i, off, filesz, page);
    FirstByte(off);
  }

  lemma FirstByte(off: nat)
    ensures off / 512 * 512 / 512 == off / 512 && off / 512 * 512 % 512 == 0 && off / 512 * 512 <= off
  {}

  /** The bytes of the segment are at the start of the page. */
  ghost predicate InPlace(v: Vol, i: nat, off: nat, filesz: nat, page: Page)
    requires i < |v.ino|
  {
    var r := LoadSegment(v.disk, v.ino[i], off, filesz, page);
    && Filled(v, i) && off + filesz <= v.ino[i].size && r.Loaded?
    && forall x :: 0 <= x < filesz ==> x < 4096 && r.page[x] == Content(v, i)[off + x]
  }

  /**
   * Whatever the first block of the segment holds, its bytes are where the program expects them exactly when
   * p_offset is a multiple of 512 or there are none.
   */
  lemma SegmentPlaceExactly(v: Vol, lo: nat, hi: nat, i: nat, off: nat, filesz: nat, page: Page)
    requires Sound(v, lo, hi) && i < |v.ino| && Filled(v, i) && off + filesz <= v.ino[i].size
    requires (off + filesz) / 512 * 512 < v.ino[i].size && (off + filesz) / 512 - off / 512 < 8
    ensures off / 512 < 159 && BlockOf(v, i, off / 512) < |v.disk|
    ensures (forall t: Sector :: InPlace(WithBlock(v, i, off / 512, t), i, off, filesz, page))
       <==> off % 512 == 0 || filesz == 0
  {
    FindsBlock(v, i, off / 512);
    if off % 512 == 0 || filesz == 0 {
      forall t: Sector ensures InPlace(WithBlock(v, i, off / 512, t), i, off, filesz, page) {
        WriteBlock(v, lo, hi, i, off / 512, t, i);
        SegmentPlace(WithBlock(v, i, off / 512, t), i, off, filesz, page);
      }
    } else {
      var t: Sector := ZeroSector()[0 := 1];
      SegmentMisplaced(v, lo, hi, i, off, filesz, page, t);
      assert !InPlace(WithBlock(v, i, off / 512, t), i, off, filesz, page);
    }
  }

  lemma SegmentSpan(off: nat, filesz: nat)
    requires (off + filesz) / 512 - off / 512 < 8
    ensures off % 512 + filesz < ((off + filesz) / 512 - off / 512 + 1) * 512 <= 4096 && off / 512 * 512 == off - off % 512
  {}

  /** The loader inverts the image builder: it loads the bytes of file k as they were given to mkfs. */
  lemma LoaderInvertsBuilder(d: Disk, free: u32, fs: seq<Mkfs.File>, k: nat, off: nat, filesz: nat, page: Page)
    requires Mkfs.Image(d, free, fs) && k < |fs|
    requires (off + filesz) / 512 * 512 < |fs[k].data| && (off + filesz) / 512 - off / 512 < 8
    ensures |d| == 2048 && k + 2 < 100
    ensures var r := LoadSegment(d, GetInode(d, k + 2), off, filesz, page); var first := off / 512 * 512;
      && r.Loaded?
      && (forall x :: 0 <= x < ((off + filesz) / 512 - off / 512 + 1) * 512 && first + x < |fs[k].data| ==>
            r.page[x] == fs[k].data[first + x])
  {
    var m := Mkfs.Img(d, free, free, |fs| + 2);
    ImageFile(d, free, fs, k);
    SegmentLoaded(Mkfs.VolOf(d), k + 2, off, filesz, page);
  }

  lemma ImageFile(d: Disk, free: u32, fs: seq<Mkfs.File>, k: nat)
    requires Mkfs.Image(d, free, fs) && k < |fs|
    ensures |d| == 2048 && k + 2 < 100
    ensures var v := Mkfs.VolOf(d); Filled(v, k + 2) && Content(v, k + 2) == fs[k].data && v.ino[k + 2] == GetInode(d, k + 2)
  {
    var m := Mkfs.Img(d, free, free, |fs| + 2);
    assert Mkfs.FileBytes(m, k + 2) == fs[k].data;
    assert Filled(Mkfs.VolOf(d), k + 2);
  }

  // ---------------------------------------------------------------- exec.c

  /** The segment loop of kexec on one program header, copying into the page byte by byte. */
  method LoadInto(d: Disk, n: Dinode, off: nat, filesz: nat, page: array<byte>) returns (outcome: LoadResult)
    requires page.Length == 4096
    modifies page
    ensures outcome == LoadSegment(d, n, off, filesz, old(page[..]))
    ensures outcome.Loaded? ==> page[..] == outcome.page
  {
    var i, j := off / 512, 0;
    var last := (off + filesz) / 512;
    while i <= last
      invariant off / 512 <= i <= last + 1 && j == i - off / 512
      invariant LoadBlocks(d, n, i, last, j, page[..]) == LoadSegment(d, n, off, filesz, old(page[..]))
      decreases last + 1 - i
    {
      var f := FindSector(d, n, i);
      if f.NoBlock? { return PanicIndirect; }
      if f.OutOfBounds? || f.n >= |d| || j >= 8 { return Fault; }
      CopySector(d[f.n], j, page);
      i, j := i + 1, j + 1;
    }
    outcome := Loaded(page[..]);
  }

  method CopySector(s: Sector, j: nat, page: array<byte>)
    requires page.Length == 4096 && j < 8
    modifies page
    ensures page[..] == Splice(old(page[..]), j * 512, s)
  {
    var x := 0;
    while x < 512
      invariant 0 <= x <= 512
      invariant forall k :: 0 <= k < 4096 ==> page[k] == if j * 512 <= k < j * 512 + x then s[k - j * 512] else old(page[k])
    {
      page[x + j * 512] := s[x];
      x := x + 1;
    }
  }
}
