/** mkfs/mkfs.c: iappend, which grows a file through its direct and indirect block addresses. */
module Append {
  import opened Options
  import opened Bytes
  import opened Layout
  import opened Volume

  /** What iappend works on: the image, its copy of the inode, and the counters freeblock and usedblocks. */
  datatype Build = Build(disk: Disk, din: Dinode, free: u32, used: u32)

  function Next(x: u32): u32 { if x == 0xFFFF_FFFF then 0 else x + 1 }

  function Min(a: int, b: int): int { if a < b then a else b }

  /** addrs[k] = freeblock++; usedblocks++ */
  function TakeFor(b: Build, k: nat): Build
    requires k < 32
  { Build(b.disk, b.din.(addrs := b.din.addrs[k := b.free]), Next(b.free), Next(b.used)) }

  /** The entry of the indirect sector: allocated when it is 0, and the sector written back. */
  function EnsureEntry(b: Build, k: nat): Build
    requires k < 128 && b.din.addrs[31] < |b.disk|
  {
    var p := b.din.addrs[31];
    if U32At(b.disk[p], 4 * k) == 0
    then Build(b.disk[p := Splice(b.disk[p], 4 * k, U32Bytes(b.free))], b.din, Next(b.free), Next(b.used))
    else b
  }

  /** The sector of file block `f`, allocated if need be. None is the failed assertion or read. */
  function EnsureBlock(b: Build, f: nat): Option<(Build, u32)>
  {
    if f < 31 then
      var b1 := if b.din.addrs[f] == 0 then TakeFor(b, f) else b;
      Some((b1, b1.din.addrs[f]))
    else if 128 <= f - 31 then None
    else
      var b1 := if b.din.addrs[31] == 0 then TakeFor(b, 31) else b;
      if |b1.disk| <= b1.din.addrs[31] then None
      else
        var b2 := EnsureEntry(b1, f - 31);
        Some((b2, U32At(b2.disk[b2.din.addrs[31]], 4 * (f - 31))))
  }

  /** One round of the loop of iappend. */
  function Round(b: Build, off: nat, p: seq<byte>): Option<Build>
  {
    var e := EnsureBlock(b, off / 512);
    if e.None? || |e.value.0.disk| <= e.value.1 then None
    else
      var (b1, w) := e.value;
      Some(b1.(disk := b1.disk[w := Splice(b1.disk[w], off % 512, p[..Chunk(off, p)])]))
  }

  function AppendLoop(b: Build, off: nat, p: seq<byte>): Option<(Build, nat)>
    decreases |p|
  {
    if p == [] then Some((b, off))
    else
      var r := Round(b, off, p);
      if r.None? then None else AppendLoop(r.value, off + Chunk(off, p), p[Chunk(off, p)..])
  }

  // ---------------------------------------------------------------- the invariant of the loop

  /** The volume seen by iappend: its own copy of inode `i`, with the bytes appended so far. */
  function View(b: Build, table: seq<Dinode>, i: nat, off: u32): Vol
    requires i < |table|
  { Vol(b.disk, table[i := b.din.(size := off)]) }

  ghost predicate ZeroFrom(d: Disk, c: nat) { forall k :: c <= k < |d| ==> d[k] == ZeroSector() }

  ghost predicate AllFilled(v: Vol) { forall j :: 0 <= j < |v.ino| ==> Filled(v, j) }

  /** Owned sectors lie in `[lo, free)`, each owned once; from `free` on the image is zero. */
  ghost predicate Good(v: Vol, lo: nat, free: nat)
  { |v.disk| < 0x1_0000_0000 && Sound(v, lo, free) && AllFilled(v) && ZeroFrom(v.disk, free) }

  /** Blocks are present exactly below the size, and zero beyond it. */
  ghost predicate Tight(v: Vol, i: nat)
    requires i < |v.ino|
  {
    && (forall f :: 0 <= f < 159 ==> ZeroTail(v, i, f))
    && (forall f :: 0 <= f < 159 ==> (BlockOf(v, i, f) != 0 <==> f * 512 < v.ino[i].size))
    && (Ref(v, Ind(i)) != 0 <==> 31 * 512 < v.ino[i].size)
  }

  ghost predicate SameFiles(v: Vol, v': Vol)
  {
    && AllFilled(v) && AllFilled(v') && |v'.ino| == |v.ino|
    && forall j :: 0 <= j < |v.ino| ==> Content(v', j) == Content(v, j)
  }

  ghost predicate SameBelow(d: Disk, d': Disk, lo: nat)
  { |d'| == |d| && forall c :: 0 <= c < lo && c < |d| ==> d'[c] == d[c] }

  /** Attaching the sector at `free` to an empty slot keeps every file and the invariant. */
  lemma AttachGood(v: Vol, v': Vol, lo: nat, free: nat, s: Slot)
    requires Good(v, lo, free) && lo <= free < |v.disk| && Exists(v, s) && Ref(v, s) == 0
    requires Attached(v, v', s, free)
    requires forall c :: 0 <= c < |v.disk| ==> v'.disk[c] == v.disk[c] || (s.Via? && c == Ref(v, Ind(s.i)) != 0)
    ensures Good(v', lo, free + 1) && SameFiles(v, v') && SameBelow(v.disk, v'.disk, lo)
  {
    AttachSound(v, v', lo, free, s, free, free + 1);
    forall j | 0 <= j < |v.ino| ensures Filled(v', j) && Content(v', j) == Content(v, j) {
      AttachContent(v, v', lo, free, s, free, j);
    }
    assert Exists(v, Ind(s.i));
  }

  /** Only empty slots among `SlotOf(i, f)` and, for an indirect block, `Ind(i)` may have become owners. */
  ghost predicate GrownAt(v: Vol, v': Vol, i: nat, f: nat)
  {
    && |v'.ino| == |v.ino|
    && forall t :: Exists(v, t) && (Ref(v, t) != 0 || (t != SlotOf(i, f) && (t != Ind(i) || f < 31))) ==> Ref(v', t) == Ref(v, t)
  }

  /** What one allocation step guarantees. */
  ghost predicate Grown(b: Build, b': Build, table: seq<Dinode>, i: nat, off: u32, lo: nat, f: nat)
    requires i < |table|
  {
    var v, v' := View(b, table, i, off), View(b', table, i, off);
    && Good(v', lo, b'.free) && SameFiles(v, v') && SameBelow(b.disk, b'.disk, lo)
    && GrownAt(v, v', i, f)
    && b.free <= b'.free && b'.used == Plus(b.used, b'.free - b.free)
  }

  /** Unsigned 32-bit addition. */
  function Plus(x: u32, k: nat): u32 { (x + k) % 0x1_0000_0000 }

  lemma TakeForGood(b: Build, table: seq<Dinode>, i: nat, off: u32, lo: nat, k: nat, f: nat)
    requires i < |table| && k < 32 && b.din.addrs[k] == 0 && lo <= b.free < |b.disk|
    requires Good(View(b, table, i, off), lo, b.free)
    requires (k == 31 && 31 <= f) || (k == f && f < 31)
    ensures Grown(b, TakeFor(b, k), table, i, off, lo, f)
    ensures TakeFor(b, k).free == b.free + 1
  {
    var v, v' := View(b, table, i, off), View(TakeFor(b, k), table, i, off);
    var s := if k == 31 then Ind(i) else Direct(i, k);
    assert v' == SetAddr(v, i, k, b.free);
    if k == 31 { AttachIndirect(v, i, b.free); } else { AttachDirect(v, i, k, b.free); }
    AttachGood(v, v', lo, b.free, s);
  }

  lemma EnsureEntryGood(b: Build, table: seq<Dinode>, i: nat, off: u32, lo: nat, k: nat)
    requires i < |table| && k < 128 && 0 < b.din.addrs[31] < |b.disk| && lo <= b.free
    requires Good(View(b, table, i, off), lo, b.free)
    requires var b' := EnsureEntry(b, k); U32At(b'.disk[b.din.addrs[31]], 4 * k) < |b.disk|
    ensures Grown(b, EnsureEntry(b, k), table, i, off, lo, 31 + k)
    ensures U32At(EnsureEntry(b, k).disk[b.din.addrs[31]], 4 * k) == Ref(View(EnsureEntry(b, k), table, i, off), Via(i, k)) != 0
    ensures EnsureEntry(b, k).free == b.free + (if Ref(View(b, table, i, off), Via(i, k)) == 0 then 1 else 0)
  {
    var p := b.din.addrs[31];
    var b' := EnsureEntry(b, k);
    var v, v' := View(b, table, i, off), View(b', table, i, off);
    if U32At(b.disk[p], 4 * k) == 0 {
      SpliceU32(b.disk[p], 4 * k, b.free);
      assert b.free < |b.disk|;
      assert v' == SetVia(v, i, k, b.free);
      AttachVia(v, lo, b.free, i, k, b.free);
      AttachGood(v, v', lo, b.free, Via(i, k));
    }
  }

  lemma GrownTrans(b: Build, b1: Build, b2: Build, table: seq<Dinode>, i: nat, off: u32, lo: nat, f: nat)
    requires i < |table| && Grown(b, b1, table, i, off, lo, f) && Grown(b1, b2, table, i, off, lo, f)
    ensures Grown(b, b2, table, i, off, lo, f)
  {
    hide Good, Ref, Filled, Content;
    var v, v1, v2 := View(b, table, i, off), View(b1, table, i, off), View(b2, table, i, off);
    forall t | Exists(v, t) && (Ref(v, t) != 0 || (t != SlotOf(i, f) && (t != Ind(i) || f < 31))) ensures Ref(v2, t) == Ref(v, t) {
      assert Exists(v1, t) && Ref(v1, t) == Ref(v, t);
    }
    forall j | 0 <= j < |v.ino| ensures Content(v2, j) == Content(v, j) {
      assert Content(v1, j) == Content(v, j);
    }
  }

  /** How many sectors file block `f` still needs. */
  function Missing(v: Vol, i: nat, f: nat): nat
    requires i < |v.ino| && f < 159
  { (if BlockOf(v, i, f) == 0 then 1 else 0) + (if 31 <= f && Ref(v, Ind(i)) == 0 then 1 else 0) }

  /** The outcome of asking for block `f`: which sector, how many were taken, and what is kept. */
  ghost predicate Ensured(b: Build, table: seq<Dinode>, i: nat, off: u32, lo: nat, f: nat)
    requires i < |table|
  {
    var e, v := EnsureBlock(b, f), View(b, table, i, off);
    && (e.Some? && e.value.1 < |e.value.0.disk| <==> f < 159 && b.free + Missing(v, i, f) <= |b.disk|)
    && (e.Some? && e.value.1 < |e.value.0.disk| ==>
          && Grown(b, e.value.0, table, i, off, lo, f)
          && BlockOf(View(e.value.0, table, i, off), i, f) == e.value.1 != 0
          && e.value.0.free == b.free + Missing(v, i, f))
  }

  lemma EnsureDirect(b: Build, table: seq<Dinode>, i: nat, off: u32, lo: nat, f: nat)
    requires i < |table| && lo <= b.free && Good(View(b, table, i, off), lo, b.free) && f < 31
    ensures Ensured(b, table, i, off, lo, f)
  {
    var v := View(b, table, i, off);
    assert Exists(v, Direct(i, f));
    if b.din.addrs[f] == 0 && b.free < |b.disk| { TakeForGood(b, table, i, off, lo, f, f); }
  }

  lemma EnsureIndirect(b: Build, table: seq<Dinode>, i: nat, off: u32, lo: nat, f: nat)
    requires i < |table| && lo <= b.free && Good(View(b, table, i, off), lo, b.free) && 31 <= f < 159
    requires b.din.addrs[31] == 0
    ensures Ensured(b, table, i, off, lo, f)
  {
    hide SameFiles, SameBelow, Good;
    var v := View(b, table, i, off);
    GoodZero(v, lo, b.free);
    if b.free < |b.disk| {
      var b1 := TakeFor(b, 31);
      TakeForGood(b, table, i, off, lo, 31, f);
      ViaOfFresh(b, table, i, off, f);
      EnsureEntryCase(b1, table, i, off, lo, f);
      if b1.free < |b.disk| { GrownTrans(b, b1, EnsureEntry(b1, f - 31), table, i, off, lo, f); }
    }
  }

  /** The sector of block `f` can be had exactly when `f` is addressable and enough sectors are left. */
  lemma EnsureBlockGood(b: Build, table: seq<Dinode>, i: nat, off: u32, lo: nat, f: nat)
    requires i < |table| && lo <= b.free && Good(View(b, table, i, off), lo, b.free)
    ensures Ensured(b, table, i, off, lo, f)
  {
    if f < 31 {
      EnsureDirect(b, table, i, off, lo, f);
    } else if f < 159 {
      if b.din.addrs[31] == 0 {
        EnsureIndirect(b, table, i, off, lo, f);
      } else {
        hide SameFiles, SameBelow, Good;
        EnsureEntryCase(b, table, i, off, lo, f);
      }
    }
  }

  lemma GoodZero(v: Vol, lo: nat, free: nat)
    requires Good(v, lo, free)
    ensures ZeroFrom(v.disk, free) && 0 < lo
  {}

  lemma ViaOfFresh(b: Build, table: seq<Dinode>, i: nat, off: u32, f: nat)
    requires i < |table| && 31 <= f < 159 && b.din.addrs[31] == 0 && 0 < b.free < |b.disk|
    requires ZeroFrom(b.disk, b.free)
    ensures BlockOf(View(b, table, i, off), i, f) == 0
    ensures BlockOf(View(TakeFor(b, 31), table, i, off), i, f) == 0
  {
    assert b.disk[b.free] == ZeroSector();
    assert U32At(b.disk[b.free], 4 * (f - 31)) == 0;
  }

  lemma EnsureEntryCase(b: Build, table: seq<Dinode>, i: nat, off: u32, lo: nat, f: nat)
    requires i < |table| && 31 <= f < 159 && lo <= b.free && Good(View(b, table, i, off), lo, b.free)
    requires b.din.addrs[31] != 0
    ensures b.din.addrs[31] < |b.disk|
    ensures var b' := EnsureEntry(b, f - 31); var v := View(b, table, i, off);
      var w := U32At(b'.disk[b.din.addrs[31]], 4 * (f - 31));
      && |b'.disk| == |b.disk|
      && (w < |b.disk| <==> b.free + (if BlockOf(v, i, f) == 0 then 1 else 0) <= |b.disk|)
      && (w < |b.disk| ==>
            && Grown(b, b', table, i, off, lo, f)
            && BlockOf(View(b', table, i, off), i, f) == w != 0
            && b'.free == b.free + (if BlockOf(v, i, f) == 0 then 1 else 0))
  {
    var v := View(b, table, i, off);
    assert Exists(v, Ind(i)) && Ref(v, Ind(i)) != 0;
    assert Exists(v, Via(i, f - 31));
    var p := b.din.addrs[31];
    if U32At(b.disk[p], 4 * (f - 31)) == 0 { SpliceU32(b.disk[p], 4 * (f - 31), b.free); }
    var w := U32At(EnsureEntry(b, f - 31).disk[p], 4 * (f - 31));
    if w < |b.disk| {
      hide Good, SameFiles, SameBelow;
      EnsureEntryGood(b, table, i, off, lo, f - 31);
    }
  }

  // ---------------------------------------------------------------- one chunk of bytes

  /** File `i` has `more` bytes at its end, every other file is as before. */
  ghost predicate Longer(v: Vol, v': Vol, i: nat, more: seq<byte>)
    requires i < |v.ino|
  {
    && AllFilled(v) && AllFilled(v') && |v'.ino| == |v.ino|
    && Content(v', i) == Content(v, i) + more
    && forall j :: 0 <= j < |v.ino| && j != i ==> Content(v', j) == Content(v, j)
  }

  function WriteAt(v: Vol, i: nat, w: nat, off: u32, chunk: seq<byte>, size: u32): Vol
    requires i < |v.ino| && w < |v.disk| && off % 512 + |chunk| <= 512
  { Vol(v.disk[w := Splice(v.disk[w], off % 512, chunk)], v.ino[i := v.ino[i].(size := size)]) }

  ghost predicate BlockReplaced(v: Vol, v1: Vol, i: nat, f: nat, s: Sector)
  {
    && AllFilled(v) && AllFilled(v1) && |v1.ino| == |v.ino|
    && forall j :: 0 <= j < |v.ino| ==>
         && |Content(v1, j)| == |Content(v, j)|
         && forall x :: 0 <= x < |Content(v, j)| ==>
              Content(v1, j)[x] == if j == i && x / 512 == f then s[x % 512] else Content(v, j)[x]
  }

  lemma WriteBlockAll(v: Vol, lo: nat, hi: nat, i: nat, f: nat, s: Sector)
    requires Good(v, lo, hi) && i < |v.ino| && f < 159 && BlockOf(v, i, f) != 0
    ensures BlockOf(v, i, f) < hi
    ensures var v1 := v.(disk := v.disk[BlockOf(v, i, f) := s]);
      && BlockReplaced(v, v1, i, f, s) && SameRefs(v, v1) && Good(v1, lo, hi) && SameBelow(v.disk, v1.disk, lo)
  {
    assert Exists(v, SlotOf(i, f));
    var v1 := v.(disk := v.disk[BlockOf(v, i, f) := s]);
    WriteBlock(v, lo, hi, i, f, s, i);
    forall j | 0 <= j < |v.ino|
      ensures && Filled(v1, j) && |Content(v1, j)| == |Content(v, j)|
              && forall x :: 0 <= x < |Content(v, j)| ==>
                   Content(v1, j)[x] == if j == i && x / 512 == f then s[x % 512] else Content(v, j)[x]
    {
      WriteBlock(v, lo, hi, i, f, s, j);
    }
  }

  lemma PresentBlocks(v: Vol, lo: nat, free: nat, i: nat, off: u32, size: u32)
    requires Good(v, lo, free) && i < |v.ino| && v.ino[i].size == off <= size <= (off / 512 + 1) * 512
    requires off / 512 < 159 && BlockOf(v, i, off / 512) != 0
    ensures forall g :: 0 <= g < 159 && g * 512 < size ==> 0 < BlockOf(v, i, g) < |v.disk|
  {
    assert Filled(v, i);
    forall g | 0 <= g < 159 && g * 512 < size ensures 0 < BlockOf(v, i, g) < |v.disk| {
      assert Exists(v, SlotOf(i, g));
      if g != off / 512 { assert g < off / 512 && g * 512 < off; }
    }
  }

  lemma ResizeGood(v: Vol, v': Vol, lo: nat, free: nat)
    requires Good(v, lo, free) && SameRefs(v, v') && v'.disk == v.disk && AllFilled(v')
    ensures Good(v', lo, free)
  {}

  lemma SameRefsTrans(v: Vol, v1: Vol, v2: Vol)
    requires SameRefs(v, v1) && SameRefs(v1, v2)
    ensures SameRefs(v, v2)
  {}

  lemma WriteAppends(v: Vol, lo: nat, free: nat, i: nat, off: u32, chunk: seq<byte>)
    requires Good(v, lo, free) && i < |v.ino| && v.ino[i].size == off && off / 512 < 159
    requires off % 512 + |chunk| <= 512 && 0 < |chunk|
    requires 0 < BlockOf(v, i, off / 512) < |v.disk|
    ensures off + |chunk| <= 159 * 512
    ensures var v' := WriteAt(v, i, BlockOf(v, i, off / 512), off, chunk, off + |chunk|);
      Good(v', lo, free) && Longer(v, v', i, chunk) && SameBelow(v.disk, v'.disk, lo) && SameRefs(v, v')
  {
    var f, size := off / 512, off + |chunk|;
    var w := BlockOf(v, i, f);
    var s: Sector := Splice(v.disk[w], off % 512, chunk);
    var v1 := v.(disk := v.disk[w := s]);
    var v' := WriteAt(v, i, w, off, chunk, size);
    assert v' == v1.(ino := v1.ino[i := v1.ino[i].(size := size)]);
    WriteBlockAll(v, lo, free, i, f, s);
    assert Exists(v, SlotOf(i, f));
    PresentBlocks(v1, lo, free, i, off, size);
    assert Filled(v1, i);
    hide Good, Content, Filled, SameBelow, Ref, SameRefs;
    ResizeContent(v1, i, size);
    SameRefsTrans(v, v1, v');
    ResizeGood(v1, v', lo, free);
    WriteAppendsBytes(v, v1, v', i, off, chunk, s);
    forall j | 0 <= j < |v.ino| && j != i ensures Content(v', j) == Content(v, j) {
      assert Content(v1, j) == Content(v, j);
    }
  }

  lemma WriteAppendsBytes(v: Vol, v1: Vol, v': Vol, i: nat, off: u32, chunk: seq<byte>, s: Sector)
    requires i < |v.ino| == |v1.ino| == |v'.ino| && Filled(v, i) && Filled(v1, i) && Filled(v', i)
    requires v.ino[i].size == off == v1.ino[i].size && off + |chunk| <= 159 * 512
    requires off % 512 + |chunk| <= 512 && 0 < |chunk|
    requires var w := BlockOf(v, i, off / 512);
      0 < w < |v.disk| && v1.disk == v.disk[w := s] && s == Splice(v.disk[w], off % 512, chunk) && BlockOf(v1, i, off / 512) == w
    requires forall x :: 0 <= x < off ==>
               Content(v1, i)[x] == if x / 512 == off / 512 then s[x % 512] else Content(v, i)[x]
    requires |Content(v', i)| == off + |chunk|
    requires forall x :: 0 <= x < off ==> Content(v', i)[x] == Content(v1, i)[x]
    requires forall x :: 0 <= x < off + |chunk| ==>
               BlockOf(v1, i, x / 512) < |v1.disk| && Content(v', i)[x] == ByteAt(v1, i, x)
    ensures Content(v', i) == Content(v, i) + chunk
  {
    forall x | 0 <= x < off + |chunk| ensures Content(v', i)[x] == (Content(v, i) + chunk)[x] {
      if x < off {
        assert Content(v', i)[x] == Content(v1, i)[x];
        if x / 512 == off / 512 { assert x % 512 < off % 512; }
      } else {
        assert x / 512 == off / 512 && x % 512 == off % 512 + (x - off);
      }
    }
  }

  // ---------------------------------------------------------------- rounds and the whole loop

  /** `more` has been appended to file `i`: what a part of the loop of iappend leaves behind. */
  ghost predicate Appended(b: Build, b': Build, table: seq<Dinode>, i: nat, off: u32, off': u32,
                           more: seq<byte>, lo: nat)
    requires i < |table|
  {
    var v, v' := View(b, table, i, off), View(b', table, i, off');
    && Good(v', lo, b'.free) && Longer(v, v', i, more) && SameBelow(b.disk, b'.disk, lo)
    && b.free <= b'.free && b'.used == Plus(b.used, b'.free - b.free)
  }

  lemma RoundAppends(b: Build, table: seq<Dinode>, i: nat, off: u32, lo: nat, p: seq<byte>)
    requires i < |table| && lo <= b.free && Good(View(b, table, i, off), lo, b.free) && p != []
    ensures var r := Round(b, off, p); var v := View(b, table, i, off); var n := Chunk(off, p);
      && (r.Some? <==> off / 512 < 159 && b.free + Missing(v, i, off / 512) <= |b.disk|)
      && (r.Some? ==>
            && off + n <= 159 * 512
            && Appended(b, r.value, table, i, off, off + n, p[..n], lo)
            && r.value.free == b.free + Missing(v, i, off / 512)
            && GrownAt(v, View(r.value, table, i, off + n), i, off / 512)
            && BlockOf(View(r.value, table, i, off + n), i, off / 512) != 0)
  {
    EnsureBlockGood(b, table, i, off, lo, off / 512);
    var e := EnsureBlock(b, off / 512);
    if e.Some? && e.value.1 < |e.value.0.disk| {
      RoundWrites(b, table, i, off, lo, p);
    }
  }

  lemma AppendedAfterGrown(b: Build, b1: Build, b': Build, table: seq<Dinode>, i: nat, off: u32, off': u32,
                           more: seq<byte>, lo: nat, f: nat)
    requires i < |table| && Grown(b, b1, table, i, off, lo, f)
    requires b'.free == b1.free && b'.used == b1.used
    requires var v1, v' := View(b1, table, i, off), View(b', table, i, off');
      Good(v', lo, b'.free) && Longer(v1, v', i, more) && SameBelow(b1.disk, b'.disk, lo)
    ensures Appended(b, b', table, i, off, off', more, lo)
  {
    hide Good, Content, Filled;
    var v, v1, v' := View(b, table, i, off), View(b1, table, i, off), View(b', table, i, off');
    forall j | 0 <= j < |v.ino| && j != i ensures Content(v', j) == Content(v, j) {
      assert Content(v1, j) == Content(v, j);
    }
  }

  lemma GrownAtSameRefs(v: Vol, v1: Vol, v': Vol, i: nat, f: nat)
    requires GrownAt(v, v1, i, f) && SameRefs(v1, v')
    ensures GrownAt(v, v', i, f)
  {
    hide Ref;
    forall t | Exists(v, t) && (Ref(v, t) != 0 || (t != SlotOf(i, f) && (t != Ind(i) || f < 31)))
      ensures Ref(v', t) == Ref(v, t)
    {
      assert Exists(v1, t) && Ref(v1, t) == Ref(v, t);
    }
  }

  lemma EnsuredGives(b: Build, table: seq<Dinode>, i: nat, off: u32, lo: nat, f: nat)
    requires i < |table| && Ensured(b, table, i, off, lo, f)
    requires var e := EnsureBlock(b, f); e.Some? && e.value.1 < |e.value.0.disk|
    ensures var (b1, w) := EnsureBlock(b, f).value; var v, v1 := View(b, table, i, off), View(b1, table, i, off);
      && f < 159 && Grown(b, b1, table, i, off, lo, f) && Good(v1, lo, b1.free) && GrownAt(v, v1, i, f)
      && BlockOf(v1, i, f) == w != 0 && b1.free == b.free + Missing(v, i, f)
      && |v1.ino| == |table| && v1.ino[i].size == off && v1.disk == b1.disk
  {}

  lemma RoundWrites(b: Build, table: seq<Dinode>, i: nat, off: u32, lo: nat, p: seq<byte>)
    requires i < |table| && lo <= b.free && Good(View(b, table, i, off), lo, b.free) && p != []
    requires Ensured(b, table, i, off, lo, off / 512)
    requires var e := EnsureBlock(b, off / 512); e.Some? && e.value.1 < |e.value.0.disk|
    ensures Round(b, off, p).Some?
    ensures var b' := Round(b, off, p).value; var v := View(b, table, i, off); var n := Chunk(off, p);
      && off + n <= 159 * 512
      && Appended(b, b', table, i, off, off + n, p[..n], lo)
      && b'.free == b.free + Missing(v, i, off / 512)
      && GrownAt(v, View(b', table, i, off + n), i, off / 512)
      && BlockOf(View(b', table, i, off + n), i, off / 512) != 0
  {
    hide EnsureBlock, Good, Ref, Missing, Longer, SameBelow, SameFiles, GrownAt, Appended, Grown, WriteAt, View, Round, Ensured;
    var b1 := EnsureBlock(b, off / 512).value.0;
    EnsuredGives(b, table, i, off, lo, off / 512);
    RoundHappens(b, off, p);
    ChunkFits(off, p);
    RoundIsWrite(b, table, i, off, p);
    RoundComposes(b, b1, Round(b, off, p).value, table, i, off, lo, p[..Chunk(off, p)]);
  }

  lemma RoundHappens(b: Build, off: nat, p: seq<byte>)
    requires var e := EnsureBlock(b, off / 512); e.Some? && e.value.1 < |e.value.0.disk|
    ensures Round(b, off, p).Some?
  {}

  lemma ChunkFits(off: nat, p: seq<byte>)
    requires off / 512 < 159
    ensures off + Chunk(off, p) <= 159 * 512
  {}

  /** A round is the provision of its block and then the write of its chunk. */
  lemma RoundComposes(b: Build, b1: Build, b': Build, table: seq<Dinode>, i: nat, off: u32, lo: nat, chunk: seq<byte>)
    requires i < |table| && off / 512 < 159 && 0 < |chunk| && off % 512 + |chunk| <= 512 && off + |chunk| <= 159 * 512
    requires Grown(b, b1, table, i, off, lo, off / 512) && Good(View(b1, table, i, off), lo, b1.free)
    requires GrownAt(View(b, table, i, off), View(b1, table, i, off), i, off / 512)
    requires |View(b1, table, i, off).ino| == |table| && View(b1, table, i, off).ino[i].size == off
    requires var w := BlockOf(View(b1, table, i, off), i, off / 512);
      && 0 < w < |View(b1, table, i, off).disk| && View(b1, table, i, off).disk == b1.disk
      && View(b', table, i, off + |chunk|) == WriteAt(View(b1, table, i, off), i, w, off, chunk, off + |chunk|)
    requires b'.free == b1.free && b'.used == b1.used && View(b', table, i, off + |chunk|).disk == b'.disk
    ensures Appended(b, b', table, i, off, off + |chunk|, chunk, lo)
    ensures GrownAt(View(b, table, i, off), View(b', table, i, off + |chunk|), i, off / 512)
    ensures BlockOf(View(b', table, i, off + |chunk|), i, off / 512) != 0
  {
    hide Good, Ref, Longer, SameBelow, GrownAt, Appended, Grown, WriteAt, View;
    var f, v, v1, v' := off / 512, View(b, table, i, off), View(b1, table, i, off), View(b', table, i, off + |chunk|);
    WriteAppends(v1, lo, b1.free, i, off, chunk);
    AppendedAfterGrown(b, b1, b', table, i, off, off + |chunk|, chunk, lo, f);
    GrownAtSameRefs(v, v1, v', i, f);
    SameBlock(v1, v', i, f);
  }

  lemma SameBlock(v: Vol, v': Vol, i: nat, f: nat)
    requires SameRefs(v, v') && i < |v.ino| && f < 159
    ensures BlockOf(v', i, f) == BlockOf(v, i, f)
  { assert Exists(v, SlotOf(i, f)); }

  lemma RoundIsWrite(b: Build, table: seq<Dinode>, i: nat, off: u32, p: seq<byte>)
    requires i < |table| && off + Chunk(off, p) < 0x1_0000_0000 && Round(b, off, p).Some?
    ensures var (b1, w) := EnsureBlock(b, off / 512).value; var b' := Round(b, off, p).value; var n := Chunk(off, p);
      && w < |b1.disk| && b'.free == b1.free && b'.used == b1.used
      && View(b', table, i, off + n) == WriteAt(View(b1, table, i, off), i, w, off, p[..n], off + n)
      && b'.disk == View(b', table, i, off + n).disk && b1.disk == View(b1, table, i, off).disk
  {
    hide EnsureBlock, Splice;
  }

  // ---------------------------------------------------------------- how many sectors a size takes

  /** Sectors of a file of `size` bytes: its data blocks, and the indirect sector beyond 31 of them. */
  function Blocks(size: nat): nat
  { (size + 511) / 512 + (if 31 * 512 < size then 1 else 0) }

  lemma MissingIsGrowth(v: Vol, i: nat, off: u32, n: nat)
    requires i < |v.ino| && v.ino[i].size == off && off / 512 < 159 && Tight(v, i)
    requires 0 < n && off % 512 + n <= 512
    ensures Missing(v, i, off / 512) == Blocks(off + n) - Blocks(off)
  {
    var f := off / 512;
    assert BlockOf(v, i, f) != 0 <==> f * 512 < off;
    assert (off + n + 511) / 512 == f + 1;
  }

  lemma BlocksMonotone(s: nat, t: nat)
    requires s <= t
    ensures Blocks(s) <= Blocks(t)
  {}

  ghost predicate AllTight(v: Vol) { forall j :: 0 <= j < |v.ino| ==> Tight(v, j) }

  /** Sectors that EnsureBlock changes, and what a new block holds. */
  lemma EnsureBlockDisk(b: Build, table: seq<Dinode>, i: nat, off: u32, lo: nat, f: nat)
    requires i < |table| && f < 159 && lo <= b.free && Good(View(b, table, i, off), lo, b.free)
    requires var e := EnsureBlock(b, f); e.Some? && e.value.1 < |e.value.0.disk|
    requires Grown(b, EnsureBlock(b, f).value.0, table, i, off, lo, f)
    ensures var (b1, w) := EnsureBlock(b, f).value; var v1 := View(b1, table, i, off);
      && (forall c :: 0 <= c < |b.disk| && c != Ref(v1, Ind(i)) ==> b1.disk[c] == b.disk[c])
      && (w == BlockOf(View(b, table, i, off), i, f) || b.free <= w)
      && |b1.disk| == |b.disk|
  {
    var v := View(b, table, i, off);
    hide SameFiles, GrownAt;
    GoodZero(v, lo, b.free);
    if 31 <= f {
      var b1 := if b.din.addrs[31] == 0 then TakeFor(b, 31) else b;
      if U32At(b1.disk[b1.din.addrs[31]], 4 * (f - 31)) == 0 { SpliceU32(b1.disk[b1.din.addrs[31]], 4 * (f - 31), b1.free); }
    }
  }

  /** After a block was provided the tails are as before; a new block is zero. */
  lemma TailGrown(v: Vol, v1: Vol, lo: nat, free: nat, free1: nat, i: nat, f: nat, w: nat, j: nat, g: nat)
    requires i < |v.ino| == |v1.ino| && f < 159 && j < |v.ino| && g < 159 && |v1.disk| == |v.disk|
    requires v1.ino[j].size == v.ino[j].size
    requires ZeroTail(v, j, g) && Good(v, lo, free) && Good(v1, lo, free1) && BlockOf(v1, i, f) == w != 0
    requires GrownAt(v, v1, i, f)
    requires forall c :: 0 <= c < |v.disk| && c != Ref(v1, Ind(i)) ==> v1.disk[c] == v.disk[c]
    requires w == BlockOf(v, i, f) || free <= w
    ensures ZeroTail(v1, j, g)
  {
    var b := BlockOf(v1, j, g);
    assert Exists(v, SlotOf(j, g)) && Exists(v1, SlotOf(j, g)) && Exists(v1, Ind(i));
    if 0 < b < |v1.disk| {
      assert b != Ref(v1, Ind(i));
      if SlotOf(j, g) == SlotOf(i, f) {
        if free <= w { assert v.disk[w] == ZeroSector(); }
      } else {
        assert b == BlockOf(v, j, g);
      }
    }
  }

  lemma TailWritten(v1: Vol, v': Vol, lo: nat, free: nat, i: nat, f: nat, s: Sector, off: nat, n: nat, j: nat, g: nat)
    requires i < |v1.ino| == |v'.ino| && f == off / 512 < 159 && j < |v1.ino| && g < 159 && off % 512 + n <= 512
    requires Good(v1, lo, free) && ZeroTail(v1, j, g) && 0 < BlockOf(v1, i, f) < |v1.disk|
    requires v1.ino[i].size == off && v'.ino[i].size == off + n && (j != i ==> v'.ino[j].size == v1.ino[j].size)
    requires v'.disk == v1.disk[BlockOf(v1, i, f) := s] && BlockOf(v', j, g) == BlockOf(v1, j, g)
    requires forall x :: off % 512 + n <= x < 512 ==> s[x] == v1.disk[BlockOf(v1, i, f)][x]
    ensures ZeroTail(v', j, g)
  {
    assert Exists(v1, SlotOf(j, g)) && Exists(v1, SlotOf(i, f));
    if BlockOf(v1, j, g) == BlockOf(v1, i, f) { assert SlotOf(j, g) == SlotOf(i, f); }
  }

  /** One block after a round: its tail is still zero. */
  lemma TailKept(b: Build, table: seq<Dinode>, i: nat, off: u32, lo: nat, p: seq<byte>, j: nat, g: nat)
    requires i < |table| && lo <= b.free && Good(View(b, table, i, off), lo, b.free) && p != []
    requires AllTight(View(b, table, i, off)) && j < |table| && g < 159
    requires Round(b, off, p).Some? && off / 512 < 159 && Ensured(b, table, i, off, lo, off / 512)
    requires off + Chunk(off, p) < 0x1_0000_0000
    ensures ZeroTail(View(Round(b, off, p).value, table, i, off + Chunk(off, p)), j, g)
  {
    hide EnsureBlock, Round, Missing, Ensured, GrownAt, Grown, Good, AllTight, ZeroTail, Ref, BlockReplaced, SameBelow, WriteAt, View;
    var f, n := off / 512, Chunk(off, p);
    RoundTakesBlock(b, off, p);
    var b1, w := EnsureBlock(b, f).value.0, EnsureBlock(b, f).value.1;
    EnsuredGives(b, table, i, off, lo, f);
    EnsureBlockDisk(b, table, i, off, lo, f);
    RoundIsWrite(b, table, i, off, p);
    var v, v1 := View(b, table, i, off), View(b1, table, i, off);
    ViewParts(b, table, i, off);
    ViewParts(b1, table, i, off);
    TailNow(v, j, g);
    TailGrown(v, v1, lo, b.free, b1.free, i, f, w, j, g);
    TailAfterWrite(v1, lo, b1.free, i, off, p[..n], j, g);
  }

  lemma RoundTakesBlock(b: Build, off: nat, p: seq<byte>)
    requires Round(b, off, p).Some?
    ensures var e := EnsureBlock(b, off / 512); e.Some? && e.value.1 < |e.value.0.disk|
  {}

  lemma ViewParts(b: Build, table: seq<Dinode>, i: nat, off: u32)
    requires i < |table|
    ensures var v := View(b, table, i, off);
      && v.disk == b.disk && |v.ino| == |table| && v.ino[i].size == off
      && forall j :: 0 <= j < |table| && j != i ==> v.ino[j] == table[j]
  {}

  lemma TailAfterWrite(v1: Vol, lo: nat, free: nat, i: nat, off: u32, chunk: seq<byte>, j: nat, g: nat)
    requires Good(v1, lo, free) && i < |v1.ino| && v1.ino[i].size == off && off / 512 < 159 && j < |v1.ino| && g < 159
    requires 0 < |chunk| && off % 512 + |chunk| <= 512 && 0 < BlockOf(v1, i, off / 512) < |v1.disk| && ZeroTail(v1, j, g)
    ensures ZeroTail(WriteAt(v1, i, BlockOf(v1, i, off / 512), off, chunk, off + |chunk|), j, g)
  {
    hide Good, ZeroTail, Ref, BlockReplaced, SameBelow;
    var f, w, n := off / 512, BlockOf(v1, i, off / 512), |chunk|;
    var s: Sector := Splice(v1.disk[w], off % 512, chunk);
    WriteBlockAll(v1, lo, free, i, f, s);
    var v2 := v1.(disk := v1.disk[w := s]);
    var v' := WriteAt(v1, i, w, off, chunk, off + n);
    WriteAtIs(v1, i, w, off, chunk);
    SameBlock(v1, v2, j, g);
    SizedBlock(v2, v', j, g);
    TailWritten(v1, v', lo, free, i, f, s, off, n, j, g);
  }

  lemma WriteAtIs(v: Vol, i: nat, w: nat, off: u32, chunk: seq<byte>)
    requires i < |v.ino| && w < |v.disk| && off % 512 + |chunk| <= 512 && off + |chunk| < 0x1_0000_0000
    ensures var v2 := v.(disk := v.disk[w := Splice(v.disk[w], off % 512, chunk)]);
      WriteAt(v, i, w, off, chunk, off + |chunk|) == v2.(ino := v2.ino[i := v2.ino[i].(size := off + |chunk|)])
  { hide Splice; }

  lemma TailNow(v: Vol, j: nat, g: nat)
    requires AllTight(v) && j < |v.ino| && g < 159
    ensures ZeroTail(v, j, g)
  { assert Tight(v, j); }

  lemma SizedBlock(v: Vol, v': Vol, j: nat, g: nat)
    requires v'.disk == v.disk && j < |v.ino| == |v'.ino| && g < 159 && v'.ino[j].addrs == v.ino[j].addrs
    ensures BlockOf(v', j, g) == BlockOf(v, j, g)
  {}

  lemma TightKept(v: Vol, v': Vol, i: nat, off: u32, n: nat)
    requires i < |v.ino| == |v'.ino| && v.ino[i].size == off && off / 512 < 159 && AllTight(v)
    requires 0 < n && off % 512 + n <= 512 && v'.ino[i].size == off + n
    requires forall j :: 0 <= j < |v.ino| && j != i ==> v'.ino[j].size == v.ino[j].size
    requires GrownAt(v, v', i, off / 512) && BlockOf(v', i, off / 512) != 0
    requires forall j, g :: 0 <= j < |v.ino| && 0 <= g < 159 ==> ZeroTail(v', j, g)
    ensures AllTight(v')
  {
    var f := off / 512;
    forall j | 0 <= j < |v.ino| ensures Tight(v', j) {
      assert Tight(v, j) && Exists(v, Ind(j));
      forall g | 0 <= g < 159 ensures BlockOf(v', j, g) != 0 <==> g * 512 < v'.ino[j].size {
        assert Exists(v, SlotOf(j, g));
        assert BlockOf(v, j, g) != 0 <==> g * 512 < v.ino[j].size;
      }
      if j == i && 31 <= f { assert Ref(v', Via(i, f - 31)) != 0; }
    }
  }

  lemma AppendedTrans(b: Build, b1: Build, b2: Build, table: seq<Dinode>, i: nat, off: u32, off1: u32, off2: u32,
                      p: seq<byte>, q: seq<byte>, lo: nat)
    requires i < |table| && Appended(b, b1, table, i, off, off1, p, lo) && Appended(b1, b2, table, i, off1, off2, q, lo)
    ensures Appended(b, b2, table, i, off, off2, p + q, lo)
  {
    hide Good, Content, Filled;
    var v, v1, v2 := View(b, table, i, off), View(b1, table, i, off1), View(b2, table, i, off2);
    assert Content(v2, i) == Content(v1, i) + q && Content(v1, i) == Content(v, i) + p;
    assert Content(v, i) + p + q == Content(v, i) + (p + q);
    forall j | 0 <= j < |v.ino| && j != i ensures Content(v2, j) == Content(v, j) {
      assert Content(v1, j) == Content(v, j);
    }
  }

  lemma NothingAppended(b: Build, table: seq<Dinode>, i: nat, off: u32, lo: nat)
    requires i < |table| && Good(View(b, table, i, off), lo, b.free)
    ensures Appended(b, b, table, i, off, off, [], lo)
  {
    var v := View(b, table, i, off);
    assert Content(v, i) + [] == Content(v, i);
  }

  /** One round on a tight image: it fails exactly at the size limit or when the image is full. */
  lemma RoundOnTight(b: Build, table: seq<Dinode>, i: nat, off: u32, lo: nat, p: seq<byte>)
    requires i < |table| && lo <= b.free && p != []
    requires Good(View(b, table, i, off), lo, b.free) && AllTight(View(b, table, i, off))
    ensures var r := Round(b, off, p); var n := Chunk(off, p);
      && (r.Some? <==> off / 512 < 159 && b.free + Blocks(off + n) - Blocks(off) <= |b.disk|)
      && (r.Some? ==>
            && off + n <= 159 * 512
            && Appended(b, r.value, table, i, off, off + n, p[..n], lo)
            && r.value.free == b.free + Blocks(off + n) - Blocks(off)
            && AllTight(View(r.value, table, i, off + n)))
  {
    hide Round, Good, Longer, SameBelow, Missing, GrownAt;
    var v, n := View(b, table, i, off), Chunk(off, p);
    RoundAppends(b, table, i, off, lo, p);
    if off / 512 < 159 {
      MissingIsGrowth(v, i, off, n);
      if Round(b, off, p).Some? {
        var v' := View(Round(b, off, p).value, table, i, off + n);
        EnsureBlockGood(b, table, i, off, lo, off / 512);
        forall j, g | 0 <= j < |v.ino| && 0 <= g < 159 ensures ZeroTail(v', j, g) {
          TailKept(b, table, i, off, lo, p, j, g);
        }
        TightKept(v, v', i, off, n);
      }
    }
  }

  /**
   * The loop of iappend refines sequence append: it succeeds exactly when the new size is addressable
   * and enough sectors are left; then file `i` has the new bytes at its end, every other file and every
   * sector below the data area is as before, sectors are owned once and lie below freeblock, and the
   * image is still zero from freeblock on.
   */
  lemma {:induction false} AppendLoopAppends(b: Build, table: seq<Dinode>, i: nat, off: u32, lo: nat, p: seq<byte>)
    requires i < |table| && lo <= b.free && off <= 159 * 512
    requires Good(View(b, table, i, off), lo, b.free) && AllTight(View(b, table, i, off))
    ensures var r := AppendLoop(b, off, p); var off' := off + |p|;
      && (r.Some? <==> off' <= 159 * 512 && b.free + Blocks(off') - Blocks(off) <= |b.disk|)
      && (r.Some? ==>
            && r.value.1 == off' <= 159 * 512
            && Appended(b, r.value.0, table, i, off, off', p, lo)
            && r.value.0.free == b.free + Blocks(off') - Blocks(off)
            && AllTight(View(r.value.0, table, i, off')))
    decreases |p|
  {
    hide Round, View, Good, AllTight, Blocks, Appended;
    if p == [] {
      FreeBound(b, table, i, off, lo);
      NothingAppended(b, table, i, off, lo);
    } else {
      var n := Chunk(off, p);
      RoundOnTight(b, table, i, off, lo, p);
      BlocksMonotone(off + n, off + |p|);
      var r := Round(b, off, p);
      if r.Some? {
        var b1 := r.value;
        AppendedBound(b, b1, table, i, off, off + n, p[..n], lo);
        AppendLoopAppends(b1, table, i, off + n, lo, p[n..]);
        assert p[..n] + p[n..] == p;
        if AppendLoop(b1, off + n, p[n..]).Some? {
          AppendedTrans(b, b1, AppendLoop(b, off, p).value.0, table, i, off, off + n, off + |p|, p[..n], p[n..], lo);
        }
      }
    }
  }

  lemma FreeBound(b: Build, table: seq<Dinode>, i: nat, off: u32, lo: nat)
    requires i < |table| && Good(View(b, table, i, off), lo, b.free)
    ensures b.free <= |b.disk|
  {}

  lemma AppendedBound(b: Build, b1: Build, table: seq<Dinode>, i: nat, off: u32, off1: u32, p: seq<byte>, lo: nat)
    requires i < |table| && Appended(b, b1, table, i, off, off1, p, lo)
    ensures Good(View(b1, table, i, off1), lo, b1.free) && b.free <= b1.free && |b1.disk| == |b.disk|
  {}
}
