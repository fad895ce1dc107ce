/** kernel/fs.c: readi on the direct blocks of a file, and the file offsets of kernel/fd.c. */
module ReadI {
  import opened Options
  import opened Bytes
  import opened Layout
  import opened Volume
  import opened Balloc
  import opened Kfs
  import opened Overwriting
  import opened WriteI

  // ---------------------------------------------------------------- readi

  /** Bytes that a request for `n` bytes at `off` gets from a file of `size` bytes. */
  function Available(size: nat, off: nat, n: nat): nat
  { if size <= off then 0 else if n < size - off then n else size - off }

  /** n1 of one round: up to the end of the block, of the file and of the request. */
  function Piece(size: nat, off: nat, n: nat): nat
    requires off < size
  { if Available(size, off, n) < 512 - off % 512 then Available(size, off, n) else 512 - off % 512 }

  /**
   * The loop of readi, where `buf` is the memory from the caller's address on: dst advances in the copy
   * loop and once more after it.
   */
  function ReadLoop(fs: Fs, k: nat, buf: seq<byte>, dst: nat, off: nat, n: nat): Option<seq<byte>>
    requires k < |fs.cache|
    decreases n
  {
    var e := fs.cache[k].d;
    if n == 0 || e.size <= off then Some(buf)
    else if 31 <= off / 512 || |fs.disk| <= e.addrs[off / 512] || |buf| < dst + Piece(e.size, off, n) then None
    else
      var n1 := Piece(e.size, off, n);
      var s := fs.disk[e.addrs[off / 512]][off % 512..off % 512 + n1];
      ReadLoop(fs, k, Splice(buf, dst, s), dst + 2 * n1, off + n1, n - n1)
  }

  /** Where byte `x` of a request at `off` lands: at `x` in the first block, later ones are shifted. */
  function Place(off: nat, x: nat): nat
  { if off < (off + x) / 512 * 512 then x + ((off + x) / 512 * 512 - off) else x }

  lemma PlaceInBlock(off: nat, x: nat)
    requires off % 512 + x < 512
    ensures Place(off, x) == x
  { assert (off + x) / 512 == off / 512; }

  lemma PlaceNextBlock(off: nat, n1: nat, x: nat)
    requires (off + n1) % 512 == 0 && 0 < n1
    ensures Place(off, n1 + x) == 2 * n1 + Place(off + n1, x)
  { assert off < (off + n1 + x) / 512 * 512; }

  /** No byte of the request lands at `y`. */
  ghost predicate Missed(dst: nat, off: nat, got: nat, y: nat)
  { forall x :: 0 <= x < got ==> y != dst + Place(off, x) }

  /** `r` is `buf` with `c[off..off + got]` stored byte by byte at the places, and nothing else changed. */
  ghost predicate Stored(r: seq<byte>, buf: seq<byte>, dst: nat, c: seq<byte>, off: nat, got: nat)
  {
    && |r| == |buf| && (got > 0 ==> off + got <= |c|)
    && (forall x :: 0 <= x < got ==> dst + Place(off, x) < |r| && r[dst + Place(off, x)] == c[off + x])
    && (forall y :: 0 <= y < |r| && Missed(dst, off, got, y) ==> r[y] == buf[y])
  }

  lemma {:induction false} StoredStep(r: seq<byte>, buf1: seq<byte>, buf: seq<byte>, dst: nat, c: seq<byte>,
                                      off: nat, got: nat, n1: nat)
    requires 0 < n1 <= got && off + got <= |c| && dst + n1 <= |buf| && off % 512 + n1 <= 512
    requires got > n1 ==> (off + n1) % 512 == 0
    requires buf1 == Splice(buf, dst, c[off..off + n1]) && Stored(r, buf1, dst + 2 * n1, c, off + n1, got - n1)
    ensures Stored(r, buf, dst, c, off, got)
  {
    forall x | 0 <= x < got ensures dst + Place(off, x) < |r| && r[dst + Place(off, x)] == c[off + x] {
      StoredAt(r, buf1, buf, dst, c, off, got, n1, x);
    }
    forall y | 0 <= y < |r| && Missed(dst, off, got, y) ensures r[y] == buf[y] { MissedStep(dst, off, got, n1, y); }
  }

  lemma StoredAt(r: seq<byte>, buf1: seq<byte>, buf: seq<byte>, dst: nat, c: seq<byte>, off: nat, got: nat, n1: nat, x: nat)
    requires 0 < n1 <= got && off + got <= |c| && dst + n1 <= |buf| && off % 512 + n1 <= 512 && x < got
    requires got > n1 ==> (off + n1) % 512 == 0
    requires buf1 == Splice(buf, dst, c[off..off + n1]) && Stored(r, buf1, dst + 2 * n1, c, off + n1, got - n1)
    ensures dst + Place(off, x) < |r| && r[dst + Place(off, x)] == c[off + x]
  {
    hide Stored, Missed;
    if x < n1 {
      PlaceInBlock(off, x);
      FirstPieceMissed(dst, off, got, n1, x);
      StoredKeeps(r, buf1, dst + 2 * n1, c, off + n1, got - n1, dst + x);
    } else {
      PlaceNextBlock(off, n1, x - n1);
      StoredGives(r, buf1, dst + 2 * n1, c, off + n1, got - n1, x - n1);
    }
  }

  lemma StoredKeeps(r: seq<byte>, buf: seq<byte>, dst: nat, c: seq<byte>, off: nat, got: nat, y: nat)
    requires Stored(r, buf, dst, c, off, got) && y < |buf| && Missed(dst, off, got, y)
    ensures |r| == |buf| && r[y] == buf[y]
  {}

  lemma StoredGives(r: seq<byte>, buf: seq<byte>, dst: nat, c: seq<byte>, off: nat, got: nat, x: nat)
    requires Stored(r, buf, dst, c, off, got) && x < got
    ensures dst + Place(off, x) < |r| && off + x < |c| && r[dst + Place(off, x)] == c[off + x]
  {}

  lemma FirstPieceMissed(dst: nat, off: nat, got: nat, n1: nat, x: nat)
    requires x < n1 <= got
    ensures Missed(dst + 2 * n1, off + n1, got - n1, dst + x)
  {}

  lemma MissedStep(dst: nat, off: nat, got: nat, n1: nat, y: nat)
    requires 0 < n1 <= got && off % 512 + n1 <= 512 && (got > n1 ==> (off + n1) % 512 == 0) && Missed(dst, off, got, y)
    ensures Missed(dst + 2 * n1, off + n1, got - n1, y) && !(dst <= y < dst + n1)
  {
    var off1 := off + n1;
    forall x | 0 <= x < got - n1 ensures y != dst + 2 * n1 + Place(off1, x) {
      PlaceNextBlock(off, n1, x);
      assert y != dst + Place(off, n1 + x);
    }
    if dst <= y < dst + n1 { PlaceInBlock(off, y - dst); }
  }

  /** File `k` of the cache lies in its direct blocks and holds `c`. */
  ghost predicate DirectFile(fs: Fs, k: nat, c: seq<byte>)
  {
    && k < |fs.cache| && |c| == fs.cache[k].d.size <= 31 * 512
    && (forall x :: 0 <= x < |c| ==>
          var w := fs.cache[k].d.addrs[x / 512]; w < |fs.disk| && c[x] == fs.disk[w][x % 512])
  }

  lemma ContentIsDirect(fs: Fs, k: nat, c: seq<byte>)
    requires FileIs(fs, k, c) && |c| <= 31 * 512
    ensures DirectFile(fs, k, c)
  {
    hide FsOk, Files, Filled, Content, CacheUnique, FileIs;
    FileParts(fs, k, c);
    FindLive(fs, k);
    var v, i := Files(fs), fs.cache[k].inum;
    ContentBytes(v, i);
    forall x | 0 <= x < |c| ensures var w := fs.cache[k].d.addrs[x / 512]; w < |fs.disk| && c[x] == fs.disk[w][x % 512] {
      SlotIsDirect(v, i, x / 512);
    }
  }

  lemma SourceBytes(fs: Fs, k: nat, c: seq<byte>, off: nat, n1: nat)
    requires DirectFile(fs, k, c) && off % 512 + n1 <= 512 && 0 < n1 && off + n1 <= |c|
    ensures off / 512 < 31 && fs.cache[k].d.addrs[off / 512] < |fs.disk|
    ensures fs.disk[fs.cache[k].d.addrs[off / 512]][off % 512..off % 512 + n1] == c[off..off + n1]
  {
    var s := fs.disk[fs.cache[k].d.addrs[off / 512]][off % 512..off % 512 + n1];
    forall x | 0 <= x < n1 ensures s[x] == c[off + x] {
      assert (off + x) / 512 == off / 512 && (off + x) % 512 == off % 512 + x;
    }
  }

  /** One round takes the bytes up to the end of a block, or the last ones. */
  lemma PieceStep(size: nat, off: nat, n: nat)
    requires off < size && 0 < n
    ensures var n1 := Piece(size, off, n); var got := Available(size, off, n);
      && 0 < n1 <= got <= n && off + got <= size && off % 512 + n1 <= 512 && (n1 < got ==> (off + n1) % 512 == 0)
      && Available(size, off + n1, n - n1) == got - n1
  {}

  lemma {:induction false} LoopStores(fs: Fs, k: nat, c: seq<byte>, buf: seq<byte>, dst: nat, off: nat, n: nat)
    requires DirectFile(fs, k, c) && dst + 2 * n <= |buf|
    ensures var r := ReadLoop(fs, k, buf, dst, off, n); r.Some? && Stored(r.value, buf, dst, c, off, Available(|c|, off, n))
    decreases n
  {
    hide DirectFile, Stored, Available, Piece;
    SizeOf(fs, k, c);
    if n == 0 || |c| <= off {
      NothingGot(|c|, off, n);
      StoredNothing(buf, dst, c, off);
    } else {
      var n1 := Piece(|c|, off, n);
      PieceStep(|c|, off, n);
      SourceBytes(fs, k, c, off, n1);
      var buf1 := Splice(buf, dst, c[off..off + n1]);
      LoopStores(fs, k, c, buf1, dst + 2 * n1, off + n1, n - n1);
      StoredStep(ReadLoop(fs, k, buf1, dst + 2 * n1, off + n1, n - n1).value, buf1, buf, dst, c, off, Available(|c|, off, n), n1);
    }
  }

  lemma NothingGot(size: nat, off: nat, n: nat)
    requires n == 0 || size <= off
    ensures Available(size, off, n) == 0
  {}

  lemma StoredNothing(buf: seq<byte>, dst: nat, c: seq<byte>, off: nat)
    ensures Stored(buf, buf, dst, c, off, 0)
  {}

  lemma SizeOf(fs: Fs, k: nat, c: seq<byte>)
    requires DirectFile(fs, k, c)
    ensures k < |fs.cache| && |c| == fs.cache[k].d.size
  {}

  datatype ReadResult = Read(buf: seq<byte>, n: nat) | FromDevice | OutOfModel

  /** readi returns target - n. */
  function Readi(fs: Fs, k: nat, buf: seq<byte>, off: nat, n: nat): ReadResult
    requires k < |fs.cache|
  {
    if fs.cache[k].d.kind == T_DEV then FromDevice
    else
      var r := ReadLoop(fs, k, buf, 0, off, n);
      if r.None? then OutOfModel else Read(r.value, Available(fs.cache[k].d.size, off, n))
  }

  /** What the caller finds when the bytes are in one piece. */
  function InOnePiece(buf: seq<byte>, c: seq<byte>, off: nat, got: nat): seq<byte>
    requires got <= |buf| && (got > 0 ==> off + got <= |c|)
  { (if got == 0 then [] else c[off..off + got]) + buf[got..] }

  /** Memory that differs from the file where a request leaves its first gap. */
  lemma GapShows(fs: Fs, k: nat, c: seq<byte>, off: nat, n: nat, buf: seq<byte>)
    requires DirectFile(fs, k, c) && 512 < off % 512 + Available(|c|, off, n) && |buf| == 2 * n
    requires buf[512 - off % 512] != c[off + (512 - off % 512)]
    ensures k < |fs.cache| && ReadLoop(fs, k, buf, 0, off, n) != Some(InOnePiece(buf, c, off, Available(|c|, off, n)))
  {
    hide DirectFile, Stored;
    var n1, got := 512 - off % 512, Available(|c|, off, n);
    SizeOf(fs, k, c);
    LoopStores(fs, k, c, buf, 0, off, n);
    GapMissed(off, got);
    StoredGap(ReadLoop(fs, k, buf, 0, off, n).value, buf, c, off, got, n1);
  }

  lemma GapMissed(off: nat, got: nat)
    requires 512 < off % 512 + got
    ensures Missed(0, off, got, 512 - off % 512)
  {
    var n1 := 512 - off % 512;
    forall x | 0 <= x < got ensures Place(off, x) != n1 {
      if x < n1 { PlaceInBlock(off, x); } else { PlaceNextBlock(off, n1, x - n1); }
    }
  }

  lemma StoredGap(r: seq<byte>, buf: seq<byte>, c: seq<byte>, off: nat, got: nat, y: nat)
    requires Stored(r, buf, 0, c, off, got) && Missed(0, off, got, y) && y < got <= |buf| && buf[y] != c[off + y]
    ensures r != InOnePiece(buf, c, off, got)
  { assert InOnePiece(buf, c, off, got)[y] == c[off..off + got][y]; }

  /** A byte other than `b`. */
  function Other(b: byte): (r: byte)
    ensures r != b
  { if b == 0 then 1 else 0 }

  /**
   * readi returns the number of bytes that are there, and stores them in one piece, whatever the memory
   * held before, exactly when the bytes lie within one block.
   */
  lemma ReadiDeliversExactly(fs: Fs, k: nat, c: seq<byte>, off: nat, n: nat)
    requires DirectFile(fs, k, c) && k < |fs.cache| && fs.cache[k].d.kind != T_DEV
    ensures var got := Available(|c|, off, n);
      && (forall buf: seq<byte> :: 2 * n <= |buf| ==>
            Readi(fs, k, buf, off, n).Read? && Readi(fs, k, buf, off, n).n == got)
      && ((forall buf: seq<byte> :: 2 * n <= |buf| ==>
             Readi(fs, k, buf, off, n) == Read(InOnePiece(buf, c, off, got), got))
          <==> off % 512 + got <= 512 || got == 0)
  {
    hide DirectFile;
    var got := Available(|c|, off, n);
    SizeOf(fs, k, c);
    forall buf: seq<byte> | 2 * n <= |buf| ensures Readi(fs, k, buf, off, n).Read? && Readi(fs, k, buf, off, n).n == got {
      LoopStores(fs, k, c, buf, 0, off, n);
    }
    if off % 512 + got <= 512 || got == 0 {
      forall buf: seq<byte> | 2 * n <= |buf| ensures Readi(fs, k, buf, off, n) == Read(InOnePiece(buf, c, off, got), got) {
        LoopStores(fs, k, c, buf, 0, off, n);
        StoredInOnePiece(Readi(fs, k, buf, off, n).buf, buf, c, off, got);
      }
    } else {
      var buf: seq<byte> := seq(2 * n, _ => Other(c[off + (512 - off % 512)]));
      GapShows(fs, k, c, off, n, buf);
      assert Readi(fs, k, buf, off, n) != Read(InOnePiece(buf, c, off, got), got);
    }
  }

  lemma StoredInOnePiece(r: seq<byte>, buf: seq<byte>, c: seq<byte>, off: nat, got: nat)
    requires Stored(r, buf, 0, c, off, got) && (off % 512 + got <= 512 || got == 0) && got <= |buf|
    ensures r == InOnePiece(buf, c, off, got)
  {
    forall x | 0 <= x < got ensures Place(off, x) == x { PlaceInBlock(off, x); }
    var want := InOnePiece(buf, c, off, got);
    forall y | 0 <= y < |r| ensures r[y] == want[y] {
      if y < got { assert r[Place(off, y)] == c[off + y]; }
    }
  }

  // ---------------------------------------------------------------- file descriptors

  /** struct fd of type FD_FILE; `k` is the entry of its inode. */
  datatype Fd = Fd(readable: bool, writeable: bool, off: nat, k: nat)

  /** -1 is None. */
  function FdRead(fs: Fs, fd: Fd, buf: seq<byte>, n: nat): Option<(Fd, seq<byte>, nat)>
    requires fd.k < |fs.cache|
  {
    if !fd.readable then None
    else
      var r := Readi(fs, fd.k, buf, fd.off, n);
      if !r.Read? then None else Some((fd.(off := fd.off + r.n), r.buf, r.n))
  }

  function FdWrite(fs: Fs, fd: Fd, p: seq<byte>): Option<(Fs, Fd, nat)>
    requires GeoOk(fs.disk) && fd.k < |fs.cache| && fs.cache[fd.k].inum < Inodes(fs.disk) && fd.off + |p| <= 31 * 512
  {
    if !fd.writeable then None
    else
      var r := Write(fs, fd.k, fd.off, p);
      if !r.Wrote? then None else Some((r.fs, fd.(off := fd.off + r.n), r.n))
  }

  /** Reading 512 bytes at a time until a call returns 0, and keeping what each call returned. */
  function Drain(fs: Fs, fd: Fd, buf: seq<byte>): Option<seq<byte>>
    requires fd.k < |fs.cache|
    decreases if fd.off < fs.cache[fd.k].d.size then fs.cache[fd.k].d.size - fd.off else 0
  {
    var r := FdRead(fs, fd, buf, 512);
    if r.None? || |r.value.1| < r.value.2 then None
    else if r.value.2 == 0 then Some([])
    else
      var rest := Drain(fs, r.value.0, r.value.1);
      if rest.None? then None else Some(r.value.1[..r.value.2] + rest.value)
  }

  /** One read of 512 bytes at the start of a block. */
  lemma FdReadGets(fs: Fs, fd: Fd, c: seq<byte>, buf: seq<byte>)
    requires DirectFile(fs, fd.k, c) && fd.k < |fs.cache| && fs.cache[fd.k].d.kind != T_DEV && fd.readable && 1024 <= |buf|
    requires fd.off % 512 == 0 || fd.off == |c|
    ensures var r := FdRead(fs, fd, buf, 512); r.Some? && |r.value.1| == |buf| && r.value.0 == fd.(off := fd.off + r.value.2)
    ensures var n := FdRead(fs, fd, buf, 512).value.2;
      && (n == 0 <==> |c| <= fd.off) && n <= 512 && ((fd.off + n) % 512 == 0 || fd.off + n >= |c|)
      && (n > 0 ==> fd.off + n <= |c| && FdRead(fs, fd, buf, 512).value.1[..n] == c[fd.off..fd.off + n])
  {
    hide DirectFile, Stored;
    SizeOf(fs, fd.k, c);
    LoopStores(fs, fd.k, c, buf, 0, fd.off, 512);
    var r := FdRead(fs, fd, buf, 512).value;
    StoredLength(r.1, buf, 0, c, fd.off, r.2);
    StoredInOnePiece(r.1, buf, c, fd.off, r.2);
  }

  lemma StoredLength(r: seq<byte>, buf: seq<byte>, dst: nat, c: seq<byte>, off: nat, got: nat)
    requires Stored(r, buf, dst, c, off, got)
    ensures |r| == |buf|
  {}

  lemma {:induction false} DrainReads(fs: Fs, fd: Fd, c: seq<byte>, buf: seq<byte>)
    requires DirectFile(fs, fd.k, c) && fd.k < |fs.cache| && fs.cache[fd.k].d.kind != T_DEV && fd.readable && 1024 <= |buf|
    requires fd.off % 512 == 0 || fd.off == |c|
    ensures Drain(fs, fd, buf) == Some(if fd.off <= |c| then c[fd.off..] else [])
    decreases if fd.off < |c| then |c| - fd.off else 0
  {
    hide DirectFile, FdRead;
    SizeOf(fs, fd.k, c);
    FdReadGets(fs, fd, c, buf);
    var (fd1, buf1, n) := FdRead(fs, fd, buf, 512).value;
    if n > 0 {
      DrainReads(fs, fd1, c, buf1);
      assert c[fd.off..] == c[fd.off..fd.off + n] + c[fd.off + n..];
    } else {
      assert fd.off == |c| ==> c[fd.off..] == [];
    }
  }

  /** What a file descriptor reads back from the start is the content of the file, and then nothing. */
  lemma ReadBack(fs: Fs, k: nat, c: seq<byte>, buf: seq<byte>)
    requires FileIs(fs, k, c) && |c| <= 31 * 512 && k < |fs.cache| && fs.cache[k].d.kind != T_DEV && 1024 <= |buf|
    ensures Drain(fs, Fd(true, false, 0, k), buf) == Some(c)
  {
    hide FileIs;
    ContentIsDirect(fs, k, c);
    DrainReads(fs, Fd(true, false, 0, k), c, buf);
    assert c[0..] == c;
  }

  // ---------------------------------------------------------------- successive writes

  function Total(ps: seq<seq<byte>>): nat { if ps == [] then 0 else |ps[0]| + Total(ps[1..]) }

  function Concat(ps: seq<seq<byte>>): (r: seq<byte>)
    ensures |r| == Total(ps)
  { if ps == [] then [] else ps[0] + Concat(ps[1..]) }

  function FdWriteAll(fs: Fs, fd: Fd, ps: seq<seq<byte>>): Option<(Fs, Fd)>
    requires GeoOk(fs.disk) && fd.k < |fs.cache| && fs.cache[fd.k].inum < Inodes(fs.disk)
    requires fd.off + Total(ps) <= 31 * 512
    decreases |ps|
  {
    if ps == [] then Some((fs, fd))
    else
      var r := FdWrite(fs, fd, ps[0]);
      if r.None? then None
      else
        var (fs1, fd1, n) := r.value;
        if !GeoOk(fs1.disk) || |fs1.cache| <= fd.k || Inodes(fs1.disk) <= fs1.cache[fd.k].inum || n != |ps[0]| then None
        else FdWriteAll(fs1, fd1, ps[1..])
  }

  lemma OnlyTrans(fs: Fs, fs1: Fs, fs2: Fs, k: nat)
    requires OnlyFile(fs, fs1, k) && OnlyFile(fs1, fs2, k)
    ensures OnlyFile(fs, fs2, k)
  {
    OthersTrans(fs, fs1, fs2, k);
    hide Filled, Content;
  }

  lemma OnlyParts(fs: Fs, fs': Fs, k: nat)
    requires OnlyFile(fs, fs', k)
    ensures k < |fs.cache| == |fs'.cache| && fs'.cache[k].inum == fs.cache[k].inum && fs'.cache[k].d.kind == fs.cache[k].d.kind
  {}

  lemma OnlyRefl(fs: Fs, k: nat)
    requires GeoOk(fs.disk) && k < |fs.cache|
    ensures OnlyFile(fs, fs, k)
  { OthersRefl(fs, k); }

  lemma AllWritten(fs: Fs, fd: Fd)
    requires GeoOk(fs.disk) && fd.k < |fs.cache| && fs.cache[fd.k].inum < Inodes(fs.disk) && fd.off <= 31 * 512
    ensures FdWriteAll(fs, fd, []) == Some((fs, fd)) && Total([]) == 0
  {}

  lemma WriteAllStep(fs: Fs, fd: Fd, ps: seq<seq<byte>>)
    requires GeoOk(fs.disk) && fd.k < |fs.cache| && fs.cache[fd.k].inum < Inodes(fs.disk)
    requires fd.off + Total(ps) <= 31 * 512 && ps != [] && fd.writeable
    requires var r := Write(fs, fd.k, fd.off, ps[0]);
      && r.Wrote? && r.n == |ps[0]| && GeoOk(r.fs.disk)
      && fd.k < |r.fs.cache| && r.fs.cache[fd.k].inum < Inodes(r.fs.disk)
    ensures FdWriteAll(fs, fd, ps) == FdWriteAll(Write(fs, fd.k, fd.off, ps[0]).fs, fd.(off := fd.off + |ps[0]|), ps[1..])
  { hide Write; }

  lemma WriteAllStops(fs: Fs, fd: Fd, ps: seq<seq<byte>>)
    requires GeoOk(fs.disk) && fd.k < |fs.cache| && fs.cache[fd.k].inum < Inodes(fs.disk)
    requires fd.off + Total(ps) <= 31 * 512 && ps != [] && !Write(fs, fd.k, fd.off, ps[0]).Wrote?
    ensures FdWriteAll(fs, fd, ps).None?
  {}

  lemma NothingWritten(c: seq<byte>, off: nat)
    requires off <= |c|
    ensures Overwrite(c, off, Concat([])) == c
  { assert Overwrite(c, off, []) == c; }

  lemma TwiceConcat(c: seq<byte>, off: nat, ps: seq<seq<byte>>)
    requires off <= |c| && ps != []
    ensures Overwrite(Overwrite(c, off, ps[0]), off + |ps[0]|, Concat(ps[1..])) == Overwrite(c, off, Concat(ps))
  { OverwriteTwice(c, off, ps[0], Concat(ps[1..])); }

  /** One call of fd_write that succeeds. */
  lemma WriteFirst(fs: Fs, fd: Fd, ps: seq<seq<byte>>, c: seq<byte>)
    requires FileIs(fs, fd.k, c) && fs.cache[fd.k].d.kind == T_FILE && fd.writeable && fd.off <= |c|
    requires fd.off + Total(ps) <= 31 * 512 && ps != [] && Write(fs, fd.k, fd.off, ps[0]).Wrote?
    ensures var fs1 := Write(fs, fd.k, fd.off, ps[0]).fs; var fd1 := fd.(off := fd.off + |ps[0]|);
      && FileIs(fs1, fd.k, Overwrite(c, fd.off, ps[0])) && fs1.cache[fd.k].d.kind == T_FILE && OnlyFile(fs, fs1, fd.k)
      && FdWriteAll(fs, fd, ps) == FdWriteAll(fs1, fd1, ps[1..])
  {
    hide FsOk, Write, FileIs, OnlyFile, Overwrite, FdWriteAll, GeoOk, Needed, ClearFrom;
    FileParts(fs, fd.k, c);
    WriteOverwrites(fs, fd.k, fd.off, ps[0], c);
    var fs1 := Write(fs, fd.k, fd.off, ps[0]).fs;
    OnlyParts(fs, fs1, fd.k);
    FileParts(fs1, fd.k, Overwrite(c, fd.off, ps[0]));
    WriteAllStep(fs, fd, ps);
  }

  lemma TotalSplit(ps: seq<seq<byte>>)
    requires ps != []
    ensures Total(ps) == |ps[0]| + Total(ps[1..])
  {}

  lemma OverwriteSize(c: seq<byte>, off: nat, t: seq<byte>)
    requires off <= |c|
    ensures off + |t| <= |Overwrite(c, off, t)|
  {}

  /** Successive fd_write calls write one after the other from the offset on. */
  lemma {:induction false} WritesFollow(fs: Fs, fd: Fd, ps: seq<seq<byte>>, c: seq<byte>)
    requires FileIs(fs, fd.k, c) && fs.cache[fd.k].d.kind == T_FILE && fd.writeable && fd.off <= |c|
    requires fd.off + Total(ps) <= 31 * 512
    ensures var r := FdWriteAll(fs, fd, ps); r.Some? ==>
      && FileIs(r.value.0, fd.k, Overwrite(c, fd.off, Concat(ps))) && OnlyFile(fs, r.value.0, fd.k)
      && r.value.1 == fd.(off := fd.off + Total(ps))
    decreases |ps|
  {
    hide FsOk, Write, FileIs, OnlyFile, Overwrite, Concat, FdWriteAll, GeoOk, Total;
    FileParts(fs, fd.k, c);
    if ps == [] {
      AllWritten(fs, fd);
      OnlyRefl(fs, fd.k);
      NothingWritten(c, fd.off);
    } else {
      TotalSplit(ps);
      var r := Write(fs, fd.k, fd.off, ps[0]);
      if r.Wrote? {
        WriteFirst(fs, fd, ps, c);
        OverwriteSize(c, fd.off, ps[0]);
        var fd1 := fd.(off := fd.off + |ps[0]|);
        WritesFollow(r.fs, fd1, ps[1..], Overwrite(c, fd.off, ps[0]));
        TwiceConcat(c, fd.off, ps);
        if FdWriteAll(fs, fd, ps).Some? { OnlyTrans(fs, r.fs, FdWriteAll(fs, fd, ps).value.0, fd.k); }
      } else {
        WriteAllStops(fs, fd, ps);
      }
    }
  }

  /**
   * After any successive fd_write calls, a descriptor opened for reading gives back, 512 bytes a call,
   * the content overwritten with everything written, and then nothing.
   */
  lemma WritesReadBack(fs: Fs, fd: Fd, ps: seq<seq<byte>>, c: seq<byte>, buf: seq<byte>)
    requires FileIs(fs, fd.k, c) && fs.cache[fd.k].d.kind == T_FILE && fd.writeable && fd.off <= |c| <= 31 * 512
    requires fd.off + Total(ps) <= 31 * 512 && 1024 <= |buf|
    ensures FdWriteAll(fs, fd, ps).Some? ==>
      fd.k < |FdWriteAll(fs, fd, ps).value.0.cache| &&
      Drain(FdWriteAll(fs, fd, ps).value.0, Fd(true, false, 0, fd.k), buf) == Some(Overwrite(c, fd.off, Concat(ps)))
  {
    hide FsOk, FileIs, OnlyFile, FdWriteAll, Drain;
    FileParts(fs, fd.k, c);
    WritesFollow(fs, fd, ps, c);
    if FdWriteAll(fs, fd, ps).Some? {
      OnlyParts(fs, FdWriteAll(fs, fd, ps).value.0, fd.k);
      ReadBack(FdWriteAll(fs, fd, ps).value.0, fd.k, Overwrite(c, fd.off, Concat(ps)), buf);
    }
  }
}
