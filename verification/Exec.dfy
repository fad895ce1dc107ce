/**
 * kernel/exec.c: kexec in one memory. For each PT_LOAD segment, and then for the argument stack, it takes a
 * page from kalloc, fills it and maps it; what the program then reads through its tables is stated here.
 */
module Exec {
  import opened Options
  import opened Bytes
  import opened Layout
  import opened Volume
  import opened Kalloc
  import opened PageTable
  import opened TableCost
  import opened Fork
  import opened UserMemory
  import opened Loader
  import opened ArgStack
  import opened Spaces

  /** A page of the new program and the address it is mapped at. */
  datatype Piece = Segment(va: nat, off: nat, filesz: nat) | Stack(va: nat, args: seq<seq<byte>>)

  /** What a page that held `prior` holds when kexec maps it; None where kexec panics or leaves the page. */
  function Fill(d: Disk, n: Dinode, c: Piece, prior: Page): Option<Page>
  {
    match c
    case Segment(_, off, filesz) =>
      var r := LoadSegment(d, n, off, filesz, prior);
      if r.Loaded? then Some(r.page) else None
    case Stack(va, args) => BuildStack(prior, args, va)
  }

  /** Exhausted stands for the unchecked null page of kalloc and the ignored -1 of mappages. */
  datatype ExecResult = Executed | Exhausted | BadPiece | MapPanic

  /** PTE_AP_RW */
  const RW := Perm(0, 0x40)

  function ExecStep(m: Mem, root: int, d: Disk, n: Dinode, c: Piece): (Mem, ExecResult)
  {
    if m.head <= 0 then (m, Exhausted)
    else
      var page := Fill(d, n, c, PageOf(m, m.head));
      if page.None? then (m, BadPiece)
      else
        var m2 := StorePage(AfterKalloc(m), m.head, page.value);
        var (m3, res) := MapPages(m2, root, c.va, m.head * 4096, 4096, RW);
        (m3, if res.Mapped? then Executed else if res.NoMemory? then Exhausted else MapPanic)
  }

  function ExecLoop(m: Mem, root: int, d: Disk, n: Dinode, cs: seq<Piece>): (Mem, ExecResult)
    decreases |cs|
  {
    if cs == [] then (m, Executed)
    else
      var (m1, res) := ExecStep(m, root, d, n, cs[0]);
      if res.Executed? then ExecLoop(m1, root, d, n, cs[1..]) else (m1, res)
  }

  /** The page goes to a whole page below MAXVA, and filling it succeeds whatever it held. */
  ghost predicate Placeable(d: Disk, n: Dinode, c: Piece)
  { c.va % 4096 == 0 && c.va / 4096 < MAXPAGE && forall prior :: Fill(d, n, c, prior).Some? }

  /** The pages that the program gets. */
  function PagesOf(cs: seq<Piece>): (s: set<int>)
    ensures forall k :: 0 <= k < |cs| ==> cs[k].va / 4096 in s
    ensures forall x :: x in s ==> exists k :: 0 <= k < |cs| && cs[k].va / 4096 == x
  { if cs == [] then {} else {cs[0].va / 4096} + PagesOf(cs[1..]) }

  ghost predicate DistinctPages(cs: seq<Piece>)
  { forall i, j :: 0 <= i < j < |cs| ==> cs[i].va / 4096 != cs[j].va / 4096 }

  ghost predicate CanExec(m: Mem, root: int, d: Disk, n: Dinode, cs: seq<Piece>)
  {
    && (forall k :: 0 <= k < |cs| ==> Placeable(d, n, cs[k]))
    && (forall x :: x in PagesOf(cs) ==> Lookup(m, root, x).None?)
    && DistinctPages(cs)
  }

  /** The program sees the piece at its address, in a page of its own. */
  ghost predicate Shows(m: Mem, root: int, d: Disk, n: Dinode, c: Piece, data: set<int>)
  {
    var e := Lookup(m, root, c.va / 4096);
    e.Some? && e.value.frame in data && exists prior :: Some(PageOf(m, e.value.frame)) == Fill(d, n, c, prior)
  }

  ghost predicate OthersKept(m: Mem, m': Mem, roots: set<int>, root: int, xs: set<int>)
  {
    forall r, x :: r in roots && 0 <= x < MAXPAGE && (r != root || x !in xs) ==> Lookup(m', r, x) == Lookup(m, r, x)
  }

  ghost predicate AllShown(m: Mem, m': Mem, roots: set<int>, free': seq<int>, data: set<int>, data': set<int>,
                           root: int, d: Disk, n: Dinode, cs: seq<Piece>)
  {
    && Ready(m', roots, free', data') && data <= data' && SameData(m, m', data)
    && (forall k :: 0 <= k < |cs| ==> Shows(m', root, d, n, cs[k], data' - data))
    && OthersKept(m, m', roots, root, PagesOf(cs))
  }

  function ExecNeed(m: Mem, root: int, cs: seq<Piece>): nat { |cs| + Need(m, root, PagesOf(cs)) }

  // ---------------------------------------------------------------- one page

  lemma MapOne(m: Mem, root: int, va: nat, pa: nat, perm: Perm)
    requires va % 4096 == 0 && va / 4096 < MAXPAGE
    ensures MapPages(m, root, va, pa, 4096, perm) == MapStep(m, root, va / 4096, pa / 4096, perm)
  {
    hide MapStep;
    assert (va + 4096 - 4096) % 0x1_0000_0000_0000_0000 == va;
  }

  lemma StepUnfolds(m: Mem, root: int, d: Disk, n: Dinode, c: Piece)
    requires Placeable(d, n, c) && m.head > 0
    ensures Fill(d, n, c, PageOf(m, m.head)).Some?
    ensures var m2 := StorePage(AfterKalloc(m), m.head, Fill(d, n, c, PageOf(m, m.head)).value);
      var (m3, res) := MapStep(m2, root, c.va / 4096, m.head, RW);
      ExecStep(m, root, d, n, c)
      == (m3, if res.Mapped? then Executed else if res.NoMemory? then Exhausted else MapPanic)
  {
    hide MapStep, MapPages, Fill, PageOf, StorePage;
    var m2 := StorePage(AfterKalloc(m), m.head, Fill(d, n, c, PageOf(m, m.head)).value);
    MapOne(m2, root, c.va, m.head * 4096, RW);
    assert m.head * 4096 / 4096 == m.head;
  }

  /** One page costs itself and the tables it is missing. */
  lemma ExecOne(m: Mem, roots: set<int>, free: seq<int>, data: set<int>, root: int, d: Disk, n: Dinode, c: Piece)
    returns (free': seq<int>)
    requires Ready(m, roots, free, data) && root in roots && Placeable(d, n, c) && Lookup(m, root, c.va / 4096).None?
    ensures var (m', res) := ExecStep(m, root, d, n, c); var need := 1 + Cost(m, root, c.va / 4096);
      && (res.Executed? <==> need <= |free|) && (res.Exhausted? <==> |free| < need)
      && (res.Executed? ==>
            && free' == free[need..] && GrownTo(m, m', roots, root, c.va / 4096)
            && Ready(m', roots, free', data + {m.head}) && SameData(m, m', data) && m.head !in data
            && OneMapped(m, m', roots, root, c.va / 4096, LeafEntry(m.head, RW))
            && Some(PageOf(m', m.head)) == Fill(d, n, c, PageOf(m, m.head)))
  {
    free' := free;
    assert 0 <= c.va / 4096 < MAXPAGE;
    hide Ready, Lookup, ExecStep, MapStep, PageOf, StorePage, PathTo, Cost, GrownTo, OneMapped, SameData, Fill, Placeable;
    EmptyFree(m, roots, free, data);
    if free == [] {
      NoPage(m, root, d, n, c);
    } else {
      var p, a := m.head, c.va / 4096;
      StepUnfolds(m, root, d, n, c);
      var page := Fill(d, n, c, PageOf(m, p)).value;
      var m2 := StorePage(AfterKalloc(m), p, page);
      StoreElsewhere(m, page);
      TakeAndFill(m, m2, roots, free, data);
      StoredPage(AfterKalloc(m), p, page);
      SameLookups(m, m2, roots);
      free' := MapStepRefines(m2, roots, free[1..], data + {p}, root, a, p, RW);
      SameCost(m, m2, roots, root, a);
      if MapStep(m2, root, a, p, RW).1.Mapped? {
        var m3 := MapStep(m2, root, a, p, RW).0;
        MappedAfterCopy(m, m2, m3, roots, data, root, a, p, LeafEntry(p, RW));
        SamePage(m2, m3, p);
      }
    }
  }

  lemma EmptyFree(m: Mem, roots: set<int>, free: seq<int>, data: set<int>)
    requires Ready(m, roots, free, data)
    ensures free == [] ==> m.head == 0
    ensures free != [] ==> m.head == free[0] > 0
  {}

  lemma NoPage(m: Mem, root: int, d: Disk, n: Dinode, c: Piece)
    requires m.head == 0
    ensures ExecStep(m, root, d, n, c).1.Exhausted?
  {}

  lemma StoreElsewhere(m: Mem, page: Page)
    ensures var m2 := StorePage(AfterKalloc(m), m.head, page);
      m2.head == AfterKalloc(m).head && forall q, j :: q != m.head ==> m2.ram(q, j) == m.ram(q, j)
  {}

  // ---------------------------------------------------------------- the whole program

  lemma NothingToExec(m: Mem, roots: set<int>, free: seq<int>, data: set<int>, root: int, d: Disk, n: Dinode)
    requires Ready(m, roots, free, data)
    ensures AllShown(m, m, roots, free, data, data, root, d, n, []) && ExecNeed(m, root, []) == 0
  { NeedNothing(m, root); }

  lemma FirstApart(cs: seq<Piece>, x: int)
    requires cs != [] && DistinctPages(cs) && x in PagesOf(cs[1..])
    ensures x in PagesOf(cs) && x != cs[0].va / 4096
  {
    var k :| 0 <= k < |cs[1..]| && cs[1..][k].va / 4096 == x;
    assert cs[1..][k] == cs[k + 1];
  }

  lemma RestPlaceable(d: Disk, n: Dinode, cs: seq<Piece>)
    requires cs != [] && forall k :: 0 <= k < |cs| ==> Placeable(d, n, cs[k])
    ensures forall k :: 0 <= k < |cs[1..]| ==> Placeable(d, n, cs[1..][k])
  {
    hide Placeable;
    forall k | 0 <= k < |cs[1..]| ensures Placeable(d, n, cs[1..][k]) { assert cs[1..][k] == cs[k + 1]; }
  }

  lemma PagesInRange(d: Disk, n: Dinode, cs: seq<Piece>)
    requires forall k :: 0 <= k < |cs| ==> Placeable(d, n, cs[k])
    ensures forall x :: x in PagesOf(cs) ==> 0 <= x < MAXPAGE
  { hide Fill; }

  lemma CanExecRest(m: Mem, m1: Mem, roots: set<int>, root: int, d: Disk, n: Dinode, cs: seq<Piece>, v: Word)
    requires cs != [] && root in roots && CanExec(m, root, d, n, cs) && OneMapped(m, m1, roots, root, cs[0].va / 4096, v)
    ensures CanExec(m1, root, d, n, cs[1..]) && cs[0].va / 4096 !in PagesOf(cs[1..])
  {
    RestPlaceable(d, n, cs);
    PagesInRange(d, n, cs);
    hide Lookup, Placeable, PagesOf;
    forall x | x in PagesOf(cs[1..]) ensures Lookup(m1, root, x).None? && x != cs[0].va / 4096 { FirstApart(cs, x); }
  }

  lemma NeedRest(m: Mem, m1: Mem, roots: set<int>, root: int, cs: seq<Piece>)
    requires cs != [] && root in roots && GrownTo(m, m1, roots, root, cs[0].va / 4096)
    ensures ExecNeed(m, root, cs) == 1 + Cost(m, root, cs[0].va / 4096) + ExecNeed(m1, root, cs[1..])
  {
    hide Need, Cost, GrownTo;
    NeedSplits(m, m1, roots, root, cs[0].va / 4096, PagesOf(cs[1..]));
  }

  lemma NeedFirst(m: Mem, root: int, cs: seq<Piece>)
    requires cs != []
    ensures 1 + Cost(m, root, cs[0].va / 4096) <= ExecNeed(m, root, cs)
  {
    hide Need, Cost;
    NeedAtLeast(m, root, cs[0].va / 4096, PagesOf(cs[1..]));
  }

  /** The first page stays as it was mapped while the others are loaded. */
  lemma FirstStays(m: Mem, m1: Mem, m': Mem, roots: set<int>, free': seq<int>, data: set<int>, data': set<int>,
                   root: int, d: Disk, n: Dinode, cs: seq<Piece>, p: int, prior: Page)
    requires cs != [] && root in roots && cs[0].va / 4096 < MAXPAGE && cs[0].va / 4096 !in PagesOf(cs[1..])
    requires p !in data && SameData(m, m1, data) && OneMapped(m, m1, roots, root, cs[0].va / 4096, LeafEntry(p, RW))
    requires Some(PageOf(m1, p)) == Fill(d, n, cs[0], prior)
    requires AllShown(m1, m', roots, free', data + {p}, data', root, d, n, cs[1..])
    ensures AllShown(m, m', roots, free', data, data', root, d, n, cs)
  {
    hide Ready, Lookup, Fill, PageOf;
    var a := cs[0].va / 4096;
    assert p in data + {p};
    SamePage(m1, m', p);
    assert Lookup(m', root, a) == Lookup(m1, root, a) == Some(LeafEntry(p, RW));
    forall k | 0 <= k < |cs| ensures Shows(m', root, d, n, cs[k], data' - data) {
      if k > 0 { assert Shows(m', root, d, n, cs[1..][k - 1], data' - (data + {p})); }
    }
    forall r, x | r in roots && 0 <= x < MAXPAGE && (r != root || x !in PagesOf(cs)) ensures Lookup(m', r, x) == Lookup(m, r, x) {
      assert Lookup(m', r, x) == Lookup(m1, r, x);
    }
  }

  /**
   * kexec loads a program into one memory: on distinct unmapped pages below MAXVA it runs out of memory exactly
   * when fewer pages are free than it has pages and missing tables; otherwise the program sees every piece at
   * its address, in pages that were free before, and no other translation and no data page has changed.
   */
  lemma {:induction false} ExecLoads(m: Mem, roots: set<int>, free: seq<int>, data: set<int>,
                                     root: int, d: Disk, n: Dinode, cs: seq<Piece>)
    returns (free': seq<int>, data': set<int>)
    requires Ready(m, roots, free, data) && root in roots && CanExec(m, root, d, n, cs)
    ensures var (m', res) := ExecLoop(m, root, d, n, cs); var need := ExecNeed(m, root, cs);
      && (res.Executed? <==> need <= |free|) && (res.Exhausted? <==> |free| < need)
      && (res.Executed? ==> free' == free[need..] && AllShown(m, m', roots, free', data, data', root, d, n, cs))
    decreases |cs|
  {
    hide Ready, Lookup, ExecStep, AllShown, Cost, GrownTo, ExecNeed, OneMapped, SameData, PageOf, Fill;
    free', data' := free, data;
    if cs == [] {
      NothingToExec(m, roots, free, data, root, d, n);
    } else {
      var p, m1 := m.head, ExecStep(m, root, d, n, cs[0]).0;
      var free1 := ExecOne(m, roots, free, data, root, d, n, cs[0]);
      NeedFirst(m, root, cs);
      if ExecStep(m, root, d, n, cs[0]).1.Executed? {
        CanExecRest(m, m1, roots, root, d, n, cs, LeafEntry(p, RW));
        NeedRest(m, m1, roots, root, cs);
        free', data' := ExecLoads(m1, roots, free1, data + {p}, root, d, n, cs[1..]);
        if ExecLoop(m, root, d, n, cs).1.Executed? {
          RestOfRest(free, 1 + Cost(m, root, cs[0].va / 4096), ExecNeed(m1, root, cs[1..]));
          FirstStays(m, m1, ExecLoop(m, root, d, n, cs).0, roots, free', data, data', root, d, n, cs, p, PageOf(m, p));
        }
      }
    }
  }

  // ---------------------------------------------------------------- what the program reads

  /** A segment from the start of a sector, whose blocks are in the file and fit the page. */
  ghost predicate SegmentFits(v: Vol, i: nat, c: Piece)
    requires i < |v.ino|
  {
    && c.Segment? && Filled(v, i) && c.off % 512 == 0 && c.off + c.filesz <= v.ino[i].size
    && (c.off + c.filesz) / 512 * 512 < v.ino[i].size && (c.off + c.filesz) / 512 - c.off / 512 < 8
  }

  /** An odd number of arguments that fit the page together, none with a length that is a multiple of 16. */
  ghost predicate ArgumentsFit(c: Piece)
  {
    c.Stack? && NoMultiple(c.args) && |c.args| % 2 == 1 && 0 <= KTop(c.args) && c.va + 4096 < 0x1_0000_0000_0000_0000
  }

  /** What fits can be filled into any page. */
  lemma FittingFills(v: Vol, i: nat, c: Piece, prior: Page)
    requires i < |v.ino| && (SegmentFits(v, i, c) || ArgumentsFit(c))
    ensures Fill(v.disk, v.ino[i], c, prior).Some?
  {
    hide LoadSegment, BuildStack, Filled, KTop, Content;
    if c.Segment? { SegmentPlace(v, i, c.off, c.filesz, prior); } else { StackDecodes(prior, c.args, c.va); }
  }

  /** The program reads byte p_offset + x of its file at p_vaddr + x. */
  ghost predicate ByteSeen(m: Mem, root: int, v: Vol, i: nat, c: Piece, x: nat)
    requires i < |v.ino| && c.Segment?
  { Filled(v, i) && c.off + x < |Content(v, i)| && UserByte(m, root, c.va + x) == Some(Content(v, i)[c.off + x]) }

  lemma SegmentSeen(m: Mem, root: int, v: Vol, i: nat, c: Piece, data: set<int>, x: nat)
    requires i < |v.ino| && SegmentFits(v, i, c) && c.va % 4096 == 0 && x < c.filesz
    requires Shows(m, root, v.disk, v.ino[i], c, data)
    ensures ByteSeen(m, root, v, i, c, x)
  {
    hide LoadSegment, Filled, Content, PageOf, Lookup;
    var frame := Lookup(m, root, c.va / 4096).value.frame;
    var prior :| Some(PageOf(m, frame)) == Fill(v.disk, v.ino[i], c, prior);
    SegmentPlace(v, i, c.off, c.filesz, prior);
    ByteOfUserPage(m, root, c.va / 4096, x);
  }

  /** The program finds every argument, and the null entry, in the page mapped at `va`. */
  ghost predicate ArgumentsSeen(m: Mem, root: int, va: nat, args: seq<seq<byte>>)
  {
    var page := UserPage(m, root, va / 4096);
    && page.Some?
    && (forall s :: 0 <= s < |args| ==> Decodes(page.value, args, va, s))
    && 0 <= UTop(args) && UTop(args) + 8 * (|args| + 1) <= 4096
    && U64At(page.value, UTop(args) + 8 * |args|) == 0
  }

  lemma StackSeen(m: Mem, root: int, d: Disk, n: Dinode, c: Piece, data: set<int>)
    requires ArgumentsFit(c) && Shows(m, root, d, n, c, data)
    ensures ArgumentsSeen(m, root, c.va, c.args)
  {
    hide BuildStack, Decodes, PageOf, Lookup, UTop, KTop, U64At;
    var frame := Lookup(m, root, c.va / 4096).value.frame;
    var prior :| Some(PageOf(m, frame)) == Fill(d, n, c, prior);
    StackDecodes(prior, c.args, c.va);
  }

  // ---------------------------------------------------------------- kexec

  function Vaddrs(segs: seq<Piece>): seq<nat> { seq(|segs|, k requires 0 <= k < |segs| => segs[k].va) }

  /** The segments in the order of their headers, then the stack at p->sz. */
  function Pieces(segs: seq<Piece>, args: seq<seq<byte>>): seq<Piece> { segs + [Stack(ExecSize(Vaddrs(segs)), args)] }

  /** Segments and stack go to distinct whole pages below the trap frame. */
  ghost predicate WellPlaced(cs: seq<Piece>)
  { DistinctPages(cs) && forall k :: 0 <= k < |cs| ==> cs[k].va % 4096 == 0 && cs[k].va / 4096 < TRAPFRAME }

  /**
   * What kexec needs for a sound program: its segments start at sector boundaries of their file and fit their
   * pages, its arguments have a sound stack layout, and its pages are distinct.
   */
  ghost predicate SoundProgram(v: Vol, i: nat, segs: seq<Piece>, args: seq<seq<byte>>)
  {
    && i < |v.ino| && (forall k :: 0 <= k < |segs| ==> SegmentFits(v, i, segs[k]))
    && ArgumentsFit(Stack(ExecSize(Vaddrs(segs)), args)) && WellPlaced(Pieces(segs, args))
  }

  ghost predicate ProgramSeen(m: Mem, root: int, v: Vol, i: nat, segs: seq<Piece>, args: seq<seq<byte>>)
  {
    && i < |v.ino|
    && (forall k :: 0 <= k < |segs| ==> segs[k].Segment?)
    && (forall k, x: nat :: 0 <= k < |segs| && x < segs[k].filesz ==> ByteSeen(m, root, v, i, segs[k], x))
    && ArgumentsSeen(m, root, ExecSize(Vaddrs(segs)), args)
  }

  lemma FreshCanExec(m: Mem, root: int, v: Vol, i: nat, segs: seq<Piece>, args: seq<seq<byte>>)
    requires SoundProgram(v, i, segs, args) && Unmapped(m, root, 0, TRAPFRAME)
    ensures CanExec(m, root, v.disk, v.ino[i], Pieces(segs, args))
  {
    hide Fill, Lookup, SegmentFits, ArgumentsFit, ExecSize, Vaddrs;
    var cs := Pieces(segs, args);
    forall k, prior | 0 <= k < |cs| ensures Fill(v.disk, v.ino[i], cs[k], prior).Some? { FittingFills(v, i, cs[k], prior); }
  }

  lemma ShownIsSeen(m: Mem, root: int, v: Vol, i: nat, segs: seq<Piece>, args: seq<seq<byte>>, own: set<int>)
    requires SoundProgram(v, i, segs, args) && var cs := Pieces(segs, args);
      forall k :: 0 <= k < |cs| ==> Shows(m, root, v.disk, v.ino[i], cs[k], own)
    ensures ProgramSeen(m, root, v, i, segs, args)
  {
    var cs := Pieces(segs, args);
    assert cs[|segs|] == Stack(ExecSize(Vaddrs(segs)), args);
    hide Lookup, Fill, ArgumentsSeen, ByteSeen, Shows, ExecSize, Vaddrs, Filled, ArgumentsFit;
    forall k | 0 <= k < |segs| ensures segs[k].Segment? { assert SegmentFits(v, i, segs[k]); }
    forall k, x: nat | 0 <= k < |segs| && x < segs[k].filesz ensures ByteSeen(m, root, v, i, segs[k], x) {
      assert cs[k] == segs[k];
      SegmentSeen(m, root, v, i, segs[k], own, x);
    }
    StackSeen(m, root, v.disk, v.ino[i], cs[|segs|], own);
  }

  /**
   * kexec in an address space with nothing mapped below the trap frame: with a sound program it ends exactly when
   * as many pages are free as it has pages and missing tables, and then the program reads its file and finds its
   * arguments through its tables.
   */
  lemma LoadsProgram(m: Mem, roots: set<int>, free: seq<int>, data: set<int>, root: int,
                     v: Vol, i: nat, segs: seq<Piece>, args: seq<seq<byte>>)
    requires Ready(m, roots, free, data) && root in roots && Unmapped(m, root, 0, TRAPFRAME)
    requires SoundProgram(v, i, segs, args)
    ensures var cs := Pieces(segs, args); var (m', res) := ExecLoop(m, root, v.disk, v.ino[i], cs);
      && (res.Executed? <==> ExecNeed(m, root, cs) <= |free|) && (res.Exhausted? <==> |free| < ExecNeed(m, root, cs))
      && (res.Executed? ==> ProgramSeen(m', root, v, i, segs, args) && OthersKept(m, m', roots, root, PagesOf(cs)))
  {
    FreshCanExec(m, root, v, i, segs, args);
    hide Ready, SoundProgram, Unmapped, ExecLoop, ExecNeed, Shows, ProgramSeen, Pieces, PagesOf, CanExec, OthersKept;
    var cs := Pieces(segs, args);
    var free', data' := ExecLoads(m, roots, free, data, root, v.disk, v.ino[i], cs);
    var (m', res) := ExecLoop(m, root, v.disk, v.ino[i], cs);
    if res.Executed? { ShownIsSeen(m', root, v, i, segs, args, data' - data); }
  }

  /** kexec in the new address space of proc_pagetable; every other address space stays as it was. */
  lemma KexecShowsProgram(m: Mem, roots: set<int>, free: seq<int>, data: set<int>, tramp: nat, perm: Perm,
                          v: Vol, i: nat, segs: seq<Piece>, args: seq<seq<byte>>)
    requires Ready(m, roots, free, data) && tramp + 2 <= FRAMES && forall p :: p in free ==> p < FRAMES
    requires SoundProgram(v, i, segs, args)
    ensures var r, cs := ProcPagetable(m, tramp, perm), Pieces(segs, args);
      && (r.Made? <==> 4 <= |free|)
      && (r.Made? ==>
            var (m', res) := ExecLoop(r.m, r.root, v.disk, v.ino[i], cs);
            && (res.Executed? <==> 4 + ExecNeed(r.m, r.root, cs) <= |free|)
            && (res.Exhausted? <==> |free| < 4 + ExecNeed(r.m, r.root, cs))
            && (res.Executed? ==> ProgramSeen(m', r.root, v, i, segs, args) && OthersKept(m, m', roots, r.root, {})))
  {
    hide Ready, Lookup, ProcPagetable, ExecLoop, ExecNeed, Pieces, PagesOf, ProgramSeen, Unmapped;
    ProcPagetableMakes(m, roots, free, data, tramp, perm);
    var r := ProcPagetable(m, tramp, perm);
    if r.Made? {
      hide SoundProgram;
      LoadsProgram(r.m, roots + {r.root}, free[4..], data + {r.tf}, r.root, v, i, segs, args);
    }
  }
}
