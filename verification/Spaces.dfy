/**
 * Address spaces from boot on: kinit on zeroed RAM, the table of a new process (proc_pagetable in
 * kernel/proc.c), and every run of uvmcreat, mappages, kalloc and the page loop of copyproc.
 */
module Spaces {
  import opened Options
  import opened Kalloc
  import opened PageTable
  import opened TableCost
  import opened Vm
  import opened Fork

  // ---------------------------------------------------------------- every operation keeps the invariant

  /** A page taken by kalloc is neither free nor a table. */
  lemma TakeReady(m: Mem, roots: set<int>, free: seq<int>, data: set<int>)
    requires Ready(m, roots, free, data) && free != []
    ensures m.head == free[0] && Ready(AfterKalloc(m), roots, free[1..], data + {m.head})
    ensures forall n: Node :: PathTo(AfterKalloc(m), n) == PathTo(m, n)
  {
    var m' := AfterKalloc(m);
    KallocPops(m, free);
    SamePaths(m, m');
    var p := free[0];
    assert free == [p] + free[1..] && p in free && p !in free[1..];
    hide FreeList, PathTo;
    forall q | q in free[1..] ensures Clean(m', q) && q !in data + {p} {
      assert q in free && q != p && Clean(m, q);
      CleanByRam(m, m', q);
    }
    ShapeByRam(m, m', roots);
    ApartTaken(m, m', roots, free, data, p);
  }

  lemma ShapeByRam(m: Mem, m': Mem, roots: set<int>)
    requires m'.ram == m.ram && Tree(m, roots) && LeafShape(m, roots) && forall n: Node :: PathTo(m', n) == PathTo(m, n)
    ensures Tree(m', roots) && LeafShape(m', roots)
  { hide PathTo; }

  lemma ApartTaken(m: Mem, m': Mem, roots: set<int>, free: seq<int>, data: set<int>, p: int)
    requires Apart(m, roots, free, data) && free != [] && p == free[0] && forall n: Node :: PathTo(m', n) == PathTo(m, n)
    ensures Apart(m', roots, free[1..], data + {p})
  {
    hide PathTo;
    assert p in free && forall q :: q in free[1..] ==> q in free;
  }

  /** Writing to a page that is neither free nor a table. */
  lemma FillReady(m: Mem, roots: set<int>, free: seq<int>, data: set<int>, p: int, i: int, v: Word)
    requires Ready(m, roots, free, data) && p in data
    ensures Ready(Store(m, p, i, v), roots, free, data) && SameTranslations(m, Store(m, p, i, v), roots)
  {
    var m' := Store(m, p, i, v);
    assert p !in free;
    OffTablePage(m, m', roots, p);
    FreeListFrame(m, m', free, p);
    forall n: Node, j: int | n.Low? && n.r in roots && PathTo(m', n).Some?
      ensures m'.ram(PathTo(m', n).value, j) == m.ram(PathTo(m, n).value, j)
    {
      assert PathTo(m, n).value != p;
    }
    hide FreeList, PathTo, Clean;
    assert Tree(m', roots) && Apart(m', roots, free, data);
  }

  lemma MapReady(m: Mem, roots: set<int>, free: seq<int>, data: set<int>, r: int, va: nat, pa: nat, size: nat, perm: Perm)
    returns (free': seq<int>)
    requires Ready(m, roots, free, data) && r in roots
    ensures Ready(MapPages(m, r, va, pa, size, perm).0, roots, free', data)
  {
    hide Ready, MapLoop;
    free' := free;
    if va % 4096 == 0 && size % 4096 == 0 && size != 0 {
      var stop;
      free', stop := MapLoopRefines(m, roots, free, data, r, va / 4096,
                                    (va + size - 4096) % 0x1_0000_0000_0000_0000 / 4096, pa / 4096, perm);
    }
  }

  /** The page that a round of copyproc takes for its copy. */
  function TakenAt(m: Mem, parent: int, i: int): set<int>
  {
    var w := Walk(m, parent, i, false).1;
    if w.Slot? && m.ram(w.table, w.index).lo & 3 != 0 && m.head != 0 then {m.head} else {}
  }

  function Taken(m: Mem, parent: int, child: int, i: int, limit: int): set<int>
    decreases limit - i
  {
    if i >= limit then {}
    else
      var (m1, res) := CopyStep(m, parent, child, i);
      TakenAt(m, parent, i) + if res.Forked? then Taken(m1, parent, child, i + 1, limit) else {}
  }

  /** A round of copyproc keeps the invariant however it ends. */
  lemma CopyStepReady(m: Mem, roots: set<int>, free: seq<int>, data: set<int>, parent: int, child: int, i: int)
    returns (free': seq<int>)
    requires Ready(m, roots, free, data) && child in roots && 0 <= i
    ensures Ready(CopyStep(m, parent, child, i).0, roots, free', data + TakenAt(m, parent, i))
  {
    var w := Walk(m, parent, i, false).1;
    free' := free;
    assert data + {} == data;
    if w.Slot? && m.ram(w.table, w.index).lo & 3 != 0 && m.head != 0 {
      hide Ready, Walk, MapStep, CopyPage, AfterKalloc;
      HeadNotNull(m, roots, free, data);
      var e, p := m.ram(w.table, w.index), m.head;
      TakeDataPage(m, roots, free, data, e.frame);
      var m2 := CopyPage(AfterKalloc(m), e.frame, p);
      free' := MapStepRefines(m2, roots, free[1..], data + {p}, child, i, p, Perm(0, e.lo & 0x3FF));
    }
  }

  lemma HeadNotNull(m: Mem, roots: set<int>, free: seq<int>, data: set<int>)
    requires Ready(m, roots, free, data) && m.head != 0
    ensures free != []
  {}

  lemma {:induction false} CopyReady(m: Mem, roots: set<int>, free: seq<int>, data: set<int>,
                                     parent: int, child: int, i: int, limit: int)
    returns (free': seq<int>)
    requires Ready(m, roots, free, data) && child in roots && 0 <= i
    ensures Ready(CopyLoop(m, parent, child, i, limit).0, roots, free', data + Taken(m, parent, child, i, limit))
    decreases limit - i
  {
    hide Ready, CopyStep, TakenAt;
    free' := free;
    if i < limit {
      free' := CopyStepReady(m, roots, free, data, parent, child, i);
      var (m1, res) := CopyStep(m, parent, child, i);
      var one := TakenAt(m, parent, i);
      if res.Forked? {
        free' := CopyReady(m1, roots, free', data + one, parent, child, i + 1, limit);
        assert data + one + Taken(m1, parent, child, i + 1, limit) == data + Taken(m, parent, child, i, limit);
      } else {
        assert data + Taken(m, parent, child, i, limit) == data + one;
      }
    } else {
      assert data + {} == data;
    }
  }

  // ---------------------------------------------------------------- giving pages back

  /** A page of the invariant, data or root, freed: the others keep their tables and translations. */
  lemma ReleaseReady(m: Mem, roots: set<int>, free: seq<int>, data: set<int>, p: int)
    requires Ready(m, roots, free, data) && p > 0 && (p in data || p in roots)
    requires forall i :: i != 0 ==> m.ram(p, i).lo & 3 == 0
    ensures Ready(AfterKfree(m, p), roots - {p}, [p] + free, data - {p})
    ensures forall r, x :: r in roots && r != p ==> Lookup(AfterKfree(m, p), r, x) == Lookup(m, r, x)
  {
    var m' := AfterKfree(m, p);
    NotFree(m, roots, free, data, p);
    KfreePushes(m, free, p);
    FreedPageClean(m, p);
    OnlyOwnRoot(m, roots, free, data, p);
    OffTablePage(m, m', roots - {p}, p);
    ShapeAfter(m, m', roots, free, data, p);
    hide FreeList, PathTo, AfterKfree;
    forall q | q in [p] + free ensures Clean(m', q) && q !in data - {p} {
      if q != p {
        assert q in free && Clean(m, q);
        CleanElsewhere(m, m', p, q);
      }
    }
  }

  lemma NotFree(m: Mem, roots: set<int>, free: seq<int>, data: set<int>, p: int)
    requires Ready(m, roots, free, data) && (p in data || p in roots)
    ensures p !in free
  {
    if p in roots { assert PathTo(m, Root(p)) == Some(p); }
  }

  /** No table position of the other spaces holds the page. */
  lemma OnlyOwnRoot(m: Mem, roots: set<int>, free: seq<int>, data: set<int>, p: int)
    requires Ready(m, roots, free, data) && (p in data || p in roots)
    ensures forall n: Node :: n.r in roots - {p} ==> PathTo(m, n) != Some(p)
  {
    if p in roots {
      assert PathTo(m, Root(p)) == Some(p);
      forall n: Node | n.r in roots - {p} ensures PathTo(m, n) != Some(p) { assert n != Root(p); }
    }
  }

  lemma CleanElsewhere(m: Mem, m': Mem, p: int, q: int)
    requires q != p && Clean(m, q) && forall r, i :: r != p ==> m'.ram(r, i) == m.ram(r, i)
    ensures Clean(m', q)
  {}

  lemma ShapeAfter(m: Mem, m': Mem, roots: set<int>, free: seq<int>, data: set<int>, p: int)
    requires Tree(m, roots) && LeafShape(m, roots) && Apart(m, roots, free, data)
    requires forall n: Node :: n.r in roots - {p} ==> PathTo(m', n) == PathTo(m, n) && PathTo(m, n) != Some(p)
    requires forall q, i :: q != p ==> m'.ram(q, i) == m.ram(q, i)
    ensures Tree(m', roots - {p}) && LeafShape(m', roots - {p}) && Apart(m', roots - {p}, [p] + free, data - {p})
  { hide PathTo; }

  /** What the free list must hold after a kfree, under any reading of the invariant. */
  lemma ReleasedIsClean(m: Mem, roots: set<int>, free: seq<int>, data: set<int>, p: int)
    requires p > 0 && Ready(AfterKfree(m, p), roots, free, data)
    ensures forall i :: i != 0 ==> m.ram(p, i).lo & 3 == 0
  {
    assert free != [] && free[0] == p && p in free;
    FreedPageClean(m, p);
  }

  // ---------------------------------------------------------------- runs

  /** Memory, the roots from uvmcreat, and the pages handed out as data. */
  datatype Space = Space(m: Mem, roots: set<int>, data: set<int>)

  ghost predicate SpaceReady(s: Space, free: seq<int>) { Ready(s.m, s.roots, free, s.data) }

  datatype Op =
    | Create
    | Take                          // kalloc of a data page
    | Fill(p: int, i: int, v: Word) // a write to a data page
    | Map(root: int, va: nat, pa: nat, size: nat, perm: Perm)
    | Copy(parent: int, child: int, limit: int)
    | Release(p: int)               // kfree of a data page or of a root

  function Step(s: Space, op: Op): Space
  {
    match op
    case Create => if s.m.head == 0 then s else Space(Uvmcreat(s.m).0, s.roots + {s.m.head}, s.data)
    case Take => if s.m.head == 0 then s else Space(AfterKalloc(s.m), s.roots, s.data + {s.m.head})
    case Fill(p, i, v) => if p in s.data then s.(m := Store(s.m, p, i, v)) else s
    case Map(root, va, pa, size, perm) => if root in s.roots then s.(m := MapPages(s.m, root, va, pa, size, perm).0) else s
    case Copy(parent, child, limit) =>
      if parent in s.roots && child in s.roots
      then Space(CopyLoop(s.m, parent, child, 0, limit).0, s.roots, s.data + Taken(s.m, parent, child, 0, limit))
      else s
    case Release(p) => if Held(s, p) then Space(AfterKfree(s.m, p), s.roots - {p}, s.data - {p}) else s
  }

  predicate Held(s: Space, p: int) { p > 0 && (p in s.data || p in s.roots) }

  /** A page given back reads as an empty table, but for the word that kfree writes. */
  ghost predicate CleanRelease(s: Space, op: Op)
  { op.Release? && Held(s, op.p) ==> forall i :: i != 0 ==> s.m.ram(op.p, i).lo & 3 == 0 }

  function Run(s: Space, ops: seq<Op>): Space
    decreases |ops|
  { if ops == [] then s else Run(Step(s, ops[0]), ops[1..]) }

  lemma StepReady(s: Space, free: seq<int>, op: Op) returns (free': seq<int>)
    requires SpaceReady(s, free) && CleanRelease(s, op)
    ensures SpaceReady(Step(s, op), free')
  {
    hide Ready, AfterKalloc, MapPages, CopyLoop, Taken, Store, AfterKfree;
    free' := free;
    match op
    case Create =>
      if s.m.head != 0 {
        HeadNotNull(s.m, s.roots, free, s.data);
        UvmcreatReady(s.m, s.roots, free, s.data);
        free' := free[1..];
      }
    case Take =>
      if s.m.head != 0 {
        HeadNotNull(s.m, s.roots, free, s.data);
        TakeReady(s.m, s.roots, free, s.data);
        free' := free[1..];
      }
    case Fill(p, i, v) => if p in s.data { FillReady(s.m, s.roots, free, s.data, p, i, v); }
    case Map(root, va, pa, size, perm) =>
      if root in s.roots { free' := MapReady(s.m, s.roots, free, s.data, root, va, pa, size, perm); }
    case Copy(parent, child, limit) =>
      if parent in s.roots && child in s.roots {
        free' := CopyReady(s.m, s.roots, free, s.data, parent, child, 0, limit);
      }
    case Release(p) =>
      if Held(s, p) {
        ReleaseReady(s.m, s.roots, free, s.data, p);
        free' := [p] + free;
      }
  }

  ghost predicate Sane(s: Space) { exists free :: SpaceReady(s, free) }

  /** The invariant survives a call exactly when the call does not free a page that is not clean. */
  lemma StepReadyExactly(s: Space, free: seq<int>, op: Op)
    requires SpaceReady(s, free)
    ensures Sane(Step(s, op)) <==> CleanRelease(s, op)
  {
    hide Ready;
    if CleanRelease(s, op) {
      var free' := StepReady(s, free, op);
    } else if Sane(Step(s, op)) {
      var free' :| SpaceReady(Step(s, op), free');
      ReleasedIsClean(s.m, s.roots - {op.p}, free', s.data - {op.p}, op.p);
    }
  }

  /** The invariant holds in every state of the run. */
  ghost predicate AllSane(s: Space, ops: seq<Op>)
    decreases |ops|
  { Sane(s) && (ops == [] || AllSane(Step(s, ops[0]), ops[1..])) }

  ghost predicate CleanReleases(s: Space, ops: seq<Op>)
    decreases |ops|
  { ops == [] || (CleanRelease(s, ops[0]) && CleanReleases(Step(s, ops[0]), ops[1..])) }

  lemma SaneNow(s: Space, ops: seq<Op>)
    ensures AllSane(s, ops) ==> Sane(s)
  {}

  lemma {:induction false} RunReadyExactly(s: Space, free: seq<int>, ops: seq<Op>)
    requires SpaceReady(s, free)
    ensures AllSane(s, ops) <==> CleanReleases(s, ops)
    decreases |ops|
  {
    hide SpaceReady, Step, CleanRelease;
    assert Sane(s);
    if ops != [] {
      StepReadyExactly(s, free, ops[0]);
      if CleanRelease(s, ops[0]) {
        var free1 := StepReady(s, free, ops[0]);
        RunReadyExactly(Step(s, ops[0]), free1, ops[1..]);
      } else {
        SaneNow(Step(s, ops[0]), ops[1..]);
      }
    }
  }

  /** The kernel after kinit: every page of `[lo, hi)` free, no address space. */
  function Booted(m: Mem, lo: int, hi: int): Space { Space(AfterFreerange(m, lo, hi), {}, {}) }

  /**
   * From zeroed RAM, through kinit and any sequence of uvmcreat, mappages, kalloc, kfree of data pages and
   * roots, writes to data pages and fork: the tables of all address spaces form a forest in which no page is
   * shared, and table pages, data pages and the clean pages of the free list are disjoint, in every state,
   * exactly when every page freed is clean.
   */
  lemma RunsFromBootAreReady(m: Mem, lo: int, hi: int, ops: seq<Op>)
    requires m.head == 0 && 0 < lo && forall p, i :: m.ram(p, i) == Word(0, 0, 0)
    ensures AllSane(Booted(m, lo, hi), ops) <==> CleanReleases(Booted(m, lo, hi), ops)
  {
    hide Ready;
    KinitReady(m, lo, hi);
    RunReadyExactly(Booted(m, lo, hi), Down(lo, hi), ops);
  }

  // ---------------------------------------------------------------- the table of a new process

  /** Frames of physical memory below 2^48. */
  const FRAMES: nat := 0x10_0000_0000

  /** TRAMPOLINE and TRAPFRAME as page numbers. */
  const TRAMPOLINE: nat := 0x3FF_FFFE
  const TRAPFRAME: nat := 0x3FF_FFFD

  datatype Made = Made(m: Mem, root: int, tf: int) | OutOfPages | Remapped

  /**
   * proc_pagetable; `tramp` is the page number of the trampoline code. OutOfPages stands for its unchecked
   * nulls, Remapped for the panic of mappages on a page that is mapped already.
   */
  function ProcPagetable(m: Mem, tramp: nat, perm: Perm): Made
  {
    var (m1, root) := Uvmcreat(m);
    var (m2, r2) := MapPages(m1, root, TRAMPOLINE * 4096, tramp * 4096, 8192, perm);
    var tf, m3 := m2.head, AfterKalloc(m2);
    if root == 0 then OutOfPages
    else if r2.PanicRemap? then Remapped
    else if !r2.Mapped? || tf <= 0 then OutOfPages
    else
      var (m4, r4) := MapPages(m3, root, TRAPFRAME * 4096, tf * 4096, 4096, perm);
      if r4.Mapped? then Made(m4, root, tf) else if r4.PanicRemap? then Remapped else OutOfPages
  }

  lemma TopPages()
    ensures PX2(TRAMPOLINE) == PX2(TRAMPOLINE + 1) == PX2(TRAPFRAME) && PX1(TRAMPOLINE) == PX1(TRAMPOLINE + 1) == PX1(TRAPFRAME)
    ensures Pages(TRAMPOLINE, TRAMPOLINE + 2) == {TRAMPOLINE, TRAMPOLINE + 1} && Pages(TRAPFRAME, TRAPFRAME + 1) == {TRAPFRAME}
    ensures TRAMPOLINE * 4096 / 4096 == TRAMPOLINE && (TRAMPOLINE * 4096 + 8192) / 4096 == TRAMPOLINE + 2
    ensures TRAPFRAME * 4096 / 4096 == TRAPFRAME && (TRAPFRAME * 4096 + 4096) / 4096 == TRAPFRAME + 1
  {}

  /** A new root needs two tables for the trampoline. */
  lemma TrampolineNeed(m: Mem, root: int)
    requires forall n: Node :: n.r == root && !n.Root? ==> PathTo(m, n).None?
    ensures RangeNeed(m, root, TRAMPOLINE * 4096, 8192) == 2
  {
    TopPages();
    hide PX2, PX1, PathTo, Pages;
    NeedOfPair(m, root, TRAMPOLINE, TRAMPOLINE + 1);
  }

  /** Beside a mapped page of the same level-0 table nothing is missing. */
  lemma TrapframeNeed(m: Mem, root: int)
    requires Lookup(m, root, TRAMPOLINE).Some?
    ensures RangeNeed(m, root, TRAPFRAME * 4096, 4096) == 0
  {
    TopPages();
    hide PX2, PX1, Pages;
    NeedOfOne(m, root, TRAPFRAME);
  }

  /**
   * proc_pagetable takes exactly four pages - the root, two tables and the trap frame - and succeeds exactly
   * when as many are free. The new address space maps the trampoline and the trap frame and nothing below
   * them, as copyproc and kexec need, and every other translation is as before.
   */
  lemma ProcPagetableMakes(m: Mem, roots: set<int>, free: seq<int>, data: set<int>, tramp: nat, perm: Perm)
    requires Ready(m, roots, free, data) && tramp + 2 <= FRAMES && forall p :: p in free ==> p < FRAMES
    ensures var r := ProcPagetable(m, tramp, perm);
      && (r.Made? <==> 4 <= |free|) && (r.OutOfPages? <==> |free| < 4)
      && (r.Made? ==>
            && r.root == free[0] && r.root !in roots && r.tf == free[3]
            && Ready(r.m, roots + {r.root}, free[4..], data + {r.tf})
            && Unmapped(r.m, r.root, 0, TRAPFRAME)
            && Lookup(r.m, r.root, TRAPFRAME) == Some(LeafEntry(r.tf, perm))
            && (forall x :: TRAMPOLINE <= x < MAXPAGE ==> Lookup(r.m, r.root, x) == Some(LeafEntry(tramp + (x - TRAMPOLINE), perm)))
            && (forall s, x :: s in roots && 0 <= x < MAXPAGE ==> Lookup(r.m, s, x) == Lookup(m, s, x)))
  {
    hide Ready, Lookup, MapPages, AfterKalloc, RangeNeed, PathTo;
    HeadOf(m, roots, free, data);
    if free != [] {
      UvmcreatReady(m, roots, free, data);
      var (m1, root) := Uvmcreat(m);
      SameLookups(m, m1, roots);
      var rs1, free1 := roots + {root}, free[1..];
      TrampolineNeed(m1, root);
      assert RangeUnmapped(m1, root, TRAMPOLINE * 4096, 8192);
      MapPagesSucceeds(m1, rs1, free1, data, root, TRAMPOLINE * 4096, tramp * 4096, 8192, perm);
      var (m2, r2) := MapPages(m1, root, TRAMPOLINE * 4096, tramp * 4096, 8192, perm);
      if r2.Mapped? {
        MapPagesRefines(m1, rs1, free1, data, root, TRAMPOLINE * 4096, tramp * 4096, 8192, perm);
        TopPages();
        assert Lookup(m2, root, TRAPFRAME) == Lookup(m1, root, TRAPFRAME);
        assert free1[2..] == free[3..] && (3 < |free| ==> free[3..][1..] == free[4..]);
        assert 3 < |free| ==> free[3] in free;
        TrapframeStep(m2, rs1, root, free[3..], data, perm);
      }
    }
  }

  lemma HeadOf(m: Mem, roots: set<int>, free: seq<int>, data: set<int>)
    requires Ready(m, roots, free, data)
    ensures m.head == (if free == [] then 0 else free[0]) && (free != [] ==> 0 < free[0])
  {}

  /** The trap frame page and its mapping, after the trampoline. */
  lemma TrapframeStep(m2: Mem, roots: set<int>, root: int, free: seq<int>, data: set<int>, perm: Perm)
    requires Ready(m2, roots, free, data) && root in roots
    requires Lookup(m2, root, TRAMPOLINE).Some? && Lookup(m2, root, TRAPFRAME).None? && (free != [] ==> free[0] < FRAMES)
    ensures (m2.head > 0 <==> free != []) && (free == [] ==> m2.head == 0)
    ensures free != [] ==>
      var tf := free[0];
      var (m4, r4) := MapPages(AfterKalloc(m2), root, TRAPFRAME * 4096, tf * 4096, 4096, perm);
      && m2.head == tf && tf > 0 && r4.Mapped? && Ready(m4, roots, free[1..], data + {tf})
      && forall s, x :: s in roots && 0 <= x < MAXPAGE ==>
           Lookup(m4, s, x) == if s == root && x == TRAPFRAME then Some(LeafEntry(tf, perm)) else Lookup(m2, s, x)
  {
    hide Ready, Lookup, MapPages, AfterKalloc, RangeNeed, PathTo;
    HeadOf(m2, roots, free, data);
    if free != [] {
      var tf, m3 := free[0], AfterKalloc(m2);
      TakeReady(m2, roots, free, data);
      SameLookupsByRam(m2, m3);
      TrapframeNeed(m3, root);
      TopPages();
      assert FreshRange(m3, root, TRAPFRAME * 4096, 4096);
      MapPagesSucceeds(m3, roots, free[1..], data + {tf}, root, TRAPFRAME * 4096, tf * 4096, 4096, perm);
      MapPagesRefines(m3, roots, free[1..], data + {tf}, root, TRAPFRAME * 4096, tf * 4096, 4096, perm);
    }
  }

  lemma SameLookupsByRam(m: Mem, m': Mem)
    requires m' == AfterKalloc(m)
    ensures forall r, x :: Lookup(m', r, x) == Lookup(m, r, x)
  {}

  /**
   * allocproc and the page loop of copyproc together: the child of proc_pagetable meets what the copy needs,
   * so fork of the pages below `hi` succeeds exactly when four pages and those the copy needs are free.
   */
  lemma ForkOfFreshSpace(m: Mem, roots: set<int>, free: seq<int>, data: set<int>, parent: int, hi: int, tramp: nat, perm: Perm)
    returns (free': seq<int>, data': set<int>)
    requires Ready(m, roots, free, data) && parent in roots && 0 <= hi <= TRAPFRAME && ParentFramesIn(m, parent, 0, hi, data)
    requires tramp + 2 <= FRAMES && forall p :: p in free ==> p < FRAMES
    ensures var r := ProcPagetable(m, tramp, perm);
      && (r.Made? <==> 4 <= |free|)
      && (r.Made? ==>
            var (m', res) := CopyLoop(r.m, parent, r.root, 0, hi);
            && r.root !in roots && (res.Forked? || res.OutOfMemory?)
            && (res.Forked? <==> 4 + ForkNeed(r.m, parent, r.root, 0, hi) <= |free|)
            && (res.Forked? ==> Copied(r.m, m', roots + {r.root}, free', data + {r.tf}, data', parent, r.root, 0, hi)))
  {
    hide Ready, Lookup, ProcPagetable, CopyLoop, Copied, ForkNeed;
    free', data' := free, data;
    ProcPagetableMakes(m, roots, free, data, tramp, perm);
    var r := ProcPagetable(m, tramp, perm);
    if r.Made? {
      forall x | 0 <= x < hi && Lookup(r.m, parent, x).Some? ensures Lookup(r.m, parent, x).value.frame in data + {r.tf} {
        assert Lookup(r.m, parent, x) == Lookup(m, parent, x);
      }
      free', data' := ForkCopies(r.m, roots + {r.root}, free[4..], data + {r.tf}, parent, r.root, 0, hi);
    }
  }

  /**
   * The free page that walkaddr gives away is reachable: boot with four pages or more, make an address space,
   * map its page 1, and ask for its page 0, which is not mapped.
   */
  lemma LeakAfterBoot(m: Mem, lo: int, hi: int, p: int, perm: Perm)
    requires m.head == 0 && 0 < lo && lo + 4 <= hi && forall q, i :: m.ram(q, i) == Word(0, 0, 0)
    ensures var (m1, root) := Uvmcreat(AfterFreerange(m, lo, hi));
      var (m2, res) := MapStep(m1, root, 1, p, perm);
      && res.Mapped? && Lookup(m2, root, 0).None? && WalkAddr(m2, root, 0) == Some(hi - 4) && m2.head == hi - 4
  {
    hide Ready, MapStep, Lookup, PathTo, AfterFreerange;
    var free := Down(lo, hi);
    KinitReady(m, lo, hi);
    var m0 := AfterFreerange(m, lo, hi);
    UvmcreatReady(m0, {}, free, {});
    var (m1, root) := Uvmcreat(m0);
    assert Cost(m1, root, 1) == 2;
    WalkAddrLeaksFreePage(m1, {} + {root}, free[1..], {}, root, 1, p, perm);
  }

  // ---------------------------------------------------------------- what proc_wait gives back

  /** proc_wait on a zombie child: kfree(p->tf); kfree(p->pagetable). */
  function Collected(m: Mem, tf: int, root: int): Mem { AfterKfree(AfterKfree(m, tf), root) }

  /** The root of a collected child still holds its table descriptors, and its tables their page descriptors. */
  lemma RootKeepsTables(m: Mem, roots: set<int>, free: seq<int>, data: set<int>, tf: int, root: int)
    requires Ready(m, roots, free, data) && root in roots && tf in data && Lookup(m, root, TRAMPOLINE).Some?
    ensures Lookup(Collected(m, tf, root), root, TRAMPOLINE).Some?
  {
    assert PathTo(m, Root(root)) == Some(root) && tf != root;
    var mid, low := Mid(root, PX2(TRAMPOLINE)), Low(root, PX2(TRAMPOLINE), PX1(TRAMPOLINE));
    assert PathTo(m, mid).Some? && PathTo(m, low).Some?;
    assert PX2(TRAMPOLINE) != 0 && PX1(TRAMPOLINE) != 0 && PX0(TRAMPOLINE) != 0;
  }

  /** mappages on a page that the space already translates panics at once. */
  lemma MappedPanics(m: Mem, root: int, pa: nat, perm: Perm)
    requires Lookup(m, root, TRAMPOLINE).Some?
    ensures MapPages(m, root, TRAMPOLINE * 4096, pa, 8192, perm).1.PanicRemap?
  {
    var low := Low(root, PX2(TRAMPOLINE), PX1(TRAMPOLINE));
    assert PathTo(m, low).Some? && PathTo(m, Mid(root, PX2(TRAMPOLINE))).Some?;
    assert TRAMPOLINE * 4096 / 4096 == TRAMPOLINE;
    assert MapStep(m, root, TRAMPOLINE, pa / 4096, perm).1.PanicRemap?;
  }

  /**
   * Freed pages are reused as they are: when the next page taken after a zombie was collected is for the root
   * of a new process, proc_pagetable panics.
   */
  lemma CollectedRootPanics(m: Mem, roots: set<int>, free: seq<int>, data: set<int>, tf: int, root: int, tramp: nat, perm: Perm)
    requires Ready(m, roots, free, data) && root in roots && tf in data && root > 0 && tf > 0
    requires Lookup(m, root, TRAMPOLINE).Some?
    ensures ProcPagetable(Collected(m, tf, root), tramp, perm).Remapped?
  {
    var m2 := Collected(m, tf, root);
    RootKeepsTables(m, roots, free, data, tf, root);
    assert Uvmcreat(m2).1 == root && Uvmcreat(m2).0.ram == m2.ram;
    assert Lookup(Uvmcreat(m2).0, root, TRAMPOLINE) == Lookup(m2, root, TRAMPOLINE);
    MappedPanics(Uvmcreat(m2).0, root, tramp * 4096, perm);
  }

  /** It is reached from boot: a process made, collected, and the next one made. */
  lemma BootCollectPanics(m: Mem, lo: int, hi: int, tramp: nat, perm: Perm)
    requires m.head == 0 && 0 < lo && lo + 4 <= hi <= FRAMES && tramp + 2 <= FRAMES && forall q, i :: m.ram(q, i) == Word(0, 0, 0)
    ensures var r := ProcPagetable(AfterFreerange(m, lo, hi), tramp, perm);
      r.Made? && ProcPagetable(Collected(r.m, r.tf, r.root), tramp, perm).Remapped?
  {
    hide Ready, ProcPagetable, AfterFreerange, Lookup, Collected;
    var free := Down(lo, hi);
    KinitReady(m, lo, hi);
    var m0 := AfterFreerange(m, lo, hi);
    ProcPagetableMakes(m0, {}, free, {}, tramp, perm);
    var r := ProcPagetable(m0, tramp, perm);
    CollectedRootPanics(r.m, {} + {r.root}, free[4..], {} + {r.tf}, r.tf, r.root, tramp, perm);
  }
}
