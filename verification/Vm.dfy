/**
 * kernel/vm.c: walk, mappages, walkaddr and uvmcreat as code on the physical memory of kalloc.c,
 * and what a caller of mappages can rely on.
 */
module Vm {
  import opened Options
  import opened Kalloc
  import opened PageTable
  import opened TableCost

  /** PX(level, va) on a page number. */
  function PX(level: int, v: int): int
  { if level == 2 then PX2(v) else if level == 1 then PX1(v) else PX0(v) }

  method WalkPte(k: Kmem, root: int, va: nat, alloc: bool) returns (w: WalkResult)
    modifies k
    ensures (k.m, w) == Walk(old(k.m), root, va / 4096, alloc)
  {
    if va >= 0x40_0000_0000 { return WalkPanic; }
    ghost var v := va / 4096;
    var table, level := root, 2;
    while level > 0
      invariant 0 <= level <= 2
      invariant level == 2 ==> k.m == old(k.m) && table == root
      invariant level <= 1 ==> Descend(old(k.m), root, PX2(v), alloc).1.Some?
      invariant level == 1 ==> (k.m, Some(table)) == Descend(old(k.m), root, PX2(v), alloc)
      invariant level == 0 ==> var (m1, t1) := Descend(old(k.m), root, PX2(v), alloc);
                               (k.m, Some(table)) == Descend(m1, t1.value, PX1(v), alloc)
    {
      var i := PX(level, va / 4096);
      var e := k.m.ram(table, i);
      if e.lo & 1 != 0 && e.lo & 2 != 0 {
        table := e.frame;
      } else {
        if !alloc { return NoSlot; }
        var p := k.Kalloc();
        if p == 0 { return NoSlot; }
        k.m := Store(k.m, table, i, TableEntry(p));
        table := p;
      }
      level := level - 1;
    }
    w := Slot(table, PX(0, va / 4096));
  }

  /** The body of the loop of mappages, on byte addresses. */
  method MapPage(k: Kmem, root: int, a: nat, p: int, perm: Perm) returns (res: MapResult)
    modifies k
    ensures (k.m, res) == MapStep(old(k.m), root, a / 4096, p / 4096, perm)
  {
    hide Walk;
    var w := WalkPte(k, root, a, true);
    match w
    case WalkPanic => res := PanicWalk;
    case NoSlot => res := NoMemory;
    case Slot(t, i) =>
      if k.m.ram(t, i).lo & 3 != 0 { return PanicRemap; }
      k.m := Store(k.m, t, i, LeafEntry(p / 4096, perm));
      res := Mapped;
  }

  lemma MapStepInRange(m: Mem, r: int, a: int, p: int, perm: Perm)
    ensures MapStep(m, r, a, p, perm).1.Mapped? ==> a < MAXPAGE
  {}

  method Mappages(k: Kmem, root: int, va: nat, pa: nat, size: nat, perm: Perm) returns (res: MapResult)
    requires pa + size <= 0x1_0000_0000_0000
    modifies k
    ensures (k.m, res) == MapPages(old(k.m), root, va, pa, size, perm)
  {
    hide MapStep;
    if va % 4096 != 0 || size % 4096 != 0 || size == 0 { return PanicArgs; }
    var last := (va + size - 4096) % 0x1_0000_0000_0000_0000;
    var a, p := va, pa;
    while true
      invariant a % 4096 == 0 && va <= a && a - va == p - pa
      invariant MapLoop(k.m, root, a / 4096, last / 4096, p / 4096, perm)
             == MapLoop(old(k.m), root, va / 4096, last / 4096, pa / 4096, perm)
      decreases 0x40_0000_0000 - a
    {
      MapStepInRange(k.m, root, a / 4096, p / 4096, perm);
      res := MapPage(k, root, a, p, perm);
      if !res.Mapped? || a == last { return; }
      a, p := a + 4096, p + 4096;
    }
  }

  /** walkaddr; None is the dereference of the null slot that walk returned, or its panic. */
  function WalkAddr(m: Mem, root: int, v: int): Option<int>
  {
    match Walk(m, root, v, false).1
    case Slot(t, i) => Some(m.ram(t, i).frame)
    case _ => None
  }

  method Walkaddr(k: Kmem, root: int, va: nat) returns (p: Option<int>)
    modifies k
    ensures k.m == old(k.m) && p == WalkAddr(k.m, root, va / 4096)
  {
    var w := WalkPte(k, root, va, false);
    match w
    case Slot(t, i) => p := Some(k.m.ram(t, i).frame);
    case _ => p := None;
  }

  /** Where the hardware translates a page, walkaddr returns its frame. */
  lemma WalkAddrOfMapped(m: Mem, root: int, v: int)
    requires 0 <= v < MAXPAGE && Lookup(m, root, v).Some?
    ensures WalkAddr(m, root, v) == Some(Lookup(m, root, v).value.frame)
  {
    WalkFinds(m, root, v);
  }

  ghost predicate RangeUnmapped(m: Mem, r: int, va: nat, size: nat)
  { forall x :: va / 4096 <= x < (va + size) / 4096 ==> Lookup(m, r, x).None? }

  /** Whole pages below MAXVA, at least one, none of them mapped. */
  ghost predicate FreshRange(m: Mem, r: int, va: nat, size: nat)
  { va % 4096 == 0 && size % 4096 == 0 && 0 < size && va + size <= 0x40_0000_0000 && RangeUnmapped(m, r, va, size) }

  /** Tables that have to be allocated to map the range. */
  function RangeNeed(m: Mem, r: int, va: nat, size: nat): nat { Need(m, r, Pages(va / 4096, (va + size) / 4096)) }

  /**
   * mappages succeeds exactly on a range of whole unmapped pages below MAXVA for which as many pages are
   * free as tables are missing; on such a range it returns -1 exactly when fewer are free. Each missing
   * table takes one free page, in the order of the list.
   */
  lemma MapPagesSucceeds(m: Mem, roots: set<int>, free: seq<int>, data: set<int>,
                         r: int, va: nat, pa: nat, size: nat, perm: Perm)
    requires Ready(m, roots, free, data) && r in roots
    requires va < 0x1_0000_0000_0000_0000 && size < 0x1_0000_0000_0000_0000 && pa + size <= 0x1_0000_0000_0000
    ensures var (m', res) := MapPages(m, r, va, pa, size, perm); var need := RangeNeed(m, r, va, size);
      && (res.Mapped? <==> FreshRange(m, r, va, size) && need <= |free|)
      && (FreshRange(m, r, va, size) ==> (res.NoMemory? <==> |free| < need))
      && (res.Mapped? ==> Ready(m', roots, free[need..], data))
  {
    hide Ready, RangeMapped, MapLoop, SameData, Lookup, Need, Pages;
    if va % 4096 == 0 && size % 4096 == 0 && 0 < size {
      var a, last := va / 4096, (va + size - 4096) % 0x1_0000_0000_0000_0000 / 4096;
      LastPage(va, size);
      var free', stop := MapLoopRefines(m, roots, free, data, r, a, last, pa / 4096, perm);
      if FreshRange(m, r, va, size) {
        var free1 := MapLoopCost(m, roots, free, data, r, a, last, pa / 4096, perm);
      }
    }
  }

  /** The last page of the loop of mappages; a range that wraps around ends before it begins. */
  lemma LastPage(va: nat, size: nat)
    requires va % 4096 == 0 && size % 4096 == 0 && 0 < size
    requires va < 0x1_0000_0000_0000_0000 && size < 0x1_0000_0000_0000_0000
    ensures var last := (va + size - 4096) % 0x1_0000_0000_0000_0000 / 4096;
      if va + size - 4096 < 0x1_0000_0000_0000_0000
      then va / 4096 <= last && last + 1 == (va + size) / 4096 && (last < MAXPAGE <==> va + size <= 0x40_0000_0000)
      else last < va / 4096
  {
    if 0x1_0000_0000_0000_0000 <= va + size - 4096 {
      var wrapped := va + size - 4096 - 0x1_0000_0000_0000_0000;
      assert wrapped < va && (va + size - 4096) % 0x1_0000_0000_0000_0000 == wrapped;
    }
  }

  /**
   * When mappages returns 0, page x of the range translates to the frame at the same distance from
   * pa, walkaddr returns that frame, every other page of every address space translates as before,
   * and the table pages still form a forest in which no page is shared.
   */
  lemma MapPagesRefines(m: Mem, roots: set<int>, free: seq<int>, data: set<int>,
                        r: int, va: nat, pa: nat, size: nat, perm: Perm)
    requires Ready(m, roots, free, data) && r in roots
    requires va < 0x1_0000_0000_0000_0000 && size < 0x1_0000_0000_0000_0000 && pa + size <= 0x1_0000_0000_0000
    requires MapPages(m, r, va, pa, size, perm).1.Mapped?
    ensures var m' := MapPages(m, r, va, pa, size, perm).0;
      && (forall x :: va / 4096 <= x < (va + size) / 4096 ==>
            && Lookup(m', r, x) == Some(LeafEntry(pa / 4096 + (x - va / 4096), perm))
            && WalkAddr(m', r, x) == Some(pa / 4096 + (x - va / 4096)))
      && (forall r', x | r' in roots && 0 <= x < MAXPAGE && (r' != r || x < va / 4096 || (va + size) / 4096 <= x) ::
            Lookup(m', r', x) == Lookup(m, r', x))
      && Tree(m', roots)
  {
    hide Tree, FreeList, LeafShape, Apart, MapLoop, SameData, Lookup, WalkAddr;
    var (m', res) := MapPages(m, r, va, pa, size, perm);
    var last := (va + size - 4096) % 0x1_0000_0000_0000_0000 / 4096;
    var free', stop := MapLoopRefines(m, roots, free, data, r, va / 4096, last, pa / 4096, perm);
    forall x | va / 4096 <= x < (va + size) / 4096
      ensures Lookup(m', r, x) == Some(LeafEntry(pa / 4096 + (x - va / 4096), perm))
      ensures WalkAddr(m', r, x) == Some(pa / 4096 + (x - va / 4096))
    {
      WalkAddrOfMapped(m', r, x);
    }
  }

  /** walkaddr gives the frame that the hardware walk finds, and nothing where it finds none. */
  ghost predicate WalkAddrRight(m: Mem, r: int, v: int)
  { WalkAddr(m, r, v) == if Lookup(m, r, v).Some? then Some(Lookup(m, r, v).value.frame) else None }

  /**
   * walkaddr does not look at the valid bits: it returns something exactly when the level-0 table of the
   * page is there, and is right exactly when the page is mapped or that table is missing.
   */
  lemma WalkAddrOfUnmapped(m: Mem, r: int, v: int)
    requires 0 <= v < MAXPAGE
    ensures WalkAddr(m, r, v).Some? <==> PathTo(m, Low(r, PX2(v), PX1(v))).Some?
    ensures WalkAddrRight(m, r, v) <==> Lookup(m, r, v).Some? || PathTo(m, Low(r, PX2(v), PX1(v))).None?
  {
    WalkFinds(m, r, v);
  }

  /** A new level-0 table is the last page taken, and its word 0 is still the link of the free list. */
  lemma NewTableKeepsLink(m: Mem, roots: set<int>, free: seq<int>, data: set<int>, r: int, v: int)
    requires Ready(m, roots, free, data) && r in roots && 0 <= v < MAXPAGE
    requires 0 < Cost(m, r, v) <= |free|
    ensures var (m1, w) := Walk(m, r, v, true); var k := Cost(m, r, v) - 1;
      w == Slot(free[k], PX0(v)) && m1.ram(free[k], 0) == Ptr(NextFree(free, k))
  {
    var m1, t1 := Descend(m, r, PX2(v), true).0, Descend(m, r, PX2(v), true).1;
    assert PathTo(m, Root(r)) == Some(r) && PathTo(m, Mid(r, PX2(v))) == Follow(m.ram(r, PX2(v)));
    assert m.ram(free[0], 0) == Ptr(NextFree(free, 0));
    if Cost(m, r, v) == 2 {
      assert m.ram(free[1], 0) == Ptr(NextFree(free, 1));
      assert free[0] in free && Clean(m, free[0]);
      assert m.ram(free[0], PX1(v)).lo & 3 == 0;
    }
  }


  lemma FirstOfTable(v: int)
    requires 0 <= v < MAXPAGE
    ensures var u := v - v % 512; 0 <= u <= v && PX2(u) == PX2(v) && PX1(u) == PX1(v) && PX0(u) == 0
  {
    assert (v - v % 512) / 512 == v / 512;
    assert (v - v % 512) / 512 / 512 == (v - v % 512) / 0x4_0000 && v / 512 / 512 == v / 0x4_0000;
  }

  /** The round of mappages at a page whose level-0 table is missing: where the new table is and what it holds. */
  lemma NewTableAfterStep(m: Mem, roots: set<int>, free: seq<int>, data: set<int>, r: int, v: int, p: int, perm: Perm)
    requires Ready(m, roots, free, data) && r in roots && 0 <= v < MAXPAGE && v % 512 != 0
    requires 0 < Cost(m, r, v) <= |free| && MapStep(m, r, v, p, perm).1.Mapped?
    ensures var m' := MapStep(m, r, v, p, perm).0; var k := Cost(m, r, v) - 1;
      PathTo(m', Low(r, PX2(v), PX1(v))) == Some(free[k]) && m'.ram(free[k], 0) == Ptr(NextFree(free, k))
  {
    NewTableKeepsLink(m, roots, free, data, r, v);
    var m1, t := Walk(m, r, v, true).0, free[Cost(m, r, v) - 1];
    var free1 := WalkReady(m, roots, free, data, r, v);
    hide Ready, Walk, PathTo, Cost;
    LeafIsTable(p, perm);
    LeafReady(m1, roots, free1, data, Low(r, PX2(v), PX1(v)), t, PX0(v), LeafEntry(p, perm));
    assert MapStep(m, r, v, p, perm).0 == Store(m1, t, PX0(v), LeafEntry(p, perm));
  }

  /**
   * Such a page arises whenever mappages needs a new level-0 table for a page that is not the first of that
   * table: the first one is not mapped, and walkaddr returns for it the page that is now first on the free
   * list.
   */
  lemma WalkAddrLeaksFreePage(m: Mem, roots: set<int>, free: seq<int>, data: set<int>, r: int, v: int, p: int, perm: Perm)
    requires Ready(m, roots, free, data) && r in roots && 0 <= v < MAXPAGE && v % 512 != 0
    requires 0 < Cost(m, r, v) < |free|
    ensures var (m', res) := MapStep(m, r, v, p, perm); var u := v - v % 512; var next := free[Cost(m, r, v)];
      res.Mapped? && Lookup(m', r, u).None? && WalkAddr(m', r, u) == Some(next) && m'.head == next
  {
    var u := v - v % 512;
    FirstOfTable(v);
    assert Lookup(m, r, v).None? && Lookup(m, r, u).None?;
    var free' := MapStepRefines(m, roots, free, data, r, v, p, perm);
    var m' := MapStep(m, r, v, p, perm).0;
    NewTableAfterStep(m, roots, free, data, r, v, p, perm);
    HeadIsFirst(m', roots, free', data);
    hide Ready, MapStep, Lookup, PathTo, Cost;
    WalkFinds(m', r, u);
  }

  lemma HeadIsFirst(m: Mem, roots: set<int>, free: seq<int>, data: set<int>)
    requires Ready(m, roots, free, data) && free != []
    ensures m.head == free[0]
  {}

  // ---------------------------------------------------------------- uvmcreat

  /** uvmcreat; 0 when no page is free. */
  function Uvmcreat(m: Mem): (Mem, int) { (AfterKalloc(m), m.head) }

  method UvmcreatRoot(k: Kmem) returns (root: int)
    modifies k
    ensures (k.m, root) == Uvmcreat(old(k.m))
  { root := k.Kalloc(); }

  /**
   * From a free list of clean pages the invariant holds without any address space, and freerange on zeroed
   * RAM makes such a list.
   */
  lemma KinitReady(m: Mem, lo: int, hi: int)
    requires m.head == 0 && 0 < lo && forall p, i :: m.ram(p, i) == Word(0, 0, 0)
    ensures Ready(AfterFreerange(m, lo, hi), {}, Down(lo, hi), {})
  {
    FreerangeBuilds(m, lo, hi);
    FreshPagesClean(m, lo, hi);
    ListIsReady(AfterFreerange(m, lo, hi), Down(lo, hi), {});
  }

  lemma ListIsReady(m: Mem, free: seq<int>, data: set<int>)
    requires FreeList(m, free) && AllClean(m, free) && forall p :: p in free ==> p !in data
    ensures Ready(m, {}, free, data)
  {}

  /** A clean page becomes a root: its table positions are it alone. */
  lemma NewRootPaths(m: Mem, p: int)
    requires Clean(m, p)
    ensures forall n: Node :: n.r == p ==> PathTo(m, n) == if n == Root(p) then Some(p) else None
  {
    forall n: Node | n.r == p ensures PathTo(m, n) == if n == Root(p) then Some(p) else None {
      if !n.Root? { assert m.ram(p, n.i2).lo & 3 == 0; }
    }
  }

  /** uvmcreat adds an address space that translates nothing, and changes no translation of the others. */
  lemma UvmcreatReady(m: Mem, roots: set<int>, free: seq<int>, data: set<int>)
    requires Ready(m, roots, free, data) && free != []
    ensures var (m', root) := Uvmcreat(m);
      && root == free[0] && root !in roots && Ready(m', roots + {root}, free[1..], data)
      && (forall x :: Lookup(m', root, x).None?)
      && SameTranslations(m, m', roots) && SameData(m, m', data)
      && (forall n: Node :: n.r == root && !n.Root? ==> PathTo(m', n).None?)
  {
    var (m', root) := Uvmcreat(m);
    KallocPops(m, free);
    SamePaths(m, m');
    assert free == [root] + free[1..] && root in free;
    assert root in roots ==> PathTo(m, Root(root)) == Some(root);
    NewRootPaths(m', root);
    hide FreeList, PathTo, Clean;
    NewRootTree(m, m', roots, free, data, root);
    forall x ensures Lookup(m', root, x).None? { assert PathTo(m', Low(root, PX2(x), PX1(x))).None?; }
    SameRam(m, m', roots, data);
    forall p | p in free[1..] ensures Clean(m', p) && p !in data { assert p in free && Clean(m, p); CleanByRam(m, m', p); }
  }

  lemma CleanByRam(m: Mem, m': Mem, p: int)
    requires m'.ram == m.ram && Clean(m, p)
    ensures Clean(m', p)
  {}

  lemma SameRam(m: Mem, m': Mem, roots: set<int>, data: set<int>)
    requires m'.ram == m.ram
    ensures SameTranslations(m, m', roots) && SameData(m, m', data)
  {}

  lemma NewRootTree(m: Mem, m': Mem, roots: set<int>, free: seq<int>, data: set<int>, root: int)
    requires Tree(m, roots) && LeafShape(m, roots) && Apart(m, roots, free, data) && m'.ram == m.ram
    requires free != [] && root == free[0] && root !in free[1..] && root !in data && root !in roots
    requires forall n: Node :: PathTo(m', n) == PathTo(m, n)
    requires forall n: Node :: n.r == root ==> PathTo(m', n) == if n == Root(root) then Some(root) else None
    ensures Tree(m', roots + {root}) && LeafShape(m', roots + {root}) && Apart(m', roots + {root}, free[1..], data)
  {
    hide PathTo;
    forall n: Node | n.r in roots && PathTo(m, n).Some?
      ensures PathTo(m, n).value != root && PathTo(m, n).value !in free[1..] && PathTo(m, n).value !in data
    {
      assert root in free && forall p :: p in free[1..] ==> p in free;
    }
  }
}
