/**
 * kernel/vm.c: the three-level translation tables of VMSAv8-64 (4 KB granule, 39-bit addresses),
 * seen as a forest of table pages that refines a flat map from pages to leaf descriptors.
 */
module PageTable {
  import opened Options
  import opened Kalloc

  // ---------------------------------------------------------------- addresses and descriptors

  /** MAXPAGE in pages: virtual addresses have 38 bits. */
  const MAXPAGE := 0x400_0000

  // PX(level, va): the 9-bit digits of the virtual page number
  function PX2(v: int): int { v / 0x4_0000 % 512 }
  function PX1(v: int): int { v / 512 % 512 }
  function PX0(v: int): int { v % 512 }

  predicate IsTable(e: Word) { e.lo & 3 == 3 }

  function TableEntry(p: int): Word { Word(0, p, 3) }

  /** PA2PTE(pa) | perm | PTE_AF | PTE_V, for attributes `hi`, `lo` outside the address field. */
  function LeafEntry(p: int, perm: Perm): Word { Word(perm.hi, p, perm.lo | 0x403) }

  datatype Perm = Perm(hi: bv16, lo: bv12)

  /** Below MAXPAGE the three indices name exactly one page. */
  lemma IndicesNamePage(a: int, b: int)
    requires 0 <= a < MAXPAGE && 0 <= b < MAXPAGE
    ensures (PX2(a) == PX2(b) && PX1(a) == PX1(b) && PX0(a) == PX0(b)) <==> a == b
  {
    PageFromIndices(a);
    PageFromIndices(b);
  }

  lemma PageFromIndices(v: int)
    requires 0 <= v < MAXPAGE
    ensures v == PX2(v) * 0x4_0000 + PX1(v) * 512 + PX0(v)
  {
    assert v / 512 / 512 == v / 0x4_0000;
  }

  // ---------------------------------------------------------------- the forest

  /** The position of a table page: a root, a level-1 table or a level-0 table. */
  datatype Node = Root(r: int) | Mid(r: int, i2: int) | Low(r: int, i2: int, i1: int)

  function Child(n: Node, i: int): Node
    requires !n.Low?
  { if n.Root? then Mid(n.r, i) else Low(n.r, n.i2, i) }

  function Follow(e: Word): Option<int> { if IsTable(e) then Some(e.frame) else None }

  /** The page found at a position by following table descriptors from the root. */
  function PathTo(m: Mem, n: Node): Option<int>
  {
    match n
    case Root(r) => Some(r)
    case Mid(r, i2) => Follow(m.ram(r, i2))
    case Low(r, i2, i1) =>
      var t := Follow(m.ram(r, i2));
      if t.None? then None else Follow(m.ram(t.value, i1))
  }

  /** The valid leaf descriptor at three table indices, if there is one. */
  function LookupAt(m: Mem, r: int, i2: int, i1: int, i0: int): Option<Word>
  {
    var t := PathTo(m, Low(r, i2, i1));
    if t.None? then None
    else
      var e := m.ram(t.value, i0);
      if IsTable(e) then Some(e) else None
  }

  /** The hardware walk: the valid leaf descriptor that translates `va`, if there is one. */
  function Lookup(m: Mem, r: int, va: int): Option<Word>
  { LookupAt(m, r, PX2(va), PX1(va), PX0(va)) }

  /** No table page is shared: one page stands at one position only. */
  ghost predicate Tree(m: Mem, roots: set<int>)
  {
    forall n: Node, n': Node :: n.r in roots && n'.r in roots && PathTo(m, n).Some? && PathTo(m, n) == PathTo(m, n')
      ==> n == n'
  }

  /** Writing a table descriptor for a clean fresh page adds exactly one position. */
  lemma GrowPaths(m: Mem, roots: set<int>, nt: Node, t: int, i: int, p: int)
    requires Tree(m, roots) && nt.r in roots && !nt.Low? && PathTo(m, nt) == Some(t)
    requires !IsTable(m.ram(t, i))
    requires p > 0 && Clean(m, p) && forall n: Node :: n.r in roots ==> PathTo(m, n) != Some(p)
    ensures var m' := Store(m, t, i, TableEntry(p));
      forall n: Node :: n.r in roots ==> PathTo(m', n) == if n == Child(nt, i) then Some(p) else PathTo(m, n)
  {
    var m' := Store(m, t, i, TableEntry(p));
    assert t != p;
    forall n: Node | n.r in roots
      ensures PathTo(m', n) == if n == Child(nt, i) then Some(p) else PathTo(m, n)
    {
      assert PathTo(m, Root(n.r)) == Some(n.r);
      if n.Low? {
        assert PathTo(m, Mid(n.r, n.i2)) == Follow(m.ram(n.r, n.i2));
        assert m.ram(p, n.i1).lo & 3 == 0;
      }
    }
  }

  /** Growing the forest translates every address of every address space as before. */
  lemma GrowKeepsLookup(m: Mem, roots: set<int>, nt: Node, t: int, i: int, p: int,
                        r: int, i2: int, i1: int, i0: int)
    requires Tree(m, roots) && nt.r in roots && !nt.Low? && PathTo(m, nt) == Some(t)
    requires !IsTable(m.ram(t, i))
    requires p > 0 && Clean(m, p) && forall n: Node :: n.r in roots ==> PathTo(m, n) != Some(p)
    requires r in roots
    ensures LookupAt(Store(m, t, i, TableEntry(p)), r, i2, i1, i0) == LookupAt(m, r, i2, i1, i0)
  {
    GrowPaths(m, roots, nt, t, i, p);
    var n := Low(r, i2, i1);
    if n == Child(nt, i) {
      assert PathTo(m, n).None?;
      assert m.ram(p, i0).lo & 3 == 0;
    } else if PathTo(m, n).Some? {
      assert PathTo(m, n).value != t;
    }
  }

  /** Writing a leaf descriptor moves no table page. */
  lemma LeafKeepsPaths(m: Mem, roots: set<int>, nt: Node, t: int, i: int, v: Word)
    requires Tree(m, roots) && nt.r in roots && nt.Low? && PathTo(m, nt) == Some(t)
    ensures forall n: Node :: n.r in roots ==> PathTo(Store(m, t, i, v), n) == PathTo(m, n)
  {
    var m' := Store(m, t, i, v);
    forall n: Node | n.r in roots ensures PathTo(m', n) == PathTo(m, n) {
      assert PathTo(m, Root(n.r)) == Some(n.r);
      if n.Low? { assert PathTo(m, Mid(n.r, n.i2)) == Follow(m.ram(n.r, n.i2)); }
    }
  }

  /** A valid leaf translates the page of its three indices and no other page of any address space. */
  lemma LeafSetsOneSlot(m: Mem, roots: set<int>, n: Node, t: int, i0: int, v: Word, n': Node, j0: int)
    requires Tree(m, roots) && n.Low? && n'.Low? && n.r in roots && n'.r in roots
    requires PathTo(m, n) == Some(t) && IsTable(v)
    ensures LookupAt(Store(m, t, i0, v), n'.r, n'.i2, n'.i1, j0)
         == if n' == n && j0 == i0 then Some(v) else LookupAt(m, n'.r, n'.i2, n'.i1, j0)
  {
    LeafKeepsPaths(m, roots, n, t, i0, v);
  }

  /** A valid leaf at the slot of `va` translates its page, and no other page of any address space. */
  lemma LeafSetsOnePage(m: Mem, roots: set<int>, r: int, t: int, va: int, v: Word, r': int, x: int)
    requires Tree(m, roots) && r in roots && r' in roots && 0 <= va < MAXPAGE && 0 <= x < MAXPAGE
    requires PathTo(m, Low(r, PX2(va), PX1(va))) == Some(t) && IsTable(v)
    ensures Lookup(Store(m, t, PX0(va), v), r', x)
         == if r' == r && x == va then Some(v) else Lookup(m, r', x)
  {
    LeafSetsOneSlot(m, roots, Low(r, PX2(va), PX1(va)), t, PX0(va), v, Low(r', PX2(x), PX1(x)), PX0(x));
    IndicesNamePage(va, x);
  }

  // ---------------------------------------------------------------- the invariant

  /** Level-0 descriptors are either valid page descriptors or have both type bits clear. */
  ghost predicate LeafShape(m: Mem, roots: set<int>)
  {
    forall n: Node, i: int :: n.Low? && n.r in roots && PathTo(m, n).Some? ==>
      IsTable(m.ram(PathTo(m, n).value, i)) || m.ram(PathTo(m, n).value, i).lo & 3 == 0
  }

  /** Table pages are neither free nor data pages. */
  ghost predicate Apart(m: Mem, roots: set<int>, free: seq<int>, data: set<int>)
  {
    forall n: Node :: n.r in roots && PathTo(m, n).Some? ==>
      PathTo(m, n).value !in free && PathTo(m, n).value !in data
  }

  /** `free` is the free list of clean pages, and free, data and table pages are disjoint. */
  ghost predicate Ready(m: Mem, roots: set<int>, free: seq<int>, data: set<int>)
  {
    && FreeList(m, free)
    && Tree(m, roots)
    && LeafShape(m, roots)
    && Apart(m, roots, free, data)
    && (forall p :: p in free ==> Clean(m, p) && p !in data)
  }

  // ---------------------------------------------------------------- walk

  /** One round of the loop of `walk`: the next table, allocating it when asked to. */
  function Descend(m: Mem, t: int, i: int, alloc: bool): (Mem, Option<int>)
  {
    var e := m.ram(t, i);
    if IsTable(e) then (m, Some(e.frame))
    else if !alloc || m.head == 0 then (m, None)
    else (Store(AfterKalloc(m), t, i, TableEntry(m.head)), Some(m.head))
  }

  ghost predicate GrowAt(m: Mem, roots: set<int>, nt: Node, t: int, i: int, p: int)
  {
    && Tree(m, roots) && nt.r in roots && !nt.Low? && PathTo(m, nt) == Some(t)
    && !IsTable(m.ram(t, i))
    && p > 0 && Clean(m, p) && (forall n: Node :: n.r in roots ==> PathTo(m, n) != Some(p))
  }

  lemma GrowTree(m: Mem, roots: set<int>, nt: Node, t: int, i: int, p: int)
    requires GrowAt(m, roots, nt, t, i, p)
    ensures Tree(Store(m, t, i, TableEntry(p)), roots)
  {
    GrowPaths(m, roots, nt, t, i, p);
  }

  lemma GrowLeafShape(m: Mem, roots: set<int>, nt: Node, t: int, i: int, p: int)
    requires GrowAt(m, roots, nt, t, i, p) && LeafShape(m, roots)
    ensures LeafShape(Store(m, t, i, TableEntry(p)), roots)
  {
    GrowPaths(m, roots, nt, t, i, p);
    var m' := Store(m, t, i, TableEntry(p));
    forall n: Node, j: int | n.Low? && n.r in roots && PathTo(m', n).Some?
      ensures IsTable(m'.ram(PathTo(m', n).value, j)) || m'.ram(PathTo(m', n).value, j).lo & 3 == 0
    {
      if n == Child(nt, i) {
        assert PathTo(m', n) == Some(p) && p != t;
        assert m.ram(p, j).lo & 3 == 0;
      } else {
        assert PathTo(m, n).value != t;
      }
    }
  }

  lemma GrowApart(m: Mem, roots: set<int>, nt: Node, t: int, i: int, free: seq<int>, data: set<int>)
    requires free != [] && GrowAt(m, roots, nt, t, i, free[0]) && Apart(m, roots, free, data)
    requires Distinct(free) && free[0] !in data
    ensures Apart(Store(m, t, i, TableEntry(free[0])), roots, free[1..], data)
  {
    GrowPaths(m, roots, nt, t, i, free[0]);
    assert free == [free[0]] + free[1..];
  }

  /** Taking the first free page as a new table keeps the invariant. */
  lemma GrowReady(m: Mem, roots: set<int>, free: seq<int>, data: set<int>, nt: Node, t: int, i: int)
    requires Ready(m, roots, free, data) && nt.r in roots && !nt.Low? && PathTo(m, nt) == Some(t)
    requires !IsTable(m.ram(t, i)) && free != []
    ensures var m' := Store(AfterKalloc(m), t, i, TableEntry(m.head));
      && Ready(m', roots, free[1..], data)
      && (forall n: Node :: n.r in roots ==> PathTo(m', n) == if n == Child(nt, i) then Some(free[0]) else PathTo(m, n))
  {
    var p, free', m1 := free[0], free[1..], AfterKalloc(m);
    KallocPops(m, free);
    assert free == [p] + free' && p in free;
    SamePaths(m, m1);
    assert Tree(m1, roots);
    assert GrowAt(m1, roots, nt, t, i, p);
    var m' := Store(m1, t, i, TableEntry(p));
    GrowTree(m1, roots, nt, t, i, p);
    assert LeafShape(m1, roots);
    GrowLeafShape(m1, roots, nt, t, i, p);
    GrowApart(m1, roots, nt, t, i, free, data);
    GrowPaths(m1, roots, nt, t, i, p);
    assert t !in free;
    forall q | q in free' ensures Clean(m1, q) && q !in data {
      assert q in free && Clean(m, q);
    }
    FreeListFrame(m1, m', free', t);
  }

  lemma FreeListFrame(m: Mem, m': Mem, free: seq<int>, t: int)
    requires FreeList(m, free) && t !in free && m'.head == m.head
    requires forall q, j :: q != t ==> m'.ram(q, j) == m.ram(q, j)
    ensures FreeList(m', free)
    ensures forall p :: p in free && Clean(m, p) ==> Clean(m', p)
  {}

  lemma SamePaths(m: Mem, m': Mem)
    requires m'.ram == m.ram
    ensures forall n: Node :: PathTo(m', n) == PathTo(m, n)
  {}

  lemma DescendReady(m: Mem, roots: set<int>, free: seq<int>, data: set<int>, nt: Node, t: int, i: int)
    returns (free': seq<int>)
    requires Ready(m, roots, free, data) && nt.r in roots && !nt.Low? && PathTo(m, nt) == Some(t)
    ensures var (m', c) := Descend(m, t, i, true);
      && Ready(m', roots, free', data)
      && (c.None? <==> !IsTable(m.ram(t, i)) && free == [])
      && (c.None? ==> m' == m)
      && (c.Some? ==> PathTo(m', Child(nt, i)) == c && OneMore(m, m', roots, Child(nt, i)))
      && free' == (if IsTable(m.ram(t, i)) || free == [] then free else free[1..])
      && (forall q, j :: q in data ==> m'.ram(q, j) == m.ram(q, j))
  {
    if IsTable(m.ram(t, i)) || m.head == 0 {
      free' := free;
      assert PathTo(m, Child(nt, i)) == Follow(m.ram(t, i));
    } else {
      free' := free[1..];
      GrowReady(m, roots, free, data, nt, t, i);
      assert t !in data;
    }
  }

  /** The position `c` has a table too, and no other position gained or lost one. */
  ghost predicate OneMore(m: Mem, m': Mem, roots: set<int>, c: Node)
  { forall n: Node :: n.r in roots ==> (PathTo(m', n).Some? <==> PathTo(m, n).Some? || n == c) }

  lemma DescendKeepsLookup(m: Mem, roots: set<int>, free: seq<int>, data: set<int>, nt: Node, t: int, i: int,
                           r: int, i2: int, i1: int, i0: int)
    requires Ready(m, roots, free, data) && nt.r in roots && !nt.Low? && PathTo(m, nt) == Some(t) && r in roots
    ensures LookupAt(Descend(m, t, i, true).0, r, i2, i1, i0) == LookupAt(m, r, i2, i1, i0)
  {
    if !IsTable(m.ram(t, i)) && m.head != 0 {
      var p, m1 := free[0], AfterKalloc(m);
      SamePaths(m, m1);
      assert p in free && Clean(m, p);
      assert Tree(m1, roots);
      assert GrowAt(m1, roots, nt, t, i, p);
      GrowKeepsLookup(m1, roots, nt, t, i, p, r, i2, i1, i0);
    }
  }

  datatype WalkResult = WalkPanic | NoSlot | Slot(table: int, index: int)

  /** walk: the slot of the leaf descriptor of `va`. */
  function Walk(m: Mem, r: int, va: int, alloc: bool): (Mem, WalkResult)
  {
    if va >= MAXPAGE then (m, WalkPanic)
    else
      var (m1, t1) := Descend(m, r, PX2(va), alloc);
      if t1.None? then (m1, NoSlot)
      else
        var (m0, t0) := Descend(m1, t1.value, PX1(va), alloc);
        if t0.None? then (m0, NoSlot) else (m0, Slot(t0.value, PX0(va)))
  }

  /** Without `alloc`, walk changes nothing and finds the slot exactly when the two upper tables exist. */
  lemma WalkFinds(m: Mem, r: int, va: int)
    requires va < MAXPAGE
    ensures Walk(m, r, va, false).0 == m
    ensures Walk(m, r, va, false).1
         == var t := PathTo(m, Low(r, PX2(va), PX1(va)));
            if t.None? then NoSlot else Slot(t.value, PX0(va))
  {}

  /** How many tables walk must allocate to reach the slot of `va`. */
  function Cost(m: Mem, r: int, va: int): nat
  {
    if PathTo(m, Low(r, PX2(va), PX1(va))).Some? then 0
    else if PathTo(m, Mid(r, PX2(va))).Some? then 1
    else 2
  }

  /** The two tables of `va` are there too, and no other position gained or lost one. */
  ghost predicate GrownTo(m: Mem, m': Mem, roots: set<int>, r: int, va: int)
  {
    forall n: Node :: n.r in roots ==>
      (PathTo(m', n).Some? <==> PathTo(m, n).Some? || n == Mid(r, PX2(va)) || n == Low(r, PX2(va), PX1(va)))
  }

  ghost predicate SameTranslations(m: Mem, m': Mem, roots: set<int>)
  {
    forall r, i2, i1, i0 :: r in roots ==> LookupAt(m', r, i2, i1, i0) == LookupAt(m, r, i2, i1, i0)
  }

  ghost predicate SameData(m: Mem, m': Mem, data: set<int>)
  { forall q, j :: q in data ==> m'.ram(q, j) == m.ram(q, j) }

  /** walk with `alloc` grows the forest without changing one translation or one data page. */
  lemma WalkReady(m: Mem, roots: set<int>, free: seq<int>, data: set<int>, r: int, va: int)
    returns (free': seq<int>)
    requires Ready(m, roots, free, data) && r in roots && 0 <= va < MAXPAGE
    ensures var (m', w) := Walk(m, r, va, true);
      && Ready(m', roots, free', data)
      && SameTranslations(m, m', roots)
      && SameData(m, m', data)
      && (w.NoSlot? ==> free' == [])
      && (w.Slot? <==> Cost(m, r, va) <= |free|)
      && (w.Slot? ==> free' == free[Cost(m, r, va)..] && GrownTo(m, m', roots, r, va))
      && (w.Slot? ==> PathTo(m', Low(r, PX2(va), PX1(va))) == Some(w.table) && w.index == PX0(va))
      && !w.WalkPanic?
  {
    var n2 := Root(r);
    free' := DescendReady(m, roots, free, data, n2, r, PX2(va));
    var (m1, t1) := Descend(m, r, PX2(va), true);
    forall r', i2, i1, i0 | r' in roots ensures LookupAt(m1, r', i2, i1, i0) == LookupAt(m, r', i2, i1, i0) {
      DescendKeepsLookup(m, roots, free, data, n2, r, PX2(va), r', i2, i1, i0);
    }
    assert free[0..] == free;
    if t1.Some? {
      var n1 := Mid(r, PX2(va));
      var free1 := free';
      free' := DescendReady(m1, roots, free1, data, n1, t1.value, PX1(va));
      var (m0, t0) := Descend(m1, t1.value, PX1(va), true);
      forall r', i2, i1, i0 | r' in roots ensures LookupAt(m0, r', i2, i1, i0) == LookupAt(m1, r', i2, i1, i0) {
        DescendKeepsLookup(m1, roots, free1, data, n1, t1.value, PX1(va), r', i2, i1, i0);
      }
      assert PathTo(m1, Low(r, PX2(va), PX1(va))) == Follow(m1.ram(t1.value, PX1(va)));
    }
  }

  // ---------------------------------------------------------------- mappages

  datatype MapResult = Mapped | NoMemory | PanicWalk | PanicRemap | PanicArgs

  /** One round of the loop of `mappages`: page `a` to frame `p`. */
  function MapStep(m: Mem, r: int, a: int, p: int, perm: Perm): (Mem, MapResult)
  {
    var (m1, w) := Walk(m, r, a, true);
    match w
    case WalkPanic => (m1, PanicWalk)
    case NoSlot => (m1, NoMemory)
    case Slot(t, i) =>
      if m1.ram(t, i).lo & 3 != 0 then (m1, PanicRemap) else (Store(m1, t, i, LeafEntry(p, perm)), Mapped)
  }

  function MapLoop(m: Mem, r: int, a: int, last: int, p: int, perm: Perm): (Mem, MapResult)
    decreases MAXPAGE - a
  {
    var (m1, res) := MapStep(m, r, a, p, perm);
    if !res.Mapped? || a == last then (m1, res) else MapLoop(m1, r, a + 1, last, p + 1, perm)
  }

  /** mappages on byte addresses; addresses are taken below 2^64 and frames below 2^36. */
  function MapPages(m: Mem, r: int, va: nat, pa: nat, size: nat, perm: Perm): (Mem, MapResult)
  {
    if va % 4096 != 0 || size % 4096 != 0 || size == 0 then (m, PanicArgs)
    else MapLoop(m, r, va / 4096, (va + size - 4096) % 0x1_0000_0000_0000_0000 / 4096, pa / 4096, perm)
  }

  /** The flat map: pages `[va, stop)` of space `r` go to consecutive frames, nothing else changes. */
  ghost predicate RangeMapped(m: Mem, m': Mem, roots: set<int>, r: int, va: int, stop: int, pa: int, perm: Perm)
  {
    forall r', x :: r' in roots && 0 <= x < MAXPAGE ==>
      Lookup(m', r', x) == if r' == r && va <= x < stop
                           then Some(LeafEntry(pa + (x - va), perm))
                           else Lookup(m, r', x)
  }

  lemma LeafReady(m: Mem, roots: set<int>, free: seq<int>, data: set<int>, n: Node, t: int, i: int, v: Word)
    requires Ready(m, roots, free, data) && n.Low? && n.r in roots && PathTo(m, n) == Some(t) && IsTable(v)
    ensures Ready(Store(m, t, i, v), roots, free, data)
    ensures SameData(m, Store(m, t, i, v), data)
    ensures forall n': Node :: n'.r in roots ==> PathTo(Store(m, t, i, v), n') == PathTo(m, n')
  {
    var m' := Store(m, t, i, v);
    LeafKeepsPaths(m, roots, n, t, i, v);
    FreeListFrame(m, m', free, t);
  }

  lemma LeafIsTable(pa: int, perm: Perm)
    ensures IsTable(LeafEntry(pa, perm))
  {}

  ghost predicate RangeFree(m: Mem, r: int, a: int, stop: int)
  { forall x :: a <= x < stop && x < MAXPAGE ==> Lookup(m, r, x).None? }

  /** What a run of `mappages` from page `a` to page `last` leaves behind, whatever its result. */
  ghost predicate MapOutcome(m: Mem, m': Mem, res: MapResult, roots: set<int>, free': seq<int>, data: set<int>,
                             r: int, a: int, last: int, p: int, perm: Perm, stop: int)
  {
    && Ready(m', roots, free', data)
    && SameData(m, m', data)
    && a <= stop && RangeMapped(m, m', roots, r, a, stop, p, perm)
    && RangeFree(m, r, a, stop)
    && (a <= last && !res.Mapped? ==> stop <= last)
    && (res.Mapped? ==> a <= last < MAXPAGE && stop == last + 1)
    && (res.NoMemory? ==> free' == [])
    && (res.PanicWalk? ==> MAXPAGE <= stop)
    && (res.PanicRemap? ==> stop < MAXPAGE && Lookup(m, r, stop).Some?)
    && !res.PanicArgs?
  }

  /** `m2` is `m` with page `a` of space `r` mapped. */
  ghost predicate OneMapped(m: Mem, m2: Mem, roots: set<int>, r: int, a: int, v: Word)
  {
    forall r', x :: r' in roots && 0 <= x < MAXPAGE ==>
      Lookup(m2, r', x) == if r' == r && x == a then Some(v) else Lookup(m, r', x)
  }

  lemma OneIsRange(m: Mem, m': Mem, roots: set<int>, r: int, a: int, p: int, perm: Perm)
    requires OneMapped(m, m', roots, r, a, LeafEntry(p, perm)) && Lookup(m, r, a).None?
    ensures RangeMapped(m, m', roots, r, a, a + 1, p, perm) && RangeFree(m, r, a, a + 1)
  {}

  lemma MapExtends(m: Mem, m2: Mem, m': Mem, res: MapResult, roots: set<int>, free': seq<int>, data: set<int>,
                   r: int, a: int, last: int, p: int, perm: Perm, stop: int)
    requires r in roots && 0 <= a && OneMapped(m, m2, roots, r, a, LeafEntry(p, perm)) && SameData(m, m2, data)
    requires a != last && Lookup(m, r, a).None?
    requires MapOutcome(m2, m', res, roots, free', data, r, a + 1, last, p + 1, perm, stop)
    ensures MapOutcome(m, m', res, roots, free', data, r, a, last, p, perm, stop)
  {
    forall r', x | r' in roots && 0 <= x < MAXPAGE
      ensures Lookup(m', r', x) == if r' == r && a <= x < stop then Some(LeafEntry(p + (x - a), perm))
                                   else Lookup(m, r', x)
    {
      assert p + 1 + (x - (a + 1)) == p + (x - a);
    }
    forall x | a <= x < stop && x < MAXPAGE ensures Lookup(m, r, x).None? {
      if x != a { assert Lookup(m2, r, x) == Lookup(m, r, x); }
    }
  }

  lemma GrownSame(m: Mem, m1: Mem, m2: Mem, roots: set<int>, r: int, va: int)
    requires GrownTo(m, m1, roots, r, va) && forall n: Node :: n.r in roots ==> PathTo(m2, n) == PathTo(m1, n)
    ensures GrownTo(m, m2, roots, r, va)
  {
    hide PathTo;
    forall n: Node | n.r in roots
      ensures PathTo(m2, n).Some? <==> PathTo(m, n).Some? || n == Mid(r, PX2(va)) || n == Low(r, PX2(va), PX1(va))
    {
      assert PathTo(m2, n) == PathTo(m1, n);
    }
  }

  /** One round either maps page `a`, or stops with every translation as it was. */
  lemma MapStepRefines(m: Mem, roots: set<int>, free: seq<int>, data: set<int>, r: int, a: int, p: int, perm: Perm)
    returns (free': seq<int>)
    requires Ready(m, roots, free, data) && r in roots && 0 <= a
    ensures var (m', res) := MapStep(m, r, a, p, perm);
      && Ready(m', roots, free', data)
      && SameData(m, m', data)
      && (res.Mapped? ==> Lookup(m, r, a).None?)
      && (if res.Mapped? then a < MAXPAGE && OneMapped(m, m', roots, r, a, LeafEntry(p, perm))
          else RangeMapped(m, m', roots, r, a, a, p, perm))
      && (res.NoMemory? ==> free' == [])
      && (res.NoMemory? <==> a < MAXPAGE && |free| < Cost(m, r, a))
      && (res.Mapped? ==> Cost(m, r, a) <= |free| && free' == free[Cost(m, r, a)..] && GrownTo(m, m', roots, r, a))
      && (res.PanicWalk? ==> MAXPAGE <= a)
      && (res.PanicRemap? <==> a < MAXPAGE && Lookup(m, r, a).Some?)
      && !res.PanicArgs?
  {
    if a >= MAXPAGE {
      free' := free;
    } else {
      free' := WalkReady(m, roots, free, data, r, a);
      var (m1, w) := Walk(m, r, a, true);
      SameLookups(m, m1, roots);
      if w.Slot? {
        var n, v := Low(r, PX2(a), PX1(a)), LeafEntry(p, perm);
        assert Lookup(m1, r, a) == Lookup(m, r, a);
        LeafIsTable(p, perm);
        LeafReady(m1, roots, free', data, n, w.table, w.index, v);
        var m2 := Store(m1, w.table, w.index, v);
        GrownSame(m, m1, m2, roots, r, a);
        forall r', x | r' in roots && 0 <= x < MAXPAGE
          ensures Lookup(m2, r', x) == if r' == r && x == a then Some(v) else Lookup(m, r', x)
        {
          LeafSetsOnePage(m1, roots, r, w.table, a, v, r', x);
        }
      }
    }
  }

  /**
   * mappages refines the flat map on every run: the pages before `stop` are mapped and nothing else
   * changes; it stops early only at the end of the address space, at a page that was already mapped,
   * or with the free list used up.
   */
  lemma {:induction false} MapLoopRefines(m: Mem, roots: set<int>, free: seq<int>, data: set<int>,
                                          r: int, a: int, last: int, p: int, perm: Perm)
    returns (free': seq<int>, stop: int)
    requires Ready(m, roots, free, data) && r in roots && 0 <= a
    ensures var (m', res) := MapLoop(m, r, a, last, p, perm);
      MapOutcome(m, m', res, roots, free', data, r, a, last, p, perm, stop)
    decreases MAXPAGE - a
  {
    hide Ready, SameData, RangeMapped, OneMapped, Lookup, MapStep;
    var free1 := MapStepRefines(m, roots, free, data, r, a, p, perm);
    var (m1, res1) := MapStep(m, r, a, p, perm);
    if !res1.Mapped? {
      free', stop := free1, a;
      assert RangeFree(m, r, a, a);
    } else if a == last {
      free', stop := free1, a + 1;
      OneIsRange(m, m1, roots, r, a, p, perm);
    } else {
      free', stop := MapLoopRefines(m1, roots, free1, data, r, a + 1, last, p + 1, perm);
      var (m', res) := MapLoop(m1, r, a + 1, last, p + 1, perm);
      MapExtends(m, m1, m', res, roots, free', data, r, a, last, p, perm, stop);
    }
  }

  lemma SameLookups(m: Mem, m': Mem, roots: set<int>)
    requires SameTranslations(m, m', roots)
    ensures forall r, x :: r in roots ==> Lookup(m', r, x) == Lookup(m, r, x)
  {}
}
