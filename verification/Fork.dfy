/**
 * kernel/proc.c: the part of copyproc that gives the child its own copy of the parent's pages.
 */
module Fork {
  import opened Options
  import opened Kalloc
  import opened PageTable
  import opened TableCost
  import Vm

  /** The byte loop of copyproc: page `to` becomes a copy of page `from`. */
  function CopyPage(m: Mem, from: int, to: int): Mem
  { m.(ram := (q, j) => if q == to then m.ram(from, j) else m.ram(q, j)) }

  /** OutOfMemory stands for the unchecked null page of kalloc and the ignored -1 of mappages. */
  datatype ForkResult = Forked | OutOfMemory | Panicked

  /** One round of the loop of copyproc, at page `i`. */
  function CopyStep(m: Mem, parent: int, child: int, i: int): (Mem, ForkResult)
  {
    match Walk(m, parent, i, false).1
    case WalkPanic => (m, Panicked)
    case NoSlot => (m, Forked)
    case Slot(t, j) =>
      var e := m.ram(t, j);
      if e.lo & 3 == 0 then (m, Forked)
      else if m.head == 0 then (m, OutOfMemory)
      else
        var m2 := CopyPage(AfterKalloc(m), e.frame, m.head);
        var (m3, res) := MapLoop(m2, child, i, i, m.head, Perm(0, e.lo & 0x3FF));
        (m3, if res.Mapped? then Forked else if res.NoMemory? then OutOfMemory else Panicked)
  }

  function CopyLoop(m: Mem, parent: int, child: int, i: int, limit: int): (Mem, ForkResult)
    decreases limit - i
  {
    if i >= limit then (m, Forked)
    else
      var (m1, res) := CopyStep(m, parent, child, i);
      if res.Forked? then CopyLoop(m1, parent, child, i + 1, limit) else (m1, res)
  }

  // ---------------------------------------------------------------- what the child gets

  ghost predicate ParentFramesIn(m: Mem, parent: int, lo: int, hi: int, data: set<int>)
  { forall x :: lo <= x < hi && Lookup(m, parent, x).Some? ==> Lookup(m, parent, x).value.frame in data }

  ghost predicate Unmapped(m: Mem, r: int, lo: int, hi: int)
  { forall x :: lo <= x < hi ==> Lookup(m, r, x).None? }

  /** The child maps `x` exactly when the parent does, to a frame outside `data` with the same words. */
  ghost predicate PageCopied(m: Mem, m': Mem, parent: int, child: int, x: int, data: set<int>)
  {
    var e, e' := Lookup(m, parent, x), Lookup(m', child, x);
    && (e'.Some? <==> e.Some?)
    && (e.Some? ==>
          && e'.value.lo & 0x3FF == e.value.lo & 0x3FF
          && e'.value.frame !in data
          && forall j :: m'.ram(e'.value.frame, j) == m.ram(e.value.frame, j))
  }

  ghost predicate DistinctFrames(m: Mem, r: int, lo: int, hi: int)
  {
    forall x, y | lo <= x < y < hi && Lookup(m, r, x).Some? && Lookup(m, r, y).Some? ::
      Lookup(m, r, x).value.frame != Lookup(m, r, y).value.frame
  }

  /** Every translation outside pages `[lo, hi)` of the child is as before. */
  ghost predicate OthersSame(m: Mem, m': Mem, roots: set<int>, child: int, lo: int, hi: int)
  {
    forall r, x :: r in roots && 0 <= x < MAXPAGE && (r != child || x < lo || hi <= x) ==>
      Lookup(m', r, x) == Lookup(m, r, x)
  }

  // ---------------------------------------------------------------- one page

  /** A free page taken and filled in any way is a data page. */
  lemma TakeAndFill(m: Mem, m2: Mem, roots: set<int>, free: seq<int>, data: set<int>)
    requires Ready(m, roots, free, data) && free != [] && m2.head == AfterKalloc(m).head
    requires forall q, j :: q != m.head ==> m2.ram(q, j) == m.ram(q, j)
    ensures Ready(m2, roots, free[1..], data + {m.head})
    ensures m.head !in data && m.head == free[0] && m.head > 0
    ensures SameTranslations(m, m2, roots) && SameData(m, m2, data)
    ensures forall n: Node :: n.r in roots ==> PathTo(m2, n) == PathTo(m, n)
  {
    var p, m1 := m.head, AfterKalloc(m);
    KallocPops(m, free);
    assert free == [p] + free[1..] && p in free && p !in free[1..];
    OffTablePage(m, m2, roots, p);
    hide FreeList;
    FreeListFrame(m1, m2, free[1..], p);
    forall q | q in free[1..] ensures Clean(m2, q) && q !in data + {p} {
      assert q in free && q != p && Clean(m, q);
      assert Clean(m1, q);
    }
  }

  /** A free page turned into a copy of another page is a data page. */
  lemma TakeDataPage(m: Mem, roots: set<int>, free: seq<int>, data: set<int>, from: int)
    requires Ready(m, roots, free, data) && free != []
    ensures var m2 := CopyPage(AfterKalloc(m), from, m.head);
      && Ready(m2, roots, free[1..], data + {m.head})
      && m.head !in data && m.head == free[0]
      && SameTranslations(m, m2, roots)
      && SameData(m, m2, data)
      && (forall j :: m2.ram(m.head, j) == m.ram(from, j))
      && (forall n: Node :: n.r in roots ==> PathTo(m2, n) == PathTo(m, n))
  {
    hide Ready, SameTranslations, SameData, PathTo;
    TakeAndFill(m, CopyPage(AfterKalloc(m), from, m.head), roots, free, data);
  }

  /** Changing a page that is no table changes no path and no translation. */
  lemma OffTablePage(m: Mem, m': Mem, roots: set<int>, p: int)
    requires forall n: Node :: n.r in roots ==> PathTo(m, n) != Some(p)
    requires forall q, j :: q != p ==> m'.ram(q, j) == m.ram(q, j)
    ensures forall n: Node :: n.r in roots ==> PathTo(m', n) == PathTo(m, n)
    ensures SameTranslations(m, m', roots)
  {
    forall n: Node | n.r in roots ensures PathTo(m', n) == PathTo(m, n) {
      assert PathTo(m, Root(n.r)) == Some(n.r);
      if n.Low? { assert PathTo(m, Mid(n.r, n.i2)) == Follow(m.ram(n.r, n.i2)); }
    }
  }

  lemma FlagsKept(lo: bv12)
    requires lo & 3 == 3
    ensures ((lo & 0x3FF) | 0x403) & 0x3FF == lo & 0x3FF
  {}

  /** The round of copyproc at a page the parent does not map changes nothing. */
  lemma SkipStep(m: Mem, roots: set<int>, free: seq<int>, data: set<int>, parent: int, child: int, i: int)
    requires Ready(m, roots, free, data) && parent in roots && 0 <= i < MAXPAGE && Lookup(m, parent, i).None?
    ensures CopyStep(m, parent, child, i) == (m, Forked)
  {
    WalkFinds(m, parent, i);
    var n := Low(parent, PX2(i), PX1(i));
    if PathTo(m, n).Some? {
      assert IsTable(m.ram(PathTo(m, n).value, PX0(i))) || m.ram(PathTo(m, n).value, PX0(i)).lo & 3 == 0;
    }
  }

  lemma CopyStepUnfolds(m: Mem, parent: int, child: int, i: int)
    requires 0 <= i < MAXPAGE && Lookup(m, parent, i).Some? && m.head != 0
    ensures var e := Lookup(m, parent, i).value;
      var m2 := CopyPage(AfterKalloc(m), e.frame, m.head);
      var (m3, res) := MapLoop(m2, child, i, i, m.head, Perm(0, e.lo & 0x3FF));
      CopyStep(m, parent, child, i) == (m3, if res.Mapped? then Forked else if res.NoMemory? then OutOfMemory else Panicked)
    ensures Lookup(m, parent, i).value.lo & 3 == 3
  {
    WalkFinds(m, parent, i);
  }

  /**
   * The round of copyproc at a page that the parent maps and the child does not: it takes one page for the
   * copy and one for each table the child is missing, and fails exactly when fewer are free.
   */
  lemma CopyOne(m: Mem, roots: set<int>, free: seq<int>, data: set<int>, parent: int, child: int, i: int)
    returns (free': seq<int>)
    requires Ready(m, roots, free, data) && parent in roots && child in roots && 0 <= i < MAXPAGE
    requires Lookup(m, parent, i).Some? && Lookup(m, child, i).None?
    ensures var (m', res) := CopyStep(m, parent, child, i); var need := 1 + Cost(m, child, i);
      && (res.Forked? <==> need <= |free|) && (res.OutOfMemory? <==> |free| < need)
      && (res.Forked? ==>
            && free' == free[need..] && GrownTo(m, m', roots, child, i)
            && Ready(m', roots, free', data + {m.head})
            && SameData(m, m', data)
            && OneMapped(m, m', roots, child, i, LeafEntry(m.head, Perm(0, Lookup(m, parent, i).value.lo & 0x3FF)))
            && m.head !in data
            && (forall j :: m'.ram(m.head, j) == m.ram(Lookup(m, parent, i).value.frame, j)))
  {
    free' := free;
    if free == [] {
      NoPageLeft(m, roots, data, parent, child, i);
    } else {
      hide Ready, Lookup, CopyStep, MapStep, CopyPage, AfterKalloc, PathTo, Cost, GrownTo, OneMapped, SameData;
      var e, p := Lookup(m, parent, i).value, m.head;
      FirstFree(m, roots, free, data);
      CopyStepUnfolds(m, parent, child, i);
      TakeDataPage(m, roots, free, data, e.frame);
      var m2 := CopyPage(AfterKalloc(m), e.frame, p);
      SameLookups(m, m2, roots);
      var perm := Perm(0, e.lo & 0x3FF);
      free' := MapStepRefines(m2, roots, free[1..], data + {p}, child, i, p, perm);
      SameCost(m, m2, roots, child, i);
      if MapStep(m2, child, i, p, perm).1.Mapped? {
        MappedAfterCopy(m, m2, MapStep(m2, child, i, p, perm).0, roots, data, child, i, p, LeafEntry(p, perm));
      }
    }
  }

  lemma SameCost(m: Mem, m2: Mem, roots: set<int>, r: int, va: int)
    requires r in roots && forall n: Node :: n.r in roots ==> PathTo(m2, n) == PathTo(m, n)
    ensures Cost(m2, r, va) == Cost(m, r, va)
  { hide PathTo; }

  /** What the mapping changes, seen from before the copy. */
  lemma MappedAfterCopy(m: Mem, m2: Mem, m3: Mem, roots: set<int>, data: set<int>, r: int, va: int, p: int, v: Word)
    requires GrownTo(m2, m3, roots, r, va) && forall n: Node :: n.r in roots ==> PathTo(m2, n) == PathTo(m, n)
    requires OneMapped(m2, m3, roots, r, va, v) && forall r', x :: r' in roots ==> Lookup(m2, r', x) == Lookup(m, r', x)
    requires SameData(m, m2, data) && SameData(m2, m3, data + {p})
    ensures GrownTo(m, m3, roots, r, va) && OneMapped(m, m3, roots, r, va, v) && SameData(m, m3, data)
    ensures forall j :: m3.ram(p, j) == m2.ram(p, j)
  {
    hide PathTo, Lookup;
    GrownBefore(m, m2, m3, roots, r, va);
    assert p in data + {p};
    forall q, j | q in data ensures m3.ram(q, j) == m.ram(q, j) { assert q in data + {p}; }
  }

  lemma NoPageLeft(m: Mem, roots: set<int>, data: set<int>, parent: int, child: int, i: int)
    requires Ready(m, roots, [], data) && 0 <= i < MAXPAGE && Lookup(m, parent, i).Some?
    ensures CopyStep(m, parent, child, i).1.OutOfMemory?
  {
    WalkFinds(m, parent, i);
  }

  lemma GrownBefore(m: Mem, m2: Mem, m3: Mem, roots: set<int>, r: int, va: int)
    requires GrownTo(m2, m3, roots, r, va) && forall n: Node :: n.r in roots ==> PathTo(m2, n) == PathTo(m, n)
    ensures GrownTo(m, m3, roots, r, va)
  {
    hide PathTo;
    forall n: Node | n.r in roots
      ensures PathTo(m3, n).Some? <==> PathTo(m, n).Some? || n == Mid(r, PX2(va)) || n == Low(r, PX2(va), PX1(va))
    {
      assert PathTo(m2, n) == PathTo(m, n);
    }
  }

  lemma FirstFree(m: Mem, roots: set<int>, free: seq<int>, data: set<int>)
    requires Ready(m, roots, free, data) && free != []
    ensures m.head == free[0] && m.head > 0
  {}

  // ---------------------------------------------------------------- the whole copy

  ghost predicate Copied(m: Mem, m': Mem, roots: set<int>, free': seq<int>, data: set<int>, data': set<int>,
                         parent: int, child: int, lo: int, hi: int)
  {
    && Ready(m', roots, free', data')
    && data <= data'
    && SameData(m, m', data)
    && (forall x :: lo <= x < hi ==> PageCopied(m, m', parent, child, x, data))
    && ParentFramesIn(m', child, lo, hi, data')
    && DistinctFrames(m', child, lo, hi)
    && OthersSame(m, m', roots, child, lo, hi)
  }

  lemma ExtendSkip(m: Mem, m': Mem, roots: set<int>, free': seq<int>, data: set<int>, data': set<int>,
                   parent: int, child: int, i: int, hi: int)
    requires 0 <= i < hi <= MAXPAGE && child in roots
    requires Lookup(m, parent, i).None? && Lookup(m, child, i).None?
    requires Copied(m, m', roots, free', data, data', parent, child, i + 1, hi)
    ensures Copied(m, m', roots, free', data, data', parent, child, i, hi)
  {
    hide Ready, SameData, Lookup;
    assert Lookup(m', child, i) == Lookup(m, child, i);
    forall x | i <= x < hi ensures PageCopied(m, m', parent, child, x, data) {
      if x != i { assert i + 1 <= x; }
    }
  }

  lemma ExtendCopy(m: Mem, m1: Mem, m': Mem, roots: set<int>, free': seq<int>, data: set<int>, data': set<int>,
                   parent: int, child: int, i: int, hi: int, p: int)
    requires 0 <= i < hi <= MAXPAGE && parent in roots && child in roots && parent != child
    requires ParentFramesIn(m, parent, i, hi, data) && Lookup(m, parent, i).Some?
    requires Lookup(m, parent, i).value.lo & 3 == 3
    requires SameData(m, m1, data) && p !in data
    requires OneMapped(m, m1, roots, child, i, LeafEntry(p, Perm(0, Lookup(m, parent, i).value.lo & 0x3FF)))
    requires forall j :: m1.ram(p, j) == m.ram(Lookup(m, parent, i).value.frame, j)
    requires Copied(m1, m', roots, free', data + {p}, data', parent, child, i + 1, hi)
    ensures Copied(m, m', roots, free', data, data', parent, child, i, hi)
  {
    hide Ready, Lookup;
    FlagsKept(Lookup(m, parent, i).value.lo);
    assert Lookup(m', child, i) == Lookup(m1, child, i);
    assert p in data + {p};
    forall x | i <= x < hi ensures PageCopied(m, m', parent, child, x, data) {
      if x != i {
        assert PageCopied(m1, m', parent, child, x, data + {p});
        assert Lookup(m1, parent, x) == Lookup(m, parent, x);
      }
    }
    forall x, y | i <= x < y < hi && Lookup(m', child, x).Some? && Lookup(m', child, y).Some?
      ensures Lookup(m', child, x).value.frame != Lookup(m', child, y).value.frame
    {
      if x == i { assert PageCopied(m1, m', parent, child, y, data + {p}); }
    }
  }

  lemma StepFrame(m: Mem, m1: Mem, roots: set<int>, data: set<int>, parent: int, child: int, i: int, hi: int, p: int, v: Word)
    requires 0 <= i < hi <= MAXPAGE && parent in roots && child in roots && parent != child
    requires OneMapped(m, m1, roots, child, i, v)
    requires ParentFramesIn(m, parent, i, hi, data) && Unmapped(m, child, i, hi)
    ensures ParentFramesIn(m1, parent, i + 1, hi, data + {p}) && Unmapped(m1, child, i + 1, hi)
  {
    hide Lookup;
    forall x | i + 1 <= x < hi
      ensures Lookup(m1, parent, x) == Lookup(m, parent, x) && Lookup(m1, child, x) == Lookup(m, child, x) {}
  }

  /** The pages of `[lo, hi)` that space `r` maps. */
  function MappedPages(m: Mem, r: int, lo: int, hi: int): (s: set<int>)
    ensures forall x :: x in s <==> lo <= x < hi && Lookup(m, r, x).Some?
    decreases hi - lo
  { if lo < hi then (if Lookup(m, r, lo).Some? then {lo} else {}) + MappedPages(m, r, lo + 1, hi) else {} }

  /** Pages that fork takes: a copy of every page the parent maps, and the tables the child is missing for them. */
  function ForkNeed(m: Mem, parent: int, child: int, lo: int, hi: int): nat
  { var xs := MappedPages(m, parent, lo, hi); |xs| + Need(m, child, xs) }

  lemma ForkNeedSkip(m: Mem, parent: int, child: int, i: int, hi: int)
    requires i < hi && Lookup(m, parent, i).None?
    ensures ForkNeed(m, parent, child, i, hi) == ForkNeed(m, parent, child, i + 1, hi)
  { hide Lookup; }

  lemma ForkNeedCopy(m: Mem, m1: Mem, roots: set<int>, parent: int, child: int, i: int, hi: int, v: Word)
    requires 0 <= i < hi <= MAXPAGE && parent in roots && child in roots && parent != child && Lookup(m, parent, i).Some?
    requires OneMapped(m, m1, roots, child, i, v) && GrownTo(m, m1, roots, child, i)
    ensures ForkNeed(m, parent, child, i, hi) == 1 + Cost(m, child, i) + ForkNeed(m1, parent, child, i + 1, hi)
  {
    hide Lookup, Need, Cost, GrownTo;
    var xs, rest := MappedPages(m, parent, i, hi), MappedPages(m, parent, i + 1, hi);
    assert xs == {i} + rest && i !in rest;
    forall x | i + 1 <= x < hi ensures Lookup(m1, parent, x) == Lookup(m, parent, x) {}
    forall x ensures x in MappedPages(m1, parent, i + 1, hi) <==> x in rest {}
    assert MappedPages(m1, parent, i + 1, hi) == rest;
    NeedSplits(m, m1, roots, child, i, rest);
  }

  lemma ForkNeedAtLeast(m: Mem, parent: int, child: int, i: int, hi: int)
    requires i < hi && Lookup(m, parent, i).Some?
    ensures 1 + Cost(m, child, i) <= ForkNeed(m, parent, child, i, hi)
  {
    hide Lookup, Need, Cost;
    var rest := MappedPages(m, parent, i + 1, hi);
    assert MappedPages(m, parent, i, hi) == {i} + rest && i !in rest;
    NeedAtLeast(m, child, i, rest);
  }

  /**
   * fork copies the user address space: the loop of copyproc never panics, and ends exactly when as many
   * pages are free as it needs; then below `hi` the child maps a page exactly when the parent does, with
   * equal words and equal low ten attribute bits, in frames that are fresh and pairwise distinct, and no
   * other translation has changed.
   */
  lemma {:induction false} ForkCopies(m: Mem, roots: set<int>, free: seq<int>, data: set<int>,
                                      parent: int, child: int, i: int, hi: int)
    returns (free': seq<int>, data': set<int>)
    requires Ready(m, roots, free, data) && parent in roots && child in roots && parent != child
    requires 0 <= i && hi <= MAXPAGE
    requires ParentFramesIn(m, parent, i, hi, data) && Unmapped(m, child, i, hi)
    ensures var (m', res) := CopyLoop(m, parent, child, i, hi); var need := ForkNeed(m, parent, child, i, hi);
      && (res.Forked? <==> need <= |free|) && (res.OutOfMemory? <==> |free| < need)
      && (res.Forked? ==> free' == free[need..] && Copied(m, m', roots, free', data, data', parent, child, i, hi))
    decreases hi - i
  {
    hide Ready, Lookup, CopyStep, Copied, Cost, GrownTo, ForkNeed;
    free', data' := free, data;
    if i >= hi {
      NothingCopied(m, roots, free, data, parent, child, i, hi);
    } else if Lookup(m, parent, i).None? {
      SkipStep(m, roots, free, data, parent, child, i);
      ForkNeedSkip(m, parent, child, i, hi);
      free', data' := ForkCopies(m, roots, free, data, parent, child, i + 1, hi);
      if CopyLoop(m, parent, child, i, hi).1.Forked? {
        ExtendSkip(m, CopyLoop(m, parent, child, i, hi).0, roots, free', data, data', parent, child, i, hi);
      }
    } else {
      var p, e, m1 := m.head, Lookup(m, parent, i).value, CopyStep(m, parent, child, i).0;
      var free1 := CopyOne(m, roots, free, data, parent, child, i);
      ForkNeedAtLeast(m, parent, child, i, hi);
      if CopyStep(m, parent, child, i).1.Forked? {
        var v := LeafEntry(p, Perm(0, e.lo & 0x3FF));
        StepFrame(m, m1, roots, data, parent, child, i, hi, p, v);
        ForkNeedCopy(m, m1, roots, parent, child, i, hi, v);
        MappedIsTable(m, parent, i);
        free', data' := ForkCopies(m1, roots, free1, data + {p}, parent, child, i + 1, hi);
        if CopyLoop(m, parent, child, i, hi).1.Forked? {
          RestOfRest(free, 1 + Cost(m, child, i), ForkNeed(m1, parent, child, i + 1, hi));
          ExtendCopy(m, m1, CopyLoop(m, parent, child, i, hi).0, roots, free', data, data', parent, child, i, hi, p);
        }
      }
    }
  }

  lemma RestOfRest(s: seq<int>, a: nat, b: nat)
    requires a + b <= |s|
    ensures s[a..][b..] == s[a + b..]
  {}

  lemma MappedIsTable(m: Mem, r: int, x: int)
    requires Lookup(m, r, x).Some?
    ensures Lookup(m, r, x).value.lo & 3 == 3
  {}

  lemma NothingCopied(m: Mem, roots: set<int>, free: seq<int>, data: set<int>, parent: int, child: int, lo: int, hi: int)
    requires Ready(m, roots, free, data) && hi <= lo
    ensures Copied(m, m, roots, free, data, data, parent, child, lo, hi) && ForkNeed(m, parent, child, lo, hi) == 0
  { NeedNothing(m, child); }

  // ---------------------------------------------------------------- proc.c

  /** The page loop of copyproc, on the byte size p->sz. */
  method CopyPages(k: Kmem, parent: int, child: int, sz: nat) returns (res: ForkResult)
    requires (sz + 4095) / 4096 * 4096 + 4096 < 0x8000_0000
    modifies k
    ensures (k.m, res) == CopyLoop(old(k.m), parent, child, 0, (sz + 4095) / 4096 + 1)
  {
    hide CopyStep;
    var i := 0;
    ghost var limit := (sz + 4095) / 4096 + 1;
    while i < (sz + 4095) / 4096 * 4096 + 4096
      invariant 0 <= i && i % 4096 == 0 && i / 4096 <= limit
      invariant CopyLoop(k.m, parent, child, i / 4096, limit) == CopyLoop(old(k.m), parent, child, 0, limit)
    {
      res := CopyOnePage(k, parent, child, i);
      if !res.Forked? { return; }
      i := i + 4096;
    }
    res := Forked;
  }

  method CopyOnePage(k: Kmem, parent: int, child: int, i: nat) returns (res: ForkResult)
    requires i % 4096 == 0 && i < 0x8000_0000
    modifies k
    ensures (k.m, res) == CopyStep(old(k.m), parent, child, i / 4096)
  {
    hide MapStep;
    WalkReads(k.m, parent, i / 4096);
    var w := Vm.WalkPte(k, parent, i, false);
    if w.WalkPanic? { return Panicked; }
    if w.NoSlot? { return Forked; }
    var e := k.m.ram(w.table, w.index);
    if e.lo & 3 == 0 { return Forked; }
    var p := k.Kalloc();
    if p == 0 { return OutOfMemory; }
    k.m := CopyPage(k.m, e.frame, p);
    // mappages of a single page is one round of its loop
    var r := Vm.MapPage(k, child, i, p * 4096, Perm(0, e.lo & 0x3FF));
    res := if r.Mapped? then Forked else if r.NoMemory? then OutOfMemory else Panicked;
  }

  lemma WalkReads(m: Mem, r: int, v: int)
    ensures Walk(m, r, v, false).0 == m
  {}
}
