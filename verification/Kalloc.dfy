/**
 * kernel/kalloc.c: physical pages and the free list threaded through them.
 *
 * A page is named by its frame number (its address divided by 4096); frame 0 is the null pointer.
 */
module Kalloc {
  /** A 64-bit memory word as its fields [63:48], [47:12] and [11:0] (see module Arm). */
  datatype Word = Word(hi: bv16, frame: int, lo: bv12)

  /** The word that holds the address of page `p`. */
  function Ptr(p: int): Word { Word(0, p, 0) }

  /** `ram(p, i)` is word i of page p; `head` is kmem.freelist. */
  datatype Mem = Mem(ram: (int, int) -> Word, head: int)

  function Store(m: Mem, p: int, i: int, v: Word): Mem
  { m.(ram := (q, j) => if q == p && j == i then v else m.ram(q, j)) }

  /** No word of the page reads as a valid descriptor. */
  ghost predicate Clean(m: Mem, p: int) { forall i :: m.ram(p, i).lo & 3 == 0 }

  // ---------------------------------------------------------------- the free list

  function NextFree(free: seq<int>, k: nat): int { if k + 1 < |free| then free[k + 1] else 0 }

  ghost predicate Distinct(s: seq<int>) { forall i, j :: 0 <= i < j < |s| ==> s[i] != s[j] }

  /** `free` is exactly the list reached from `head` through the words 0 of its pages. */
  ghost predicate FreeList(m: Mem, free: seq<int>)
  {
    && Distinct(free)
    && m.head == (if free == [] then 0 else free[0])
    && (forall k :: 0 <= k < |free| ==> free[k] > 0)
    && (forall k :: 0 <= k < |free| ==> m.ram(free[k], 0) == Ptr(NextFree(free, k)))
  }

  function AfterKalloc(m: Mem): Mem
  { if m.head == 0 then m else m.(head := m.ram(m.head, 0).frame) }

  function AfterKfree(m: Mem, p: int): Mem
  { Store(m, p, 0, Ptr(m.head)).(head := p) }

  /** kalloc pops the list and leaves every page as it was. */
  lemma KallocPops(m: Mem, free: seq<int>)
    requires FreeList(m, free) && free != []
    ensures m.head == free[0] && FreeList(AfterKalloc(m), free[1..])
  {
    var m' := AfterKalloc(m);
    assert m.ram(free[0], 0) == Ptr(NextFree(free, 0));
    forall k | 0 <= k < |free[1..]| ensures m'.ram(free[1..][k], 0) == Ptr(NextFree(free[1..], k)) {
      assert free[1..][k] == free[k + 1];
    }
  }

  /** kfree of a page that is not on the list pushes it; every other page keeps its words. */
  lemma KfreePushes(m: Mem, free: seq<int>, p: int)
    requires FreeList(m, free) && p > 0 && p !in free
    ensures FreeList(AfterKfree(m, p), [p] + free)
    ensures forall q, i :: q != p || i != 0 ==> AfterKfree(m, p).ram(q, i) == m.ram(q, i)
  {
    var m' := AfterKfree(m, p);
    var free' := [p] + free;
    forall k | 0 <= k < |free'| ensures m'.ram(free'[k], 0) == Ptr(NextFree(free', k)) {
      if k > 0 { assert free'[k] == free[k - 1]; }
    }
  }

  // ---------------------------------------------------------------- freerange

  function Down(lo: int, hi: int): (s: seq<int>)
    ensures |s| == if lo < hi then hi - lo else 0
    ensures forall k :: 0 <= k < |s| ==> s[k] == hi - 1 - k
    decreases hi - lo
  { if lo < hi then [hi - 1] + Down(lo, hi - 1) else [] }

  /** The pages `[lo, hi)` freed in ascending order. */
  function AfterFreerange(m: Mem, lo: int, hi: int): Mem
    decreases hi - lo
  { if lo < hi then AfterKfree(AfterFreerange(m, lo, hi - 1), hi - 1) else m }

  /** One more page freed, above those of the range so far. */
  lemma FreerangeStep(m: Mem, m': Mem, lo: int, hi: int)
    requires 0 < lo < hi && FreeList(m, Down(lo, hi - 1)) && m' == AfterKfree(m, hi - 1)
    ensures FreeList(m', Down(lo, hi))
  {
    hide FreeList, AfterKfree;
    var s := Down(lo, hi - 1);
    assert Down(lo, hi) == [hi - 1] + s;
    assert hi - 1 !in s;
    KfreePushes(m, s, hi - 1);
  }

  lemma NothingFreed(m: Mem, lo: int, hi: int)
    requires m.head == 0 && hi <= lo
    ensures FreeList(AfterFreerange(m, lo, hi), Down(lo, hi))
  {}

  /** freerange builds a list of exactly the pages of the range, each once, the last one first. */
  lemma {:induction false} FreerangeBuilds(m: Mem, lo: int, hi: int)
    requires m.head == 0 && 0 < lo
    ensures FreeList(AfterFreerange(m, lo, hi), Down(lo, hi))
    decreases hi - lo
  {
    hide FreeList, AfterKfree, Down;
    if lo < hi {
      FreerangeBuilds(m, lo, hi - 1);
      FreerangeStep(AfterFreerange(m, lo, hi - 1), AfterFreerange(m, lo, hi), lo, hi);
    } else {
      NothingFreed(m, lo, hi);
    }
  }

  /** freerange writes only the words 0 of the pages of the range. */
  lemma {:induction false} FreerangeFrame(m: Mem, lo: int, hi: int, p: int, i: int)
    requires i != 0 || p < lo || hi <= p
    ensures AfterFreerange(m, lo, hi).ram(p, i) == m.ram(p, i)
    decreases hi - lo
  {
    if lo < hi { FreerangeFrame(m, lo, hi - 1, p, i); }
  }

  ghost predicate AllClean(m: Mem, free: seq<int>) { forall p :: p in free ==> Clean(m, p) }

  /** From zeroed RAM every free page reads as an empty table: its only word that is not zero is the link. */
  lemma FreshPagesClean(m: Mem, lo: int, hi: int)
    requires m.head == 0 && 0 < lo
    requires forall p, i :: m.ram(p, i) == Word(0, 0, 0)
    ensures AllClean(AfterFreerange(m, lo, hi), Down(lo, hi))
  {
    FreerangeBuilds(m, lo, hi);
    var m', s := AfterFreerange(m, lo, hi), Down(lo, hi);
    forall p, i | p in s ensures m'.ram(p, i).lo & 3 == 0 {
      if i == 0 {
        var k :| 0 <= k < |s| && s[k] == p;
        assert m'.ram(s[k], 0) == Ptr(NextFree(s, k));
      } else {
        FreerangeFrame(m, lo, hi, p, i);
      }
    }
  }

  // ---------------------------------------------------------------- runs

  datatype Op = Alloc | Free(p: int)

  /** Memory, the pages handed out and not yet returned, and the range of pages that kfree accepts. */
  datatype Heap = Heap(m: Mem, owned: set<int>, lo: int, hi: int)

  predicate InRange(h: Heap, p: int) { h.lo <= p < h.hi }

  /** Outside its range kfree panics and changes nothing. */
  function Do(h: Heap, op: Op): Heap
  {
    match op
    case Alloc => h.(m := AfterKalloc(h.m), owned := if h.m.head == 0 then h.owned else h.owned + {h.m.head})
    case Free(p) => if InRange(h, p) then h.(m := AfterKfree(h.m, p), owned := h.owned - {p}) else h
  }

  function Run(h: Heap, ops: seq<Op>): Heap
    decreases |ops|
  { if ops == [] then h else Run(Do(h, ops[0]), ops[1..]) }

  /** Every page that kfree takes is owned. */
  predicate Owns(h: Heap, op: Op) { op.Free? && InRange(h, op.p) ==> op.p in h.owned }

  predicate Disciplined(h: Heap, ops: seq<Op>)
    decreases |ops|
  { ops == [] || (Owns(h, ops[0]) && Disciplined(Do(h, ops[0]), ops[1..])) }

  /** Every page of the range is either once on the free list or owned, never both. */
  ghost predicate Partition(h: Heap, free: seq<int>)
  {
    && FreeList(h.m, free) && 0 < h.lo
    && (forall p :: InRange(h, p) <==> p in free || p in h.owned)
    && (forall p :: p in free ==> p !in h.owned)
  }

  lemma AllocPartition(h: Heap, free: seq<int>)
    requires Partition(h, free) && free != []
    ensures Partition(Do(h, Alloc), free[1..])
  {
    KallocPops(h.m, free);
    FirstOnlyOnce(h.m, free);
    hide FreeList, AfterKalloc;
    FirstAndRest(free);
  }

  lemma FirstAndRest(free: seq<int>)
    requires free != []
    ensures forall p :: p in free <==> p == free[0] || p in free[1..]
  { assert free == [free[0]] + free[1..]; }

  lemma FirstOnlyOnce(m: Mem, free: seq<int>)
    requires FreeList(m, free) && free != []
    ensures free[0] !in free[1..] && m.head == free[0] != 0
  {}

  lemma NoneToAlloc(h: Heap)
    requires Partition(h, [])
    ensures Do(h, Alloc) == h
  {}

  lemma FreePartition(h: Heap, free: seq<int>, p: int)
    requires Partition(h, free) && InRange(h, p) && p in h.owned
    ensures Partition(Do(h, Free(p)), [p] + free)
  {
    KfreePushes(h.m, free, p);
    hide FreeList;
  }

  lemma DoKeepsPartition(h: Heap, free: seq<int>, op: Op) returns (free': seq<int>)
    requires Partition(h, free) && Owns(h, op)
    ensures Partition(Do(h, op), free')
  {
    hide Partition;
    free' := free;
    match op
    case Free(p) =>
      if InRange(h, p) {
        FreePartition(h, free, p);
        free' := [p] + free;
      }
    case Alloc =>
      if free == [] {
        NoneToAlloc(h);
      } else {
        AllocPartition(h, free);
        free' := free[1..];
      }
  }

  ghost predicate Partitioned(h: Heap) { exists free :: Partition(h, free) }

  /** Every sequence of kalloc and kfree by callers that return only what they own keeps the partition. */
  lemma {:induction false} RunKeepsPartition(h: Heap, free: seq<int>, ops: seq<Op>)
    requires Partition(h, free) && Disciplined(h, ops)
    ensures Partitioned(Run(h, ops))
    decreases |ops|
  {
    hide Partition, Do;
    if ops != [] {
      var free1 := DoKeepsPartition(h, free, ops[0]);
      RunKeepsPartition(Do(h, ops[0]), free1, ops[1..]);
    }
  }

  /** After kfree of page `j` of the list, following the links goes through pages 0 to `k` of the old list. */
  lemma {:induction false} RingFollows(m: Mem, free: seq<int>, free': seq<int>, j: nat, k: nat)
    requires FreeList(m, free) && k <= j < |free| && FreeList(AfterKfree(m, free[j]), free')
    ensures k + 1 < |free'| && free'[k + 1] == free[k]
  {
    var m' := AfterKfree(m, free[j]);
    assert free' != [] && free'[0] == free[j];
    if k == 0 {
      assert m'.ram(free'[0], 0) == Ptr(NextFree(free', 0));
    } else {
      RingFollows(m, free, free', j, k - 1);
      assert free[k - 1] != free[j];
      assert m'.ram(free'[k], 0) == Ptr(NextFree(free', k));
      assert m.ram(free[k - 1], 0) == Ptr(NextFree(free, k - 1));
    }
  }

  /** kfree of a page that is on the list closes the links to a ring, so that no list describes them. */
  lemma FreedTwiceIsNoList(m: Mem, free: seq<int>, p: int, free': seq<int>)
    requires FreeList(m, free) && p in free
    ensures !FreeList(AfterKfree(m, p), free')
  {
    if FreeList(AfterKfree(m, p), free') {
      var j :| 0 <= j < |free| && free[j] == p;
      RingFollows(m, free, free', j, j);
    }
  }

  /** One call keeps free and owned pages a partition exactly when it is not a kfree of a page in range that is not owned. */
  lemma FreeKeepsExactly(h: Heap, free: seq<int>, op: Op)
    requires Partition(h, free)
    ensures Partitioned(Do(h, op)) <==> Owns(h, op)
  {
    if Owns(h, op) {
      var free' := DoKeepsPartition(h, free, op);
    } else if Partitioned(Do(h, op)) {
      var free' :| Partition(Do(h, op), free');
      FreedTwiceIsNoList(h.m, free, op.p, free');
    }
  }

  /** After every prefix of the run free and owned pages are a partition. */
  ghost predicate StaysPartitioned(h: Heap, ops: seq<Op>)
    decreases |ops|
  { Partitioned(h) && (ops == [] || StaysPartitioned(Do(h, ops[0]), ops[1..])) }

  /**
   * Over every sequence of kalloc and kfree, free and owned pages stay a partition exactly when every page
   * that kfree takes is owned at that moment.
   */
  lemma {:induction false} RunKeepsExactly(h: Heap, free: seq<int>, ops: seq<Op>)
    requires Partition(h, free)
    ensures StaysPartitioned(h, ops) <==> Disciplined(h, ops)
    decreases |ops|
  {
    hide Partition, Do, Owns;
    assert Partitioned(h);
    if ops != [] {
      FreeKeepsExactly(h, free, ops[0]);
      if Owns(h, ops[0]) {
        var free1 := DoKeepsPartition(h, free, ops[0]);
        RunKeepsExactly(Do(h, ops[0]), free1, ops[1..]);
      } else {
        StaysStarts(Do(h, ops[0]), ops[1..]);
      }
    }
  }

  lemma StaysStarts(h: Heap, ops: seq<Op>)
    ensures StaysPartitioned(h, ops) ==> Partitioned(h)
  {}

  /** Booted by freerange, the pages of the range are all free. */
  lemma FreerangePartitions(m: Mem, lo: int, hi: int)
    requires m.head == 0 && 0 < lo
    ensures Partition(Heap(AfterFreerange(m, lo, hi), {}, lo, hi), Down(lo, hi))
  {
    FreerangeBuilds(m, lo, hi);
    var s := Down(lo, hi);
    forall p | lo <= p < hi ensures p in s { assert s[hi - 1 - p] == p; }
  }

  /** What then goes wrong first: a page freed twice is handed out twice. */
  lemma DoubleFreeHandsOutTwice(m: Mem, p: int)
    requires p > 0
    ensures var m1 := AfterKfree(AfterKfree(m, p), p);
      m1.head == p && AfterKalloc(m1).head == p && AfterKalloc(AfterKalloc(m1)).head == p
  {}

  /** A freed page is clean again only if its words 1 to 511 were: kfree writes word 0 alone. */
  lemma FreedPageClean(m: Mem, p: int)
    ensures Clean(AfterKfree(m, p), p) <==> forall i :: i != 0 ==> m.ram(p, i).lo & 3 == 0
  {
    var m' := AfterKfree(m, p);
    assert m'.ram(p, 0) == Ptr(m.head);
    forall i | i != 0 ensures m'.ram(p, i) == m.ram(p, i) {}
  }

  // ---------------------------------------------------------------- kalloc.c

  class Kmem {
    var m: Mem
    const end: nat
    const phystop: nat

    constructor (ram: (int, int) -> Word, end: nat, phystop: nat)
      ensures m == Mem(ram, 0) && this.end == end && this.phystop == phystop
    { m := Mem(ram, 0); this.end, this.phystop := end, phystop; }

    /** kfree on a byte address; false is the panic. */
    method Kfree(pa: nat) returns (ok: bool)
      modifies this
      ensures ok <==> pa % 4096 == 0 && end <= pa < phystop
      ensures m == if ok then AfterKfree(old(m), pa / 4096) else old(m)
    {
      if pa % 4096 != 0 || pa < end || pa >= phystop { return false; }
      var p := pa / 4096;
      m := Store(m, p, 0, Ptr(m.head));
      m := m.(head := p);
      ok := true;
    }

    /** kalloc: the frame number of the page, or 0. */
    method Kalloc() returns (p: int)
      modifies this
      ensures p == old(m).head && m == AfterKalloc(old(m))
    {
      p := m.head;
      if p != 0 { m := m.(head := m.ram(p, 0).frame); }
    }

    /** freerange frees exactly the whole pages between its bounds. */
    method Freerange(start: nat, stop: nat)
      requires end <= start && stop <= phystop
      modifies this
      ensures m == AfterFreerange(old(m), (start + 4095) / 4096, stop / 4096)
    {
      var p := (start + 4095) / 4096 * 4096;
      ghost var lo := (start + 4095) / 4096;
      while p + 4096 <= stop
        invariant p % 4096 == 0 && lo <= p / 4096
        invariant lo < p / 4096 ==> p <= stop
        invariant m == AfterFreerange(old(m), lo, p / 4096)
      {
        var ok := Kfree(p);
        p := p + 4096;
      }
      if lo < p / 4096 { assert p / 4096 == stop / 4096; }
    }
  }
}
