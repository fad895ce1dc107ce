/**
 * What mappages costs: the table positions on the way to a set of pages that have no table yet. walk takes
 * one page of the free list for each of them and for nothing else.
 */
module TableCost {
  import opened Kalloc
  import opened PageTable

  /** The positions of the tables that translate the pages `xs` of space `r`. */
  function TablesOf(r: int, xs: set<int>): set<Node>
  { (set x | x in xs :: Mid(r, PX2(x))) + (set x | x in xs :: Low(r, PX2(x), PX1(x))) }

  /** Those of them where no table stands. */
  function Missing(m: Mem, ns: set<Node>): set<Node> { set n | n in ns && PathTo(m, n).None? }

  /** Tables that have to be allocated to map the pages `xs`. */
  function Need(m: Mem, r: int, xs: set<int>): nat { |Missing(m, TablesOf(r, xs))| }

  lemma NeedOfOne(m: Mem, r: int, a: int)
    ensures Need(m, r, {a}) == Cost(m, r, a)
  {
    var mid, low := Mid(r, PX2(a)), Low(r, PX2(a), PX1(a));
    assert TablesOf(r, {a}) == {mid, low};
    assert PathTo(m, low).Some? ==> PathTo(m, mid).Some?;
    assert Missing(m, {mid, low})
        == (if PathTo(m, mid).None? then {mid} else {}) + (if PathTo(m, low).None? then {low} else {});
  }

  lemma MissingSplits(m: Mem, m1: Mem, ns: set<Node>, ks: set<Node>)
    requires forall n :: n in ks ==> (PathTo(m1, n).None? <==> PathTo(m, n).None? && n !in ns)
    ensures |Missing(m, ns + ks)| == |Missing(m, ns)| + |Missing(m1, ks)|
  {
    hide PathTo;
    var one, rest := Missing(m, ns), Missing(m1, ks);
    assert Missing(m, ns + ks) == one + rest;
    assert one !! rest;
  }

  lemma PositionsOf(r: int, a: int, xs: set<int>)
    ensures TablesOf(r, {a} + xs) == TablesOf(r, {a}) + TablesOf(r, xs)
    ensures forall n :: n in TablesOf(r, {a}) <==> n == Mid(r, PX2(a)) || n == Low(r, PX2(a), PX1(a))
    ensures forall n :: n in TablesOf(r, xs) ==> n.r == r
  { hide PX2, PX1; }

  /** Mapping one page first leaves exactly the missing tables of the others. */
  lemma NeedSplits(m: Mem, m1: Mem, roots: set<int>, r: int, a: int, xs: set<int>)
    requires r in roots && GrownTo(m, m1, roots, r, a)
    ensures Need(m, r, {a} + xs) == Cost(m, r, a) + Need(m1, r, xs)
  {
    hide PathTo, Cost, TablesOf, Missing, PX2, PX1;
    NeedOfOne(m, r, a);
    PositionsOf(r, a, xs);
    MissingSplits(m, m1, TablesOf(r, {a}), TablesOf(r, xs));
  }

  /** Page numbers from `lo` to `hi` - 1. */
  function Pages(lo: int, hi: int): (s: set<int>)
    ensures forall x :: x in s <==> lo <= x < hi
    decreases hi - lo
  { if lo < hi then {lo} + Pages(lo + 1, hi) else {} }

  lemma PagesSplit(a: int, hi: int)
    requires a < hi
    ensures Pages(a, hi) == {a} + Pages(a + 1, hi)
  {}

  lemma NeedNothing(m: Mem, r: int)
    ensures Need(m, r, {}) == 0
  { assert TablesOf(r, {}) == {} && Missing(m, {}) == {}; }

  /**
   * mappages on unmapped pages below MAXVA: it runs out of memory exactly when fewer pages are free than
   * tables are missing, and otherwise takes one page for each missing table.
   */
  lemma {:induction false} MapLoopCost(m: Mem, roots: set<int>, free: seq<int>, data: set<int>,
                                       r: int, a: int, last: int, p: int, perm: Perm)
    returns (free': seq<int>)
    requires Ready(m, roots, free, data) && r in roots && 0 <= a <= last < MAXPAGE && RangeFree(m, r, a, last + 1)
    ensures var (m', res) := MapLoop(m, r, a, last, p, perm); var need := Need(m, r, Pages(a, last + 1));
      && Ready(m', roots, free', data)
      && (res.Mapped? <==> need <= |free|) && (res.NoMemory? <==> |free| < need)
      && (res.Mapped? ==> free' == free[need..])
    decreases last - a
  {
    hide Ready, Lookup, MapStep, Need, Pages, Cost, GrownTo;
    free' := MapStepRefines(m, roots, free, data, r, a, p, perm);
    var (m1, res1) := MapStep(m, r, a, p, perm);
    PagesSplit(a, last + 1);
    if res1.Mapped? {
      NeedSplits(m, m1, roots, r, a, Pages(a + 1, last + 1));
      if a == last {
        assert Pages(a + 1, last + 1) == {} by { NoPages(a + 1); }
        NeedNothing(m1, r);
      } else {
        StillFree(m, m1, roots, r, a, last + 1, LeafEntry(p, perm));
        var free1 := free';
        free' := MapLoopCost(m1, roots, free1, data, r, a + 1, last, p + 1, perm);
        if MapLoop(m1, r, a + 1, last, p + 1, perm).1.Mapped? {
          assert free' == free[Cost(m, r, a) + Need(m1, r, Pages(a + 1, last + 1))..];
        }
      }
    } else {
      NeedAtLeast(m, r, a, Pages(a + 1, last + 1));
    }
  }

  lemma NoPages(a: int)
    ensures Pages(a, a) == {}
  {}

  lemma StillFree(m: Mem, m1: Mem, roots: set<int>, r: int, a: int, stop: int, v: Word)
    requires r in roots && 0 <= a && RangeFree(m, r, a, stop) && OneMapped(m, m1, roots, r, a, v)
    ensures RangeFree(m1, r, a + 1, stop)
  {
    hide Lookup;
    forall x | a + 1 <= x < stop && x < MAXPAGE ensures Lookup(m1, r, x).None? {
      assert Lookup(m1, r, x) == Lookup(m, r, x);
    }
  }

  lemma NeedAtLeast(m: Mem, r: int, a: int, xs: set<int>)
    ensures Cost(m, r, a) <= Need(m, r, {a} + xs)
  {
    NeedOfOne(m, r, a);
    hide PathTo, Cost;
    assert TablesOf(r, {a} + xs) == TablesOf(r, {a}) + TablesOf(r, xs);
    SubsetSize(Missing(m, TablesOf(r, {a})), Missing(m, TablesOf(r, {a} + xs)));
  }

  lemma SubsetSize<T>(s: set<T>, t: set<T>)
    requires s <= t
    ensures |s| <= |t|
  { assert t == s + (t - s); }

  /** Two pages of one level-0 table need no more than one of them. */
  lemma NeedOfPair(m: Mem, r: int, a: int, b: int)
    requires PX2(a) == PX2(b) && PX1(a) == PX1(b)
    ensures Need(m, r, {a, b}) == Cost(m, r, a)
  {
    hide PX2, PX1;
    assert TablesOf(r, {a, b}) == TablesOf(r, {a});
    NeedOfOne(m, r, a);
  }
}
