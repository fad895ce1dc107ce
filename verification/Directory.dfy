/**
 * Directories and paths. A directory is a file of 16-byte entries; the kernel scans the raw blocks below
 * its size, all 32 entries of each, while its meaning is the list of entries in its content.
 */
module Directory {
  import opened Options
  import opened Bytes
  import opened Layout
  import opened Volume

  const SLASH: byte := 47

  // ---------------------------------------------------------------- paths

  /** while (*cp == '/') cp++ */
  function Skip(q: seq<byte>): (r: seq<byte>)
    ensures |r| <= |q| && (r == [] || r[0] != SLASH)
  { if q != [] && q[0] == SLASH then Skip(q[1..]) else q }

  /** The bytes up to the first slash. */
  function Comp(q: seq<byte>): (c: seq<byte>)
    ensures |c| <= |q| && c == q[..|c|] && SLASH !in c
    ensures |c| < |q| ==> q[|c|] == SLASH
  { if q == [] || q[0] == SLASH then [] else [q[0]] + Comp(q[1..]) }

  /** The components in the order in which namei meets them. */
  function Split(q: seq<byte>): seq<seq<byte>>
    decreases |q|
  { var r := Skip(q); if r == [] then [] else [Comp(r)] + Split(r[|Comp(r)|..]) }

  /** `q` cut at every slash, empty pieces included. */
  function Pieces(q: seq<byte>): (ps: seq<seq<byte>>)
    ensures ps != []
  {
    if q == [] then [[]]
    else
      var t := Pieces(q[1..]);
      if q[0] == SLASH then [[]] + t else [[q[0]] + t[0]] + t[1..]
  }

  function NonEmpty(ps: seq<seq<byte>>): seq<seq<byte>>
  { if ps == [] then [] else (if ps[0] == [] then [] else [ps[0]]) + NonEmpty(ps[1..]) }

  /** The path split on '/' with empty parts dropped. */
  function Parts(q: seq<byte>): seq<seq<byte>> { NonEmpty(Pieces(q)) }

  lemma {:induction false} CompIsFirstPiece(q: seq<byte>)
    ensures Pieces(q)[0] == Comp(q) && NonEmpty(Pieces(q)[1..]) == Parts(q[|Comp(q)|..])
  {
    if q != [] && q[0] != SLASH {
      CompIsFirstPiece(q[1..]);
      assert q[|Comp(q)|..] == q[1..][|Comp(q[1..])|..];
    } else if q != [] {
      assert Pieces(q)[1..] == Pieces(q[1..]);
      assert q[0..] == q;
    }
  }

  lemma {:induction false} SkipKeepsParts(q: seq<byte>)
    ensures Parts(Skip(q)) == Parts(q)
  {
    if q != [] && q[0] == SLASH {
      SkipKeepsParts(q[1..]);
      assert Pieces(q)[1..] == Pieces(q[1..]);
    }
  }

  /** Following a path from left to right meets the parts of the path split on '/'. */
  lemma {:induction false} SplitIsParts(q: seq<byte>)
    ensures Split(q) == Parts(q)
    decreases |q|
  {
    SkipKeepsParts(q);
    var r := Skip(q);
    if r != [] {
      CompIsFirstPiece(r);
      SplitIsParts(r[|Comp(r)|..]);
    }
  }

  // ---------------------------------------------------------------- matching one name

  /**
   * The inner loop of namei from `i` on: the first position where the component ends or differs from the
   * name field, at most 14.
   */
  function MatchEnd(q: seq<byte>, f: seq<byte>, i: nat): (r: nat)
    requires i <= |q| && i <= 14 == |f|
    ensures i <= r <= 14 && r <= |q|
    decreases 14 - i
  { if i == 14 || i == |q| || q[i] == SLASH || q[i] != f[i] then i else MatchEnd(q, f, i + 1) }

  /** The test after it. */
  predicate Matches(q: seq<byte>, f: seq<byte>)
    requires |f| == 14
  {
    var i := MatchEnd(q, f, 0);
    (i == |q| || q[i] == SLASH) && (i >= 14 || f[i] == 0)
  }

  lemma {:induction false} MatchEndAgrees(q: seq<byte>, f: seq<byte>, i: nat)
    requires i <= |Comp(q)| && i <= 14 == |f| && 0 !in q && q[..i] == f[..i]
    ensures var r := MatchEnd(q, f, i);
      && r <= |Comp(q)| && q[..r] == f[..r]
      && (r == 14 || r == |Comp(q)| || q[r] != f[r])
      && ((r == |q| || q[r] == SLASH) <==> r == |Comp(q)|)
    decreases 14 - i
  {
    CompStops(q, i);
    if !(i == 14 || i == |q| || q[i] == SLASH || q[i] != f[i]) { MatchEndAgrees(q, f, i + 1); }
  }

  lemma CompStops(q: seq<byte>, i: nat)
    requires i <= |Comp(q)|
    ensures i == |q| || q[i] == SLASH <==> i == |Comp(q)|
  {
    if i < |Comp(q)| { assert q[i] == Comp(q)[i]; }
  }

  lemma {:induction false} NameOfPrefix(f: seq<byte>, r: nat)
    requires r <= |f| && 0 !in f[..r]
    ensures r <= |NameOf(f)|
    ensures r == |f| || f[r] == 0 ==> NameOf(f) == f[..r]
  {
    if r > 0 {
      assert f[0] == f[..r][0];
      assert f[1..][..r - 1] == f[..r][1..];
      NameOfPrefix(f[1..], r - 1);
      assert f[..r] == [f[0]] + f[1..][..r - 1];
    }
  }

  /** The kernel's comparison accepts exactly the entries whose name is the component. */
  lemma MatchesExactly(q: seq<byte>, f: seq<byte>)
    requires |f| == 14 && 0 !in q
    ensures Matches(q, f) <==> NameOf(f) == Comp(q)
    ensures Matches(q, f) ==> MatchEnd(q, f, 0) == |Comp(q)|
  {
    MatchEndAgrees(q, f, 0);
    var r := MatchEnd(q, f, 0);
    assert 0 !in f[..r] by { assert f[..r] == q[..r]; }
    NameOfPrefix(f, r);
    assert r < |Comp(q)| ==> q[r] == Comp(q)[r];
    assert r < |NameOf(f)| ==> f[r] == NameOf(f)[r];
  }

  // ---------------------------------------------------------------- entries

  datatype Entry = Entry(inum: u16, name: seq<byte>)

  function EntryOf(b: seq<byte>): (e: Entry)
    requires |b| == 16
    ensures |e.name| == 14
  { Entry(U16At(b, 0), b[2..]) }

  /** Entry `e` of a sector. */
  function EntryIn(s: Sector, e: nat): Entry
    requires e < 32
  { EntryOf(s[16 * e..16 * e + 16]) }

  predicate Hit(en: Entry, name: seq<byte>) { en.inum != 0 && NameOf(en.name) == name }

  /** The blocks below the size are direct, and on the disk. */
  predicate Readable(disk: Disk, n: Dinode)
  { n.size <= 31 * 512 && forall f :: 0 <= f < 31 && f * 512 < n.size ==> n.addrs[f] < |disk| }

  /** Entries in the blocks below the size. */
  function Slots(size: nat): nat { (size + 511) / 512 * 32 }

  function SlotAt(disk: Disk, n: Dinode, e: nat): Entry
    requires Readable(disk, n) && e < Slots(n.size)
  { assert e / 32 * 512 < n.size; EntryIn(disk[n.addrs[e / 32]], e % 32) }

  /** The scan of namei: the first entry from `e` on that is in use and has the name. */
  function Lookup(disk: Disk, n: Dinode, name: seq<byte>, e: nat): (r: nat)
    requires Readable(disk, n) && e <= Slots(n.size)
    ensures e <= r <= Slots(n.size) && (r < Slots(n.size) ==> Hit(SlotAt(disk, n, r), name))
    ensures forall x :: e <= x < r ==> !Hit(SlotAt(disk, n, x), name)
    decreases Slots(n.size) - e
  { hide SlotAt, Slots, Readable, NameOf; if e == Slots(n.size) || Hit(SlotAt(disk, n, e), name) then e else Lookup(disk, n, name, e + 1) }

  /** The scan of mknod: the first entry not in use. */
  function FreeSlot(disk: Disk, n: Dinode, e: nat): (r: nat)
    requires Readable(disk, n) && e <= Slots(n.size)
    ensures e <= r <= Slots(n.size) && (r < Slots(n.size) ==> SlotAt(disk, n, r).inum == 0)
    ensures forall x :: e <= x < r ==> SlotAt(disk, n, x).inum != 0
    decreases Slots(n.size) - e
  { hide SlotAt, Slots, Readable; if e == Slots(n.size) || SlotAt(disk, n, e).inum == 0 then e else FreeSlot(disk, n, e + 1) }

  // ---------------------------------------------------------------- directories as content

  function EntriesOf(c: seq<byte>): (es: seq<Entry>)
    ensures |es| == |c| / 16
  { seq(|c| / 16, e requires 0 <= e < |c| / 16 => EntryOf(c[16 * e..16 * e + 16])) }

  function IndexOf(es: seq<Entry>, name: seq<byte>, e: nat): (r: nat)
    requires e <= |es|
    ensures e <= r <= |es| && (r < |es| ==> Hit(es[r], name))
    ensures forall x :: e <= x < r ==> !Hit(es[x], name)
    decreases |es| - e
  { if e == |es| || Hit(es[e], name) then e else IndexOf(es, name, e + 1) }

  /** The inode that a list of entries gives to a name. */
  function LookupIn(es: seq<Entry>, name: seq<byte>): (r: Option<u16>)
    ensures r.Some? <==> exists e :: 0 <= e < |es| && Hit(es[e], name)
  { var e := IndexOf(es, name, 0); if e < |es| then Some(es[e].inum) else None }

  /** Every entry below the size is in use and names an allocated inode; beyond it the blocks are zero. */
  ghost predicate DirOk(v: Vol, d: nat)
    requires d < |v.ino|
  {
    && v.ino[d].size % 16 == 0 && v.ino[d].size <= 31 * 512 && Filled(v, d)
    && (forall f :: 0 <= f < 31 && f * 512 < v.ino[d].size ==> ZeroTail(v, d, f))
    && (forall en :: en in EntriesOf(Content(v, d)) ==> 0 < en.inum < |v.ino| && v.ino[en.inum].kind != 0)
  }

  ghost predicate DirsOk(v: Vol)
  { 1 < |v.ino| && v.ino[1].kind == T_DIR && forall d :: 0 <= d < |v.ino| && v.ino[d].kind == T_DIR ==> DirOk(v, d) }

  /** The inode that a directory gives to a name. */
  ghost function NameIn(v: Vol, d: nat, name: seq<byte>): (r: Option<u16>)
    requires d < |v.ino| && DirOk(v, d)
    ensures r.Some? ==> 0 < r.value < |v.ino| && v.ino[r.value].kind != 0
  {
    var es := EntriesOf(Content(v, d));
    assert forall e :: 0 <= e < |es| ==> es[e] in es;
    LookupIn(es, name)
  }

  /** Resolving a path: each part is looked up in the content of the directory reached so far. */
  ghost function Walk(v: Vol, i: nat, parts: seq<seq<byte>>): (r: Option<nat>)
    requires DirsOk(v) && i < |v.ino|
    ensures r.Some? ==> r.value < |v.ino| && (v.ino[i].kind != 0 ==> v.ino[r.value].kind != 0)
    decreases |parts|
  {
    if parts == [] then Some(i)
    else if v.ino[i].kind != T_DIR then None
    else
      var j := NameIn(v, i, parts[0]);
      if j.None? then None else Walk(v, j.value, parts[1..])
  }

  // ---------------------------------------------------------------- the scans read the content

  lemma DirParts(v: Vol, d: nat)
    requires d < |v.ino| && DirOk(v, d)
    ensures Filled(v, d) && Readable(v.disk, v.ino[d]) && v.ino[d].size % 16 == 0
    ensures |EntriesOf(Content(v, d))| == v.ino[d].size / 16 <= Slots(v.ino[d].size)
  {
    forall f | 0 <= f < 31 && f * 512 < v.ino[d].size ensures v.ino[d].addrs[f] < |v.disk| {
      assert BlockOf(v, d, f) == v.ino[d].addrs[f];
    }
  }

  /** Entry `e` of a list of blocks: which block, and where in it. */
  lemma SlotArith(size: nat, e: nat)
    requires e < Slots(size)
    ensures e / 32 * 512 < size && 16 * e == e / 32 * 512 + 16 * (e % 32) && 16 * (e % 32) + 16 <= 512
    ensures 16 * e / 512 == e / 32 && 16 * e % 512 == 16 * (e % 32)
  {}

  lemma SliceOfContent(v: Vol, d: nat, o: nat)
    requires d < |v.ino| && Filled(v, d) && o + 16 <= v.ino[d].size <= 31 * 512 && o % 16 == 0
    ensures v.ino[d].addrs[o / 512] < |v.disk|
    ensures Content(v, d)[o..o + 16] == v.disk[v.ino[d].addrs[o / 512]][o % 512..o % 512 + 16]
  {
    var f := o / 512;
    assert BlockOf(v, d, f) == v.ino[d].addrs[f];
    var c, s := Content(v, d), v.disk[v.ino[d].addrs[f]];
    assert o % 512 + 16 <= 512;
    var l, r := s[o % 512..o % 512 + 16], c[o..o + 16];
    forall x | 0 <= x < 16 ensures l[x] == r[x] {
      assert (o + x) / 512 == f && (o + x) % 512 == o % 512 + x;
    }
  }

  /** A raw entry below the size is the entry of the content, and in use. */
  lemma SlotBelow(v: Vol, d: nat, e: nat)
    requires d < |v.ino| && DirOk(v, d) && e < v.ino[d].size / 16
    ensures Readable(v.disk, v.ino[d]) && e < Slots(v.ino[d].size) && e < |EntriesOf(Content(v, d))|
    ensures SlotAt(v.disk, v.ino[d], e) == EntriesOf(Content(v, d))[e]
    ensures SlotAt(v.disk, v.ino[d], e).inum != 0
  {
    hide DirOk, Content, Filled, Readable, EntryOf, Slots;
    DirParts(v, d);
    SlotArith(v.ino[d].size, e);
    SliceOfContent(v, d, 16 * e);
    EntryUsed(v, d, e);
  }

  lemma EntryUsed(v: Vol, d: nat, e: nat)
    requires d < |v.ino| && DirOk(v, d) && Filled(v, d) && e < |EntriesOf(Content(v, d))|
    ensures var j := EntriesOf(Content(v, d))[e].inum; 0 < j < |v.ino| && v.ino[j].kind != 0
  { assert EntriesOf(Content(v, d))[e] in EntriesOf(Content(v, d)); }

  /** A raw entry at or beyond the size is zero. */
  lemma SlotBeyond(v: Vol, d: nat, e: nat)
    requires d < |v.ino| && DirOk(v, d) && v.ino[d].size / 16 <= e < Slots(v.ino[d].size)
    ensures Readable(v.disk, v.ino[d]) && SlotAt(v.disk, v.ino[d], e).inum == 0
    ensures v.disk[v.ino[d].addrs[e / 32]][16 * (e % 32)..16 * (e % 32) + 16] == seq(16, _ => 0)
  {
    DirParts(v, d);
    SlotArith(v.ino[d].size, e);
    var f, o := e / 32, 16 * (e % 32);
    assert BlockOf(v, d, f) == v.ino[d].addrs[f] && ZeroTail(v, d, f);
    var s := v.disk[v.ino[d].addrs[f]];
    forall x | o <= x < o + 16 ensures s[x] == 0 {
      assert v.ino[d].size <= f * 512 + x;
    }
    assert s[o..o + 16] == seq(16, _ => 0);
  }

  /** The scan of namei finds what the content says. */
  lemma ScanFindsName(v: Vol, d: nat, name: seq<byte>)
    requires d < |v.ino| && DirOk(v, d)
    ensures Readable(v.disk, v.ino[d])
    ensures var n := v.ino[d]; var e := Lookup(v.disk, n, name, 0);
      NameIn(v, d, name) == if e < Slots(n.size) then Some(SlotAt(v.disk, n, e).inum) else None
  {
    hide DirOk, EntriesOf, Content, Filled, Readable, SlotAt, Slots, NameOf;
    DirParts(v, d);
    var n, es := v.ino[d], EntriesOf(Content(v, d));
    var e, r := Lookup(v.disk, n, name, 0), IndexOf(es, name, 0);
    if r < |es| { SlotBelow(v, d, r); }
    if e < |es| { SlotBelow(v, d, e); }
    if |es| <= e < Slots(n.size) { SlotBeyond(v, d, e); }
  }

  /** The first entry not in use is the one at the size; the blocks have one exactly when it is not aligned. */
  lemma FreeSlotAtEnd(v: Vol, d: nat)
    requires d < |v.ino| && DirOk(v, d)
    ensures Readable(v.disk, v.ino[d])
    ensures var n := v.ino[d];
      && FreeSlot(v.disk, n, 0) == n.size / 16
      && (n.size / 16 < Slots(n.size) <==> n.size % 512 != 0)
  {
    hide DirOk, EntriesOf, Content, Filled, Readable, SlotAt;
    DirParts(v, d);
    var n, r := v.ino[d], FreeSlot(v.disk, v.ino[d], 0);
    if r < n.size / 16 {
      SlotBelow(v, d, r);
    } else if n.size / 16 < r {
      SlotBeyond(v, d, n.size / 16);
    }
  }
}
