/**
 * A disk together with the inodes in force, seen as files: which sector each block slot of each
 * inode owns, and the bytes of each file. The image builder and the kernel both work on volumes;
 * an inode in force is the one in memory while it is being changed and the one on disk otherwise.
 */
module Volume {
  import opened Bytes
  import opened Layout

  datatype Vol = Vol(disk: Disk, ino: seq<Dinode>)

  /** A place that can own a sector: a direct slot, the indirect slot, an entry of the indirect sector. */
  datatype Slot = Direct(i: nat, k: nat) | Ind(i: nat) | Via(i: nat, k: nat)

  predicate Exists(v: Vol, s: Slot)
  { s.i < |v.ino| && (s.Direct? ==> s.k < 31) && (s.Via? ==> s.k < 128) }

  /** The sector a slot owns, 0 for none. */
  function Ref(v: Vol, s: Slot): u32
    requires Exists(v, s)
  {
    match s
    case Direct(i, k) => v.ino[i].addrs[k]
    case Ind(i) => v.ino[i].addrs[31]
    case Via(i, k) =>
      var p := v.ino[i].addrs[31];
      if 0 < p < |v.disk| then U32At(v.disk[p], 4 * k) else 0
  }

  /** The slot of file block `f`. */
  function SlotOf(i: nat, f: nat): Slot { if f < 31 then Direct(i, f) else Via(i, f - 31) }

  /** Sector of file block `f`. */
  function BlockOf(v: Vol, i: nat, f: nat): u32
    requires i < |v.ino| && f < 159
  { Ref(v, SlotOf(i, f)) }

  // ---------------------------------------------------------------- ownership

  /** No sector is owned twice. */
  ghost predicate OwnedOnce(v: Vol)
  {
    forall s, t :: Exists(v, s) && Exists(v, t) && Ref(v, s) == Ref(v, t) != 0 ==> s == t
  }

  /** Every owned sector lies in `[lo, hi)`. */
  ghost predicate InRange(v: Vol, lo: nat, hi: nat)
  { forall s :: Exists(v, s) && Ref(v, s) != 0 ==> lo <= Ref(v, s) < hi }

  ghost predicate Sound(v: Vol, lo: nat, hi: nat)
  { 0 < lo && hi <= |v.disk| && OwnedOnce(v) && InRange(v, lo, hi) }

  ghost predicate Unowned(v: Vol, b: nat)
  { forall s :: Exists(v, s) ==> Ref(v, s) != b }

  ghost predicate SameRefs(v: Vol, v': Vol)
  { |v'.ino| == |v.ino| && forall s :: Exists(v, s) ==> Ref(v', s) == Ref(v, s) }

  // ---------------------------------------------------------------- contents

  /** All blocks below the size are present. */
  ghost predicate Filled(v: Vol, i: nat)
    requires i < |v.ino|
  {
    && v.ino[i].size <= 159 * 512
    && forall f :: 0 <= f < 159 && f * 512 < v.ino[i].size ==> 0 < BlockOf(v, i, f) < |v.disk|
  }

  function ByteAt(v: Vol, i: nat, x: nat): byte
    requires i < |v.ino| && x / 512 < 159 && BlockOf(v, i, x / 512) < |v.disk|
  { v.disk[BlockOf(v, i, x / 512)][x % 512] }

  /** The bytes of file `i`. */
  ghost function Content(v: Vol, i: nat): (c: seq<byte>)
    requires i < |v.ino| && Filled(v, i)
    ensures |c| == v.ino[i].size
  { seq(v.ino[i].size, x requires 0 <= x < v.ino[i].size => assert 0 < BlockOf(v, i, x / 512) < |v.disk|; ByteAt(v, i, x)) }

  /** Beyond the size block `f` is zero. */
  ghost predicate ZeroTail(v: Vol, i: nat, f: nat)
    requires i < |v.ino| && f < 159
  {
    0 < BlockOf(v, i, f) < |v.disk| ==>
      forall x :: 0 <= x < 512 && v.ino[i].size <= f * 512 + x ==> v.disk[BlockOf(v, i, f)][x] == 0
  }

  /** The direct blocks of inode `j` hold the same bytes. */
  ghost predicate SameBlocks(v: Vol, v': Vol, j: nat)
    requires j < |v.ino|
  {
    && |v'.disk| == |v.disk|
    && forall f :: 0 <= f < 31 && 0 < v.ino[j].addrs[f] < |v.disk| ==> v'.disk[v.ino[j].addrs[f]] == v.disk[v.ino[j].addrs[f]]
  }

  // ---------------------------------------------------------------- writing a data block

  /** Writing a sector that no indirect slot owns changes no reference. */
  lemma WriteKeepsRefs(v: Vol, b: nat, s: Sector)
    requires b < |v.disk|
    requires forall i :: 0 <= i < |v.ino| ==> Ref(v, Ind(i)) != b
    ensures SameRefs(v, v.(disk := v.disk[b := s]))
  {
    var v' := v.(disk := v.disk[b := s]);
    forall t | Exists(v, t) ensures Ref(v', t) == Ref(v, t) {
      assert Ref(v, Ind(t.i)) != b;
    }
  }

  /** Writing block `f` of file `i` changes those bytes of that file and no byte of any other. */
  lemma WriteBlock(v: Vol, lo: nat, hi: nat, i: nat, f: nat, s: Sector, j: nat)
    requires Sound(v, lo, hi) && i < |v.ino| && f < 159 && BlockOf(v, i, f) != 0
    requires j < |v.ino| && Filled(v, j)
    ensures var b := BlockOf(v, i, f);
      var v' := v.(disk := v.disk[b := s]);
      && SameRefs(v, v') && Filled(v', j)
      && |Content(v', j)| == |Content(v, j)|
      && forall x :: 0 <= x < |Content(v, j)| ==>
           Content(v', j)[x] == if j == i && x / 512 == f then s[x % 512] else Content(v, j)[x]
  {
    var b := BlockOf(v, i, f);
    var v' := v.(disk := v.disk[b := s]);
    assert Exists(v, SlotOf(i, f));
    forall k | 0 <= k < |v.ino| ensures Ref(v, Ind(k)) != b { assert Exists(v, Ind(k)); }
    WriteKeepsRefs(v, b, s);
    forall g | 0 <= g < 159 && g * 512 < v.ino[j].size ensures BlockOf(v', j, g) == BlockOf(v, j, g) {
      assert Exists(v, SlotOf(j, g));
    }
    forall x | 0 <= x < |Content(v, j)|
      ensures Content(v', j)[x] == if j == i && x / 512 == f then s[x % 512] else Content(v, j)[x]
    {
      var g := x / 512;
      assert 0 <= g < 159 && g * 512 < v.ino[j].size;
      assert BlockOf(v', j, g) == BlockOf(v, j, g);
      if BlockOf(v, j, g) == b { assert SlotOf(j, g) == SlotOf(i, f); }
    }
  }

  // ---------------------------------------------------------------- attaching a sector

  function SetAddr(v: Vol, i: nat, k: nat, b: u32): Vol
    requires i < |v.ino| && k < 32
  { v.(ino := v.ino[i := v.ino[i].(addrs := v.ino[i].addrs[k := b])]) }

  /** An unowned sector attached to a slot is owned by that slot alone. */
  ghost predicate Attached(v: Vol, v': Vol, s: Slot, b: nat)
  {
    && |v'.ino| == |v.ino| && |v'.disk| == |v.disk|
    && (forall i :: 0 <= i < |v.ino| ==> v'.ino[i].size == v.ino[i].size)
    && forall t :: Exists(v, t) ==> Ref(v', t) == if t == s then b else Ref(v, t)
  }

  lemma AttachDirect(v: Vol, i: nat, k: nat, b: u32)
    requires i < |v.ino| && k < 31
    ensures Attached(v, SetAddr(v, i, k, b), Direct(i, k), b)
  {}

  /** The indirect sector must be zero when it is attached: its entries then own nothing. */
  lemma AttachIndirect(v: Vol, i: nat, b: u32)
    requires i < |v.ino| && v.ino[i].addrs[31] == 0 && 0 < b < |v.disk| && v.disk[b] == ZeroSector()
    ensures Attached(v, SetAddr(v, i, 31, b), Ind(i), b)
  {
    var v' := SetAddr(v, i, 31, b);
    forall t | Exists(v, t) ensures Ref(v', t) == if t == Ind(i) then b else Ref(v, t) {
      if t.Via? && t.i == i { assert U32At(v.disk[b], 4 * t.k) == 0; }
    }
  }

  function SetVia(v: Vol, i: nat, k: nat, b: u32): Vol
    requires i < |v.ino| && k < 128 && v.ino[i].addrs[31] < |v.disk|
  {
    var p := v.ino[i].addrs[31];
    v.(disk := v.disk[p := Splice(v.disk[p], 4 * k, U32Bytes(b))])
  }

  lemma AttachVia(v: Vol, lo: nat, hi: nat, i: nat, k: nat, b: u32)
    requires Sound(v, lo, hi) && i < |v.ino| && k < 128 && v.ino[i].addrs[31] != 0
    ensures v.ino[i].addrs[31] < |v.disk|
    ensures Attached(v, SetVia(v, i, k, b), Via(i, k), b)
  {
    assert Ref(v, Ind(i)) != 0;
    var p, v' := v.ino[i].addrs[31], SetVia(v, i, k, b);
    forall t | Exists(v, t) ensures Ref(v', t) == if t == Via(i, k) then b else Ref(v, t) {
      if t.Via? {
        if t.i == i {
          SpliceU32(v.disk[p], 4 * k, b);
        } else {
          assert Ref(v, Ind(t.i)) != p || Ind(t.i) == Ind(i);
        }
      }
    }
  }

  lemma AttachSound(v: Vol, v': Vol, lo: nat, hi: nat, s: Slot, b: nat, hi': nat)
    requires Sound(v, lo, hi) && Exists(v, s) && Attached(v, v', s, b) && Unowned(v, b)
    requires lo <= b < hi' && hi <= hi' <= |v.disk|
    ensures Sound(v', lo, hi')
  {}

  /** Attaching a sector to an empty slot changes no byte of any file. */
  lemma AttachContent(v: Vol, v': Vol, lo: nat, hi: nat, s: Slot, b: nat, j: nat)
    requires Sound(v, lo, hi) && Exists(v, s) && Ref(v, s) == 0 && Attached(v, v', s, b) && b != 0
    requires forall c :: 0 <= c < |v.disk| ==>
               v'.disk[c] == v.disk[c] || (s.Via? && c == Ref(v, Ind(s.i)))
    requires j < |v.ino| && Filled(v, j)
    ensures Filled(v', j) && Content(v', j) == Content(v, j)
  {
    forall g | 0 <= g < 159 && g * 512 < v.ino[j].size
      ensures BlockOf(v', j, g) == BlockOf(v, j, g) != 0
      ensures v'.disk[BlockOf(v, j, g)] == v.disk[BlockOf(v, j, g)]
    {
      assert Exists(v, SlotOf(j, g)) && BlockOf(v, j, g) != 0;
      assert Exists(v, Ind(s.i));
      assert BlockOf(v, j, g) != Ref(v, Ind(s.i));
    }
    forall x | 0 <= x < v.ino[j].size ensures Content(v', j)[x] == Content(v, j)[x] {
      assert BlockOf(v', j, x / 512) == BlockOf(v, j, x / 512);
    }
  }

  // ---------------------------------------------------------------- metadata and sizes

  /** One sector changes, in front of the data area or in a block of file `i`: other files keep their blocks. */
  lemma OtherBlocks(v: Vol, lo: nat, hi: nat, i: nat, f: nat, c: nat, t: Sector, j: nat)
    requires Sound(v, lo, hi) && c < |v.disk| && i < |v.ino| && f < 159 && j < |v.ino|
    requires c < lo || (j != i && c == BlockOf(v, i, f) != 0)
    ensures forall v': Vol :: v'.disk == v.disk[c := t] ==> SameBlocks(v, v', j)
  {
    assert Exists(v, SlotOf(i, f));
    forall g | 0 <= g < 31 && 0 < v.ino[j].addrs[g] < |v.disk| ensures v.ino[j].addrs[g] != c {
      assert Exists(v, Direct(j, g)) && Ref(v, Direct(j, g)) == v.ino[j].addrs[g];
    }
  }

  /** Files keep their bytes when references, sizes and the sectors they own stay the same. */
  lemma SameContent(v: Vol, v': Vol, j: nat)
    requires SameRefs(v, v') && |v'.disk| == |v.disk| && j < |v.ino| && Filled(v, j)
    requires v'.ino[j].size == v.ino[j].size
    requires forall f :: 0 <= f < 159 && f * 512 < v.ino[j].size ==>
               0 < BlockOf(v, j, f) < |v.disk| && v'.disk[BlockOf(v, j, f)] == v.disk[BlockOf(v, j, f)]
    ensures Filled(v', j) && Content(v', j) == Content(v, j)
  {
    forall f | 0 <= f < 159 && f * 512 < v.ino[j].size ensures BlockOf(v', j, f) == BlockOf(v, j, f) {
      assert Exists(v, SlotOf(j, f));
    }
    forall x | 0 <= x < v.ino[j].size ensures Content(v', j)[x] == Content(v, j)[x] {
      assert BlockOf(v', j, x / 512) == BlockOf(v, j, x / 512);
    }
  }

  /** Sectors below the data area hold no file byte and no reference. */
  lemma MetadataWrite(v: Vol, lo: nat, hi: nat, c: nat, s: Sector)
    requires Sound(v, lo, hi) && 0 < c < lo && c < |v.disk|
    ensures var v' := v.(disk := v.disk[c := s]); SameRefs(v, v') && Sound(v', lo, hi)
  {
    forall k | 0 <= k < |v.ino| ensures Ref(v, Ind(k)) != c { assert Exists(v, Ind(k)); }
    WriteKeepsRefs(v, c, s);
  }

  lemma MetadataContent(v: Vol, lo: nat, hi: nat, c: nat, s: Sector, j: nat)
    requires Sound(v, lo, hi) && 0 < c < lo && c < |v.disk| && j < |v.ino| && Filled(v, j)
    ensures var v' := v.(disk := v.disk[c := s]); Filled(v', j) && Content(v', j) == Content(v, j)
  {
    var v' := v.(disk := v.disk[c := s]);
    MetadataWrite(v, lo, hi, c, s);
    forall f | 0 <= f < 159 && f * 512 < v.ino[j].size
      ensures 0 < BlockOf(v, j, f) < |v.disk| && v'.disk[BlockOf(v, j, f)] == v.disk[BlockOf(v, j, f)]
    {
      assert Exists(v, SlotOf(j, f));
    }
    SameContent(v, v', j);
  }

  /** A larger size shows the bytes that the blocks hold there. */
  lemma ResizeContent(v: Vol, i: nat, size: u32)
    requires i < |v.ino| && Filled(v, i) && v.ino[i].size <= size <= 159 * 512
    requires forall f :: 0 <= f < 159 && f * 512 < size ==> 0 < BlockOf(v, i, f) < |v.disk|
    ensures var v' := v.(ino := v.ino[i := v.ino[i].(size := size)]);
      && SameRefs(v, v')
      && (forall j :: 0 <= j < |v.ino| && Filled(v, j) ==> Filled(v', j))
      && (forall j :: 0 <= j < |v.ino| && Filled(v, j) && j != i ==> Content(v', j) == Content(v, j))
      && |Content(v', i)| == size
      && (forall x :: 0 <= x < |Content(v, i)| ==> Content(v', i)[x] == Content(v, i)[x])
      && (forall x :: 0 <= x < size ==> BlockOf(v, i, x / 512) < |v.disk| && Content(v', i)[x] == ByteAt(v, i, x))
  {
    var v' := v.(ino := v.ino[i := v.ino[i].(size := size)]);
    assert SameRefs(v, v');
    assert forall j, f :: 0 <= j < |v.ino| && 0 <= f < 159 ==> BlockOf(v', j, f) == BlockOf(v, j, f);
    forall j | 0 <= j < |v.ino| && Filled(v, j) && j != i ensures Filled(v', j) && Content(v', j) == Content(v, j) {
      SameContent(v, v', j);
    }
    assert Filled(v', i);
    forall x | 0 <= x < size
      ensures BlockOf(v, i, x / 512) < |v.disk| && Content(v', i)[x] == ByteAt(v, i, x)
    {
      assert 0 <= x / 512 < 159 && (x / 512) * 512 < size;
    }
  }
}
