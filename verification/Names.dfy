/** What paths mean after mknod, and that namei finds what mknod made. */
module Names {
  import opened Options
  import opened Bytes
  import opened Layout
  import opened Volume
  import opened Balloc
  import opened Kfs
  import opened Directory
  import opened PathWalk
  import opened Creation

  lemma LongName(v: Vol, d: nat, x: seq<byte>)
    requires d < |v.ino| && DirOk(v, d) && 14 < |x|
    ensures NameIn(v, d, x).None?
  {
    var es := EntriesOf(Content(v, d));
    forall e | 0 <= e < |es| ensures !Hit(es[e], x) { assert |es[e].name| == 14; }
  }

  /**
   * Paths that resolved before resolve to the same inode, and so do all paths that do not use the new name,
   * or every path when the directory had the name already.
   */
  lemma {:induction false} WalkAfter(v: Vol, v': Vol, d: nat, i: nat, name: seq<byte>, n: Dinode, s: nat, parts: seq<seq<byte>>)
    requires Entered(v, v', d, i, name, n) && DirsOk(v) && DirsOk(v') && n.kind != 0 && n.size == 0 && 0 !in name
    requires s < |v.ino| && s != i && DirOk(v, d)
    ensures Walk(v, s, parts) != Some(i)
    ensures Walk(v, s, parts).Some? || NameIn(v, d, Cut(name)).Some? || Cut(name) !in parts ==>
              Walk(v', s, parts) == Walk(v, s, parts)
    decreases |parts|
  {
    hide DirsOk, DirOk, NameIn, Cut;
    KindsAfter(v, v', d, i, name, n, s);
    if parts != [] && v.ino[s].kind == T_DIR {
      DirAt(v, s);
      DirAt(v', s);
      NamesAfter(v, v', d, i, name, n, s, parts[0]);
      var j := NameIn(v, s, parts[0]);
      assert parts[0] in parts && forall x :: x in parts[1..] ==> x in parts;
      if j.Some? { WalkAfter(v, v', d, i, name, n, j.value, parts[1..]); }
    }
  }

  lemma KindsAfter(v: Vol, v': Vol, d: nat, i: nat, name: seq<byte>, n: Dinode, s: nat)
    requires Entered(v, v', d, i, name, n) && s < |v.ino| && s != i
    ensures |v'.ino| == |v.ino| && v'.ino[s].kind == v.ino[s].kind && i < |v.ino| && v.ino[i].kind == 0
  { GrewParts(v, v', d, DirentBytes(i, Cut(name))); }

  /** No path leads further than a new inode. */
  lemma NothingBelow(v: Vol, v': Vol, d: nat, i: nat, name: seq<byte>, n: Dinode, parts: seq<seq<byte>>)
    requires Entered(v, v', d, i, name, n) && DirsOk(v) && DirsOk(v') && n.kind != 0 && n.size == 0 && 0 !in name
    requires parts != []
    ensures i < |v'.ino| && Walk(v', i, parts) == None
  {
    if v'.ino[i].kind == T_DIR { NamesAfter(v, v', d, i, name, n, i, parts[0]); }
  }

  lemma {:induction false} PartsHaveNoSlash(ps: seq<seq<byte>>)
    requires forall p :: p in ps ==> SLASH !in p
    ensures forall p :: p in NonEmpty(ps) ==> SLASH !in p && p != []
  { if ps != [] { PartsHaveNoSlash(ps[1..]); } }

  lemma {:induction false} PiecesHaveNoSlash(q: seq<byte>)
    ensures forall p :: p in Pieces(q) ==> SLASH !in p
  { if q != [] { PiecesHaveNoSlash(q[1..]); } }

  lemma NoSlash(q: seq<byte>)
    ensures forall p :: p in Parts(q) ==> SLASH !in p && p != []
  { PiecesHaveNoSlash(q); PartsHaveNoSlash(Pieces(q)); }

  /** A path that starts with a component. */
  lemma FirstPart(q: seq<byte>)
    requires q != [] && q[0] != SLASH
    ensures Parts(q) == [Comp(q)] + Parts(q[|Comp(q)|..])
  { SplitIsParts(q); SplitIsParts(q[|Comp(q)|..]); }

  /** The component is what is stored, or longer than 14 bytes, or the stored bytes hold a slash. */
  lemma CutOrLong(q: seq<byte>)
    ensures Comp(q) == Cut(q) || SLASH in Cut(q) || 14 < |Comp(q)|
  {
    var n := |Comp(q)|;
    assert n < |q| && n < 14 ==> Cut(q)[n] == q[n];
    assert n == |q| && n <= 14 ==> Comp(q) == Cut(q);
  }

  /**
   * mknod then namei: afterwards the path resolves to the new inode exactly when its only part is what was
   * stored, at most 14 bytes of it, and the directory did not have that name before.
   */
  lemma MknodRoundTrip(v: Vol, v': Vol, d: nat, i: nat, name: seq<byte>, n: Dinode)
    requires Entered(v, v', d, i, name, n) && DirsOk(v) && DirsOk(v') && n.kind != 0 && n.size == 0 && 0 !in name
    requires DirOk(v, d)
    ensures d < |v'.ino|
    ensures Walk(v', d, Parts(name)) == Some(i) <==> Parts(name) == [Cut(name)] && NameIn(v, d, Cut(name)).None?
  {
    hide DirsOk, DirOk, NameIn, Cut, Parts;
    KindsAfter(v, v', d, i, name, n, d);
    var ps := Parts(name);
    NoSlash(name);
    WalkAfter(v, v', d, i, name, n, d, ps);
    if name == [] {
      assert Parts(name) == [] by { EmptyPath(); }
    } else if name[0] == SLASH {
      assert SLASH in Cut(name) by { CutHead(name); }
    } else {
      FirstPart(name);
      DirAt(v', d);
      NamesAfter(v, v', d, i, name, n, d, Comp(name));
      if Comp(name) == Cut(name) {
        if ps[1..] != [] { NothingBelow(v, v', d, i, name, n, ps[1..]); }
      } else {
        CutOrLong(name);
        if 14 < |Comp(name)| { LongName(v, d, Comp(name)); }
      }
    }
  }

  lemma EmptyPath()
    ensures Parts([]) == []
  {}

  lemma CutHead(name: seq<byte>)
    requires name != []
    ensures Cut(name) != [] && name[0] in Cut(name)
  { assert Cut(name)[0] == name[0]; }

  /** A plain name is its own only part, and is stored whole when it has at most 14 bytes. */
  lemma PlainName(name: seq<byte>)
    requires SLASH !in name && name != []
    ensures Parts(name) == [name] && (Parts(name) == [Cut(name)] <==> |name| <= 14)
  {
    FirstPart(name);
    assert Comp(name) == name;
    EmptyPath();
    assert name[|name|..] == [];
  }

  /**
   * A plain name made in the root directory, and any state with those files: namei finds exactly the new
   * inode, unless it has to sleep or the table is full, when the name was new and has at most 14 bytes.
   */
  lemma MknodThenNamei(fs: Fs, fs': Fs, k: nat, kd: nat, name: seq<byte>, n: Dinode, fs2: Fs)
    requires TreeOk(fs) && Created(fs, fs', k, kd, name, n) && fs.cache[kd].count > 0 && fs.cache[kd].inum == 1
    requires n.kind != 0 && n.size == 0 && 0 !in name && SLASH !in name && name != []
    requires TreeOk(fs2) && GeoOk(fs2.disk) && Files(fs2) == Files(fs')
    ensures DirsOk(Files(fs)) && DirOk(Files(fs), 1) && 2 < |fs2.disk|
    ensures var r := Namei(fs2, name); var fits := |name| <= 14 && NameIn(Files(fs), 1, name).None?;
      && !r.Broken?
      && (r.NotFound? ==> !fits)
      && (r.Found? ==> r.k < |r.fs.cache| && Held(fs2, r.fs, r.k, r.fs.cache[r.k].inum) &&
                       (fits <==> r.fs.cache[r.k].inum == fs'.cache[k].inum))
  {
    hide FsOk, DirsOk, Files, Typed, Walk, NameIn, Held, Restored, OnTrail, Busy, TableUsed, Namei, Parts, CacheMoved, DiskMoved;
    TreeParts(fs);
    TreeParts(fs2);
    CreatedKeepsTree(fs, fs', k, kd, name, n);
    TreeParts(fs');
    CreatedVolume(fs, fs', k, kd, name, n);
    var v, v', i := Files(fs), Files(fs'), fs'.cache[k].inum;
    DirAt(v, 1);
    NameiResolves(fs2, name);
    MknodRoundTrip(v, v', 1, i, name, n);
    PlainName(name);
  }

  lemma CreatedVolume(fs: Fs, fs': Fs, k: nat, kd: nat, name: seq<byte>, n: Dinode)
    requires Created(fs, fs', k, kd, name, n)
    ensures GeoOk(fs.disk) && GeoOk(fs'.disk) && Entered(Files(fs), Files(fs'), fs.cache[kd].inum, fs'.cache[k].inum, name, n)
    ensures fs.cache[kd].inum < |Files(fs).ino| && Files(fs).ino[fs.cache[kd].inum].kind == T_DIR
  {}
}
