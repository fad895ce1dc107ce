/**
 * kernel/exec.c: the argument stack that kexec builds in one page, through a kernel cursor that writes
 * the bytes and a user cursor that computes the addresses the program will use.
 *
 * Cursors are offsets in the page: both pages are 4096-aligned, so rounding an address down to 16
 * rounds its offset.
 */
module ArgStack {
  import opened Options
  import opened Bytes

  type u64 = x: int | 0 <= x < 0x1_0000_0000_0000_0000

  /** x & ~0xF */
  function Down16(x: int): (r: int)
    ensures r <= x < r + 16 && r % 16 == 0
  { x - x % 16 }

  function U64Bytes(x: u64): (r: seq<byte>)
    ensures |r| == 8
  { U32Bytes(x % 0x1_0000_0000) + U32Bytes(x / 0x1_0000_0000) }

  function U64At(s: seq<byte>, o: nat): u64
    requires o + 8 <= |s|
  { U32At(s, o) as int + 0x1_0000_0000 * U32At(s, o + 4) as int }

  // ---------------------------------------------------------------- the two cursors

  /** dsp after argument `s`, as an offset in the kernel page. */
  function KOff(args: seq<seq<byte>>, s: nat): int
    requires s <= |args|
    decreases |args| - s
  { if s == |args| then 4096 else Down16(KOff(args, s + 1) - |args[s]|) }

  /** align_sz after argument `s`, as an offset in the user page. */
  function UOff(args: seq<seq<byte>>, s: nat): int
    requires s <= |args|
    decreases |args| - s
  { if s == |args| then 4096 else Down16(UOff(args, s + 1) - |args[s]| - 1) }

  function KTop(args: seq<seq<byte>>): int { Down16(KOff(args, 0) - 8 * |args|) }
  function UTop(args: seq<seq<byte>>): int { Down16(UOff(args, 0) - 8 * |args|) }

  lemma Aligned(args: seq<seq<byte>>, s: nat)
    requires s <= |args|
    ensures KOff(args, s) % 16 == 0 && UOff(args, s) % 16 == 0
  {}

  lemma Shift(k: int, x: int)
    requires k % 16 == 0
    ensures Down16(k + x) == k + Down16(x)
  {
    assert (k + x) % 16 == x % 16;
  }

  lemma BelowZero(len: int)
    ensures Down16(-len - 1) <= Down16(-len)
    ensures Down16(-len - 1) == Down16(-len) <==> len % 16 != 0
    ensures Down16(-len) + len + 1 <= 0 <==> len % 16 != 0
  {
    var q, r := len / 16, len % 16;
    Shift(-16 * q, -r);
    Shift(-16 * q, -r - 1);
    Remainders(r);
    hide Down16;
    assert -16 * q + -r == -len && -16 * q + (-r - 1) == -len - 1;
  }

  lemma Remainders(r: int)
    requires 0 <= r < 16
    ensures Down16(-r) == (if r == 0 then 0 else -16) && Down16(-r - 1) == -16
  {}

  /** One argument moves both cursors down by the same amount just when its length is no multiple of 16. */
  lemma OneArgument(k: int, u: int, len: int)
    requires k % 16 == 0 && u % 16 == 0 && u <= k
    ensures Down16(u - len - 1) <= Down16(k - len)
    ensures Down16(u - len - 1) == Down16(k - len) <==> u == k && len % 16 != 0
    ensures Down16(k - len) + len + 1 <= k <==> len % 16 != 0
  {
    Shift(k, -len);
    Shift(u, -len - 1);
    BelowZero(len);
    hide Down16;
    assert k + -len == k - len && u + (-len - 1) == u - len - 1;
    if u < k { assert u + 16 <= k; }
  }

  /** From argument `s` on: the user cursor is never above, and equal just when no length is a multiple of 16. */
  lemma {:induction false} CursorsFrom(args: seq<seq<byte>>, s: nat)
    requires s <= |args|
    ensures UOff(args, s) <= KOff(args, s)
    ensures UOff(args, s) == KOff(args, s) <==> forall t :: s <= t < |args| ==> |args[t]| % 16 != 0
    decreases |args| - s
  {
    hide Down16;
    if s < |args| {
      CursorsFrom(args, s + 1);
      Aligned(args, s + 1);
      OneArgument(KOff(args, s + 1), UOff(args, s + 1), |args[s]|);
      assert (forall t :: s <= t < |args| ==> |args[t]| % 16 != 0)
        <==> |args[s]| % 16 != 0 && forall t :: s + 1 <= t < |args| ==> |args[t]| % 16 != 0;
    }
  }

  /** The cursors agree at every argument. */
  predicate CursorsAgree(args: seq<seq<byte>>)
  { UTop(args) == KTop(args) && forall s :: 0 <= s < |args| ==> UOff(args, s) == KOff(args, s) }

  /** Strings with their terminators and the argv array do not overlap, and lie below the end of the page. */
  predicate RegionsDisjoint(args: seq<seq<byte>>)
  {
    && (forall s :: 0 <= s < |args| ==> KOff(args, s) + |args[s]| + 1 <= KOff(args, s + 1))
    && KTop(args) + 8 * (|args| + 1) <= KOff(args, 0)
  }

  predicate NoMultiple(args: seq<seq<byte>>) { forall s :: 0 <= s < |args| ==> |args[s]| % 16 != 0 }

  lemma CursorsAgreeExactly(args: seq<seq<byte>>)
    ensures CursorsAgree(args) <==> NoMultiple(args)
  {
    CursorsFrom(args, 0);
    forall s | 0 <= s < |args| ensures UOff(args, s) == KOff(args, s) <==> forall t :: s <= t < |args| ==> |args[t]| % 16 != 0 {
      CursorsFrom(args, s);
    }
    if args != [] && CursorsAgree(args) { assert UOff(args, 0) == KOff(args, 0); }
  }

  /** The argv array of n + 1 entries clears the strings above it just when n is odd. */
  lemma ArgvRoom(k: int, n: nat)
    requires k % 16 == 0
    ensures Down16(k - 8 * n) == k - 8 * n - (if n % 2 == 1 then 8 else 0)
  {
    Shift(k, -8 * n);
    assert k + -8 * n == k - 8 * n;
  }

  lemma StringRoom(args: seq<seq<byte>>, s: nat)
    requires s < |args|
    ensures KOff(args, s) + |args[s]| + 1 <= KOff(args, s + 1) <==> |args[s]| % 16 != 0
  {
    Aligned(args, s + 1);
    OneArgument(KOff(args, s + 1), KOff(args, s + 1), |args[s]|);
  }

  /** The layout is sound exactly when no length is a multiple of 16 and the number of arguments is odd. */
  lemma LayoutSoundExactly(args: seq<seq<byte>>)
    ensures CursorsAgree(args) && RegionsDisjoint(args) <==> NoMultiple(args) && |args| % 2 == 1
  {
    hide Down16, CursorsAgree;
    CursorsAgreeExactly(args);
    Aligned(args, 0);
    forall s | 0 <= s < |args| ensures KOff(args, s) + |args[s]| + 1 <= KOff(args, s + 1) <==> |args[s]| % 16 != 0 {
      StringRoom(args, s);
    }
    ArgvRoom(KOff(args, 0), |args|);
  }

  // ---------------------------------------------------------------- writing the page

  /** A write of `t` at offset `o`; None is a write outside the page. */
  function Put(page: Page, o: int, t: seq<byte>): Option<Page>
  { if 0 <= o && o + |t| <= 4096 then (var r: Page := Splice(page, o, t); Some(r)) else None }

  /** The strings from the last argument down to argument `s`. */
  function PutStrings(page: Page, args: seq<seq<byte>>, s: nat): Option<Page>
    requires s <= |args|
    decreases |args| - s
  {
    if s == |args| then Some(page)
    else
      var p := PutStrings(page, args, s + 1);
      if p.None? then None else Put(p.value, KOff(args, s), args[s] + [0])
  }

  /** ustack[k], with the user stack page at address `sz`. */
  function Ustack(args: seq<seq<byte>>, sz: nat, k: nat): u64
    requires k <= |args|
  { if k < |args| then (sz + UOff(args, k)) % 0x1_0000_0000_0000_0000 else 0 }

  /** The entries 0 to n - 1 of argv. */
  function PutArgv(page: Page, args: seq<seq<byte>>, sz: nat, n: nat): Option<Page>
    requires n <= |args| + 1
  {
    if n == 0 then Some(page)
    else
      var p := PutArgv(page, args, sz, n - 1);
      if p.None? then None else Put(p.value, KTop(args) + 8 * (n - 1), U64Bytes(Ustack(args, sz, n - 1)))
  }

  function BuildStack(page: Page, args: seq<seq<byte>>, sz: nat): Option<Page>
  {
    var p := PutStrings(page, args, 0);
    if p.None? then None else PutArgv(p.value, args, sz, |args| + 1)
  }

  // ---------------------------------------------------------------- reading it back as the program does

  ghost predicate StringAt(page: Page, o: int, arg: seq<byte>)
  {
    && 0 <= o && o + |arg| < 4096
    && (forall k :: 0 <= k < |arg| ==> page[o + k] == arg[k])
    && page[o + |arg|] == 0
  }

  /** The program finds argument `s`: argv[s] points into the stack page at the string and its zero. */
  ghost predicate Decodes(page: Page, args: seq<seq<byte>>, sz: nat, s: nat)
  {
    var o := UTop(args) + 8 * s;
    && 0 <= o && o + 8 <= 4096
    && sz <= U64At(page, o) < sz + 4096
    && s < |args| && StringAt(page, U64At(page, o) - sz, args[s])
  }

  lemma U64RoundTrip(s: seq<byte>, o: nat, x: u64)
    requires o + 8 <= |s|
    ensures U64At(Splice(s, o, U64Bytes(x)), o) == x
  {
    var lo, hi := x % 0x1_0000_0000, x / 0x1_0000_0000;
    U32RoundTrip(lo);
    U32RoundTrip(hi);
    var b := U64Bytes(x);
    forall k | 0 <= k < 4 ensures b[k] == U32Bytes(lo)[k] && b[4 + k] == U32Bytes(hi)[k] {}
    var r := Splice(s, o, b);
    assert r[o] == b[0] && r[o + 1] == b[1] && r[o + 2] == b[2] && r[o + 3] == b[3];
    assert r[o + 4] == b[4] && r[o + 5] == b[5] && r[o + 6] == b[6] && r[o + 7] == b[7];
  }

  lemma {:induction false} OffsetsDescend(args: seq<seq<byte>>, s: nat, t: nat)
    requires s <= t <= |args|
    ensures KOff(args, s) <= KOff(args, t) <= 4096
    decreases t - s
  {
    if s < t { OffsetsDescend(args, s + 1, t); } else { OffsetTop(args, t); }
  }

  lemma {:induction false} OffsetTop(args: seq<seq<byte>>, t: nat)
    requires t <= |args|
    ensures KOff(args, t) <= 4096
    decreases |args| - t
  { if t < |args| { OffsetTop(args, t + 1); } }

  lemma StringPut(page: Page, o: int, arg: seq<byte>)
    requires 0 <= o && o + |arg| + 1 <= 4096
    ensures var p := Put(page, o, arg + [0]);
      && p.Some? && StringAt(p.value, o, arg)
      && forall x :: 0 <= x < 4096 && (x < o || o + |arg| + 1 <= x) ==> p.value[x] == page[x]
  {
    assert (arg + [0])[|arg|] == 0;
  }

  lemma StringFrame(page: Page, p: Page, o: int, arg: seq<byte>, lo: int)
    requires StringAt(page, o, arg) && lo <= o && forall x :: 0 <= x < 4096 && lo <= x ==> p[x] == page[x]
    ensures StringAt(p, o, arg)
  {}

  /** With disjoint regions every string written stays, and nothing below is touched. */
  lemma {:induction false} StringsStay(page: Page, args: seq<seq<byte>>, s: nat)
    requires s <= |args| && RegionsDisjoint(args) && 0 <= KOff(args, s)
    ensures var p := PutStrings(page, args, s);
      && p.Some?
      && (forall t :: s <= t < |args| ==> StringAt(p.value, KOff(args, t), args[t]))
      && (forall k :: 0 <= k < KOff(args, s) && k < 4096 ==> p.value[k] == page[k])
    decreases |args| - s
  {
    hide Down16, StringAt, Put, KTop;
    OffsetTop(args, s);
    if s < |args| {
      OffsetsDescend(args, s, s + 1);
      OffsetTop(args, s + 1);
      StringsStay(page, args, s + 1);
      var p1 := PutStrings(page, args, s + 1).value;
      StringPut(p1, KOff(args, s), args[s]);
      var p := PutStrings(page, args, s).value;
      forall t | s < t < |args| ensures StringAt(p, KOff(args, t), args[t]) {
        OffsetsDescend(args, s + 1, t);
        StringFrame(p1, p, KOff(args, t), args[t], KOff(args, s + 1));
      }
    }
  }

  lemma {:induction false} ArgvStays(page: Page, args: seq<seq<byte>>, sz: nat, n: nat)
    requires n <= |args| + 1 && 0 <= KTop(args) && KTop(args) + 8 * (|args| + 1) <= 4096
    ensures var p := PutArgv(page, args, sz, n);
      && p.Some?
      && (forall k :: 0 <= k < n ==> U64At(p.value, KTop(args) + 8 * k) == Ustack(args, sz, k))
      && (forall x :: 0 <= x < 4096 && (x < KTop(args) || KTop(args) + 8 * n <= x) ==> p.value[x] == page[x])
  {
    hide KTop, Ustack, U64Bytes;
    if n > 0 {
      ArgvStays(page, args, sz, n - 1);
      var p1 := PutArgv(page, args, sz, n - 1).value;
      var o, x := KTop(args) + 8 * (n - 1), Ustack(args, sz, n - 1);
      var p := PutArgv(page, args, sz, n).value;
      U64RoundTrip(p1, o, x);
      forall k | 0 <= k < n - 1 ensures U64At(p, KTop(args) + 8 * k) == Ustack(args, sz, k) {
        SameWord(p1, p, KTop(args) + 8 * k);
      }
    }
  }

  lemma SameWord(s: Page, t: Page, o: nat)
    requires o + 8 <= 4096 && forall x :: o <= x < o + 8 ==> s[x] == t[x]
    ensures U64At(s, o) == U64At(t, o)
  {}

  lemma OffsetsNonNegative(args: seq<seq<byte>>, s: nat)
    requires s <= |args| && 0 <= KTop(args)
    ensures 0 <= KOff(args, s)
  { OffsetsDescend(args, 0, s); }

  lemma UstackIs(args: seq<seq<byte>>, sz: nat, k: nat)
    requires k < |args| && 0 <= UOff(args, k) <= 4096 && sz + 4096 < 0x1_0000_0000_0000_0000
    ensures Ustack(args, sz, k) == sz + UOff(args, k)
  {}

  /** Both the strings and argv, as written. */
  lemma StackWritten(page: Page, args: seq<seq<byte>>, sz: nat)
    requires RegionsDisjoint(args) && 0 <= KTop(args)
    ensures BuildStack(page, args, sz).Some?
    ensures var p := BuildStack(page, args, sz).value;
      && KTop(args) + 8 * (|args| + 1) <= 4096
      && (forall s :: 0 <= s < |args| ==> StringAt(p, KOff(args, s), args[s]))
      && (forall k :: 0 <= k < |args| + 1 ==> U64At(p, KTop(args) + 8 * k) == Ustack(args, sz, k))
  {
    OffsetsNonNegative(args, 0);
    hide Down16, KTop, Ustack, U64At, KOff, U64Bytes;
    StringsStay(page, args, 0);
    OffsetTop(args, 0);
    var p1 := PutStrings(page, args, 0).value;
    ArgvStays(p1, args, sz, |args| + 1);
    var p := BuildStack(page, args, sz).value;
    forall s | 0 <= s < |args| ensures StringAt(p, KOff(args, s), args[s]) {
      OffsetsDescend(args, 0, s);
      assert StringAt(p1, KOff(args, s), args[s]);
    }
  }

  /**
   * The argument stack decodes back to the arguments: with an odd number of arguments, none with a
   * length that is a multiple of 16, and room for all of it in the page, the program finds every
   * argument through argv, argv[argc] is 0 and the stack pointer is 16-byte aligned.
   */
  lemma StackDecodes(page: Page, args: seq<seq<byte>>, sz: nat)
    requires NoMultiple(args) && |args| % 2 == 1 && 0 <= KTop(args) && sz + 4096 < 0x1_0000_0000_0000_0000
    ensures var p := BuildStack(page, args, sz);
      && p.Some?
      && (forall s :: 0 <= s < |args| ==> Decodes(p.value, args, sz, s))
      && 0 <= UTop(args) && UTop(args) + 8 * (|args| + 1) <= 4096
      && U64At(p.value, UTop(args) + 8 * |args|) == 0
      && UTop(args) % 16 == 0
  {
    LayoutSoundExactly(args);
    StackWritten(page, args, sz);
    assert UTop(args) % 16 == 0;
    assert Ustack(args, sz, |args|) == 0;
    hide Down16, KTop, UTop, Ustack, U64At, KOff, UOff, RegionsDisjoint, BuildStack;
    var p := BuildStack(page, args, sz).value;
    forall s | 0 <= s < |args| ensures Decodes(p, args, sz, s) {
      OffsetsNonNegative(args, s);
      OffsetTop(args, s);
      UstackIs(args, sz, s);
      assert StringAt(p, KOff(args, s), args[s]);
      assert U64At(p, KTop(args) + 8 * s) == Ustack(args, sz, s);
    }
  }

  /** An even number of arguments loses the first one: the null entry of argv overwrites its string. */
  lemma EvenCountLosesFirst(page: Page, args: seq<seq<byte>>, sz: nat)
    requires NoMultiple(args) && args != [] && |args| % 2 == 0 && 0 <= KTop(args) && sz + 4096 < 0x1_0000_0000_0000_0000
    requires 0 !in args[0]
    ensures var p := BuildStack(page, args, sz); p.Some? ==> !Decodes(p.value, args, sz, 0)
  {
    if BuildStack(page, args, sz).Some? {
      hide Down16, BuildStack, Decodes, U64At, KTop, UTop, KOff, UOff, Ustack;
      EvenTop(args);
      OffsetsNonNegative(args, 0);
      UstackIs(args, sz, 0);
      UstackNull(args, sz);
      ArgvWritten(page, args, sz);
      var p := BuildStack(page, args, sz).value;
      assert U64At(p, KTop(args) + 8 * 0) == Ustack(args, sz, 0);
      FirstOverwritten(p, args, sz, KTop(args), KOff(args, 0));
    }
  }

  /** With an even count argv's null entry lies on the first string. */
  lemma EvenTop(args: seq<seq<byte>>)
    requires NoMultiple(args) && args != [] && |args| % 2 == 0
    ensures KTop(args) == UTop(args) && UOff(args, 0) == KOff(args, 0) && args[0] != []
    ensures KTop(args) + 8 * |args| == KOff(args, 0) && KOff(args, 0) + 16 <= 4096
  {
    hide Down16, KOff, UOff, UTop;
    CursorsAgreeExactly(args);
    Aligned(args, 0);
    ArgvRoom(KOff(args, 0), |args|);
    StringRoom(args, 0);
    OffsetTop(args, 1);
    Aligned(args, 1);
    NextMultiple(KOff(args, 0), KOff(args, 1));
  }

  lemma NextMultiple(k: int, l: int)
    requires k % 16 == 0 && l % 16 == 0 && k < l
    ensures k + 16 <= l
  {}

  /** All entries of argv as written, whatever the strings became. */
  lemma ArgvWritten(page: Page, args: seq<seq<byte>>, sz: nat)
    requires 0 <= KTop(args) && KTop(args) + 8 * (|args| + 1) <= 4096 && BuildStack(page, args, sz).Some?
    ensures forall k :: 0 <= k < |args| + 1 ==>
              U64At(BuildStack(page, args, sz).value, KTop(args) + 8 * k) == Ustack(args, sz, k)
  {
    hide Ustack, U64At, KTop, PutArgv, PutStrings;
    ArgvStays(PutStrings(page, args, 0).value, args, sz, |args| + 1);
  }

  lemma FirstOverwritten(p: Page, args: seq<seq<byte>>, sz: nat, top: int, o: int)
    requires args != [] && 0 !in args[0] && args[0] != []
    requires 0 <= top && top + 8 * |args| == o && o + 8 <= 4096 && UTop(args) == top
    requires U64At(p, top + 8 * |args|) == 0 && U64At(p, top) == sz + o
    ensures !Decodes(p, args, sz, 0)
  {
    hide U64At, UTop, StringAt, Decodes;
    NoStringAtZero(p, o, args[0]);
    NotDecoded(p, args, sz, o);
  }

  lemma NotDecoded(p: Page, args: seq<seq<byte>>, sz: nat, o: int)
    requires args != [] && 0 <= UTop(args) <= 4088 && U64At(p, UTop(args)) == sz + o && !StringAt(p, o, args[0])
    ensures !Decodes(p, args, sz, 0)
  {
    hide UTop, U64At, StringAt;
  }

  lemma NoStringAtZero(p: Page, o: nat, arg: seq<byte>)
    requires o + 8 <= 4096 && U64At(p, o) == 0 && arg != [] && 0 !in arg
    ensures !StringAt(p, o, arg)
  {
    ZeroWord(p, o);
    assert arg[0] in arg && p[o + 0] == 0;
  }

  lemma ZeroWord(p: Page, o: nat)
    requires o + 8 <= 4096 && U64At(p, o) == 0
    ensures p[o] == 0
  {}

  // ---------------------------------------------------------------- exactly when the program finds its arguments

  function ZeroPage(): Page { seq(4096, _ => 0) }

  /** Nothing below the argv array is written. */
  ghost predicate SameBelow(page: Page, p: Page, o: int) { forall x :: 0 <= x < 4096 && x < o ==> p[x] == page[x] }

  lemma PutBelow(page: Page, o: int, t: seq<byte>, lo: int)
    requires lo <= o && Put(page, o, t).Some?
    ensures SameBelow(page, Put(page, o, t).value, lo)
  {}

  lemma {:induction false} StringsBelow(page: Page, args: seq<seq<byte>>, s: nat, lo: int)
    requires s <= |args| && lo <= KOff(args, 0) && PutStrings(page, args, s).Some?
    ensures SameBelow(page, PutStrings(page, args, s).value, lo)
    decreases |args| - s
  {
    hide Put, KOff;
    if s < |args| {
      StringsBelow(page, args, s + 1, lo);
      OffsetsDescend(args, 0, s);
      PutBelow(PutStrings(page, args, s + 1).value, KOff(args, s), args[s] + [0], lo);
    }
  }

  lemma {:induction false} ArgvBelow(page: Page, args: seq<seq<byte>>, sz: nat, n: nat)
    requires n <= |args| + 1 && PutArgv(page, args, sz, n).Some?
    ensures SameBelow(page, PutArgv(page, args, sz, n).value, KTop(args))
  {
    hide Put, KTop, Ustack;
    if n > 0 {
      ArgvBelow(page, args, sz, n - 1);
      PutBelow(PutArgv(page, args, sz, n - 1).value, KTop(args) + 8 * (n - 1), U64Bytes(Ustack(args, sz, n - 1)), KTop(args));
    }
  }

  lemma TopBelowStrings(args: seq<seq<byte>>)
    ensures KTop(args) <= KOff(args, 0)
  {}

  lemma BuildBelow(page: Page, args: seq<seq<byte>>, sz: nat)
    requires BuildStack(page, args, sz).Some?
    ensures SameBelow(page, BuildStack(page, args, sz).value, KTop(args))
  {
    hide KTop, KOff, PutStrings, PutArgv;
    TopBelowStrings(args);
    StringsBelow(page, args, 0, KTop(args));
    ArgvBelow(PutStrings(page, args, 0).value, args, sz, |args| + 1);
  }

  /** With a length that is a multiple of 16 the user cursor ends at least 16 bytes below the kernel cursor. */
  lemma UserTopBelow(args: seq<seq<byte>>)
    requires !NoMultiple(args)
    ensures UTop(args) + 16 <= KTop(args)
  {
    hide Down16, KOff, UOff;
    CursorsFrom(args, 0);
    Aligned(args, 0);
    NextMultiple(UOff(args, 0), KOff(args, 0));
    DownShifts(UOff(args, 0), KOff(args, 0), 8 * |args|);
  }

  lemma DownShifts(u: int, k: int, x: int)
    requires u % 16 == 0 && k % 16 == 0 && u + 16 <= k
    ensures Down16(u - x) + 16 <= Down16(k - x)
  {
    Shift(u, -x);
    Shift(k, -x);
  }

  /** Then the program reads its first argument pointer from memory that kexec did not write. */
  lemma MultipleLosesFirst(args: seq<seq<byte>>, sz: nat)
    requires !NoMultiple(args) && 0 < sz && BuildStack(ZeroPage(), args, sz).Some?
    ensures !Decodes(BuildStack(ZeroPage(), args, sz).value, args, sz, 0)
  {
    hide KTop, UTop, BuildStack, StringAt;
    UserTopBelow(args);
    BuildBelow(ZeroPage(), args, sz);
    var p, o := BuildStack(ZeroPage(), args, sz).value, UTop(args);
    if 0 <= o && o + 8 <= 4096 { ZeroBytes(p, o); }
  }

  lemma ZeroBytes(p: Page, o: nat)
    requires o + 8 <= 4096 && forall x :: o <= x < o + 8 ==> p[x] == 0
    ensures U64At(p, o) == 0
  {}

  /** The program finds every argument and the null entry that ends argv. */
  ghost predicate Found(page: Page, args: seq<seq<byte>>, sz: nat)
  {
    var p := BuildStack(page, args, sz);
    && p.Some?
    && (forall s :: 0 <= s < |args| ==> Decodes(p.value, args, sz, s))
    && 0 <= UTop(args) && UTop(args) + 8 * (|args| + 1) <= 4096
    && U64At(p.value, UTop(args) + 8 * |args|) == 0
  }

  /** Without arguments argv itself leaves the page. */
  lemma NoRoomForNull(page: Page, sz: nat)
    ensures BuildStack(page, [], sz).None?
  {
    assert KTop([]) == 4096;
    assert PutArgv(page, [], sz, 0) == Some(page);
  }

  /**
   * Whatever the page held, the program finds its arguments exactly when no argument has a length that is a
   * multiple of 16 and the number of arguments is odd; arguments are C strings that fit the page together.
   */
  lemma ArgumentsFoundExactly(args: seq<seq<byte>>, sz: nat)
    requires 0 <= KTop(args) && 0 < sz && sz + 4096 < 0x1_0000_0000_0000_0000 && forall arg :: arg in args ==> 0 !in arg
    ensures (forall page :: Found(page, args, sz)) <==> NoMultiple(args) && |args| % 2 == 1
  {
    hide KTop, UTop, KOff, UOff, BuildStack, Decodes, U64At, RegionsDisjoint;
    if NoMultiple(args) && |args| % 2 == 1 {
      forall page ensures Found(page, args, sz) { StackDecodes(page, args, sz); }
    } else {
      assert !Found(ZeroPage(), args, sz) by {
        if args == [] {
          NoRoomForNull(ZeroPage(), sz);
        } else if NoMultiple(args) {
          assert args[0] in args;
          EvenCountLosesFirst(ZeroPage(), args, sz);
        } else if BuildStack(ZeroPage(), args, sz).Some? {
          MultipleLosesFirst(args, sz);
        }
      }
    }
  }

  // ---------------------------------------------------------------- exec.c

  /** *d_dsp++ = *arg++ for each byte of `t`; false when the copy would leave the page. */
  method CopyBytes(t: seq<byte>, o: int, page: array<byte>) returns (ok: bool)
    requires page.Length == 4096
    modifies page
    ensures ok <==> Put(old(page[..]), o, t).Some?
    ensures ok ==> page[..] == Put(old(page[..]), o, t).value
  {
    if o < 0 || o + |t| > 4096 { return false; }
    var c := 0;
    while c < |t|
      invariant 0 <= c <= |t|
      invariant forall k :: 0 <= k < 4096 ==> page[k] == if o <= k < o + c then t[k - o] else old(page[k])
    {
      page[o + c] := t[c];
      c := c + 1;
    }
    assert page[..] == Splice(old(page[..]), o, t);
    ok := true;
  }

  /** One round of the argument loop: both cursors move down and the string is copied. */
  method PushString(args: seq<seq<byte>>, s: nat, sz: nat, dsp: int, alignSz: int, page: array<byte>)
    returns (ok: bool, dsp': int, alignSz': int)
    requires page.Length == 4096 && sz % 16 == 0 && s < |args|
    requires dsp == KOff(args, s + 1) && alignSz == sz + UOff(args, s + 1)
    modifies page
    ensures dsp' == KOff(args, s) && alignSz' == sz + UOff(args, s)
    ensures ok <==> Put(old(page[..]), KOff(args, s), args[s] + [0]).Some?
    ensures ok ==> page[..] == Put(old(page[..]), KOff(args, s), args[s] + [0]).value
  {
    hide Put;
    Shift(sz, UOff(args, s + 1) - |args[s]| - 1);
    dsp' := Down16(dsp - |args[s]|);
    alignSz' := Down16(alignSz - |args[s]| - 1);
    ok := CopyBytes(args[s] + [0], dsp', page);
  }

  /** The stack part of kexec: `page` is the page from kalloc, `sz` the address it will be mapped at. */
  method PushArguments(args: seq<seq<byte>>, sz: nat, page: array<byte>) returns (ok: bool, sp: int)
    requires page.Length == 4096 && sz % 16 == 0
    modifies page
    ensures ok <==> BuildStack(old(page[..]), args, sz).Some?
    ensures ok ==> page[..] == BuildStack(old(page[..]), args, sz).value && sp == sz + UTop(args)
  {
    hide Put, Down16, Ustack, PutArgv, UTop, KTop;
    ghost var page0 := page[..];
    var dsp, alignSz := 4096, sz + 4096;
    var ustack: seq<int> := seq(|args| + 1, _ => 0);
    UstackNull(args, sz);
    var s := |args|;
    while s > 0
      invariant 0 <= s <= |args| == |ustack| - 1
      invariant dsp == KOff(args, s) && alignSz == sz + UOff(args, s)
      invariant PutStrings(page0, args, s) == Some(page[..])
      invariant forall k :: s <= k <= |args| ==> ustack[k] == Ustack(args, sz, k)
    {
      s := s - 1;
      ok, dsp, alignSz := PushString(args, s, sz, dsp, alignSz, page);
      UstackMod(args, sz, s);
      ustack := ustack[s := alignSz % 0x1_0000_0000_0000_0000];
      if !ok { StringsFail(page0, args, s); return ok, 0; }
    }
    ok, sp := PushArgv(args, sz, dsp, alignSz, ustack, page);
  }

  /** The last step: both cursors move down by argc words and argv is written. */
  method PushArgv(args: seq<seq<byte>>, sz: nat, dsp: int, alignSz: int, ustack: seq<int>, page: array<byte>)
    returns (ok: bool, sp: int)
    requires page.Length == 4096 && sz % 16 == 0 && |ustack| == |args| + 1
    requires dsp == KOff(args, 0) && alignSz == sz + UOff(args, 0)
    requires forall k :: 0 <= k <= |args| ==> ustack[k] == Ustack(args, sz, k)
    modifies page
    ensures ok <==> PutArgv(old(page[..]), args, sz, |args| + 1).Some?
    ensures ok ==> page[..] == PutArgv(old(page[..]), args, sz, |args| + 1).value && sp == sz + UTop(args)
  {
    hide Put, Ustack, Down16, UOff, KOff, UTop, PutArgv;
    TopShift(args, sz);
    assert Down16(dsp - 8 * |args|) == KTop(args);
    ok := WriteArgv(args, sz, Down16(dsp - 8 * |args|), ustack, page);
    sp := Down16(alignSz - 8 * |args|);
  }

  lemma TopShift(args: seq<seq<byte>>, sz: nat)
    requires sz % 16 == 0
    ensures Down16(sz + UOff(args, 0) - 8 * |args|) == sz + UTop(args)
  {
    hide UOff, Down16;
    Shift(sz, UOff(args, 0) - 8 * |args|);
    assert sz + (UOff(args, 0) - 8 * |args|) == sz + UOff(args, 0) - 8 * |args|;
  }

  lemma UstackNull(args: seq<seq<byte>>, sz: nat)
    ensures Ustack(args, sz, |args|) == 0
  {}

  lemma UstackMod(args: seq<seq<byte>>, sz: nat, k: nat)
    requires k < |args|
    ensures Ustack(args, sz, k) == (sz + UOff(args, k)) % 0x1_0000_0000_0000_0000
  {}

  method WriteArgv(args: seq<seq<byte>>, sz: nat, dsp: int, ustack: seq<int>, page: array<byte>) returns (ok: bool)
    requires page.Length == 4096 && dsp == KTop(args) && |ustack| == |args| + 1
    requires forall k :: 0 <= k <= |args| ==> ustack[k] == Ustack(args, sz, k)
    modifies page
    ensures ok <==> PutArgv(old(page[..]), args, sz, |args| + 1).Some?
    ensures ok ==> page[..] == PutArgv(old(page[..]), args, sz, |args| + 1).value
  {
    hide Put, KTop, Ustack;
    ghost var page1 := page[..];
    var u := 0;
    while u < |args| + 1
      invariant 0 <= u <= |args| + 1
      invariant PutArgv(page1, args, sz, u) == Some(page[..])
    {
      ok := CopyBytes(U64Bytes(ustack[u]), dsp + 8 * u, page);
      if !ok { ArgvFail(page1, args, sz, u + 1); return; }
      u := u + 1;
    }
    ok := true;
  }

  lemma {:induction false} StringsFail(page: Page, args: seq<seq<byte>>, s: nat)
    requires s <= |args| && PutStrings(page, args, s).None?
    ensures PutStrings(page, args, 0).None?
  {
    if s > 0 { StringsFail(page, args, s - 1); }
  }

  lemma {:induction false} ArgvFail(page: Page, args: seq<seq<byte>>, sz: nat, n: nat)
    requires n <= |args| + 1 && PutArgv(page, args, sz, n).None?
    ensures PutArgv(page, args, sz, |args| + 1).None?
    decreases |args| + 1 - n
  {
    if n < |args| + 1 { ArgvFail(page, args, sz, n + 1); }
  }

  // ---------------------------------------------------------------- the size that fork copies

  /** p->sz after kexec: PGROUNDUP of the last PT_LOAD address, plus a page; the stack is mapped there. */
  function ExecSize(vaddrs: seq<nat>): nat
  { ((if vaddrs == [] then 0 else vaddrs[|vaddrs| - 1]) + 4095) / 4096 * 4096 + 4096 }

  predicate Ascending(vaddrs: seq<nat>) { forall i, j :: 0 <= i < j < |vaddrs| ==> vaddrs[i] <= vaddrs[j] }

  /** The pages kexec maps: one for each page-aligned PT_LOAD address, and the stack page. */
  predicate IsExecPage(vaddrs: seq<nat>, x: nat)
  { x == ExecSize(vaddrs) / 4096 || exists k :: 0 <= k < |vaddrs| && x == vaddrs[k] / 4096 }

  /** The number of pages copyproc visits for a process of size `sz`. */
  function ForkLimit(sz: nat): nat { (sz + 4095) / 4096 + 1 }

  /** fork visits every page kexec mapped exactly when no PT_LOAD address lies beyond the stack page. */
  lemma ForkCoversExec(vaddrs: seq<nat>)
    requires forall k :: 0 <= k < |vaddrs| ==> vaddrs[k] % 4096 == 0
    ensures (forall x: nat :: IsExecPage(vaddrs, x) ==> x < ForkLimit(ExecSize(vaddrs)))
       <==> (forall k :: 0 <= k < |vaddrs| ==> vaddrs[k] <= ExecSize(vaddrs))
    ensures Ascending(vaddrs) ==> forall x: nat :: IsExecPage(vaddrs, x) ==> x < ForkLimit(ExecSize(vaddrs))
  {
    var sz := ExecSize(vaddrs);
    assert ForkLimit(sz) == sz / 4096 + 1;
    if forall x: nat :: IsExecPage(vaddrs, x) ==> x < ForkLimit(sz) {
      forall k | 0 <= k < |vaddrs| ensures vaddrs[k] <= sz {
        assert IsExecPage(vaddrs, vaddrs[k] / 4096);
      }
    }
  }
}
