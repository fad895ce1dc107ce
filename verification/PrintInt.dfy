/** kernel/printf.c: printint, its 20-byte buffer, and reading its output back. */
module PrintInt {
  /** long long */
  type i64 = x: int | -0x8000_0000_0000_0000 <= x < 0x8000_0000_0000_0000

  function Digit(d: nat): char
    requires d < 16
  { "0123456789abcdef"[d] }

  /** The digits in the order the loop stores them, least significant first. */
  function Stored(x: nat, base: nat): (s: string)
    requires 2 <= base <= 16
    ensures |s| > 0
    decreases x
  { if x < base then [Digit(x)] else DivLess(x, base); [Digit(x % base)] + Stored(x / base, base) }

  lemma DivLess(x: nat, b: nat)
    requires 2 <= b <= x
    ensures x / b < x
  {
    var q, r := x / b, x % b;
    DivMod(x, b);
    QuotientLess(x, b, q, r);
  }

  lemma QuotientLess(x: nat, b: nat, q: int, r: nat)
    requires 2 <= b && 0 < x && x == b * q + r
    ensures q < x
  { if 0 < q { MulMonotone(2, b, q, q); } }

  lemma ModSmall(x: nat, b: nat)
    requires x < b
    ensures x % b == x
  {
    var q, r := x / b, x % b;
    assert x == b * q + r;
    assert q >= 1 ==> b * 1 <= b * q;
  }

  /** The magnitude printed: -xx for a negative signed argument, else xx as an unsigned 64-bit value. */
  function Magnitude(xx: i64, sign: bool): nat
  { if xx < 0 then (if sign then 0 - xx as int else xx as int + 0x1_0000_0000_0000_0000) else xx }

  predicate Minus(xx: i64, sign: bool) { sign && xx < 0 }

  function Buffer(xx: i64, base: nat, sign: bool): string
    requires 2 <= base <= 16
  { Stored(Magnitude(xx, sign), base) + if Minus(xx, sign) then ['-'] else [] }

  function Reverse(s: string): string { if s == [] then [] else Reverse(s[1..]) + [s[0]] }

  /** What reaches the console. */
  function Printed(xx: i64, base: nat, sign: bool): string
    requires 2 <= base <= 16
  { Reverse(Buffer(xx, base, sign)) }

  // ---------------------------------------------------------------- reading a number

  function Value(c: char): nat { if '0' <= c <= '9' then c as int - 48 else if 'a' <= c <= 'f' then c as int - 87 else 0 }

  /** An independent reader: digits from left to right, each step multiplying by the base. */
  function ReadDigits(s: string, base: nat): nat
  { if s == [] then 0 else ReadDigits(s[..|s| - 1], base) * base + Value(s[|s| - 1]) }

  function Read(s: string, base: nat): int
  { if s != [] && s[0] == '-' then 0 - ReadDigits(s[1..], base) as int else ReadDigits(s, base) }

  lemma DigitValue(d: nat)
    requires d < 16
    ensures Value(Digit(d)) == d && Digit(d) != '-'
  {}

  lemma {:induction false} ReverseLast(s: string)
    ensures |Reverse(s)| == |s|
    ensures s != [] ==> Reverse(s)[|s| - 1] == s[0] && Reverse(s)[..|s| - 1] == Reverse(s[1..])
  { if s != [] { ReverseLast(s[1..]); } }

  lemma ReadReverseCons(c: char, t: string, base: nat)
    ensures ReadDigits(Reverse([c] + t), base) == ReadDigits(Reverse(t), base) * base + Value(c)
  {
    var s := [c] + t;
    ReverseLast(s);
    assert s[1..] == t;
  }

  lemma DivMod(x: nat, b: nat)
    requires b > 0
    ensures x / b * b + x % b == x
  {}

  lemma {:induction false} ReadStored(x: nat, base: nat)
    requires 2 <= base <= 16
    ensures ReadDigits(Reverse(Stored(x, base)), base) == x
    decreases x
  {
    hide Reverse, ReadDigits, Value, Digit, Stored;
    StoredStep(x, base);
    if x < base {
      DigitValue(x);
      ReadReverseCons(Digit(x), [], base);
      ReadNothing(base);
      assert [Digit(x)] + [] == [Digit(x)];
    } else {
      DigitValue(x % base);
      ReadReverseCons(Digit(x % base), Stored(x / base, base), base);
      ReadStored(x / base, base);
      DivMod(x, base);
    }
  }

  lemma ReadNothing(base: nat)
    ensures ReadDigits(Reverse([]), base) == 0 && 0 * base == 0
  {}

  lemma StoredStep(x: nat, base: nat)
    requires 2 <= base <= 16
    ensures x < base ==> Stored(x, base) == [Digit(x)] && x % base == x
    ensures base <= x ==> Stored(x, base) == [Digit(x % base)] + Stored(x / base, base) && x / base < x
  {
    hide Digit;
    if x < base { ModSmall(x, base); } else { DivLess(x, base); }
  }

  lemma {:induction false} NoMinus(x: nat, base: nat)
    requires 2 <= base <= 16
    ensures '-' !in Stored(x, base)
    decreases x
  {
    hide Digit, Stored;
    StoredStep(x, base);
    DigitValue(x % base);
    if base <= x { NoMinus(x / base, base); }
  }

  lemma {:induction false} ReverseAppend(s: string, c: char)
    ensures Reverse(s + [c]) == [c] + Reverse(s)
  {
    if s != [] {
      assert (s + [c])[1..] == s[1..] + [c];
      ReverseAppend(s[1..], c);
    }
  }

  lemma {:induction false} ReverseHead(s: string)
    requires s != []
    ensures Reverse(s) != [] && Reverse(s)[0] == s[|s| - 1]
  {
    ReverseLast(s);
    if |s| > 1 { ReverseHead(s[1..]); ReverseLast(s[1..]); }
  }

  /** The text parses back to the argument, for every 64-bit value and every base. */
  lemma PrintedReadsBack(xx: i64, base: nat, sign: bool)
    requires 2 <= base <= 16
    ensures Read(Printed(xx, base, sign), base) == if sign then xx else Magnitude(xx, false)
  {
    hide Stored, Reverse, ReadDigits;
    var x := Magnitude(xx, sign);
    var s := Stored(x, base);
    ReadStored(x, base);
    if Minus(xx, sign) {
      ReverseAppend(s, '-');
      assert (['-'] + Reverse(s))[1..] == Reverse(s);
    } else {
      assert s + [] == s;
      NoMinus(x, base);
      ReverseHead(s);
      assert s[|s| - 1] in s;
    }
  }

  // ---------------------------------------------------------------- the buffer

  function Pow(b: nat, k: nat): nat { if k == 0 then 1 else b * Pow(b, k - 1) }

  lemma DivBelow(x: nat, b: nat, m: nat)
    requires b > 0
    ensures x / b < m <==> x < b * m
  {
    var q, r := x / b, x % b;
    assert x == b * q + r;
    if q < m { assert b * (q + 1) <= b * m; } else { assert b * m <= b * q; }
  }

  /** A number has at most k digits exactly when it is below base to the k. */
  lemma {:induction false} DigitCount(x: nat, base: nat, k: nat)
    requires 2 <= base <= 16 && k > 0
    ensures |Stored(x, base)| <= k <==> x < Pow(base, k)
    decreases k
  {
    assert Pow(base, 0) == 1 && Pow(base, k) == base * Pow(base, k - 1);
    hide Stored, Pow;
    StoredStep(x, base);
    if k == 1 {
      NoLessThanOne(x, base);
    } else {
      PowPositive(base, k - 1);
      if x < base {
        MulMonotone(base, base, 1, Pow(base, k - 1));
      } else {
        DivBelow(x, base, Pow(base, k - 1));
        DigitCount(x / base, base, k - 1);
      }
    }
  }

  lemma NoLessThanOne(x: nat, base: nat)
    requires 2 <= base <= 16
    ensures |Stored(x, base)| <= 1 <==> x < base
  {}

  lemma {:induction false} PowPositive(b: nat, k: nat)
    requires b > 0
    ensures Pow(b, k) > 0
  { if k > 0 { PowPositive(b, k - 1); } }

  lemma MulMonotone(a: nat, b: nat, c: nat, d: nat)
    requires a <= b && c <= d
    ensures a * c <= b * d
  {
    assert a * c <= b * c;
    assert b * c <= b * d;
  }

  lemma {:induction false} PowMonotone(a: nat, b: nat, k: nat)
    requires 0 < a <= b
    ensures Pow(a, k) <= Pow(b, k)
  {
    if k > 0 {
      PowMonotone(a, b, k - 1);
      MulMonotone(a, b, Pow(a, k - 1), Pow(b, k - 1));
    }
  }

  lemma {:induction false} PowStep(b: nat, k: nat, v: nat)
    requires k > 0 && Pow(b, k - 1) == v
    ensures Pow(b, k) == b * v
  {}

  lemma PowersOfTenAndNine()
    ensures Pow(10, 20) == 100_000_000_000_000_000_000 && Pow(10, 19) == 10_000_000_000_000_000_000
    ensures Pow(9, 20) == 12_157_665_459_056_928_801
  {
    assert Pow(10, 5) == 100_000 && Pow(9, 5) == 59_049;
    PowAdd(10, 5, 5); PowAdd(10, 10, 10); PowAdd(9, 5, 5); PowAdd(9, 10, 10);
    assert Pow(10, 10) == 10_000_000_000 && Pow(9, 10) == 3_486_784_401;
    PowStep(10, 20, Pow(10, 19));
  }

  lemma {:induction false} PowAdd(b: nat, j: nat, k: nat)
    ensures Pow(b, j + k) == Pow(b, j) * Pow(b, k)
  {
    if j > 0 {
      PowAdd(b, j - 1, k);
      MulAssoc(b, Pow(b, j - 1), Pow(b, k));
    }
  }

  lemma MulAssoc(a: int, b: int, c: int)
    ensures a * (b * c) == a * b * c
  {}

  /** The output fits the 20-byte buffer. */
  predicate Fits(xx: i64, base: nat, sign: bool)
    requires 2 <= base <= 16
  { |Buffer(xx, base, sign)| <= 20 }

  lemma FitsFromTen(xx: i64, base: nat, sign: bool)
    requires 10 <= base <= 16
    ensures Fits(xx, base, sign)
  {
    var x := Magnitude(xx, sign);
    PowersOfTenAndNine();
    PowMonotone(10, base, 20);
    PowMonotone(10, base, 19);
    DigitCount(x, base, 20);
    DigitCount(x, base, 19);
  }

  /** The buffer suffices for every value exactly from base 10 on; in base 9 or less, -1 unsigned overflows it. */
  lemma BufferSufficesExactly(base: nat)
    requires 2 <= base <= 16
    ensures (forall xx: i64, sign: bool :: Fits(xx, base, sign)) <==> 10 <= base
    ensures base < 10 ==> !Fits(-1, base, false)
  {
    if 10 <= base {
      forall xx: i64, sign: bool ensures Fits(xx, base, sign) { FitsFromTen(xx, base, sign); }
    } else {
      hide Pow, Stored;
      PowersOfTenAndNine();
      PowMonotone(base, 9, 20);
      DigitCount(Magnitude(-1, false), base, 20);
      assert Magnitude(-1, false) == 0xFFFF_FFFF_FFFF_FFFF;
      assert !Fits(-1, base, false);
    }
  }

  // ---------------------------------------------------------------- printf.c

  /** printint: the characters sent to the console, or false when a store would leave buf[20]. */
  method Printint(xx: i64, base: nat, sign: bool) returns (ok: bool, out: string)
    requires 2 <= base <= 16
    ensures ok <==> Fits(xx, base, sign)
    ensures ok ==> out == Printed(xx, base, sign)
  {
    hide Digit, Reverse, Magnitude, Stored;
    var buf := new char[20];
    var x: nat := Magnitude(xx, sign);
    ghost var x0: nat := x;
    var i, more := 0, true;
    out := "";
    while more
      invariant 0 <= i <= 20
      invariant more ==> Stored(x0, base) == buf[..i] + Stored(x, base)
      invariant !more ==> Stored(x0, base) == buf[..i]
      decreases if more then 1 else 0, x
    {
      if i == 20 { return false, ""; }
      ghost var before := buf[..i];
      StoredStep(x, base);
      more := x >= base;
      buf[i] := Digit(x % base);
      i := i + 1;
      assert buf[..i] == before + [Digit(x % base)];
      x := x / base;
    }
    ghost var text := Stored(x0, base);
    if Minus(xx, sign) {
      if i == 20 { return false, ""; }
      buf[i] := '-';
      i := i + 1;
      assert buf[..i] == text + ['-'];
    } else {
      assert text + [] == text;
    }
    assert buf[..i] == Buffer(xx, base, sign);
    out := Emit(buf, i);
    ok := true;
  }

  /** while (--i >= 0) consputc(buf[i]); */
  method Emit(buf: array<char>, n: nat) returns (out: string)
    requires n <= buf.Length
    ensures out == Reverse(buf[..n])
  {
    hide Reverse;
    var i := n;
    out := "";
    while i > 0
      invariant 0 <= i <= n
      invariant out + Reverse(buf[..i]) == Reverse(buf[..n])
    {
      i := i - 1;
      assert buf[..i + 1] == buf[..i] + [buf[i]];
      ReverseAppend(buf[..i], buf[i]);
      out := out + [buf[i]];
    }
    assert buf[..0] == [];
    ReverseNothing();
  }

  lemma ReverseNothing()
    ensures Reverse([]) == []
  {}
}
