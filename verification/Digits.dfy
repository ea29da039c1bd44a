/** Decimal text: the length bound of coreutils/lib/intprops.h and the conversion of
    coreutils/lib/inttostr.c, for every width of integer. */
module Digits {

  function Pow(b: nat, e: nat): nat {
    if e == 0 then 1 else b * Pow(b, e - 1)
  }

  function DigitChar(d: nat): char
    requires d < 10
  {
    '0' + d as char
  }

  function DigitValue(c: char): int {
    c as int - '0' as int
  }

  function Decimal(n: nat): (s: string) {
    if n < 10 then [DigitChar(n)] else Decimal(n / 10) + [DigitChar(n % 10)]
  }

  /** The text of an integer: a minus sign and no plus sign, no superfluous zero. */
  function Text(i: int): string {
    if i < 0 then "-" + Decimal(-i) else Decimal(i)
  }

  function ParseNat(s: string): int {
    if s == [] then 0 else 10 * ParseNat(s[..|s| - 1]) + DigitValue(s[|s| - 1])
  }

  function Parse(s: string): int {
    if s != [] && s[0] == '-' then -ParseNat(s[1..]) else ParseNat(s)
  }

  predicate IsDigit(c: char) {
    '0' <= c <= '9'
  }

  lemma {:induction false} DecimalIsNumeral(n: nat)
    ensures Decimal(n) != [] && forall k | 0 <= k < |Decimal(n)| :: IsDigit(Decimal(n)[k])
    ensures ParseNat(Decimal(n)) == n
    ensures n > 0 ==> Decimal(n)[0] != '0'
    ensures n == 0 ==> Decimal(n) == "0"
  {
    var s := Decimal(n);
    if n < 10 {
      assert s[..|s| - 1] == [];
    } else {
      DecimalIsNumeral(n / 10);
      assert s[..|s| - 1] == Decimal(n / 10);
    }
  }

  /** Parsing the text gives the number back; the text has no leading zero. */
  lemma TextParses(i: int)
    ensures Parse(Text(i)) == i
    ensures Text(i) == "0" || (Text(i)[0] != '0' && !("-0" <= Text(i)))
  {
    DecimalIsNumeral(if i < 0 then -i else i);
    if i < 0 {
      assert Text(i)[1..] == Decimal(-i);
    }
  }

  lemma {:induction false} DecimalLength(n: nat, k: nat)
    requires k >= 1
    ensures |Decimal(n)| <= k <==> n < Pow(10, k)
  {
    if k == 1 {
      assert Pow(10, 1) == 10;
      if n >= 10 {
        DecimalIsNumeral(n / 10);
      }
    } else if n < 10 {
      PowPositive(10, k - 1);
    } else {
      DecimalLength(n / 10, k - 1);
      assert n < 10 * Pow(10, k - 1) <==> n / 10 < Pow(10, k - 1);
    }
  }

  // ----- Powers -----

  lemma {:induction false} PowPositive(b: nat, e: nat)
    requires b > 0
    ensures Pow(b, e) >= 1
  {
    if e > 0 {
      PowPositive(b, e - 1);
      Product(1, b, 1, Pow(b, e - 1));
    }
  }

  lemma Product(a: nat, b: nat, c: nat, d: nat)
    requires a <= b && c <= d
    ensures a * c <= b * d
  {
    assert a * c <= b * c by { assert b * c == a * c + (b - a) * c; }
    assert b * c <= b * d by { assert b * d == b * c + b * (d - c); }
  }

  lemma {:induction false} PowAdd(b: nat, x: nat, y: nat)
    ensures Pow(b, x + y) == Pow(b, x) * Pow(b, y)
  {
    if x > 0 {
      PowAdd(b, x - 1, y);
      Associate(b, Pow(b, x - 1), Pow(b, y));
    }
  }

  lemma Associate(a: nat, b: nat, c: nat)
    ensures a * (b * c) == (a * b) * c
  {
  }

  lemma {:induction false} PowPow(b: nat, x: nat, y: nat)
    ensures Pow(b, x * y) == Pow(Pow(b, x), y)
  {
    if y == 0 {
      assert x * y == 0;
    } else {
      PowPow(b, x, y - 1);
      assert x * y == x + x * (y - 1);
      PowAdd(b, x, x * (y - 1));
    }
  }

  lemma {:induction false} PowBaseMonotone(a: nat, b: nat, e: nat)
    requires a <= b
    ensures Pow(a, e) <= Pow(b, e)
  {
    if e > 0 {
      PowBaseMonotone(a, b, e - 1);
      Product(a, b, Pow(a, e - 1), Pow(b, e - 1));
    }
  }

  lemma PowExponentMonotone(b: nat, x: nat, y: nat)
    requires b > 0 && x <= y
    ensures Pow(b, x) <= Pow(b, y)
  {
    PowAdd(b, x, y - x);
    PowPositive(b, y - x);
    PowPositive(b, x);
    Product(Pow(b, x), Pow(b, x), 1, Pow(b, y - x));
  }

  // ----- log10 2 < 146/485 -----

  const TWO_40: nat := 0x100_0000_0000
  const TWO_80: nat := TWO_40 * TWO_40
  const TWO_160: nat := TWO_80 * TWO_80
  const TWO_320: nat := TWO_160 * TWO_160
  const TEN_16: nat := 10_000_000_000_000_000
  const TEN_32: nat := TEN_16 * TEN_16
  const TEN_64: nat := TEN_32 * TEN_32
  const TEN_128: nat := TEN_64 * TEN_64

  lemma Squared(b: nat, e: nat, v: nat)
    requires Pow(b, e) == v
    ensures Pow(b, 2 * e) == v * v
  {
    PowAdd(b, e, e);
  }

  lemma Times(b: nat, x: nat, v: nat, y: nat, w: nat)
    requires Pow(b, x) == v && Pow(b, y) == w
    ensures Pow(b, x + y) == v * w
  {
    PowAdd(b, x, y);
  }

  lemma SmallPowers()
    ensures Pow(2, 5) == 32 && Pow(10, 2) == 100
  {
  }

  lemma PowersOfTwo()
    ensures Pow(2, 485) == TWO_320 * TWO_160 * 32
  {
    hide Pow;
    SmallPowers();
    Squared(2, 5, 32);
    Squared(2, 10, 1024);
    Squared(2, 20, 0x10_0000);
    Squared(2, 40, TWO_40);
    Squared(2, 80, TWO_80);
    Squared(2, 160, TWO_160);
    Times(2, 320, TWO_320, 160, TWO_160);
    Times(2, 480, TWO_320 * TWO_160, 5, 32);
  }

  lemma PowersOfTen()
    ensures Pow(10, 146) == TEN_128 * TEN_16 * 100
  {
    hide Pow;
    SmallPowers();
    Squared(10, 2, 100);
    Squared(10, 4, 10_000);
    Squared(10, 8, 1_0000_0000);
    Squared(10, 16, TEN_16);
    Squared(10, 32, TEN_32);
    Squared(10, 64, TEN_64);
    Times(10, 128, TEN_128, 16, TEN_16);
    Times(10, 144, TEN_128 * TEN_16, 2, 100);
  }

  lemma LogBound()
    ensures Pow(2, 485) < Pow(10, 146)
  {
    hide Pow;
    PowersOfTwo();
    PowersOfTen();
  }

  lemma SmallerBase(a: nat, b: nat, e: nat)
    requires Pow(a, e) < Pow(b, e)
    ensures a < b
  {
    if b <= a {
      PowBaseMonotone(b, a, e);
    }
  }

  /** 2^m has at most floor(146 m / 485) + 1 digits, for every m. */
  lemma PowerOfTwoDigits(m: nat)
    ensures Pow(2, m) < Pow(10, m * 146 / 485 + 1)
  {
    hide Pow;
    var k := m * 146 / 485;
    PowPow(2, m, 485);
    PowPow(2, 485, m);
    PowPow(10, 146, m);
    PowPow(10, k + 1, 485);
    LogBound();
    PowBaseMonotone(Pow(2, 485), Pow(10, 146), m);
    OneMore(10, 146 * m);
    PowExponentMonotone(10, 146 * m + 1, (k + 1) * 485);
    SmallerBase(Pow(2, m), Pow(10, k + 1), 485);
  }

  lemma OneMore(b: nat, e: nat)
    requires b >= 2
    ensures Pow(b, e) < Pow(b, e + 1)
  {
    PowPositive(b, e);
    var p := Pow(b, e);
    assert b * p >= 2 * p by {
      Product(2, b, p, p);
    }
  }

  // ----- intprops.h -----

  /** INT_STRLEN_BOUND for a type of w bits. */
  function StrlenBound(w: nat, signed: bool): nat
    requires w >= 1
  {
    var s := if signed then 1 else 0;
    (w - s) * 146 / 485 + s + 1
  }

  /** INT_BUFSIZE_BOUND, with room for the terminating null. */
  function BufsizeBound(w: nat, signed: bool): nat
    requires w >= 1
  {
    StrlenBound(w, signed) + 1
  }

  /** The values of an integer type of w bits, two's complement if signed. */
  predicate Fits(i: int, w: nat, signed: bool)
    requires w >= 1
  {
    if signed then -(Pow(2, w - 1) as int) <= i < Pow(2, w - 1) else 0 <= i < Pow(2, w)
  }

  /** Every value of every width fits the bound. */
  lemma TextFits(i: int, w: nat, signed: bool)
    requires w >= 1 && Fits(i, w, signed)
    ensures |Text(i)| <= StrlenBound(w, signed)
  {
    var m := if signed then w - 1 else w;
    PowerOfTwoDigits(m);
    DecimalLength(if i < 0 then -i else i, m * 146 / 485 + 1);
  }

  // ----- inttostr.c -----

  /** C's remainder and quotient truncate towards zero. */
  function Rem10(i: int): int {
    if i < 0 then -((-i) % 10) else i % 10
  }

  function Div10(i: int): int {
    if i < 0 then -((-i) / 10) else i / 10
  }

  /** The digit both branches write: '0' - i % 10 for a negative i, '0' + i % 10 otherwise. */
  lemma DigitWritten(i: int)
    ensures var rest := if i < 0 then -i else i;
            && '0' as int + (if i < 0 then -Rem10(i) else Rem10(i)) == DigitChar(rest % 10) as int
            && (if Div10(i) < 0 then -Div10(i) else Div10(i)) == rest / 10
            && (Div10(i) < 0 ==> i < 0) && (Div10(i) > 0 ==> i > 0)
            && (Div10(i) != 0 ==> Decimal(rest) == Decimal(rest / 10) + [DigitChar(rest % 10)])
            && (Div10(i) == 0 ==> Decimal(rest) == [DigitChar(rest % 10)])
  {
  }

  /** `*--p = c`, in front of the text that ends at `end`. */
  method Prepend(buf: array<char>, p: nat, c: char, ghost end: nat) returns (q: nat)
    requires 1 <= p <= end < buf.Length
    modifies buf
    ensures q == p - 1 && buf[q..end] == [c] + old(buf[p..end]) && buf[end] == old(buf[end])
  {
    q := p - 1;
    buf[q] := c;
  }

  /** inttostr: digits are written backwards from the end of the buffer, and the pointer never
      passes its beginning. */
  method IntToStr(value: int, w: nat, signed: bool, buf: array<char>) returns (p: nat)
    requires w >= 1 && Fits(value, w, signed) && buf.Length >= BufsizeBound(w, signed)
    modifies buf
    ensures p <= StrlenBound(w, signed) && buf[StrlenBound(w, signed)] == 0 as char
    ensures buf[p..StrlenBound(w, signed)] == Text(value)
  {
    hide Pow, Decimal, Fits;
    TextFits(value, w, signed);
    var i := value;
    var end := StrlenBound(w, signed);
    p := end;
    buf[p] := 0 as char;
    ghost var size := if value < 0 then -value else value;
    while true
      invariant if value < 0 then i < 0 else i >= 0
      invariant 0 <= p <= end < buf.Length && buf[end] == 0 as char
      invariant Decimal(size) == Decimal(if i < 0 then -i else i) + buf[p..end]
      decreases if i < 0 then -i else i
    {
      ghost var before, rest := buf[p..end], (if i < 0 then -i else i);
      DecimalIsNumeral(rest);
      DigitWritten(i);
      p := Prepend(buf, p, (if value < 0 then '0' as int - Rem10(i) else '0' as int + Rem10(i)) as char, end);
      i := Div10(i);
      if i == 0 {
        break;
      }
      assert Decimal(rest / 10) + ([DigitChar(rest % 10)] + before) == Decimal(rest) + before;
    }
    if value < 0 {
      p := Prepend(buf, p, '-', end);
    }
  }
}
