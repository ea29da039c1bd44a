/** human_readable of coreutils/lib/human.c, where it needs no floating point: a four-valued
    flag stands for the part of the number that the digits no longer show. */
module Human {
  import opened HumanSpec
  import opened Digits

  const WORD: nat := 0x1_0000_0000_0000_0000

  /** What amt, tenths and rounding say about the number x: with d the rest beyond amt.tenths,
      flag 0 is d == 0, flag 1 is 0 < d < 0.05, flag 2 is d == 0.05, flag 3 is 0.05 < d < 0.1.
      Everything is multiplied by 20 here. */
  predicate Tells(amt: nat, tenths: nat, rounding: nat, x: real) {
    var d := 20.0 * x - (20 * amt + 2 * tenths) as real;
    && tenths <= 9
    && (rounding == 0 ==> d == 0.0)
    && (rounding == 1 ==> 0.0 < d < 1.0)
    && (rounding == 2 ==> d == 1.0)
    && (rounding == 3 ==> 1.0 < d < 2.0)
    && rounding <= 3
  }

  /** Integer part, tenths and flag are determined by the number. */
  lemma TellsOnce(amt: nat, tenths: nat, rounding: nat, amt': nat, tenths': nat, rounding': nat, x: real)
    requires Tells(amt, tenths, rounding, x) && Tells(amt', tenths', rounding', x)
    ensures amt == amt' && tenths == tenths' && rounding == rounding'
  {
  }

  // ----- Arithmetic -----

  /** Quotient and remainder by names of their own, which proofs can hide. */
  function Quot(n: nat, d: nat): nat
    requires d > 0
  {
    n / d
  }

  function Rest(n: nat, d: nat): nat
    requires d > 0
  {
    n % d
  }

  lemma DivMod(n: nat, d: nat)
    requires d > 0
    ensures n == d * Quot(n, d) + Rest(n, d) && Rest(n, d) < d
  {
  }

  lemma SmallerFactor(m: nat, a: int, b: int)
    requires m * a < m * b
    ensures a < b
  {
  }

  lemma QuotientBelow(w: nat, m: nat, n: nat)
    requires m > 0 && w < m * n
    ensures Quot(w, m) < n
  {
    hide Quot, Rest;
    DivMod(w, m);
    SmallerFactor(m, Quot(w, m), n);
  }

  lemma QuotientOfProduct(n: nat, m: nat)
    requires m > 0
    ensures Quot(n * m, m) == n
  {
    hide Quot, Rest;
    DivMod(n * m, m);
    var q, r := Quot(n * m, m), Rest(n * m, m);
    assert m * (n - q) == r;
    SmallerFactor(m, n - q, 1);
    SmallerFactor(m, -1, n - q);
  }

  lemma QuotientSmall(n: nat, d: nat)
    requires d > 0
    ensures Quot(n, d) <= n
  {
    hide Quot;
    BelowProduct(n, d);
    QuotientBelow(n, d, n + 1);
  }

  lemma BelowProduct(n: nat, d: nat)
    requires d > 0
    ensures n < d * (n + 1)
  {
  }

  lemma LaterQuotient(a: nat, b: nat, d: nat)
    requires d > 0 && a + d <= b
    ensures Quot(a, d) < Quot(b, d)
  {
    hide Quot, Rest;
    DivMod(b, d);
    QuotientBelow(a, d, Quot(b, d));
  }

  lemma RealQuotient(x: real, y: real)
    requires y != 0.0
    ensures x * y / y == x
  {
  }

  lemma CancelFactor(n: real, f: real, d: real)
    requires f != 0.0 && d != 0.0 && f * d != 0.0
    ensures n * f / (f * d) == n / d
  {
    var x := n / d;
    assert x * d == n;
    assert n * f == x * (f * d);
    RealQuotient(x, f * d);
  }

  lemma SignOfProduct(x: real, e: real)
    requires e > 0.0
    ensures x * e == 0.0 <==> x == 0.0
    ensures x * e > 0.0 <==> x > 0.0
  {
  }

  // ----- Into units of the output block size -----

  /** n blocks of size `from` in units of size `to`. */
  function Blocks(n: nat, from: nat, to: nat): real
    requires to > 0
  {
    n as real * from as real / to as real
  }

  /** The two cases human_readable computes with integers. */
  predicate Multiplies(n: nat, from: nat, to: nat)
    requires to > 0
  {
    to <= from && Rest(from, to) == 0 && n * Quot(from, to) < WORD
  }

  predicate Divides(from: nat, to: nat) {
    0 < from < to && Rest(to, from) == 0
  }

  predicate IsTimes(a: nat, k: nat, b: nat) {
    a == k * b
  }

  /** The ratio of the block sizes is a whole number, upwards or downwards, and the number of blocks
      fits a word. */
  lemma IntegerPathExactly(n: nat, from: nat, to: nat)
    requires to > 0
    ensures Multiplies(n, from, to) <==> from >= to && exists k: nat :: IsTimes(from, k, to) && n * k < WORD
    ensures Divides(from, to) <==> from < to && exists k: nat :: IsTimes(to, k, from)
  {
    WholeRatio(from, to);
    if from > 0 {
      WholeRatio(to, from);
    }
  }

  lemma WholeRatio(a: nat, b: nat)
    requires b > 0
    ensures Rest(a, b) == 0 ==> IsTimes(a, Quot(a, b), b)
    ensures forall k: nat | IsTimes(a, k, b) :: Rest(a, b) == 0 && Quot(a, b) == k
  {
    DivMod(a, b);
    forall k: nat | IsTimes(a, k, b) ensures Rest(a, b) == 0 && Quot(a, b) == k {
      MultipleDivides(k, b);
    }
  }

  lemma MultipleDivides(k: nat, b: nat)
    requires b > 0
    ensures Rest(k * b, b) == 0 && Quot(k * b, b) == k
  {
    hide Quot, Rest;
    QuotientOfProduct(k, b);
    DivMod(k * b, b);
  }

  /** Ten times the remainder, and twice the remainder of that, fit a word. */
  predicate RemaindersFit(n: nat, divisor: nat)
    requires divisor > 0
  {
    var r10 := Rest(n, divisor) * 10;
    r10 < WORD && Rest(r10, divisor) * 2 < WORD
  }

  /** The triple describes the true number. */
  predicate Lossless(n: nat, from: nat, to: nat)
    requires to > 0
  {
    Divides(from, to) ==> Quot(to, from) > 0 && RemaindersFit(n, Quot(to, from))
  }

  /** The overflow test is exact: amt / multiplier gives n back iff the product fit. */
  lemma OverflowTest(n: nat, m: nat)
    requires n < WORD && 0 < m
    ensures Quot((n * m) % WORD, m) == n <==> n * m < WORD
  {
    hide Quot;
    assert n * m == m * n;
    if n * m < WORD {
      QuotientOfProduct(n, m);
    } else {
      QuotientBelow((n * m) % WORD, m, n);
    }
  }

  lemma MultiplierExact(n: nat, from: nat, to: nat)
    requires 0 < to <= from && Rest(from, to) == 0
    ensures Quot(from, to) > 0 && Blocks(n, from, to) == (n * Quot(from, to)) as real
  {
    hide Quot, Rest;
    DivMod(from, to);
    var m := Quot(from, to);
    assert n as real * from as real == (n * m) as real * to as real;
    RealQuotient((n * m) as real, to as real);
  }

  lemma DivisorRatio(n: nat, from: nat, to: nat)
    requires 0 < from <= to && Rest(to, from) == 0
    ensures 0 < Quot(to, from) <= to && Blocks(n, from, to) == n as real / Quot(to, from) as real
  {
    hide Quot, Rest;
    DivMod(to, from);
    QuotientSmall(to, from);
    var d := Quot(to, from);
    assert d > 0;
    assert to as real == from as real * d as real;
    CancelFactor(n as real, from as real, d as real);
  }

  /** The flag computed from twice a remainder. */
  function Flag(r2: nat, d: nat): nat {
    if r2 < d then (if 0 < r2 then 1 else 0) else 2 + (if d < r2 then 1 else 0)
  }

  /** The remainders classify the quotient. */
  lemma DivisorTells(n: nat, d: nat)
    requires d > 0
    ensures var r10 := Rest(n, d) * 10;
            r10 < 10 * d && Tells(Quot(n, d), Quot(r10, d), Flag(Rest(r10, d) * 2, d), n as real / d as real)
  {
    hide Quot, Rest;
    DivMod(n, d);
    var q, r := Quot(n, d), Rest(n, d);
    DivMod(r * 10, d);
    var t, s := Quot(r * 10, d), Rest(r * 10, d);
    QuotientBelow(r * 10, d, 10);
    Scaled20(n, d, q, r, t, s);
    RestTimesDivisor(n, d, 20 * q + 2 * t, 2 * s);
    Classify(20.0 * (n as real / d as real) - (20 * q + 2 * t) as real, d, 2 * s);
  }

  lemma Scaled20(n: nat, d: nat, q: nat, r: nat, t: nat, s: nat)
    requires n == d * q + r && r * 10 == d * t + s
    ensures 20 * n == (20 * q + 2 * t) * d + 2 * s
  {
    assert (20 * q + 2 * t) * d == 20 * (d * q) + 2 * (d * t);
  }

  lemma RestTimesDivisor(n: nat, d: nat, k: nat, s2: nat)
    requires d > 0 && 20 * n == k * d + s2
    ensures (20.0 * (n as real / d as real) - k as real) * d as real == s2 as real
  {
    var x := n as real / d as real;
    assert x * d as real == n as real;
    assert (20.0 * x - k as real) * d as real == 20.0 * (x * d as real) - k as real * d as real;
    assert k as real * d as real == (k * d) as real;
  }

  lemma Classify(delta: real, d: nat, s2: nat)
    requires d > 0 && delta * d as real == s2 as real && s2 < 2 * d
    ensures s2 == 0 ==> delta == 0.0
    ensures 0 < s2 < d ==> 0.0 < delta < 1.0
    ensures s2 == d ==> delta == 1.0
    ensures d < s2 ==> 1.0 < delta < 2.0
  {
    var e := d as real;
    assert (delta - 1.0) * e == s2 as real - e;
    assert (delta - 2.0) * e == s2 as real - 2.0 * e;
    SignOfProduct(delta, e);
    SignOfProduct(delta - 1.0, e);
    SignOfProduct(delta - 2.0, e);
  }

  lemma WrongTriple(amt: nat, t: nat, f: nat, t': nat, f': nat, x: real)
    requires Tells(amt, t, f, x) && (t != t' || f != f')
    ensures !Tells(amt, t', f', x)
  {
    if Tells(amt, t', f', x) {
      TellsOnce(amt, t, f, amt, t', f', x);
    }
  }

  lemma WrapsByOne(x: nat)
    ensures x < WORD ==> x % WORD == x
    ensures x >= WORD ==> x % WORD <= x - WORD
  {
  }

  /** On words the classification is right exactly when neither product wraps. */
  lemma DivisorTellsOnWords(q: nat, t10: nat, d: nat, x: real)
    requires 0 < d < WORD && t10 < 10 * d && Tells(q, Quot(t10, d), Flag(Rest(t10, d) * 2, d), x)
    ensures var r10 := t10 % WORD;
            var r2 := (Rest(r10, d) * 2) % WORD;
            && Quot(r10, d) <= 9
            && (Tells(q, Quot(r10, d), Flag(r2, d), x) <==> t10 < WORD && Rest(t10, d) * 2 < WORD)
  {
    hide Tells, Quot, Rest;
    var r10, s := t10 % WORD, Rest(t10, d);
    WrapsByOne(t10);
    WrapsByOne(s * 2);
    DivMod(t10, d);
    QuotientBelow(r10, d, 10);
    var f, f' := Flag(s * 2, d), Flag((Rest(r10, d) * 2) % WORD, d);
    if t10 >= WORD {
      LaterQuotient(r10, t10, d);
      WrongTriple(q, Quot(t10, d), f, Quot(r10, d), f', x);
    } else if s * 2 >= WORD {
      WrongTriple(q, Quot(t10, d), f, Quot(r10, d), f', x);
    }
  }

  /** A number on its way to the output: integer part, tenths, flag, and the power it is in. */
  datatype Scaled = Scaled(amt: nat, tenths: nat, rounding: nat, exponent: nat)

  /** The triple as the words hold it: both products may wrap. */
  function WordTriple(n: nat, d: nat): Scaled
    requires d > 0
  {
    var r10 := (Rest(n, d) * 10) % WORD;
    Scaled(Quot(n, d), Quot(r10, d), Flag((Rest(r10, d) * 2) % WORD, d), 0)
  }

  /** Division into larger blocks. */
  method DivideOnWords(n: nat, divisor: nat) returns (amt: nat, tenths: nat, rounding: nat)
    requires n < WORD && 0 < divisor < WORD
    ensures amt <= n && tenths <= 9 && rounding <= 3
    ensures Scaled(amt, tenths, rounding, 0) == WordTriple(n, divisor)
    ensures Tells(amt, tenths, rounding, n as real / divisor as real) <==> RemaindersFit(n, divisor)
  {
    hide Tells, Quot, Rest;
    DivisorTells(n, divisor);
    DivisorTellsOnWords(Quot(n, divisor), Rest(n, divisor) * 10, divisor, n as real / divisor as real);
    QuotientSmall(n, divisor);
    var r10 := (Rest(n, divisor) * 10) % WORD;
    var r2 := (Rest(r10, divisor) * 2) % WORD;
    amt := Quot(n, divisor);
    tenths := Quot(r10, divisor);
    rounding := if r2 < divisor then (if 0 < r2 then 1 else 0) else 2 + (if divisor < r2 then 1 else 0);
  }

  lemma IntegerTells(amt: nat)
    ensures Tells(amt, 0, 0, amt as real)
  {
  }

  /** The number of blocks in units of the output size, if integers can tell: lines 171 to 198
      of human.c. */
  method Adjust(n: nat, from: nat, to: nat) returns (exact: bool, amt: nat, tenths: nat, rounding: nat)
    requires n < WORD && from < WORD && 0 < to < WORD
    ensures exact <==> Multiplies(n, from, to) || Divides(from, to)
    ensures amt < WORD && tenths <= 9 && rounding <= 3
    ensures exact ==> (Tells(amt, tenths, rounding, Blocks(n, from, to)) <==> Lossless(n, from, to))
    ensures Divides(from, to) ==>
              Quot(to, from) > 0 && Scaled(amt, tenths, rounding, 0) == WordTriple(n, Quot(to, from))
  {
    hide Quot, Rest, Blocks, RemaindersFit, WordTriple, Tells, Flag;
    exact, amt, tenths, rounding := false, 0, 0, 0;
    if to <= from {
      if Rest(from, to) == 0 {
        var multiplier := Quot(from, to);
        MultiplierExact(n, from, to);
        OverflowTest(n, multiplier);
        amt := (n * multiplier) % WORD;
        if Quot(amt, multiplier) == n {
          assert amt == n * multiplier;
          IntegerTells(amt);
          exact := true;
        }
      }
    } else if from != 0 && Rest(to, from) == 0 {
      DivisorRatio(n, from, to);
      amt, tenths, rounding := DivideOnWords(n, Quot(to, from));
      exact := true;
    }
  }

  // ----- Scaling -----

  /** One round of the scaling loop. */
  function ScaleStep(s: Scaled, base: nat): Scaled
    requires IsBase(base)
  {
    var r10 := (s.amt % base) * 10 + s.tenths;
    var r2 := (r10 % base) * 2 + s.rounding / 2;
    Scaled(s.amt / base,
           r10 / base,
           if r2 < base then (if r2 + s.rounding != 0 then 1 else 0)
           else 2 + (if base < r2 + s.rounding then 1 else 0),
           s.exponent + 1)
  }

  /** The flag stays exact under division by the base. */
  lemma StepTells(s: Scaled, base: nat, x: real)
    requires IsBase(base) && Tells(s.amt, s.tenths, s.rounding, x)
    ensures var r := ScaleStep(s, base); Tells(r.amt, r.tenths, r.rounding, Down(base, x))
  {
    var r10 := (s.amt % base) * 10 + s.tenths;
    assert s.amt == base * (s.amt / base) + s.amt % base;
    assert r10 == base * (r10 / base) + r10 % base;
    if base == 1000 {
      StepTells1000(s, x);
    } else {
      StepTells1024(s, x);
    }
  }

  lemma StepTells1000(s: Scaled, x: real)
    requires Tells(s.amt, s.tenths, s.rounding, x)
    ensures var r := ScaleStep(s, 1000); Tells(r.amt, r.tenths, r.rounding, x / 1000.0)
  {
    var r10 := (s.amt % 1000) * 10 + s.tenths;
    var rest := r10 % 1000;
    var d := 20.0 * x - (20 * s.amt + 2 * s.tenths) as real;
    var d' := 20.0 * (x / 1000.0) - (20 * (s.amt / 1000) + 2 * (r10 / 1000)) as real;
    assert 1000.0 * d' == d + (2 * rest) as real;
  }

  lemma StepTells1024(s: Scaled, x: real)
    requires Tells(s.amt, s.tenths, s.rounding, x)
    ensures var r := ScaleStep(s, 1024); Tells(r.amt, r.tenths, r.rounding, x / 1024.0)
  {
    var r10 := (s.amt % 1024) * 10 + s.tenths;
    var rest := r10 % 1024;
    var d := 20.0 * x - (20 * s.amt + 2 * s.tenths) as real;
    var d' := 20.0 * (x / 1024.0) - (20 * (s.amt / 1024) + 2 * (r10 / 1024)) as real;
    assert 1024.0 * d' == d + (2 * rest) as real;
  }

  lemma AmtDecides(s: Scaled, base: nat, x: real)
    requires IsBase(base) && Tells(s.amt, s.tenths, s.rounding, x)
    ensures base <= s.amt <==> x >= base as real
    ensures s.amt < 10 <==> x < 10.0
  {
  }

  /** The scaling loop computes the scaled number with its exponent, if it started from a
      faithful triple. */
  method Scale(start: Scaled, base: nat, ghost x: real) returns (s: Scaled)
    requires IsBase(base) && start.exponent == 0 && start.tenths <= 9 && start.rounding <= 3
    ensures s.amt <= start.amt && s.tenths <= 9 && s.rounding <= 3 && s.exponent <= EXPONENT_MAX
    ensures s.exponent >= 1 <==> base <= start.amt
    ensures s.exponent == 0 ==> s == start
    ensures s.amt < base || s.exponent == EXPONENT_MAX
    ensures Tells(start.amt, start.tenths, start.rounding, x) ==>
              var (y, e) := Scaling(base, x, 0); Tells(s.amt, s.tenths, s.rounding, y) && s.exponent == e
  {
    hide Tells, Scaling, Down, ScaleStep;
    s := start;
    ghost var tells := Tells(start.amt, start.tenths, start.rounding, x);
    ghost var y := x;
    while base <= s.amt && s.exponent < EXPONENT_MAX
      invariant s.amt <= start.amt && s.tenths <= 9 && s.rounding <= 3 && s.exponent <= EXPONENT_MAX
      invariant s.exponent >= 1 ==> base <= start.amt
      invariant s.exponent == 0 ==> s == start
      invariant tells ==> Tells(s.amt, s.tenths, s.rounding, y) && Scaling(base, y, s.exponent) == Scaling(base, x, 0)
      decreases EXPONENT_MAX - s.exponent
    {
      StepBounds(s, base);
      if tells {
        StepTells(s, base, y);
        AmtDecides(s, base, y);
        ScalingUnfolds(base, y, s.exponent);
      }
      y := Down(base, y);
      s := ScaleOnce(s, base);
    }
    if tells {
      AmtDecides(s, base, y);
      ScalingUnfolds(base, y, s.exponent);
    }
  }

  lemma ScalingUnfolds(base: nat, y: real, e: nat)
    requires IsBase(base) && e <= EXPONENT_MAX
    ensures y >= base as real && e < EXPONENT_MAX ==> Scaling(base, y, e) == Scaling(base, Down(base, y), e + 1)
    ensures y < base as real || e == EXPONENT_MAX ==> Scaling(base, y, e) == (y, e)
  {
  }

  /** The body of the loop. */
  method ScaleOnce(s: Scaled, base: nat) returns (r: Scaled)
    requires IsBase(base)
    ensures r == ScaleStep(s, base)
  {
    var r10 := (s.amt % base) * 10 + s.tenths;
    var r2 := (r10 % base) * 2 + s.rounding / 2;
    r := s;
    r := r.(amt := r.amt / base);
    r := r.(tenths := r10 / base);
    if r2 < base {
      r := r.(rounding := if r2 + r.rounding != 0 then 1 else 0);
    } else {
      r := r.(rounding := 2 + if base < r2 + r.rounding then 1 else 0);
    }
    r := r.(exponent := r.exponent + 1);
  }

  lemma StepBounds(s: Scaled, base: nat)
    requires IsBase(base) && s.tenths <= 9 && s.rounding <= 3
    ensures var r := ScaleStep(s, base);
            r.amt <= s.amt && r.tenths <= 9 && r.rounding <= 3 && r.exponent == s.exponent + 1
  {
  }

  // ----- Rounding and printing -----

  /** The digits of the integer part, and a decimal if there is a point. */
  datatype Printed = Printed(amt: nat, point: bool, tenths: nat)

  datatype Options = Options(style: Style, base: nat, autoscale: bool, suppressPointZero: bool)

  /** Rounding to one decimal. */
  function RoundTenths(style: Style, s: Scaled): Scaled {
    var up := if style == Nearest then 2 < s.rounding + s.tenths % 2 else style == Ceiling && 0 < s.rounding;
    if !up then s
    else if s.tenths + 1 == 10 then s.(amt := s.amt + 1, tenths := 0, rounding := 0)
    else s.(tenths := s.tenths + 1, rounding := 0)
  }

  predicate RoundsUp(style: Style, s: Scaled) {
    if style == Nearest then 5 < s.tenths + (if 0 < s.rounding + s.amt % 2 then 1 else 0)
    else style == Ceiling && 0 < s.tenths + s.rounding
  }

  /** Lines 273 to 319 of human.c: what is printed of a scaled number, and its exponent. */
  function Decide(o: Options, s: Scaled): (Printed, nat)
    requires IsBase(o.base)
  {
    var t := if s.exponent >= 1 && s.amt < 10 then RoundTenths(o.style, s) else s;
    if s.exponent >= 1 && s.amt < 10 && t.amt < 10 && (t.tenths != 0 || !o.suppressPointZero)
    then (Printed(t.amt, true, t.tenths), s.exponent)
    else if !RoundsUp(o.style, t) then (Printed(t.amt, false, 0), s.exponent)
    else if t.amt + 1 == o.base && s.exponent < EXPONENT_MAX
    then (Printed(1, !o.suppressPointZero, 0), s.exponent + 1)
    else (Printed(t.amt + 1, false, 0), s.exponent)
  }

  /** The number the digits show. */
  function Number(p: Printed): real {
    p.amt as real + p.tenths as real / 10.0
  }

  /** The digits are the number rounded at the precision they are printed with. */
  predicate RoundedAt(style: Style, p: Printed, y: real) {
    if p.point then p.tenths <= 9 && 10 * p.amt + p.tenths == Round(style, 10.0 * y)
    else p.tenths == 0 && p.amt == Round(style, y)
  }

  lemma SameParity(amt: nat, tenths: nat)
    ensures (10 * amt + tenths) % 2 == tenths % 2
  {
  }

  lemma TenthsRounded(style: Style, s: Scaled, x: real)
    requires Tells(s.amt, s.tenths, s.rounding, x)
    ensures var t := RoundTenths(style, s);
            && 10 * t.amt + t.tenths == Round(style, 10.0 * x)
            && t.tenths <= 9 && t.rounding <= 3 && s.amt <= t.amt <= s.amt + 1 && t.exponent == s.exponent
            && (t.amt != s.amt ==> t.tenths == 0 && t.rounding == 0)
            && (style == Nearest ==> t.rounding <= 2)
            && (style == Ceiling ==> t.rounding == 0)
            && (t.rounding > 0 ==> t == s)
  {
    hide Tells, Round;
    TenFloor(s, x);
    TellsBounds(s, x);
    RoundFromFloor(style, 10.0 * x, 10 * s.amt + s.tenths);
    SameParity(s.amt, s.tenths);
  }

  lemma RoundFromFloor(style: Style, z: real, k: int)
    requires z.Floor == k
    ensures var rest := z - k as real;
            Round(style, z) == match style
                               case Floor => k
                               case Ceiling => if rest == 0.0 then k else k + 1
                               case Nearest => if rest < 0.5 || (rest == 0.5 && k % 2 == 0) then k else k + 1
  {
  }

  lemma TenFloor(s: Scaled, x: real)
    requires Tells(s.amt, s.tenths, s.rounding, x)
    ensures (10.0 * x).Floor == 10 * s.amt + s.tenths
    ensures var rest := 10.0 * x - (10 * s.amt + s.tenths) as real;
            && (rest == 0.0 <==> s.rounding == 0) && (rest < 0.5 <==> s.rounding < 2) &&
               (rest == 0.5 <==> s.rounding == 2)
  {
  }

  lemma UnitsRounded(style: Style, s: Scaled, x: real)
    requires Tells(s.amt, s.tenths, s.rounding, x)
    ensures (if RoundsUp(style, s) then s.amt + 1 else s.amt) == Round(style, x)
  {
  }

  /** Once the tenths are rounded and gone, rounding to units changes nothing and agrees with
      rounding the number itself. */
  lemma NoSecondRounding(style: Style, s: Scaled, x: real)
    requires Tells(s.amt, s.tenths, s.rounding, x) && RoundTenths(style, s).tenths == 0
    ensures var t := RoundTenths(style, s);
            !RoundsUp(style, t) && t.amt == Round(style, x) && Round(style, 10.0 * x) == 10 * t.amt
  {
    TenthsRounded(style, s, x);
  }

  lemma RollOver(style: Style, base: nat, x: real)
    requires IsBase(base) && Round(style, x) == base && x < base as real
    ensures Round(style, Down(base, x)) == 1 && Round(style, 10.0 * Down(base, x)) == 10
  {
  }

  /** The decision is right for x: the digits are rounded as asked, and show the local number. */
  predicate Decided(o: Options, s: Scaled, p: Printed, e: nat, x: real)
    requires IsBase(o.base)
  {
    && (e == s.exponent || (e == s.exponent + 1 <= EXPONENT_MAX && Number(p) == 1.0))
    && RoundedAt(o.style, p, if e == s.exponent then x else Down(o.base, x))
    && (if e == s.exponent then Number(p) else Up(o.base, Number(p))) == Local(o.style, x, s.exponent)
  }

  lemma DecideSmall(o: Options, s: Scaled, x: real)
    requires IsBase(o.base) && Tells(s.amt, s.tenths, s.rounding, x) && s.exponent >= 1 && s.amt < 10
    ensures var (p, e) := Decide(o, s); Decided(o, s, p, e, x)
  {
    hide Round, RoundTenths, RoundsUp, Tells, Up, Down;
    TellsBounds(s, x);
    TenthsRounded(o.style, s, x);
    if RoundTenths(o.style, s).tenths == 0 {
      NoSecondRounding(o.style, s, x);
    }
  }

  lemma DecideLarge(o: Options, s: Scaled, x: real)
    requires IsBase(o.base) && Tells(s.amt, s.tenths, s.rounding, x)
    requires s.amt < o.base || s.exponent == EXPONENT_MAX
    requires s.exponent == 0 || s.amt >= 10
    ensures var (p, e) := Decide(o, s); Decided(o, s, p, e, x)
  {
    hide Round, RoundTenths, RoundsUp, Tells, Down;
    TellsBounds(s, x);
    UnitsRounded(o.style, s, x);
    if s.amt < o.base && Round(o.style, x) == o.base {
      RollOver(o.style, o.base, x);
    }
  }

  /** Whatever is printed is the true number, rounded as asked at the printed precision; and
      it is the number the real-valued rule shows. */
  lemma DecideIsExact(o: Options, s: Scaled, x: real)
    requires IsBase(o.base) && Tells(s.amt, s.tenths, s.rounding, x)
    requires s.amt < o.base || s.exponent == EXPONENT_MAX
    ensures var (p, e) := Decide(o, s); Decided(o, s, p, e, x)
  {
    hide Decide, Decided, Tells;
    if s.exponent >= 1 && s.amt < 10 {
      DecideSmall(o, s, x);
    } else {
      DecideLarge(o, s, x);
    }
  }

  lemma TellsBounds(s: Scaled, x: real)
    requires Tells(s.amt, s.tenths, s.rounding, x)
    ensures s.amt as real <= x < s.amt as real + 1.0
    ensures s.tenths <= 9 && s.rounding <= 3
  {
  }

  // ----- The whole conversion -----

  const MB_LEN_MAX: nat := 16

  /** LONGEST_HUMAN_READABLE and the place where the suffix begins. */
  const LONGEST: nat := (2 * 8 * 8 * 146 / 485 + 1) * (MB_LEN_MAX + 1) - MB_LEN_MAX + 1 + 3
  const SUFFIX: nat := LONGEST - 3

  /** The text: digits, and the decimal point of the locale with one digit. */
  function PrintedText(p: Printed, point: string): string
    requires p.tenths <= 9
  {
    Decimal(p.amt) + if p.point then point + [DigitChar(p.tenths)] else []
  }

  /** Read as a decimal number, with this decimal point or without one, the text is x. */
  ghost predicate ReadsAs(text: string, hasPoint: bool, point: string, x: real) {
    if !hasPoint then text != "" && AllDigits(text) && ParseNat(text) as real == x
    else
      exists whole, tenth {:trigger whole + point + tenth} ::
        && text == whole + point + tenth && whole != "" && AllDigits(whole) && |tenth| == 1 && AllDigits(tenth)
        && ParseNat(whole) as real + ParseNat(tenth) as real / 10.0 == x
  }

  predicate AllDigits(s: string) {
    forall k | 0 <= k < |s| :: IsDigit(s[k])
  }

  /** The text printed reads as the number that was to be printed. */
  lemma PrintedReads(p: Printed, point: string)
    requires p.tenths <= 9 && (!p.point ==> p.tenths == 0)
    ensures ReadsAs(PrintedText(p, point), p.point, point, Number(p))
  {
    DecimalIsNumeral(p.amt);
    if p.point {
      DecimalIsNumeral(p.tenths);
      var whole, tenth := Decimal(p.amt), Decimal(p.tenths);
      assert PrintedText(p, point) == whole + point + tenth;
    } else {
      assert PrintedText(p, point) == Decimal(p.amt);
    }
  }

  /** A point is printed exactly for a scaled number below 10, unless its decimal is zero and zeros are
      not wanted. */
  predicate PointRight(o: Options, p: Printed, exponent: int) {
    && (p.point <==> exponent >= 1 && p.amt < 10 && (p.tenths != 0 || !o.suppressPointZero))
    && p.tenths <= 9 && (!p.point ==> p.tenths == 0)
  }

  lemma PointShown(o: Options, s: Scaled)
    requires IsBase(o.base) && s.tenths <= 9 && s.rounding <= 3
    ensures var (p, e) := Decide(o, s); PointRight(o, p, e)
  {
  }

  lemma WordDigits(n: nat)
    requires n <= WORD
    ensures 1 <= |Decimal(n)| <= 20
  {
    assert WORD < TEN_16 * 10_000;
    TwentyDigits();
    DecimalLength(n, 20);
    DecimalIsNumeral(n);
  }

  lemma TwentyDigits()
    ensures Pow(10, 20) == TEN_16 * 10_000
  {
    hide Pow;
    SmallPowers();
    Squared(10, 2, 100);
    Squared(10, 4, 10_000);
    Squared(10, 8, 1_0000_0000);
    Times(10, 16, TEN_16, 4, 10_000);
  }

  /** `*--p = '0' + tenths`, then the decimal point in front of it. */
  method WritePoint(buf: array<char>, p: nat, tenths: nat, point: string) returns (q: nat)
    requires tenths <= 9 && |point| + 1 <= p == SUFFIX < buf.Length
    modifies buf
    ensures q == SUFFIX - 1 - |point| && buf[q..SUFFIX] == point + [DigitChar(tenths)]
  {
    buf[p - 1] := '0' + tenths as char;
    q := p - 1 - |point|;
    forall k | 0 <= k < |point| {
      buf[q + k] := point[k];
    }
    assert buf[q..p - 1] == point;
    assert buf[q..SUFFIX] == buf[q..p - 1] + [buf[p - 1]];
  }

  /** The digits of the integer part, in front of what is already there. */
  method WriteDigits(buf: array<char>, p: nat, n: nat) returns (q: nat)
    requires n <= WORD && 20 <= p <= SUFFIX < buf.Length
    modifies buf
    ensures q < p && buf[q..SUFFIX] == Decimal(n) + old(buf[p..SUFFIX])
  {
    hide Decimal;
    WordDigits(n);
    q := p;
    var i: nat := n;
    ghost var tail := buf[p..SUFFIX];
    while true
      invariant 0 <= q <= p && |Decimal(i)| <= q
      invariant Decimal(n) + tail == Decimal(i) + buf[q..SUFFIX]
      invariant i < n || q == p
      decreases i
    {
      DecimalIsNumeral(i);
      DigitWritten(i);
      ghost var before := buf[q..SUFFIX];
      ghost var rest := i;
      var digit := i % 10;
      q := Prepend(buf, q, digit as char + '0', SUFFIX);
      i := i / 10;
      if i == 0 {
        break;
      }
      DecimalIsNumeral(i);
      assert Decimal(i) + ([DigitChar(rest % 10)] + before) == Decimal(rest) + before;
    }
  }

  /** Lines 249 to 327 of human.c: from the triple to the text in the buffer. The exponent is
      -1 when the block size is fixed. */
  method Print(o: Options, start: Scaled, buf: array<char>, point: string, ghost x: real)
    returns (p: nat, exponent: int, printed: Printed)
    requires IsBase(o.base) && start.exponent == 0 && start.tenths <= 9 && start.rounding <= 3
    requires start.amt < WORD && 1 <= |point| <= MB_LEN_MAX && buf.Length >= LONGEST
    modifies buf
    ensures p <= SUFFIX && printed.tenths <= 9 && buf[p..SUFFIX] == PrintedText(printed, point)
    ensures PointRight(o, printed, exponent)
    ensures Tells(start.amt, start.tenths, start.rounding, x) ==> Shows(o, x, printed, exponent)
    ensures !o.autoscale || start.amt + 1 < o.base ==>
              && printed == Printed(if RoundsUp(o.style, start) then start.amt + 1 else start.amt, false, 0)
              && exponent == if o.autoscale then 0 else -1
  {
    hide Tells, Scaling, Decimal, Local, Down, Up, RoundTenths, RoundsUp;
    var s := start;
    if o.autoscale {
      s := Scale(start, o.base, x);
    }
    ghost var decided := Decide(o, s);
    PointShown(o, s);
    ghost var y := if o.autoscale then Scaling(o.base, x, 0).0 else x;
    if Tells(start.amt, start.tenths, start.rounding, x) {
      if o.autoscale {
        DecideIsExact(o, s, y);
      } else {
        UnitsRounded(o.style, s, x);
      }
    }
    p, exponent, printed := Finish(o, s, buf, point);
  }

  /** What human_readable owes for the number x: with a fixed block size, x rounded to an
      integer; with automatic scaling, x in units of the printed power rounded at the printed
      precision, one decimal at most, and never a different number than the real-valued rule
      shows. */
  ghost predicate Shows(o: Options, x: real, p: Printed, exponent: int)
    requires IsBase(o.base)
  {
    if !o.autoscale then exponent == -1 && !p.point && p.tenths == 0 && p.amt == Round(o.style, x)
    else
      var (y, e) := Scaling(o.base, x, 0);
      && (exponent == e || (exponent == e + 1 <= EXPONENT_MAX && Number(p) == 1.0))
      && RoundedAt(o.style, p, if exponent == e then y else Down(o.base, y))
      && (if exponent == e then Number(p) else Up(o.base, Number(p))) == Local(o.style, y, e)
  }

  /** Lines 273 to 327. */
  method Finish(o: Options, s: Scaled, buf: array<char>, point: string)
      returns (p: nat, exponent: int, printed: Printed)
    requires IsBase(o.base) && s.tenths <= 9 && s.rounding <= 3 && s.amt < WORD
    requires !o.autoscale ==> s.exponent == 0
    requires 1 <= |point| <= MB_LEN_MAX && buf.Length >= LONGEST
    modifies buf
    ensures p <= SUFFIX && printed.tenths <= 9 && buf[p..SUFFIX] == PrintedText(printed, point)
    ensures o.autoscale ==> (printed, exponent) == Decide(o, s)
    ensures !o.autoscale ==>
              exponent == -1 && printed == Printed(if RoundsUp(o.style, s) then s.amt + 1 else s.amt, false, 0)
  {
    printed, exponent := Settle(o, s);
    p := WriteText(buf, printed, point);
  }

  /** Lines 273 to 319, but for the writes of the decimal and the point. */
  method Settle(o: Options, s: Scaled) returns (printed: Printed, exponent: int)
    requires IsBase(o.base) && s.tenths <= 9 && s.rounding <= 3 && s.amt < WORD
    requires !o.autoscale ==> s.exponent == 0
    ensures printed.tenths <= 9 && printed.amt <= WORD
    ensures o.autoscale ==> (printed, exponent) == Decide(o, s)
    ensures !o.autoscale ==>
              exponent == -1 && printed == Printed(if RoundsUp(o.style, s) then s.amt + 1 else s.amt, false, 0)
  {
    hide RoundTenths, RoundsUp;
    var t := s;
    exponent := if o.autoscale then s.exponent else -1;
    var hasPoint, decimal := false, 0;
    if o.autoscale && s.exponent >= 1 && s.amt < 10 {
      t := RoundToTenths(o.style, s);
      if t.amt < 10 && (t.tenths != 0 || !o.suppressPointZero) {
        hasPoint, decimal := true, t.tenths;
        t := t.(tenths := 0, rounding := 0);
        NothingLeft(o.style, t);
      }
    }
    var amt := RoundToUnits(o.style, t);
    if amt != t.amt && o.autoscale && amt == o.base && exponent < EXPONENT_MAX {
      exponent := exponent + 1;
      if !o.suppressPointZero {
        hasPoint, decimal := true, 0;
      }
      amt := 1;
    }
    printed := Printed(amt, hasPoint, decimal);
  }

  /** The decimal and the point, then the digits in front of them (lines 292 to 294, 313 to
      315 and 323 to 327). */
  method WriteText(buf: array<char>, printed: Printed, point: string) returns (p: nat)
    requires printed.tenths <= 9 && printed.amt <= WORD
    requires 1 <= |point| <= MB_LEN_MAX && buf.Length >= LONGEST
    modifies buf
    ensures p <= SUFFIX && buf[p..SUFFIX] == PrintedText(printed, point)
  {
    hide Decimal;
    p := SUFFIX;
    if printed.point {
      p := WritePoint(buf, p, printed.tenths, point);
    }
    p := WriteDigits(buf, p, printed.amt);
  }

  /** Lines 275 to 287. */
  method RoundToTenths(style: Style, s: Scaled) returns (t: Scaled)
    requires s.tenths <= 9
    ensures t == RoundTenths(style, s) && t.tenths <= 9 && s.amt <= t.amt <= s.amt + 1
  {
    t := s;
    if (if style == Nearest then 2 < t.rounding + t.tenths % 2 else style == Ceiling && 0 < t.rounding) {
      t := t.(tenths := t.tenths + 1, rounding := 0);
      if t.tenths == 10 {
        t := t.(amt := t.amt + 1, tenths := 0);
      }
    }
  }

  /** Lines 301 to 305. */
  method RoundToUnits(style: Style, t: Scaled) returns (amt: nat)
    ensures amt == if RoundsUp(style, t) then t.amt + 1 else t.amt
  {
    amt := t.amt;
    if (if style == Nearest then 5 < t.tenths + (if 0 < t.rounding + amt % 2 then 1 else 0)
        else style == Ceiling && 0 < t.tenths + t.rounding) {
      amt := amt + 1;
    }
  }

  lemma NothingLeft(style: Style, t: Scaled)
    requires t.tenths == 0 && t.rounding == 0
    ensures !RoundsUp(style, t)
  {
  }

  // ----- Blocks so large that the remainders wrap -----

  /** Whether the quotient is to be rounded up to an integer. */
  predicate MustRoundUp(style: Style, n: nat, d: nat)
    requires d > 0
  {
    match style
    case Floor => false
    case Ceiling => Rest(n, d) != 0
    case Nearest => 2 * Rest(n, d) > d || (2 * Rest(n, d) == d && Quot(n, d) % 2 == 1)
  }

  lemma RoundQuotient(style: Style, n: nat, d: nat)
    requires d > 0
    ensures Round(style, n as real / d as real) == if MustRoundUp(style, n, d) then Quot(n, d) + 1 else Quot(n, d)
    ensures Quot(n, d) as real <= n as real / d as real < (Quot(n, d) + 1) as real
  {
    hide Quot, Rest;
    DivMod(n, d);
    var x, q, r, e := n as real / d as real, Quot(n, d), Rest(n, d), d as real;
    assert x * e == n as real;
    assert (q as real) * e == (q * d) as real;
    var f := x - q as real;
    assert f * e == r as real by {
      assert f * e == x * e - q as real * e;
    }
    assert (f - 1.0) * e == r as real - e && (f - 0.5) * e == r as real - 0.5 * e;
    SignOfProduct(f, e);
    SignOfProduct(f - 1.0, e);
    SignOfProduct(f - 0.5, e);
    assert x.Floor == q;
  }

  /** The number is shown right: either the remainders do not wrap, or what they have become
      leads to the same decision. */
  predicate ShownRight(style: Style, n: nat, from: nat, to: nat)
    requires to > 0
  {
    Divides(from, to) ==>
      && Quot(to, from) > 0
      && var d := Quot(to, from);
      RemaindersFit(n, d) || (RoundsUp(style, WordTriple(n, d)) <==> MustRoundUp(style, n, d))
  }

  lemma WrapMeansSmall(n: nat, d: nat)
    requires n < WORD && d > 0 && !RemaindersFit(n, d)
    ensures Quot(n, d) <= 9
  {
    hide Quot, Rest;
    DivMod(n, d);
    var r10 := Rest(n, d) * 10;
    DivMod(r10, d);
    assert d > WORD / 10;
    if Quot(n, d) >= 10 {
      SmallMultiple(d, Quot(n, d));
    }
  }

  lemma SmallMultiple(d: nat, q: nat)
    requires q >= 10
    ensures d * q >= 10 * d
  {
  }

  /** A number too small to be scaled is shown right exactly if it is rounded as asked. */
  lemma UnscaledShows(o: Options, x: real, q: nat, up: bool)
    requires IsBase(o.base) && q <= 9 && q as real <= x < (q + 1) as real
    ensures var p := Printed(if up then q + 1 else q, false, 0);
            Shows(o, x, p, if o.autoscale then 0 else -1) <==> p.amt == Round(o.style, x)
  {
    hide Down, Up, Tells;
    ScalingUnfolds(o.base, x, 0);
  }

  /** With rounding down nothing can go wrong. */
  lemma FloorIsShownRight(n: nat, from: nat, to: nat)
    requires to > 0
    ensures ShownRight(Floor, n, from, to)
  {
    if Divides(from, to) {
      DivMod(to, from);
    }
  }

  /** With rounding up it does for these three remainders alone. */
  lemma CeilingIsShownRight(n: nat, from: nat, to: nat)
    requires 0 < to < WORD && Divides(from, to) && Quot(to, from) > 0
    ensures var d := Quot(to, from);
            var r := Rest(n, d);
            ShownRight(Ceiling, n, from, to) <==>
              !(r == 0x8000_0000_0000_0000 ||
                (d > 0x8000_0000_0000_0000 && (r == 0x4000_0000_0000_0000 || r == 0xC000_0000_0000_0000)))
  {
    var d := Quot(to, from);
    hide Quot, Rest, Divides, WordTriple, RoundsUp;
    DivMod(n, d);
    QuotientSmall(to, from);
    TripleIsZero(n, d);
    TenTimes(Rest(n, d));
    assert RoundsUp(Ceiling, WordTriple(n, d)) <==> WordTriple(n, d).tenths + WordTriple(n, d).rounding > 0 by {
      CeilingRoundsUp(WordTriple(n, d));
    }
    if RemaindersFit(n, d) {
      FittingTripleRoundsUp(n, d);
    }
  }

  /** Ten times a remainder, of a quotient q by d, asks for rounding to the nearest to go up. */
  predicate OverHalf(tenfold: nat, d: nat, q: nat) {
    tenfold > 5 * d || (tenfold == 5 * d && q % 2 == 1)
  }

  /** Rounding to the nearest never goes up where it should not; it is wrong exactly where it should
      and ten times the remainder, once wrapped, does not ask for it. */
  lemma NearestIsShownRight(n: nat, from: nat, to: nat)
    requires 0 < to < WORD && Divides(from, to) && Quot(to, from) > 0
    ensures var d, q := Quot(to, from), Quot(n, Quot(to, from));
            var r10 := Rest(n, d) * 10;
            ShownRight(Nearest, n, from, to) <==> (OverHalf(r10, d, q) ==> OverHalf(r10 % WORD, d, q))
  {
    var d := Quot(to, from);
    hide Quot, Rest, Divides, WordTriple, RoundsUp;
    QuotientSmall(to, from);
    NearestOnWords(n, d);
    var r10 := Rest(n, d) * 10;
    WrapsByOne(r10);
    assert MustRoundUp(Nearest, n, d) <==> OverHalf(r10, d, Quot(n, d));
  }

  /** A wrap of twice the second remainder does not matter. */
  lemma NearestOnWords(n: nat, d: nat)
    requires 0 < d < WORD
    ensures RoundsUp(Nearest, WordTriple(n, d)) <==> OverHalf(Rest(n, d) * 10 % WORD, d, Quot(n, d))
  {
    hide Quot, Rest;
    var w := Rest(n, d) * 10 % WORD;
    DivMod(w, d);
    var t, s := Quot(w, d), Rest(w, d);
    TimesBounds(d, t);
    WrapsByOne(s * 2);
    assert t == 5 ==> (s == 0 <==> Flag((s * 2) % WORD, d) == 0);
  }

  lemma TimesBounds(d: nat, t: nat)
    ensures t <= 4 ==> d * t <= 4 * d
    ensures t == 5 ==> d * t == 5 * d
    ensures t >= 6 ==> d * t >= 6 * d
  {
  }

  lemma CeilingRoundsUp(s: Scaled)
    ensures RoundsUp(Ceiling, s) <==> s.tenths + s.rounding > 0
  {
  }

  lemma TripleIsZero(n: nat, d: nat)
    requires 0 < d < WORD
    ensures var r10, w := (Rest(n, d) * 10) % WORD, WordTriple(n, d);
            w.tenths + w.rounding == 0 <==> r10 < d && (r10 == 0 || r10 == 0x8000_0000_0000_0000)
  {
    hide Quot, Rest;
    var r10 := (Rest(n, d) * 10) % WORD;
    DivMod(r10, d);
    QuotientZero(r10, d);
  }

  lemma FittingTripleRoundsUp(n: nat, d: nat)
    requires 0 < d < WORD && RemaindersFit(n, d)
    ensures WordTriple(n, d).tenths + WordTriple(n, d).rounding > 0 <==> Rest(n, d) != 0
  {
    hide Quot, Rest;
    TripleIsZero(n, d);
    var r10 := Rest(n, d) * 10;
    DivMod(r10, d);
    QuotientZero(r10, d);
  }

  lemma QuotientZero(n: nat, d: nat)
    requires d > 0
    ensures Quot(n, d) == 0 <==> n < d
  {
  }

  lemma TenTimes(r: nat)
    requires r < WORD
    ensures (r * 10) % WORD == 0 || (r * 10) % WORD == 0x8000_0000_0000_0000 <==>
              r == 0 || r == 0x4000_0000_0000_0000 || r == 0x8000_0000_0000_0000 || r == 0xC000_0000_0000_0000
  {
    var k := r * 10 / WORD;
    assert 0 <= k <= 9;
  }

  /** human_readable, up to grouping and suffix; `exact` is false where the source falls back
      on floating point. */
  method HumanReadable(n: nat, buf: array<char>, o: Options, from: nat, to: nat, point: string)
    returns (exact: bool, p: nat, exponent: int, printed: Printed)
    requires n < WORD && from < WORD && 0 < to < WORD && IsBase(o.base)
    requires 1 <= |point| <= MB_LEN_MAX && buf.Length >= LONGEST
    modifies buf
    ensures exact <==> Multiplies(n, from, to) || Divides(from, to)
    ensures exact ==> p <= SUFFIX && printed.tenths <= 9 && buf[p..SUFFIX] == PrintedText(printed, point)
    ensures exact ==> p <= SUFFIX && ReadsAs(buf[p..SUFFIX], printed.point, point, Number(printed))
    ensures exact ==> PointRight(o, printed, exponent)
    ensures exact ==> (Shows(o, Blocks(n, from, to), printed, exponent) <==> ShownRight(o.style, n, from, to))
  {
    hide Shows, WordTriple, RoundsUp, MustRoundUp, Blocks, RemaindersFit, Tells, Quot, Rest;
    var amt, tenths, rounding;
    exact, amt, tenths, rounding := Adjust(n, from, to);
    p, exponent, printed := 0, -1, Printed(0, false, 0);
    if exact {
      p, exponent, printed := Print(o, Scaled(amt, tenths, rounding, 0), buf, point, Blocks(n, from, to));
      PrintedReads(printed, point);
      if !Lossless(n, from, to) {
        WrappedShows(o, n, from, to);
      }
    }
  }

  /** What is shown when the remainders wrap. */
  lemma WrappedShows(o: Options, n: nat, from: nat, to: nat)
    requires IsBase(o.base) && n < WORD && to > 0 && Divides(from, to) && !Lossless(n, from, to)
    ensures var d := Quot(to, from);
            d > 0 &&
            var w := WordTriple(n, d);
            && w.amt <= 9
            && (Shows(o, Blocks(n, from, to),
                        Printed(if RoundsUp(o.style, w) then w.amt + 1 else w.amt, false, 0),
                        if o.autoscale then 0 else -1)
                <==> ShownRight(o.style, n, from, to))
  {
    hide Shows, RoundsUp, MustRoundUp, Blocks, RemaindersFit, Tells, Quot, Rest;
    DivisorRatio(n, from, to);
    var d := Quot(to, from);
    WrapMeansSmall(n, d);
    RoundQuotient(o.style, n, d);
    UnscaledShows(o, n as real / d as real, Quot(n, d), RoundsUp(o.style, WordTriple(n, d)));
  }

  /** Where the products wrap the result can be wrong: 3 * 2^60 bytes are three quarters of a
      block of 2^62, which rounds to 1; the wrapped tenths say 3, and nothing is added. Rounded
      up, the same number is shown right. */
  lemma WrappedTenthsMislead()
    ensures var n, to := 0x3000_0000_0000_0000, 0x4000_0000_0000_0000;
            && Divides(1, to) && WordTriple(n, to) == Scaled(0, 3, 2, 0)
            && !ShownRight(Nearest, n, 1, to) && ShownRight(Ceiling, n, 1, to)
  {
    var n, to := 0x3000_0000_0000_0000, 0x4000_0000_0000_0000;
    assert Quot(to, 1) == to;
  }

  // ----- Order -----

  /** The number shown, in output blocks. */
  ghost function Value(o: Options, p: Printed, exponent: int): real
    requires IsBase(o.base)
  {
    if exponent < 0 then Number(p) else Units(Number(p), PowReal(o.base, exponent))
  }

  lemma ShowsValue(o: Options, x: real, p: Printed, exponent: int)
    requires IsBase(o.base) && Shows(o, x, p, exponent)
    ensures Value(o, p, exponent) == if o.autoscale then Shown(o.style, o.base, x, 0) else Round(o.style, x) as real
  {
    hide Units, Local, Up, Down;
    if o.autoscale {
      ShownByScaling(o.style, o.base, x, 0);
      var (y, e) := Scaling(o.base, x, 0);
      if exponent == e + 1 {
        UnitsUp(o.base, 1.0, PowReal(o.base, e));
        UnitsSwap(o.base, 1.0, PowReal(o.base, e));
      }
    }
  }

  lemma UnitsSwap(base: nat, l: real, p: real)
    requires IsBase(base)
    ensures Units(Up(base, l), p) == Units(l, Up(base, p))
  {
  }

  lemma BlocksMonotone(n: nat, n': nat, from: nat, to: nat)
    requires n <= n' && to > 0
    ensures Blocks(n, from, to) <= Blocks(n', from, to)
  {
    var f, t := from as real, to as real;
    var a, b := n as real * f, n' as real * f;
    assert b - a == (n' - n) as real * f >= 0.0;
    assert a / t * t == a && b / t * t == b;
    assert (b / t - a / t) * t == b - a;
    SignOfProduct(a / t - b / t, t);
  }

  /** With the same options and block sizes, a larger number is never shown as a smaller one. */
  lemma OrderPreserved(o: Options, from: nat, to: nat, n: nat, p: Printed, e: int, n': nat, p': Printed, e': int)
    requires IsBase(o.base) && to > 0 && n <= n'
    requires Shows(o, Blocks(n, from, to), p, e) && Shows(o, Blocks(n', from, to), p', e')
    ensures Value(o, p, e) <= Value(o, p', e')
  {
    hide Shows, Value, Blocks;
    BlocksMonotone(n, n', from, to);
    ShowsValue(o, Blocks(n, from, to), p, e);
    ShowsValue(o, Blocks(n', from, to), p', e');
    if o.autoscale {
      ShownMonotone(o.style, o.base, Blocks(n, from, to), Blocks(n', from, to), 0);
    } else {
      RoundMonotone(o.style, Blocks(n, from, to), Blocks(n', from, to));
    }
  }
}
