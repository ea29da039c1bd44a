/** The size arithmetic of the hash table (coreutils/lib/hash.c): primality by trial
    division with a running square, and rounding up to a prime, on 64-bit `size_t`. */
module Primes {

  const WORD: nat := 0x1_0000_0000_0000_0000
  const SIZE_MAX: nat := WORD - 1

  /** A square root of -7 modulo 2^64. No loop of `IsPrime` ever gets past it. */
  const ROOT: nat := 1852311383259529397

  predicate Prime(n: nat) {
    n >= 2 && forall d | 2 <= d < n :: n % d != 0
  }

  /** No odd number of `[3, limit)` divides n. */
  ghost predicate NoOddDivisorBelow(n: nat, limit: nat) {
    forall d | 3 <= d < limit && d % 2 == 1 :: n % d != 0
  }

  lemma ScaleSign(a: int, x: int)
    requires a >= 0
    ensures x >= 1 ==> a * x >= a
    ensures x <= -1 ==> a * x <= -a
  {
  }

  lemma ScaleOrder(a: nat, b: nat, c: nat)
    ensures a <= b ==> a * c <= b * c && c * a <= c * b
  {
  }

  lemma MultipleRemainder(a: nat, b: nat)
    requires a > 0
    ensures (a * b) % a == 0
  {
    var q, r := (a * b) / a, (a * b) % a;
    assert a * b == a * q + r;
    assert a * (b - q) == r;
    ScaleSign(a, b - q);
  }

  lemma OddProduct(e: nat, f: nat)
    requires (e * f) % 2 == 1
    ensures e % 2 == 1 && f % 2 == 1
  {
    var g, h := e / 2, f / 2;
    assert (2 * g) * f == 2 * (g * f);
    assert e * (2 * h) == 2 * (e * h);
  }

  lemma RootBelow(m: nat, limit: nat)
    requires m * m <= limit * limit
    ensures m <= limit
  {
    if m > limit {
      ScaleOrder(limit + 1, m, m);
      ScaleOrder(limit, m, limit);
    }
  }

  lemma Cofactor(n: nat, e: nat) returns (f: nat)
    requires e > 0 && n % e == 0
    ensures n == e * f
  {
    f := n / e;
  }

  lemma CofactorDivides(e: nat, f: nat)
    requires e > 0 && f > 0
    ensures (e * f) % e == 0 && (e * f) % f == 0
  {
    MultipleRemainder(e, f);
    MultipleRemainder(f, e);
    assert e * f == f * e;
  }

  lemma CofactorProper(e: nat, f: nat)
    requires 2 <= e < e * f
    ensures f >= 2
  {
    ScaleOrder(f, 1, e);
  }

  /** A proper divisor of an odd number yields an odd one at or below the square root. */
  lemma SmallOddDivisor(n: nat, e: nat) returns (m: nat)
    requires n % 2 == 1 && 2 <= e < n && n % e == 0
    ensures m % 2 == 1 && 3 <= m && n % m == 0 && m * m <= n
  {
    var f := Cofactor(n, e);
    OddProduct(e, f);
    CofactorProper(e, f);
    CofactorDivides(e, f);
    if e <= f {
      m := e;
      ScaleOrder(e, f, e);
    } else {
      m := f;
      ScaleOrder(f, e, f);
    }
  }

  /** Trial division may stop at the square root. */
  lemma TrialDivisionSuffices(n: nat, limit: nat)
    requires n % 2 == 1 && n >= 11
    requires limit >= 3 && limit * limit >= n
    requires NoOddDivisorBelow(n, limit) && n % limit != 0
    ensures Prime(n)
  {
    forall e | 2 <= e < n
      ensures n % e != 0
    {
      if n % e == 0 {
        var m := SmallOddDivisor(n, e);
        RootBelow(m, limit);
      }
    }
  }

  lemma WrapSum(x: nat, y: nat)
    ensures (x % WORD + y) % WORD == (x + y) % WORD
  {
    assert x == WORD * (x / WORD) + x % WORD;
  }

  /** One update of the running square, on a wrapping word. */
  lemma NextSquare(divisor: nat)
    ensures ((divisor * divisor) % WORD + 4 * (divisor + 1)) % WORD
            == ((divisor + 2) * (divisor + 2)) % WORD
  {
    assert (divisor + 2) * (divisor + 2) == divisor * divisor + 4 * (divisor + 1);
    WrapSum(divisor * divisor, 4 * (divisor + 1));
  }

  /** The three odd words above 2^64 - 7 have small divisors. */
  lemma TopWords(n: nat, limit: nat)
    requires n < WORD && n % 2 == 1 && limit > 13 && NoOddDivisorBelow(n, limit)
    ensures n <= WORD - 7
  {
    assert n % 3 != 0 && n % 11 != 0 && n % 13 != 0;
  }

  lemma NothingBelowThree(n: nat)
    ensures NoOddDivisorBelow(n, 3)
  {
  }

  lemma OneMoreDivisor(n: nat, d: nat)
    requires d % 2 == 1 && n % 2 == 1
    requires NoOddDivisorBelow(n, d) && (d > 0 ==> n % d != 0)
    ensures NoOddDivisorBelow(n, d + 2)
  {
  }

  lemma DivisorRefutes(n: nat, d: nat)
    requires 2 <= d < n
    ensures n % d == 0 ==> !Prime(n)
  {
  }

  /** `is_prime`. The square wraps above 2^32, and the answer is nevertheless exact for
      every odd word: by then every divisor up to the root has been tried, and the loop
      stops at the latest at ROOT, whose square wraps to 2^64 - 7. */
  method IsPrime(candidate: nat) returns (r: bool)
    requires 11 <= candidate < WORD && candidate % 2 == 1
    ensures r <==> Prime(candidate)
  {
    hide Prime, NoOddDivisorBelow;
    NothingBelowThree(candidate);
    var divisor := 3;
    var square := divisor * divisor;
    while square < candidate && candidate % divisor != 0
      invariant 3 <= divisor <= ROOT && divisor < candidate && divisor % 2 == 1
      invariant square == (divisor * divisor) % WORD
      invariant divisor * divisor >= WORD ==> candidate > ROOT
      invariant NoOddDivisorBelow(candidate, divisor)
      decreases ROOT - divisor
    {
      if divisor == ROOT {
        assert (ROOT * ROOT) % WORD == WORD - 7;
        TopWords(candidate, divisor);
        assert false;
      }
      NextSquare(divisor);
      ghost var before := divisor;
      divisor := divisor + 1;
      square := (square + 4 * divisor) % WORD;
      divisor := divisor + 1;
      StaysBelow(before, candidate);
      OneMoreDivisor(candidate, before);
    }
    DivisorRefutes(candidate, divisor);
    if candidate % divisor != 0 {
      assert divisor * divisor >= square >= candidate;
      TrialDivisionSuffices(candidate, divisor);
    }
    r := candidate % divisor != 0;
  }

  lemma StaysBelow(divisor: nat, candidate: nat)
    requires 3 <= divisor < ROOT && divisor % 2 == 1 && candidate < WORD
    requires (divisor * divisor) % WORD < candidate
    requires divisor * divisor >= WORD ==> candidate > ROOT
    ensures divisor + 2 <= ROOT
    ensures divisor + 2 < candidate || candidate > ROOT
    ensures (divisor + 2) * (divisor + 2) >= WORD ==> candidate > ROOT
  {
    if divisor * divisor < WORD {
      assert divisor * divisor < candidate;
      assert divisor * divisor >= 3 * divisor;
      if divisor < 0xFFFF_FFFF {
        assert divisor + 2 <= 0xFFFF_FFFF;
        assert (divisor + 2) * (divisor + 2) <= 0xFFFF_FFFF * 0xFFFF_FFFF;
      } else {
        assert divisor * divisor >= 0xFFFF_FFFF * 0xFFFF_FFFF;
      }
    }
  }

  /** The least prime from an odd word on, or SIZE_MAX when there is none below it. */
  ghost function PrimeFrom(c: nat): (p: nat)
    requires 11 <= c < WORD && c % 2 == 1
    ensures c <= p < WORD && p % 2 == 1
    decreases SIZE_MAX - c
  {
    if c == SIZE_MAX || Prime(c) then c else PrimeFrom(c + 2)
  }

  lemma {:induction false} PrimeFromIsLeast(c: nat)
    requires 11 <= c < WORD && c % 2 == 1
    ensures PrimeFrom(c) == SIZE_MAX || Prime(PrimeFrom(c))
    ensures forall q | c <= q < PrimeFrom(c) :: !Prime(q)
    decreases SIZE_MAX - c
  {
    if c != SIZE_MAX && !Prime(c) {
      assert (c + 1) % 2 == 0;
      PrimeFromIsLeast(c + 2);
    }
  }

  /** Small candidates are skipped, even ones rounded up: `candidate |= 1`. */
  ghost function OddStart(candidate: nat): nat {
    var c := if candidate < 10 then 10 else candidate;
    if c % 2 == 0 then c + 1 else c
  }

  /** What `next_prime` returns; NextPrimeIsLeast says what that is. */
  ghost function NextPrime(candidate: nat): (p: nat)
    requires candidate < WORD
    ensures 11 <= p < WORD && candidate <= p
  {
    PrimeFrom(OddStart(candidate))
  }

  lemma {:induction false} NextPrimeIsLeast(candidate: nat)
    requires candidate < WORD
    ensures var p := NextPrime(candidate);
            && (p == SIZE_MAX || Prime(p))
            && forall q: nat | q >= 10 && q >= candidate && Prime(q) && q < WORD :: p <= q
  {
    hide Prime, PrimeFrom;
    PrimeFromIsLeast(OddStart(candidate));
    forall q: nat | q >= 10 && q >= candidate && Prime(q) && q < WORD
      ensures NextPrime(candidate) <= q
    {
      LargePrimesAreOdd(q);
      assert OddStart(candidate) <= q;
    }
  }

  lemma LargePrimesAreOdd(q: nat)
    requires q > 2 && Prime(q)
    ensures q % 2 == 1
  {
    assert q % 2 != 0;
  }

  /** `next_prime`: `candidate |= 1` is "add one to an even number". */
  method ComputeNextPrime(candidate: nat) returns (p: nat)
    requires candidate < WORD
    ensures p == NextPrime(candidate)
  {
    p := candidate;
    if p < 10 {
      p := 10;
    }
    if p % 2 == 0 {
      p := p + 1;
    }
    assert p == OddStart(candidate);
    p := SearchPrime(p);
  }

  /** The loop of `next_prime`. */
  method SearchPrime(start: nat) returns (p: nat)
    requires 11 <= start < WORD && start % 2 == 1
    ensures p == PrimeFrom(start)
  {
    p := start;
    while SIZE_MAX != p
      invariant 11 <= p < WORD && p % 2 == 1
      invariant PrimeFrom(start) == PrimeFrom(p)
      decreases SIZE_MAX - p
    {
      var prime := IsPrime(p);
      if prime {
        break;
      }
      p := p + 2;
    }
  }
}
