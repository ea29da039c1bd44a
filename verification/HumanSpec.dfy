/** What coreutils/lib/human.c should print, over the real numbers: scaling by powers of the
    base, and rounding at the printed precision. The order of numbers survives it. */
module HumanSpec {

  datatype Style = Ceiling | Nearest | Floor

  const EXPONENT_MAX: nat := 8

  predicate IsBase(base: nat) {
    base == 1000 || base == 1024
  }

  /** Up, down, or to the nearest integer with ties to even. */
  function Round(style: Style, x: real): int {
    var f := x.Floor;
    var d := x - f as real;
    match style
    case Floor => f
    case Ceiling => if d == 0.0 then f else f + 1
    case Nearest => if d < 0.5 || (d == 0.5 && f % 2 == 0) then f else f + 1
  }

  function Abs(x: real): real {
    if x < 0.0 then -x else x
  }

  /** Round is what its name says. */
  lemma RoundIsRight(style: Style, x: real, m: int)
    ensures var r := Round(style, x);
            match style
            case Floor => r as real <= x && (m as real <= x ==> m <= r)
            case Ceiling => x <= r as real && (x <= m as real ==> r <= m)
            case Nearest => && Abs(r as real - x) <= Abs(m as real - x)
                            && (m != r && Abs(r as real - x) == Abs(m as real - x) ==> r % 2 == 0)
  {
  }

  lemma RoundMonotone(style: Style, x: real, y: real)
    requires x <= y
    ensures Round(style, x) <= Round(style, y)
  {
  }

  /** An integer bound on the number bounds the rounded number. */
  lemma RoundBounded(style: Style, x: real, k: int)
    ensures x <= k as real ==> Round(style, x) <= k
    ensures x >= k as real ==> Round(style, x) >= k
  {
  }

  /** The number shown for x after e divisions: one decimal below 10 once something has been
      divided, none otherwise. */
  function Local(style: Style, x: real, e: nat): real {
    if e >= 1 && x < 10.0 then Round(style, 10.0 * x) as real / 10.0
    else Round(style, x) as real
  }

  /** One power down and one up, in a form that keeps the arithmetic linear. */
  function Down(base: nat, x: real): real
    requires IsBase(base)
  {
    if base == 1000 then x / 1000.0 else x / 1024.0
  }

  function Up(base: nat, x: real): real
    requires IsBase(base)
  {
    if base == 1000 then 1000.0 * x else 1024.0 * x
  }

  /** The number shown for x, in units of the e-th power. */
  function Shown(style: Style, base: nat, x: real, e: nat): real
    requires IsBase(base)
    decreases EXPONENT_MAX - e
  {
    if x >= base as real && e < EXPONENT_MAX
    then Up(base, Shown(style, base, Down(base, x), e + 1))
    else Local(style, x, e)
  }

  /** The scaled number and its exponent. */
  function Scaling(base: nat, x: real, e: nat): (r: (real, nat))
    requires IsBase(base) && e <= EXPONENT_MAX
    ensures e <= r.1 <= EXPONENT_MAX && (r.0 < base as real || r.1 == EXPONENT_MAX)
    ensures r.1 > e ==> x >= base as real && r.0 >= 1.0
    ensures r.1 == e ==> r.0 == x
    decreases EXPONENT_MAX - e
  {
    if x >= base as real && e < EXPONENT_MAX then Scaling(base, Down(base, x), e + 1) else (x, e)
  }

  function PowReal(base: nat, e: nat): (p: real)
    requires IsBase(base)
  {
    if e == 0 then 1.0 else Up(base, PowReal(base, e - 1))
  }

  lemma LocalAtLeastOne(style: Style, x: real, e: nat)
    requires x >= 1.0
    ensures Local(style, x, e) >= 1.0
  {
    RoundBounded(style, x, 1);
    RoundBounded(style, 10.0 * x, 10);
  }

  lemma {:induction false} ShownAtLeastOne(style: Style, base: nat, x: real, e: nat)
    requires IsBase(base) && x >= 1.0
    ensures Shown(style, base, x, e) >= 1.0
    decreases EXPONENT_MAX - e
  {
    hide Local;
    if x >= base as real && e < EXPONENT_MAX {
      ShownAtLeastOne(style, base, Down(base, x), e + 1);
    } else {
      LocalAtLeastOne(style, x, e);
    }
  }

  lemma LocalMonotone(style: Style, x: real, y: real, e: nat)
    requires x <= y
    ensures Local(style, x, e) <= Local(style, y, e)
  {
    RoundMonotone(style, x, y);
    RoundMonotone(style, 10.0 * x, 10.0 * y);
    RoundBounded(style, 10.0 * x, 100);
    RoundBounded(style, y, 10);
  }

  lemma LocalBelowBase(style: Style, base: nat, x: real, e: nat)
    requires IsBase(base) && x <= base as real
    ensures Local(style, x, e) <= base as real
  {
    RoundBounded(style, x, base);
    RoundBounded(style, 10.0 * x, 100);
  }

  /** Larger numbers are never shown as smaller ones, across the switch at 10, the roll-over
      to the next power and the last power. */
  lemma {:induction false} ShownMonotone(style: Style, base: nat, x: real, y: real, e: nat)
    requires IsBase(base) && x <= y
    ensures Shown(style, base, x, e) <= Shown(style, base, y, e)
    decreases EXPONENT_MAX - e
  {
    hide Local;
    var b := base as real;
    if y >= b && e < EXPONENT_MAX {
      if x >= b {
        ShownMonotone(style, base, Down(base, x), Down(base, y), e + 1);
      } else {
        LocalBelowBase(style, base, x, e);
        ShownAtLeastOne(style, base, Down(base, y), e + 1);
      }
    } else {
      LocalMonotone(style, x, y, e);
    }
  }

  /** l units of size p. */
  function Units(l: real, p: real): real {
    l * p
  }

  lemma UnitsUp(base: nat, l: real, p: real)
    requires IsBase(base)
    ensures Up(base, Units(l, p)) == Units(l, Up(base, p))
    ensures Units(l, 1.0) == l
  {
  }

  lemma UpDown(base: nat, x: real)
    requires IsBase(base)
    ensures Up(base, Down(base, x)) == x
  {
  }

  /** The number shown is the local one in units of the scaled exponent. */
  lemma {:induction false} ShownByScaling(style: Style, base: nat, x: real, e: nat)
    requires IsBase(base) && e <= EXPONENT_MAX
    ensures var (y, f) := Scaling(base, x, e);
            && Shown(style, base, x, e) == Units(Local(style, y, f), PowReal(base, f - e))
            && x == Units(y, PowReal(base, f - e))
    decreases EXPONENT_MAX - e
  {
    hide Local, Up, Down, Units;
    if x >= base as real && e < EXPONENT_MAX {
      UpDown(base, x);
      ShownByScaling(style, base, Down(base, x), e + 1);
      var (y, f) := Scaling(base, Down(base, x), e + 1);
      UnitsUp(base, Local(style, y, f), PowReal(base, f - e - 1));
      UnitsUp(base, y, PowReal(base, f - e - 1));
    } else {
      UnitsUp(base, Local(style, x, e), 1.0);
      UnitsUp(base, x, 1.0);
    }
  }
}
