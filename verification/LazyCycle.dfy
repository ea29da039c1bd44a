/** The lazy, constant-memory cycle detection of file tree walks: coreutils/lib/fts-cycle.c
    and coreutils/lib/cycle-check.c. */
module LazyCycle {

  const WORD: nat := 0x1_0000_0000_0000_0000

  datatype DevIno = DevIno(dev: nat, ino: nat)

  // ----- Powers of two -----

  function Pow2(k: nat): nat {
    if k == 0 then 1 else 2 * Pow2(k - 1)
  }

  ghost predicate IsPow2(n: nat) {
    exists k: nat :: Pow2(k) == n
  }

  /** Bitwise and. */
  function And(a: nat, b: nat): nat {
    if a == 0 || b == 0 then 0
    else 2 * And(a / 2, b / 2) + (if a % 2 == 1 && b % 2 == 1 then 1 else 0)
  }

  lemma {:induction false} AndSelf(a: nat)
    ensures And(a, a) == a
  {
    if a > 0 {
      AndSelf(a / 2);
    }
  }

  /** is_zero_or_power_of_two, on a 64-bit word. */
  predicate IsZeroOrPow2(i: nat)
    requires i < WORD
  {
    And(i, if i == 0 then WORD - 1 else i - 1) == 0
  }

  lemma HalfPow2(n: nat)
    ensures n > 0 ==> (IsPow2(2 * n) <==> IsPow2(n))
    ensures n % 2 == 1 && n > 1 ==> !IsPow2(n)
    ensures IsPow2(1) && !IsPow2(0)
  {
    assert Pow2(0) == 1;
    if IsPow2(n) {
      var k: nat :| Pow2(k) == n;
      assert Pow2(k + 1) == 2 * n;
    }
    if n > 0 && IsPow2(2 * n) {
      var k: nat :| Pow2(k) == 2 * n;
      assert Pow2(k - 1) == n;
    }
    PowersPositive();
  }

  lemma PowersPositive()
    ensures forall k: nat :: Pow2(k) > 0
  {
    forall k: nat
      ensures Pow2(k) > 0
    {
      PowerPositive(k);
    }
  }

  lemma {:induction false} PowerPositive(k: nat)
    ensures Pow2(k) > 0
  {
    if k > 0 {
      PowerPositive(k - 1);
    }
  }

  /** The bit trick finds zero and exactly the powers of two. */
  lemma {:induction false} BitTrick(i: nat)
    requires i > 0
    ensures And(i, i - 1) == 0 <==> IsPow2(i)
  {
    var j := i / 2;
    if i == 1 {
      HalfPow2(1);
    } else if i % 2 == 1 {
      assert (i - 1) / 2 == j;
      AndSelf(j);
      HalfPow2(i);
    } else {
      assert (i - 1) / 2 == j - 1;
      BitTrick(j);
      HalfPow2(j);
    }
  }

  lemma ZeroOrPow2(i: nat)
    requires i < WORD
    ensures IsZeroOrPow2(i) <==> i == 0 || IsPow2(i)
  {
    if i > 0 {
      BitTrick(i);
    }
  }

  // ----- The detector -----

  datatype State = State(counter: nat, recorded: DevIno)

  /** What one call of cycle_check makes of the state, and what it answers. */
  function Step(s: State, d: DevIno): (State, bool)
    requires s.counter < WORD
  {
    if s.counter != 0 && d == s.recorded then (s, true)
    else
      var c := (s.counter + 1) % WORD;
      if !IsZeroOrPow2(c) then (State(c, s.recorded), false)
      else if c == 0 then (State(0, s.recorded), true)
      else (State(c, d), false)
  }

  /** `struct cycle_check_state`, but for the magic number. */
  class CycleCheckState {
    var devIno: DevIno
    var chdirCounter: nat

    predicate Valid()
      reads this
    {
      chdirCounter < WORD
    }

    function Abs(): State
      reads this
    {
      State(chdirCounter, devIno)
    }

    /** cycle_check_init: the directory is whatever it was. */
    constructor (garbage: DevIno)
      ensures Valid() && Abs() == State(0, garbage)
    {
      chdirCounter := 0;
      devIno := garbage;
    }

    /** cycle_check */
    method CycleCheck(sb: DevIno) returns (seen: bool)
      requires Valid()
      modifies this
      ensures Valid() && (Abs(), seen) == Step(old(Abs()), sb)
    {
      if chdirCounter != 0 && sb == devIno {
        return true;
      }
      chdirCounter := (chdirCounter + 1) % WORD;
      if IsZeroOrPow2(chdirCounter) {
        if chdirCounter == 0 {
          return true;
        }
        devIno := sb;
      }
      return false;
    }

    /** The macro leave_dir uses copies the directory onto itself, so leaving changes nothing;
        its abort cannot be reached once cycle_check has been called and counts. */
    method ReflectChdirUp(dir: DevIno, subdir: DevIno)
      requires Valid() && chdirCounter != 0
      modifies this
      ensures Valid() && Abs() == old(Abs())
    {
      if devIno == subdir {
        devIno := subdir;
      }
    }
  }

  // ----- Runs -----

  /** The state after the calls for these directories. */
  function After(s: State, ds: seq<DevIno>): (r: State)
    requires s.counter < WORD
    ensures r.counter < WORD
    decreases |ds|
  {
    if ds == [] then s else Step(After(s, ds[..|ds| - 1]), ds[|ds| - 1]).0
  }

  /** What the call number k answers, counting from 1. */
  function Answer(s: State, ds: seq<DevIno>, k: nat): bool
    requires s.counter < WORD && 1 <= k <= |ds|
  {
    Step(After(s, ds[..k - 1]), ds[k - 1]).1
  }

  /** No call up to number k has answered true. */
  predicate Silent(s: State, ds: seq<DevIno>, k: nat)
    requires s.counter < WORD && k <= |ds|
  {
    forall j | 1 <= j <= k :: !Answer(s, ds, j)
  }

  lemma AfterPrefix(s: State, ds: seq<DevIno>, k: nat)
    requires s.counter < WORD && 1 <= k <= |ds|
    ensures After(s, ds[..k]) == Step(After(s, ds[..k - 1]), ds[k - 1]).0
  {
    assert ds[..k][..k - 1] == ds[..k - 1];
  }

  /** As long as nothing is detected the counter counts the calls, and the recorded directory
      is that of the last call whose number is a power of two. */
  lemma {:induction false} Checkpoint(garbage: DevIno, ds: seq<DevIno>, k: nat, p: nat)
    requires k <= |ds| && Silent(State(0, garbage), ds, k)
    requires IsPow2(p) && p <= k && k < 2 * p
    ensures After(State(0, garbage), ds[..k]) == State(k, ds[p - 1]) && k < WORD
  {
    hide IsZeroOrPow2, IsPow2;
    var s := State(0, garbage);
    CountsCalls(garbage, ds, k);
    AfterPrefix(s, ds, k);
    ZeroOrPow2(k);
    HalfPow2(p);
    if k > p {
      Checkpoint(garbage, ds, k - 1, p);
      NoPowerBetween(p, k);
    } else {
      CountsCalls(garbage, ds, k - 1);
    }
  }

  lemma {:induction false} CountsCalls(garbage: DevIno, ds: seq<DevIno>, k: nat)
    requires k <= |ds| && Silent(State(0, garbage), ds, k)
    ensures After(State(0, garbage), ds[..k]).counter == k < WORD
  {
    hide IsZeroOrPow2, Step, After, IsPow2;
    var s := State(0, garbage);
    AfterNothing(s);
    assert ds[..0] == [];
    if k > 0 {
      CountsCalls(garbage, ds, k - 1);
      AfterPrefix(s, ds, k);
      assert !Answer(s, ds, k);
      TrueExactly(After(s, ds[..k - 1]), ds[k - 1]);
    }
  }

  lemma {:induction false} NoPowerBetween(p: nat, k: nat)
    requires IsPow2(p)
    ensures p < k < 2 * p ==> !IsPow2(k)
  {
    var a: nat :| Pow2(a) == p;
    if IsPow2(k) {
      var b: nat :| Pow2(b) == k;
      if b <= a {
        Pow2Monotone(b, a);
      } else {
        Pow2Monotone(a + 1, b);
      }
    }
  }

  lemma {:induction false} Pow2Monotone(a: nat, b: nat)
    requires a <= b
    ensures Pow2(a) <= Pow2(b)
  {
    if a < b {
      Pow2Monotone(a, b - 1);
      PowerPositive(b - 1);
    }
  }

  /** The walk goes round: from call m on every directory comes back p calls later. */
  ghost predicate Cycles(ds: seq<DevIno>, m: nat, p: nat) {
    forall i {:trigger ds[i]} | 0 <= i && m <= i + 1 && i + p < |ds| :: ds[i + p] == ds[i]
  }

  /** A cycle is detected no later than one round after a checkpoint that lies on it and is
      followed by no other within the round: for every power of two q that is at least m and
      at least p. */
  lemma CycleDetected(garbage: DevIno, ds: seq<DevIno>, m: nat, p: nat, q: nat)
    requires p >= 1 && IsPow2(q) && q >= m && q >= p && |ds| >= q + p && Cycles(ds, m, p)
    ensures exists k :: 1 <= k <= q + p && Answer(State(0, garbage), ds, k)
  {
    hide IsZeroOrPow2, IsPow2;
    var s := State(0, garbage);
    HalfPow2(q);
    if Silent(s, ds, q + p - 1) {
      Checkpoint(garbage, ds, q + p - 1, q);
      assert ds[q - 1 + p] == ds[q - 1];
      assert Answer(s, ds, q + p);
    }
  }

  /** The least power of two that is at least n. */
  function PowerFrom(n: nat, q: nat): nat
    requires q >= 1
    decreases n - q
  {
    if n <= q then q else PowerFrom(n, 2 * q)
  }

  lemma {:induction false} PowerFromIsLeast(n: nat, q: nat)
    requires IsPow2(q) && q >= 1 && (q == 1 || q < 2 * n)
    ensures var r := PowerFrom(n, q);
            IsPow2(r) && n <= r && (r == 1 || r < 2 * n) && forall k | q <= k < r && IsPow2(k) :: k < n
    decreases n - q
  {
    hide IsPow2;
    if n > q {
      HalfPow2(q);
      PowerFromIsLeast(n, 2 * q);
      forall k | q <= k < PowerFrom(n, 2 * q) && IsPow2(k)
        ensures k < n
      {
        NoPowerBetween(q, k);
      }
    }
  }

  /** In terms of the entry of the cycle and its length alone: call P + p at the latest, P the
      least power of two that is at least both, and so before call 2 max(m, p) + p. */
  lemma CycleDetectedInTime(garbage: DevIno, ds: seq<DevIno>, m: nat, p: nat)
    requires p >= 1 && Cycles(ds, m, p)
    requires var n := if m <= p then p else m; |ds| >= PowerFrom(n, 1) + p
    ensures var n := if m <= p then p else m;
            && PowerFrom(n, 1) < 2 * n
            && exists k :: 1 <= k <= PowerFrom(n, 1) + p && Answer(State(0, garbage), ds, k)
  {
    hide Cycles;
    var n := if m <= p then p else m;
    HalfPow2(1);
    PowerFromIsLeast(n, 1);
    CycleDetected(garbage, ds, m, p, PowerFrom(n, 1));
  }

  lemma SmallCounts()
    ensures IsZeroOrPow2(1) && IsZeroOrPow2(2) && !IsZeroOrPow2(3)
  {
    assert And(1, 0) == 0 && And(2, 1) == 0 && And(3, 2) == 2;
  }

  /** The checkpoint need not be on the path: with b entered below a and left again, entering c below
      a leaves b the recorded directory, which is no ancestor of c. */
  lemma CheckpointOffThePath(garbage: DevIno, a: DevIno, b: DevIno, c: DevIno)
    requires a != b && b != c && a != c
    ensures var s := Step(Step(Step(State(0, garbage), a).0, b).0, c).0;
            s.counter == 3 && s.recorded == b && s.recorded != a && s.recorded != c
  {
    SmallCounts();
  }

  /** Short of wrap-around of the counter, true is answered only for a directory that was
      passed to an earlier call. */
  lemma {:induction false} DetectionIsRight(garbage: DevIno, ds: seq<DevIno>, k: nat)
    requires 1 <= k <= |ds| && Answer(State(0, garbage), ds, k)
    ensures var s := After(State(0, garbage), ds[..k - 1]);
            s.counter == WORD - 1 || exists j :: 0 <= j < k - 1 && ds[j] == ds[k - 1]
  {
    hide IsZeroOrPow2;
    ZeroOrPow2(0);
    RecordedIsOld(garbage, ds, k - 1);
  }

  lemma {:induction false} RecordedIsOld(garbage: DevIno, ds: seq<DevIno>, k: nat)
    requires k <= |ds|
    ensures var s := After(State(0, garbage), ds[..k]);
            s.counter != 0 ==> exists j :: 0 <= j < k && ds[j] == s.recorded
  {
    hide IsZeroOrPow2, IsPow2;
    HalfPow2(1);
    ZeroOrPow2(1);
    if k > 0 {
      RecordedIsOld(garbage, ds, k - 1);
      AfterPrefix(State(0, garbage), ds, k);
    }
  }

  // ----- Behind a detection -----

  /** How many of the first k calls answered false. */
  function Misses(s: State, ds: seq<DevIno>, k: nat): (n: nat)
    requires s.counter < WORD && k <= |ds|
    ensures n <= k
  {
    if k == 0 then 0 else Misses(s, ds, k - 1) + if Answer(s, ds, k) then 0 else 1
  }

  /** True is answered exactly for the recorded directory and where the counter wraps. */
  lemma TrueExactly(s: State, d: DevIno)
    requires s.counter < WORD
    ensures Step(s, d).1 <==> (s.counter != 0 && d == s.recorded) || s.counter == WORD - 1
    ensures Step(s, d).1 ==> Step(s, d).0 == if d == s.recorded && s.counter != 0 then s else State(0, s.recorded)
    ensures !Step(s, d).1 ==> Step(s, d).0 == State(s.counter + 1, if IsPow2(s.counter + 1) then d else s.recorded)
  {
    hide IsZeroOrPow2, IsPow2;
    ZeroOrPow2((s.counter + 1) % WORD);
    HalfPow2(1);
  }

  /** Call j answered false and was recorded, as the number of such calls was a power of two then, and
      is less than twice that after call k. */
  ghost predicate RecordedAt(s: State, ds: seq<DevIno>, j: nat, k: nat)
    requires s.counter < WORD && k <= |ds|
  {
    && 1 <= j <= k && !Answer(s, ds, j)
    && IsPow2(Misses(s, ds, j)) && Misses(s, ds, k) < 2 * Misses(s, ds, j)
  }

  lemma AfterNothing(s: State)
    requires s.counter < WORD
    ensures After(s, []) == s
  {
  }

  /** Whatever has been detected, short of wrap-around the counter is the number of calls that answered
      false, and the recorded directory that of the last of them whose number was a power of two: so a
      directory that was detected once is detected until another is recorded. */
  lemma {:induction false} CountsMisses(garbage: DevIno, ds: seq<DevIno>, k: nat)
    requires k <= |ds| && Misses(State(0, garbage), ds, k) < WORD - 1
    ensures var s, r := State(0, garbage), After(State(0, garbage), ds[..k]);
            && r.counter == Misses(s, ds, k)
            && (r.counter > 0 ==> exists j :: RecordedAt(s, ds, j, k) && r.recorded == ds[j - 1])
  {
    hide IsPow2, Step, IsZeroOrPow2, After;
    var s := State(0, garbage);
    HalfPow2(1);
    assert After(s, []) == s by { AfterNothing(s); }
    assert ds[..0] == [];
    if k > 0 {
      CountsMisses(garbage, ds, k - 1);
      AfterPrefix(s, ds, k);
      var u, r := After(s, ds[..k - 1]), After(s, ds[..k]);
      TrueExactly(u, ds[k - 1]);
      if IsPow2(r.counter) && !Answer(s, ds, k) {
        assert RecordedAt(s, ds, k, k);
      } else if r.counter > 0 {
        var j :| RecordedAt(s, ds, j, k - 1) && u.recorded == ds[j - 1];
        HalfPow2(Misses(s, ds, j));
        assert RecordedAt(s, ds, j, k);
      }
    }
  }
}
