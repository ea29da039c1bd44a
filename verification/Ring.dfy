/** The ring buffer of coreutils/lib/i-ring.c, for a ring of any size. */
module Ring {

  /** A stack of bounded depth that forgets its oldest element, which stands first. */
  function Pushed(s: seq<int>, size: nat, val: int): seq<int>
    requires size > 0
  {
    (if |s| >= size then s[1..] else s) + [val]
  }

  function Forgotten(s: seq<int>, size: nat, default: int): int
    requires size > 0
  {
    if |s| >= size then s[0] else default
  }

  /** Of a stack within its bound a push forgets nothing but the oldest element, and that only when
      there is no room: what it answers and what it leaves are what there was and the new value. */
  lemma PushForgets(s: seq<int>, size: nat, default: int, val: int)
    requires |s| <= size && size > 0
    ensures |Pushed(s, size, val)| == if |s| == size then size else |s| + 1
    ensures |s| == size ==> [Forgotten(s, size, default)] + Pushed(s, size, val) == s + [val]
    ensures |s| < size ==> Forgotten(s, size, default) == default && Pushed(s, size, val) == s + [val]
  {
    if |s| == size {
      assert s == [s[0]] + s[1..];
    }
  }

  // ----- Runs -----

  datatype Op = Push(val: int) | Pop

  /** The bounded stack after a run; a pop of the empty one would end the program. */
  datatype Run = Aborted | Run(stack: seq<int>, popped: seq<int>)

  function Bounded(ops: seq<Op>, size: nat): (r: Run)
    requires size > 0
    ensures r.Run? ==> |r.stack| <= size
  {
    if ops == [] then Run([], [])
    else
      var r := Bounded(ops[..|ops| - 1], size);
      match r
      case Aborted => r
      case Run(s, popped) =>
        match ops[|ops| - 1]
        case Push(val) => Run(Pushed(s, size, val), popped)
        case Pop => if s == [] then Aborted else Run(s[..|s| - 1], popped + [s[|s| - 1]])
  }

  function Unbounded(ops: seq<Op>): Run {
    if ops == [] then Run([], [])
    else
      var r := Unbounded(ops[..|ops| - 1]);
      match r
      case Aborted => r
      case Run(s, popped) =>
        match ops[|ops| - 1]
        case Push(val) => Run(s + [val], popped)
        case Pop => if s == [] then Aborted else Run(s[..|s| - 1], popped + [s[|s| - 1]])
  }

  /** As long as the ring is not popped when empty, every pop answers what a stack without bound
      would, and the ring holds the top of that stack. */
  lemma {:induction false} TopOfTheStack(ops: seq<Op>, size: nat)
    requires size > 0 && Bounded(ops, size).Run?
    ensures var r, u := Bounded(ops, size), Unbounded(ops);
            && u.Run? && r.popped == u.popped && |r.stack| <= |u.stack|
            && r.stack == u.stack[|u.stack| - |r.stack|..]
  {
    hide Pushed;
    if ops != [] {
      TopOfTheStack(ops[..|ops| - 1], size);
      var r, u := Bounded(ops[..|ops| - 1], size), Unbounded(ops[..|ops| - 1]);
      if ops[|ops| - 1].Push? {
        PushOnBoth(r.stack, u.stack, size, ops[|ops| - 1].val);
      } else {
        PopFromBoth(r.stack, u.stack);
      }
    }
  }

  lemma PushOnBoth(s: seq<int>, t: seq<int>, size: nat, val: int)
    requires size > 0 && |s| <= |t| && s == t[|t| - |s|..]
    ensures var p, q := Pushed(s, size, val), t + [val];
            |p| <= |q| && p == q[|q| - |p|..]
  {
    var q, d := t + [val], |t| - |s|;
    assert q[d..] == s + [val];
    if |s| >= size {
      assert q[d + 1..] == q[d..][1..] == (s + [val])[1..] == s[1..] + [val];
    }
  }

  lemma PopFromBoth(s: seq<int>, t: seq<int>)
    requires s != [] && |s| <= |t| && s == t[|t| - |s|..]
    ensures s[|s| - 1] == t[|t| - 1]
    ensures s[..|s| - 1] == t[..|t| - 1][|t| - |s|..]
  {
  }

  // ----- The ring -----

  function Slot(back: nat, i: nat, size: nat): (k: nat)
    requires back < size && i <= size
    ensures k < size
  {
    if back + i < size then back + i else back + i - size
  }

  lemma Multiple(d: int, n: int)
    requires n >= 0
    ensures d >= 1 ==> d * n >= n
    ensures d <= -1 ==> d * n <= -n
  {
    assert d >= 1 ==> (d - 1) * n >= 0;
    assert d <= -1 ==> (-1 - d) * n >= 0;
  }

  lemma Modulo(x: nat, size: nat)
    requires x < 2 * size
    ensures x % size == if x < size then x else x - size
  {
    var q: int := x / size;
    Multiple(q, size);
    Multiple(q - 1, size);
    assert (q - 1) * size == q * size - size;
  }

  /** The elements of a ring of which `count` slots from `back` on are in use. */
  function Elements(d: seq<int>, back: nat, count: nat): (s: seq<int>)
    requires back < |d| && count <= |d|
    ensures |s| == count
  {
    seq(count, i requires 0 <= i < count => d[Slot(back, i, |d|)])
  }

  predicate RestIs(d: seq<int>, back: nat, count: nat, default: int)
    requires back < |d|
  {
    forall i | count <= i < |d| :: d[Slot(back, i, |d|)] == default
  }

  lemma PushElement(d: seq<int>, back: nat, count: nat, default: int, val: int)
    requires back < |d| && count <= |d| && RestIs(d, back, count, default)
    ensures var n := |d|;
            var dest := Slot(back, count, n);
            && dest < n && d[dest] == Forgotten(Elements(d, back, count), n, default)
            && (count < n ==> Elements(d[dest := val], back, count + 1) == Pushed(Elements(d, back, count), n, val)
                              && RestIs(d[dest := val], back, count + 1, default))
            && (count == n ==> dest == back
                               && Elements(d[dest := val], Slot(back, 1, n), n) == Pushed(Elements(d, back, n), n, val)
                               && RestIs(d[dest := val], Slot(back, 1, n), n, default))
  {
    var n := |d|;
    if count == n {
      var next := Slot(back, 1, n);
      assert forall i | 0 <= i < n - 1 :: Slot(next, i, n) == Slot(back, i + 1, n) != back;
    }
  }

  lemma PopElement(d: seq<int>, back: nat, count: nat, default: int)
    requires back < |d| && 0 < count <= |d| && RestIs(d, back, count, default)
    ensures var s, top := Elements(d, back, count), Slot(back, count - 1, |d|);
            && d[top] == s[count - 1] && Elements(d[top := default], back, count - 1) == s[..count - 1]
            && RestIs(d[top := default], back, count - 1, default)
  {
  }

  class IRing {
    var data: array<int>
    var default: int
    var front: nat
    var back: nat
    var empty: bool

    /** How many of the slots, from back on, are in use. */
    function Count(): nat
      reads this
      requires front < data.Length && back < data.Length
      ensures Count() <= data.Length
    {
      if empty then 0 else if back <= front then front - back + 1 else front - back + 1 + data.Length
    }

    ghost predicate Valid()
      reads this, data
    {
      && 0 < data.Length && front < data.Length && back < data.Length
      && (empty ==> front == back) && RestIs(data[..], back, Count(), default)
    }

    /** The elements from the oldest to the newest. */
    ghost function Contents(): (s: seq<int>)
      reads this, data
      requires Valid()
      ensures |s| == Count() <= data.Length
    {
      Elements(data[..], back, Count())
    }

    /** i_ring_init. */
    constructor (size: nat, defaultVal: int)
      requires size > 0
      ensures Valid() && fresh(data) && data.Length == size && default == defaultVal && Contents() == []
    {
      data := new int[size](_ => defaultVal);
      default, front, back, empty := defaultVal, 0, 0, true;
    }

    /** i_ring_empty. */
    method Empty() returns (r: bool)
      requires Valid()
      ensures r <==> Contents() == []
    {
      r := empty;
    }

    /** i_ring_push: answers the value that is forgotten, or the default. */
    method Push(val: int) returns (oldVal: int)
      requires Valid()
      modifies this`front, this`back, this`empty, data
      ensures Valid()
      ensures Contents() == Pushed(old(Contents()), data.Length, val)
      ensures oldVal == Forgotten(old(Contents()), data.Length, default)
    {
      ghost var d, count, n := data[..], Count(), data.Length;
      PushElement(d, back, count, default, val);
      Modulo(front + if empty then 0 else 1, n);
      hide Elements, RestIs, Pushed, Forgotten;
      var dest := (front + if empty then 0 else 1) % data.Length;
      assert dest == Slot(back, count, n);
      oldVal := data[dest];
      data[dest] := val;
      front := dest;
      if dest == back {
        Modulo(back + if empty then 0 else 1, n);
        back := (back + if empty then 0 else 1) % data.Length;
      }
      empty := false;
      assert data[..] == d[dest := val];
      assert Count() == if count < n then count + 1 else n;
    }

    /** i_ring_pop, which aborts when the ring is empty. */
    method Pop() returns (topVal: int)
      requires Valid() && Contents() != []
      modifies this`front, this`empty, data
      ensures Valid()
      ensures var s := old(Contents()); topVal == s[|s| - 1] && Contents() == s[..|s| - 1]
    {
      ghost var d, count := data[..], Count();
      PopElement(d, back, count, default);
      assert front == Slot(back, count - 1, data.Length);
      topVal := data[front];
      data[front] := default;
      assert data[..] == d[front := default];
      if front == back {
        empty := true;
      } else {
        Modulo(front + data.Length - 1, data.Length);
        front := (front + data.Length - 1) % data.Length;
      }
      assert Count() == count - 1;
    }
  }
}
