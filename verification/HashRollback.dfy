/** A rehash that runs out of memory half way is always undone (hash.c, hash_rehash and
    transfer_entries): the rollback finds every node it needs on the free list. */
module HashRollback {
  import opened Primes
  import opened HashModel

  // ----- Counting -----

  lemma {:induction false} FlattenSplit<T>(cs: Chains<T>, i: nat)
    requires i < |cs|
    ensures Flatten(cs) == Flatten(cs[..i]) + cs[i] + Flatten(cs[i + 1..])
    ensures Used(cs) == Used(cs[..i]) + Used([cs[i]]) + Used(cs[i + 1..])
  {
    if i == 0 {
    } else {
      FlattenSplit(cs[1..], i - 1);
      assert cs[1..][..i - 1] == cs[..i][1..];
      assert cs[1..][i..] == cs[i + 1..];
      assert Flatten(cs[..i]) == cs[0] + Flatten(cs[..i][1..]);
    }
  }

  /** What replacing one chain does to the counters and the contents. */
  lemma ReplaceChain<T>(cs: Chains<T>, i: nat, c: seq<T>)
    requires i < |cs|
    ensures Total(cs[i := c]) == Total(cs) - |cs[i]| + |c|
    ensures Used(cs[i := c]) == Used(cs) - Used([cs[i]]) + Used([c])
    ensures Bag(cs[i := c]) + multiset(cs[i]) == Bag(cs) + multiset(c)
  {
    var r := cs[i := c];
    FlattenSplit(cs, i);
    FlattenSplit(r, i);
    assert r[..i] == cs[..i] && r[i + 1..] == cs[i + 1..];
  }

  lemma {:induction false} CountAt<T>(cs: Chains<T>, i: nat)
    requires i < |cs|
    ensures multiset(cs[i]) <= Bag(cs)
    ensures |cs[i]| <= Total(cs)
    ensures cs[i] != [] ==> Used(cs) >= 1
  {
    FlattenSplit(cs, i);
  }

  /** In a well-placed table a bucket holds exactly the data that hash to it. */
  lemma {:induction false} BucketHolds<T(!new)>(ops: Ops<T>, cs: Chains<T>, i: nat, x: T)
    requires WellPlaced(ops, cs) && i < |cs|
    ensures multiset(cs[i])[x] == if ops.hash(x, |cs|) == i then Bag(cs)[x] else 0
  {
    BucketsHold(ops, cs, |cs|, 0, i, x);
  }

  lemma {:induction false} BucketsHold<T(!new)>(ops: Ops<T>, cs: Chains<T>, n: nat, base: nat, i: nat, x: T)
    requires forall j, k | 0 <= j < |cs| && 0 <= k < |cs[j]| :: ops.hash(cs[j][k], n) == base + j
    requires i < |cs|
    ensures multiset(cs[i])[x] == if ops.hash(x, n) == base + i then Bag(cs)[x] else 0
    decreases |cs|
  {
    assert Bag(cs) == multiset(cs[0]) + Bag(cs[1..]);
    if ops.hash(x, n) != base {
      assert x !in cs[0];
    }
    if i == 0 {
      NotBefore(ops, cs[1..], n, base + 1, x);
    } else {
      BucketsHold(ops, cs[1..], n, base + 1, i - 1, x);
      if ops.hash(x, n) != base + i {
        assert x !in cs[i];
      }
    }
  }

  /** Buckets from `base` on hold nothing that hashes below. */
  lemma {:induction false} NotBefore<T(!new)>(ops: Ops<T>, cs: Chains<T>, n: nat, base: nat, x: T)
    requires forall j, k | 0 <= j < |cs| && 0 <= k < |cs[j]| :: ops.hash(cs[j][k], n) == base + j
    ensures ops.hash(x, n) < base ==> Bag(cs)[x] == 0
  {
    if cs != [] && ops.hash(x, n) < base {
      NotBefore(ops, cs[1..], n, base + 1, x);
      assert x !in cs[0];
      assert Bag(cs) == multiset(cs[0]) + Bag(cs[1..]);
    }
  }

  /** Fewer data never need more overflow nodes. */
  lemma {:induction false} OverMonotone<T(!new)>(ops: Ops<T>, a: Chains<T>, b: Chains<T>)
    requires |a| == |b| && WellPlaced(ops, a) && WellPlaced(ops, b) && Bag(a) <= Bag(b)
    ensures Over(a) <= Over(b)
  {
    forall i | 0 <= i < |a|
      ensures |a[i]| <= |b[i]|
    {
      forall x
        ensures multiset(a[i])[x] <= multiset(b[i])[x]
      {
        BucketHolds(ops, a, i, x);
        BucketHolds(ops, b, i, x);
      }
      assert multiset(a[i]) <= multiset(b[i]);
      SizeMonotone(multiset(a[i]), multiset(b[i]));
    }
    OverByLengths(a, b);
  }

  lemma SizeMonotone<T>(a: multiset<T>, b: multiset<T>)
    requires a <= b
    ensures |a| <= |b|
  {
    assert b == a + (b - a);
  }

  lemma {:induction false} OverByLengths<T>(a: Chains<T>, b: Chains<T>)
    requires |a| == |b| && forall i | 0 <= i < |a| :: |a[i]| <= |b[i]|
    ensures Over(a) <= Over(b)
  {
    if a != [] {
      OverByLengths(a[1..], b[1..]);
      UsedAtMostTotal(a[1..]);
      UsedAtMostTotal(b[1..]);
    }
  }

  lemma {:induction false} SameBuckets<T(!new)>(ops: Ops<T>, a: Chains<T>, b: Chains<T>)
    requires |a| == |b| && WellPlaced(ops, a) && WellPlaced(ops, b) && Bag(a) == Bag(b)
    ensures forall i | 0 <= i < |a| :: multiset(a[i]) == multiset(b[i])
    ensures Used(a) == Used(b) && Total(a) == Total(b)
  {
    forall i | 0 <= i < |a|
      ensures multiset(a[i]) == multiset(b[i])
    {
      forall x
        ensures multiset(a[i])[x] == multiset(b[i])[x]
      {
        BucketHolds(ops, a, i, x);
        BucketHolds(ops, b, i, x);
      }
    }
    assert Total(a) == |Bag(a)| && Total(b) == |Bag(b)|;
    OverMonotone(ops, a, b);
    OverMonotone(ops, b, a);
  }

  lemma BagSize<T>(cs: Chains<T>)
    ensures |Bag(cs)| == Total(cs)
  {
  }

  lemma {:induction false} EmptyCounts<T>(cs: Chains<T>)
    requires forall i | 0 <= i < |cs| :: cs[i] == []
    ensures Flatten(cs) == [] && Used(cs) == 0
  {
    if cs != [] {
      EmptyCounts(cs[1..]);
    }
  }

  lemma {:induction false} HeadsOnly<T>(cs: Chains<T>)
    requires forall i | 0 <= i < |cs| :: |cs[i]| <= 1
    ensures Over(cs) == 0
  {
    if cs != [] {
      HeadsOnly(cs[1..]);
    }
  }

  // ----- One move -----

  lemma Cancel<T>(a: multiset<T>, b: multiset<T>, c: multiset<T>, d: multiset<T>)
    requires a + c == b + (c + d)
    ensures a == b + d
  {
    forall x
      ensures a[x] == (b + d)[x]
    {
      assert (a + c)[x] == (b + (c + d))[x];
    }
  }

  lemma PushBag<T>(c: seq<T>, d: T)
    ensures multiset(Push(c, d)) == multiset(c) + multiset{d}
  {
    if c != [] {
      assert c == [c[0]] + c[1..];
      assert Push(c, d) == [c[0]] + [d] + c[1..];
    }
  }

  lemma PlaceKeeps<T(!new)>(ops: Ops<T>, cs: Chains<T>, d: T)
    requires InRange(ops) && |cs| > 0 && WellPlaced(ops, cs)
    ensures var r := Place(ops, cs, d);
            && WellPlaced(ops, r)
            && Bag(r) == Bag(cs) + multiset{d}
            && Over(r) == Over(cs) + if cs[Slot(ops, d, |cs|)] == [] then 0 else 1
  {
    hide WellPlaced;
    var j := Slot(ops, d, |cs|);
    var c := cs[j];
    PushPlaced(ops, cs, d);
    ReplaceChain(cs, j, Push(c, d));
    PushBag(c, d);
    Cancel(Bag(Place(ops, cs, d)), Bag(cs), multiset(c), multiset{d});
  }

  lemma PushPlaced<T(!new)>(ops: Ops<T>, cs: Chains<T>, d: T)
    requires InRange(ops) && |cs| > 0 && WellPlaced(ops, cs)
    ensures WellPlaced(ops, Place(ops, cs, d))
  {
    var j := Slot(ops, d, |cs|);
    var c := cs[j];
    var r := Place(ops, cs, d);
    forall i, k | 0 <= i < |r| && 0 <= k < |r[i]|
      ensures ops.hash(r[i][k], |r|) == i
    {
      if i == j && r[i][k] != d {
        assert r[i][k] == c[if k == 0 then 0 else k - 1];
      }
    }
  }

  /** All nodes there are, and all the allocator will still give. */
  ghost function Stock<T>(x: Xfer<T>): nat {
    x.free + Over(x.dst) + Over(x.src) + Grants(x.mem)
  }

  /** Both tables in order, holding `bag` between them, and no node lost or invented. */
  ghost predicate Balanced<T(!new)>(ops: Ops<T>, x: Xfer<T>, bag: multiset<T>, stock: nat) {
    && WellPlaced(ops, x.dst) && WellPlaced(ops, x.src)
    && Bag(x.dst) + Bag(x.src) == bag
    && Stock(x) == stock
  }

  lemma {:induction false} OverflowKeeps<T(!new)>(ops: Ops<T>, x: Xfer<T>, ds: seq<T>)
    requires InRange(ops) && |x.dst| > 0 && WellPlaced(ops, x.dst)
    ensures var y := MoveOverflow(ops, x, ds);
            && WellPlaced(ops, y.dst)
            && Bag(y.dst) == Bag(x.dst) + multiset(ds)
            && y.free + Over(y.dst) == x.free + Over(x.dst) + |ds|
    decreases |ds|
  {
    hide WellPlaced, Bag, Over, Place;
    if ds != [] {
      PlaceKeeps(ops, x.dst, ds[0]);
      var freed := if x.dst[Slot(ops, ds[0], |x.dst|)] == [] then 1 else 0;
      OverflowKeeps(ops, x.(dst := Place(ops, x.dst, ds[0]), free := x.free + freed), ds[1..]);
      assert ds == [ds[0]] + ds[1..];
    }
  }

  lemma ShorterChain<T(!new)>(ops: Ops<T>, cs: Chains<T>, i: nat, n: nat)
    requires WellPlaced(ops, cs) && i < |cs| && n <= |cs[i]|
    ensures WellPlaced(ops, cs[i := cs[i][..n]])
    ensures Bag(cs[i := cs[i][..n]]) + multiset(cs[i][n..]) == Bag(cs)
    ensures n == 1 ==> Over(cs[i := cs[i][..n]]) == Over(cs) - (|cs[i]| - 1)
    ensures n == 0 && |cs[i]| == 1 ==> Over(cs[i := []]) == Over(cs)
  {
    var c := cs[i];
    ReplaceChain(cs, i, c[..n]);
    assert c == c[..n] + c[n..];
    Cancel(Bag(cs), Bag(cs[i := c[..n]]), multiset(c[..n]), multiset(c[n..]));
    assert n == 0 ==> c[..n] == [];
  }

  lemma {:induction false} HeadKeeps<T(!new)>(ops: Ops<T>, x: Xfer<T>, i: nat, bag: multiset<T>, stock: nat)
    requires InRange(ops) && |x.dst| > 0 && i < |x.src| && |x.src[i]| == 1 && x.ok
    requires Balanced(ops, x, bag, stock)
    ensures var y := MoveHead(ops, x, i);
            && Balanced(ops, y, bag, stock)
            && (y.ok ==> y.src == x.src[i := []])
            && (!y.ok ==> y.src == x.src && y.dst == x.dst && y.free == x.free == 0)
            && Grants(y.mem) <= Grants(x.mem)
  {
    hide WellPlaced, Bag, Over, Place;
    var d := x.src[i][0];
    PlaceKeeps(ops, x.dst, d);
    ShorterChain(ops, x.src, i, 0);
    assert x.src[i][..0] == [] && x.src[i][0..] == [d];
    assert multiset([d]) == multiset{d};
  }

  lemma {:induction false} BucketKeeps<T(!new)>(ops: Ops<T>, x: Xfer<T>, i: nat,
      safe: bool, bag: multiset<T>, stock: nat)
    requires InRange(ops) && |x.dst| > 0 && i < |x.src| && x.ok
    requires Balanced(ops, x, bag, stock)
    ensures var y := MoveBucket(ops, x, i, safe);
            && Balanced(ops, y, bag, stock)
            && (safe ==> y.ok && y.src == x.src[i := if x.src[i] == [] then [] else x.src[i][..1]])
            && (!safe && y.ok ==> y.src == x.src[i := []])
            && (!safe && !y.ok ==> y.free == 0 && y.src[i] != [])
            && (forall k | 0 <= k < |x.src| && k != i :: y.src[k] == x.src[k])
            && Grants(y.mem) <= Grants(x.mem)
  {
    hide WellPlaced, Bag, Over, MoveOverflow, MoveHead, Place;
    var c := x.src[i];
    if c != [] {
      OverflowKeeps(ops, x, c[1..]);
      ShorterChain(ops, x.src, i, 1);
      var y := MoveOverflow(ops, x, c[1..]).(src := x.src[i := c[..1]]);
      assert Balanced(ops, y, bag, stock);
      if !safe {
        HeadKeeps(ops, y, i, bag, stock);
      }
    }
  }

  // ----- A whole pass -----

  /** transfer_entries, whether or not it runs out of memory, loses and invents nothing and
      puts every entry into its own bucket; no node gets lost either. */
  lemma {:induction false} TransferKeeps<T(!new)>(ops: Ops<T>, x: Xfer<T>, i: nat,
      safe: bool, bag: multiset<T>, stock: nat)
    requires InRange(ops) && |x.dst| > 0 && i <= |x.src| && x.ok
    requires Balanced(ops, x, bag, stock)
    ensures var y := Transfer(ops, x, i, safe);
            && Balanced(ops, y, bag, stock)
            && (forall k | 0 <= k < i :: y.src[k] == x.src[k])
            && (safe ==> y.ok && forall k | i <= k < |y.src| :: |y.src[k]| <= 1)
            && (!safe && y.ok ==> forall k | i <= k < |y.src| :: y.src[k] == [])
            && (!y.ok ==> y.free == 0 && Used(y.src) >= 1)
            && Grants(y.mem) <= Grants(x.mem)
    decreases |x.src| - i
  {
    hide WellPlaced, MoveBucket, Bag, Over, Grants, Balanced;
    if i < |x.src| {
      var y := MoveBucket(ops, x, i, safe);
      BucketKeeps(ops, x, i, safe, bag, stock);
      if y.ok {
        TransferKeeps(ops, y, i + 1, safe, bag, stock);
      } else {
        CountAt(y.src, i);
      }
    }
  }

  /** Putting bucket heads back into a table that held all the data before: whenever a node
      is needed there is one on the free list. */
  lemma {:induction false} HeadsFindNodes<T(!new)>(ops: Ops<T>, x: Xfer<T>, i: nat, original: Chains<T>, stock: nat)
    requires InRange(ops) && |x.dst| > 0 && i <= |x.src| && x.ok
    requires |x.dst| == |original| && WellPlaced(ops, original)
    requires Balanced(ops, x, Bag(original), stock) && Over(original) + Grants(x.mem) <= stock
    requires forall k | 0 <= k < |x.src| :: |x.src[k]| <= 1
    ensures Transfer(ops, x, i, false).ok
    ensures Transfer(ops, x, i, false).mem == x.mem
    decreases |x.src| - i
  {
    if i < |x.src| {
      HeadFindsNode(ops, x, i, original, stock);
      BucketKeeps(ops, x, i, false, Bag(original), stock);
      HeadsFindNodes(ops, MoveBucket(ops, x, i, false), i + 1, original, stock);
    }
  }

  lemma HeadFindsNode<T(!new)>(ops: Ops<T>, x: Xfer<T>, i: nat, original: Chains<T>, stock: nat)
    requires InRange(ops) && |x.dst| > 0 && i < |x.src| && x.ok
    requires |x.dst| == |original| && WellPlaced(ops, original)
    requires Balanced(ops, x, Bag(original), stock) && Over(original) + Grants(x.mem) <= stock
    requires forall k | 0 <= k < |x.src| :: |x.src[k]| <= 1
    ensures var y := MoveBucket(ops, x, i, false); y.ok && y.mem == x.mem
  {
    hide WellPlaced, Bag, Over, Place, Used;
    if x.src[i] != [] {
      var d := x.src[i][0];
      assert x.src[i][1..] == [] && x.src[i][..1] == x.src[i];
      assert x.src[i := x.src[i]] == x.src;
      HeadsOnly(x.src);
      PlaceKeeps(ops, x.dst, d);
      CountAt(x.src, i);
      assert multiset{d} == multiset(x.src[i]);
      OverMonotone(ops, Place(ops, x.dst, d), original);
    }
  }

  /** The two backward passes of hash_rehash, from any half-done move: they never fail, never
      allocate, and leave the original data in every bucket. */
  lemma {:induction false} RollbackSucceeds<T(!new)>(ops: Ops<T>, x: Xfer<T>, original: Chains<T>)
    requires InRange(ops) && |x.dst| > 0 && |x.src| > 0 && |x.src| == |original| && WellPlaced(ops, original)
    requires Balanced(ops, x, Bag(original), Stock(x)) && Over(original) + Grants(x.mem) <= Stock(x)
    ensures var y := Transfer(ops, Xfer(x.src, x.dst, x.free, x.mem, true), 0, true);
            && y.ok
            && var z := Transfer(ops, y, 0, false);
            && z.ok && z.mem == x.mem
            && WellPlaced(ops, z.dst) && Bag(z.dst) == Bag(original)
            && Used(z.dst) == Used(original) && Total(z.dst) == Total(original)
            && (forall i | 0 <= i < |original| :: multiset(z.dst[i]) == multiset(original[i]))
            && z.free + Over(z.dst) == x.free + Over(x.dst) + Over(x.src)
  {
    var back := Xfer(x.src, x.dst, x.free, x.mem, true);
    var bag, stock := Bag(original), Stock(x);
    assert Balanced(ops, back, bag, stock);
    TransferKeeps(ops, back, 0, true, bag, stock);
    var y := Transfer(ops, back, 0, true);
    SafeMem(ops, back, 0);
    HeadsFindNodes(ops, y, 0, original, stock);
    TransferKeeps(ops, y, 0, false, bag, stock);
    var z := Transfer(ops, y, 0, false);
    EmptyCounts(z.src);
    assert Bag(z.dst) == bag;
    SameBuckets(ops, z.dst, original);
  }

  /** The safe pass asks for no memory. */
  lemma {:induction false} SafeMem<T(!new)>(ops: Ops<T>, x: Xfer<T>, i: nat)
    requires InRange(ops) && |x.dst| > 0 && i <= |x.src| && x.ok
    ensures Transfer(ops, x, i, true).ok && Transfer(ops, x, i, true).mem == x.mem
    decreases |x.src| - i
  {
    if i < |x.src| {
      SafeMem(ops, MoveBucket(ops, x, i, true), i + 1);
    }
  }

  /** hash_rehash keeps the data whatever the allocator answers, and never aborts; when it
      returns false the table is the old one, bucket by bucket. */
  lemma {:induction false} RehashKeepsData<T(!new)>(ops: Ops<T>, t: Table<T>, candidate: nat)
    requires InRange(ops) && |t.cs| > 0 && candidate < WORD && TuningOk(t.tuning)
    requires WellPlaced(ops, t.cs)
    ensures var r := Rehash(ops, t, candidate);
            && r.Rehashed?
            && WellPlaced(ops, r.t.cs) && Bag(r.t.cs) == Bag(t.cs) && r.t.tuning == t.tuning
            && (r.ok ==> |r.t.cs| == BucketSize(candidate, t.tuning))
            && (!r.ok ==> && |r.t.cs| == |t.cs|
                          && Used(r.t.cs) == Used(t.cs) && Total(r.t.cs) == Total(t.cs)
                          && forall i | 0 <= i < |t.cs| :: multiset(r.t.cs[i]) == multiset(t.cs[i]))
            && r.t.free + Over(r.t.cs) + Grants(r.t.mem)
               == t.free + Over(t.cs) +
                  if BucketSize(candidate, t.tuning) == 0 then Grants(t.mem) else Grants(Rest(t.mem))
  {
    var n := BucketSize(candidate, t.tuning);
    if n != 0 && Granted(t.mem) {
      var start := Xfer(Empty<T>(n), t.cs, t.free, Rest(t.mem), true);
      EmptyCounts(Empty<T>(n));
      assert Balanced(ops, start, Bag(t.cs), Stock(start));
      TransferKeeps(ops, start, 0, false, Bag(t.cs), Stock(start));
      var x := Transfer(ops, start, 0, false);
      if x.ok {
        EmptyCounts(x.src);
      } else {
        RollbackSucceeds(ops, x, t.cs);
      }
    }
  }

  /** The comment's premise: a forward transfer fails only if the new table uses fewer
      buckets than the old one did. */
  lemma FailureMeansFewerBuckets<T(!new)>(ops: Ops<T>, cs: Chains<T>, n: nat, free: nat, mem: seq<bool>)
    requires InRange(ops) && n > 0 && WellPlaced(ops, cs)
    requires !Transfer(ops, Xfer(Empty<T>(n), cs, free, mem, true), 0, false).ok
    ensures Used(Transfer(ops, Xfer(Empty<T>(n), cs, free, mem, true), 0, false).dst) < Used(cs)
  {
    var start := Xfer(Empty<T>(n), cs, free, mem, true);
    EmptyCounts(Empty<T>(n));
    TransferKeeps(ops, start, 0, false, Bag(cs), Stock(start));
    var x := Transfer(ops, start, 0, false);
    assert |Bag(x.dst)| + |Bag(x.src)| == |Bag(cs)|;
  }

  /** With a free node in advance for every bucket in use but one no forward move of a head needs
      the allocator. */
  lemma {:induction false} MovesAreFed<T(!new)>(ops: Ops<T>, x: Xfer<T>, i: nat, bag: multiset<T>, stock: nat)
    requires InRange(ops) && |x.dst| > 0 && i <= |x.src| && x.ok
    requires Balanced(ops, x, bag, stock) && stock - Grants(x.mem) + 1 >= |bag|
    ensures var y := Transfer(ops, x, i, false); y.ok && y.mem == x.mem
    decreases |x.src| - i
  {
    hide WellPlaced, MoveBucket, Bag, Over, Grants, Balanced;
    if i < |x.src| {
      MoveIsFed(ops, x, i, bag, stock);
      BucketKeeps(ops, x, i, false, bag, stock);
      MovesAreFed(ops, MoveBucket(ops, x, i, false), i + 1, bag, stock);
    }
  }

  lemma MoveIsFed<T(!new)>(ops: Ops<T>, x: Xfer<T>, i: nat, bag: multiset<T>, stock: nat)
    requires InRange(ops) && |x.dst| > 0 && i < |x.src| && x.ok
    requires Balanced(ops, x, bag, stock) && stock - Grants(x.mem) + 1 >= |bag|
    ensures var y := MoveBucket(ops, x, i, false); y.ok && y.mem == x.mem
  {
    hide WellPlaced, Bag, Place, Used, Total;
    var c := x.src[i];
    if c != [] {
      OverflowKeeps(ops, x, c[1..]);
      ShorterChain(ops, x.src, i, 1);
      var y := MoveOverflow(ops, x, c[1..]).(src := x.src[i := c[..1]]);
      assert Balanced(ops, y, bag, stock);
      CountAt(y.src, i);
      var j := Slot(ops, c[0], |y.dst|);
      CountAt(y.dst, j);
      BagSize(y.dst);
      BagSize(y.src);
      assert |Bag(y.dst) + Bag(y.src)| == Total(y.dst) + Total(y.src);
    }
  }

  /** The bound the comment names: n_buckets_used - 1 free entries in advance guarantee that the
      transfer allocates nothing. */
  lemma EnoughInAdvance<T(!new)>(ops: Ops<T>, cs: Chains<T>, n: nat, free: nat, mem: seq<bool>)
    requires InRange(ops) && n > 0 && WellPlaced(ops, cs) && free + 1 >= Used(cs)
    ensures var y := Transfer(ops, Xfer(Empty<T>(n), cs, free, mem, true), 0, false);
            y.ok && y.mem == mem
  {
    var start := Xfer(Empty<T>(n), cs, free, mem, true);
    EmptyCounts(Empty<T>(n));
    BagSize(cs);
    assert Balanced(ops, start, Bag(cs), Stock(start));
    MovesAreFed(ops, start, 0, Bag(cs), Stock(start));
  }

  // ----- Why two passes -----

  /** Slots of the numbers 0 to 4 in a table of four buckets and in one of three. */
  function ExampleSlot(x: int, n: nat): nat {
    if n == 4 then (if 2 <= x <= 4 then x - 1 else 0)
    else if n == 3 then (if x == 1 then 1 else if x == 2 || x == 3 then 2 else 0)
    else 0
  }

  const EXAMPLE: Ops<int> := Ops((x, n) => ExampleSlot(x, n), (x, y) => x == y)
  const EXAMPLE_CHAINS: Chains<int> := [[0, 1], [2], [3], [4]]

  lemma TransferTurn<T(!new)>(ops: Ops<T>, x: Xfer<T>, i: nat)
    requires InRange(ops) && |x.dst| > 0 && i < |x.src| && x.ok
    ensures var y := MoveBucket(ops, x, i, false);
            Transfer(ops, x, i, false) == if y.ok then Transfer(ops, y, i + 1, false) else y
  {
  }

  lemma ExampleStart()
    ensures InRange(EXAMPLE)
    ensures Transfer(EXAMPLE, Xfer([[], [], []], EXAMPLE_CHAINS, 0, [], true), 0, false)
            == Transfer(EXAMPLE, Xfer([[0], [1], [2]], [[], [], [3], [4]], 1, [], true), 2, false)
  {
    hide Transfer;
    var x0 := Xfer([[], [], []], EXAMPLE_CHAINS, 0, [], true);
    var x1 := MoveBucket(EXAMPLE, x0, 0, false);
    assert x1 == Xfer([[0], [1], []], [[], [2], [3], [4]], 1, [], true) by {
      assert [0, 1][1..] == [1] && [0, 1][..1] == [0] && [1][1..] == [];
      assert MoveOverflow(EXAMPLE, x0, [1]) == x0.(dst := [[], [1], []], free := 1);
    }
    TransferTurn(EXAMPLE, x0, 0);
    var x2 := MoveBucket(EXAMPLE, x1, 1, false);
    assert x2 == Xfer([[0], [1], [2]], [[], [], [3], [4]], 1, [], true) by {
      assert [2][1..] == [] && [2][..1] == [2];
    }
    TransferTurn(EXAMPLE, x1, 1);
  }

  lemma ExampleForward()
    ensures InRange(EXAMPLE)
    ensures Transfer(EXAMPLE, Xfer([[], [], []], EXAMPLE_CHAINS, 0, [], true), 0, false)
            == Xfer([[0], [1], [2, 3]], [[], [], [], [4]], 0, [], false)
  {
    hide Transfer;
    ExampleStart();
    var x2 := Xfer([[0], [1], [2]], [[], [], [3], [4]], 1, [], true);
    var x3 := MoveBucket(EXAMPLE, x2, 2, false);
    assert x3 == Xfer([[0], [1], [2, 3]], [[], [], [], [4]], 0, [], true) by {
      assert [3][1..] == [] && [3][..1] == [3];
      assert Push([2], 3) == [2, 3];
    }
    TransferTurn(EXAMPLE, x2, 2);
    var x4 := MoveBucket(EXAMPLE, x3, 3, false);
    assert x4 == x3.(ok := false) by {
      assert [4][1..] == [] && [4][..1] == [4];
    }
    TransferTurn(EXAMPLE, x3, 3);
  }

  /** The comment's pathological case: after this failed transfer a single backward pass, heads
      and overflow together, would run out of nodes; the two passes do not. */
  lemma SinglePassCanFail()
    ensures InRange(EXAMPLE) && WellPlaced(EXAMPLE, EXAMPLE_CHAINS)
    ensures var x := Transfer(EXAMPLE, Xfer([[], [], []], EXAMPLE_CHAINS, 0, [], true), 0, false);
            && !x.ok
            && !Transfer(EXAMPLE, Xfer(x.src, x.dst, x.free, x.mem, true), 0, false).ok
  {
    hide Transfer;
    ExampleForward();
    var y0 := Xfer([[], [], [], [4]], [[0], [1], [2, 3]], 0, [], true);
    var y1 := MoveBucket(EXAMPLE, y0, 0, false);
    assert y1 == Xfer([[0], [], [], [4]], [[], [1], [2, 3]], 0, [], true) by {
      assert [0][1..] == [] && [0][..1] == [0];
    }
    TransferTurn(EXAMPLE, y0, 0);
    var y2 := MoveBucket(EXAMPLE, y1, 1, false);
    assert !y2.ok by {
      assert [1][1..] == [] && [1][..1] == [1];
    }
    TransferTurn(EXAMPLE, y1, 1);
  }
}
