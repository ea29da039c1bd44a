/** The sizing promises of hash.c (compute_bucket_size, hash_initialize, hash_rehash,
    hash_insert) over the real numbers. */
module HashCapacity {
  import opened Primes
  import opened HashModel
  import opened HashRollback
  import opened HashRuns
  import opened Wrappers

  ghost function AfterInsert<T(!new)>(ops: Ops<T>, t: Table<T>, e: T): Table<T>
    requires InRange(ops) && |t.cs| > 0
  {
    var r := Insert(ops, t, e);
    if r.Aborted? then t else r.t
  }

  /** None of these insertions, one after the other, passes the growth test. */
  ghost predicate NoGrowth<T(!new)>(ops: Ops<T>, t: Table<T>, es: seq<T>)
    requires InRange(ops) && |t.cs| > 0
    decreases |es|
  {
    es == [] ||
    (&& !MustGrow(t.cs, t.tuning)
     && var u := AfterInsert(ops, t, es[0]);
     && |u.cs| == |t.cs|
     && NoGrowth(ops, u, es[1..]))
  }

  /** The truncation in compute_bucket_size costs less than one entry. */
  lemma SizeSuffices(candidate: nat, g: real, n: nat, used: nat)
    requires 0.0 < g < 1.0
    requires (candidate as real / g).Floor <= n
    requires used < candidate
    ensures used as real <= g * n as real
  {
    var q := candidate as real / g;
    assert g * q == candidate as real;
    assert q - 1.0 <= n as real;
    RealScale(g, q - 1.0, n as real);
    assert g * (q - 1.0) == g * q - g;
    assert used as real <= candidate as real - 1.0;
  }

  lemma RealScale(g: real, x: real, y: real)
    requires 0.0 <= g && x <= y
    ensures g * x <= g * y
  {
    assert g * y - g * x == g * (y - x);
  }

  lemma BucketSizeSuffices(candidate: nat, t: Tuning, used: nat)
    requires candidate < WORD && TuningOk(t) && !t.isNBuckets
    requires BucketSize(candidate, t) != 0 && used < candidate
    ensures used as real <= t.growthThreshold * BucketSize(candidate, t) as real
  {
    hide BucketSize;
    BucketSizeCovers(candidate, t);
    SizeSuffices(candidate, t.growthThreshold, BucketSize(candidate, t), used);
  }

  lemma BucketSizeCovers(candidate: nat, t: Tuning)
    requires candidate < WORD && TuningOk(t) && !t.isNBuckets && BucketSize(candidate, t) != 0
    ensures (candidate as real / t.growthThreshold).Floor <= BucketSize(candidate, t)
  {
    hide NextPrime;
  }

  lemma QuietInsert<T(!new)>(ops: Ops<T>, t: Table<T>, e: T)
    requires Lawful(ops) && Inv(ops, t) && !MustGrow(t.cs, t.tuning)
    ensures var u := AfterInsert(ops, t, e);
            |u.cs| == |t.cs| && u.tuning == t.tuning && Inv(ops, u) && Total(u.cs) <= Total(t.cs) + 1
  {
    hide WellPlaced, Keyed, Lookup, Place, Bag, Total, Rehash;
    InsertKeeps(ops, t, e);
    PlaceKeeps(ops, t.cs, e);
    BagSize(t.cs);
    BagSize(Place(ops, t.cs, e));
  }

  /** A table whose size was computed for `candidate` entries takes entries up to that many,
      those already in it included, before the growth test succeeds for the first time;
      whether the allocator obliges or not. */
  lemma {:induction false} CapacityPromise<T(!new)>(ops: Ops<T>, t: Table<T>, es: seq<T>, candidate: nat)
    requires Lawful(ops) && Inv(ops, t) && TuningOk(t.tuning) && !t.tuning.isNBuckets && candidate < WORD
    requires |t.cs| == BucketSize(candidate, t.tuning)
    requires Total(t.cs) + |es| <= candidate
    ensures NoGrowth(ops, t, es)
    decreases |es|
  {
    hide WellPlaced, Keyed, Insert, AfterInsert, BucketSize;
    if es != [] {
      UsedAtMostTotal(t.cs);
      BucketSizeSuffices(candidate, t.tuning, Used(t.cs));
      QuietInsert(ops, t, es[0]);
      CapacityPromise(ops, AfterInsert(ops, t, es[0]), es[1..], candidate);
    }
  }

  /** hash_initialize guarantees that many insertions. */
  lemma InitialCapacity<T(!new)>(ops: Ops<T>, candidate: nat, tuning: Tuning, mem: seq<bool>, es: seq<T>)
    requires Lawful(ops) && candidate < WORD && !tuning.isNBuckets && |es| <= candidate
    ensures var t: Option<Table<T>> := Initialize(candidate, tuning, mem);
            t.Some? ==> |t.value.cs| > 0 && NoGrowth(ops, t.value, es)
  {
    hide NoGrowth;
    var t: Option<Table<T>> := Initialize(candidate, tuning, mem);
    if t.Some? {
      InitialInv(ops, candidate, tuning, mem);
      EmptyCounts(t.value.cs);
      CapacityPromise(ops, t.value, es, candidate);
    }
  }

  /** So does a successful hash_rehash, for a table that holds no more than that. */
  lemma RehashCapacity<T(!new)>(ops: Ops<T>, t: Table<T>, candidate: nat, es: seq<T>)
    requires Lawful(ops) && Inv(ops, t) && TuningOk(t.tuning) && !t.tuning.isNBuckets && candidate < WORD
    requires Total(t.cs) + |es| <= candidate
    ensures var r := Rehash(ops, t, candidate);
            r.Rehashed? && (r.ok ==> NoGrowth(ops, r.t, es))
  {
    hide NoGrowth, WellPlaced, Keyed, Rehash, BucketSize;
    RehashInv(ops, t, candidate);
    RehashKeepsData(ops, t, candidate);
    var r := Rehash(ops, t, candidate);
    if r.ok {
      assert Total(r.t.cs) == |Bag(r.t.cs)| == |Bag(t.cs)| == Total(t.cs);
      CapacityPromise(ops, r.t, es, candidate);
    }
  }

  /** The candidate a growing table asks for. */
  function Grown(n: nat, t: Tuning): nat
    requires TuningOk(t) && GrowthCandidate(n, t) < SIZE_MAX as real
  {
    GrowthPositive(n, t);
    Truncate(GrowthCandidate(n, t))
  }

  /** What hash_insert asks for when it grows a table of n buckets. */
  ghost function GrownSize(n: nat, t: Tuning): nat
    requires TuningOk(t) && GrowthCandidate(n, t) < SIZE_MAX as real
  {
    BucketSize(Grown(n, t), t)
  }

  /** What one bucket costs of the candidate a size is computed from. */
  function Quota(t: Tuning): real {
    if t.isNBuckets then 1.0 else t.growthThreshold
  }

  /** Every size a table is ever given is a prime. */
  lemma BucketSizeIsPrime(candidate: nat, t: Tuning)
    requires candidate < WORD && TuningOk(t)
    ensures BucketSize(candidate, t) != 0 ==> Prime(BucketSize(candidate, t))
  {
    hide Prime, NextPrime;
    if t.isNBuckets {
      NextPrimeIsLeast(candidate);
    } else if candidate as real / t.growthThreshold < SIZE_MAX as real {
      FloorOfQuotient(candidate as real, t.growthThreshold, 0);
      NextPrimeIsLeast((candidate as real / t.growthThreshold).Floor);
    }
  }

  lemma FloorOfQuotient(k: real, g: real, m: nat)
    requires 0.0 < g && 0.0 <= k
    ensures (k / g).Floor >= m <==> k >= m as real * g
  {
    var q := k / g;
    assert q * g == k;
    if q >= m as real {
      assert (q - m as real) * g >= 0.0;
    } else {
      assert (m as real - q) * g > 0.0;
    }
  }

  /** A size computed from a candidate exceeds n if the candidate pays for one bucket more, and,
      n being a prime, only then. */
  lemma SizeExceeds(candidate: nat, t: Tuning, n: nat)
    requires candidate < WORD && TuningOk(t) && BucketSize(candidate, t) != 0
    ensures candidate as real >= (n + 1) as real * Quota(t) ==> BucketSize(candidate, t) > n
    ensures Prime(n) && 11 <= n <= MAX_BUCKETS && BucketSize(candidate, t) > n ==>
              candidate as real >= (n + 1) as real * Quota(t)
  {
    hide Prime, NextPrime;
    if t.isNBuckets {
      NextPrimeIsLeast(candidate);
    } else {
      FloorOfQuotient(candidate as real, t.growthThreshold, 0);
      FloorOfQuotient(candidate as real, t.growthThreshold, n + 1);
      NextPrimeIsLeast((candidate as real / t.growthThreshold).Floor);
    }
  }

  /** Growing enlarges a table, whose size is a prime, exactly if the candidate, truncated, pays
      for one bucket more. */
  lemma GrowthEnlargesExactly(n: nat, t: Tuning)
    requires TuningOk(t) && GrowthCandidate(n, t) < SIZE_MAX as real && Prime(n) && 11 <= n <= MAX_BUCKETS
    ensures GrownSize(n, t) == 0 ||
            (GrownSize(n, t) > n <==> Grown(n, t) as real >= (n + 1) as real * Quota(t))
  {
    hide Prime, BucketSize;
    if GrownSize(n, t) != 0 {
      SizeExceeds(Grown(n, t), t, n);
    }
  }

  /** So it does if one rounding step of the candidate is less than what the factor adds ... */
  lemma GrowthEnlarges(n: nat, t: Tuning)
    requires TuningOk(t) && GrowthCandidate(n, t) < SIZE_MAX as real
    requires n as real * (t.growthFactor - 1.0) * Quota(t) >= 1.0 + Quota(t)
    ensures GrownSize(n, t) == 0 || GrownSize(n, t) > n
  {
    hide BucketSize;
    TwoTruncations(n as real, t.growthFactor, Quota(t), Grown(n, t) as real);
    if GrownSize(n, t) != 0 {
      SizeExceeds(Grown(n, t), t, n);
    }
  }

  lemma FloorAtLeast(x: real, m: nat)
    requires x >= m as real
    ensures x.Floor >= m
  {
  }

  /** ... and whenever the candidate is a number of buckets ... */
  lemma BucketGrowthEnlarges(n: nat, t: Tuning)
    requires TuningOk(t) && t.isNBuckets && n >= 11 && GrowthCandidate(n, t) < SIZE_MAX as real
    ensures GrownSize(n, t) == 0 || GrownSize(n, t) > n
  {
    hide BucketSize;
    var x := n as real;
    RealScale(x, 1.1, t.growthFactor);
    GrowthPositive(n, t);
    FloorAtLeast(GrowthCandidate(n, t), n + 1);
    if GrownSize(n, t) != 0 {
      SizeExceeds(Grown(n, t), t, n);
    }
  }

  lemma TwoTruncations(n: real, f: real, g: real, k: real)
    requires 0.0 < g && k > n * f * g - 1.0
    requires n * (f - 1.0) * g >= 1.0 + g
    ensures k >= (n + 1.0) * g
  {
    var a, b := n * f, n * (f - 1.0);
    assert b == a - n;
    ScaledDifference(a, n, g);
    assert k > n * g + g;
    assert n * g + g == (n + 1.0) * g;
  }

  lemma ScaledDifference(a: real, n: real, g: real)
    ensures (a - n) * g == a * g - n * g
  {
  }

  /** ... and the default tuning for every table there can be ... */
  lemma DefaultGrowthEnlarges(n: nat)
    requires n >= 11 && GrowthCandidate(n, DEFAULT_TUNING) < SIZE_MAX as real
    ensures GrownSize(n, DEFAULT_TUNING) == 0 || GrownSize(n, DEFAULT_TUNING) > n
  {
    hide GrownSize;
    assert n as real * (1.414 - 1.0) * 0.8 >= 1.8;
    GrowthEnlarges(n, DEFAULT_TUNING);
  }

  /** ... but the margin of check_tuning does not: with these accepted values a table of 11
      buckets "grows" to 11 buckets, on every insertion. */
  lemma GrowthCanStall()
    ensures var t := Tuning(0.0, 1.0, 0.11, 1.11, false);
            TuningOk(t) && GrowthCandidate(11, t) < SIZE_MAX as real && GrownSize(11, t) == 11
  {
    var t := Tuning(0.0, 1.0, 0.11, 1.11, false);
    GrowthPositive(11, t);
    assert Truncate(GrowthCandidate(11, t)) == 1;
    assert (1.0 / 0.11).Floor == 9;
    assert NextPrime(9) == 11 by {
      assert Prime(11);
      assert OddStart(9) == 11;
    }
  }

  // ----- Every table has a prime number of buckets -----

  lemma RehashKeepsPrime<T(!new)>(ops: Ops<T>, t: Table<T>, candidate: nat)
    requires Lawful(ops) && Inv(ops, t) && candidate < WORD && TuningOk(t.tuning) && Prime(|t.cs|)
    ensures var r := Rehash(ops, t, candidate); r.Rehashed? && Prime(|r.t.cs|)
  {
    hide Prime, Rehash, WellPlaced, Bag, Keyed, BucketSize;
    RehashKeepsData(ops, t, candidate);
    BucketSizeIsPrime(candidate, t.tuning);
    RehashInv(ops, t, candidate);
  }

  lemma RoomKeepsPrime<T(!new)>(ops: Ops<T>, t: Table<T>, e: T)
    requires Lawful(ops) && Inv(ops, t) && Prime(|t.cs|)
    ensures var r := MakeRoom(ops, t, e); !r.RoomAborted? ==> Prime(|r.t.cs|)
  {
    hide Prime, Rehash, WellPlaced, Bag, Keyed, TuningOk, Lookup, Used;
    var t1 := t.(tuning := Checked(t.tuning));
    InvByTuning(ops, t, t1);
    GrowthPositive(|t.cs|, t1.tuning);
    if GrowthCandidate(|t.cs|, t1.tuning) < SIZE_MAX as real {
      RehashKeepsPrime(ops, t1, Truncate(GrowthCandidate(|t.cs|, t1.tuning)));
    }
  }

  lemma InvByTuning<T(!new)>(ops: Ops<T>, t: Table<T>, u: Table<T>)
    requires Inv(ops, t) && u.cs == t.cs
    ensures Inv(ops, u)
  {
  }

  lemma ShrunkKeepsPrime<T(!new)>(ops: Ops<T>, t: Table<T>, data: Option<T>)
    requires Lawful(ops) && Inv(ops, t) && TuningOk(t.tuning) && Prime(|t.cs|)
    ensures var r := Shrunk(ops, t, data); r.Deleted? ==> Prime(|r.t.cs|)
  {
    hide Prime, Rehash, WellPlaced, Bag, Keyed, TuningOk, Used;
    RehashKeepsPrime(ops, t, Truncate(ShrinkCandidate(|t.cs|, t.tuning)));
  }

  lemma DeleteKeepsPrime<T(!new)>(ops: Ops<T>, t: Table<T>, e: T)
    requires Lawful(ops) && Inv(ops, t) && Prime(|t.cs|)
    ensures var r := Delete(ops, t, e); r.Deleted? ==> Prime(|r.t.cs|)
  {
    hide Prime, Shrunk, WellPlaced, Bag, Keyed, TuningOk, Used, MustShrink;
    var j := Slot(ops, e, |t.cs|);
    var k := Find(ops, t.cs[j], e);
    if k < |t.cs[j]| {
      UnlinkKeeps(ops, t, j, k);
      var u := Unlink(t, j, k);
      var v := u.(tuning := Checked(u.tuning));
      InvByTuning(ops, u, v);
      ShrunkKeepsPrime(ops, v, Some(t.cs[j][k]));
    }
  }

  /** hash_initialize gives a table a prime number of buckets, and every operation keeps it so. */
  lemma SizesArePrime<T(!new)>(ops: Ops<T>, candidate: nat, tuning: Tuning, mem: seq<bool>, t: Table<T>, op: Op<T>)
    requires Lawful(ops) && candidate < WORD
    ensures var table: Option<Table<T>> := Initialize(candidate, tuning, mem);
            table.Some? ==> Prime(|table.value.cs|)
    ensures Inv(ops, t) && Prime(|t.cs|) && Legal(t, op) ==>
              var r := Do(ops, t, op); r.Next? ==> Prime(|r.t.cs|)
  {
    hide Prime, Rehash, WellPlaced, Bag, Keyed, BucketSize, Delete, MakeRoom, Lookup;
    if TuningOk(tuning) {
      BucketSizeIsPrime(candidate, tuning);
    }
    if Inv(ops, t) && Prime(|t.cs|) && Legal(t, op) {
      match op
      case DoInsert(e) => RoomKeepsPrime(ops, t, e);
      case DoDelete(e) => DeleteKeepsPrime(ops, t, e);
      case DoRehash(c) => RehashKeepsPrime(ops, t, c);
      case _ =>
    }
  }
}
