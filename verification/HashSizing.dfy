/** When a hash table gets which number of buckets (hash.c, compute_bucket_size, hash_initialize,
    hash_insert, hash_delete): in terms of the buckets in use, the thresholds and the primes. */
module HashSizing {
  import opened Primes
  import opened HashModel
  import opened HashRollback
  import opened HashMemory
  import opened HashRuns
  import opened HashCapacity
  import opened Wrappers

  /** n is a prime number of buckets, of eight bytes each, that pays for the candidate, which is a
      number of entries or of buckets. */
  ghost predicate Pays(n: nat, candidate: nat, t: Tuning) {
    && Prime(n) && 11 <= n && 8 * n <= SIZE_MAX
    && if t.isNBuckets then candidate <= n else candidate as real < (n + 1) as real * t.growthThreshold
  }

  ghost predicate Least(n: nat, candidate: nat, t: Tuning) {
    Pays(n, candidate, t) && forall p: nat | Pays(p, candidate, t) :: n <= p
  }

  lemma PaysFrom(n: nat, candidate: nat, t: Tuning)
    requires TuningOk(t)
    ensures Pays(n, candidate, t) <==>
              && Prime(n) && 11 <= n <= MAX_BUCKETS
              && n >= if t.isNBuckets then candidate else (candidate as real / t.growthThreshold).Floor
  {
    hide Prime;
    FloorOfQuotient(candidate as real, t.growthThreshold, n + 1);
  }

  /** compute_bucket_size refuses exactly if no such number exists, and else gives the least. */
  lemma SizeIsLeast(candidate: nat, t: Tuning)
    requires candidate < WORD && TuningOk(t)
    ensures var n := BucketSize(candidate, t);
            && (n == 0 <==> forall p: nat :: !Pays(p, candidate, t))
            && (n != 0 ==> Least(n, candidate, t))
  {
    hide Prime, NextPrime, Pays;
    forall p: nat ensures Pays(p, candidate, t) <==>
              && Prime(p) && 11 <= p <= MAX_BUCKETS
              && p >= if t.isNBuckets then candidate else (candidate as real / t.growthThreshold).Floor
    {
      PaysFrom(p, candidate, t);
    }
    FloorOfQuotient(candidate as real, t.growthThreshold, 0);
    if t.isNBuckets {
      NextPrimeIsLeast(candidate);
    } else if candidate as real / t.growthThreshold < SIZE_MAX as real {
      NextPrimeIsLeast((candidate as real / t.growthThreshold).Floor);
    }
  }

  lemma LeastIsSize(n: nat, candidate: nat, t: Tuning)
    requires candidate < WORD && TuningOk(t)
    ensures Least(n, candidate, t) <==> n != 0 && n == BucketSize(candidate, t)
  {
    hide Prime, BucketSize, TuningOk;
    SizeIsLeast(candidate, t);
    assert Pays(n, candidate, t) ==> n >= 11;
  }

  /** check_tuning lets exactly these values through. */
  predicate WithinBounds(t: Tuning) {
    && 0.1 < t.growthThreshold < 0.9 && t.growthFactor > 1.1
    && 0.0 <= t.shrinkThreshold < t.growthThreshold - 0.1
    && t.shrinkThreshold + 0.1 < t.shrinkFactor <= 1.0
  }

  lemma CheckedExactly(t: Tuning)
    ensures Checked(t) == if WithinBounds(t) then t else Tuning(0.0, 1.0, 0.8, 1.414, false)
  {
  }

  /** hash_initialize succeeds exactly if the tuning is within its bounds, there is a number of
      buckets for the candidate, and two requests are granted; it takes the least. */
  lemma InitializeExactly<T(!new)>(candidate: nat, t: Tuning, mem: seq<bool>)
    requires candidate < WORD
    ensures var r: Option<Table<T>> := Initialize(candidate, t, mem);
            && (r.Some? <==> WithinBounds(t) && Ample(mem, 2) && exists p: nat :: Pays(p, candidate, t))
            && (r.Some? ==> && Least(|r.value.cs|, candidate, t) && r.value.tuning == t && r.value.mem == mem[2..]
                            && r.value.free == 0 && Bag(r.value.cs) == multiset{})
  {
    hide BucketSize, Prime, Pays;
    assert TuningOk(t) <==> WithinBounds(t);
    if TuningOk(t) {
      SizeIsLeast(candidate, t);
      EmptyCounts(Empty<T>(BucketSize(candidate, t)));
    }
  }

  /** So it does for any candidate the default tuning can meet with 41 buckets. */
  lemma DefaultPays(candidate: nat)
    requires candidate <= 33
    ensures exists p: nat :: Pays(p, candidate, DEFAULT_TUNING)
  {
    assert Prime(41);
    assert Pays(41, candidate, DEFAULT_TUNING);
  }

  // ----- Growing -----

  /** More buckets are in use than both the caller's threshold and the checked one allow. */
  predicate Crowded<T>(t: Table<T>) {
    var used, n := Used(t.cs) as real, |t.cs| as real;
    used > t.tuning.growthThreshold * n && used > Checked(t.tuning).growthThreshold * n
  }

  /** More are in use than the caller's own threshold allows, which is when the tuning is checked. */
  predicate AboveOwn<T>(t: Table<T>) {
    Used(t.cs) as real > t.tuning.growthThreshold * |t.cs| as real
  }

  /** What a crowded table asks for, before truncation. */
  function Wanted(n: nat, g: Tuning): real {
    n as real * g.growthFactor * if g.isNBuckets then 1.0 else g.growthThreshold
  }

  lemma CandidateIsWanted(n: nat, g: Tuning)
    requires TuningOk(g)
    ensures GrowthCandidate(n, g) == Wanted(n, g) >= 0.0
  {
    GrowthPositive(n, g);
  }

  /** The size a crowded table must have is refused exactly if there is no such number. */
  lemma SizeRefusedExactly<T>(t: Table<T>)
    ensures var g := Checked(t.tuning);
            var x := Wanted(|t.cs|, g);
            SizeRefused(t) <==>
              Crowded(t) && (x < SIZE_MAX as real ==> x >= 0.0 && forall p: nat :: !Pays(p, x.Floor, g))
  {
    hide BucketSize, Used, TuningOk, Pays;
    var g := Checked(t.tuning);
    CandidateIsWanted(|t.cs|, g);
    if Wanted(|t.cs|, g) < SIZE_MAX as real {
      SizeIsLeast(Truncate(Wanted(|t.cs|, g)), g);
    }
  }

  /** A new entry makes a crowded table grow before it goes in: to the least number of buckets that
      pays for what is wanted. A table that is not crowded keeps its buckets, and takes the entry
      unless its bucket is taken and no node can be had. */
  lemma InsertGrowsExactly<T(!new)>(ops: Ops<T>, t: Table<T>, e: T)
    requires Lawful(ops) && Inv(ops, t) && forall y | y in Elements(t) :: !ops.same(e, y)
    ensures var r, g := Insert(ops, t, e), Checked(t.tuning);
            var x := Wanted(|t.cs|, g);
            && (r.Inserted? || r.Failed?)
            && (Crowded(t) ==>
                  && r.t.tuning == g
                  && (r.Inserted? || |r.t.cs| != |t.cs| ==>
                        0.0 <= x < SIZE_MAX as real && Least(|r.t.cs|, x.Floor, g)))
            && (!Crowded(t) ==>
                  && |r.t.cs| == |t.cs|
                  && r.t.tuning == (if AboveOwn(t) then g else t.tuning)
                  && (r.Failed? <==> t.cs[Slot(ops, e, |t.cs|)] != [] && t.free == 0 && !Granted(t.mem)))
  {
    hide WellPlaced, Keyed, Bag, Lookup, MakeRoom, Used, Least, Place, Elements, TuningOk, GrowthCandidate;
    InsertKeeps(ops, t, e);
    SameMembers(t);
    LookupFinds(ops, t.cs, e);
    RoomGrows(ops, t, e);
  }

  lemma SameMembers<T>(t: Table<T>)
    ensures forall y :: y in Elements(t) <==> y in Bag(t.cs)
  {
    hide Bag;
  }

  lemma RehashSizes<T(!new)>(ops: Ops<T>, t: Table<T>, candidate: nat)
    requires Lawful(ops) && Inv(ops, t) && candidate < WORD && TuningOk(t.tuning)
    ensures var r := Rehash(ops, t, candidate);
            && r.Rehashed? && r.t.tuning == t.tuning
            && (if r.ok then Least(|r.t.cs|, candidate, t.tuning) else |r.t.cs| == |t.cs|)
  {
    hide WellPlaced, Keyed, Bag, Least, Rehash, BucketSize, TuningOk;
    RehashInv(ops, t, candidate);
    RehashKeepsData(ops, t, candidate);
    LeastIsSize(|Rehash(ops, t, candidate).t.cs|, candidate, t.tuning);
  }

  lemma RoomGrows<T(!new)>(ops: Ops<T>, t: Table<T>, e: T)
    requires Lawful(ops) && Inv(ops, t) && forall y | y in Bag(t.cs) :: !ops.same(e, y)
    ensures var r, g := MakeRoom(ops, t, e), Checked(t.tuning);
            var x := Wanted(|t.cs|, g);
            && !r.RoomAborted?
            && (!Crowded(t) ==>
                  && r.Ready? && r.t.cs == t.cs && r.t.free == t.free && r.t.mem == t.mem
                  && r.t.tuning == if AboveOwn(t) then g else t.tuning)
            && (Crowded(t) ==>
                  && r.t.tuning == g && (r.NoRoom? ==> |r.t.cs| == |t.cs|)
                  && (r.Ready? ==> 0.0 <= x < SIZE_MAX as real && Least(|r.t.cs|, x.Floor, g)))
  {
    hide Inv, Lawful, Bag, Lookup, Used, Least, Rehash, TuningOk, Wanted, GrowthCandidate;
    var g := Checked(t.tuning);
    RoomKeeps(ops, t, e);
    CandidateIsWanted(|t.cs|, g);
    var x := Wanted(|t.cs|, g);
    var t1 := t.(tuning := g);
    InvByTuning(ops, t, t1);
    if x < SIZE_MAX as real {
      RehashSizes(ops, t1, x.Floor);
    }
  }

  /** An entry that goes into a crowded table finds it enlarged, exactly unless its buckets already
      pay for what is wanted. */
  lemma CrowdedIsEnlarged<T(!new)>(ops: Ops<T>, t: Table<T>, e: T)
    requires Lawful(ops) && Inv(ops, t) && Prime(|t.cs|) && 11 <= |t.cs| && Crowded(t)
    requires Insert(ops, t, e).Inserted?
    ensures var g, x := Checked(t.tuning), Wanted(|t.cs|, Checked(t.tuning));
            x >= 0.0 && (|Insert(ops, t, e).t.cs| > |t.cs| <==> !Pays(|t.cs|, x.Floor, g))
  {
    hide WellPlaced, Keyed, Bag, Elements, Insert, Prime, Wanted, Pays, Crowded;
    InsertKeeps(ops, t, e);
    InsertGrowsExactly(ops, t, e);
    var g, x := Checked(t.tuning), Wanted(|t.cs|, Checked(t.tuning));
    PaysFrom(|t.cs|, x.Floor, g);
    PaysFrom(|Insert(ops, t, e).t.cs|, x.Floor, g);
  }

  /** So no entry ever goes into a crowded table that has not been enlarged, with the default tuning and
      wherever the tuning counts buckets. */
  lemma AlwaysEnlarged<T(!new)>(ops: Ops<T>, t: Table<T>, e: T)
    requires Lawful(ops) && Inv(ops, t) && Prime(|t.cs|) && 11 <= |t.cs| && Crowded(t)
    requires Insert(ops, t, e).Inserted?
    requires var g := Checked(t.tuning); g == DEFAULT_TUNING || g.isNBuckets
    ensures |Insert(ops, t, e).t.cs| > |t.cs|
  {
    hide WellPlaced, Keyed, Bag, Elements, Insert, Prime, Crowded;
    hide Pays, Wanted;
    CrowdedIsEnlarged(ops, t, e);
    WantsMore(|t.cs|, Checked(t.tuning));
  }

  lemma TenthMore(n: nat, f: real)
    requires n >= 11 && f > 1.1
    ensures (n as real * f).Floor >= n + 1
  {
    var m := n as real;
    RealScale(m, 1.1, f);
    var y := m * f;
    assert y >= m + 0.1 * m >= m + 1.0;
  }

  lemma WantsMore(n: nat, g: Tuning)
    requires TuningOk(g) && 11 <= n && (g == DEFAULT_TUNING || g.isNBuckets)
    ensures 0.0 <= Wanted(n, g) && !Pays(n, Wanted(n, g).Floor, g)
  {
    hide Prime;
    var x, m := Wanted(n, g), n as real;
    if g.isNBuckets {
      TenthMore(n, g.growthFactor);
      assert x == m * g.growthFactor;
    } else {
      assert x == m * 1.1312;
    }
  }

  // ----- Shrinking -----

  /** Fewer buckets than both thresholds ask for would be in use behind the deletion of e, which takes
      the last entry out of its bucket. */
  ghost predicate Deserted<T(!new)>(ops: Ops<T>, t: Table<T>, e: T)
    requires InRange(ops) && |t.cs| > 0
  {
    var left, n := Used(t.cs) as real - 1.0, |t.cs| as real;
    && |t.cs[Slot(ops, e, |t.cs|)]| == 1
    && left < t.tuning.shrinkThreshold * n && left < Checked(t.tuning).shrinkThreshold * n
  }

  function Enough(n: nat, g: Tuning): real {
    n as real * g.shrinkFactor * if g.isNBuckets then 1.0 else g.growthThreshold
  }

  /** Of n buckets, r has the least number that pays for enough, or still n and nothing recycled; with the
      requests granted the first, unless no number pays. */
  ghost predicate ShrunkTo<T>(n: nat, g: Tuning, mem: seq<bool>, r: Table<T>) {
    var x := Enough(n, g);
    && 0.0 <= x <= n as real
    && (Least(|r.cs|, x.Floor, g) || (|r.cs| == n && r.free == 0))
    && (Ample(mem, n + 1) ==>
          if exists p: nat :: Pays(p, x.Floor, g) then Least(|r.cs|, x.Floor, g) else |r.cs| == n)
  }

  /** A deletion makes exactly a deserted table shrink, to the least number of buckets that pays for
      enough, if the allocator grants it; else the buckets stay, and what is recycled is given up. Any
      other deletion leaves the buckets and the allocator alone. */
  lemma DeleteShrinksExactly<T(!new)>(ops: Ops<T>, t: Table<T>, e: T)
    requires Lawful(ops) && Inv(ops, t)
    ensures var r, g := Delete(ops, t, e), Checked(t.tuning);
            && r.Deleted?
            && (r.data.None? ==> r.t == t)
            && (r.data.Some? && !Deserted(ops, t, e) ==>
                  && |r.t.cs| == |t.cs| && r.t.mem == t.mem
                  && (r.t.tuning == t.tuning || (r.t.tuning == g && |t.cs[Slot(ops, e, |t.cs|)]| == 1 &&
                        Used(t.cs) as real - 1.0 < t.tuning.shrinkThreshold * |t.cs| as real))
                  && r.t.free == t.free + if |t.cs[Slot(ops, e, |t.cs|)]| == 1 then 0 else 1)
            && (r.data.Some? && Deserted(ops, t, e) ==> r.t.tuning == g && ShrunkTo(|t.cs|, g, t.mem, r.t))
  {
    hide Inv, Lawful, Elements, Used, ShrunkTo, Shrunk, TuningOk, Find, Unlink;
    BucketBound(ops, t);
    var j := Slot(ops, e, |t.cs|);
    var k := Find(ops, t.cs[j], e);
    DeleteKeeps(ops, t, e);
    if k < |t.cs[j]| {
      UnlinkKeeps(ops, t, j, k);
      var u, g := Unlink(t, j, k), Checked(t.tuning);
      UsedBehind(t, j, k);
      var v := u.(tuning := g);
      InvByTuning(ops, u, v);
      ShrunkSizes(ops, v, Some(t.cs[j][k]));
    }
  }

  lemma BucketBound<T(!new)>(ops: Ops<T>, t: Table<T>)
    requires Lawful(ops) && Inv(ops, t)
    ensures InRange(ops) && 0 < |t.cs| <= MAX_BUCKETS
  {
  }

  lemma ShrunkSizes<T(!new)>(ops: Ops<T>, v: Table<T>, data: Option<T>)
    requires Lawful(ops) && Inv(ops, v) && TuningOk(v.tuning)
    ensures InRange(ops) && 0 < |v.cs| <= MAX_BUCKETS
    ensures var r := Shrunk(ops, v, data);
            && r.Deleted? && r.data == data && r.t.tuning == v.tuning
            && if Used(v.cs) as real >= v.tuning.shrinkThreshold * |v.cs| as real then r.t == v
               else ShrunkTo(|v.cs|, v.tuning, v.mem, r.t)
  {
    hide WellPlaced, Keyed, Bag, Used, Least, Rehash, BucketSize, TuningOk, Pays, Ample, Served, Refused, Enough,
      ShrinkCandidate;
    EnoughMeans(|v.cs|, v.tuning);
    var c := Truncate(ShrinkCandidate(|v.cs|, v.tuning));
    RehashSizes(ops, v, c);
    RehashAsks(ops, v, c);
    SizeIsLeast(c, v.tuning);
  }

  lemma EnoughMeans(n: nat, g: Tuning)
    requires TuningOk(g)
    ensures ShrinkCandidate(n, g) == Enough(n, g)
  {
  }

  lemma UsedBehind<T>(t: Table<T>, j: nat, k: nat)
    requires j < |t.cs| && k < |t.cs[j]|
    ensures var u := Unlink(t, j, k);
            && |u.cs| == |t.cs| && (u.cs[j] == [] <==> |t.cs[j]| == 1) && u.mem == t.mem && u.tuning == t.tuning
            && u.free == t.free + (if |t.cs[j]| == 1 then 0 else 1)
            && Used(u.cs) == Used(t.cs) - if |t.cs[j]| == 1 then 1 else 0
  {
    ReplaceChain(t.cs, j, Without(t.cs[j], k));
    SingleUsed(t.cs[j], k);
  }
}
