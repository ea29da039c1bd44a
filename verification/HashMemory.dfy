/** What the hash table's operations make of the allocator's answers (hash.c, allocate_entry,
    transfer_entries, hash_rehash, hash_insert): how many they ask for, and that nothing but a
    refusal, or a size that cannot be had, makes them fail. */
module HashMemory {
  import opened Primes
  import opened HashModel
  import opened HashRollback
  import opened Wrappers

  /** At most n requests were made, and all were granted. */
  ghost predicate Served(before: seq<bool>, after: seq<bool>, n: nat) {
    && |after| <= |before| <= |after| + n
    && before[|before| - |after|..] == after
    && forall k | 0 <= k < |before| - |after| :: before[k]
  }

  /** Of at most n requests the last was refused, and all before it were granted. */
  ghost predicate Refused(before: seq<bool>, after: seq<bool>, n: nat) {
    n > 0 && exists last :: Served(before, last, n - 1) && !Granted(last) && after == Rest(last)
  }

  /** While answers are left, only one of the two can be. */
  lemma NotBoth(before: seq<bool>, after: seq<bool>, n: nat)
    requires Served(before, after, n) && Refused(before, after, n)
    ensures after == []
  {
    forall last | n > 0 && Served(before, last, n - 1) && last != [] && after == Rest(last)
      ensures Granted(last)
    {
      assert before[|before| - |last|..] == last;
    }
  }

  /** Where the next n requests would be granted, none of n is refused. */
  ghost predicate Ample(mem: seq<bool>, n: nat) {
    n <= |mem| && forall k | 0 <= k < n :: mem[k]
  }

  lemma AmpleIsNotRefused(before: seq<bool>, after: seq<bool>, n: nat)
    requires Ample(before, n)
    ensures !Refused(before, after, n)
  {
    forall last | n > 0 && Served(before, last, n - 1)
      ensures Granted(last)
    {
      assert before[|before| - |last|..] == last;
    }
  }

  /** Requests one after the other. */
  lemma ServedThen(a: seq<bool>, b: seq<bool>, c: seq<bool>, n: nat, m: nat)
    requires Served(a, b, n)
    ensures Served(b, c, m) ==> Served(a, c, n + m)
    ensures Refused(b, c, m) ==> Refused(a, c, n + m)
  {
    if Served(b, c, m) {
      Joined(a, b, c, n, m);
    }
    if Refused(b, c, m) {
      var last :| Served(b, last, m - 1) && !Granted(last) && c == Rest(last);
      Joined(a, b, last, n, m - 1);
    }
  }

  lemma Joined(a: seq<bool>, b: seq<bool>, c: seq<bool>, n: nat, m: nat)
    requires Served(a, b, n) && Served(b, c, m)
    ensures Served(a, c, n + m)
  {
    forall k | 0 <= k < |a| - |c|
      ensures a[k]
    {
      if k >= |a| - |b| {
        assert a[k] == b[k - (|a| - |b|)];
      }
    }
  }

  /** A bound may be larger. */
  lemma Loosen(before: seq<bool>, after: seq<bool>, n: nat, m: nat)
    requires n <= m
    ensures Served(before, after, n) ==> Served(before, after, m)
    ensures Refused(before, after, n) ==> Refused(before, after, m)
  {
    if Refused(before, after, n) {
      var last :| Served(before, last, n - 1) && !Granted(last) && after == Rest(last);
      assert Served(before, last, m - 1);
    }
  }

  /** One request. */
  lemma Asked(mem: seq<bool>)
    ensures Served(mem, mem, 0)
    ensures if Granted(mem) then Served(mem, Rest(mem), 1) else Refused(mem, Rest(mem), 1)
  {
    assert Served(mem, mem, 0);
  }

  // ----- Moving entries -----

  lemma MoveBucketAsks<T(!new)>(ops: Ops<T>, x: Xfer<T>, i: nat)
    requires InRange(ops) && |x.dst| > 0 && i < |x.src| && x.ok
    ensures var y := MoveBucket(ops, x, i, false);
            if y.ok then Served(x.mem, y.mem, 1) else Refused(x.mem, y.mem, 1)
  {
    hide Served, Refused, MoveOverflow, Place;
    Asked(x.mem);
    Loosen(x.mem, x.mem, 0, 1);
  }

  /** A pass asks at most once a bucket, and fails exactly when it is refused. */
  lemma {:induction false} TransferAsks<T(!new)>(ops: Ops<T>, x: Xfer<T>, i: nat)
    requires InRange(ops) && |x.dst| > 0 && i <= |x.src| && x.ok
    ensures var y := Transfer(ops, x, i, false);
            if y.ok then Served(x.mem, y.mem, |x.src| - i) else Refused(x.mem, y.mem, |x.src| - i)
    decreases |x.src| - i
  {
    hide Served, Refused, MoveBucket;
    if i == |x.src| {
      Asked(x.mem);
    } else {
      MoveBucketAsks(ops, x, i);
      var y := MoveBucket(ops, x, i, false);
      if y.ok {
        TransferAsks(ops, y, i + 1);
        ServedThen(x.mem, y.mem, Transfer(ops, y, i + 1, false).mem, 1, |x.src| - i - 1);
      } else {
        Loosen(x.mem, y.mem, 1, |x.src| - i);
      }
    }
  }

  // ----- Rehashing -----

  /** The answers left behind a rehash are those left behind its forward pass: the rollback
      asks for nothing. */
  lemma RollbackAsksNothing<T(!new)>(ops: Ops<T>, t: Table<T>, candidate: nat)
    requires InRange(ops) && |t.cs| > 0 && candidate < WORD && TuningOk(t.tuning) && WellPlaced(ops, t.cs)
    requires BucketSize(candidate, t.tuning) != 0 && Granted(t.mem)
    ensures var x := Transfer(ops, Xfer(Empty<T>(BucketSize(candidate, t.tuning)), t.cs, t.free, Rest(t.mem), true),
                              0, false);
            var r := Rehash(ops, t, candidate);
            r.Rehashed? && r.ok == x.ok && r.t.mem == x.mem
  {
    hide BucketSize;
    var n := BucketSize(candidate, t.tuning);
    var start := Xfer(Empty<T>(n), t.cs, t.free, Rest(t.mem), true);
    EmptyCounts(Empty<T>(n));
    assert Balanced(ops, start, Bag(t.cs), Stock(start));
    TransferKeeps(ops, start, 0, false, Bag(t.cs), Stock(start));
    var x := Transfer(ops, start, 0, false);
    if !x.ok {
      RollbackSucceeds(ops, x, t.cs);
    }
  }

  /** hash_rehash makes one request for the buckets and at most one a bucket. It fails only if there
      is no size for the candidate or a request is refused, and always then, as far as the
      allocator's answers reach. */
  lemma RehashAsks<T(!new)>(ops: Ops<T>, t: Table<T>, candidate: nat)
    requires InRange(ops) && |t.cs| > 0 && candidate < WORD && TuningOk(t.tuning) && WellPlaced(ops, t.cs)
    ensures var r := Rehash(ops, t, candidate);
            && r.Rehashed?
            && (BucketSize(candidate, t.tuning) == 0 ==> !r.ok && r.t == t)
            && (r.ok ==> Served(t.mem, r.t.mem, |t.cs| + 1))
            && (!r.ok ==> BucketSize(candidate, t.tuning) == 0 || Refused(t.mem, r.t.mem, |t.cs| + 1))
            && (Ample(t.mem, |t.cs| + 1) ==> (r.ok <==> BucketSize(candidate, t.tuning) != 0))
            && (r.t.mem != [] ==>
                  (!r.ok <==> BucketSize(candidate, t.tuning) == 0 || Refused(t.mem, r.t.mem, |t.cs| + 1)))
  {
    hide BucketSize, Served, Refused, WellPlaced, Transfer, Ample;
    var n := BucketSize(candidate, t.tuning);
    var r := Rehash(ops, t, candidate);
    Asked(t.mem);
    if n != 0 {
      if Granted(t.mem) {
        RollbackAsksNothing(ops, t, candidate);
        TransferAsks(ops, Xfer(Empty<T>(n), t.cs, t.free, Rest(t.mem), true), 0);
        ServedThen(t.mem, Rest(t.mem), r.t.mem, 1, |t.cs|);
      } else {
        Loosen(t.mem, Rest(t.mem), 1, |t.cs| + 1);
      }
      if Ample(t.mem, |t.cs| + 1) {
        AmpleIsNotRefused(t.mem, r.t.mem, |t.cs| + 1);
      }
      if r.ok && Refused(t.mem, r.t.mem, |t.cs| + 1) {
        NotBoth(t.mem, r.t.mem, |t.cs| + 1);
      }
    }
  }

  // ----- Inserting -----

  /** The table would have to grow for the next new entry, and the size it then asks for cannot
      be had. */
  ghost predicate SizeRefused<T>(t: Table<T>) {
    var g := Checked(t.tuning);
    var candidate := GrowthCandidate(|t.cs|, g);
    GrowthPositive(|t.cs|, g);
    && MustGrow(t.cs, t.tuning) && MustGrow(t.cs, g)
    && (candidate < SIZE_MAX as real ==> BucketSize(Truncate(candidate), g) == 0)
  }

  lemma RoomAsks<T(!new)>(ops: Ops<T>, t: Table<T>, e: T)
    requires InRange(ops) && |t.cs| > 0 && WellPlaced(ops, t.cs)
    ensures var r := MakeRoom(ops, t, e);
            && (SizeRefused(t) ==> r.NoRoom? && r.t.mem == t.mem)
            && (r.Ready? ==> Served(t.mem, r.t.mem, |t.cs| + 1))
            && (r.NoRoom? ==> SizeRefused(t) || Refused(t.mem, r.t.mem, |t.cs| + 1))
  {
    hide BucketSize, Served, Refused, WellPlaced, Rehash, MustGrow, TuningOk, Lookup, GrowthCandidate;
    Asked(t.mem);
    Loosen(t.mem, t.mem, 0, |t.cs| + 1);
    var t1 := t.(tuning := Checked(t.tuning));
    var candidate := GrowthCandidate(|t.cs|, t1.tuning);
    GrowthPositive(|t.cs|, t1.tuning);
    if candidate < SIZE_MAX as real {
      RehashAsks(ops, t1, Truncate(candidate));
    }
  }

  lemma AddAsks<T(!new)>(ops: Ops<T>, t: Table<T>, e: T)
    requires InRange(ops) && |t.cs| > 0
    ensures var r := Add(ops, t, e);
            && (r.Inserted? || r.Failed?)
            && (if r.Inserted? then Served(t.mem, r.t.mem, 1) else Refused(t.mem, r.t.mem, 1))
  {
    hide Served, Refused, Place;
    Asked(t.mem);
    Loosen(t.mem, t.mem, 0, 1);
  }

  /** An insertion fails only if the size the table must grow to cannot be had, or one of at most
      n_buckets + 2 requests is refused; and it succeeds only if neither is so. */
  lemma InsertAsks<T(!new)>(ops: Ops<T>, t: Table<T>, e: T)
    requires InRange(ops) && |t.cs| > 0 && WellPlaced(ops, t.cs)
    ensures var r := Insert(ops, t, e);
            && (r.Present? ==> r.t == t)
            && (r.Inserted? ==> !SizeRefused(t) && Served(t.mem, r.t.mem, |t.cs| + 2))
            && (r.Failed? ==> SizeRefused(t) || Refused(t.mem, r.t.mem, |t.cs| + 2))
            && (r.Failed? && Ample(t.mem, |t.cs| + 2) ==> SizeRefused(t))
  {
    hide Served, Refused, WellPlaced, MakeRoom, Lookup, Add, SizeRefused, Ample;
    var r := Insert(ops, t, e);
    if Lookup(ops, t.cs, e).None? {
      RoomAsks(ops, t, e);
      var u := MakeRoom(ops, t, e);
      if u.Ready? {
        AddAsks(ops, u.t, e);
        ServedThen(t.mem, u.t.mem, Add(ops, u.t, e).t.mem, |t.cs| + 1, 1);
      } else if u.NoRoom? {
        Loosen(t.mem, u.t.mem, |t.cs| + 1, |t.cs| + 2);
      }
      if Ample(t.mem, |t.cs| + 2) && r.Failed? {
        AmpleIsNotRefused(t.mem, r.t.mem, |t.cs| + 2);
      }
    }
  }
}
