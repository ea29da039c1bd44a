/** Whole runs of the hash table refine a finite set of pairwise different entries, whatever
    the allocator answers (hash.c, hash_lookup, hash_insert, hash_delete, hash_clear,
    hash_rehash). */
module HashRuns {
  import opened Primes
  import opened HashModel
  import opened HashRollback
  import opened HashMemory
  import opened Wrappers

  /** Each entry once, and no two that compare equal. */
  ghost predicate Keyed<T>(ops: Ops<T>, bag: multiset<T>) {
    && (forall x | x in bag :: bag[x] == 1)
    && (forall x, y | x in bag && y in bag && ops.same(x, y) :: x == y)
  }

  ghost predicate Inv<T(!new)>(ops: Ops<T>, t: Table<T>) {
    && 0 < |t.cs| <= MAX_BUCKETS
    && WellPlaced(ops, t.cs)
    && Keyed(ops, Bag(t.cs))
  }

  /** The set the table stands for. */
  ghost function Elements<T>(t: Table<T>): set<T> {
    set x | x in Bag(t.cs)
  }

  // ----- Looking up -----

  lemma InBucket<T(!new)>(ops: Ops<T>, cs: Chains<T>, x: T)
    requires InRange(ops) && |cs| > 0 && WellPlaced(ops, cs)
    ensures x in Bag(cs) <==> x in cs[Slot(ops, x, |cs|)]
  {
    BucketHolds(ops, cs, Slot(ops, x, |cs|), x);
  }

  /** Looking up finds exactly the entry that compares equal, in the whole table. */
  lemma LookupFinds<T(!new)>(ops: Ops<T>, cs: Chains<T>, e: T)
    requires Lawful(ops) && |cs| > 0 && WellPlaced(ops, cs)
    ensures var r := Lookup(ops, cs, e);
            && (r.Some? ==> r.value in Bag(cs) && ops.same(e, r.value))
            && (r.None? ==> forall y | y in Bag(cs) :: !ops.same(e, y))
  {
    var j := Slot(ops, e, |cs|);
    var c := cs[j];
    var k := Find(ops, c, e);
    if k < |c| {
      assert Slot(ops, c[k], |cs|) == j;
      InBucket(ops, cs, c[k]);
    } else {
      forall y | y in Bag(cs)
        ensures !ops.same(e, y)
      {
        InBucket(ops, cs, y);
      }
    }
  }

  // ----- Adding and removing -----

  lemma KeyedAdd<T(!new)>(ops: Ops<T>, bag: multiset<T>, e: T)
    requires Lawful(ops) && Keyed(ops, bag) && forall y | y in bag :: !ops.same(e, y)
    ensures Keyed(ops, bag + multiset{e})
  {
    assert ops.same(e, e);
    assert e !in bag;
    forall x, y | x in bag + multiset{e} && y in bag + multiset{e} && ops.same(x, y)
      ensures x == y
    {
      assert ops.same(y, x);
    }
  }

  lemma KeyedRemove<T>(ops: Ops<T>, bag: multiset<T>, d: T)
    requires Keyed(ops, bag) && d in bag
    ensures Keyed(ops, bag - multiset{d})
    ensures (set x | x in bag - multiset{d}) == (set x | x in bag) - {d}
  {
  }

  lemma AddKeeps<T(!new)>(ops: Ops<T>, t: Table<T>, e: T)
    requires Lawful(ops) && Inv(ops, t)
    requires forall y | y in Bag(t.cs) :: !ops.same(e, y)
    ensures var r := Add(ops, t, e);
            && !r.Present? && !r.Aborted? && Inv(ops, r.t) && r.t.tuning == t.tuning
            && Elements(r.t) == if r.Inserted? then Elements(t) + {e} else Elements(t)
  {
    hide WellPlaced, Place, Bag;
    PlaceKeeps(ops, t.cs, e);
    KeyedAdd(ops, Bag(t.cs), e);
  }

  lemma UnlinkKeeps<T(!new)>(ops: Ops<T>, t: Table<T>, j: nat, k: nat)
    requires Inv(ops, t) && j < |t.cs| && k < |t.cs[j]|
    ensures var u := Unlink(t, j, k);
            && Inv(ops, u) && u.tuning == t.tuning && |u.cs| == |t.cs|
            && t.cs[j][k] in Elements(t)
            && Elements(u) == Elements(t) - {t.cs[j][k]}
            && u.free + Over(u.cs) == t.free + Over(t.cs)
  {
    hide Bag, Keyed, Used;
    var c, d := t.cs[j], t.cs[j][k];
    var u := Unlink(t, j, k);
    WithoutBag(c, k);
    ReplaceChain(t.cs, j, Without(c, k));
    CountAt(t.cs, j);
    assert Bag(u.cs) == Bag(t.cs) - multiset{d} by {
      assert Bag(u.cs) + multiset{d} == Bag(t.cs) by {
        Cancel(Bag(t.cs), Bag(u.cs), multiset(Without(c, k)), multiset{d});
      }
    }
    assert d in c;
    WithoutPlaced(ops, t.cs, j, k);
    KeyedRemove(ops, Bag(t.cs), d);
    SingleUsed(c, k);
  }

  lemma SingleUsed<T>(c: seq<T>, k: nat)
    requires k < |c|
    ensures Used([c]) == 1 && Used([Without(c, k)]) == if |c| > 1 then 1 else 0
  {
  }

  lemma WithoutBag<T>(c: seq<T>, k: nat)
    requires k < |c|
    ensures multiset(c) == multiset(Without(c, k)) + multiset{c[k]}
  {
    assert c == c[..k] + [c[k]] + c[k + 1..];
  }

  lemma WithoutPlaced<T(!new)>(ops: Ops<T>, cs: Chains<T>, j: nat, k: nat)
    requires WellPlaced(ops, cs) && j < |cs| && k < |cs[j]|
    ensures WellPlaced(ops, cs[j := Without(cs[j], k)])
  {
    var r := cs[j := Without(cs[j], k)];
    forall i, l | 0 <= i < |r| && 0 <= l < |r[i]|
      ensures ops.hash(r[i][l], |r|) == i
    {
      if i == j {
        assert r[i][l] == cs[j][if l < k then l else l + 1];
      }
    }
  }

  // ----- The operations -----

  lemma RoomKeeps<T(!new)>(ops: Ops<T>, t: Table<T>, e: T)
    requires Lawful(ops) && Inv(ops, t) && forall y | y in Bag(t.cs) :: !ops.same(e, y)
    ensures var r := MakeRoom(ops, t, e);
            !r.RoomAborted? && Inv(ops, r.t) && Bag(r.t.cs) == Bag(t.cs)
  {
    hide WellPlaced, Bag, Lookup, Rehash, MustGrow, TuningOk, Keyed;
    var t1 := t.(tuning := Checked(t.tuning));
    GrowthPositive(|t.cs|, t1.tuning);
    var candidate := GrowthCandidate(|t.cs|, t1.tuning);
    if candidate < SIZE_MAX as real {
      RehashInv(ops, t1, Truncate(candidate));
      LookupFinds(ops, Rehash(ops, t1, Truncate(candidate)).t.cs, e);
    }
  }

  /** An insertion answers the entry that matches; without one it takes the new entry, or fails
      and changes nothing: only if a request is refused or there is no size to grow to, and always
      then, as far as the allocator's answers reach. */
  lemma InsertKeeps<T(!new)>(ops: Ops<T>, t: Table<T>, e: T)
    requires Lawful(ops) && Inv(ops, t)
    ensures var r := Insert(ops, t, e);
            && !r.Aborted? && Inv(ops, r.t)
            && (r.Present? ==> Elements(r.t) == Elements(t) && r.found in Elements(t) && ops.same(e, r.found))
            && (!r.Present? ==> forall y | y in Elements(t) :: !ops.same(e, y))
            && (r.Inserted? ==> Elements(r.t) == Elements(t) + {e})
            && (r.Inserted? ==> !SizeRefused(t) && Served(t.mem, r.t.mem, |t.cs| + 2))
            && (r.Failed? ==> Elements(r.t) == Elements(t))
            && (r.Failed? ==> SizeRefused(t) || Refused(t.mem, r.t.mem, |t.cs| + 2))
            && (r.Failed? && Ample(t.mem, |t.cs| + 2) ==> SizeRefused(t))
            && (!r.Present? && r.t.mem != [] ==>
                  (r.Failed? <==> SizeRefused(t) || Refused(t.mem, r.t.mem, |t.cs| + 2)))
  {
    hide WellPlaced, Bag, Lookup, Add, MakeRoom, Keyed, Served, Refused, SizeRefused, Ample;
    LookupFinds(ops, t.cs, e);
    InsertAsks(ops, t, e);
    if Lookup(ops, t.cs, e).None? {
      RoomKeeps(ops, t, e);
      var u := MakeRoom(ops, t, e).t;
      assert Elements(u) == Elements(t);
      AddKeeps(ops, u, e);
      var r := Insert(ops, t, e);
      if r.Inserted? && Refused(t.mem, r.t.mem, |t.cs| + 2) {
        NotBoth(t.mem, r.t.mem, |t.cs| + 2);
      }
    }
  }

  lemma RehashInv<T(!new)>(ops: Ops<T>, t: Table<T>, candidate: nat)
    requires Lawful(ops) && Inv(ops, t) && candidate < WORD && TuningOk(t.tuning)
    ensures var r := Rehash(ops, t, candidate);
            r.Rehashed? && Inv(ops, r.t) && Bag(r.t.cs) == Bag(t.cs) && Elements(r.t) == Elements(t)
  {
    hide WellPlaced, Bag, Rehash, Keyed;
    RehashKeepsData(ops, t, candidate);
  }

  lemma DeleteKeeps<T(!new)>(ops: Ops<T>, t: Table<T>, e: T)
    requires Lawful(ops) && Inv(ops, t)
    ensures var r := Delete(ops, t, e);
            && r.Deleted? && Inv(ops, r.t)
            && (r.data.None? ==> Elements(r.t) == Elements(t) && forall y | y in Elements(t) :: !ops.same(e, y))
            && (r.data.Some? ==> && r.data.value in Elements(t) && ops.same(e, r.data.value)
                                 && Elements(r.t) == Elements(t) - {r.data.value})
  {
    hide WellPlaced, Bag, Unlink, Rehash, MustShrink, TuningOk, Keyed;
    LookupFinds(ops, t.cs, e);
    var j := Slot(ops, e, |t.cs|);
    var k := Find(ops, t.cs[j], e);
    if k < |t.cs[j]| {
      UnlinkKeeps(ops, t, j, k);
      var u := Unlink(t, j, k);
      var v := u.(tuning := Checked(u.tuning));
      RehashInv(ops, v, Truncate(ShrinkCandidate(|v.cs|, v.tuning)));
    }
  }

  lemma ClearKeeps<T(!new)>(ops: Ops<T>, t: Table<T>)
    requires Inv(ops, t)
    ensures Inv(ops, Clear(t)) && Elements(Clear(t)) == {}
    ensures Clear(t).free + Over(Clear(t).cs) == t.free + Over(t.cs) && |Clear(t).cs| == |t.cs|
  {
    EmptyCounts(Clear(t).cs);
  }

  // ----- Runs -----

  datatype Op<T> =
    | DoInsert(e: T)
    | DoDelete(e: T)
    | DoLookup(e: T)
    | DoClear
    | DoRehash(candidate: nat)
    | Retune(tuning: Tuning)

  /** A pointer to data or NULL, a truth value, or no answer at all. */
  datatype Answer<T> = Pointer(p: Option<T>) | Flag(ok: bool) | Silent

  datatype Outcome<T> = Crash | Next(t: Table<T>, answer: Answer<T>)

  /** hash_rehash divides by the growth threshold, so its caller must not have spoiled it;
      the other operations check the tuning themselves. */
  predicate Legal<T>(t: Table<T>, op: Op<T>) {
    op.DoRehash? ==> op.candidate < WORD && TuningOk(t.tuning)
  }

  ghost function Do<T(!new)>(ops: Ops<T>, t: Table<T>, op: Op<T>): Outcome<T>
    requires InRange(ops) && 0 < |t.cs| <= MAX_BUCKETS && Legal(t, op)
  {
    match op
    case DoInsert(e) =>
      (match Insert(ops, t, e)
       case Inserted(u) => Next(u, Pointer(Some(e)))
       case Present(u, d) => Next(u, Pointer(Some(d)))
       case Failed(u) => Next(u, Pointer(None))
       case Aborted => Crash)
    case DoDelete(e) =>
      (match Delete(ops, t, e)
       case Deleted(u, data) => Next(u, Pointer(data))
       case DeleteAborted => Crash)
    case DoLookup(e) => Next(t, Pointer(Lookup(ops, t.cs, e)))
    case DoClear => Next(Clear(t), Silent)
    case DoRehash(candidate) =>
      (match Rehash(ops, t, candidate)
       case Rehashed(u, ok) => Next(u, Flag(ok))
       case Abort => Crash)
    case Retune(tuning) => Next(t.(tuning := tuning), Silent)
  }

  ghost predicate Matches<T>(ops: Ops<T>, s: set<T>, e: T, y: T) {
    y in s && ops.same(e, y)
  }

  /** Whether this call is refused storage: one of the requests it makes, or the size it needs. */
  ghost predicate Denied<T(!new)>(ops: Ops<T>, t: Table<T>, op: Op<T>)
    requires InRange(ops) && 0 < |t.cs| <= MAX_BUCKETS && Legal(t, op)
  {
    var r := Do(ops, t, op);
    r.Next? &&
    match op
    case DoInsert(e) => SizeRefused(t) || Refused(t.mem, r.t.mem, |t.cs| + 2)
    case DoRehash(candidate) => BucketSize(candidate, t.tuning) == 0 || Refused(t.mem, r.t.mem, |t.cs| + 1)
    case _ => false
  }

  /** An answer, and whether storage was denied on the way. */
  datatype Reply<T> = Reply(answer: Answer<T>, denied: bool)

  /** What a set of entries does: only where storage is denied may an insertion fail, and then it
      changes nothing, or a rehash; nothing else depends on the allocator. */
  ghost predicate SetStep<T(!new)>(ops: Ops<T>, s: set<T>, op: Op<T>, reply: Reply<T>, s': set<T>) {
    var answer := reply.answer;
    match op
    case DoInsert(e) =>
      && answer.Pointer?
      && (if exists y :: Matches(ops, s, e, y)
          then s' == s && answer.p.Some? && Matches(ops, s, e, answer.p.value)
          else (answer.p == Some(e) && s' == s + {e}) || (reply.denied && answer.p == None && s' == s))
    case DoDelete(e) =>
      && answer.Pointer?
      && (if exists y :: Matches(ops, s, e, y)
          then answer.p.Some? && Matches(ops, s, e, answer.p.value) && s' == s - {answer.p.value}
          else answer.p == None && s' == s)
    case DoLookup(e) =>
      && answer.Pointer? && s' == s
      && (if exists y :: Matches(ops, s, e, y)
          then answer.p.Some? && Matches(ops, s, e, answer.p.value)
          else answer.p == None)
    case DoClear => s' == {} && answer == Silent
    case DoRehash(candidate) => s' == s && answer.Flag? && (answer.ok || reply.denied)
    case Retune(tuning) => s' == s && answer == Silent
  }

  /** Every operation keeps the invariant, aborts nowhere, and does what the set does. */
  lemma StepRefines<T(!new)>(ops: Ops<T>, t: Table<T>, op: Op<T>)
    requires Lawful(ops) && Inv(ops, t) && Legal(t, op)
    ensures var r := Do(ops, t, op);
            && r.Next? && Inv(ops, r.t)
            && SetStep(ops, Elements(t), op, Reply(r.answer, Denied(ops, t, op)), Elements(r.t))
  {
    hide WellPlaced, Bag, Keyed, Insert, Delete, Rehash, Clear, Lookup, Served, Refused, SizeRefused, Ample;
    match op
    case DoInsert(e) =>
      InsertKeeps(ops, t, e);
      var r := Insert(ops, t, e);
      if r.Present? {
        assert Matches(ops, Elements(t), e, r.found);
      }
    case DoDelete(e) =>
      DeleteKeeps(ops, t, e);
      var r := Delete(ops, t, e);
      if r.data.Some? {
        assert Matches(ops, Elements(t), e, r.data.value);
      }
    case DoLookup(e) =>
      LookupFinds(ops, t.cs, e);
      var r := Lookup(ops, t.cs, e);
      if r.Some? {
        assert Matches(ops, Elements(t), e, r.value);
      }
    case DoClear =>
      ClearKeeps(ops, t);
    case DoRehash(candidate) =>
      RehashInv(ops, t, candidate);
      RehashAsks(ops, t, candidate);
    case Retune(tuning) =>
  }

  /** All operations of the run may be called where they are called. */
  ghost predicate LegalRun<T(!new)>(ops: Ops<T>, t: Table<T>, run: seq<Op<T>>)
    requires InRange(ops) && 0 < |t.cs| <= MAX_BUCKETS
    decreases |run|
  {
    run == [] ||
    (Legal(t, run[0]) &&
     var r := Do(ops, t, run[0]);
     r.Next? && 0 < |r.t.cs| <= MAX_BUCKETS ==> LegalRun(ops, r.t, run[1..]))
  }

  /** The run goes through without a crash to `last`, and gives these replies. */
  ghost predicate Runs<T(!new)>(ops: Ops<T>, t: Table<T>, run: seq<Op<T>>, replies: seq<Reply<T>>, last: Table<T>)
    requires InRange(ops)
    decreases |run|
  {
    if run == [] then replies == [] && last == t
    else
      && 0 < |t.cs| <= MAX_BUCKETS && Legal(t, run[0])
      && var r := Do(ops, t, run[0]);
      && r.Next? && replies != [] && replies[0] == Reply(r.answer, Denied(ops, t, run[0]))
      && Runs(ops, r.t, run[1..], replies[1..], last)
  }

  ghost predicate SetRuns<T(!new)>(ops: Ops<T>, s: set<T>, run: seq<Op<T>>, replies: seq<Reply<T>>, last: set<T>)
    decreases |run|
  {
    if run == [] then replies == [] && last == s
    else replies != [] &&
         exists s' :: SetStep(ops, s, run[0], replies[0], s') && SetRuns(ops, s', run[1..], replies[1..], last)
  }

  /** For every run and every sequence of allocator answers: no abort is reached, the table
      stays in order, and the answers are those of a finite set that fails to take an entry only
      where storage is denied. */
  lemma {:induction false} RunRefines<T(!new)>(ops: Ops<T>, t: Table<T>, run: seq<Op<T>>)
    returns (replies: seq<Reply<T>>, last: Table<T>)
    requires Lawful(ops) && Inv(ops, t) && LegalRun(ops, t, run)
    ensures Runs(ops, t, run, replies, last) && Inv(ops, last)
    ensures SetRuns(ops, Elements(t), run, replies, Elements(last))
    decreases |run|
  {
    hide WellPlaced, Keyed, Bag, Do, Denied, SetStep, Elements;
    if run == [] {
      replies, last := [], t;
    } else {
      StepRefines(ops, t, run[0]);
      var r := Do(ops, t, run[0]);
      var rest;
      rest, last := RunRefines(ops, r.t, run[1..]);
      replies := [Reply(r.answer, Denied(ops, t, run[0]))] + rest;
      assert replies[1..] == rest;
      assert SetStep(ops, Elements(t), run[0], replies[0], Elements(r.t));
    }
  }

  /** A new table is empty and in order. */
  lemma InitialInv<T(!new)>(ops: Ops<T>, candidate: nat, tuning: Tuning, mem: seq<bool>)
    requires candidate < WORD
    ensures var r: Option<Table<T>> := Initialize(candidate, tuning, mem);
            r.Some? ==> Inv(ops, r.value) && Elements(r.value) == {} && TuningOk(r.value.tuning)
  {
    EmptyCounts(Empty<T>(BucketSize(candidate, if TuningOk(tuning) then tuning else DEFAULT_TUNING)));
  }
}
