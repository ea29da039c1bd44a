/** The public operations of coreutils/lib/hash.c on the pointer structure: each is proved to
    do what its function in `HashModel.dfy` says, so that `HashRuns.dfy` speaks about them. */
module HashOperations {
  import opened Primes
  import opened HashModel
  import opened HashRollback
  import opened HashRuns
  import opened HashMemory
  import opened HashSizing
  import opened HashTable
  import opened Wrappers

  // ----- hash_insert -----

  /** A node for the entry, with the entry in it, if one can be had. */
  method NodeFor<T(!new)>(t: HashTable<T>, e: T, mem: Memory) returns (n: Entry?<T>)
    requires t.ChainsOk(-1) && t.FreeOk()
    modifies t, t.nodes, mem
    ensures t.ChainsOk(-1) && t.FreeOk() && SameShape(t) && fresh(t.nodes - old(t.nodes))
    ensures t.cs == old(t.cs) && t.nBucketsUsed == old(t.nBucketsUsed)
    ensures n != null ==> n in t.nodes && n.owner == NOWHERE && n.data == Some(e)
    ensures |t.recycled| == if old(|t.recycled|) > 0 then old(|t.recycled|) - 1 else 0
    ensures mem.answers == if old(|t.recycled|) > 0 then old(mem.answers) else Rest(old(mem.answers))
    ensures n != null <==> old(|t.recycled|) > 0 || Granted(old(mem.answers))
  {
    n := t.AllocateEntry(mem);
    t.ChainsKept(-1, if n == null then {} else {n});
    if n != null {
      label Taken:
      n.data := Some(e);
      t.ChainsKept@Taken(-1, {n});
      t.FreeKept@Taken({n});
    }
  }

  /** The node is linked in and counted. */
  method Attach<T(!new)>(t: HashTable<T>, j: nat, n: Entry<T>, e: T)
    requires t.ChainsOk(-1) && t.FreeOk() && j < |t.bucket| && t.cs[j] != []
    requires n in t.nodes && n.owner == NOWHERE && n.data == Some(e)
    modifies t, t.nodes
    ensures t.ChainsOk(-1) && t.FreeOk() && t.tuning == old(t.tuning) && t.nodes == old(t.nodes)
    ensures t.cs == old(t.cs)[j := Push(old(t.cs)[j], e)] && t.recycled == old(t.recycled)
    ensures t.nBucketsUsed == old(t.nBucketsUsed) && t.nEntries == old(t.nEntries) + 1
  {
    t.HeadOf(j);
    t.LinkBehind(j, n, e);
    t.FreeKept({n, t.bucket[j]});
    label Linked:
    t.nEntries := t.nEntries + 1;
    t.ChainsKept@Linked(-1, {});
    t.FreeKept@Linked({});
  }

  /** The entry becomes the head of an empty bucket. */
  method PutFirst<T(!new)>(t: HashTable<T>, j: nat, e: T)
    requires t.ChainsOk(-1) && t.FreeOk() && j < |t.bucket| && t.cs[j] == []
    modifies t, t.nodes
    ensures t.ChainsOk(-1) && t.FreeOk() && t.tuning == old(t.tuning) && t.nodes == old(t.nodes)
    ensures t.cs == old(t.cs)[j := [e]] && t.recycled == old(t.recycled)
    ensures t.nBucketsUsed == old(t.nBucketsUsed) + 1 && t.nEntries == old(t.nEntries) + 1
  {
    t.HeadOf(j);
    t.FillHead(j, e);
    t.FreeKept({t.bucket[j]});
    label Filled:
    t.nEntries := t.nEntries + 1;
    t.nBucketsUsed := t.nBucketsUsed + 1;
    t.ChainsKept@Filled(-1, {});
    t.FreeKept@Filled({});
  }

  /** The end of hash_insert. */
  method AddEntry<T(!new)>(t: HashTable<T>, e: T, j: nat, mem: Memory) returns (r: Option<T>)
    requires InRange(t.ops) && t.ChainsOk(-1) && t.FreeOk() && t.nBucketsUsed == Used(t.cs) && t.nEntries == Total(t.cs)
    requires j == Slot(t.ops, e, |t.bucket|)
    modifies t, t.nodes, mem
    ensures t.ChainsOk(-1) && t.FreeOk() && t.nBucketsUsed == Used(t.cs) && t.nEntries == Total(t.cs)
    ensures fresh(t.nodes - old(t.nodes))
    ensures var o := Add(t.ops, old(TableOf(t, mem)), e);
            && (o.Inserted? || o.Failed?) && TableOf(t, mem) == o.t && r == if o.Inserted? then Some(e) else None
  {
    t.HeadOf(j);
    ReplaceChain(t.cs, j, Push(t.cs[j], e));
    if t.bucket[j].data.Some? {
      var n := NodeFor(t, e, mem);
      if n == null {
        return None;
      }
      Attach(t, j, n, e);
    } else {
      PutFirst(t, j, e);
    }
    r := Some(e);
  }

  /** check_tuning */
  method CheckTuning<T(!new)>(t: HashTable<T>)
    requires Valid(t)
    modifies t
    ensures Valid(t) && t.tuning == Checked(old(t.tuning))
    ensures t.cs == old(t.cs) && t.recycled == old(t.recycled) && t.nodes == old(t.nodes) && t.bucket == old(t.bucket)
  {
    if !TuningOk(t.tuning) {
      t.tuning := DEFAULT_TUNING;
      t.ChainsKept(-1, {});
      t.FreeKept({});
    }
  }

  /** hash_insert grows the table when its buckets fill up. The call of abort is
      unreachable: a rehash does not make an entry appear. */
  method GrowIfNeeded<T(==,!new)>(t: HashTable<T>, e: T, slot: nat, mem: Memory) returns (ok: bool, j: nat)
    requires Valid(t) && Lookup(t.ops, t.cs, e).None? && slot == Slot(t.ops, e, |t.bucket|)
    modifies t, t.nodes, mem
    ensures Valid(t) && fresh(t.nodes - old(t.nodes))
    ensures MakeRoom(t.ops, old(TableOf(t, mem)), e) == if ok then Ready(TableOf(t, mem)) else NoRoom(TableOf(t, mem))
    ensures ok ==> j == Slot(t.ops, e, |t.bucket|)
  {
    hide MakeRoom, Rehash, Lookup, Used, Total, Inv, Equivalence, TuningOk, Flatten, Over, WellPlaced, Keyed, Bag;
    MustGrowStays(t, mem, e);
    j := slot;
    if t.nBucketsUsed as real > t.tuning.growthThreshold * |t.bucket| as real {
      CheckTuning(t);
      if t.nBucketsUsed as real > t.tuning.growthThreshold * |t.bucket| as real {
        ok, j := Grow(t, e, mem);
        return;
      }
    }
    ok := true;
  }

  /** A table that need not grow, at once or after its tuning was checked, is ready. */
  lemma MustGrowStays<T(!new)>(t: HashTable<T>, mem: Memory, e: T)
    requires Valid(t)
    ensures !MustGrow(t.cs, t.tuning) ==> MakeRoom(t.ops, TableOf(t, mem), e) == Ready(TableOf(t, mem))
    ensures MustGrow(t.cs, t.tuning) ==>
              var u := TableOf(t, mem).(tuning := Checked(t.tuning));
              if MustGrow(t.cs, u.tuning) then MakeRoom(t.ops, TableOf(t, mem), e) == MakeRoom(t.ops, u, e)
              else MakeRoom(t.ops, TableOf(t, mem), e) == Ready(u)
  {
    hide Rehash, Lookup, Used, Total, Inv, TuningOk;
    assert Checked(Checked(t.tuning)) == Checked(t.tuning);
  }

  method Grow<T(==,!new)>(t: HashTable<T>, e: T, mem: Memory) returns (ok: bool, j: nat)
    requires Valid(t) && Lookup(t.ops, t.cs, e).None? && TuningOk(t.tuning)
    requires MustGrow(t.cs, t.tuning)
    modifies t, t.nodes, mem
    ensures Valid(t) && fresh(t.nodes - old(t.nodes))
    ensures MakeRoom(t.ops, old(TableOf(t, mem)), e) == if ok then Ready(TableOf(t, mem)) else NoRoom(TableOf(t, mem))
    ensures ok ==> j == Slot(t.ops, e, |t.bucket|)
  {
    hide Rehash, Lookup, Used, Total, Inv;
    var candidate := GrowthCandidate(|t.bucket|, t.tuning);
    GrowthPositive(|t.bucket|, t.tuning);
    if SIZE_MAX as real <= candidate {
      return false, 0;
    }
    LookupStaysNone(t, mem, e);
    ok := HashRehash(t, Truncate(candidate), mem);
    if ok {
      var found;
      found, j := FindEntry(t, e);
      if found.Some? {
        assert false;
      }
    } else {
      j := 0;
    }
  }

  lemma LookupStaysNone<T(!new)>(t: HashTable<T>, mem: Memory, e: T)
    requires Valid(t) && Lookup(t.ops, t.cs, e).None? && TuningOk(t.tuning)
    ensures forall candidate: nat | candidate < WORD ::
              var r := Rehash(t.ops, TableOf(t, mem), candidate); r.Rehashed? && Lookup(t.ops, r.t.cs, e).None?
  {
    hide Rehash, Lookup, Used, Total, WellPlaced, Bag, Keyed;
    InvByContents(t.ops, Table(t.cs, 0, t.tuning, []), TableOf(t, mem));
    LookupFinds(t.ops, t.cs, e);
    forall candidate: nat | candidate < WORD
      ensures var r := Rehash(t.ops, TableOf(t, mem), candidate); r.Rehashed? && Lookup(t.ops, r.t.cs, e).None?
    {
      RehashInv(t.ops, TableOf(t, mem), candidate);
      LookupFinds(t.ops, Rehash(t.ops, TableOf(t, mem), candidate).t.cs, e);
    }
  }

  /** hash_insert. Its first call of abort has no counterpart: T has no null value. */
  method HashInsert<T(==,!new)>(t: HashTable<T>, e: T, mem: Memory) returns (r: Option<T>)
    requires Valid(t)
    modifies t, t.nodes, mem
    ensures Valid(t) && fresh(t.nodes - old(t.nodes))
    ensures var o := Insert(t.ops, old(TableOf(t, mem)), e);
            && !o.Aborted? && TableOf(t, mem) == o.t
            && r == (if o.Inserted? then Some(e) else if o.Present? then Some(o.found) else None)
  {
    hide MakeRoom, Lookup, Used, Total, WellPlaced, Keyed, Bag, Add;
    ghost var before := TableOf(t, mem);
    InvByContents(t.ops, Table(t.cs, 0, t.tuning, []), before);
    InsertKeeps(t.ops, before, e);
    ghost var outcome := Insert(t.ops, before, e);
    var found, j := FindEntry(t, e);
    if found.Some? {
      return found;
    }
    var ok;
    ok, j := GrowIfNeeded(t, e, j, mem);
    if !ok {
      return None;
    }
    r := AddEntry(t, e, j, mem);
    InvByContents(t.ops, outcome.t, Table(t.cs, 0, t.tuning, []));
  }

  // ----- hash_lookup, hash_delete -----

  /** hash_lookup */
  method HashLookup<T(==,!new)>(t: HashTable<T>, e: T) returns (r: Option<T>)
    requires Valid(t)
    ensures r == Lookup(t.ops, t.cs, e)
  {
    var j;
    r, j := FindEntry(t, e);
  }

  /** The counters follow an unlinked entry. */
  method Uncount<T(!new)>(t: HashTable<T>, j: nat, ghost before: Chains<T>, ghost k: nat) returns (emptied: bool)
    requires t.ChainsOk(-1) && t.FreeOk() && j < |t.bucket| == |before| && k < |before[j]|
    requires t.cs == before[j := Without(before[j], k)]
    requires t.nBucketsUsed == Used(before) && t.nEntries == Total(before)
    modifies t
    ensures t.ChainsOk(-1) && t.FreeOk() && t.nBucketsUsed == Used(t.cs) && t.nEntries == Total(t.cs)
    ensures t.nodes == old(t.nodes) && t.tuning == old(t.tuning) && t.cs == old(t.cs) && t.recycled == old(t.recycled)
    ensures emptied <==> t.cs[j] == []
  {
    CountAt(before, j);
    ReplaceChain(before, j, Without(before[j], k));
    SingleUsed(before[j], k);
    t.HeadOf(j);
    t.nEntries := t.nEntries - 1;
    emptied := t.bucket[j].data.None?;
    if emptied {
      t.nBucketsUsed := t.nBucketsUsed - 1;
    }
    t.ChainsKept(-1, {});
    t.FreeKept({});
  }

  /** The first half of hash_delete: the entry is unlinked and the counters follow. */
  method Remove<T(==,!new)>(t: HashTable<T>, e: T) returns (data: Option<T>, emptied: bool)
    requires Valid(t)
    modifies t, t.nodes
    ensures Valid(t) && t.nodes == old(t.nodes) && t.tuning == old(t.tuning)
    ensures var j := Slot(t.ops, e, |old(t.cs)|);
            var k := Find(t.ops, old(t.cs)[j], e);
            if k == |old(t.cs)[j]| then data == None && t.cs == old(t.cs) && t.recycled == old(t.recycled)
            else
              var u := Unlink(Table(old(t.cs), old(|t.recycled|), t.tuning, []), j, k);
              && data == Some(old(t.cs)[j][k]) && u == Table(t.cs, |t.recycled|, t.tuning, [])
              && (emptied <==> t.cs[j] == [])
  {
    hide Used, Total, Find, WellPlaced, Keyed, Bag;
    ghost var before := t.cs;
    var j;
    data, j := FindAndUnlink(t, e);
    if data == None {
      return data, false;
    }
    ghost var k := Find(t.ops, before[j], e);
    UnlinkKeeps(t.ops, Table(before, 0, t.tuning, []), j, k);
    emptied := Uncount(t, j, before, k);
    InvByContents(t.ops, Unlink(Table(before, 0, t.tuning, []), j, k), Table(t.cs, 0, t.tuning, []));
  }

  /** A failed shrink gives the recycled nodes back to the allocator. */
  method DropRecycled<T(!new)>(t: HashTable<T>)
    requires Valid(t)
    modifies t
    ensures Valid(t) && t.cs == old(t.cs) && t.recycled == [] && t.tuning == old(t.tuning) && t.nodes == old(t.nodes)
  {
    t.freeEntryList := null;
    t.recycled := [];
    t.ChainsKept(-1, {});
  }

  /** The end of hash_delete, once a bucket has become empty. */
  method ShrinkIfNeeded<T(!new)>(t: HashTable<T>, ghost data: Option<T>, mem: Memory)
    requires Valid(t) && TuningOk(t.tuning)
    modifies t, t.nodes, mem
    ensures Valid(t) && fresh(t.nodes - old(t.nodes))
    ensures Shrunk(t.ops, old(TableOf(t, mem)), data) == Deleted(TableOf(t, mem), data)
  {
    hide Rehash, Used, Total, WellPlaced, Keyed, Bag, Equivalence, TuningOk, Flatten, Over;
    if t.nBucketsUsed as real < t.tuning.shrinkThreshold * |t.bucket| as real {
      Shrink(t, Truncate(ShrinkCandidate(|t.bucket|, t.tuning)), mem);
    }
  }

  method Shrink<T(!new)>(t: HashTable<T>, candidate: nat, mem: Memory)
    requires Valid(t) && TuningOk(t.tuning) && candidate < WORD
    modifies t, t.nodes, mem
    ensures Valid(t) && fresh(t.nodes - old(t.nodes))
    ensures var r := Rehash(t.ops, old(TableOf(t, mem)), candidate);
            r.Rehashed? && TableOf(t, mem) == if r.ok then r.t else r.t.(free := 0)
  {
    hide Rehash, Used, Total, WellPlaced, Keyed, Bag, Equivalence, TuningOk, Flatten, Over;
    InvByContents(t.ops, Table(t.cs, 0, t.tuning, []), TableOf(t, mem));
    RehashInv(t.ops, TableOf(t, mem), candidate);
    var ok := HashRehash(t, candidate, mem);
    if !ok {
      DropRecycled(t);
    }
  }

  /** hash_delete */
  method HashDelete<T(==,!new)>(t: HashTable<T>, e: T, mem: Memory) returns (data: Option<T>)
    requires Valid(t)
    modifies t, t.nodes, mem
    ensures Valid(t) && fresh(t.nodes - old(t.nodes))
    ensures Delete(t.ops, old(TableOf(t, mem)), e) == Deleted(TableOf(t, mem), data)
  {
    hide Rehash, Used, Total, Find, WellPlaced, Keyed, Bag, Shrunk, TuningOk;
    var emptied;
    data, emptied := Remove(t, e);
    if data.Some? && emptied && t.nBucketsUsed as real < t.tuning.shrinkThreshold * |t.bucket| as real {
      CheckTuning(t);
      ShrinkIfNeeded(t, data, mem);
    }
  }

  // ----- hash_clear -----

  lemma OpenHole<T(!new)>(t: HashTable<T>, i: nat)
    requires t.ChainsOk(-1) && i < |t.bucket|
    ensures t.ChainsOk(i)
  {
    forall k | 0 <= k < |t.bucket|
      ensures t.ChainOk(k, i)
    {
      t.ChainAt(k, -1);
    }
  }

  /** The first overflow node of bucket i goes to the free list. */
  method Recycle<T(!new)>(t: HashTable<T>, i: nat, n: Entry<T>)
    requires t.ChainsOk(i) && t.FreeOk() && i < |t.bucket| && |t.cs[i]| == |t.chains[i]| >= 2 && n == t.chains[i][1]
    modifies t`cs, t`chains, t`recycled, t`freeEntryList, t.nodes
    ensures t.ChainsOk(i) && t.FreeOk()
    ensures t.cs == old(t.cs)[i := Without(old(t.cs)[i], 1)] && t.chains[i] == Without(old(t.chains)[i], 1)
    ensures |t.recycled| == old(|t.recycled|) + 1
  {
    t.ChainAt(i, i);
    t.DetachSecond(i);
    t.FreeKept({n});
    label Out:
    t.FreeEntry(n);
    t.ChainsKept@Out(i, {n});
  }

  /** The record of a bucket without overflow becomes empty. */
  method CloseAndClear<T(!new)>(t: HashTable<T>, i: nat)
    requires t.ChainsOk(i) && t.FreeOk() && i < |t.bucket| && |t.chains[i]| == |t.cs[i]| == 1
    modifies t`cs, t.nodes
    ensures t.ChainsOk(-1) && t.FreeOk() && t.cs == old(t.cs)[i := []]
  {
    t.ChainAt(i, i);
    assert t.bucket[i] == t.chains[i][0];
    t.CloseHole(i);
    t.ClearHead(i);
    t.FreeKept({t.bucket[i]});
  }

  /** The overflow nodes of a bucket go to the free list, its record becomes empty. */
  method ClearBucket<T(!new)>(t: HashTable<T>, i: nat) returns (freed: seq<T>)
    requires t.ChainsOk(-1) && t.FreeOk() && i < |t.bucket|
    modifies t`cs, t`chains, t`recycled, t`freeEntryList, t.nodes
    ensures t.ChainsOk(-1) && t.FreeOk()
    ensures t.cs == old(t.cs)[i := []] && freed == FreedFrom(old(t.cs)[i])
    ensures |t.recycled| + Over(t.cs) == old(|t.recycled| + Over(t.cs))
  {
    hide Over, Used, Total;
    freed := [];
    t.HeadOf(i);
    Emptied(t.cs, i);
    if t.bucket[i].data.Some? {
      t.NodeAt(i, 0);
      var cursor, head := t.bucket[i].next, t.bucket[i].data.value;
      ghost var ds := t.cs[i];
      OpenHole(t, i);
      while cursor != null
        invariant t.ChainsOk(i) && t.FreeOk() && |t.chains[i]| == |t.cs[i]| >= 1
        invariant cursor == Link(t.chains[i], 1)
        invariant t.cs == old(t.cs)[i := t.cs[i]]
        invariant |t.recycled| + |t.cs[i]| == old(|t.recycled| + |t.cs[i]|)
        invariant freed + t.cs[i][1..] == ds[1..]
        decreases |t.chains[i]|
      {
        SecondDatum(t, i);
        FreedOne(freed, t.cs[i]);
        freed := freed + [cursor.data.value];
        WithoutLength(t.cs[i], 1);
        WithoutLength(t.chains[i], 1);
        ghost var c := t.chains[i];
        SecondNext(t, i);
        var next := cursor.next;
        Recycle(t, i, cursor);
        WithoutAt(c, 1, 0);
        cursor := next;
      }
      freed := freed + [head];
      CloseAndClear(t, i);
    } else {
      assert t.cs[i := []] == t.cs;
    }
  }

  /** The data of a bucket in the order the data freer gets them: the overflow first, then the head. */
  function FreedFrom<T>(c: seq<T>): seq<T> {
    if c == [] then [] else c[1..] + [c[0]]
  }

  function FreedFromAll<T>(cs: Chains<T>): seq<T> {
    if cs == [] then [] else FreedFrom(cs[0]) + FreedFromAll(cs[1..])
  }

  /** The data freer gets every datum once, and nothing else. */
  lemma {:induction false} FreesAll<T>(cs: Chains<T>)
    ensures multiset(FreedFromAll(cs)) == Bag(cs)
  {
    if cs != [] {
      FreesAll(cs[1..]);
      var c := cs[0];
      assert c != [] ==> c == [c[0]] + c[1..];
      assert multiset(FreedFrom(c)) == multiset(c);
      assert Bag(cs) == multiset(c) + Bag(cs[1..]);
    }
  }

  lemma FreedCount<T>(c: seq<T>)
    ensures |FreedFrom(c)| == |c|
  {
  }

  lemma TotalStep<T>(cs: Chains<T>, i: nat)
    requires 0 < i <= |cs|
    ensures Total(cs[..i]) == |cs[0]| + Total(cs[1..][..i - 1])
  {
    assert cs[..i][1..] == cs[1..][..i - 1];
  }

  /** Bucket by bucket, the overflow entries in their order and then the head. */
  lemma {:induction false} FreedInOrder<T>(cs: Chains<T>, i: nat, k: nat)
    requires i < |cs| && k < |cs[i]|
    ensures var at := Total(cs[..i]) + if k == 0 then |cs[i]| - 1 else k - 1;
            at < |FreedFromAll(cs)| && FreedFromAll(cs)[at] == cs[i][k]
    decreases i
  {
    if i == 0 {
      assert cs[..0] == [];
    } else {
      FreedInOrder(cs[1..], i - 1, k);
      hide FreedFrom, Flatten;
      FreedCount(cs[0]);
      TotalStep(cs, i);
    }
  }

  lemma {:induction false} FreedPrefix<T>(cs: Chains<T>, i: nat)
    requires i < |cs|
    ensures FreedFromAll(cs[..i + 1]) == FreedFromAll(cs[..i]) + FreedFrom(cs[i])
    decreases i
  {
    hide FreedFrom;
    if i == 0 {
      assert cs[..1] == [cs[0]] && cs[..1][1..] == [];
    } else {
      FreedPrefix(cs[1..], i - 1);
      assert cs[..i + 1][1..] == cs[1..][..i] && cs[..i][1..] == cs[1..][..i - 1];
    }
  }

  lemma FreedOne<T>(freed: seq<T>, c: seq<T>)
    requires |c| >= 2
    ensures freed + [c[1]] + Without(c, 1)[1..] == freed + c[1..]
  {
    assert Without(c, 1)[1..] == c[2..];
    assert c[1..] == [c[1]] + c[2..];
  }

  lemma SecondDatum<T(!new)>(t: HashTable<T>, i: nat)
    requires t.ChainsOk(i) && i < |t.bucket| && |t.chains[i]| == |t.cs[i]| >= 2
    ensures t.chains[i][1].data == Some(t.cs[i][1])
  {
    t.ChainAt(i, i);
  }

  lemma SecondNext<T(!new)>(t: HashTable<T>, i: nat)
    requires t.ChainsOk(i) && i < |t.bucket| && |t.chains[i]| >= 2
    ensures t.chains[i][1].next == Link(t.chains[i], 2)
  {
    t.ChainAt(i, i);
  }

  lemma Emptied<T>(cs: Chains<T>, i: nat)
    requires i < |cs|
    ensures Over(cs[i := []]) == Over(cs) - if cs[i] == [] then 0 else |cs[i]| - 1
  {
    ReplaceChain(cs, i, []);
  }

  /** hash_clear; `freed` are the data the data freer, if there is one, is called with. */
  method HashClear<T(!new)>(t: HashTable<T>, mem: Memory) returns (freed: seq<T>)
    requires Valid(t)
    modifies t, t.nodes
    ensures Valid(t) && t.nodes == old(t.nodes) && TableOf(t, mem) == Clear(old(TableOf(t, mem)))
    ensures freed == FreedFromAll(old(t.cs)) && multiset(freed) == Bag(old(t.cs))
  {
    hide Over, Used, Total, WellPlaced, Keyed, FreedFrom, FreedFromAll, Bag;
    freed := [];
    ghost var cs := t.cs;
    FreedNothing(cs);
    ghost var n, stock := |t.bucket|, |t.recycled| + Over(t.cs);
    for i := 0 to |t.bucket|
      invariant t.ChainsOk(-1) && t.FreeOk() && |t.bucket| == n && t.nodes == old(t.nodes) && t.bucket == old(t.bucket)
      invariant t.tuning == old(t.tuning)
      invariant forall k | 0 <= k < i :: t.cs[k] == []
      invariant |t.recycled| + Over(t.cs) == stock
      invariant freed == FreedFromAll(cs[..i]) && forall k | i <= k < n :: t.cs[k] == cs[k]
    {
      FreedPrefix(cs, i);
      var more := ClearBucket(t, i);
      freed := freed + more;
    }
    assert cs[..n] == cs;
    FreesAll(cs);
    EmptyOver(t.cs);
    assert t.cs == Empty<T>(n);
    ResetCounters(t);
  }

  lemma FreedNothing<T>(cs: Chains<T>)
    ensures FreedFromAll(cs[..0]) == []
  {
  }

  lemma EmptyOver<T>(cs: Chains<T>)
    requires forall i | 0 <= i < |cs| :: cs[i] == []
    ensures Over(cs) == 0 && Bag(cs) == multiset{} && Used(cs) == 0 && Total(cs) == 0
  {
    EmptyCounts(cs);
  }

  method ResetCounters<T(!new)>(t: HashTable<T>)
    requires Lawful(t.ops) && t.ChainsOk(-1) && t.FreeOk() && |t.bucket| <= MAX_BUCKETS
    requires forall i | 0 <= i < |t.cs| :: t.cs[i] == []
    modifies t
    ensures Valid(t) && t.cs == old(t.cs) && t.recycled == old(t.recycled) && t.nodes == old(t.nodes) &&
            t.tuning == old(t.tuning)
  {
    t.nBucketsUsed := 0;
    t.nEntries := 0;
    t.ChainsKept(-1, {});
    t.FreeKept({});
    EmptyOver(t.cs);
  }

  // ----- hash_initialize -----

  /** hash_initialize; null on failure. */
  method HashInitialize<T(!new)>(candidate: nat, tuning: Tuning, ops: Ops<T>, mem: Memory) returns (t: HashTable?<T>)
    requires candidate < WORD && Lawful(ops)
    modifies mem
    ensures var o: Option<Table<T>> := Initialize(candidate, tuning, old(mem.answers));
            if o.None? then t == null
            else t != null && fresh(t) && fresh(t.nodes) && Valid(t) && t.ops == ops && TableOf(t, mem) == o.value
    ensures t != null <==>
              WithinBounds(tuning) && Ample(old(mem.answers), 2) && exists p: nat :: Pays(p, candidate, tuning)
    ensures t != null ==> Least(|t.bucket|, candidate, tuning)
  {
    hide Pays, Least, Ample, WithinBounds;
    InitializeExactly<T>(candidate, tuning, mem.answers);
    var ok := mem.Ask();
    if !ok || !TuningOk(tuning) {
      return null;
    }
    var n := ComputeBucketSize(candidate, tuning);
    if n == 0 {
      return null;
    }
    ok := mem.Ask();
    if !ok {
      return null;
    }
    var b := MakeBuckets<T>(n, 1);
    t := new HashTable<T>(ops, b, tuning, null, [], 1, {});
    EmptyOver(t.cs);
  }

  // ----- Walking -----

  /** The data of a table in the order of the walk: buckets in turn, each head first. */
  ghost function Order<T(!new)>(t: HashTable<T>): seq<T>
    reads t
  {
    Flatten(t.cs)
  }

  lemma {:induction false} FlattenPrefix<T>(cs: Chains<T>, i: nat)
    requires i < |cs|
    ensures Flatten(cs[..i + 1]) == Flatten(cs[..i]) + cs[i]
  {
    FlattenSplit(cs[..i + 1], i);
    assert cs[..i + 1][..i] == cs[..i] && cs[..i + 1][i + 1..] == [];
  }

  lemma {:induction false} FlattenAt<T>(cs: Chains<T>, i: nat, k: nat)
    requires i < |cs| && k < |cs[i]|
    ensures var p := |Flatten(cs[..i])| + k; p < |Flatten(cs)| && Flatten(cs)[p] == cs[i][k]
    ensures |Flatten(cs[..i + 1])| == |Flatten(cs[..i])| + |cs[i]| <= |Flatten(cs)|
  {
    FlattenSplit(cs, i);
    FlattenPrefix(cs, i);
  }

  lemma {:induction false} FlattenWhole<T>(cs: Chains<T>)
    ensures cs[..|cs|] == cs && Flatten(cs[..0]) == []
  {
  }

  /** hash_get_first; its abort is unreachable. */
  method HashGetFirst<T(!new)>(t: HashTable<T>) returns (r: Option<T>)
    requires Valid(t)
    ensures r == if Order(t) == [] then None else Some(Order(t)[0])
  {
    hide Used, WellPlaced, Keyed;
    if t.nEntries == 0 {
      return None;
    }
    r := FirstFrom(t, 0);
    FlattenWhole(t.cs);
  }

  /** The first entry of bucket i or a later one. */
  method FirstFrom<T(!new)>(t: HashTable<T>, i: nat) returns (r: Option<T>)
    requires t.ChainsOk(-1) && i <= |t.bucket|
    ensures var p := |Flatten(t.cs[..i])|;
            p <= |Order(t)| && r == if p == |Order(t)| then None else Some(Order(t)[p])
  {
    hide Flatten;
    FlattenWhole(t.cs);
    for k := i to |t.bucket|
      invariant |Flatten(t.cs[..k])| == |Flatten(t.cs[..i])|
    {
      t.HeadOf(k);
      FlattenPrefix(t.cs, k);
      if t.bucket[k].data.Some? {
        FlattenAt(t.cs, k, 0);
        return t.bucket[k].data;
      }
    }
    r := None;
  }

  /** hash_get_next, for an entry that is in the table: the one after it in the walk. */
  method HashGetNext<T(==,!new)>(t: HashTable<T>, e: T) returns (r: Option<T>)
    requires Valid(t) && e in Bag(t.cs)
    ensures forall p | 0 <= p < |Order(t)| && Order(t)[p] == e ::
              r == if p + 1 == |Order(t)| then None else Some(Order(t)[p + 1])
  {
    hide Used, Flatten;
    var j := t.ops.hash(e, |t.bucket|);
    ghost var k := Position(t, e);
    ghost var p := |Flatten(t.cs[..j])| + k;
    FlattenAt(t.cs, j, k);
    OnlyOnce(t, e, p);
    t.NodeAt(j, 0);
    t.HeadOf(j);
    var cursor: Entry?<T> := t.bucket[j];
    ghost var l := 0;
    while cursor != null
      invariant 0 <= l <= |t.cs[j]| == |t.chains[j]| && cursor == Link(t.chains[j], l)
      invariant l == |t.cs[j]| || cursor != null
      invariant l <= k || k + 1 == |t.cs[j]|
      decreases |t.cs[j]| - l
    {
      t.NodeAt(j, l);
      if cursor.data == Some(e) && cursor.next != null {
        SamePlace(t, e, j, k, l);
        t.NodeAt(j, l + 1);
        FlattenAt(t.cs, j, l + 1);
        return cursor.next.data;
      }
      cursor, l := cursor.next, l + 1;
    }
    assert k + 1 == |t.cs[j]|;
    FlattenPrefix(t.cs, j);
    r := FirstFrom(t, j + 1);
  }

  /** Where in its bucket an entry is. */
  ghost function Position<T(!new)>(t: HashTable<T>, e: T): (k: nat)
    requires Valid(t) && e in Bag(t.cs)
    reads t, t.nodes
    ensures var j := Slot(t.ops, e, |t.bucket|); j < |t.cs| && k < |t.cs[j]| && t.cs[j][k] == e
  {
    InBucket(t.ops, t.cs, e);
    var k: nat :| k < |t.cs[Slot(t.ops, e, |t.bucket|)]| && t.cs[Slot(t.ops, e, |t.bucket|)][k] == e;
    k
  }

  lemma OnceInSequence<T>(s: seq<T>, p: nat, q: nat)
    requires p < q < |s| && s[p] == s[q]
    ensures multiset(s)[s[p]] >= 2
  {
    assert s == s[..q] + [s[q]] + s[q + 1..];
    assert s[p] in s[..q];
  }

  lemma OnlyOnce<T(!new)>(t: HashTable<T>, e: T, p: nat)
    requires Valid(t) && p < |Order(t)| && Order(t)[p] == e
    ensures forall q | 0 <= q < |Order(t)| && Order(t)[q] == e :: q == p
  {
    assert e in Bag(t.cs);
    forall q | 0 <= q < |Order(t)| && Order(t)[q] == e
      ensures q == p
    {
      if q < p {
        OnceInSequence(Order(t), q, p);
      } else if p < q {
        OnceInSequence(Order(t), p, q);
      }
    }
  }

  lemma SamePlace<T(!new)>(t: HashTable<T>, e: T, j: nat, k: nat, l: nat)
    requires Valid(t) && j < |t.cs| && k < |t.cs[j]| && l < |t.cs[j]| && t.cs[j][k] == e && t.cs[j][l] == e
    ensures k == l
  {
    hide Used, Total, WellPlaced, Keyed, Bag, Lawful;
    FlattenAt(t.cs, j, k);
    FlattenAt(t.cs, j, l);
    OnlyOnce(t, e, |Flatten(t.cs[..j])| + k);
  }

  /** hash_get_entries: the walk, as far as the buffer reaches. */
  method HashGetEntries<T(!new)>(t: HashTable<T>, buffer: array<T>) returns (n: nat)
    requires t.ChainsOk(-1)
    modifies buffer
    ensures n == (if |Order(t)| <= buffer.Length then |Order(t)| else buffer.Length)
    ensures forall q | 0 <= q < n :: buffer[q] == Order(t)[q]
    ensures forall q | n <= q < buffer.Length :: buffer[q] == old(buffer[q])
  {
    hide Flatten;
    FlattenWhole(t.cs);
    n := 0;
    for i := 0 to |t.bucket|
      invariant n == |Flatten(t.cs[..i])| <= buffer.Length && n <= |Order(t)|
      invariant (forall q | 0 <= q < n :: buffer[q] == Order(t)[q]) &&
                (forall q | n <= q < buffer.Length :: buffer[q] == old(buffer[q]))
      invariant t.ChainsOk(-1)
    {
      t.HeadOf(i);
      FlattenPrefix(t.cs, i);
      if t.bucket[i].data.Some? {
        var cursor: Entry?<T> := t.bucket[i];
        ghost var k := 0;
        while cursor != null
          invariant 0 <= k <= |t.cs[i]| == |t.chains[i]| && cursor == Link(t.chains[i], k) && t.ChainsOk(-1)
          invariant n == |Flatten(t.cs[..i])| + k <= buffer.Length && n <= |Order(t)|
          invariant (forall q | 0 <= q < n :: buffer[q] == Order(t)[q]) &&
                    (forall q | n <= q < buffer.Length :: buffer[q] == old(buffer[q]))
          decreases |t.cs[i]| - k
        {
          FlattenAt(t.cs, i, k);
          if n >= buffer.Length {
            return;
          }
          t.NodeAt(i, k);
          buffer[n] := cursor.data.value;
          n, k := n + 1, k + 1;
          cursor := cursor.next;
        }
      }
    }
  }

  /** hash_table_ok compares the counters with the chains as they are. */
  method HashTableOk<T(!new)>(t: HashTable<T>) returns (ok: bool)
    requires t.ChainsOk(-1)
    ensures ok <==> t.nBucketsUsed == Used(t.cs) && t.nEntries == Total(t.cs)
  {
    var nBucketsUsed, nEntries := 0, 0;
    FlattenWhole(t.cs);
    for i := 0 to |t.bucket|
      invariant nBucketsUsed == Used(t.cs[..i]) && nEntries == Total(t.cs[..i])
    {
      t.HeadOf(i);
      FlattenPrefix(t.cs, i);
      FlattenSplit(t.cs[..i + 1], i);
      assert t.cs[..i + 1][..i] == t.cs[..i] && t.cs[..i + 1][i + 1..] == [];
      assert Total(t.cs[..i + 1]) == Total(t.cs[..i]) + |t.cs[i]|;
      if t.bucket[i].data.Some? {
        nBucketsUsed := nBucketsUsed + 1;
        nEntries := nEntries + 1;
        var cursor := t.bucket[i];
        ghost var k := 0;
        t.NodeAt(i, 0);
        while cursor.next != null
          invariant 0 <= k < |t.cs[i]| == |t.chains[i]| && cursor == t.chains[i][k] &&
                    cursor.next == Link(t.chains[i], k + 1)
          invariant nEntries == Total(t.cs[..i]) + k + 1
          decreases |t.cs[i]| - k
        {
          t.NodeAt(i, k + 1);
          cursor, k := cursor.next, k + 1;
          nEntries := nEntries + 1;
        }
      }
    }
    ok := nBucketsUsed == t.nBucketsUsed && nEntries == t.nEntries;
  }
}
