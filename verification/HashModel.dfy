/** The hash table of coreutils/lib/hash.c on values: what each operation makes of the
    chains, of the recycled nodes and of the allocator's answers. `HashTable.dfy` proves the
    pointer code against these functions; what they promise is proved in `HashRollback.dfy`
    and `HashRuns.dfy`. */
module HashModel {
  import opened Primes
  import opened Wrappers

  /** The user's hasher and comparator. */
  datatype Ops<!T> = Ops(hash: (T, nat) -> nat, same: (T, T) -> bool)

  /** The hasher's slots lie in the table. */
  ghost predicate InRange<T(!new)>(ops: Ops<T>) {
    forall x, n: nat {:trigger ops.hash(x, n)} | n > 0 :: ops.hash(x, n) < n
  }

  ghost predicate Equivalence<T(!new)>(same: (T, T) -> bool) {
    && (forall x :: same(x, x))
    && (forall x, y :: same(x, y) ==> same(y, x))
    && (forall x, y, z {:trigger same(x, y), same(y, z)} :: same(x, y) && same(y, z) ==> same(x, z))
  }

  /** What hash_initialize demands of them: slots in range, and equality an equivalence that
      the hasher respects. */
  ghost predicate Lawful<T(!new)>(ops: Ops<T>) {
    && InRange(ops)
    && Equivalence(ops.same)
    && (forall x, y, n: nat {:trigger ops.same(x, y), ops.hash(x, n)} | n > 0 && ops.same(x, y) ::
          ops.hash(x, n) == ops.hash(y, n))
  }

  /** One chain a bucket, the bucket head first. */
  type Chains<T> = seq<seq<T>>

  function Flatten<T>(cs: Chains<T>): seq<T> {
    if cs == [] then [] else cs[0] + Flatten(cs[1..])
  }

  /** All data of the table, with multiplicity. */
  function Bag<T>(cs: Chains<T>): multiset<T> {
    multiset(Flatten(cs))
  }

  /** `n_entries` when exact. */
  function Total<T>(cs: Chains<T>): nat {
    |Flatten(cs)|
  }

  /** `n_buckets_used` when exact. */
  function Used<T>(cs: Chains<T>): nat {
    if cs == [] then 0 else (if cs[0] == [] then 0 else 1) + Used(cs[1..])
  }

  /** The overflow nodes the chains occupy: all entries but the bucket heads. */
  function Over<T>(cs: Chains<T>): nat {
    UsedAtMostTotal(cs);
    Total(cs) - Used(cs)
  }

  lemma UsedAtMostTotal<T>(cs: Chains<T>)
    ensures Used(cs) <= Total(cs)
  {
  }

  ghost predicate WellPlaced<T(!new)>(ops: Ops<T>, cs: Chains<T>) {
    forall i, k | 0 <= i < |cs| && 0 <= k < |cs[i]| :: ops.hash(cs[i][k], |cs|) == i
  }

  // ----- Tuning -----

  /** The float fields as real numbers. */
  datatype Tuning = Tuning(
    shrinkThreshold: real,
    shrinkFactor: real,
    growthThreshold: real,
    growthFactor: real,
    isNBuckets: bool)

  const DEFAULT_TUNING := Tuning(0.0, 1.0, 0.8, 1.414, false)

  /** The test of check_tuning. */
  predicate TuningOk(t: Tuning) {
    var epsilon := 0.1;
    && epsilon < t.growthThreshold
    && t.growthThreshold < 1.0 - epsilon
    && 1.0 + epsilon < t.growthFactor
    && 0.0 <= t.shrinkThreshold
    && t.shrinkThreshold + epsilon < t.shrinkFactor
    && t.shrinkFactor <= 1.0
    && t.shrinkThreshold + epsilon < t.growthThreshold
  }

  /** check_tuning: bad values are replaced by the defaults. */
  function Checked(t: Tuning): (r: Tuning)
    ensures TuningOk(r)
  {
    if TuningOk(t) then t else DEFAULT_TUNING
  }

  /** The largest bucket array xalloc_oversized lets through: 8 bytes a pointer. */
  const MAX_BUCKETS: nat := SIZE_MAX / 8

  /** compute_bucket_size; 0 when there is no way to allocate that many. */
  ghost function BucketSize(candidate: nat, t: Tuning): (n: nat)
    requires candidate < WORD && TuningOk(t)
    ensures n == 0 || 11 <= n <= MAX_BUCKETS
  {
    if !t.isNBuckets && SIZE_MAX as real <= candidate as real / t.growthThreshold then 0
    else
      var c := if t.isNBuckets then candidate else (candidate as real / t.growthThreshold).Floor;
      var p := NextPrime(c);
      if MAX_BUCKETS < p then 0 else p
  }

  // ----- Tables -----

  /** `mem` holds the allocator's answers, true for success; when they run out, memory has. */
  datatype Table<T> = Table(cs: Chains<T>, free: nat, tuning: Tuning, mem: seq<bool>)

  /** The allocations that can still succeed. */
  function Grants(mem: seq<bool>): nat {
    if mem == [] then 0 else (if mem[0] then 1 else 0) + Grants(mem[1..])
  }

  predicate Granted(mem: seq<bool>) {
    mem != [] && mem[0]
  }

  function Rest(mem: seq<bool>): seq<bool> {
    if mem == [] then [] else mem[1..]
  }

  function Empty<T>(n: nat): (cs: Chains<T>)
    ensures |cs| == n && forall i | 0 <= i < n :: cs[i] == []
  {
    seq(n, i => [])
  }

  ghost function Slot<T(!new)>(ops: Ops<T>, d: T, n: nat): (j: nat)
    requires InRange(ops) && n > 0
    ensures j < n
  {
    ops.hash(d, n)
  }

  /** A newcomer goes into the head of its bucket, or right behind a head that is taken. */
  function Push<T>(c: seq<T>, d: T): seq<T> {
    if c == [] then [d] else [c[0], d] + c[1..]
  }

  ghost function Place<T(!new)>(ops: Ops<T>, cs: Chains<T>, d: T): (r: Chains<T>)
    requires InRange(ops) && |cs| > 0
    ensures |r| == |cs|
  {
    var j := Slot(ops, d, |cs|);
    cs[j := Push(cs[j], d)]
  }

  /** The position of the first entry of a chain that matches, or its length. */
  function Find<T(==)>(ops: Ops<T>, c: seq<T>, e: T): (k: nat)
    ensures k <= |c|
    ensures k < |c| ==> e == c[k] || ops.same(e, c[k])
    ensures forall l | 0 <= l < k :: e != c[l] && !ops.same(e, c[l])
  {
    if c == [] then 0
    else if e == c[0] || ops.same(e, c[0]) then 0
    else 1 + Find(ops, c[1..], e)
  }

  /** hash_lookup, and hash_find_entry without deletion. */
  ghost function Lookup<T(!new)>(ops: Ops<T>, cs: Chains<T>, e: T): Option<T>
    requires InRange(ops) && |cs| > 0
  {
    var c := cs[Slot(ops, e, |cs|)];
    var k := Find(ops, c, e);
    if k < |c| then Some(c[k]) else None
  }

  // ----- Moving entries between two tables -----

  datatype Xfer<T> = Xfer(dst: Chains<T>, src: Chains<T>, free: nat, mem: seq<bool>, ok: bool)

  /** Overflow entries are relinked; one that lands in an empty bucket frees its node. */
  ghost function MoveOverflow<T(!new)>(ops: Ops<T>, x: Xfer<T>, ds: seq<T>): (y: Xfer<T>)
    requires InRange(ops) && |x.dst| > 0
    ensures |y.dst| == |x.dst| && y.src == x.src && y.mem == x.mem && y.ok == x.ok
    decreases |ds|
  {
    if ds == [] then x
    else
      var freed := if x.dst[Slot(ops, ds[0], |x.dst|)] == [] then 1 else 0;
      MoveOverflow(ops, x.(dst := Place(ops, x.dst, ds[0]), free := x.free + freed), ds[1..])
  }

  /** A bucket head needs a node when its new bucket is taken: a recycled one, or a new one. */
  ghost function MoveHead<T(!new)>(ops: Ops<T>, x: Xfer<T>, i: nat): (y: Xfer<T>)
    requires InRange(ops) && |x.dst| > 0 && i < |x.src| && |x.src[i]| == 1
    ensures |y.dst| == |x.dst| && |y.src| == |x.src|
  {
    var d := x.src[i][0];
    var moved := x.(dst := Place(ops, x.dst, d), src := x.src[i := []]);
    if x.dst[Slot(ops, d, |x.dst|)] == [] then moved
    else if x.free > 0 then moved.(free := x.free - 1)
    else if Granted(x.mem) then moved.(mem := Rest(x.mem))
    else x.(mem := Rest(x.mem), ok := false)
  }

  /** One round of transfer_entries. */
  ghost function MoveBucket<T(!new)>(ops: Ops<T>, x: Xfer<T>, i: nat, safe: bool): (y: Xfer<T>)
    requires InRange(ops) && |x.dst| > 0 && i < |x.src|
    ensures |y.dst| == |x.dst| && |y.src| == |x.src|
  {
    if x.src[i] == [] then x
    else
      var y := MoveOverflow(ops, x, x.src[i][1..]).(src := x.src[i := x.src[i][..1]]);
      if safe then y else MoveHead(ops, y, i)
  }

  /** transfer_entries from bucket i on; `ok` falls when an allocation fails. */
  ghost function Transfer<T(!new)>(ops: Ops<T>, x: Xfer<T>, i: nat, safe: bool): (y: Xfer<T>)
    requires InRange(ops) && |x.dst| > 0 && i <= |x.src| && x.ok
    ensures |y.dst| == |x.dst| && |y.src| == |x.src|
    decreases |x.src| - i
  {
    if i == |x.src| then x
    else
      var y := MoveBucket(ops, x, i, safe);
      if !y.ok then y else Transfer(ops, y, i + 1, safe)
  }

  // ----- Operations -----

  /** hash_rehash ends in `Abort` when a rollback pass fails to get a node. */
  datatype Rehashed<T> = Abort | Rehashed(t: Table<T>, ok: bool)

  ghost function Rehash<T(!new)>(ops: Ops<T>, t: Table<T>, candidate: nat): (r: Rehashed<T>)
    requires InRange(ops) && |t.cs| > 0 && candidate < WORD && TuningOk(t.tuning)
    ensures r.Rehashed? ==> |r.t.cs| > 0
  {
    var n := BucketSize(candidate, t.tuning);
    if n == 0 then Rehashed(t, false)
    else if !Granted(t.mem) then Rehashed(t.(mem := Rest(t.mem)), false)
    else
      var x := Transfer(ops, Xfer(Empty<T>(n), t.cs, t.free, Rest(t.mem), true), 0, false);
      if x.ok then Rehashed(Table(x.dst, x.free, t.tuning, x.mem), true)
      else
        var y := Transfer(ops, Xfer(x.src, x.dst, x.free, x.mem, true), 0, true);
        if !y.ok then Abort
        else
          var z := Transfer(ops, y, 0, false);
          if z.ok then Rehashed(Table(z.dst, z.free, t.tuning, z.mem), false) else Abort
  }

  datatype Inserted<T> = Inserted(t: Table<T>) | Present(t: Table<T>, found: T) | Failed(t: Table<T>) | Aborted

  /** The test that makes hash_insert grow the table. */
  predicate MustGrow<T>(cs: Chains<T>, t: Tuning) {
    Used(cs) as real > t.growthThreshold * |cs| as real
  }

  function GrowthCandidate(n: nat, t: Tuning): real {
    if t.isNBuckets then n as real * t.growthFactor
    else n as real * t.growthFactor * t.growthThreshold
  }

  /** The end of hash_insert: the entry goes in, if a node can be had. */
  ghost function Add<T(!new)>(ops: Ops<T>, t: Table<T>, e: T): (r: Inserted<T>)
    requires InRange(ops) && |t.cs| > 0
  {
    var cs := Place(ops, t.cs, e);
    if t.cs[Slot(ops, e, |t.cs|)] == [] then Inserted(t.(cs := cs))
    else if t.free > 0 then Inserted(t.(cs := cs, free := t.free - 1))
    else if Granted(t.mem) then Inserted(t.(cs := cs, mem := Rest(t.mem)))
    else Failed(t.(mem := Rest(t.mem)))
  }

  /** Whether the table is ready for a new entry, perhaps after growing. */
  datatype Room<T> = Ready(t: Table<T>) | NoRoom(t: Table<T>) | RoomAborted

  ghost function MakeRoom<T(!new)>(ops: Ops<T>, t: Table<T>, e: T): (r: Room<T>)
    requires InRange(ops) && |t.cs| > 0
    ensures !r.RoomAborted? ==> |r.t.cs| > 0
  {
    if !MustGrow(t.cs, t.tuning) then Ready(t)
    else
      var t1 := t.(tuning := Checked(t.tuning));
      if !MustGrow(t.cs, t1.tuning) then Ready(t1)
      else
        var candidate := GrowthCandidate(|t.cs|, t1.tuning);
        GrowthPositive(|t.cs|, t1.tuning);
        if SIZE_MAX as real <= candidate then NoRoom(t1)
        else
          var r := Rehash(ops, t1, Truncate(candidate));
          if r.Abort? then RoomAborted
          else if !r.ok then NoRoom(r.t)
          else if Lookup(ops, r.t.cs, e).Some? then RoomAborted
          else Ready(r.t)
  }

  ghost function Insert<T(!new)>(ops: Ops<T>, t: Table<T>, e: T): (r: Inserted<T>)
    requires InRange(ops) && |t.cs| > 0
  {
    var found := Lookup(ops, t.cs, e);
    if found.Some? then Present(t, found.value)
    else
      match MakeRoom(ops, t, e)
      case Ready(u) => Add(ops, u, e)
      case NoRoom(u) => Failed(u)
      case RoomAborted => Aborted
  }

  /** C's conversion of a non-negative float below SIZE_MAX to size_t. */
  function Truncate(x: real): (n: nat)
    requires 0.0 <= x < SIZE_MAX as real
    ensures n < WORD
  {
    x.Floor
  }

  lemma GrowthPositive(n: nat, t: Tuning)
    requires TuningOk(t)
    ensures 0.0 <= GrowthCandidate(n, t)
  {
    var x := n as real * t.growthFactor;
    assert 0.0 <= x;
    assert 0.0 <= x * t.growthThreshold;
  }

  datatype Deleted<T> = Deleted(t: Table<T>, data: Option<T>) | DeleteAborted

  function Without<T>(c: seq<T>, k: nat): seq<T>
    requires k < |c|
  {
    c[..k] + c[k + 1..]
  }

  /** hash_find_entry with deletion, for the entry at position k of bucket j. */
  function Unlink<T>(t: Table<T>, j: nat, k: nat): Table<T>
    requires j < |t.cs| && k < |t.cs[j]|
  {
    t.(cs := t.cs[j := Without(t.cs[j], k)],
       free := if |t.cs[j]| > 1 then t.free + 1 else t.free)
  }

  predicate MustShrink<T>(cs: Chains<T>, t: Tuning) {
    Used(cs) as real < t.shrinkThreshold * |cs| as real
  }

  function Fraction(x: real, f: real): (r: real)
    requires 0.0 <= x && 0.0 <= f <= 1.0
    ensures 0.0 <= r <= x
  {
    assert x - x * f == x * (1.0 - f);
    x * f
  }

  function ShrinkCandidate(n: nat, t: Tuning): (x: real)
    requires TuningOk(t)
    ensures 0.0 <= x <= n as real
  {
    var x := Fraction(n as real, t.shrinkFactor);
    if t.isNBuckets then x else Fraction(x, t.growthThreshold)
  }

  ghost function Delete<T(!new)>(ops: Ops<T>, t: Table<T>, e: T): (r: Deleted<T>)
    requires InRange(ops) && 0 < |t.cs| <= MAX_BUCKETS
  {
    var j := Slot(ops, e, |t.cs|);
    var k := Find(ops, t.cs[j], e);
    if k == |t.cs[j]| then Deleted(t, None)
    else
      var u := Unlink(t, j, k);
      var data := Some(t.cs[j][k]);
      if u.cs[j] != [] || !MustShrink(u.cs, u.tuning) then Deleted(u, data)
      else Shrunk(ops, u.(tuning := Checked(u.tuning)), data)
  }

  /** The end of hash_delete: a failed shrink gives up the recycled nodes. */
  ghost function Shrunk<T(!new)>(ops: Ops<T>, t: Table<T>, data: Option<T>): (r: Deleted<T>)
    requires InRange(ops) && 0 < |t.cs| <= MAX_BUCKETS && TuningOk(t.tuning)
  {
    if !MustShrink(t.cs, t.tuning) then Deleted(t, data)
    else
      var r := Rehash(ops, t, Truncate(ShrinkCandidate(|t.cs|, t.tuning)));
      if r.Abort? then DeleteAborted
      else if r.ok then Deleted(r.t, data)
      else Deleted(r.t.(free := 0), data)
  }

  /** hash_clear: the overflow nodes go to the free list. */
  function Clear<T>(t: Table<T>): Table<T> {
    t.(cs := Empty(|t.cs|), free := t.free + Over(t.cs))
  }

  /** hash_initialize, when it does not fail. */
  ghost function Initialize<T(!new)>(candidate: nat, t: Tuning, mem: seq<bool>): Option<Table<T>>
    requires candidate < WORD
  {
    if !Granted(mem) || !TuningOk(t) || BucketSize(candidate, t) == 0 || !Granted(Rest(mem)) then None
    else Some(Table(Empty(BucketSize(candidate, t)), 0, t, Rest(Rest(mem))))
  }
}
