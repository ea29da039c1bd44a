/** The pointer code of coreutils/lib/hash.c: an array of bucket records, overflow nodes on
    linked lists and a list of recycled nodes, all changed in place. Every method is proved
    against its function in `HashModel.dfy`. */
module HashTable {
  import opened Primes
  import opened HashModel
  import opened HashRollback
  import opened HashRuns
  import opened HashSizing
  import opened Wrappers

  /** The allocator: each request is granted or not as the next answer says. */
  class Memory {
    var answers: seq<bool>

    constructor (answers: seq<bool>)
      ensures this.answers == answers
    {
      this.answers := answers;
    }

    method Ask() returns (ok: bool)
      modifies this
      ensures ok == Granted(old(answers)) && answers == Rest(old(answers))
    {
      ok := answers != [] && answers[0];
      answers := if answers == [] then [] else answers[1..];
    }
  }

  /** `struct hash_entry`: a bucket record or an overflow node. The ghost fields say where the
      node is: in chain `slot` of the table `owner`, on the free list (owner 0), or in
      nobody's hands (owner -1). */
  class Entry<T> {
    var data: Option<T>
    var next: Entry?<T>
    ghost var owner: int
    ghost var slot: int

    constructor (ghost owner: int, ghost slot: int)
      ensures data == None && next == null
      ensures this.owner == owner && this.slot == slot
    {
      data, next := None, null;
      this.owner, this.slot := owner, slot;
    }
  }

  const NOWHERE := -1
  const RECYCLED := 0

  ghost function Link<T>(c: seq<Entry<T>>, k: int): Entry?<T> {
    if 0 <= k < |c| then c[k] else null
  }

  ghost predicate NoDup<T>(c: seq<Entry<T>>) {
    forall k, l {:trigger c[k], c[l]} | 0 <= k < l < |c| :: c[k] != c[l]
  }

  lemma PushAt<T>(c: seq<T>, d: T)
    requires c != []
    ensures var r := Push(c, d);
            |r| == |c| + 1 && r[0] == c[0] && r[1] == d && forall k | 2 <= k < |r| :: r[k] == c[k - 1]
  {
  }

  lemma PushLinks<T>(c: seq<Entry<T>>, n: Entry<T>)
    requires c != [] && n !in c && NoDup(c)
    ensures NoDup(Push(c, n))
    ensures Link(Push(c, n), 2) == Link(c, 1)
    ensures forall k | 2 <= k <= |c| :: Link(Push(c, n), k + 1) == Link(c, k)
  {
    PushAt(c, n);
  }

  /** Positions and links of a chain without its node k. */
  lemma WithoutAt<T>(c: seq<Entry<T>>, k: nat, l: nat)
    requires k < |c| && l < |c| - 1
    ensures Without(c, k)[l] == c[if l < k then l else l + 1]
    ensures Link(Without(c, k), l + 1) == Link(c, if l + 1 < k then l + 1 else l + 2)
  {
  }

  lemma WithoutDistinct<T>(c: seq<Entry<T>>, k: nat)
    requires k < |c| && NoDup(c)
    ensures NoDup(Without(c, k))
  {
  }

  lemma WithoutLength<T>(c: seq<T>, k: nat)
    requires k < |c|
    ensures |Without(c, k)| == |c| - 1
  {
  }

  lemma WithoutData<T>(c: seq<Entry<T>>, ds: seq<T>, k: nat)
    requires k < |c| == |ds|
    requires forall l {:trigger c[l]} | 0 <= l < |c| && l != k :: c[l].data == Some(ds[l])
    ensures |Without(c, k)| == |c| - 1 && |Without(ds, k)| == |c| - 1
    ensures forall l {:trigger Without(c, k)[l]} | 0 <= l < |c| - 1 :: Without(c, k)[l].data == Some(Without(ds, k)[l])
    ensures k > 0 ==> Without(c, k)[0] == c[0] && Without(ds, k)[0] == ds[0]
  {
  }

  /** The same when node 1 goes after its data have been copied into the head. */
  lemma PromotedData<T>(c: seq<Entry<T>>, ds: seq<T>)
    requires 2 <= |c| == |ds|
    requires c[0].data == Some(ds[1])
    requires forall l {:trigger c[l]} | 2 <= l < |c| :: c[l].data == Some(ds[l])
    ensures |Without(c, 1)| == |c| - 1 && |Without(ds, 0)| == |c| - 1 && Without(c, 1)[0] == c[0]
    ensures forall l {:trigger Without(c, 1)[l]} | 0 <= l < |c| - 1 :: Without(c, 1)[l].data == Some(Without(ds, 0)[l])
  {
  }

  class HashTable<T(==,!new)> {
    const ops: Ops<T>
    /** The bucket records; the array is replaced as a whole, by hash_rehash. */
    var bucket: seq<Entry<T>>
    var nBucketsUsed: nat
    var nEntries: nat
    var tuning: Tuning
    var freeEntryList: Entry?<T>

    /** The tag of this table's nodes, the data and the nodes of its chains, the free list,
        and every node there is. */
    ghost var id: int
    ghost var cs: Chains<T>
    ghost var chains: seq<seq<Entry<T>>>
    ghost var recycled: seq<Entry<T>>
    ghost var nodes: set<Entry<T>>

    /** Chain i is linked and holds the data cs[i]; in bucket `hole` the link of the head is
        out of date. */
    ghost predicate ChainOk(i: nat, hole: int)
      reads this, nodes
      requires |chains| == |bucket| == |cs| && i < |bucket|
    {
      var c := chains[i];
      && 1 <= |c| && c[0] == bucket[i] && NoDup(c)
      && (if cs[i] == [] then |c| == 1 else |cs[i]| == |c|)
      && (forall k {:trigger c[k]} | 0 <= k < |c| ::
            && c[k] in nodes
            && c[k].owner == id && c[k].slot == i
            && c[k].data == (if cs[i] == [] then None else Some(cs[i][k])))
      && (forall k {:trigger c[k].next} | 0 <= k < |c| && (k > 0 || i != hole) :: c[k].next == Link(c, k + 1))
    }

    ghost predicate ChainsOk(hole: int)
      reads this, nodes
    {
      && |chains| == |bucket| == |cs| && 0 < |bucket| && id > 0
      && forall i {:trigger ChainOk(i, hole)} | 0 <= i < |bucket| :: ChainOk(i, hole)
    }

    ghost predicate FreeOk()
      reads this, nodes
    {
      && freeEntryList == Link(recycled, 0) && NoDup(recycled)
      && (forall k {:trigger recycled[k]} | 0 <= k < |recycled| ::
            recycled[k] in nodes && recycled[k].owner == RECYCLED)
      && (forall k {:trigger recycled[k].next} | 0 <= k < |recycled| :: recycled[k].next == Link(recycled, k + 1))
    }

    lemma ChainAt(i: nat, hole: int)
      requires ChainsOk(hole) && i < |bucket|
      ensures ChainOk(i, hole)
    {
    }

    lemma HeadOf(j: nat)
      requires ChainsOk(-1) && j < |bucket|
      ensures chains[j] != [] && chains[j][0] == bucket[j] && bucket[j] in nodes && bucket[j].owner == id
      ensures bucket[j].data == if cs[j] == [] then None else Some(cs[j][0])
      ensures cs[j] != [] ==> |chains[j]| == |cs[j]|
    {
      ChainAt(j, -1);
    }

    lemma NodeAt(j: nat, k: nat)
      requires ChainsOk(-1) && j < |bucket| && k < |cs[j]|
      ensures |chains[j]| == |cs[j]| && chains[j][k].data == Some(cs[j][k])
      ensures chains[j][k].next == Link(chains[j], k + 1)
    {
      ChainAt(j, -1);
    }

    lemma NextInChain(j: nat, k: nat)
      requires ChainsOk(-1) && j < |bucket| && k < |chains[j]|
      ensures chains[j][k].next == Link(chains[j], k + 1) && chains[j][k] in nodes
    {
      ChainAt(j, -1);
    }

    /** `storage` of hash_rehash, and the empty table of hash_initialize: a fresh array of
        empty records, with somebody's free list. */
    constructor (ops: Ops<T>, bucket: seq<Entry<T>>, tuning: Tuning, free: Entry?<T>, ghost recycled: seq<Entry<T>>,
                 ghost id: int, ghost others: set<Entry<T>>)
      requires bucket != [] && id > 0
      requires forall i {:trigger bucket[i]} | 0 <= i < |bucket| ::
                 var m := bucket[i]; m.data == None && m.next == null && m.owner == id && m.slot == i
      ensures ChainsOk(-1) && cs == Empty<T>(|bucket|) && nBucketsUsed == 0 && nEntries == 0
      ensures this.ops == ops && this.bucket == bucket && this.tuning == tuning && this.id == id
      ensures freeEntryList == free && this.recycled == recycled
      ensures nodes == others + (set m | m in bucket)
    {
      this.ops, this.bucket, this.tuning := ops, bucket, tuning;
      nBucketsUsed, nEntries, freeEntryList := 0, 0, free;
      this.id, this.recycled := id, recycled;
      cs, chains := Empty<T>(|bucket|), seq(|bucket|, i requires 0 <= i < |bucket| => [bucket[i]]);
      nodes := others + (set m | m in bucket);
    }

    // ----- What a change of some nodes leaves alone -----

    /** Nodes of other owners may change at will. */
    twostate lemma ChainsKept(new hole: int, new changed: set<Entry<T>>)
      requires old(ChainsOk(hole))
      requires id == old(id) && cs == old(cs) && chains == old(chains) && bucket == old(bucket)
      requires old(nodes) <= nodes
      requires forall m | m in old(nodes) && m !in changed :: unchanged(m)
      requires forall m | m in changed && m in old(nodes) :: old(m.owner) != id
      ensures ChainsOk(hole)
    {
      forall i | 0 <= i < |bucket|
        ensures ChainOk(i, hole)
      {
        assert old(ChainOk(i, hole));
        forall k | 0 <= k < |chains[i]|
          ensures unchanged(chains[i][k])
        {
          assert old(chains[i][k].owner) == id;
        }
      }
    }

    /** Changing nodes of chain j alone leaves the other chains as they were. */
    twostate lemma OthersKept(new j: nat, new hole: int, new newHole: int, new changed: set<Entry<T>>)
      requires old(ChainsOk(hole)) && j < |bucket|
      requires newHole == hole || ((hole == j || hole == -1) && (newHole == j || newHole == -1))
      requires id == old(id) && bucket == old(bucket)
      requires |cs| == |bucket| && |chains| == |bucket|
      requires forall i {:trigger chains[i]} {:trigger cs[i]} | 0 <= i < |bucket| && i != j ::
               cs[i] == old(cs)[i] && chains[i] == old(chains)[i]
      requires old(nodes) <= nodes
      requires forall m | m in old(nodes) && m !in changed :: unchanged(m)
      requires forall m | m in changed && m in old(nodes) :: old(m.owner) != id || old(m.slot) == j
      ensures forall i | 0 <= i < |bucket| && i != j :: ChainOk(i, newHole)
    {
      forall i | 0 <= i < |bucket| && i != j
        ensures ChainOk(i, newHole)
      {
        assert old(ChainOk(i, hole));
        forall k | 0 <= k < |chains[i]|
          ensures unchanged(chains[i][k])
        {
          assert old(chains[i][k].owner) == id && old(chains[i][k].slot) == i;
        }
      }
    }

    twostate lemma FreeKept(new changed: set<Entry<T>>)
      requires old(FreeOk())
      requires freeEntryList == old(freeEntryList) && recycled == old(recycled)
      requires old(nodes) <= nodes
      requires forall m | m in old(nodes) && m !in changed :: unchanged(m)
      requires forall m | m in changed && m in old(nodes) :: old(m.owner) != RECYCLED
      ensures FreeOk()
    {
      forall k | 0 <= k < |recycled|
        ensures unchanged(recycled[k])
      {
        assert old(recycled[k].owner) == RECYCLED;
      }
    }

    // ----- The free list -----

    /** free_entry */
    method FreeEntry(n: Entry<T>)
      requires FreeOk() && n in nodes && n.owner == NOWHERE
      modifies n, `freeEntryList, `recycled
      ensures FreeOk() && recycled == [n] + old(recycled) && n.owner == RECYCLED
    {
      n.data := None;
      n.next := freeEntryList;
      freeEntryList := n;
      n.owner := RECYCLED;
      ghost var before := recycled;
      recycled := [n] + before;
      forall k | 0 <= k < |recycled|
        ensures recycled[k] in nodes && recycled[k].owner == RECYCLED
        ensures recycled[k].next == Link(recycled, k + 1) && (k > 0 ==> recycled[k] != n)
      {
        if k > 0 {
          assert recycled[k] == before[k - 1];
          assert old(before[k - 1].owner) == RECYCLED;
        }
      }
    }

    /** allocate_entry */
    method AllocateEntry(mem: Memory) returns (n: Entry?<T>)
      requires FreeOk()
      modifies nodes, `freeEntryList, `recycled, `nodes, mem
      ensures FreeOk() && old(nodes) <= nodes && fresh(nodes - old(nodes))
      ensures forall m | m in old(nodes) && m != n :: unchanged(m)
      ensures n != null ==> n in nodes && n.owner == NOWHERE && (n in old(nodes) ==> old(n.owner) == RECYCLED)
      ensures |recycled| == if old(|recycled|) > 0 then old(|recycled|) - 1 else 0
      ensures mem.answers == if old(|recycled|) > 0 then old(mem.answers) else Rest(old(mem.answers))
      ensures n != null <==> old(|recycled|) > 0 || Granted(old(mem.answers))
    {
      if freeEntryList != null {
        n := freeEntryList;
        freeEntryList := n.next;
        n.owner := NOWHERE;
        ghost var before := recycled;
        recycled := recycled[1..];
        forall k | 0 <= k < |recycled|
          ensures recycled[k] in nodes && recycled[k].owner == RECYCLED
          ensures recycled[k].next == Link(recycled, k + 1)
        {
          assert recycled[k] == before[k + 1];
          assert before[k + 1] != before[0];
        }
      } else {
        var ok := mem.Ask();
        if ok {
          n := new Entry<T>(NOWHERE, 0);
          nodes := nodes + {n};
        } else {
          n := null;
        }
      }
    }

    // ----- One chain -----

    /** Chain j, when n has been linked in behind its head. */
    twostate lemma LinkedBehind(new j: nat, new n: Entry<T>, new d: T, new c: seq<Entry<T>>)
      requires bucket == old(bucket) && id == old(id) && nodes == old(nodes) &&
               |chains| == |bucket| == |cs| && j < |bucket|
      requires |old(chains)| == |old(bucket)| == |old(cs)| && old(ChainOk(j, -1)) && old(cs)[j] != []
      requires c == old(chains)[j] && c != [] && chains[j] == Push(c, n) && n !in c
      requires cs[j] == Push(old(cs)[j], d)
      requires n in nodes && n.owner == id && n.slot == j && n.data == Some(d)
      requires n.next == old(bucket[j].next) && bucket[j].next == n
      requires bucket[j].data == old(bucket[j].data) && bucket[j].owner == id && bucket[j].slot == j
      requires forall k {:trigger c[k]} | 1 <= k < |c| :: unchanged(c[k])
      ensures ChainOk(j, -1)
    {
      hide Push;
      var c', ds := chains[j], old(cs)[j];
      PushAt(ds, d);
      PushAt(c, n);
      PushLinks(c, n);
      forall k {:trigger c'[k]} | 0 <= k < |c'|
        ensures c'[k] in nodes && c'[k].owner == id && c'[k].slot == j
        ensures c'[k].data == Some(cs[j][k]) && c'[k].next == Link(c', k + 1)
      {
      }
    }

    /** A node of nobody's, with its data in it, goes right behind the head of bucket j. */
    method LinkBehind(j: nat, n: Entry<T>, ghost d: T)
      requires ChainsOk(-1) && j < |bucket| && cs[j] != []
      requires n in nodes && n.owner == NOWHERE && n.data == Some(d)
      modifies n, bucket[j], `cs, `chains
      ensures ChainsOk(-1) && n.owner == id && bucket[j].owner == id
      ensures cs == old(cs)[j := Push(old(cs)[j], d)]
    {
      hide Push;
      ChainAt(j, -1);
      ghost var c := chains[j];
      assert n !in c;
      n.next := bucket[j].next;
      bucket[j].next := n;
      n.owner, n.slot := id, j;
      cs := cs[j := Push(cs[j], d)];
      chains := chains[j := Push(c, n)];
      LinkedBehind(j, n, d, c);
      OthersKept(j, -1, -1, {n, bucket[j]});
    }

    /** Of chain i only the overflow node number k has been unlinked. */
    twostate predicate Unlinked(new i: nat, new hole: int, new c: seq<Entry<T>>, new k: nat)
      reads this, nodes, c
    {
      && bucket == old(bucket) && id == old(id) && nodes == old(nodes) && |chains| == |bucket| == |cs| && i < |bucket|
      && |old(chains)| == |old(bucket)| == |old(cs)| && old(ChainOk(i, hole)) && c == old(chains)[i]
      && 1 <= k < |c|
      && (forall l {:trigger c[l]} | 0 <= l < |c| && l != k ::
            && c[l].owner == old(c[l].owner) && c[l].slot == old(c[l].slot)
            && (l != k - 1 ==> c[l].next == old(c[l].next)))
      && (k > 1 || i != hole ==> c[k - 1].next == Link(c, k + 1))
    }

    twostate lemma UnlinkedNode(new i: nat, new hole: int, new c: seq<Entry<T>>, new k: nat, new l: nat)
      requires Unlinked(i, hole, c, k) && l < |c| && l != k
      ensures c[l] in nodes && c[l].owner == id && c[l].slot == i
      ensures l == k - 1 && (l > 0 || i != hole) ==> c[l].next == Link(c, k + 1)
      ensures l != k - 1 && (l > 0 || i != hole) ==> c[l].next == Link(c, l + 1)
    {
      assert c[l].owner == old(c[l].owner);
    }

    twostate lemma ShortenedTags(new i: nat, new hole: int, new c: seq<Entry<T>>, new k: nat)
      requires Unlinked(i, hole, c, k) && k < |c|
      ensures forall l {:trigger Without(c, k)[l]} | 0 <= l < |c| - 1 ::
                Without(c, k)[l] in nodes && Without(c, k)[l].owner == id && Without(c, k)[l].slot == i
    {
      hide Without, Unlinked;
      WithoutLength(c, k);
      forall l | 0 <= l < |c| - 1
        ensures Without(c, k)[l] in nodes && Without(c, k)[l].owner == id && Without(c, k)[l].slot == i
      {
        UnlinkedNode(i, hole, c, k, if l < k then l else l + 1);
        WithoutAt(c, k, l);
      }
    }

    twostate lemma ShortenedLinks(new i: nat, new hole: int, new c: seq<Entry<T>>, new k: nat)
      requires Unlinked(i, hole, c, k) && k < |c|
      ensures forall l {:trigger Without(c, k)[l].next} | 0 <= l < |c| - 1 && (l > 0 || i != hole) ::
                Without(c, k)[l].next == Link(Without(c, k), l + 1)
    {
      hide Without, Unlinked;
      WithoutLength(c, k);
      forall l | 0 <= l < |c| - 1 && (l > 0 || i != hole)
        ensures Without(c, k)[l].next == Link(Without(c, k), l + 1)
      {
        UnlinkedNode(i, hole, c, k, if l < k then l else l + 1);
        WithoutAt(c, k, l);
      }
    }

    /** Such a chain is in order without the node. */
    twostate lemma Shortened(new i: nat, new hole: int, new c: seq<Entry<T>>, new k: nat)
      requires Unlinked(i, hole, c, k)
      requires chains[i] == Without(c, k) && |cs[i]| == |c| - 1 && chains[i][0] == bucket[i]
      requires forall l {:trigger chains[i][l]} | 0 <= l < |c| - 1 :: chains[i][l].data == Some(cs[i][l])
      ensures ChainOk(i, hole)
    {
      assert |chains| == |bucket| == |cs| && i < |bucket| && |c| > 1 && k < |c| && NoDup(c);
      hide Without, NoDup, Unlinked;
      WithoutDistinct(c, k);
      WithoutLength(c, k);
      ShortenedTags(i, hole, c, k);
      ShortenedLinks(i, hole, c, k);
    }

    /** The first overflow node of a bucket is taken off its chain; the link of the head is
        left as it was. */
    ghost method DetachSecond(i: nat)
      requires ChainsOk(i) && i < |bucket| && |chains[i]| >= 2
      modifies `cs, `chains, chains[i][1]
      ensures ChainsOk(i)
      ensures chains[i] == Without(old(chains)[i], 1)
      ensures old(|cs[i]|) == old(|chains[i]|)
      ensures cs == old(cs)[i := Without(old(cs)[i], 1)]
      ensures var n := old(chains)[i][1];
              && n in nodes && old(n.owner) == id && n.owner == NOWHERE
              && n.data == Some(old(cs)[i][1]) && n.next == Link(chains[i], 1)
    {
      hide Without;
      ChainAt(i, i);
      var c := chains[i];
      var n := c[1];
      cs := cs[i := Without(cs[i], 1)];
      chains := chains[i := Without(c, 1)];
      n.owner := NOWHERE;
      WithoutData(c, old(cs)[i], 1);
      WithoutAt(c, 1, 0);
      Shortened(i, i, c, 1);
      OthersKept(i, i, i, {n});
    }

    /** `bucket->next = NULL` when no overflow is left. */
    method CloseHole(i: nat)
      requires ChainsOk(i) && i < |bucket| && |chains[i]| == 1
      modifies bucket[i]
      ensures ChainsOk(-1) && bucket[i].owner == id
    {
      ChainAt(i, i);
      bucket[i].next := null;
      OthersKept(i, i, -1, {bucket[i]});
    }

    /** `bucket->data = data` in an empty bucket. */
    method FillHead(j: nat, d: T)
      requires ChainsOk(-1) && j < |bucket| && cs[j] == []
      modifies bucket[j], `cs
      ensures ChainsOk(-1) && cs == old(cs)[j := [d]] && bucket[j].owner == id
    {
      ChainAt(j, -1);
      bucket[j].data := Some(d);
      cs := cs[j := [d]];
      OthersKept(j, -1, -1, {bucket[j]});
    }

    /** `bucket->data = NULL` when no overflow is left. */
    method ClearHead(j: nat)
      requires ChainsOk(-1) && j < |bucket| && |cs[j]| == 1
      modifies bucket[j], `cs
      ensures ChainsOk(-1) && cs == old(cs)[j := []] && bucket[j].owner == id
    {
      ChainAt(j, -1);
      bucket[j].data := None;
      cs := cs[j := []];
      OthersKept(j, -1, -1, {bucket[j]});
    }

    /** `*bucket = *next`, and the first overflow node is recycled. */
    method PromoteSecond(j: nat)
      requires ChainsOk(-1) && FreeOk() && j < |bucket| && |cs[j]| >= 2
      modifies `cs, `chains, `recycled, `freeEntryList, nodes
      ensures ChainsOk(-1) && FreeOk()
      ensures cs == old(cs)[j := Without(old(cs)[j], 0)] && |recycled| == old(|recycled|) + 1
    {
      ChainAt(j, -1);
      var n := bucket[j].next;
      CopySecond(j, n);
      label Out:
      FreeEntry(n);
      ChainsKept@Out(-1, {n});
    }

    method CopySecond(j: nat, n: Entry<T>)
      requires ChainsOk(-1) && FreeOk() && j < |bucket| && |cs[j]| == |chains[j]| >= 2 && n == chains[j][1]
      modifies `cs, `chains, nodes
      ensures ChainsOk(-1) && FreeOk() && n.owner == NOWHERE && n in nodes
      ensures cs == old(cs)[j := Without(old(cs)[j], 0)]
    {
      hide Without;
      ChainAt(j, -1);
      ghost var c := chains[j];
      var head := bucket[j];
      assert n != head;
      cs := cs[j := Without(cs[j], 0)];
      chains := chains[j := Without(c, 1)];
      head.data := n.data;
      head.next := n.next;
      n.owner := NOWHERE;
      PromotedData(c, old(cs)[j]);
      Shortened(j, -1, c, 1);
      OthersKept(j, -1, -1, {n, head});
      FreeKept({n, head});
    }

    /** The node behind `cursor`, number k of its chain, is unlinked and recycled. */
    method UnlinkBehind(j: nat, cursor: Entry<T>, ghost k: nat)
      requires ChainsOk(-1) && FreeOk() && j < |bucket| && 1 <= k < |cs[j]| == |chains[j]| && cursor == chains[j][k - 1]
      modifies `cs, `chains, `recycled, `freeEntryList, nodes
      ensures ChainsOk(-1) && FreeOk()
      ensures cs == old(cs)[j := Without(old(cs)[j], k)] && |recycled| == old(|recycled|) + 1
    {
      NextInChain(j, k - 1);
      var n := cursor.next;
      SkipNode(j, cursor, k, n);
      label Out:
      FreeEntry(n);
      ChainsKept@Out(-1, {n});
    }

    method SkipNode(j: nat, cursor: Entry<T>, ghost k: nat, n: Entry<T>)
      requires ChainsOk(-1) && FreeOk() && j < |bucket| && 1 <= k < |cs[j]| == |chains[j]|
      requires cursor == chains[j][k - 1] && n == chains[j][k]
      modifies `cs, `chains, nodes
      ensures ChainsOk(-1) && FreeOk() && n.owner == NOWHERE && n in nodes
      ensures cs == old(cs)[j := Without(old(cs)[j], k)]
    {
      ghost var c := chains[j];
      NextInChain(j, k - 1);
      NextInChain(j, k);
      SkipLink(j, cursor, k, n);
      cs := cs[j := Without(cs[j], k)];
      chains := chains[j := Without(c, k)];
      Skipped(j, c, k);
      FreeKept({n, cursor});
    }

    method SkipLink(j: nat, cursor: Entry<T>, ghost k: nat, n: Entry<T>)
      requires ChainsOk(-1) && j < |bucket| && 1 <= k < |chains[j]|
      requires cursor == chains[j][k - 1] && n == chains[j][k]
      modifies cursor, n
      ensures n.owner == NOWHERE && n in nodes && old(n.owner) == id && old(cursor.owner) == id
      ensures cursor.next == Link(chains[j], k + 1)
      ensures cursor.owner == old(cursor.owner) && cursor.slot == old(cursor.slot) && cursor.data == old(cursor.data)
    {
      ChainAt(j, -1);
      NextInChain(j, k);
      assert n != cursor;
      cursor.next := n.next;
      n.owner := NOWHERE;
    }

    twostate lemma Skipped(new j: nat, new c: seq<Entry<T>>, new k: nat)
      requires old(ChainsOk(-1)) && id == old(id) && bucket == old(bucket) && nodes == old(nodes)
      requires j < |bucket| && c == old(chains)[j] && 1 <= k < |c| == |old(cs)[j]|
      requires cs == old(cs)[j := Without(old(cs)[j], k)] && chains == old(chains)[j := Without(c, k)]
      requires forall m | m in nodes && m != c[k] && m != c[k - 1] :: unchanged(m)
      requires c[k - 1].next == Link(c, k + 1) && c[k - 1].data == old(c[k - 1].data)
      requires c[k - 1].owner == old(c[k - 1].owner) && c[k - 1].slot == old(c[k - 1].slot)
      ensures ChainsOk(-1)
    {
      hide Without;
      assert old(ChainOk(j, -1));
      forall l {:trigger c[l]} | 0 <= l < |c| && l != k && l != k - 1
        ensures unchanged(c[l])
      {
        assert c[l] != c[k] && c[l] != c[k - 1];
      }
      WithoutData(c, old(cs)[j], k);
      Shortened(j, -1, c, k);
      OthersKept(j, -1, -1, {c[k], c[k - 1]});
    }
  }

  // ----- transfer_entries -----

  /** Two tables between which entries are being moved; dst owns the free list. In bucket
      `hole` of src the link of the head is out of date. */
  ghost predicate Pair<T(!new)>(dst: HashTable<T>, src: HashTable<T>, hole: int)
    reads dst, src, dst.nodes, src.nodes
  {
    && dst != src && dst.id != src.id && dst.ops == src.ops && InRange(dst.ops)
    && src.nodes <= dst.nodes
    && dst.ChainsOk(-1) && src.ChainsOk(hole) && dst.FreeOk()
    && dst.nBucketsUsed == Used(dst.cs) && src.nBucketsUsed == Used(src.cs)
  }

  twostate predicate SameShape<T(!new)>(t: HashTable<T>)
    reads t
  {
    && t.bucket == old(t.bucket) && t.id == old(t.id) && t.tuning == old(t.tuning) && t.nEntries == old(t.nEntries)
    && old(t.nodes) <= t.nodes
  }

  /** The first overflow node of bucket i of src leaves its chain. */
  ghost method TakeOut<T(!new)>(dst: HashTable<T>, src: HashTable<T>, i: nat, cursor: Entry<T>)
    requires Pair(dst, src, i) && i < |src.bucket| && |src.chains[i]| >= 2 && cursor == src.chains[i][1]
    requires |src.cs[i]| >= 2
    modifies src, src.nodes
    ensures Pair(dst, src, i) && SameShape(src) && src.nodes == old(src.nodes)
    ensures src.cs == old(src.cs)[i := Without(old(src.cs)[i], 1)]
    ensures src.chains[i] == Without(old(src.chains)[i], 1)
    ensures cursor in dst.nodes && cursor.owner == NOWHERE
    ensures cursor.data == Some(old(src.cs)[i][1]) && cursor.next == Link(src.chains[i], 1)
  {
    src.ChainAt(i, i);
    var head := src.bucket[i];
    ReplaceChain(src.cs, i, Without(src.cs[i], 1));
    src.DetachSecond(i);
    dst.ChainsKept(-1, {head, cursor});
    dst.FreeKept({head, cursor});
  }

  /** A free node goes behind the head of bucket j of dst. */
  method PutBehind<T(!new)>(dst: HashTable<T>, src: HashTable<T>, ghost hole: int, j: nat, n: Entry<T>, ghost d: T)
    requires Pair(dst, src, hole) && j < |dst.bucket| && dst.cs[j] != []
    requires n in dst.nodes && n.owner == NOWHERE && n.data == Some(d)
    modifies dst, dst.nodes
    ensures Pair(dst, src, hole) && SameShape(dst)
    ensures dst.cs == old(dst.cs)[j := Push(old(dst.cs)[j], d)]
    ensures dst.nodes == old(dst.nodes) && dst.recycled == old(dst.recycled)
  {
    ReplaceChain(dst.cs, j, Push(dst.cs[j], d));
    dst.ChainAt(j, -1);
    dst.LinkBehind(j, n, d);
    src.ChainsKept(hole, {n, dst.bucket[j]});
    dst.FreeKept({n, dst.bucket[j]});
  }

  /** An empty bucket j of dst gets its head. */
  method PutInHead<T(!new)>(dst: HashTable<T>, src: HashTable<T>, ghost hole: int, j: nat, d: T)
    requires Pair(dst, src, hole) && j < |dst.bucket| && dst.cs[j] == []
    modifies dst, dst.nodes
    ensures Pair(dst, src, hole) && SameShape(dst)
    ensures dst.cs == old(dst.cs)[j := [d]]
    ensures dst.nodes == old(dst.nodes) && dst.recycled == old(dst.recycled)
    ensures forall n | n in dst.nodes && n != dst.bucket[j] :: unchanged(n)
    ensures old(dst.bucket[j].owner) == dst.id
  {
    ReplaceChain(dst.cs, j, [d]);
    dst.ChainAt(j, -1);
    assert dst.chains[j][0] == dst.bucket[j];
    dst.FillHead(j, d);
    label Filled:
    dst.nBucketsUsed := dst.nBucketsUsed + 1;
    dst.ChainsKept@Filled(-1, {});
    src.ChainsKept(hole, {dst.bucket[j]});
    dst.FreeKept({dst.bucket[j]});
  }

  /** A free node goes onto the free list. */
  method GiveBack<T(!new)>(dst: HashTable<T>, src: HashTable<T>, ghost hole: int, n: Entry<T>)
    requires Pair(dst, src, hole) && n in dst.nodes && n.owner == NOWHERE
    modifies dst, dst.nodes
    ensures Pair(dst, src, hole) && SameShape(dst)
    ensures dst.cs == old(dst.cs) && dst.nodes == old(dst.nodes) && |dst.recycled| == old(|dst.recycled|) + 1
  {
    dst.FreeEntry(n);
    src.ChainsKept(hole, {n});
    dst.ChainsKept(-1, {n});
  }

  /** One round of the inner loop: the first overflow node of bucket i of src moves. */
  method MoveNode<T(!new)>(dst: HashTable<T>, src: HashTable<T>, i: nat, cursor: Entry<T>) returns (next: Entry?<T>)
    requires Pair(dst, src, i) && i < |src.bucket| && |src.chains[i]| >= 2 && cursor == src.chains[i][1]
    requires |src.cs[i]| >= 2
    modifies dst, src, dst.nodes
    ensures Pair(dst, src, i) && SameShape(dst) && SameShape(src)
    ensures dst.nodes == old(dst.nodes) && src.nodes == old(src.nodes)
    ensures src.cs == old(src.cs)[i := Without(old(src.cs)[i], 1)]
    ensures src.chains[i] == Without(old(src.chains)[i], 1) && next == Link(src.chains[i], 1)
    ensures var d := old(src.cs)[i][1];
            && dst.cs == Place(dst.ops, old(dst.cs), d)
            && |dst.recycled| == old(|dst.recycled|) +
                 if old(dst.cs)[Slot(dst.ops, d, |old(dst.cs)|)] == [] then 1 else 0
  {
    TakeOut(dst, src, i, cursor);
    var data := cursor.data.value;
    var j := dst.ops.hash(data, |dst.bucket|);
    next := cursor.next;
    dst.ChainAt(j, -1);
    if dst.bucket[j].data.Some? {
      PutBehind(dst, src, i, j, cursor, data);
    } else {
      PutInHead(dst, src, i, j, data);
      GiveBack(dst, src, i, cursor);
    }
  }

  lemma HoleOpens<T(!new)>(dst: HashTable<T>, src: HashTable<T>, i: nat)
    requires Pair(dst, src, -1) && i < |src.bucket|
    ensures Pair(dst, src, i)
  {
    forall k | 0 <= k < |src.bucket|
      ensures src.ChainOk(k, i)
    {
      src.ChainAt(k, -1);
    }
  }

  lemma OverflowStep<T(!new)>(ops: Ops<T>, x: Xfer<T>, c: seq<T>)
    requires InRange(ops) && |x.dst| > 0 && |c| >= 2
    ensures |Without(c, 1)| == |c| - 1 && Without(c, 1)[0] == c[0]
    ensures var freed := if x.dst[Slot(ops, c[1], |x.dst|)] == [] then 1 else 0;
            MoveOverflow(ops, x.(dst := Place(ops, x.dst, c[1]), free := x.free + freed), Without(c, 1)[1..])
            == MoveOverflow(ops, x, c[1..])
  {
    assert Without(c, 1)[1..] == c[1..][1..];
    assert c[1..][0] == c[1];
  }

  lemma OverflowDone<T(!new)>(ops: Ops<T>, x: Xfer<T>, ds: seq<T>)
    requires InRange(ops) && |x.dst| > 0 && |ds| == 0
    ensures MoveOverflow(ops, x, ds) == x
  {
  }

  /** The inner loop of transfer_entries: all overflow entries of bucket i move. */
  method MoveNodes<T(!new)>(dst: HashTable<T>, src: HashTable<T>, i: nat, ghost x: Xfer<T>)
    requires Pair(dst, src, -1) && i < |src.bucket| && src.cs[i] != []
    requires x.dst == dst.cs && x.free == |dst.recycled|
    modifies dst, src, dst.nodes
    ensures Pair(dst, src, -1) && SameShape(dst) && SameShape(src)
    ensures dst.nodes == old(dst.nodes) && src.nodes == old(src.nodes)
    ensures src.cs == old(src.cs)[i := old(src.cs)[i][..1]]
    ensures MoveOverflow(dst.ops, x, old(src.cs)[i][1..]) == x.(dst := dst.cs, free := |dst.recycled|)
  {
    hide MoveOverflow, Used;
    HoleOpens(dst, src, i);
    src.ChainAt(i, -1);
    var cursor := src.bucket[i].next;
    ghost var all := src.cs[i];
    while cursor != null
      invariant Pair(dst, src, i) && SameShape(dst) && SameShape(src)
      invariant dst.nodes == old(dst.nodes) && src.nodes == old(src.nodes)
      invariant |src.cs[i]| == |src.chains[i]| >= 1 && src.cs[i][0] == all[0]
      invariant src.cs == old(src.cs)[i := src.cs[i]]
      invariant cursor == Link(src.chains[i], 1)
      invariant MoveOverflow(dst.ops, x.(dst := dst.cs, free := |dst.recycled|), src.cs[i][1..])
                == MoveOverflow(dst.ops, x, all[1..])
      decreases |src.chains[i]|
    {
      OverflowStep(dst.ops, x.(dst := dst.cs, free := |dst.recycled|), src.cs[i]);
      cursor := MoveNode(dst, src, i, cursor);
    }
    OverflowDone(dst.ops, x.(dst := dst.cs, free := |dst.recycled|), src.cs[i][1..]);
    Close(dst, src, i);
    assert src.cs[i] == all[..1];
  }

  method Close<T(!new)>(dst: HashTable<T>, src: HashTable<T>, i: nat)
    requires Pair(dst, src, i) && i < |src.bucket| && |src.chains[i]| == 1
    modifies src.nodes
    ensures Pair(dst, src, -1)
    ensures src.nodes == old(src.nodes) && dst.nodes == old(dst.nodes)
  {
    src.ChainAt(i, i);
    assert src.chains[i][0] == src.bucket[i];
    src.CloseHole(i);
    dst.ChainsKept(-1, {src.bucket[i]});
    dst.FreeKept({src.bucket[i]});
  }

  /** allocate_entry, in the middle of a move. */
  method Supply<T(!new)>(dst: HashTable<T>, src: HashTable<T>, mem: Memory) returns (n: Entry?<T>)
    requires Pair(dst, src, -1)
    modifies dst, dst.nodes, mem
    ensures Pair(dst, src, -1) && SameShape(dst) && dst.cs == old(dst.cs)
    ensures fresh(dst.nodes - old(dst.nodes))
    ensures n != null ==> n in dst.nodes && n.owner == NOWHERE
    ensures |dst.recycled| == if old(|dst.recycled|) > 0 then old(|dst.recycled|) - 1 else 0
    ensures mem.answers == if old(|dst.recycled|) > 0 then old(mem.answers) else Rest(old(mem.answers))
    ensures n != null <==> old(|dst.recycled|) > 0 || Granted(old(mem.answers))
  {
    n := dst.AllocateEntry(mem);
    ghost var changed := if n == null then {} else {n};
    src.ChainsKept(-1, changed);
    dst.ChainsKept(-1, changed);
  }

  /** The bucket head moves, unless it needs a node and there is none. */
  method MoveHeadOf<T(!new)>(dst: HashTable<T>, src: HashTable<T>, i: nat, mem: Memory) returns (ok: bool)
    requires Pair(dst, src, -1) && i < |src.bucket| && |src.cs[i]| == 1
    modifies dst, src, dst.nodes, mem
    ensures Pair(dst, src, -1) && SameShape(dst) && SameShape(src)
    ensures src.nodes == old(src.nodes) && fresh(dst.nodes - old(dst.nodes))
    ensures Xfer(dst.cs, src.cs, |dst.recycled|, mem.answers, ok)
            == MoveHead(dst.ops, Xfer(old(dst.cs), old(src.cs), old(|dst.recycled|), old(mem.answers), true), i)
  {
    src.ChainAt(i, -1);
    var data := src.bucket[i].data.value;
    var j := dst.ops.hash(data, |dst.bucket|);
    dst.ChainAt(j, -1);
    if dst.bucket[j].data.Some? {
      var n := Supply(dst, src, mem);
      if n == null {
        return false;
      }
      Fill(dst, src, n, data);
      PutBehind(dst, src, -1, j, n, data);
    } else {
      PutInHead(dst, src, -1, j, data);
    }
    DropHead(dst, src, i);
    ok := true;
  }

  method Fill<T(!new)>(dst: HashTable<T>, src: HashTable<T>, n: Entry<T>, d: T)
    requires Pair(dst, src, -1) && n in dst.nodes && n.owner == NOWHERE
    modifies n
    ensures Pair(dst, src, -1) && n.owner == NOWHERE && n.data == Some(d)
  {
    n.data := Some(d);
    src.ChainsKept(-1, {n});
    dst.ChainsKept(-1, {n});
    dst.FreeKept({n});
  }

  /** The record of a moved bucket head becomes empty. */
  method DropHead<T(!new)>(dst: HashTable<T>, src: HashTable<T>, i: nat)
    requires Pair(dst, src, -1) && i < |src.bucket| && |src.cs[i]| == 1
    modifies src, src.nodes
    ensures Pair(dst, src, -1) && SameShape(src) && src.nodes == old(src.nodes)
    ensures src.cs == old(src.cs)[i := []]
  {
    CountAt(src.cs, i);
    ReplaceChain(src.cs, i, []);
    src.ChainAt(i, -1);
    assert src.chains[i][0] == src.bucket[i];
    src.ClearHead(i);
    label Cleared:
    src.nBucketsUsed := src.nBucketsUsed - 1;
    src.ChainsKept@Cleared(-1, {});
    dst.ChainsKept(-1, {src.bucket[i]});
    dst.FreeKept({src.bucket[i]});
  }

  /** One round of the outer loop. Empty buckets have nothing to move. */
  method MoveBucketOf<T(!new)>(dst: HashTable<T>, src: HashTable<T>, i: nat, safe: bool, mem: Memory) returns (ok: bool)
    requires Pair(dst, src, -1) && i < |src.bucket|
    modifies dst, src, dst.nodes, mem
    ensures Pair(dst, src, -1) && SameShape(dst) && SameShape(src)
    ensures src.nodes == old(src.nodes) && fresh(dst.nodes - old(dst.nodes))
    ensures Xfer(dst.cs, src.cs, |dst.recycled|, mem.answers, ok)
            == MoveBucket(dst.ops, Xfer(old(dst.cs), old(src.cs), old(|dst.recycled|), old(mem.answers), true), i, safe)
  {
    hide Used;
    src.ChainAt(i, -1);
    ok := true;
    if src.bucket[i].data.Some? {
      ghost var x := Xfer(dst.cs, src.cs, |dst.recycled|, mem.answers, true);
      MoveNodes(dst, src, i, x);
      if !safe {
        ok := MoveHeadOf(dst, src, i, mem);
      }
    }
  }

  /** transfer_entries */
  method TransferEntries<T(!new)>(dst: HashTable<T>, src: HashTable<T>, safe: bool, mem: Memory) returns (ok: bool)
    requires Pair(dst, src, -1)
    modifies dst, src, dst.nodes, mem
    ensures Pair(dst, src, -1) && SameShape(dst) && SameShape(src)
    ensures src.nodes == old(src.nodes) && fresh(dst.nodes - old(dst.nodes))
    ensures Xfer(dst.cs, src.cs, |dst.recycled|, mem.answers, ok)
            == Transfer(dst.ops, Xfer(old(dst.cs), old(src.cs), old(|dst.recycled|), old(mem.answers), true), 0, safe)
  {
    hide Used, MoveBucket;
    ghost var start := Xfer(dst.cs, src.cs, |dst.recycled|, mem.answers, true);
    for i := 0 to |src.bucket|
      invariant Pair(dst, src, -1) && SameShape(dst) && SameShape(src)
      invariant src.nodes == old(src.nodes) && fresh(dst.nodes - old(dst.nodes))
      invariant Transfer(dst.ops, Xfer(dst.cs, src.cs, |dst.recycled|, mem.answers, true), i, safe)
                == Transfer(dst.ops, start, 0, safe)
    {
      ok := MoveBucketOf(dst, src, i, safe, mem);
      if !ok {
        return;
      }
    }
    ok := true;
  }

  // ----- Valid tables -----

  /** The table hash.c promises between two calls: lists in order, counters exact, every
      entry in its own bucket, and no two entries equal. */
  ghost predicate Valid<T(!new)>(t: HashTable<T>)
    reads t, t.nodes
  {
    && Lawful(t.ops) && t.ChainsOk(-1) && t.FreeOk()
    && t.nBucketsUsed == Used(t.cs) && t.nEntries == Total(t.cs)
    && Inv(t.ops, Table(t.cs, 0, t.tuning, []))
  }

  /** The value a table and the allocator stand for. */
  ghost function TableOf<T(!new)>(t: HashTable<T>, mem: Memory): Table<T>
    reads t, mem
  {
    Table(t.cs, |t.recycled|, t.tuning, mem.answers)
  }

  lemma InvByContents<T(!new)>(ops: Ops<T>, a: Table<T>, b: Table<T>)
    requires Inv(ops, a) && a.cs == b.cs
    ensures Inv(ops, b)
  {
  }

  lemma FindIs<T>(ops: Ops<T>, c: seq<T>, e: T, k: nat)
    requires k <= |c|
    requires k < |c| ==> e == c[k] || ops.same(e, c[k])
    requires forall l | 0 <= l < k :: e != c[l] && !ops.same(e, c[l])
    ensures Find(ops, c, e) == k
  {
  }

  /** hash_find_entry, looking only, and hash_lookup. An empty bucket matches nothing. */
  method FindEntry<T(==,!new)>(t: HashTable<T>, e: T) returns (data: Option<T>, j: nat)
    requires InRange(t.ops) && t.ChainsOk(-1)
    ensures j == Slot(t.ops, e, |t.bucket|)
    ensures data == Lookup(t.ops, t.cs, e)
  {
    var k;
    data, j, k := Search(t, e);
  }

  /** The walk along one chain: where the entry is, and the node before it. */
  method Search<T(==,!new)>(t: HashTable<T>, e: T) returns (data: Option<T>, j: nat, prev: Entry?<T>)
    requires InRange(t.ops) && t.ChainsOk(-1)
    ensures j == Slot(t.ops, e, |t.bucket|)
    ensures var k := Find(t.ops, t.cs[j], e);
            && (data.Some? <==> k < |t.cs[j]|)
            && (data.Some? ==> data.value == t.cs[j][k])
            && prev == (if 0 < k < |t.cs[j]| then Link(t.chains[j], k - 1) else null)
  {
    hide Find, Used;
    j := t.ops.hash(e, |t.bucket|);
    t.HeadOf(j);
    ghost var c, ds := t.chains[j], t.cs[j];
    var head := t.bucket[j];
    if head.data.None? {
      FindIs(t.ops, ds, e, 0);
      return None, j, null;
    }
    if e == head.data.value || t.ops.same(e, head.data.value) {
      FindIs(t.ops, ds, e, 0);
      return head.data, j, null;
    }
    var cursor := head;
    ghost var k := 0;
    t.NodeAt(j, 0);
    while cursor.next != null
      invariant 0 <= k < |c| == |ds| && cursor == c[k] && cursor.next == Link(c, k + 1)
      invariant forall l | 0 <= l <= k :: e != ds[l] && !t.ops.same(e, ds[l])
      decreases |c| - k
    {
      t.NodeAt(j, k + 1);
      var next := cursor.next;
      if e == next.data.value || t.ops.same(e, next.data.value) {
        FindIs(t.ops, ds, e, k + 1);
        return next.data, j, cursor;
      }
      cursor, k := next, k + 1;
    }
    FindIs(t.ops, ds, e, |ds|);
    data, prev := None, null;
  }

  /** hash_find_entry with deletion. */
  method FindAndUnlink<T(==,!new)>(t: HashTable<T>, e: T) returns (data: Option<T>, j: nat)
    requires InRange(t.ops) && t.ChainsOk(-1) && t.FreeOk()
    modifies t`cs, t`chains, t`recycled, t`freeEntryList, t.nodes
    ensures t.ChainsOk(-1) && t.FreeOk()
    ensures j == Slot(t.ops, e, |t.bucket|) && |t.cs| == old(|t.cs|)
    ensures var k := Find(t.ops, old(t.cs)[j], e);
            if k == |old(t.cs)[j]| then data == None && t.cs == old(t.cs) && t.recycled == old(t.recycled)
            else && data == Some(old(t.cs)[j][k])
                 && t.cs == old(t.cs)[j := Without(old(t.cs)[j], k)]
                 && |t.recycled| == old(|t.recycled|) + if |old(t.cs)[j]| > 1 then 1 else 0
  {
    var prev;
    data, j, prev := Search(t, e);
    t.HeadOf(j);
    if data.Some? {
      ghost var k := Find(t.ops, t.cs[j], e);
      t.NodeAt(j, 0);
      if prev != null {
        t.UnlinkBehind(j, prev, k);
      } else if t.bucket[j].next != null {
        assert k == 0;
        t.PromoteSecond(j);
      } else {
        assert k == 0 && |t.cs[j]| == 1 && Without(t.cs[j], 0) == [];
        t.ClearHead(j);
        t.FreeKept({t.bucket[j]});
      }
    }
  }

  // ----- hash_rehash -----

  /** compute_bucket_size */
  method ComputeBucketSize(candidate: nat, t: Tuning) returns (n: nat)
    requires candidate < WORD && TuningOk(t)
    ensures n == BucketSize(candidate, t)
    ensures if n == 0 then forall p: nat :: !Pays(p, candidate, t) else Least(n, candidate, t)
  {
    hide Pays, Least, Prime, NextPrime;
    SizeIsLeast(candidate, t);
    n := candidate;
    if !t.isNBuckets {
      var scaled := candidate as real / t.growthThreshold;
      if SIZE_MAX as real <= scaled {
        return 0;
      }
      n := scaled.Floor;
    }
    n := ComputeNextPrime(n);
    if MAX_BUCKETS < n {
      n := 0;
    }
  }

  /** calloc of n bucket records. */
  method MakeBuckets<T>(n: nat, ghost id: int) returns (b: seq<Entry<T>>)
    ensures |b| == n
    ensures forall i {:trigger b[i]} | 0 <= i < n ::
              fresh(b[i]) && b[i].data == None && b[i].next == null && b[i].owner == id && b[i].slot == i
  {
    b := [];
    for i := 0 to n
      invariant |b| == i
      invariant forall k {:trigger b[k]} | 0 <= k < i ::
                  fresh(b[k]) && b[k].data == None && b[k].next == null && b[k].owner == id && b[k].slot == k
    {
      var m := new Entry<T>(id, i);
      b := b + [m];
    }
  }

  /** The new table of hash_rehash, which shares the free list. */
  method NewStorage<T(!new)>(t: HashTable<T>, n: nat) returns (s: HashTable<T>)
    requires Valid(t) && n > 0
    ensures fresh(s) && Pair(s, t, -1) && s.tuning == t.tuning && s.recycled == t.recycled && s.cs == Empty<T>(n)
    ensures fresh(s.nodes - t.nodes) && s.ops == t.ops
    ensures Valid(t)
  {
    var b := MakeBuckets<T>(n, t.id + 1);
    s := new HashTable<T>(t.ops, b, t.tuning, t.freeEntryList, t.recycled, t.id + 1, t.nodes);
    EmptyCounts(s.cs);
  }

  /** The table takes over the buckets and the free list of `storage`. */
  method Adopt<T(!new)>(t: HashTable<T>, s: HashTable<T>)
    requires Pair(s, t, -1)
    modifies t
    ensures t.ChainsOk(-1) && t.FreeOk() && t.nBucketsUsed == Used(t.cs)
    ensures t.cs == s.cs && t.recycled == s.recycled && t.nodes == s.nodes
    ensures t.tuning == old(t.tuning) && t.nEntries == old(t.nEntries)
  {
    t.bucket := s.bucket;
    t.nBucketsUsed := s.nBucketsUsed;
    t.freeEntryList := s.freeEntryList;
    t.id, t.cs, t.chains, t.recycled, t.nodes := s.id, s.cs, s.chains, s.recycled, s.nodes;
    SameContents(t, s);
  }

  /** Two tables with the same fields are in order together. */
  lemma SameContents<T(!new)>(t: HashTable<T>, s: HashTable<T>)
    requires s.ChainsOk(-1) && s.FreeOk()
    requires t.id == s.id && t.bucket == s.bucket && t.cs == s.cs && t.chains == s.chains && t.nodes == s.nodes
    requires t.freeEntryList == s.freeEntryList && t.recycled == s.recycled
    ensures t.ChainsOk(-1) && t.FreeOk()
  {
    forall i | 0 <= i < |t.bucket|
      ensures t.ChainOk(i, -1)
    {
      s.ChainAt(i, -1);
    }
  }

  /** The table takes back the free list of `storage`. */
  method TakeBackList<T(!new)>(t: HashTable<T>, s: HashTable<T>)
    requires Pair(s, t, -1)
    modifies t
    ensures Pair(t, s, -1) && t.cs == old(t.cs) && t.recycled == s.recycled && t.nodes == s.nodes
    ensures t.tuning == old(t.tuning) && t.nEntries == old(t.nEntries)
  {
    t.freeEntryList := s.freeEntryList;
    t.recycled, t.nodes := s.recycled, s.nodes;
    t.ChainsKept(-1, {});
  }

  /** hash_rehash. The call of abort after a failed rollback is unreachable. */
  method HashRehash<T(!new)>(t: HashTable<T>, candidate: nat, mem: Memory) returns (ok: bool)
    requires Valid(t) && candidate < WORD && TuningOk(t.tuning)
    modifies t, t.nodes, mem
    ensures Valid(t) && fresh(t.nodes - old(t.nodes))
    ensures Rehash(t.ops, old(TableOf(t, mem)), candidate) == Rehashed(TableOf(t, mem), ok)
    ensures t.nEntries == old(t.nEntries)
  {
    ghost var before := TableOf(t, mem);
    InvByContents(t.ops, Table(t.cs, 0, t.tuning, []), before);
    RehashInv(t.ops, before, candidate);
    BagSize(before.cs);
    BagSize(Rehash(t.ops, before, candidate).t.cs);
    var n := ComputeBucketSize(candidate, t.tuning);
    if n == 0 {
      return false;
    }
    var granted := AskFor(t, mem);
    if !granted {
      return false;
    }
    ok := Move(t, n, mem);
    InvByContents(t.ops, Rehash(t.ops, before, candidate).t, Table(t.cs, 0, t.tuning, []));
  }

  method AskFor<T(!new)>(t: HashTable<T>, mem: Memory) returns (ok: bool)
    requires Valid(t)
    modifies mem
    ensures Valid(t) && ok == Granted(old(mem.answers)) && mem.answers == Rest(old(mem.answers))
  {
    ok := mem.Ask();
  }

  /** hash_rehash once the new buckets are there. */
  method Move<T(!new)>(t: HashTable<T>, n: nat, mem: Memory) returns (ok: bool)
    requires Valid(t) && n > 0
    modifies t, t.nodes, mem
    ensures t.ChainsOk(-1) && t.FreeOk() && t.nBucketsUsed == Used(t.cs) &&
            t.nEntries == old(t.nEntries) && t.tuning == old(t.tuning)
    ensures fresh(t.nodes - old(t.nodes))
    ensures var x := Transfer(t.ops, Xfer(Empty<T>(n), old(t.cs), old(|t.recycled|), old(mem.answers), true), 0, false);
            && ok == x.ok
            && (if ok then Xfer(t.cs, x.src, |t.recycled|, mem.answers, true) == x
                else var y := Transfer(t.ops, Xfer(x.src, x.dst, x.free, x.mem, true), 0, true);
                     && y.ok
                     && var z := Transfer(t.ops, y, 0, false);
                     && z.ok && t.cs == z.dst && |t.recycled| == z.free && mem.answers == z.mem)
  {
    hide Transfer, WellPlaced, Keyed, Bag, Used, Over, Total;
    ghost var original := t.cs;
    var storage := NewStorage(t, n);
    ForwardLeavesEnough(t.ops, Xfer(storage.cs, t.cs, |storage.recycled|, mem.answers, true));
    ok := TransferEntries(storage, t, false, mem);
    if ok {
      Adopt(t, storage);
    } else {
      RollBack(t, storage, mem, original);
    }
  }

  /** hash_rehash after a failed transfer: two passes back. */
  method RollBack<T(!new)>(t: HashTable<T>, storage: HashTable<T>, mem: Memory, ghost original: Chains<T>)
    requires Pair(storage, t, -1) && |original| == |t.cs| && WellPlaced(t.ops, original)
    requires var x := Xfer(storage.cs, t.cs, |storage.recycled|, mem.answers, false);
             Balanced(t.ops, x, Bag(original), Stock(x)) && Over(original) + Grants(x.mem) <= Stock(x)
    modifies t, storage, storage.nodes, mem
    ensures t.ChainsOk(-1) && t.FreeOk() && t.nBucketsUsed == Used(t.cs) &&
            t.nEntries == old(t.nEntries) && t.tuning == old(t.tuning)
    ensures fresh(t.nodes - old(storage.nodes))
    ensures var x := Xfer(old(t.cs), old(storage.cs), old(|storage.recycled|), old(mem.answers), true);
            var y := Transfer(t.ops, x, 0, true);
            && y.ok
            && var z := Transfer(t.ops, y, 0, false);
            && z.ok && t.cs == z.dst && |t.recycled| == z.free && mem.answers == z.mem
  {
    hide Transfer, WellPlaced, Keyed, Bag, Used, Over, Total;
    RollbackSucceeds(t.ops, Xfer(storage.cs, t.cs, |storage.recycled|, mem.answers, false), original);
    TakeBackList(t, storage);
    var first := TransferEntries(t, storage, true, mem);
    var second := TransferEntries(t, storage, false, mem);
    if !(first && second) {
      assert false;
    }
  }

  /** Where the forward pass stops, the rollback can start. */
  lemma ForwardLeavesEnough<T(!new)>(ops: Ops<T>, start: Xfer<T>)
    requires InRange(ops) && |start.dst| > 0 && |start.src| > 0 && start.ok
    requires start.dst == Empty<T>(|start.dst|) && WellPlaced(ops, start.src)
    ensures var x := Transfer(ops, start, 0, false);
            Balanced(ops, x, Bag(start.src), Stock(x)) && Over(start.src) + Grants(x.mem) <= Stock(x)
  {
    EmptyCounts(start.dst);
    assert Balanced(ops, start, Bag(start.src), Stock(start));
    TransferKeeps(ops, start, 0, false, Bag(start.src), Stock(start));
  }
}
