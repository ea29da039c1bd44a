/** The exact cycle detection of file tree walks (coreutils/lib/fts-cycle.c): a hash table of
    the directories on the current path. */
module TightCycle {
  import opened HashModel
  import opened HashMemory
  import opened HashRuns
  import opened HashSizing
  import opened HashTable
  import opened HashOperations
  import LazyCycle
  import opened Wrappers

  /** `struct Active_dir`, with the address malloc gave it; `ent` identifies the FTSENT. */
  datatype ActiveDir = ActiveDir(addr: nat, dev: nat, ino: nat, ent: nat)

  /** AD_hash and AD_compare */
  function AdHash(a: ActiveDir, n: nat): nat {
    if n == 0 then 0 else a.ino % n
  }

  predicate AdCompare(x: ActiveDir, y: ActiveDir) {
    x.ino == y.ino && x.dev == y.dev
  }

  const AD: Ops<ActiveDir> := Ops((a, n) => AdHash(a, n), (x, y) => AdCompare(x, y))

  /** They are what the hash table demands. */
  lemma AdLawful()
    ensures Lawful(AD)
  {
    forall x, n: nat | n > 0
      ensures AD.hash(x, n) < n
    {
    }
  }

  /** A directory met on the walk. */
  datatype Dir = Dir(ent: nat, dev: nat, ino: nat)

  predicate SameDir(a: ActiveDir, d: Dir) {
    a.dev == d.dev && a.ino == d.ino
  }

  // ----- One step -----

  /** enter_dir fails for want of memory, finds that an active directory is entered again and
      names its FTSENT, or records the directory. */
  datatype Entered = NoMemory | CycleAt(ent: nat) | Recorded(ad: ActiveDir)

  datatype Walk = Walk(t: Table<ActiveDir>, next: nat, path: seq<ActiveDir>)

  ghost function Enter(w: Walk, d: Dir): (Walk, Entered)
    requires InRange(AD) && |w.t.cs| > 0
  {
    var t := w.t.(mem := Rest(w.t.mem));
    if !Granted(w.t.mem) then (w.(t := t), NoMemory)
    else
      var ad := ActiveDir(w.next, d.dev, d.ino, d.ent);
      match Insert(AD, t, ad)
      case Inserted(u) => (Walk(u, w.next + 1, w.path + [ad]), Recorded(ad))
      case Present(u, found) => (Walk(u, w.next + 1, w.path), CycleAt(found.ent))
      case Failed(u) => (Walk(u, w.next + 1, w.path), NoMemory)
      case Aborted => (w, NoMemory)
  }

  /** leave_dir for the last directory of the path; None where it aborts. */
  ghost function Leave(w: Walk): Option<Walk>
    requires InRange(AD) && 0 < |w.t.cs| <= MAX_BUCKETS && w.path != []
  {
    var last := w.path[|w.path| - 1];
    match Delete(AD, w.t, ActiveDir(w.next, last.dev, last.ino, 0))
    case Deleted(u, Some(found)) => Some(Walk(u, w.next, w.path[..|w.path| - 1]))
    case Deleted(u, None) => None
    case DeleteAborted => None
  }

  /** The table holds exactly the directories of the path, and no two of them are the same. */
  ghost predicate OnPath(w: Walk) {
    && Inv(AD, w.t)
    && Elements(w.t) == (set a | a in w.path)
    && (forall i, j {:trigger w.path[i], w.path[j]} | 0 <= i < j < |w.path| :: !AdCompare(w.path[i], w.path[j]))
    && (forall a | a in w.path :: a.addr < w.next)
  }

  lemma StaysOnPath(w: Walk, u: Table<ActiveDir>, next: nat)
    requires OnPath(w) && Inv(AD, u) && Elements(u) == Elements(w.t) && w.next <= next
    ensures OnPath(Walk(u, next, w.path))
  {
    hide Inv;
  }

  lemma JoinsPath(w: Walk, u: Table<ActiveDir>, ad: ActiveDir)
    requires OnPath(w) && Inv(AD, u) && Elements(u) == Elements(w.t) + {ad} && ad.addr == w.next
    requires forall a | a in w.path :: !AdCompare(a, ad)
    ensures OnPath(Walk(u, w.next + 1, w.path + [ad]))
  {
    hide Inv, Elements, AdCompare;
    var path := w.path + [ad];
    forall i, j | 0 <= i < j < |path|
      ensures !AdCompare(path[i], path[j])
    {
      if j == |w.path| {
        assert path[i] in w.path;
      }
    }
    assert (set a | a in path) == (set a | a in w.path) + {ad};
  }

  lemma LeavesPath(w: Walk, u: Table<ActiveDir>)
    requires OnPath(w) && w.path != [] && Inv(AD, u)
    requires Elements(u) == Elements(w.t) - {w.path[|w.path| - 1]}
    ensures OnPath(Walk(u, w.next, w.path[..|w.path| - 1]))
  {
    hide Inv, Elements;
    var n := |w.path| - 1;
    var last, rest := w.path[n], w.path[..n];
    forall j | 0 <= j < n
      ensures rest[j] != last
    {
      assert !AdCompare(w.path[j], w.path[n]);
    }
    assert w.path == rest + [last];
    assert (set a | a in rest) == (set a | a in w.path) - {last};
  }

  /** On the path there is one directory with the device and inode of the last. */
  lemma LastIsOnly(w: Walk, a: ActiveDir)
    requires OnPath(w) && w.path != [] && a in Elements(w.t) && AdCompare(a, w.path[|w.path| - 1])
    ensures a == w.path[|w.path| - 1]
  {
    hide Inv, Elements, AdCompare, OnPath;
    var n := |w.path| - 1;
    OnPathParts(w);
    assert a in w.path;
    var i :| 0 <= i <= n && w.path[i] == a;
    if i < n {
      NotLast(w, i);
    }
  }

  lemma NotLast(w: Walk, i: nat)
    requires OnPath(w) && i < |w.path| - 1
    ensures !AdCompare(w.path[i], w.path[|w.path| - 1])
  {
  }

  ghost predicate Active(w: Walk, d: Dir) {
    exists a :: a in w.path && SameDir(a, d)
  }

  /** Storage is refused: for the Active_dir, or to the table for a directory not active yet. */
  ghost predicate StorageRefused(w: Walk, d: Dir)
    requires InRange(AD) && |w.t.cs| > 0
  {
    !Granted(w.t.mem) ||
    (!Active(w, d) && (SizeRefused(w.t) || Refused(Rest(w.t.mem), Enter(w, d).0.t.mem, |w.t.cs| + 2)))
  }

  /** Given an Active_dir, a directory is reported as a cycle exactly when one on the path has its
      device and inode, and that one is named; otherwise it joins the path, unless storage is
      refused. */
  lemma EnterIsExact(w: Walk, d: Dir)
    requires InRange(AD) && OnPath(w)
    ensures var (v, r) := Enter(w, d);
            && OnPath(v)
            && (Granted(w.t.mem) ==> (r.CycleAt? <==> Active(w, d)))
            && (r.CycleAt? ==> v.path == w.path && exists a :: a in w.path && SameDir(a, d) && r.ent == a.ent)
            && (r.Recorded? ==> v.path == w.path + [r.ad] && SameDir(r.ad, d) && r.ad.ent == d.ent
                                && !Active(w, d))
            && (r.NoMemory? ==> v.path == w.path && StorageRefused(w, d))
  {
    hide Inv, Insert, OnPath, Served, Refused, SizeRefused, Ample;
    AdLawful();
    var t := w.t.(mem := Rest(w.t.mem));
    OnPathParts(w);
    InvByContents(AD, w.t, t);
    assert Elements(t) == Elements(w.t);
    StaysOnPath(w, t, w.next);
    var ad := ActiveDir(w.next, d.dev, d.ino, d.ent);
    InsertKeeps(AD, t, ad);
    var r := Insert(AD, t, ad);
    if r.Inserted? {
      JoinsPath(w, r.t, ad);
    } else {
      StaysOnPath(w, r.t, w.next + 1);
      if r.Present? {
        assert r.found in w.path && AdCompare(ad, r.found) && SameDir(r.found, d);
      }
    }
    SizeByContents(t, w.t);
  }

  lemma SizeByContents(t: Table<ActiveDir>, u: Table<ActiveDir>)
    requires t.cs == u.cs && t.tuning == u.tuning
    ensures SizeRefused(t) <==> SizeRefused(u)
  {
  }

  /** While the requests of enter_dir are granted, an active directory is a cycle and any other is
      recorded. */
  lemma EnterWithMemory(w: Walk, d: Dir)
    requires InRange(AD) && OnPath(w) && |w.t.cs| > 0 && Ample(w.t.mem, |w.t.cs| + 3) && !SizeRefused(w.t)
    ensures if Active(w, d) then Enter(w, d).1.CycleAt? else Enter(w, d).1.Recorded?
  {
    hide Inv, OnPath, Enter, SizeRefused, Refused, Served;
    EnterIsExact(w, d);
    assert Ample(Rest(w.t.mem), |w.t.cs| + 2);
    AmpleIsNotRefused(Rest(w.t.mem), Enter(w, d).0.t.mem, |w.t.cs| + 2);
  }

  lemma OnPathParts(w: Walk)
    requires OnPath(w)
    ensures Inv(AD, w.t)
    ensures forall a :: a in Elements(w.t) <==> a in w.path
  {
    hide Inv, Elements;
  }

  /** The abort in leave_dir is unreachable, and exactly the directory left is forgotten. */
  lemma LeaveSucceeds(w: Walk)
    requires InRange(AD) && OnPath(w) && w.path != []
    ensures 0 < |w.t.cs| <= MAX_BUCKETS && Leave(w).Some?
    ensures var r := Leave(w);
            r.Some? && OnPath(r.value) && r.value.path == w.path[..|w.path| - 1]
  {
    AdLawful();
    OnPathParts(w);
    hide Delete, OnPath, Elements;
    var last := w.path[|w.path| - 1];
    var obj := ActiveDir(w.next, last.dev, last.ino, 0);
    DeleteKeeps(AD, w.t, obj);
    var r := Delete(AD, w.t, obj);
    assert last in Elements(w.t) && AD.same(obj, last);
    LastIsOnly(w, r.data.value);
    LeavesPath(w, r.t);
  }

  // ----- Runs -----

  datatype Event = Descend(d: Dir) | Ascend

  /** A directory reported as a cycle, or not recorded, is not descended into, so it is never
      left: an Ascend leaves the last recorded directory. */
  ghost predicate Nested(w: Walk, run: seq<Event>)
    requires InRange(AD) && 0 < |w.t.cs| <= MAX_BUCKETS
    decreases |run|
  {
    if run == [] then true
    else if run[0].Descend? then
      var v := Enter(w, run[0].d).0;
      0 < |v.t.cs| <= MAX_BUCKETS ==> Nested(v, run[1..])
    else
      && w.path != []
      && var r := Leave(w);
      r.Some? && 0 < |r.value.t.cs| <= MAX_BUCKETS ==> Nested(r.value, run[1..])
  }

  /** Every directory entered on the run is judged by the path it was entered from, and no
      leave_dir aborts. */
  ghost predicate JudgedByPath(w: Walk, run: seq<Event>)
    requires InRange(AD) && 0 < |w.t.cs| <= MAX_BUCKETS
    decreases |run|
  {
    if run == [] then true
    else if run[0].Descend? then
      var d := run[0].d;
      var (v, r) := Enter(w, d);
      && (Granted(w.t.mem) ==> (r.CycleAt? <==> Active(w, d)))
      && (r.NoMemory? ==> StorageRefused(w, d))
      && (r.CycleAt? ==> exists a :: a in w.path && SameDir(a, d) && a.ent == r.ent)
      && OnPath(v) && 0 < |v.t.cs| <= MAX_BUCKETS && JudgedByPath(v, run[1..])
    else
      && w.path != []
      && var r := Leave(w);
      && r.Some? && OnPath(r.value) && 0 < |r.value.t.cs| <= MAX_BUCKETS && JudgedByPath(r.value, run[1..])
  }

  /** On every properly nested walk, whatever the allocator does, the table is the path, cycles
      are reported exactly when they close and an Active_dir can be had, nothing fails unless
      storage is refused, and leaving never aborts. */
  lemma {:induction false} WalkIsJudged(w: Walk, run: seq<Event>)
    requires InRange(AD) && OnPath(w) && 0 < |w.t.cs| <= MAX_BUCKETS && Nested(w, run)
    ensures JudgedByPath(w, run)
    decreases |run|
  {
    hide Enter, Leave, SameDir, StorageRefused, Active;
    if run != [] {
      if run[0].Descend? {
        EnterIsExact(w, run[0].d);
        WalkIsJudged(Enter(w, run[0].d).0, run[1..]);
      } else {
        LeaveSucceeds(w);
        WalkIsJudged(Leave(w).value, run[1..]);
      }
    }
  }

  // ----- The code -----

  /** The part of FTSENT that the cycle check sees; `fts_cycle` names another FTSENT. */
  class FtsEntry {
    const id: nat
    const dev: nat
    const ino: nat
    var ftsCycle: Option<nat>
    var isCycle: bool

    constructor (id: nat, dev: nat, ino: nat)
      ensures this.id == id && this.dev == dev && this.ino == ino && !isCycle && ftsCycle == None
    {
      this.id, this.dev, this.ino, ftsCycle, isCycle := id, dev, ino, None, false;
    }
  }

  class Fts {
    const ht: HashTable<ActiveDir>
    var nextAddress: nat
    ghost var path: seq<ActiveDir>

    constructor (ht: HashTable<ActiveDir>)
      ensures this.ht == ht && nextAddress == 0 && path == []
    {
      this.ht, nextAddress, path := ht, 0, [];
    }

    ghost function Abs(mem: Memory): Walk
      reads this, ht, mem
    {
      Walk(TableOf(ht, mem), nextAddress, path)
    }

    ghost predicate Ready(mem: Memory)
      reads this, ht, ht.nodes, mem
    {
      ht.ops == AD && InRange(AD) && Valid(ht) && OnPath(Abs(mem))
    }

    /** enter_dir under FTS_TIGHT_CYCLE_CHECK or FTS_LOGICAL. */
    method EnterDir(ent: FtsEntry, mem: Memory) returns (ok: bool)
      requires Ready(mem)
      modifies this, ht, ht.nodes, mem, ent
      ensures Ready(mem) && fresh(ht.nodes - old(ht.nodes))
      ensures var (v, r) := Enter(old(Abs(mem)), Dir(ent.id, ent.dev, ent.ino));
              && Abs(mem) == v
              && (ok <==> !r.NoMemory?)
              && (if r.CycleAt? then ent.isCycle && ent.ftsCycle == Some(r.ent)
                  else ent.isCycle == old(ent.isCycle) && ent.ftsCycle == old(ent.ftsCycle))
    {
      hide Inv, Insert, OnPath, Enter, Used, Total, Lawful;
      ghost var before, d := Abs(mem), Dir(ent.id, ent.dev, ent.ino);
      EnterIsExact(before, d);
      EnterCases(before, d);
      ok := AskFor(ht, mem);
      if ok {
        var ad := ActiveDir(nextAddress, ent.dev, ent.ino, ent.id);
        nextAddress := nextAddress + 1;
        var found := Record(ad, mem);
        path := Enter(before, d).0.path;
        if found != Some(ad) {
          if found == None {
            ok := false;
          } else {
            ent.ftsCycle := Some(found.value.ent);
            ent.isCycle := true;
          }
        }
      }
    }

    method Record(ad: ActiveDir, mem: Memory) returns (found: Option<ActiveDir>)
      requires ht.ops == AD && Valid(ht)
      modifies ht, ht.nodes, mem
      ensures Valid(ht) && fresh(ht.nodes - old(ht.nodes))
      ensures var o := Insert(AD, old(TableOf(ht, mem)), ad);
              && !o.Aborted? && TableOf(ht, mem) == o.t
              && found == (if o.Inserted? then Some(ad) else if o.Present? then Some(o.found) else None)
    {
      found := HashInsert(ht, ad, mem);
    }

    /** leave_dir for the directory at the end of the path. */
    method LeaveDir(ent: FtsEntry, mem: Memory)
      requires Ready(mem) && path != [] && SameDir(path[|path| - 1], Dir(ent.id, ent.dev, ent.ino))
      modifies this, ht, ht.nodes, mem
      ensures Ready(mem) && fresh(ht.nodes - old(ht.nodes))
      ensures Leave(old(Abs(mem))) == Some(Abs(mem)) && path == old(path)[..|old(path)| - 1]
    {
      hide Inv, Delete, OnPath, Used, Total, Lawful;
      ghost var before := Abs(mem);
      LeaveSucceeds(before);
      var obj := ActiveDir(nextAddress, ent.dev, ent.ino, 0);
      var found := Forget(obj, mem);
      path := path[..|path| - 1];
      if found == None {
        assert false;
      }
    }

    method Forget(obj: ActiveDir, mem: Memory) returns (found: Option<ActiveDir>)
      requires ht.ops == AD && Valid(ht)
      modifies ht, ht.nodes, mem
      ensures Valid(ht) && fresh(ht.nodes - old(ht.nodes))
      ensures Delete(AD, old(TableOf(ht, mem)), obj) == Deleted(TableOf(ht, mem), found)
    {
      found := HashDelete(ht, obj, mem);
    }
  }

  /** The address of a new Active_dir is nobody else's, so comparing addresses tells whether
      the directory was inserted. */
  lemma EnterCases(w: Walk, d: Dir)
    requires InRange(AD) && OnPath(w)
    ensures !Granted(w.t.mem) ==> Enter(w, d) == (w.(t := w.t.(mem := Rest(w.t.mem))), NoMemory)
    ensures Granted(w.t.mem) ==>
              var ad := ActiveDir(w.next, d.dev, d.ino, d.ent);
              var o := Insert(AD, w.t.(mem := Rest(w.t.mem)), ad);
              && !o.Aborted?
              && (o.Inserted? ==> Enter(w, d) == (Walk(o.t, w.next + 1, w.path + [ad]), Recorded(ad)))
              && (o.Present? ==> Enter(w, d) == (Walk(o.t, w.next + 1, w.path), CycleAt(o.found.ent)) && o.found != ad)
              && (o.Failed? ==> Enter(w, d) == (Walk(o.t, w.next + 1, w.path), NoMemory))
  {
    AdLawful();
    hide Inv, Insert, Elements;
    var t := w.t.(mem := Rest(w.t.mem));
    InvByContents(AD, w.t, t);
    SameElements(w.t, t);
    InsertKeeps(AD, t, ActiveDir(w.next, d.dev, d.ino, d.ent));
  }

  lemma SameElements(t: Table<ActiveDir>, u: Table<ActiveDir>)
    requires t.cs == u.cs
    ensures Elements(t) == Elements(u)
  {
  }

  /** enter_dir without those options: the lazy detector names the entry itself. */
  method EnterLazily(state: LazyCycle.CycleCheckState, ent: FtsEntry)
    requires state.Valid()
    modifies state, ent
    ensures state.Valid()
    ensures var (s, seen) := LazyCycle.Step(old(state.Abs()), LazyCycle.DevIno(ent.dev, ent.ino));
            && state.Abs() == s
            && (if seen then ent.isCycle && ent.ftsCycle == Some(ent.id)
                else ent.isCycle == old(ent.isCycle) && ent.ftsCycle == old(ent.ftsCycle))
  {
    var seen := state.CycleCheck(LazyCycle.DevIno(ent.dev, ent.ino));
    if seen {
      ent.ftsCycle := Some(ent.id);
      ent.isCycle := true;
    }
  }

  const HT_INITIAL_SIZE: nat := 31

  /** setup_dir: the table, or the state of the lazy detector, which is what malloc left there but for
      the counter. It fails only for want of memory. */
  method SetupDir(tight: bool, garbage: LazyCycle.DevIno, mem: Memory)
      returns (ok: bool, fts: Fts?, state: LazyCycle.CycleCheckState?)
    modifies mem
    ensures ok <==> if tight then Ample(old(mem.answers), 2) else Granted(old(mem.answers))
    ensures (fts != null <==> ok && tight) && (state != null <==> ok && !tight)
    ensures fts != null ==> fresh(fts) && fresh(fts.ht) && fresh(fts.ht.nodes) && fts.Ready(mem) && fts.path == []
    ensures fts != null ==> Least(|fts.ht.bucket|, 31, DEFAULT_TUNING)
    ensures state != null ==> fresh(state) && state.Valid() && state.Abs() == LazyCycle.State(0, garbage)
  {
    hide Initialize, Pays, Ample, Least;
    fts, state := null, null;
    if tight {
      AdLawful();
      InitializeExactly<ActiveDir>(HT_INITIAL_SIZE, DEFAULT_TUNING, old(mem.answers));
      DefaultPays(HT_INITIAL_SIZE);
      var ht := HashInitialize(HT_INITIAL_SIZE, DEFAULT_TUNING, AD, mem);
      if ht == null {
        return false, null, null;
      }
      fts := new Fts(ht);
      InitialInv(AD, HT_INITIAL_SIZE, DEFAULT_TUNING, old(mem.answers));
      InvByContents(AD, Table(ht.cs, 0, ht.tuning, []), TableOf(ht, mem));
    } else {
      ok := mem.Ask();
      if !ok {
        return false, null, null;
      }
      state := new LazyCycle.CycleCheckState(garbage);
    }
    return true, fts, state;
  }
}
