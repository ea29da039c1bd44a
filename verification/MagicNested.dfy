/** Which lists of magic entries are walked as the tree whatever the tests answer and whatever the
    matches nested in them (softmagic.c:976 and 1009) do to the levels they share. */
module MagicNested {
  import opened MagicWalk
  import opened MagicFlags

  /** The levels rise by one from the group's first entry down to k. */
  predicate Reachable(es: seq<Magic>, g: nat, k: nat)
    requires g < k < |es|
    decreases k
  {
    var p := Parent(es, g, k);
    if p == g then es[k].level == 1 else es[k].level == es[p].level + 1 && Reachable(es, g, p)
  }

  /** An entry whose test can nest a match. */
  predicate Spoiler(es: seq<Magic>, g: nat, j: nat)
    requires g < |es| && j < |es|
  {
    g < j && Reenters(es[j]) && Reachable(es, g, j)
  }

  /** No match has been nested since level l was opened. */
  predicate Untouched(es: seq<Magic>, g: nat, k: nat, l: nat)
    requires g < k <= |es|
  {
    forall j | Nearest(es, g, k, l) < j < k :: !Spoiler(es, g, j)
  }

  /** A negated entry at level l, from j on, has settled the flag of the chain whatever came of it. */
  predicate SettledSince(es: seq<Magic>, j: nat, k: nat, l: nat)
    requires k <= |es|
  {
    exists i | j <= i < k :: es[i].level == l && es[i].negated
  }

  predicate ChainUntouched(es: seq<Magic>, g: nat, k: nat, l: nat)
    requires g < k <= |es|
  {
    forall j | Nearest(es, g, k, l) < j < k && Spoiler(es, g, j) :: SettledSince(es, j, k, l)
  }

  /** What an entry depends on cannot have been touched by a nested match: the flag `got` for a default,
      the offset for one that adds it, the flag of the chain for one of its arms. */
  predicate Sheltered(es: seq<Magic>, g: nat, k: nat)
    requires g < k < |es|
  {
    Reachable(es, g, k) ==>
      && (es[k].kind.Default? || es[k].offAdd ==> Untouched(es, g, k, es[k].level))
      && (Chained(es[k]) ==> ChainUntouched(es, g, k, es[k].level))
  }

  /** Entry k is tested, fires and is logged as in the tree. */
  predicate AsTree(es: seq<Magic>, os: seq<Outcome>, g: nat, w: Walk, k: nat)
    requires Ready(es, os, g, w) && g < k < GroupEnd(es, g)
  {
    var start, p := FlagsAt(w, 1), Parent(es, g, k);
    && (Tested(es, os, g, w, k) <==> TreeTested(es, os, g, start, k))
    && (Fired(es, os, g, w, k) <==> TreeFired(es, os, g, start, k))
    && At(es, os, g, w, k + 1).log == At(es, os, g, w, k).log +
         if TreeTested(es, os, g, start, k)
         then [Eval(k, Base(es[k], if p == g then w.li[0].off else Noted(os[p])))] else []
  }

  predicate WalkedAsTree(es: seq<Magic>, os: seq<Outcome>, g: nat, w: Walk)
    requires Ready(es, os, g, w)
  {
    forall k | g < k < GroupEnd(es, g) && At(es, os, g, w, k).done.None? :: AsTree(es, os, g, w, k)
  }

  // ----- Sheltered entries do not notice -----

  lemma {:induction false} ReachedIsReachable(es: seq<Magic>, os: seq<Outcome>, g: nat, w: Walk, k: nat)
    requires Ready(es, os, g, w) && w.level == 1 && g < k < GroupEnd(es, g)
    requires Reached(es, os, g, w, k)
    ensures Reachable(es, g, k)
    decreases k
  {
    hide At, Matches, GroupEnd;
    ReachedMeans(es, os, g, w, k);
    CounterRule(es, os, g, w, k);
    var p := Parent(es, g, k);
    if p > g {
      ReachedIsReachable(es, os, g, w, p);
    }
  }

  lemma ReachedMeans(es: seq<Magic>, os: seq<Outcome>, g: nat, w: Walk, k: nat)
    requires Ready(es, os, g, w) && g < k < GroupEnd(es, g)
    ensures Reached(es, os, g, w, k) ==> At(es, os, g, w, k).done.None?
    ensures es[k].level >= 1
  {
    hide At;
  }

  /** What has not been touched at level l is as the tree has it. */
  predicate UntouchedAgrees(es: seq<Magic>, os: seq<Outcome>, g: nat, w: Walk, k: nat, l: nat)
    requires Ready(es, os, g, w) && g < k <= GroupEnd(es, g) && l >= 1
  {
    var v := At(es, os, g, w, k);
    v.done.None? && l <= v.level ==>
      var f, t := FlagsAt(v, l), TreeFlags(es, os, g, w, k, l);
      && (Untouched(es, g, k, l) ==> f.got == t.got && v.li[l - 1].off == TreeOff(es, os, g, w, k, l))
      && (ChainUntouched(es, g, k, l) ==> f.last == t.last)
  }

  /** How the ranges grow by entry n, at level l or above. */
  lemma TouchedStep(es: seq<Magic>, g: nat, n: nat, l: nat)
    requires g < n < |es| && es[n].level >= l
    ensures Untouched(es, g, n + 1, l) ==> Untouched(es, g, n, l) && !Spoiler(es, g, n)
    ensures Untouched(es, g, n, l) ==> ChainUntouched(es, g, n, l)
    ensures ChainUntouched(es, g, n + 1, l) && !(es[n].level == l && es[n].negated) ==>
              ChainUntouched(es, g, n, l) && !Spoiler(es, g, n)
  {
    hide Spoiler, Nearest;
    NearestStep(es, g, n + 1, l);
    if ChainUntouched(es, g, n + 1, l) && !(es[n].level == l && es[n].negated) {
      forall j | Nearest(es, g, n, l) < j < n && Spoiler(es, g, j)
        ensures SettledSince(es, j, n, l)
      {
        assert SettledSince(es, j, n + 1, l);
      }
      assert !SettledSince(es, n, n + 1, l);
    }
  }

  /** A negated entry settles the flag; of any other the new flag depends on the old one only. */
  lemma SettleLast(m: Magic, o: Outcome, f: Flags, t: Flags)
    requires !o.get.GetError? && !(o.get.GetSomething? && o.check.CheckError?)
    requires m.negated || f.last == t.last
    ensures Settle(m, o, f).last == Settle(m, o, t).last
  {
  }

  lemma PlainLevels(m: Magic, o: Outcome, li: seq<Level>)
    ensures !Reenters(m) ==> Levels(m, o, li) == li
  {
  }

  lemma TestedWithoutError(es: seq<Magic>, os: seq<Outcome>, g: nat, w: Walk, n: nat)
    requires Ready(es, os, g, w) && g < n < GroupEnd(es, g) && Tested(es, os, g, w, n)
    requires At(es, os, g, w, n + 1).done.None?
    ensures !os[n].get.GetError? && !(os[n].get.GetSomething? && os[n].check.CheckError?)
  {
    hide Fire;
  }

  lemma {:induction false} LevelUntouched(es: seq<Magic>, os: seq<Outcome>, g: nat, w: Walk, k: nat, l: nat)
    requires Ready(es, os, g, w) && w.level == 1 && g < k <= GroupEnd(es, g) && l >= 1
    requires forall n | g < n < k :: Sheltered(es, g, n)
    ensures UntouchedAgrees(es, os, g, w, k, l)
    decreases k
  {
    hide Cont, GroupEnd, Chained, Matches, Noted, SiblingStep, Levels, Sheltered;
    if k == g + 1 || At(es, os, g, w, k).done.Some? || l > At(es, os, g, w, k).level {
      return;
    }
    hide At, Nearest, FlagsAt, TreeFlags, TreeOff, Untouched, ChainUntouched;
    StillGoing(es, os, g, w, k - 1, k);
    TreeStep(es, os, g, w, k - 1, l);
    NextState(es, os, g, w, k - 1, l);
    if es[k - 1].level >= l {
      LevelUntouched(es, os, g, w, k - 1, l);
      UntouchedStep(es, os, g, w, k - 1, l);
    }
  }

  lemma UntouchedStep(es: seq<Magic>, os: seq<Outcome>, g: nat, w: Walk, n: nat, l: nat)
    requires Ready(es, os, g, w) && w.level == 1 && g < n < GroupEnd(es, g) && 1 <= l <= es[n].level
    requires Sheltered(es, g, n) && UntouchedAgrees(es, os, g, w, n, l)
    ensures UntouchedAgrees(es, os, g, w, n + 1, l)
  {
    hide At, Nearest, GroupEnd, TreeFlags, TreeOff, Untouched, ChainUntouched, Settle, Levels, Reachable;
    var v, r, m, o := At(es, os, g, w, n), At(es, os, g, w, n + 1), es[n], os[n];
    if r.done.Some? || l > r.level {
      return;
    }
    StillGoing(es, os, g, w, n, n + 1);
    TreeStep(es, os, g, w, n, l);
    NextState(es, os, g, w, n, l);
    TouchedStep(es, g, n, l);
    if Reached(es, os, g, w, n) {
      ReachedIsReachable(es, os, g, w, n);
    }
    if Tested(es, os, g, w, n) {
      TestedWithoutError(es, os, g, w, n);
      PlainLevels(m, o, v.li);
      if m.level == l && (m.negated || ChainUntouched(es, g, n + 1, l)) {
        SettleLast(m, o, FlagsIn(Levels(m, o, v.li), l), TreeFlags(es, os, g, w, n, l));
      }
    }
  }

  /** An entry is dealt with as in the tree if it and all entries before it are sheltered. */
  lemma {:induction false} ShelteredIsTree(es: seq<Magic>, os: seq<Outcome>, g: nat, w: Walk, k: nat)
    requires Ready(es, os, g, w) && w.level == 1 && g < k < GroupEnd(es, g) && At(es, os, g, w, k).done.None?
    requires forall n | g < n <= k :: Sheltered(es, g, n)
    ensures AsTree(es, os, g, w, k)
    decreases k
  {
    hide At, Siblings, Matches, GroupEnd, Untouched, ChainUntouched, Cont, Levels, Settle, Noted;
    var p, l := Parent(es, g, k), es[k].level;
    CounterRule(es, os, g, w, k);
    ContEffect(es, os, g, w, k);
    if p > g {
      StillGoing(es, os, g, w, p, k);
      ShelteredIsTree(es, os, g, w, p);
    }
    assert Reached(es, os, g, w, k) <==> TreeReached(es, os, g, FlagsAt(w, 1), k);
    if Reached(es, os, g, w, k) {
      assert Sheltered(es, g, k);
      ReachedIsReachable(es, os, g, w, k);
      LevelUntouched(es, os, g, w, k, l);
      assert TreeFlags(es, os, g, w, k, l) == FlagsOf(es, os, g, FlagsAt(w, 1), k);
    }
    assert Tested(es, os, g, w, k) <==> TreeTested(es, os, g, FlagsAt(w, 1), k);
    assert Fired(es, os, g, w, k) <==> TreeFired(es, os, g, FlagsAt(w, 1), k);
    assert At(es, os, g, w, k).log + [] == At(es, os, g, w, k).log;
  }

  // ----- An entry that is not sheltered can be misled -----

  /** The answers but for what nested matches do. */
  predicate Alike(os: seq<Outcome>, os': seq<Outcome>) {
    |os| == |os'| &&
    forall i | 0 <= i < |os| :: os[i].(nested := Nested([], false)) == os'[i].(nested := Nested([], false))
  }

  lemma {:induction false} AlikeSiblings(es: seq<Magic>, os: seq<Outcome>, os': seq<Outcome>,
      p: nat, l: nat, start: Flags, k: nat)
    requires |os| == |es| && Alike(os, os') && p < k <= |es|
    ensures Siblings(es, os, p, l, start, k) == Siblings(es, os', p, l, start, k)
    decreases k
  {
    if k > p + 1 {
      AlikeSiblings(es, os, os', p, l, start, k - 1);
      assert os[k - 1].(nested := Nested([], false)) == os'[k - 1].(nested := Nested([], false));
    }
  }

  /** The tree does not depend on nested matches. */
  lemma {:induction false} AlikeTrees(es: seq<Magic>, os: seq<Outcome>, os': seq<Outcome>, g: nat, start: Flags, k: nat)
    requires |os| == |es| && Alike(os, os') && g < k < |es|
    ensures TreeTested(es, os, g, start, k) <==> TreeTested(es, os', g, start, k)
    ensures TreeFired(es, os, g, start, k) <==> TreeFired(es, os', g, start, k)
    decreases k
  {
    hide Siblings;
    var p, l := Parent(es, g, k), es[k].level;
    AlikeSiblings(es, os, os', p, l, if p == g then start else CLEAN, k);
    assert os[k].(nested := Nested([], false)) == os'[k].(nested := Nested([], false));
    if p > g {
      AlikeTrees(es, os, os', g, start, p);
    }
  }

  /** Entry i controls j, or controls one that does. */
  predicate Above(es: seq<Magic>, i: nat, j: nat)
    requires j < |es|
  {
    i < j && forall n | i < n <= j :: es[n].level > es[i].level
  }

  /** The entries above j and entry k match, j nests a match that leaves x at every level up to that
      of k, and nothing else happens. */
  function Plan(es: seq<Magic>, j: nat, k: nat, x: Level): (os: seq<Outcome>)
    requires j < k < |es|
    ensures |os| == |es|
  {
    seq(|es|, i requires 0 <= i < |es| =>
      if i == j then Quiet(es[j]).(nested := Nested(seq(es[k].level + 1, _ => x), false))
      else if i == k || Above(es, i, j) then YES
      else Quiet(es[i]))
  }

  lemma PlansAlike(es: seq<Magic>, j: nat, k: nat, x: Level, y: Level)
    requires j < k < |es|
    ensures Alike(Plan(es, j, k, x), Plan(es, j, k, y))
  {
  }

  predicate Smooth(o: Outcome) {
    !o.get.GetError? && !(o.get.GetSomething? && o.check.CheckError?) && o.after.Proceeds? && o.memory
  }

  lemma SmoothStep(m: Magic, o: Outcome, w: Walk, k: nat)
    requires Ok(w) && m.level >= 1 && Smooth(o) && w.done.None?
    ensures Cont(m, o, w, k).done.None?
  {
    hide Levels;
  }

  lemma {:induction false} GoesOn(es: seq<Magic>, os: seq<Outcome>, g: nat, w: Walk, k: nat)
    requires Ready(es, os, g, w) && g < k <= GroupEnd(es, g) && forall i | g < i < k :: Smooth(os[i])
    ensures At(es, os, g, w, k).done.None?
    decreases k
  {
    hide Cont, Smooth;
    if k > g + 1 {
      GoesOn(es, os, g, w, k - 1);
      SmoothStep(es[k - 1], os[k - 1], At(es, os, g, w, k - 1), k - 1);
    }
  }

  /** Quiet siblings leave the flags clean. */
  lemma {:induction false} QuietSiblings(es: seq<Magic>, os: seq<Outcome>, p: nat, l: nat, k: nat)
    requires |os| == |es| && p < k <= |es| && forall i | p < i < k && es[i].level == l :: os[i] == Quiet(es[i])
    ensures Siblings(es, os, p, l, CLEAN, k) == CLEAN
    decreases k
  {
    if k > p + 1 {
      QuietSiblings(es, os, p, l, k - 1);
    }
  }

  /** On the way to j everything above it is tested, finding its flags clean. */
  lemma {:induction false} TreeDownTo(es: seq<Magic>, g: nat, j: nat, k: nat, x: Level, a: nat)
    requires g < a <= j < k < |es| && (a == j || Above(es, a, j)) && Reachable(es, g, a)
    ensures var os := Plan(es, j, k, x);
            TreeTested(es, os, g, CLEAN, a) && (a < j ==> TreeFired(es, os, g, CLEAN, a))
    decreases a
  {
    hide Siblings;
    var os := Plan(es, j, k, x);
    var p := Parent(es, g, a);
    forall i | p < i < a && es[i].level == es[a].level ensures os[i] == Quiet(es[i]) {
      assert !Above(es, i, j);
    }
    QuietSiblings(es, os, p, es[a].level, a);
    if p > g {
      assert Above(es, p, j);
      TreeDownTo(es, g, j, k, x, p);
    }
  }

  /** The state in which the continuations of the first group that matches begin. */
  predicate CleanStart(es: seq<Magic>, g: nat, w: Walk) {
    g < |es| && w.done.None? && Ok(w) && w.level == 1 && FlagsAt(w, 1) == CLEAN
  }

  lemma PlanIsSmooth(es: seq<Magic>, j: nat, k: nat, x: Level)
    requires j < k < |es|
    ensures forall i | 0 <= i < |es| :: Smooth(Plan(es, j, k, x)[i])
    ensures forall i | 0 <= i < |es| && i != j && i != k && !Above(es, i, j) :: Plan(es, j, k, x)[i] == Quiet(es[i])
  {
  }

  lemma NothingNested(m: Magic, o: Outcome, li: seq<Level>)
    requires o.nested.li == []
    ensures Levels(m, o, li) == li
  {
  }

  /** So j is tested. */
  lemma WalkDownTo(es: seq<Magic>, g: nat, w: Walk, j: nat, k: nat, x: Level)
    requires CleanStart(es, g, w) && g < j < k < GroupEnd(es, g) && Reachable(es, g, j)
    ensures var os := Plan(es, j, k, x);
            Tested(es, os, g, w, j) && At(es, os, g, w, j + 1).done.None?
  {
    hide At, Smooth, TreeTested, TreeFired, Reachable, GroupEnd;
    var os := Plan(es, j, k, x);
    PlanIsSmooth(es, j, k, x);
    GoesOn(es, os, g, w, j);
    GoesOn(es, os, g, w, j + 1);
    forall i | g < i < j ensures Spared(es, os, g, w, i) {
      NothingNested(es[i], os[i], At(es, os, g, w, i).li);
    }
    TreeDownTo(es, g, j, k, x, j);
    CounterIsTree(es, os, g, w, j);
  }

  /** Between j and k the level that k stands at stays open, and as the nested match left it. */
  predicate Left(es: seq<Magic>, g: nat, w: Walk, j: nat, k: nat, x: Level, n: nat)
    requires CleanStart(es, g, w) && g < j < n <= k < GroupEnd(es, g) && es[k].level >= 1
  {
    var v, l := At(es, Plan(es, j, k, x), g, w, n), es[k].level;
    && v.done.None? && l <= v.level
    && v.li[l].got == x.got && v.li[l - 1].off == x.off
    && (!x.last ==> !v.li[l].last)
    && (x.last && !SettledSince(es, j, n, l) ==> v.li[l].last)
  }

  lemma LeftByNested(es: seq<Magic>, g: nat, w: Walk, j: nat, k: nat, x: Level)
    requires CleanStart(es, g, w) && g < j < k < GroupEnd(es, g) && es[k].level >= 1
    requires Spoiler(es, g, j) && es[k].level <= es[j].level
    ensures Left(es, g, w, j, k, x, j + 1)
  {
    hide At, Above, Reachable, GroupEnd;
    var os, l := Plan(es, j, k, x), es[k].level;
    WalkDownTo(es, g, w, j, k, x);
    StillGoing(es, os, g, w, j, j + 1);
    NextLevel(es, os, g, w, j);
    NextState(es, os, g, w, j, l);
    var li := Levels(es[j], os[j], At(es, os, g, w, j).li);
    assert li[l] == x && li[l - 1] == x;
    assert es[j].level == l && es[j].negated ==> SettledSince(es, j, j + 1, l);
  }

  lemma LeftAlone(es: seq<Magic>, g: nat, w: Walk, j: nat, k: nat, x: Level, n: nat)
    requires CleanStart(es, g, w) && g < j < n < k < GroupEnd(es, g) && es[k].level >= 1
    requires es[n].level >= es[k].level && !Above(es, n, j) && Left(es, g, w, j, k, x, n)
    ensures Left(es, g, w, j, k, x, n + 1)
  {
    hide At, Above, GroupEnd;
    var os, l := Plan(es, j, k, x), es[k].level;
    PlanIsSmooth(es, j, k, x);
    GoesOn(es, os, g, w, n + 1);
    NextLevel(es, os, g, w, n);
    NextState(es, os, g, w, n, l);
    NothingNested(es[n], os[n], At(es, os, g, w, n).li);
    assert es[n].level == l && es[n].negated ==> SettledSince(es, j, n + 1, l);
  }

  lemma {:induction false} LeftUntil(es: seq<Magic>, g: nat, w: Walk, j: nat, k: nat, x: Level, n: nat)
    requires CleanStart(es, g, w) && g < j < n <= k < GroupEnd(es, g) && es[k].level >= 1
    requires Spoiler(es, g, j) && Parent(es, g, k) < j
    ensures Left(es, g, w, j, k, x, n)
    decreases n
  {
    hide Left, Spoiler, Nearest, Above;
    if n == j + 1 {
      LeftByNested(es, g, w, j, k, x);
    } else {
      LeftUntil(es, g, w, j, k, x, n - 1);
      NotAbove(es, n - 1, j);
      LeftAlone(es, g, w, j, k, x, n - 1);
    }
  }

  lemma NotAbove(es: seq<Magic>, i: nat, j: nat)
    requires j < |es| && i >= j
    ensures !Above(es, i, j)
  {
  }

  /** What entry k then makes of it. */
  lemma MisledAt(es: seq<Magic>, g: nat, w: Walk, j: nat, k: nat, x: Level)
    requires CleanStart(es, g, w) && g < j < k < GroupEnd(es, g) && es[k].level >= 1
    requires Spoiler(es, g, j) && Parent(es, g, k) < j
    ensures var os := Plan(es, j, k, x);
            && At(es, os, g, w, k).done.None?
            && (!x.last ==>
                  && Tested(es, os, g, w, k)
                  && (Fired(es, os, g, w, k) <==> !(es[k].kind.Default? && x.got))
                  && At(es, os, g, w, k + 1).log == At(es, os, g, w, k).log + [Eval(k, Base(es[k], x.off))])
            && (x.last && Chained(es[k]) && !SettledSince(es, j, k, es[k].level) ==> !Tested(es, os, g, w, k))
  {
    hide At, Spoiler, Nearest;
    LeftUntil(es, g, w, j, k, x, k);
    ContEffect(es, Plan(es, j, k, x), g, w, k);
  }

  /** Of two nested matches that leave different things at least one makes the walk leave the tree. */
  lemma TwoPlans(es: seq<Magic>, g: nat, w: Walk, j: nat, k: nat, x: Level, y: Level) returns (os: seq<Outcome>)
    requires CleanStart(es, g, w) && g < j < k < GroupEnd(es, g) && es[k].level >= 1
    requires Spoiler(es, g, j) && Parent(es, g, k) < j && !x.last
    requires (es[k].kind.Default? && !y.last && x.got != y.got) ||
             (es[k].offAdd && !y.last && x.off != y.off) ||
             (Chained(es[k]) && y.last && !SettledSince(es, j, k, es[k].level))
    ensures |os| == |es| && !WalkedAsTree(es, os, g, w)
  {
    hide At, Spoiler, Nearest, Tested, Fired, TreeTested, TreeFired, SettledSince, Plan;
    var os1, os2 := Plan(es, j, k, x), Plan(es, j, k, y);
    MisledAt(es, g, w, j, k, x);
    MisledAt(es, g, w, j, k, y);
    PlansAlike(es, j, k, x, y);
    AlikeTrees(es, os1, os2, g, FlagsAt(w, 1), k);
    SameNoted(os1, os2);
    LoggedAsTree(es, os1, g, w, k, Base(es[k], x.off));
    LoggedAsTree(es, os2, g, w, k, Base(es[k], y.off));
    if AsTree(es, os1, g, w, k) {
      assert !AsTree(es, os2, g, w, k);
      os := os2;
    } else {
      os := os1;
    }
  }

  lemma LoggedAsTree(es: seq<Magic>, os: seq<Outcome>, g: nat, w: Walk, k: nat, b: int)
    requires Ready(es, os, g, w) && g < k < GroupEnd(es, g)
    ensures var p, log := Parent(es, g, k), At(es, os, g, w, k).log;
            AsTree(es, os, g, w, k) && Tested(es, os, g, w, k) && At(es, os, g, w, k + 1).log == log + [Eval(k, b)] ==>
              b == Base(es[k], if p == g then w.li[0].off else Noted(os[p]))
  {
    hide At, Tested, Fired, TreeTested, TreeFired, Base;
    var p, log := Parent(es, g, k), At(es, os, g, w, k).log;
    var c := Base(es[k], if p == g then w.li[0].off else Noted(os[p]));
    assert (log + [Eval(k, b)])[|log|] == Eval(k, b) && (log + [Eval(k, c)])[|log|] == Eval(k, c);
  }

  lemma SameNoted(os: seq<Outcome>, os': seq<Outcome>)
    requires Alike(os, os')
    ensures forall i | 0 <= i < |os| :: Noted(os[i]) == Noted(os'[i])
  {
    forall i | 0 <= i < |os| ensures Noted(os[i]) == Noted(os'[i]) {
      assert os[i].(nested := Nested([], false)) == os'[i].(nested := Nested([], false));
    }
  }

  /** A group no match has come before is walked as the tree, whatever its tests answer and whatever
      nested matches leave behind, exactly if what each of its entries depends on can not have been
      touched by one: there is no FILE_USE or FILE_INDIRECT entry between the controlling entry and a
      default or an entry that adds the offset, nor one between it and an arm of a chain that is not
      settled since. */
  lemma NestedMatchesExactly(es: seq<Magic>, g: nat, w: Walk)
    requires CleanStart(es, g, w)
    ensures (forall os | |os| == |es| :: WalkedAsTree(es, os, g, w)) <==>
              forall k | g < k < GroupEnd(es, g) :: Sheltered(es, g, k)
  {
    hide At, AsTree, GroupEnd, Nearest, Spoiler, SettledSince;
    if k :| g < k < GroupEnd(es, g) && !Sheltered(es, g, k) {
      var x, l := Level(false, false, 0), es[k].level;
      ReachedMeans(es, Plan(es, g, k, x), g, w, k);
      if (es[k].kind.Default? || es[k].offAdd) && !Untouched(es, g, k, l) {
        var j :| Nearest(es, g, k, l) < j < k && Spoiler(es, g, j);
        var os := TwoPlans(es, g, w, j, k, x, if es[k].kind.Default? then x.(got := true) else x.(off := 1));
      } else {
        var j :| Nearest(es, g, k, l) < j < k && Spoiler(es, g, j) && !SettledSince(es, j, k, l);
        var os := TwoPlans(es, g, w, j, k, x, x.(last := true));
      }
    } else {
      forall os, k | |os| == |es| && g < k < GroupEnd(es, g) && At(es, os, g, w, k).done.None?
        ensures AsTree(es, os, g, w, k)
      {
        ShelteredIsTree(es, os, g, w, k);
      }
    }
  }
}
