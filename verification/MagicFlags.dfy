/** What the two flags of a level mean to the walk of `match` in file/softmagic.c, and when flags left
    over from an earlier group make a difference. */
module MagicFlags {
  import opened MagicWalk

  /** i and k are children of one entry, at one level, i before k. */
  predicate Sibling(es: seq<Magic>, g: nat, i: nat, k: nat)
    requires g < k < |es|
  {
    Parent(es, g, k) < i < k && es[i].level == es[k].level
  }

  lemma {:induction false} NearestBetween(es: seq<Magic>, g: nat, i: nat, k: nat, l: nat)
    requires g < k <= |es| && Nearest(es, g, k, l) < i <= k
    ensures Nearest(es, g, i, l) == Nearest(es, g, k, l)
    decreases k
  {
    if i < k {
      NearestBetween(es, g, i, k - 1, l);
    }
  }

  /** Siblings have one parent and are reached together. */
  lemma SiblingsAgree(es: seq<Magic>, os: seq<Outcome>, g: nat, start: Flags, i: nat, k: nat)
    requires |os| == |es| && g < k < |es| && Sibling(es, g, i, k)
    ensures g < i && Parent(es, g, i) == Parent(es, g, k)
    ensures TreeReached(es, os, g, start, i) <==> TreeReached(es, os, g, start, k)
  {
    NearestBetween(es, g, i, k, es[k].level);
    hide TreeFired;
  }

  /** All siblings from i up to and with k, other than i itself, are `elif` or `else`. */
  predicate OneChain(es: seq<Magic>, g: nat, i: nat, k: nat)
    requires g < k < |es|
  {
    Sibling(es, g, i, k) && Chained(es[k]) && forall j | i < j < k && Sibling(es, g, j, k) :: Chained(es[j])
  }

  lemma {:induction false} LastStays(es: seq<Magic>, os: seq<Outcome>, p: nat, l: nat, start: Flags, i: nat, k: nat)
    requires |os| == |es| && p < i < k <= |es| && es[i].level == l
    requires forall j | i < j < k && es[j].level == l :: Chained(es[j])
    requires Matches(es[i], os[i]) && !(Chained(es[i]) && Siblings(es, os, p, l, start, i).last)
    ensures Siblings(es, os, p, l, start, k).last
    decreases k
  {
    SiblingsStep(es, os, p, l, start, k - 1);
    if i < k - 1 {
      LastStays(es, os, p, l, start, i, k - 1);
    }
  }

  /** Behind an arm of a chain that was tested and matched no further arm is tested, so at most
      one arm of a chain fires. */
  lemma OneArmOfAChain(es: seq<Magic>, os: seq<Outcome>, g: nat, start: Flags, i: nat, k: nat)
    requires |os| == |es| && g < k < |es| && OneChain(es, g, i, k)
    ensures g < i
    ensures TreeTested(es, os, g, start, i) && Matches(es[i], os[i]) ==> !TreeTested(es, os, g, start, k)
    ensures !(TreeFired(es, os, g, start, i) && TreeFired(es, os, g, start, k))
  {
    SiblingsAgree(es, os, g, start, i, k);
    var p, l := Parent(es, g, k), es[k].level;
    var s := if p == g then start else CLEAN;
    if TreeTested(es, os, g, start, i) && Matches(es[i], os[i]) {
      assert forall j | i < j < k && es[j].level == l :: Sibling(es, g, j, k);
      LastStays(es, os, p, l, s, i, k);
    }
    hide Siblings, TreeReached, Matches;
  }

  /** A default that was tested and matched, but after a sibling had matched. */
  predicate Passed(m: Magic, o: Outcome, f: Flags) {
    m.kind.Default? && Matches(m, o) && !(Chained(m) && f.last) && f.got
  }

  /** Among the children of p at level l before k, entry i fired, is no default, and no default
      was passed over since. */
  predicate FiredSince(es: seq<Magic>, os: seq<Outcome>, p: nat, l: nat, start: Flags, i: nat, k: nat)
    requires |os| == |es| && p < i < k <= |es|
  {
    && es[i].level == l && !es[i].kind.Default? && Hit(es[i], os[i], Siblings(es, os, p, l, start, i))
    && forall j | i < j < k && es[j].level == l :: !Passed(es[j], os[j], Siblings(es, os, p, l, start, j))
  }

  /** Whether the flag of the first children is still in force before k: no default was passed over. */
  predicate StartLasts(es: seq<Magic>, os: seq<Outcome>, p: nat, l: nat, start: Flags, k: nat)
    requires |os| == |es| && p < k <= |es|
  {
    start.got && forall j | p < j < k && es[j].level == l :: !Passed(es[j], os[j], Siblings(es, os, p, l, start, j))
  }

  lemma {:induction false} GotMeans(es: seq<Magic>, os: seq<Outcome>, p: nat, l: nat, start: Flags, k: nat)
    requires |os| == |es| && p < k <= |es|
    ensures Siblings(es, os, p, l, start, k).got <==>
              StartLasts(es, os, p, l, start, k) || exists i :: p < i < k && FiredSince(es, os, p, l, start, i, k)
    decreases k
  {
    if k > p + 1 {
      var n := k - 1;
      GotMeans(es, os, p, l, start, n);
      SiblingsStep(es, os, p, l, start, n);
      hide Siblings, StartLasts;
      StartLastsStep(es, os, p, l, start, n);
      forall i | p < i < n ensures FiredSince(es, os, p, l, start, i, k) <==>
        FiredSince(es, os, p, l, start, i, n) &&
        !(es[n].level == l && Passed(es[n], os[n], Siblings(es, os, p, l, start, n)))
      {
      }
      assert FiredSince(es, os, p, l, start, n, k) <==>
        es[n].level == l && !es[n].kind.Default? && Hit(es[n], os[n], Siblings(es, os, p, l, start, n));
    }
  }

  lemma StartLastsStep(es: seq<Magic>, os: seq<Outcome>, p: nat, l: nat, start: Flags, n: nat)
    requires |os| == |es| && p < n < |es|
    ensures StartLasts(es, os, p, l, start, n + 1) <==>
              StartLasts(es, os, p, l, start, n) &&
              !(es[n].level == l && Passed(es[n], os[n], Siblings(es, os, p, l, start, n)))
  {
    hide Siblings, Passed;
  }

  /** The check of entry i, which was tested, failed: the chain is open again. */
  predicate Refutes(m: Magic, o: Outcome, f: Flags) {
    !(Chained(m) && f.last) && o.get.GetSomething? && o.check.CheckFails?
  }

  /** Among the children of p at level l before k, entry i was tested and matched, and none failed since. */
  predicate MatchedSince(es: seq<Magic>, os: seq<Outcome>, p: nat, l: nat, start: Flags, i: nat, k: nat)
    requires |os| == |es| && p < i < k <= |es|
  {
    var f := Siblings(es, os, p, l, start, i);
    && es[i].level == l && !(Chained(es[i]) && f.last) && Matches(es[i], os[i])
    && forall j | i < j < k && es[j].level == l :: !Refutes(es[j], os[j], Siblings(es, os, p, l, start, j))
  }

  /** The flag of the first children still holds before k. */
  predicate LastLasts(es: seq<Magic>, os: seq<Outcome>, p: nat, l: nat, start: Flags, k: nat)
    requires |os| == |es| && p < k <= |es|
  {
    start.last && forall j | p < j < k && es[j].level == l :: !Refutes(es[j], os[j], Siblings(es, os, p, l, start, j))
  }

  lemma {:induction false} LastMeans(es: seq<Magic>, os: seq<Outcome>, p: nat, l: nat, start: Flags, k: nat)
    requires |os| == |es| && p < k <= |es|
    ensures Siblings(es, os, p, l, start, k).last <==>
              LastLasts(es, os, p, l, start, k) || exists i :: p < i < k && MatchedSince(es, os, p, l, start, i, k)
    decreases k
  {
    if k > p + 1 {
      var n := k - 1;
      LastMeans(es, os, p, l, start, n);
      SiblingsStep(es, os, p, l, start, n);
      hide Siblings, LastLasts;
      LastLastsStep(es, os, p, l, start, n);
      var refuted := es[n].level == l && Refutes(es[n], os[n], Siblings(es, os, p, l, start, n));
      forall i | p < i < n
        ensures MatchedSince(es, os, p, l, start, i, k) <==> MatchedSince(es, os, p, l, start, i, n) && !refuted
      {
      }
      assert MatchedSince(es, os, p, l, start, n, k) <==>
        es[n].level == l && !(Chained(es[n]) && Siblings(es, os, p, l, start, n).last) && Matches(es[n], os[n]);
    }
  }

  lemma LastLastsStep(es: seq<Magic>, os: seq<Outcome>, p: nat, l: nat, start: Flags, n: nat)
    requires |os| == |es| && p < n < |es|
    ensures LastLasts(es, os, p, l, start, n + 1) <==>
              LastLasts(es, os, p, l, start, n) &&
              !(es[n].level == l && Refutes(es[n], os[n], Siblings(es, os, p, l, start, n)))
  {
    hide Siblings, Refutes;
  }

  /** Sibling i of k was tested and matched, and no sibling between them was tested and failed. */
  predicate TreeMatchedSince(es: seq<Magic>, os: seq<Outcome>, g: nat, start: Flags, i: nat, k: nat)
    requires |os| == |es| && g < k < |es| && Sibling(es, g, i, k)
  {
    && g < i && TreeTested(es, os, g, start, i) && Matches(es[i], os[i])
    && forall j | i < j < k && Sibling(es, g, j, k) :: g < j && !TreeRefuted(es, os, g, start, j)
  }

  predicate TreeRefuted(es: seq<Magic>, os: seq<Outcome>, g: nat, start: Flags, k: nat)
    requires |os| == |es| && g < k < |es|
  {
    TreeTested(es, os, g, start, k) && os[k].get.GetSomething? && os[k].check.CheckFails?
  }

  /** Entry k is a child of the group's first entry, the flag its siblings began with says that the last
      one matched, and none was tested and failed before k. */
  predicate StaleLast(es: seq<Magic>, os: seq<Outcome>, g: nat, start: Flags, k: nat)
    requires |os| == |es| && g < k < |es|
  {
    && Parent(es, g, k) == g && start.last
    && forall j | g < j < k && Sibling(es, g, j, k) :: !TreeRefuted(es, os, g, start, j)
  }

  /** An arm of a chain that is reached is tested exactly if no sibling before it was tested and
      matched without one tested and failed since, and no flag left over says so. */
  lemma ArmIsTested(es: seq<Magic>, os: seq<Outcome>, g: nat, start: Flags, k: nat)
    requires |os| == |es| && g < k < |es| && Chained(es[k]) && TreeReached(es, os, g, start, k)
    ensures TreeTested(es, os, g, start, k) <==>
              && !StaleLast(es, os, g, start, k)
              && !exists i :: Sibling(es, g, i, k) && TreeMatchedSince(es, os, g, start, i, k)
  {
    var p, l := Parent(es, g, k), es[k].level;
    var s := if p == g then start else CLEAN;
    LastMeans(es, os, p, l, s, k);
    forall i | p < i < k && es[i].level == l
      ensures g < i && Sibling(es, g, i, k)
      ensures TreeTested(es, os, g, start, i) <==> !(Chained(es[i]) && Siblings(es, os, p, l, s, i).last)
      ensures TreeRefuted(es, os, g, start, i) <==> Refutes(es[i], os[i], Siblings(es, os, p, l, s, i))
    {
      SiblingsAgree(es, os, g, start, i, k);
    }
    hide Siblings, TreeFired, TreeRefuted, TreeTested, Refutes, Parent, Matches, Chained;
    forall i | Sibling(es, g, i, k)
      ensures TreeMatchedSince(es, os, g, start, i, k) <==> MatchedSince(es, os, p, l, s, i, k)
    {
    }
    assert StaleLast(es, os, g, start, k) <==> LastLasts(es, os, p, l, s, k);
  }

  predicate TreePassed(es: seq<Magic>, os: seq<Outcome>, g: nat, start: Flags, k: nat)
    requires |os| == |es| && g < k < |es|
  {
    es[k].kind.Default? && TreeTested(es, os, g, start, k) && Matches(es[k], os[k]) && !TreeFired(es, os, g, start, k)
  }

  /** Sibling i of k fired, is no default, and no sibling default was passed over since. */
  predicate TreeFiredSince(es: seq<Magic>, os: seq<Outcome>, g: nat, start: Flags, i: nat, k: nat)
    requires |os| == |es| && g < k < |es| && Sibling(es, g, i, k)
  {
    && g < i && !es[i].kind.Default? && TreeFired(es, os, g, start, i)
    && forall j | i < j < k && Sibling(es, g, j, k) :: g < j && !TreePassed(es, os, g, start, j)
  }

  /** Entry k is a child of the group's first entry, the flag its siblings began with says that one
      has matched, and no sibling default before k was passed over. */
  predicate StaleGot(es: seq<Magic>, os: seq<Outcome>, g: nat, start: Flags, k: nat)
    requires |os| == |es| && g < k < |es|
  {
    && Parent(es, g, k) == g && start.got
    && forall j | g < j < k && Sibling(es, g, j, k) :: !TreePassed(es, os, g, start, j)
  }

  /** A default that is tested and matches fires exactly when no sibling that is no default
      has fired since their parent did, or since the last sibling default that was passed over, and
      the flag they began with is clear or was used up by such a default. */
  lemma DefaultFires(es: seq<Magic>, os: seq<Outcome>, g: nat, start: Flags, k: nat)
    requires |os| == |es| && g < k < |es|
    requires es[k].kind.Default? && TreeTested(es, os, g, start, k) && Matches(es[k], os[k])
    ensures TreeFired(es, os, g, start, k) <==>
              && !StaleGot(es, os, g, start, k)
              && !exists i :: Sibling(es, g, i, k) && TreeFiredSince(es, os, g, start, i, k)
  {
    var p, l := Parent(es, g, k), es[k].level;
    var s := if p == g then start else CLEAN;
    GotMeans(es, os, p, l, s, k);
    forall i | p < i < k && es[i].level == l
      ensures g < i && Sibling(es, g, i, k)
      ensures TreeFired(es, os, g, start, i) <==> Hit(es[i], os[i], Siblings(es, os, p, l, s, i))
      ensures TreePassed(es, os, g, start, i) <==> Passed(es[i], os[i], Siblings(es, os, p, l, s, i))
    {
      SiblingsAgree(es, os, g, start, i, k);
    }
    hide Siblings, TreeFired, TreePassed, Hit, Passed, Parent;
    forall i | Sibling(es, g, i, k)
      ensures TreeFiredSince(es, os, g, start, i, k) <==> FiredSince(es, os, p, l, s, i, k)
    {
    }
    assert StaleGot(es, os, g, start, k) <==> StartLasts(es, os, p, l, s, k);
  }

  // ----- The flags of the walk -----

  /** The same in the walk itself: while no nested match spoils the levels, no arm is tested behind
      one that was tested and matched. */
  lemma OneArmInWalk(es: seq<Magic>, os: seq<Outcome>, g: nat, w: Walk, i: nat, k: nat)
    requires Ready(es, os, g, w) && Regular(es, g, w) && g < k < GroupEnd(es, g)
    requires At(es, os, g, w, k).done.None? && Undisturbed(es, os, g, w, k) && OneChain(es, g, i, k)
    ensures g < i
    ensures Tested(es, os, g, w, i) && Matches(es[i], os[i]) ==> !Tested(es, os, g, w, k)
  {
    hide At, Matches, Spared, TreeTested, TreeFired;
    OneArmOfAChain(es, os, g, FlagsAt(w, 1), i, k);
    StillGoing(es, os, g, w, i, k);
    CounterIsTree(es, os, g, w, i);
    CounterIsTree(es, os, g, w, k);
  }

  /** And a default that is tested and matches fires as the tree says. */
  lemma DefaultInWalk(es: seq<Magic>, os: seq<Outcome>, g: nat, w: Walk, k: nat)
    requires Ready(es, os, g, w) && Regular(es, g, w) && g < k < GroupEnd(es, g)
    requires At(es, os, g, w, k).done.None? && Undisturbed(es, os, g, w, k)
    requires es[k].kind.Default? && Tested(es, os, g, w, k) && Matches(es[k], os[k])
    ensures Fired(es, os, g, w, k) <==>
              var start := FlagsAt(w, 1);
              && !StaleGot(es, os, g, start, k)
              && !exists i :: Sibling(es, g, i, k) && TreeFiredSince(es, os, g, start, i, k)
  {
    hide At, Matches, Spared, TreeTested, TreeFired, StaleGot, TreeFiredSince, Sibling;
    CounterIsTree(es, os, g, w, k);
    DefaultFires(es, os, g, FlagsAt(w, 1), k);
  }

  // ----- When flags left over do not matter -----

  /** No test fails with an error, which would end the walk. */
  predicate NoErrors(os: seq<Outcome>) {
    forall o | o in os :: !o.get.GetError? && !(o.get.GetSomething? && o.check.CheckError?)
  }

  predicate SameTree(es: seq<Magic>, os: seq<Outcome>, g: nat, start: Flags)
    requires |os| == |es| && g < |es|
  {
    forall k | g < k < GroupEnd(es, g) ::
      && (TreeTested(es, os, g, start, k) <==> TreeTested(es, os, g, CLEAN, k))
      && (TreeFired(es, os, g, start, k) <==> TreeFired(es, os, g, CLEAN, k))
  }

  /** A child of the group's first entry before k is negated: its test settles the flag of the chain
      whatever comes of it. */
  predicate Settled(es: seq<Magic>, g: nat, k: nat)
    requires k <= |es|
  {
    exists j | g < j < k :: es[j].level == 1 && es[j].negated
  }

  predicate Unspoiled(es: seq<Magic>, g: nat, start: Flags)
    requires g < |es|
  {
    && (start.got ==> forall k | g < k < GroupEnd(es, g) && es[k].level == 1 :: !es[k].kind.Default?)
    && (start.last ==>
          forall k | g < k < GroupEnd(es, g) && es[k].level == 1 && Chained(es[k]) :: Settled(es, g, k))
  }

  lemma FirstLevelParent(es: seq<Magic>, g: nat, k: nat)
    requires g < |es| && g < k < GroupEnd(es, g)
    ensures k < |es|
    ensures es[k].level == 1 ==> Parent(es, g, k) == g
  {
  }

  /** What the two trees make of the children of the first entry. */
  lemma {:induction false} FlagsCompared(es: seq<Magic>, os: seq<Outcome>, g: nat, start: Flags, k: nat)
    requires |os| == |es| && g < |es| && g < k <= GroupEnd(es, g) && NoErrors(os) && Unspoiled(es, g, start)
    ensures var f, c := Siblings(es, os, g, 1, start, k), Siblings(es, os, g, 1, CLEAN, k);
            && (!start.last || Settled(es, g, k) ==> f.last == c.last)
            && (!start.got ==> f.got == c.got)
    decreases k
  {
    hide NoErrors, GroupEnd;
    if k > g + 1 {
      FlagsCompared(es, os, g, start, k - 1);
      SiblingsStep(es, os, g, 1, start, k - 1);
      SiblingsStep(es, os, g, 1, CLEAN, k - 1);
      assert !(os[k - 1].get.GetError? || (os[k - 1].get.GetSomething? && os[k - 1].check.CheckError?)) by {
        ErrorFree(os, k - 1);
      }
    }
  }

  lemma ErrorFree(os: seq<Outcome>, k: nat)
    requires NoErrors(os) && k < |os|
    ensures !os[k].get.GetError? && !(os[k].get.GetSomething? && os[k].check.CheckError?)
  {
    assert os[k] in os;
  }

  lemma {:induction false} TreesCompared(es: seq<Magic>, os: seq<Outcome>, g: nat, start: Flags, k: nat)
    requires |os| == |es| && g < |es| && g < k < GroupEnd(es, g) && NoErrors(os) && Unspoiled(es, g, start)
    ensures TreeTested(es, os, g, start, k) <==> TreeTested(es, os, g, CLEAN, k)
    ensures TreeFired(es, os, g, start, k) <==> TreeFired(es, os, g, CLEAN, k)
    decreases k
  {
    hide NoErrors, Siblings, Matches;
    var p := Parent(es, g, k);
    if p > g {
      TreesCompared(es, os, g, start, p);
    } else {
      FlagsCompared(es, os, g, start, k);
    }
  }

  /** An answer that matches nothing and leaves as much as it can as it was. */
  function Quiet(m: Magic): Outcome {
    Outcome(if m.negated then GetSomething else GetNothing, Nested([], false), CheckFails, Proceeds(0), true)
  }

  function AllQuiet(es: seq<Magic>): (os: seq<Outcome>)
    ensures |os| == |es| && forall k | 0 <= k < |es| :: os[k] == Quiet(es[k])
    ensures NoErrors(os)
  {
    seq(|es|, k requires 0 <= k < |es| => Quiet(es[k]))
  }

  lemma {:induction false} QuietFlags(es: seq<Magic>, os: seq<Outcome>, g: nat, start: Flags, k: nat)
    requires |os| == |es| && g < k <= |es| && forall j | 0 <= j < k :: os[j] == Quiet(es[j])
    ensures var f := Siblings(es, os, g, 1, start, k);
            && f.got == start.got && (!start.last ==> !f.last)
            && (!Settled(es, g, k) ==> f.last == start.last)
    decreases k
  {
    if k > g + 1 {
      QuietFlags(es, os, g, start, k - 1);
      SiblingsStep(es, os, g, 1, start, k - 1);
    }
  }

  /** A default at level 1 tells a flag `got` left over from a clear one. */
  lemma GotTells(es: seq<Magic>, g: nat, start: Flags, k: nat) returns (os: seq<Outcome>)
    requires g < |es| && g < k < GroupEnd(es, g) && es[k].level == 1 && es[k].kind.Default? && start.got
    ensures |os| == |es| && NoErrors(os) && !SameTree(es, os, g, start)
  {
    os := AllQuiet(es)[k := YES];
    FirstLevelParent(es, g, k);
    QuietFlags(es, os, g, start, k);
    QuietFlags(es, os, g, CLEAN, k);
    hide GroupEnd;
    assert TreeTested(es, os, g, CLEAN, k);
    assert TreeFired(es, os, g, CLEAN, k) && !TreeFired(es, os, g, start, k);
  }

  /** An arm of a chain at level 1 tells a flag `last` left over from a clear one. */
  lemma LastTells(es: seq<Magic>, g: nat, start: Flags, k: nat) returns (os: seq<Outcome>)
    requires g < |es| && g < k < GroupEnd(es, g) && es[k].level == 1 && Chained(es[k]) && start.last
    requires !Settled(es, g, k)
    ensures |os| == |es| && NoErrors(os) && !SameTree(es, os, g, start)
  {
    os := AllQuiet(es);
    FirstLevelParent(es, g, k);
    QuietFlags(es, os, g, start, k);
    QuietFlags(es, os, g, CLEAN, k);
    hide GroupEnd;
    assert TreeTested(es, os, g, CLEAN, k) && !TreeTested(es, os, g, start, k);
  }

  /** Flags left over at level 1 make no difference, whatever the tests answer short of errors, exactly
      if a `got` meets no default there, and a `last` no arm of a chain before a negated entry. */
  lemma LeftOverFlagsExactly(es: seq<Magic>, g: nat, start: Flags)
    requires g < |es|
    ensures (forall os | |os| == |es| && NoErrors(os) :: SameTree(es, os, g, start)) <==> Unspoiled(es, g, start)
  {
    if Unspoiled(es, g, start) {
      forall os, k | |os| == |es| && NoErrors(os) && g < k < GroupEnd(es, g)
        ensures TreeTested(es, os, g, start, k) <==> TreeTested(es, os, g, CLEAN, k)
        ensures TreeFired(es, os, g, start, k) <==> TreeFired(es, os, g, CLEAN, k)
      {
        TreesCompared(es, os, g, start, k);
      }
    } else if k :| start.got && g < k < GroupEnd(es, g) && es[k].level == 1 && es[k].kind.Default? {
      var os := GotTells(es, g, start, k);
    } else {
      var k :| g < k < GroupEnd(es, g) && es[k].level == 1 && Chained(es[k]) && !Settled(es, g, k);
      var os := LastTells(es, g, start, k);
    }
  }
}
