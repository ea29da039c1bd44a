/** What `match` of file/softmagic.c answers: -1, the code of an annotation, or *returnval. */
module MagicResult {
  import opened Wrappers
  import opened MagicWalk
  import opened MagicMatch

  /** A test answered -1. */
  predicate Errs(o: Outcome) {
    o.get.GetError? || (o.get.GetSomething? && o.check.CheckError?)
  }

  /** An entry that fired has an annotation to end the walk with. */
  predicate Annotates(o: Outcome, fired: bool) {
    fired && o.after.Annotated? && o.after.code != 0
  }

  /** What one test ends the walk with, if anything, whatever the levels are. */
  function Stop(o: Outcome, fired: bool): Option<int> {
    if Errs(o) then Some(-1)
    else if Annotates(o, fired) then Some(o.after.code)
    else if fired && o.after.OutputFails? then Some(-1)
    else None
  }

  /** The same when r is what the test left: there may be no room for the level of continuations. */
  function Ending(o: Outcome, fired: bool, r: Walk): Option<int> {
    if Stop(o, fired).Some? then Stop(o, fired)
    else if fired && !o.memory && r.level >= |r.li| then Some(-1)
    else None
  }

  /** Entry k of the group of g is tested, or fires, the group being come to in state w. */
  predicate TestedIn(es: seq<Magic>, os: seq<Outcome>, g: nat, w: Walk, k: nat)
    requires |os| == |es| && g < |es| && k < GroupEnd(es, g) && Ok(w)
  {
    g <= k && !es[g].excluded &&
    (k > g ==> Entered(es, os, g, w) && Tested(es, os, g, Head(es[g], os[g], w, g), k))
  }

  predicate FiredIn(es: seq<Magic>, os: seq<Outcome>, g: nat, w: Walk, k: nat)
    requires |os| == |es| && g < |es| && k < GroupEnd(es, g) && Ok(w)
  {
    TestedIn(es, os, g, w, k) &&
    if k == g then Matches(es[g], os[g]) else Fired(es, os, g, Head(es[g], os[g], w, g), k)
  }

  /** The same for the walk over all groups from g on. */
  predicate TestedFrom(es: seq<Magic>, os: seq<Outcome>, opt: Options, g: nat, w: Walk, k: nat)
    requires |os| == |es| && g <= |es| && (w.done.None? ==> Ok(w))
    decreases |es| - g
  {
    g < |es| && w.done.None? &&
    if k < GroupEnd(es, g) then TestedIn(es, os, g, w, k)
    else TestedFrom(es, os, opt, GroupEnd(es, g), Group(es, os, opt, g, w), k)
  }

  predicate FiredFrom(es: seq<Magic>, os: seq<Outcome>, opt: Options, g: nat, w: Walk, k: nat)
    requires |os| == |es| && g <= |es| && (w.done.None? ==> Ok(w))
    decreases |es| - g
  {
    g < |es| && w.done.None? &&
    if k < GroupEnd(es, g) then FiredIn(es, os, g, w, k)
    else FiredFrom(es, os, opt, GroupEnd(es, g), Group(es, os, opt, g, w), k)
  }

  // ----- One test -----

  lemma FireEnds(m: Magic, o: Outcome, w: Walk)
    requires Ok(w) && w.done.None? && !Errs(o)
    ensures var r := Fire(m, o, w);
            r.done == Ending(o, true, r) && (Annotates(o, true) ==> r.val == 1)
  {
  }

  lemma TestEnds(m: Magic, o: Outcome, w: Walk)
    requires Ok(w) && w.done.None? && !(Chained(m) && FlagsAt(w, w.level).last)
    ensures var r, f := Test(m, o, w), FlagsAt(w, w.level);
            r.done == Ending(o, Hit(m, o, f), r) && (Annotates(o, Hit(m, o, f)) ==> r.val == 1)
  {
    hide Fire;
    var u := Mget(m, o, w);
    var v := if o.get.GetSomething? && m.kind.Indirect? then u.(val := 1) else u;
    var l := v.li[v.level];
    if Matches(m, o) {
      FireEnds(m, o, v.(li := v.li[v.level := l.(got := l.got || !m.kind.Default?, last := true)]));
    }
  }

  lemma ContEnds(m: Magic, o: Outcome, w: Walk, k: nat)
    requires Ok(w) && m.level >= 1 && w.done.None?
    ensures var r := Cont(m, o, w, k);
            if m.level > w.level || (Chained(m) && FlagsAt(w, m.level).last) then r.done.None?
            else
              var fired := Hit(m, o, FlagsAt(w, m.level));
              r.done == Ending(o, fired, r) && (Annotates(o, fired) ==> r.val == 1)
  {
    hide Ending, Matches, Test, Annotates, Hit, Base;
    if m.level <= w.level && !(Chained(m) && w.li[m.level].last) {
      var base := if m.offAdd then w.li[m.level - 1].off else 0;
      TestEnds(m, o, w.(level := m.level, log := w.log + [Eval(k, m.offset + base)]));
    }
  }

  lemma HeadEnds(m: Magic, o: Outcome, w: Walk, g: nat)
    requires Ok(w) && w.done.None?
    ensures var r := Head(m, o, w, g);
            && r.done == Ending(o, Matches(m, o), r) && (Annotates(o, Matches(m, o)) ==> r.val == 1)
            && (r.done.None? ==> r.val == if Sets(m, o) then 1 else w.val)
            && (r.done.None? ==> r.printed == (w.printed || (Matches(m, o) && m.hasDesc)))
  {
    hide Fire;
    var u := Mget(m, o, w.(log := w.log + [Eval(g, m.offset)]));
    if Matches(m, o) {
      FireEnds(m, o, if o.get.GetSomething? && m.kind.Indirect? then u.(val := 1) else u);
      HeadOutput(m, o, w, g);
    }
  }

  // ----- One group -----

  /** Test i of the group is the last, and ends the walk in state r. */
  predicate EndsAt(es: seq<Magic>, os: seq<Outcome>, g: nat, w: Walk, r: Walk, i: nat)
    requires |os| == |es| && g < |es| && i < GroupEnd(es, g) && Ok(w)
  {
    && TestedIn(es, os, g, w, i) && (forall j | i < j < GroupEnd(es, g) :: !TestedIn(es, os, g, w, j))
    && r.done.Some? && r.done == Ending(os[i], FiredIn(es, os, g, w, i), r)
    && (Annotates(os[i], FiredIn(es, os, g, w, i)) ==> r.val == 1)
  }

  /** What the test of continuation k ends the walk with. */
  lemma TestedEnds(es: seq<Magic>, os: seq<Outcome>, g: nat, w: Walk, k: nat)
    requires Ready(es, os, g, w) && g < k < GroupEnd(es, g) && At(es, os, g, w, k).done.None?
    ensures var r, fired := At(es, os, g, w, k + 1), Fired(es, os, g, w, k);
            if !Tested(es, os, g, w, k) then r.done.None?
            else r.done == Ending(os[k], fired, r) && (Annotates(os[k], fired) ==> r.val == 1)
  {
    hide At, Cont, Hit, Matches, Settle, Levels, Ending, Annotates, Base;
    ContEffect(es, os, g, w, k);
    ContEnds(es[k], os[k], At(es, os, g, w, k), k);
  }

  lemma NothingBehindTheEnd(es: seq<Magic>, os: seq<Outcome>, g: nat, w: Walk, i: nat)
    requires Ready(es, os, g, w) && g < i < GroupEnd(es, g) && At(es, os, g, w, i + 1).done.Some?
    ensures At(es, os, g, w, GroupEnd(es, g)) == At(es, os, g, w, i + 1)
    ensures forall j | i < j < GroupEnd(es, g) :: !Tested(es, os, g, w, j)
  {
    hide At;
    AtStays(es, os, g, w, i + 1, GroupEnd(es, g));
    forall j | i < j < GroupEnd(es, g) ensures !Tested(es, os, g, w, j) {
      AtStays(es, os, g, w, i + 1, j);
    }
  }

  /** The continuation before k that ended the walk. */
  lemma {:induction false} EndedBy(es: seq<Magic>, os: seq<Outcome>, g: nat, w: Walk, k: nat) returns (i: nat)
    requires Ready(es, os, g, w) && g < k <= GroupEnd(es, g) && At(es, os, g, w, k).done.Some?
    ensures g < i < k && Tested(es, os, g, w, i)
    ensures At(es, os, g, w, i).done.None? && At(es, os, g, w, i + 1).done.Some?
    decreases k
  {
    hide Cont, Tested;
    AtStart(es, os, g, w);
    if At(es, os, g, w, k - 1).done.Some? {
      i := EndedBy(es, os, g, w, k - 1);
    } else {
      i := k - 1;
      TestedEnds(es, os, g, w, i);
    }
  }

  lemma GroupStops(es: seq<Magic>, os: seq<Outcome>, g: nat, w: Walk) returns (i: nat)
    requires |os| == |es| && g < |es| && Ok(w) && w.done.None? && Entered(es, os, g, w)
    requires At(es, os, g, Head(es[g], os[g], w, g), GroupEnd(es, g)).done.Some?
    ensures g < i < GroupEnd(es, g)
    ensures EndsAt(es, os, g, w, At(es, os, g, Head(es[g], os[g], w, g), GroupEnd(es, g)), i)
  {
    hide At, Head, Matches, Tested, Fired, Ending, Annotates;
    HeadEffect(es[g], os[g], w, g);
    var v, e := Head(es[g], os[g], w, g), GroupEnd(es, g);
    i := EndedBy(es, os, g, v, e);
    TestedEnds(es, os, g, v, i);
    NothingBehindTheEnd(es, os, g, v, i);
  }

  /** No test so far has ended the walk, and *returnval tells whether one set it or something was
      printed. */
  lemma GroupGoesThrough(es: seq<Magic>, os: seq<Outcome>, g: nat, w: Walk, k: nat)
    requires |os| == |es| && g < k < |es| && k < GroupEnd(es, g) && Ok(w) && w.done.None? && Entered(es, os, g, w)
    requires At(es, os, g, Head(es[g], os[g], w, g), GroupEnd(es, g)).done.None?
    ensures TestedIn(es, os, g, w, k) ==> Stop(os[k], FiredIn(es, os, g, w, k)) == None
  {
    hide At, Head, Matches, Tested, Fired, Annotates;
    HeadEffect(es[g], os[g], w, g);
    var v := Head(es[g], os[g], w, g);
    StillGoing(es, os, g, v, k + 1, GroupEnd(es, g));
    StillGoing(es, os, g, v, k, GroupEnd(es, g));
    TestedEnds(es, os, g, v, k);
  }

  /** An entry tested in the group sets *returnval, or one that fired has something printed that does. */
  predicate TellsIn(es: seq<Magic>, os: seq<Outcome>, opt: Options, g: nat, w: Walk)
    requires |os| == |es| && g < |es| && Ok(w)
  {
    exists k | 0 <= k < GroupEnd(es, g) ::
      (TestedIn(es, os, g, w, k) && Sets(es[k], os[k])) ||
      (FiredIn(es, os, g, w, k) && es[k].hasDesc && opt.prints)
  }

  lemma GroupTells(es: seq<Magic>, os: seq<Outcome>, opt: Options, g: nat, w: Walk)
    requires |os| == |es| && g < |es| && Ok(w) && w.done.None? && Entered(es, os, g, w)
    requires At(es, os, g, Head(es[g], os[g], w, g), GroupEnd(es, g)).done.None?
    requires w.printed && opt.prints ==> w.val == 1
    ensures var r := Group(es, os, opt, g, w);
            && r.val == (if TellsIn(es, os, opt, g, w) then 1 else w.val)
            && (r.printed && opt.prints ==> r.val == 1)
            && (r.done.Some? ==> r.done == Some(r.val))
            && Ok(r)
  {
    hide At, Head, Matches, Tested, Fired, Sets;
    GroupEndsWalk(es, os, opt, g, w);
    var v, e := Head(es[g], os[g], w, g), GroupEnd(es, g);
    forall j | g < j < e
      ensures Redirects(es, os, g, v, j) <==> TestedIn(es, os, g, w, j) && Sets(es[j], os[j])
      ensures Describes(es, os, g, v, j) <==> FiredIn(es, os, g, w, j) && es[j].hasDesc
    {
      FiredIsTested(es, os, g, v, j);
    }
    assert TestedIn(es, os, g, w, g) && FiredIn(es, os, g, w, g);
  }

  lemma FiredIsTested(es: seq<Magic>, os: seq<Outcome>, g: nat, w: Walk, k: nat)
    requires |os| == |es| && g < |es| && g < k < GroupEnd(es, g) && (w.done.None? ==> Ok(w))
    ensures Fired(es, os, g, w, k) ==> Tested(es, os, g, w, k)
  {
    hide At;
  }

  /** The tests of a group, if there are any, either end the walk, or leave it to the list and to what
      has been printed whether it goes on. */
  predicate GroupEnds(es: seq<Magic>, os: seq<Outcome>, g: nat, w: Walk, r: Walk)
    requires |os| == |es| && g < |es| && Ok(w)
  {
    exists i | 0 <= i < GroupEnd(es, g) :: EndsAt(es, os, g, w, r, i)
  }

  predicate GroupPasses(es: seq<Magic>, os: seq<Outcome>, opt: Options, g: nat, w: Walk, r: Walk)
    requires |os| == |es| && g < |es| && Ok(w)
  {
    && Ok(r) && (r.done.Some? ==> r.done == Some(r.val))
    && (forall k | 0 <= k < GroupEnd(es, g) && TestedIn(es, os, g, w, k) ::
          Stop(os[k], FiredIn(es, os, g, w, k)) == None)
    && r.val == (if TellsIn(es, os, opt, g, w) then 1 else w.val)
    && (r.printed && opt.prints ==> r.val == 1)
  }

  lemma GroupOutcome(es: seq<Magic>, os: seq<Outcome>, opt: Options, g: nat, w: Walk)
    requires |os| == |es| && g < |es| && Ok(w) && w.done.None? && !es[g].excluded
    requires w.printed && opt.prints ==> w.val == 1
    ensures var r := Group(es, os, opt, g, w);
            GroupEnds(es, os, g, w, r) || GroupPasses(es, os, opt, g, w, r)
  {
    hide At, Head, Matches, Tested, Fired, Sets, TellsIn, Annotates, GroupEnd;
    HeadEnds(es[g], os[g], w, g);
    HeadEffect(es[g], os[g], w, g);
    var h, e := Head(es[g], os[g], w, g), GroupEnd(es, g);
    if !Entered(es, os, g, w) {
      NotEntered(es, os, opt, g, w);
    } else if At(es, os, g, h, e).done.Some? {
      var i := GroupStops(es, os, g, w);
    } else {
      GroupTells(es, os, opt, g, w);
      forall k | 0 <= k < e && TestedIn(es, os, g, w, k) ensures Stop(os[k], FiredIn(es, os, g, w, k)) == None {
        if k > g {
          GroupGoesThrough(es, os, g, w, k);
        }
      }
    }
  }

  lemma NotEntered(es: seq<Magic>, os: seq<Outcome>, opt: Options, g: nat, w: Walk)
    requires |os| == |es| && g < |es| && Ok(w) && w.done.None? && !es[g].excluded && !Entered(es, os, g, w)
    requires w.printed && opt.prints ==> w.val == 1
    ensures var r := Group(es, os, opt, g, w);
            if r.done.Some? then EndsAt(es, os, g, w, r, g) else GroupPasses(es, os, opt, g, w, r)
  {
    hide At, Head, Matches, Tested, Fired, Sets, Annotates;
    HeadEnds(es[g], os[g], w, g);
    assert TestedIn(es, os, g, w, g);
    assert forall k | 0 <= k < GroupEnd(es, g) && k != g :: !TestedIn(es, os, g, w, k);
  }

  // ----- The whole walk -----

  predicate TellsFrom(es: seq<Magic>, os: seq<Outcome>, opt: Options, g: nat, w: Walk)
    requires |os| == |es| && g <= |es| && (w.done.None? ==> Ok(w))
  {
    exists k | 0 <= k < |es| ::
      (TestedFrom(es, os, opt, g, w, k) && Sets(es[k], os[k])) ||
      (FiredFrom(es, os, opt, g, w, k) && es[k].hasDesc && opt.prints)
  }

  predicate LastFrom(es: seq<Magic>, os: seq<Outcome>, opt: Options, g: nat, w: Walk, k: nat)
    requires |os| == |es| && g <= |es| && (w.done.None? ==> Ok(w))
  {
    k < |es| && TestedFrom(es, os, opt, g, w, k) && forall j | k < j < |es| :: !TestedFrom(es, os, opt, g, w, j)
  }

  /** r is the answer when k was the last entry tested: what its test ended the walk with, if it did;
      else *returnval, which tells whether anything set it or was printed. */
  predicate Answers(es: seq<Magic>, os: seq<Outcome>, opt: Options, g: nat, w: Walk, k: nat, r: Walk)
    requires |os| == |es| && g <= |es| && (w.done.None? ==> Ok(w)) && k < |es|
  {
    var fired := FiredFrom(es, os, opt, g, w, k);
    match Ending(os[k], fired, r)
    case Some(code) => Result(r) == code && (Annotates(os[k], fired) ==> r.val == 1)
    case None => Result(r) == r.val == if TellsFrom(es, os, opt, g, w) then 1 else w.val
  }

  /** Entry k is one of the group of g, or of a later one. */
  lemma FromStep(es: seq<Magic>, os: seq<Outcome>, opt: Options, g: nat, w: Walk, k: nat)
    requires |os| == |es| && g < |es| && Ok(w) && w.done.None?
    ensures var u, e := Group(es, os, opt, g, w), GroupEnd(es, g);
            if k < e then
              && (TestedFrom(es, os, opt, g, w, k) <==> TestedIn(es, os, g, w, k))
              && (FiredFrom(es, os, opt, g, w, k) <==> FiredIn(es, os, g, w, k))
              && !TestedFrom(es, os, opt, e, u, k) && !FiredFrom(es, os, opt, e, u, k)
            else
              && (TestedFrom(es, os, opt, g, w, k) <==> TestedFrom(es, os, opt, e, u, k))
              && (FiredFrom(es, os, opt, g, w, k) <==> FiredFrom(es, os, opt, e, u, k))
  {
    hide Group, Entered, Matches, Tested, Fired;
  }

  lemma TellsStep(es: seq<Magic>, os: seq<Outcome>, opt: Options, g: nat, w: Walk)
    requires |os| == |es| && g < |es| && Ok(w) && w.done.None?
    ensures TellsFrom(es, os, opt, g, w) <==>
              TellsIn(es, os, opt, g, w) || TellsFrom(es, os, opt, GroupEnd(es, g), Group(es, os, opt, g, w))
  {
    hide Group, GroupEnd, TestedIn, FiredIn, TestedFrom, FiredFrom, Sets;
    var u, e := Group(es, os, opt, g, w), GroupEnd(es, g);
    forall k: nat
      ensures k < e ==> (TestedFrom(es, os, opt, g, w, k) <==> TestedIn(es, os, g, w, k))
      ensures k < e ==> (FiredFrom(es, os, opt, g, w, k) <==> FiredIn(es, os, g, w, k))
      ensures k < e ==> !TestedFrom(es, os, opt, e, u, k) && !FiredFrom(es, os, opt, e, u, k)
      ensures k >= e ==> (TestedFrom(es, os, opt, g, w, k) <==> TestedFrom(es, os, opt, e, u, k))
      ensures k >= e ==> (FiredFrom(es, os, opt, g, w, k) <==> FiredFrom(es, os, opt, e, u, k))
    {
      FromStep(es, os, opt, g, w, k);
    }
  }

  lemma LastStep(es: seq<Magic>, os: seq<Outcome>, opt: Options, g: nat, w: Walk, k: nat)
    requires |os| == |es| && g < |es| && Ok(w) && w.done.None?
    ensures var u, e := Group(es, os, opt, g, w), GroupEnd(es, g);
            LastFrom(es, os, opt, g, w, k) <==>
              if k < e then
                && TestedIn(es, os, g, w, k) && (forall j | k < j < e :: !TestedIn(es, os, g, w, j))
                && forall j: nat | j < |es| :: !TestedFrom(es, os, opt, e, u, j)
              else LastFrom(es, os, opt, e, u, k)
  {
    hide Group, GroupEnd, TestedIn, FiredIn, TestedFrom, FiredFrom;
    var u, e := Group(es, os, opt, g, w), GroupEnd(es, g);
    if k < e {
      FromStep(es, os, opt, g, w, k);
    }
    forall j: nat | j < e && TestedIn(es, os, g, w, j)
      ensures TestedFrom(es, os, opt, g, w, j)
    {
      FromStep(es, os, opt, g, w, j);
    }
    forall j: nat | TestedFrom(es, os, opt, e, u, j)
      ensures j >= e && TestedFrom(es, os, opt, g, w, j)
    {
      FromStep(es, os, opt, g, w, j);
    }
    if TestedFrom(es, os, opt, g, w, k) && k < |es| && !LastFrom(es, os, opt, g, w, k) {
      var j :| k < j < |es| && TestedFrom(es, os, opt, g, w, j);
      FromStep(es, os, opt, g, w, j);
      FromStep(es, os, opt, g, w, k);
    }
    if k >= e {
      FromStep(es, os, opt, g, w, k);
    }
  }

  lemma NothingFrom(es: seq<Magic>, os: seq<Outcome>, opt: Options, g: nat, w: Walk)
    requires |os| == |es| && g <= |es| && (w.done.None? ==> Ok(w)) && (g == |es| || w.done.Some?)
    ensures forall k: nat :: !TestedFrom(es, os, opt, g, w, k) && !FiredFrom(es, os, opt, g, w, k)
    ensures Groups(es, os, opt, g, w) == w && !TellsFrom(es, os, opt, g, w)
  {
  }

  /** A group that ends the walk, by its last test or behind it, has the answer. */
  lemma LastGroup(es: seq<Magic>, os: seq<Outcome>, opt: Options, g: nat, w: Walk, k: nat)
    requires |os| == |es| && g < |es| && Ok(w) && w.done.None? && !es[g].excluded
    requires w.printed && opt.prints ==> w.val == 1
    requires var u, e := Group(es, os, opt, g, w), GroupEnd(es, g);
             LastFrom(es, os, opt, g, w, k) && k < e && Groups(es, os, opt, e, u) == u && !TellsFrom(es, os, opt, e, u)
    ensures Answers(es, os, opt, g, w, k, Group(es, os, opt, g, w))
  {
    hide Group, GroupEnd, TestedIn, FiredIn, TestedFrom, FiredFrom, TellsIn, TellsFrom, Sets, Annotates, Stop;
    var u, e := Group(es, os, opt, g, w), GroupEnd(es, g);
    LastStep(es, os, opt, g, w, k);
    FromStep(es, os, opt, g, w, k);
    TellsStep(es, os, opt, g, w);
    GroupOutcome(es, os, opt, g, w);
    if GroupEnds(es, os, g, w, u) {
      var i :| 0 <= i < e && EndsAt(es, os, g, w, u, i);
      assert i == k;
    }
  }

  /** What a group that passes hands on to the groups behind it. */
  lemma LaterGroup(es: seq<Magic>, os: seq<Outcome>, opt: Options, g: nat, w: Walk, k: nat, r: Walk)
    requires |os| == |es| && g < |es| && Ok(w) && w.done.None? && GroupEnd(es, g) <= k < |es|
    requires var u, e := Group(es, os, opt, g, w), GroupEnd(es, g);
             u.done.None? && u.val == (if TellsIn(es, os, opt, g, w) then 1 else w.val) &&
             Answers(es, os, opt, e, u, k, r)
    ensures Answers(es, os, opt, g, w, k, r)
  {
    hide Group, GroupEnd, TestedIn, FiredIn, TestedFrom, FiredFrom, TellsIn, TellsFrom, Sets, Annotates, Ending;
    FromStep(es, os, opt, g, w, k);
    TellsStep(es, os, opt, g, w);
  }

  lemma ExcludedGroup(es: seq<Magic>, os: seq<Outcome>, opt: Options, g: nat, w: Walk)
    requires |os| == |es| && g < |es| && Ok(w) && w.done.None? && es[g].excluded
    ensures Group(es, os, opt, g, w) == w && !TellsIn(es, os, opt, g, w)
    ensures forall k: nat | k < GroupEnd(es, g) :: !TestedIn(es, os, g, w, k)
  {
  }

  lemma GroupsStep(es: seq<Magic>, os: seq<Outcome>, opt: Options, g: nat, w: Walk)
    requires |os| == |es| && g < |es| && Ok(w) && w.done.None?
    ensures Groups(es, os, opt, g, w) == Groups(es, os, opt, GroupEnd(es, g), Group(es, os, opt, g, w))
  {
    hide Group, GroupEnd;
  }

  /** Behind the group of g the walk goes on, or it does not. */
  lemma {:induction false} ResultFrom(es: seq<Magic>, os: seq<Outcome>, opt: Options, g: nat, w: Walk, k: nat)
    requires |os| == |es| && g <= |es| && Ok(w) && w.done.None? && (w.printed && opt.prints ==> w.val == 1)
    requires LastFrom(es, os, opt, g, w, k)
    ensures Answers(es, os, opt, g, w, k, Groups(es, os, opt, g, w))
    decreases |es| - g
  {
    hide Group, GroupEnd, Groups, TestedIn, FiredIn, TestedFrom, FiredFrom, TellsIn, TellsFrom, Sets, Ending, Annotates,
      LastFrom, Answers;
    LastIsTested(es, os, opt, g, w, k);
    var u, e := Group(es, os, opt, g, w), GroupEnd(es, g);
    GroupsStep(es, os, opt, g, w);
    LastStep(es, os, opt, g, w, k);
    if u.done.None? {
      Passed(es, os, opt, g, w);
      if k < e {
        NothingTested(es, os, opt, e, u);
        LastGroup(es, os, opt, g, w, k);
      } else {
        ResultFrom(es, os, opt, e, u, k);
        LaterGroup(es, os, opt, g, w, k, Groups(es, os, opt, e, u));
      }
    } else {
      NothingFrom(es, os, opt, e, u);
      assert k < e by {
        if k >= e {
          LastIsTested(es, os, opt, e, u, k);
        }
      }
      LastGroup(es, os, opt, g, w, k);
    }
  }

  lemma LastIsTested(es: seq<Magic>, os: seq<Outcome>, opt: Options, g: nat, w: Walk, k: nat)
    requires |os| == |es| && g <= |es| && (w.done.None? ==> Ok(w)) && LastFrom(es, os, opt, g, w, k)
    ensures g < |es| && w.done.None? && k < |es| && TestedFrom(es, os, opt, g, w, k)
    ensures k < GroupEnd(es, g) ==> !es[g].excluded
  {
    hide Group, Entered, Tested;
  }

  lemma Passed(es: seq<Magic>, os: seq<Outcome>, opt: Options, g: nat, w: Walk)
    requires |os| == |es| && g < |es| && Ok(w) && w.done.None? && (w.printed && opt.prints ==> w.val == 1)
    requires Group(es, os, opt, g, w).done.None?
    ensures var u := Group(es, os, opt, g, w);
            && u.val == (if TellsIn(es, os, opt, g, w) then 1 else w.val)
            && (u.printed && opt.prints ==> u.val == 1)
  {
    hide Group, GroupEnd, TellsIn, TestedIn, FiredIn;
    if es[g].excluded {
      ExcludedGroup(es, os, opt, g, w);
    } else {
      GroupOutcome(es, os, opt, g, w);
    }
  }

  /** Where no entry is tested nothing happens. */
  lemma {:induction false} NothingTested(es: seq<Magic>, os: seq<Outcome>, opt: Options, g: nat, w: Walk)
    requires |os| == |es| && g <= |es| && (w.done.None? ==> Ok(w))
    requires forall k: nat | k < |es| :: !TestedFrom(es, os, opt, g, w, k)
    ensures Groups(es, os, opt, g, w) == w && !TellsFrom(es, os, opt, g, w)
    decreases |es| - g
  {
    hide Group, GroupEnd, TestedIn, FiredIn, TestedFrom, FiredFrom, Sets;
    if g == |es| || w.done.Some? {
      NothingFrom(es, os, opt, g, w);
    } else {
      var e := GroupEnd(es, g);
      assert es[g].excluded by {
        FromStep(es, os, opt, g, w, g);
        HeadIsTested(es, os, g, w);
      }
      ExcludedGroup(es, os, opt, g, w);
      forall k: nat | k < |es| ensures !TestedFrom(es, os, opt, e, w, k) {
        FromStep(es, os, opt, g, w, k);
      }
      GroupsStep(es, os, opt, g, w);
      NothingTested(es, os, opt, e, w);
      TellsStep(es, os, opt, g, w);
    }
  }

  lemma HeadIsTested(es: seq<Magic>, os: seq<Outcome>, g: nat, w: Walk)
    requires |os| == |es| && g < |es| && Ok(w)
    ensures g < GroupEnd(es, g) && (TestedIn(es, os, g, w, g) <==> !es[g].excluded)
  {
  }

  /** The state in which the walk over the list begins. */
  function Begun(li: seq<Level>, val: int, memory: bool): Walk {
    CheckMem(Walk(0, li, [], false, val, None), memory)
  }

  /** What `match` answers. Without room for the first level: -1. Where no entry is tested: *returnval as
      it was. Else the last entry tested decides: -1 if its test failed, if it fired and printing did or
      there was no room for the next level; the code of its annotation if it fired and has one, with
      *returnval set; and otherwise *returnval, which is then set exactly if an entry that was tested sets
      it, or, unless a MIME type is asked for, one that fired has a description. */
  lemma RunAnswers(es: seq<Magic>, os: seq<Outcome>, opt: Options, li: seq<Level>, val: int, memory: bool)
    requires |os| == |es|
    ensures var r, w := Run(es, os, opt, li, val, memory), Begun(li, val, memory);
            if li == [] && !memory then Result(r) == -1 && r.val == val
            else
              && w.done.None? && Ok(w)
              && (forall k: nat | k < |es| && LastFrom(es, os, opt, 0, w, k) :: Answers(es, os, opt, 0, w, k, r))
              && ((forall k: nat | k < |es| :: !TestedFrom(es, os, opt, 0, w, k)) ==> Result(r) == r.val == val)
  {
    hide GroupEnd, Group, Groups, TestedFrom, FiredFrom, Ending, TellsFrom, LastFrom, Answers;
    var w := Begun(li, val, memory);
    if w.done.Some? {
      NothingFrom(es, os, opt, 0, w);
    } else {
      forall k: nat | k < |es| && LastFrom(es, os, opt, 0, w, k)
        ensures Answers(es, os, opt, 0, w, k, Groups(es, os, opt, 0, w))
      {
        ResultFrom(es, os, opt, 0, w, k);
      }
      if forall k: nat | k < |es| :: !TestedFrom(es, os, opt, 0, w, k) {
        NothingTested(es, os, opt, 0, w);
      }
    }
  }
}
