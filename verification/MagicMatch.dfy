/** `match` of file/softmagic.c as a whole: the walk over the groups of a list, what it tests and when
    it ends, and what one match nested in another does. */
module MagicMatch {
  import opened Wrappers
  import opened MagicFlags
  import opened MagicNested
  import opened MagicWalk

  // ----- The walk over the groups -----

  /** MAGIC_CONTINUE, and whether text is printed rather than a MIME type. */
  datatype Options = Options(prints: bool, continues: bool)

  /** The group's first entry: lines 1863 to 1929. */
  function Head(m: Magic, o: Outcome, w: Walk, g: nat): (r: Walk)
    requires Ok(w)
    ensures r.done.None? ==> Ok(r)
  {
    var u := Mget(m, o, w.(log := w.log + [Eval(g, m.offset)]));
    if o.get.GetError? then u.(done := Some(-1))
    else if o.get.GetNothing? && !m.negated then u
    else
      var v := if o.get.GetSomething? && m.kind.Indirect? then u.(val := 1) else u;
      if o.get.GetSomething? && o.check.CheckError? then v.(done := Some(-1))
      else if o.get.GetSomething? && o.check.CheckFails? then v
      else Fire(m, o, v)
  }

  /** Lines 2040 to 2049. */
  function Close(opt: Options, w: Walk): Walk {
    if w.done.Some? then w
    else
      var v := if w.printed && opt.prints then w.(val := 1) else w;
      if w.printed && !opt.continues then v.(done := Some(v.val)) else v
  }

  predicate Entered(es: seq<Magic>, os: seq<Outcome>, g: nat, w: Walk)
    requires |os| == |es| && g < |es| && Ok(w)
  {
    !es[g].excluded && Matches(es[g], os[g]) && Head(es[g], os[g], w, g).done.None?
  }

  function Group(es: seq<Magic>, os: seq<Outcome>, opt: Options, g: nat, w: Walk): (r: Walk)
    requires |os| == |es| && g < |es| && Ok(w) && w.done.None?
    ensures r.done.None? ==> Ok(r)
  {
    if es[g].excluded then w
    else
      var v := Head(es[g], os[g], w, g);
      if !Entered(es, os, g, w) then v else Close(opt, At(es, os, g, v, GroupEnd(es, g)))
  }

  function Groups(es: seq<Magic>, os: seq<Outcome>, opt: Options, g: nat, w: Walk): Walk
    requires |os| == |es| && g <= |es| && (w.done.None? ==> Ok(w))
    decreases |es| - g
  {
    if g == |es| || w.done.Some? then w
    else Groups(es, os, opt, GroupEnd(es, g), Group(es, os, opt, g, w))
  }

  function Run(es: seq<Magic>, os: seq<Outcome>, opt: Options, li: seq<Level>, val: int, memory: bool): Walk
    requires |os| == |es|
  {
    Groups(es, os, opt, 0, CheckMem(Walk(0, li, [], false, val, None), memory))
  }

  function Result(w: Walk): int {
    if w.done.Some? then w.done.value else w.val
  }

  lemma HeadEffect(m: Magic, o: Outcome, w: Walk, g: nat)
    requires Ok(w) && w.done.None?
    ensures var r := Head(m, o, w, g);
            && r.log == w.log + [Eval(g, m.offset)]
            && (r.done.None? && !Matches(m, o) ==> r.level == w.level && r.li == Levels(m, o, w.li))
            && (r.done.None? && Matches(m, o) ==>
                  && r.level == w.level + 1 && Ok(r) && FlagsAt(r, r.level) == CLEAN
                  && r.li[w.level].off == Noted(o))
  {
    hide Fire;
    var u := Mget(m, o, w.(log := w.log + [Eval(g, m.offset)]));
    FireEffect(m, o, if o.get.GetSomething? && m.kind.Indirect? then u.(val := 1) else u);
  }

  /** A group is entered with cont_level 0, and no nested match of its continuations before k has
      spoiled the levels. */
  predicate Fresh(es: seq<Magic>, os: seq<Outcome>, g: nat, w: Walk, k: nat)
    requires |os| == |es| && g < k < |es| && k < GroupEnd(es, g) && Ok(w)
  {
    && w.done.None? && w.level == 0 && Entered(es, os, g, w)
    && var v := Head(es[g], os[g], w, g);
    && v.level >= 1 && At(es, os, g, v, k).done.None? && Undisturbed(es, os, g, v, k)
  }

  /** In such a group the walk is the walk over the tree: what is reached, tested and fired, and at
      what offset each test is made. */
  lemma FreshGroupIsTree(es: seq<Magic>, os: seq<Outcome>, g: nat, w: Walk, k: nat)
    requires |os| == |es| && g < k < |es| && k < GroupEnd(es, g) && Ok(w) && Fresh(es, os, g, w, k)
    ensures var v := Head(es[g], os[g], w, g);
            && Ready(es, os, g, v)
            && (Reached(es, os, g, v, k) <==> TreeReached(es, os, g, CLEAN, k))
            && (Fired(es, os, g, v, k) <==> TreeFired(es, os, g, CLEAN, k))
            && At(es, os, g, v, k + 1).log == At(es, os, g, v, k).log +
                 if TreeTested(es, os, g, CLEAN, k)
                 then [Eval(k, Base(es[k], Noted(os[Parent(es, g, k)])))] else []
  {
    HeadEffect(es[g], os[g], w, g);
    var v := Head(es[g], os[g], w, g);
    hide At, Reached, Fired, TreeReached, TreeTested, TreeFired, Head, Matches, Noted, Levels, Undisturbed;
    CounterIsTree(es, os, g, v, k);
    TestedAtOffset(es, os, g, v, k);
  }

  /** In a list whose entries are sheltered the first group that matches is walked as the tree,
      whatever nested matches do. */
  lemma ShelteredGroupIsTree(es: seq<Magic>, os: seq<Outcome>, g: nat, w: Walk, k: nat)
    requires |os| == |es| && g < k < |es| && k < GroupEnd(es, g) && Ok(w)
    requires w.done.None? && w.level == 0 && Entered(es, os, g, w)
    requires forall n | g < n < GroupEnd(es, g) :: Sheltered(es, g, n)
    ensures var v := Head(es[g], os[g], w, g);
            && Ready(es, os, g, v) && CleanStart(es, g, v)
            && (At(es, os, g, v, k).done.None? ==> AsTree(es, os, g, v, k))
  {
    hide At, Head, Matches, Noted, Levels, Sheltered, AsTree;
    HeadEffect(es[g], os[g], w, g);
    var v := Head(es[g], os[g], w, g);
    if At(es, os, g, v, k).done.None? {
      ShelteredIsTree(es, os, g, v, k);
    }
  }

  // ----- Each entry at most once, and in order -----

  predicate InOrder(log: seq<Eval>) {
    forall i, j | 0 <= i < j < |log| :: log[i].index < log[j].index
  }

  predicate Within(log: seq<Eval>, lo: nat, hi: nat) {
    forall i | 0 <= i < |log| :: lo <= log[i].index < hi
  }

  function Added(before: Walk, now: Walk): seq<Eval> {
    if before.log <= now.log then now.log[|before.log|..] else []
  }

  /** From `before` to `now` only entries from lo on and below hi were tested, in order. */
  predicate Logs(before: Walk, now: Walk, lo: nat, hi: nat) {
    before.log <= now.log && InOrder(Added(before, now)) && Within(Added(before, now), lo, hi)
  }

  lemma LogsCompose(u: Walk, v: Walk, w: Walk, lo: nat, mid: nat, hi: nat)
    requires Logs(u, v, lo, mid) && Logs(v, w, mid, hi) && lo <= mid <= hi
    ensures Logs(u, w, lo, hi)
  {
    assert Added(u, w) == Added(u, v) + Added(v, w);
  }

  lemma LogsNothing(w: Walk, lo: nat, hi: nat)
    ensures Logs(w, w, lo, hi)
  {
  }

  lemma ContLogs(m: Magic, o: Outcome, w: Walk, k: nat)
    requires Ok(w) && m.level >= 1
    ensures Logs(w, Cont(m, o, w, k), k, k + 1)
  {
    if m.level <= w.level {
      ReachedEffect(m, o, w, k);
      hide Cont, FlagsAt, Base;
    }
  }

  lemma {:induction false} GroupLogs(es: seq<Magic>, os: seq<Outcome>, g: nat, w: Walk, k: nat)
    requires Ready(es, os, g, w) && g < k <= GroupEnd(es, g)
    ensures Logs(w, At(es, os, g, w, k), g + 1, k)
    decreases k
  {
    hide Cont, InOrder;
    LogsNothing(w, g + 1, g + 1);
    if k == g + 1 {
      return;
    }
    hide Logs;
    GroupLogs(es, os, g, w, k - 1);
    var u := At(es, os, g, w, k - 1);
    if u.done.None? {
      ContLogs(es[k - 1], os[k - 1], u, k - 1);
    } else {
      assert At(es, os, g, w, k) == u;
      LogsNothing(u, k - 1, k);
    }
    LogsCompose(w, u, At(es, os, g, w, k), g + 1, k - 1, k);
  }

  /** A group tests entries of its own only, in order; one whose first entry is left out or does
      not match is skipped whole. */
  lemma GroupStaysWithin(es: seq<Magic>, os: seq<Outcome>, opt: Options, g: nat, w: Walk)
    requires |os| == |es| && g < |es| && Ok(w) && w.done.None?
    ensures Logs(w, Group(es, os, opt, g, w), g, GroupEnd(es, g))
    ensures es[g].excluded ==> Group(es, os, opt, g, w) == w
    ensures !es[g].excluded && !Matches(es[g], os[g]) ==>
              var r := Group(es, os, opt, g, w);
              && r.log == w.log + [Eval(g, es[g].offset)]
              && (r.done.None? ==> r.level == w.level && r.li == Levels(es[g], os[g], w.li))
  {
    if !es[g].excluded {
      HeadEffect(es[g], os[g], w, g);
      hide At, Head, Matches;
      var v := Head(es[g], os[g], w, g);
      assert Logs(w, v, g, g + 1);
      if Entered(es, os, g, w) {
        GroupLogs(es, os, g, v, GroupEnd(es, g));
        LogsCompose(w, v, At(es, os, g, v, GroupEnd(es, g)), g, g + 1, GroupEnd(es, g));
      }
    }
  }

  lemma {:induction false} GroupsInOrder(es: seq<Magic>, os: seq<Outcome>, opt: Options, g: nat, w: Walk)
    requires |os| == |es| && g <= |es| && (w.done.None? ==> Ok(w))
    ensures Logs(w, Groups(es, os, opt, g, w), g, |es|)
    decreases |es| - g
  {
    if g < |es| && w.done.None? {
      var v, e := Group(es, os, opt, g, w), GroupEnd(es, g);
      hide Group;
      GroupStaysWithin(es, os, opt, g, w);
      GroupsInOrder(es, os, opt, e, v);
      hide Logs;
      LogsCompose(w, v, Groups(es, os, opt, g, w), g, e, |es|);
    }
  }

  /** The whole walk tests each entry at most once, in the order of the list. */
  lemma RunInOrder(es: seq<Magic>, os: seq<Outcome>, opt: Options, li: seq<Level>, val: int, memory: bool)
    requires |os| == |es|
    ensures InOrder(Run(es, os, opt, li, val, memory).log)
    ensures Within(Run(es, os, opt, li, val, memory).log, 0, |es|)
  {
    var w := CheckMem(Walk(0, li, [], false, val, None), memory);
    GroupsInOrder(es, os, opt, 0, w);
    assert Added(w, Groups(es, os, opt, 0, w)) == Groups(es, os, opt, 0, w).log;
  }

  // ----- When the walk ends, and with what -----

  /** Entry j fired and has a description to print. */
  predicate Describes(es: seq<Magic>, os: seq<Outcome>, g: nat, w: Walk, j: nat)
    requires Ready(es, os, g, w) && g < j < GroupEnd(es, g)
  {
    Fired(es, os, g, w, j) && es[j].hasDesc
  }

  /** An indirect entry that yields something sets *returnval, and so may a match nested by FILE_USE. */
  predicate Sets(m: Magic, o: Outcome) {
    (o.get.GetSomething? && m.kind.Indirect?) || (m.kind.Use? && o.nested.sets)
  }

  predicate Redirects(es: seq<Magic>, os: seq<Outcome>, g: nat, w: Walk, j: nat)
    requires Ready(es, os, g, w) && g < j < GroupEnd(es, g)
  {
    Tested(es, os, g, w, j) && Sets(es[j], os[j])
  }

  lemma FireOutput(m: Magic, o: Outcome, w: Walk)
    requires Ok(w)
    ensures var r := Fire(m, o, w);
            r.done.None? ==> r.printed == (w.printed || m.hasDesc) && r.val == w.val
  {
  }

  lemma ContOutput(m: Magic, o: Outcome, w: Walk, k: nat)
    requires Ok(w) && m.level >= 1 && w.done.None?
    ensures var r := Cont(m, o, w, k);
            r.done.None? ==>
              if m.level > w.level then r.printed == w.printed && r.val == w.val
              else
                var f := FlagsAt(w, m.level);
                && r.printed == (w.printed || (Hit(m, o, f) && m.hasDesc))
                && r.val == if !(Chained(m) && f.last) && Sets(m, o) then 1 else w.val
  {
    hide Fire, Matches;
    if m.level <= w.level && !(Chained(m) && w.li[m.level].last) {
      var u := w.(level := m.level, log := w.log + [Eval(k, Base(m, w.li[m.level - 1].off))]);
      TestOutput(m, o, u);
    }
    hide Test;
  }

  lemma TestOutput(m: Magic, o: Outcome, w: Walk)
    requires Ok(w) && w.done.None?
    ensures var r := Test(m, o, w);
            r.done.None? ==>
              && r.printed == (w.printed || (Matches(m, o) && !(m.kind.Default? && w.li[w.level].got) && m.hasDesc))
              && r.val == if Sets(m, o) then 1 else w.val
  {
    hide Fire;
    var u := Mget(m, o, w);
    var v := if o.get.GetSomething? && m.kind.Indirect? then u.(val := 1) else u;
    var l := v.li[v.level];
    FireOutput(m, o, v.(li := v.li[v.level := l.(got := l.got || !m.kind.Default?, last := true)]));
  }

  lemma {:induction false} OutputMeans(es: seq<Magic>, os: seq<Outcome>, g: nat, w: Walk, k: nat)
    requires Ready(es, os, g, w) && g < k <= GroupEnd(es, g) && At(es, os, g, w, k).done.None?
    ensures var v := At(es, os, g, w, k);
            && (v.printed <==> w.printed || exists j | g < j < k :: Describes(es, os, g, w, j))
            && v.val == if exists j | g < j < k :: Redirects(es, os, g, w, j) then 1 else w.val
    decreases k
  {
    hide Cont, GroupEnd, Matches, Chained, Describes, Redirects;
    if k == g + 1 {
      return;
    }
    hide At;
    StillGoing(es, os, g, w, k - 1, k);
    OutputMeans(es, os, g, w, k - 1);
    OneMoreOutput(es, os, g, w, k - 1);
  }

  lemma OneMoreOutput(es: seq<Magic>, os: seq<Outcome>, g: nat, w: Walk, k: nat)
    requires Ready(es, os, g, w) && g < k < GroupEnd(es, g) && At(es, os, g, w, k + 1).done.None?
    ensures var v, r := At(es, os, g, w, k), At(es, os, g, w, k + 1);
            && (r.printed <==> v.printed || Describes(es, os, g, w, k))
            && r.val == if Redirects(es, os, g, w, k) then 1 else v.val
  {
    StillGoing(es, os, g, w, k, k + 1);
    ContEffect(es, os, g, w, k);
    ContOutput(es[k], os[k], At(es, os, g, w, k), k);
    hide At, Cont, Hit, Matches, Settle, Levels, Sets;
  }

  /** A group that matched ends the walk exactly if, without MAGIC_CONTINUE, a description has
      been printed by now, in this group or an earlier one. *returnval is set behind an indirect
      entry that yielded something, behind a nested match that set it, and, unless a MIME type is
      asked for, behind a description. */
  lemma GroupEndsWalk(es: seq<Magic>, os: seq<Outcome>, opt: Options, g: nat, w: Walk)
    requires |os| == |es| && g < |es| && Ok(w) && w.done.None? && Entered(es, os, g, w)
    requires At(es, os, g, Head(es[g], os[g], w, g), GroupEnd(es, g)).done.None?
    ensures var v, r, e := Head(es[g], os[g], w, g), Group(es, os, opt, g, w), GroupEnd(es, g);
            Ready(es, os, g, v) &&
            var redirected := Sets(es[g], os[g]) || exists j | g < j < e :: Redirects(es, os, g, v, j);
            && (r.printed <==> w.printed || es[g].hasDesc || exists j | g < j < e :: Describes(es, os, g, v, j))
            && (r.done.Some? <==> r.printed && !opt.continues)
            && (r.done.Some? ==> r.done.value == r.val)
            && r.val == if redirected || (r.printed && opt.prints) then 1 else w.val
  {
    HeadEffect(es[g], os[g], w, g);
    HeadOutput(es[g], os[g], w, g);
    hide At, Head, Matches, Describes, Redirects;
    OutputMeans(es, os, g, Head(es[g], os[g], w, g), GroupEnd(es, g));
  }

  lemma HeadOutput(m: Magic, o: Outcome, w: Walk, g: nat)
    requires Ok(w) && w.done.None? && Matches(m, o)
    ensures var r := Head(m, o, w, g);
            r.done.None? ==>
              && r.printed == (w.printed || m.hasDesc)
              && r.val == if Sets(m, o) then 1 else w.val
  {
    hide Fire;
    var u := Mget(m, o, w.(log := w.log + [Eval(g, m.offset)]));
    FireOutput(m, o, if o.get.GetSomething? && m.kind.Indirect? then u.(val := 1) else u);
  }

  // ----- cont_level is never set back -----

  /** The level is 0 up to the first group whose first entry matches and never again, so every
      later group that matches is entered above the level its own continuations begin at. */
  lemma LevelOnlyLeavesZero(es: seq<Magic>, os: seq<Outcome>, opt: Options, g: nat, w: Walk)
    requires |os| == |es| && g < |es| && Ok(w) && w.done.None?
    ensures var r := Group(es, os, opt, g, w);
            r.done.None? ==> (r.level == 0 <==> w.level == 0 && !Entered(es, os, g, w))
    ensures Entered(es, os, g, w) && w.level > 0 ==>
              var v := Head(es[g], os[g], w, g);
              && Ready(es, os, g, v) && v.level > 1
              && FlagsAt(v, v.level) == CLEAN && v.li[v.level - 1].off == Noted(os[g])
  {
    if !es[g].excluded {
      HeadEffect(es[g], os[g], w, g);
      hide At, Head, Noted, Matches, Open;
      if Entered(es, os, g, w) {
        var v, e := Head(es[g], os[g], w, g), GroupEnd(es, g);
        LevelIsOpen(es, os, g, v, e, 1);
        assert Nearest(es, g, e, 1) == g;
        FromFirstOpen(es, os, g, v, e);
      }
    }
  }

  lemma FromFirstOpen(es: seq<Magic>, os: seq<Outcome>, g: nat, w: Walk, k: nat)
    requires Ready(es, os, g, w) && g < k <= GroupEnd(es, g) && Nearest(es, g, k, 1) == g
    ensures Open(es, os, g, w, k, 1)
  {
  }

  const TOP := Magic(0, NoCond, Plain, false, false, true, 0, false)
  const SUB := Magic(1, NoCond, Plain, false, false, true, 4, false)
  const DEFAULT := Magic(1, NoCond, Default, false, false, true, 8, false)
  const TWO_GROUPS := [TOP, SUB, TOP, DEFAULT]
  const ALL_YES := [YES, YES, YES, YES]

  /** With MAGIC_CONTINUE the flags of the first group spoil the second: its default, which has
      no siblings at all, is passed over. */
  lemma StaleFlagsMislead()
    ensures var w := Walk(0, [Level(false, false, 0), Level(false, false, 0),
                          Level(false, false, 0), Level(false, false, 0)],
                          [], false, 0, None);
            var u := Group(TWO_GROUPS, ALL_YES, Options(true, true), 0, w);
            && u.done.None? && Entered(TWO_GROUPS, ALL_YES, 2, u)
            && (var v := Head(TOP, YES, u, 2);
                && Ready(TWO_GROUPS, ALL_YES, 2, v) && GroupEnd(TWO_GROUPS, 2) == 4
                && TreeFired(TWO_GROUPS, ALL_YES, 2, CLEAN, 3)
                && !Fired(TWO_GROUPS, ALL_YES, 2, v, 3))
  {
    var es, os, l := TWO_GROUPS, ALL_YES, Level(false, false, 0);
    var w := Walk(0, [l, l, l, l], [], false, 0, None);
    assert GroupEnd(es, 0) == 2 && GroupEnd(es, 1) == 2 && GroupEnd(es, 3) == 4;
    var h := Head(TOP, YES, w, 0);
    assert h == Walk(1, [l, l, l, l], [Eval(0, 0)], true, 0, None);
    var c := Cont(SUB, YES, h, 1);
    assert c == Walk(2, [l, Level(true, true, 0), l, l], [Eval(0, 0), Eval(1, 4)], true, 0, None);
    assert At(es, os, 0, h, 1) == h;
    assert At(es, os, 0, h, 2) == c;
    var u := Group(es, os, Options(true, true), 0, w);
    assert u == c.(val := 1);
    var v := Head(TOP, YES, u, 2);
    assert v.level == 3 && v.li[1] == Level(true, true, 0);
    assert At(es, os, 2, v, 3) == v;
    assert Parent(es, 2, 3) == 2;
  }

  // ----- A nested match, seen by the outer one -----

  /** No match makes the levels fewer, and *returnval it leaves or sets to 1. */
  predicate Leaves(before: Walk, now: Walk) {
    |before.li| <= |now.li| && (now.val == before.val || now.val == 1)
  }

  lemma FireLeaves(m: Magic, o: Outcome, w: Walk)
    requires Ok(w)
    ensures Leaves(w, Fire(m, o, w))
  {
  }

  lemma TestLeaves(m: Magic, o: Outcome, w: Walk)
    requires Ok(w)
    ensures Leaves(w, Test(m, o, w))
  {
    hide Fire, Matches;
    var u := Mget(m, o, w);
    var v := if o.get.GetSomething? && m.kind.Indirect? then u.(val := 1) else u;
    var l := v.li[v.level];
    FireLeaves(m, o, v.(li := v.li[v.level := l.(got := l.got || !m.kind.Default?, last := true)]));
  }

  lemma ContLeaves(m: Magic, o: Outcome, w: Walk, k: nat)
    requires Ok(w) && m.level >= 1
    ensures Leaves(w, Cont(m, o, w, k))
  {
    hide Test;
    if m.level <= w.level {
      var v := w.(level := m.level);
      var base := if m.offAdd then v.li[v.level - 1].off else 0;
      TestLeaves(m, o, v.(log := v.log + [Eval(k, m.offset + base)]));
    }
  }

  lemma {:induction false} AtLeaves(es: seq<Magic>, os: seq<Outcome>, g: nat, w: Walk, k: nat)
    requires |os| == |es| && g < |es| && g < k <= GroupEnd(es, g) && (w.done.None? ==> Ok(w))
    ensures Leaves(w, At(es, os, g, w, k))
    decreases k
  {
    hide Cont;
    if k > g + 1 {
      AtLeaves(es, os, g, w, k - 1);
      var v := At(es, os, g, w, k - 1);
      if v.done.None? {
        ContLeaves(es[k - 1], os[k - 1], v, k - 1);
      }
    }
  }

  lemma HeadLeaves(m: Magic, o: Outcome, w: Walk, g: nat)
    requires Ok(w)
    ensures Leaves(w, Head(m, o, w, g))
  {
    hide Fire;
    var u := Mget(m, o, w.(log := w.log + [Eval(g, m.offset)]));
    FireLeaves(m, o, if o.get.GetSomething? && m.kind.Indirect? then u.(val := 1) else u);
  }

  lemma {:induction false} GroupsLeave(es: seq<Magic>, os: seq<Outcome>, opt: Options, g: nat, w: Walk)
    requires |os| == |es| && g <= |es| && (w.done.None? ==> Ok(w))
    ensures Leaves(w, Groups(es, os, opt, g, w))
    decreases |es| - g
  {
    hide Head, At;
    if g < |es| && w.done.None? {
      if !es[g].excluded {
        HeadLeaves(es[g], os[g], w, g);
        if Entered(es, os, g, w) {
          AtLeaves(es, os, g, Head(es[g], os[g], w, g), GroupEnd(es, g));
        }
      }
      GroupsLeave(es, os, opt, GroupEnd(es, g), Group(es, os, opt, g, w));
    }
  }

  /** So what a nested match does to the levels and to *returnval is an answer mget can give. */
  lemma NestedMatchIsAnAnswer(m: Magic, es: seq<Magic>, os: seq<Outcome>, opt: Options, memory: bool, w: Walk)
    requires |os| == |es| && Reenters(m)
    ensures var r := Run(es, os, opt, w.li, if m.kind.Use? then w.val else 0, memory);
            var o := Outcome(GetNothing, Nested(r.li, r.val == 1), CheckHolds, Proceeds(0), true);
            Mget(m, o, w) == w.(li := r.li, val := if m.kind.Use? then r.val else w.val)
  {
    var val := if m.kind.Use? then w.val else 0;
    GroupsLeave(es, os, opt, 0, CheckMem(Walk(0, w.li, [], false, val, None), memory));
  }

  const ZERO := Level(false, false, 0)
  const HIT := Level(true, true, 0)
  const NAME := Magic(0, NoCond, Plain, false, false, false, 0, false)
  const ARM := Magic(1, Elif, Plain, false, false, true, 12, false)

  function UseAt(level: nat): Magic {
    Magic(level, NoCond, Use, false, false, false, 4, false)
  }

  /** The answer of a nested match that matches a name, prints nothing and returns 0. */
  const CLEARS := Outcome(GetNothing, Nested([ZERO, ZERO, ZERO, ZERO], false), CheckHolds, Proceeds(0), true)

  /** A list of one name that matches and prints nothing clears the flags at level 1. */
  lemma NestedMatchClears()
    ensures Run([NAME], [YES], Options(true, false), [ZERO, HIT, ZERO, ZERO], 0, true)
            == Walk(1, [ZERO, ZERO, ZERO, ZERO], [Eval(0, 0)], false, 0, None)
  {
    var li := [ZERO, HIT, ZERO, ZERO];
    var w := Walk(0, li, [], false, 0, None);
    assert CheckMem(w, true) == w;
    var h := Head(NAME, YES, w, 0);
    assert h == Walk(1, [ZERO, ZERO, ZERO, ZERO], [Eval(0, 0)], false, 0, None);
    assert GroupEnd([NAME], 0) == 1;
    assert At([NAME], [YES], 0, h, 1) == h;
    assert Group([NAME], [YES], Options(true, false), 0, w) == h;
    assert Groups([NAME], [YES], Options(true, false), 1, h) == h;
  }

  const USE_THEN_DEFAULT := [TOP, SUB, UseAt(1), DEFAULT]
  const USE_IN_CHAIN := [TOP, SUB, UseAt(2), ARM]
  const CLEARED := [YES, YES, CLEARS, YES]

  lemma HitAndUse(es: seq<Magic>, os: seq<Outcome>)
    requires |es| == |os| == 4 && es[1] == SUB && os[1] == YES && es[2].kind.Use? && !Chained(es[2]) && os[2] == CLEARS
    requires !es[2].negated && es[2].level <= 2
    ensures Siblings(es, os, 0, 1, CLEAN, 3) == Flags(true, true)
  {
    SiblingsStep(es, os, 0, 1, CLEAN, 1);
    SiblingsStep(es, os, 0, 1, CLEAN, 2);
    hide Siblings;
  }

  /** In a group entered with cont_level 0 a default fires although a sibling has, because a FILE_USE
      in between nested such a match. */
  lemma NestedMatchMisleadsDefault()
    ensures var es, os, w := USE_THEN_DEFAULT, CLEARED, Walk(1, [ZERO, ZERO, ZERO, ZERO], [], true, 0, None);
            && Ready(es, os, 0, w) && GroupEnd(es, 0) == 4
            && At(es, os, 0, w, 2).li == [ZERO, HIT, ZERO, ZERO]
            && Fired(es, os, 0, w, 3) && !TreeFired(es, os, 0, CLEAN, 3)
            && !Undisturbed(es, os, 0, w, 3)
  {
    var es, os, w := USE_THEN_DEFAULT, CLEARED, Walk(1, [ZERO, ZERO, ZERO, ZERO], [], true, 0, None);
    assert GroupEnd(es, 3) == 4 && GroupEnd(es, 2) == 4 && GroupEnd(es, 1) == 4;
    assert At(es, os, 0, w, 1) == w;
    var a := At(es, os, 0, w, 2);
    assert a == Cont(SUB, YES, w, 1) == Walk(2, [ZERO, HIT, ZERO, ZERO], [Eval(1, 4)], true, 0, None);
    var b := At(es, os, 0, w, 3);
    assert b == Cont(UseAt(1), CLEARS, a, 2);
    assert b.li == [ZERO, ZERO, ZERO, ZERO] && b.level == 1;
    HitAndUse(es, os);
    hide Siblings, Cont, At;
    assert Tested(es, os, 0, w, 2);
    assert FlagsIn(Levels(es[2], os[2], a.li), 1) != FlagsIn(a.li, 1);
    assert !Spared(es, os, 0, w, 2);
  }

  /** And below an arm that fired such a match lets the next arm be tested too. */
  lemma NestedMatchMisleadsChain()
    ensures var es, os, w := USE_IN_CHAIN, CLEARED, Walk(1, [ZERO, ZERO, ZERO, ZERO], [], true, 0, None);
            && Ready(es, os, 0, w) && GroupEnd(es, 0) == 4
            && At(es, os, 0, w, 2).li == [ZERO, HIT, ZERO, ZERO]
            && OneChain(es, 0, 1, 3) && Fired(es, os, 0, w, 1) && Fired(es, os, 0, w, 3)
            && !TreeTested(es, os, 0, CLEAN, 3) && !Undisturbed(es, os, 0, w, 3)
  {
    var es, os, w := USE_IN_CHAIN, CLEARED, Walk(1, [ZERO, ZERO, ZERO, ZERO], [], true, 0, None);
    assert GroupEnd(es, 3) == 4 && GroupEnd(es, 2) == 4 && GroupEnd(es, 1) == 4;
    assert At(es, os, 0, w, 1) == w;
    var a := At(es, os, 0, w, 2);
    assert a == Cont(SUB, YES, w, 1) == Walk(2, [ZERO, HIT, ZERO, ZERO], [Eval(1, 4)], true, 0, None);
    var b := At(es, os, 0, w, 3);
    assert b == Cont(UseAt(2), CLEARS, a, 2);
    assert b.li == [ZERO, ZERO, ZERO, ZERO] && b.level == 2;
    HitAndUse(es, os);
    hide Siblings, Cont, At;
    assert Tested(es, os, 0, w, 2);
    assert FlagsIn(Levels(es[2], os[2], a.li), 1) != FlagsIn(a.li, 1);
    assert !Spared(es, os, 0, w, 2);
  }

  // ----- The code -----

  lemma NoMore(es: seq<Magic>, os: seq<Outcome>, opt: Options, g: nat, w: Walk)
    requires |os| == |es| && g <= |es| && (w.done.None? ==> Ok(w)) && (w.done.Some? || g == |es|)
    ensures Groups(es, os, opt, g, w) == w
  {
  }

  /** What is left to do once the first entry of g has been dealt with. */
  lemma AfterHead(es: seq<Magic>, os: seq<Outcome>, opt: Options, g: nat, w: Walk)
    requires |os| == |es| && g < |es| && Ok(w) && w.done.None?
    ensures var v, e := if es[g].excluded then w else Head(es[g], os[g], w, g), GroupEnd(es, g);
            var r := Groups(es, os, opt, g, w);
            if v.done.Some? then r == v
            else if es[g].excluded || !Matches(es[g], os[g]) then r == Groups(es, os, opt, e, v)
            else r == Groups(es, os, opt, e, Close(opt, At(es, os, g, v, e)))
  {
    hide Head, At, Matches;
    var v, e := if es[g].excluded then w else Head(es[g], os[g], w, g), GroupEnd(es, g);
    if v.done.Some? {
      NoMore(es, os, opt, e, v);
    }
  }

  lemma EndStep(es: seq<Magic>, g: nat)
    requires g < |es|
    ensures GroupEnd(es, g) == if g + 1 == |es| || es[g + 1].level == 0 then g + 1 else GroupEnd(es, g + 1)
  {
  }

  lemma AtStart(es: seq<Magic>, os: seq<Outcome>, g: nat, w: Walk)
    requires |os| == |es| && g < |es| && (w.done.None? ==> Ok(w))
    ensures At(es, os, g, w, g + 1) == w
  {
  }

  lemma AtStep(es: seq<Magic>, os: seq<Outcome>, g: nat, w: Walk, k: nat)
    requires |os| == |es| && g < |es| && g < k < GroupEnd(es, g) && (w.done.None? ==> Ok(w))
    ensures var v := At(es, os, g, w, k);
            v.done.None? ==> At(es, os, g, w, k + 1) == Cont(es[k], os[k], v, k)
  {
    hide Cont;
  }

  lemma {:induction false} AtStays(es: seq<Magic>, os: seq<Outcome>, g: nat, w: Walk, j: nat, k: nat)
    requires |os| == |es| && g < |es| && g < j <= k <= GroupEnd(es, g) && (w.done.None? ==> Ok(w))
    requires At(es, os, g, w, j).done.Some?
    ensures At(es, os, g, w, k) == At(es, os, g, w, j)
    decreases k
  {
    hide Cont;
    if j < k {
      AtStays(es, os, g, w, j, k - 1);
    }
  }

  /** Passes over the continuations of g: lines 1858 to 1861 and 1894 to 1904. */
  method SkipGroup(es: seq<Magic>, g: nat) returns (next: nat)
    requires g < |es|
    ensures g < next <= |es| && (next < |es| ==> es[next].level == 0)
    ensures forall k | g < k < next :: es[k].level != 0
    ensures next == GroupEnd(es, g)
  {
    hide GroupEnd;
    next := g;
    while next + 1 < |es| && es[next + 1].level != 0
      invariant g <= next < |es| && GroupEnd(es, next) == GroupEnd(es, g)
      invariant forall k | g < k <= next :: es[k].level != 0
    {
      EndStep(es, next);
      next := next + 1;
    }
    EndStep(es, next);
    next := next + 1;
  }

  class MagicSet {
    /** ms->c.li */
    var li: seq<Level>
    /** The tests made, with the offset each was made at. */
    var log: seq<Eval>

    /** The walk's state, some of it kept here and some in local variables. */
    function State(level: nat, printed: bool, val: int, done: Option<int>): Walk
      reads this
    {
      Walk(level, li, log, printed, val, done)
    }

    method FileCheckMem(level: nat, memory: bool) returns (rc: int)
      requires level < |li| + 20
      modifies `li
      ensures rc == if CheckLevel(old(li), level, memory).None? then -1 else 0
      ensures li == if rc == -1 then old(li) else CheckLevel(old(li), level, memory).value
    {
      if level >= |li| {
        if !memory {
          return -1;
        }
        li := li + seq(20, _ => GARBAGE);
      }
      li := li[level := li[level].(got := false, last := false)];
      return 0;
    }

    /** What follows a match, for first entries and continuations alike. */
    method Matched(m: Magic, o: Outcome, level: nat, printed: bool, val: int)
      returns (level': nat, printed': bool, val': int, done: Option<int>)
      requires level < |li|
      modifies `li
      ensures State(level', printed', val', done) == Fire(m, o, old(State(level, printed, val, None)))
    {
      level', printed', val', done := level, printed, val, None;
      if o.after.Annotated? && o.after.code != 0 {
        val', done := 1, Some(o.after.code);
        return;
      }
      if m.hasDesc {
        printed' := true;
      }
      if o.after.OutputFails? {
        done := Some(-1);
        return;
      }
      li := li[level := li[level].(off := if o.after.Proceeds? then o.after.off else 0)];
      level' := level + 1;
      var rc := FileCheckMem(level', o.memory);
      if rc == -1 {
        done := Some(-1);
      }
    }

    /** What mget does beside its answer: a nested match works on the same levels, and FILE_USE hands
        *returnval on to it. */
    method MgetEffect(m: Magic, o: Outcome, val: int) returns (val': int)
      modifies `li
      ensures li == Levels(m, o, old(li)) && val' == if m.kind.Use? && o.nested.sets then 1 else val
    {
      val' := val;
      if m.kind.Use? || m.kind.Indirect? {
        li := if |o.nested.li| >= |li| then o.nested.li else o.nested.li + li[|o.nested.li|..];
        if m.kind.Use? && o.nested.sets {
          val' := 1;
        }
      }
    }

    /** The test of a continuation: lines 1958 to 2038. */
    method TestContinuation(m: Magic, o: Outcome, level: nat, printed: bool, val: int)
      returns (level': nat, printed': bool, val': int, done: Option<int>)
      requires level < |li|
      modifies `li
      ensures State(level', printed', val', done) == Test(m, o, old(State(level, printed, val, None)))
    {
      hide Fire, Levels;
      level', printed', val', done := level, printed, val, None;
      val' := MgetEffect(m, o, val);
      match o.get {
        case GetError =>
          done := Some(-1);
          return;
        case GetNothing =>
          if !m.negated {
            return;
          }
        case GetSomething =>
          if m.kind.Indirect? {
            val' := 1;
          }
          match o.check {
            case CheckError =>
              done := Some(-1);
              return;
            case CheckFails =>
              li := li[level := li[level].(last := false)];
              return;
            case CheckHolds =>
          }
      }
      ghost var found, l := li, li[level];
      li := li[level := li[level].(last := true)];
      if !m.kind.Default? {
        li := li[level := li[level].(got := true)];
      } else if li[level].got {
        li := li[level := li[level].(got := false)];
        assert li == found[level := l.(got := false, last := true)];
        return;
      }
      assert li == found[level := l.(got := l.got || !m.kind.Default?, last := true)];
      level', printed', val', done := Matched(m, o, level', printed', val');
    }

    method Continuation(m: Magic, o: Outcome, k: nat, level: nat, printed: bool, val: int)
      returns (level': nat, printed': bool, val': int, done: Option<int>)
      requires level < |li| && m.level >= 1
      modifies this
      ensures State(level', printed', val', done) == Cont(m, o, old(State(level, printed, val, None)), k)
    {
      hide Test;
      level', printed', val', done := level, printed, val, None;
      if level < m.level {
        return;
      }
      if level > m.level {
        level' := m.level;
      }
      var offset := m.offset;
      if m.offAdd {
        offset := offset + li[level' - 1].off;
      }
      if (m.cond.Else? || m.cond.Elif?) && li[level'].last {
        return;
      }
      log := log + [Eval(k, offset)];
      level', printed', val', done := TestContinuation(m, o, level', printed', val');
    }

    method FirstEntry(m: Magic, o: Outcome, g: nat, level: nat, printed: bool, val: int)
      returns (entered: bool, level': nat, printed': bool, val': int, done: Option<int>)
      requires level < |li|
      modifies this
      ensures State(level', printed', val', done) == Head(m, o, old(State(level, printed, val, None)), g)
      ensures done.None? ==> (entered <==> Matches(m, o))
    {
      hide Fire, Levels;
      entered, level', printed', val', done := false, level, printed, val, None;
      log := log + [Eval(g, m.offset)];
      val' := MgetEffect(m, o, val);
      match o.get {
        case GetError =>
          done := Some(-1);
          return;
        case GetNothing =>
          if !m.negated {
            return;
          }
        case GetSomething =>
          if m.kind.Indirect? {
            val' := 1;
          }
          match o.check {
            case CheckError =>
              done := Some(-1);
              return;
            case CheckFails =>
              return;
            case CheckHolds =>
          }
      }
      entered := true;
      level', printed', val', done := Matched(m, o, level', printed', val');
    }

    /** All continuations of g, whose first entry has matched: lines 1931 to 2039. */
    method Continuations(es: seq<Magic>, os: seq<Outcome>, g: nat, level: nat, printed: bool, val: int)
      returns (magindex: nat, level': nat, printed': bool, val': int, done: Option<int>)
      requires |os| == |es| && g < |es| && level < |li|
      modifies this
      ensures State(level', printed', val', done) ==
                    At(es, os, g, old(State(level, printed, val, None)), GroupEnd(es, g))
      ensures done.None? ==> magindex + 1 == GroupEnd(es, g)
    {
      hide Cont, At, GroupEnd;
      magindex, level', printed', val', done := g, level, printed, val, None;
      ghost var w := State(level, printed, val, None);
      AtStart(es, os, g, w);
      EndStep(es, g);
      while magindex + 1 < |es| && es[magindex + 1].level != 0
        invariant g <= magindex < |es| && GroupEnd(es, magindex) == GroupEnd(es, g) && level' < |li|
        invariant done.None? && State(level', printed', val', None) == At(es, os, g, w, magindex + 1)
      {
        EndStep(es, magindex);
        AtStep(es, os, g, w, magindex + 1);
        magindex := magindex + 1;
        level', printed', val', done := Continuation(es[magindex], os[magindex], magindex, level', printed', val');
        if done.Some? {
          AtStays(es, os, g, w, magindex + 1, GroupEnd(es, g));
          return;
        }
      }
      EndStep(es, magindex);
    }

    /** `match`: the walk over the whole list, with a fresh log. */
    method Match(es: seq<Magic>, os: seq<Outcome>, opt: Options, memory: bool, val0: int)
        returns (result: int, val: int)
      requires |os| == |es|
      modifies this
      ensures var r := Run(es, os, opt, old(li), val0, memory);
              result == Result(r) && val == r.val && li == r.li && log == r.log
    {
      hide Head, Cont, At, Group, Groups, CheckLevel, GroupEnd;
      var magindex: nat, level: nat, printed := 0, 0, false;
      val, log := val0, [];
      ghost var run := Run(es, os, opt, old(li), val0, memory);
      var rc := FileCheckMem(level, memory);
      if rc == -1 {
        NoMore(es, os, opt, 0, State(level, printed, val, Some(-1)));
        return -1, val;
      }
      while magindex < |es|
        invariant magindex <= |es| && level < |li|
        invariant Groups(es, os, opt, magindex, State(level, printed, val, None)) == run
      {
        ghost var g, w := magindex, State(level, printed, val, None);
        var entered, done: Option<int> := false, None;
        if !es[magindex].excluded {
          entered, level, printed, val, done := FirstEntry(es[magindex], os[magindex], magindex, level, printed, val);
        }
        assert done.None? ==> Ok(State(level, printed, val, done));
        AfterHead(es, os, opt, g, w);
        if done.Some? {
          return done.value, val;
        }
        if !entered {
          magindex := SkipGroup(es, magindex);
          continue;
        }
        magindex, level, printed, val, done := Continuations(es, os, magindex, level, printed, val);
        if done.Some? {
          NoMore(es, os, opt, GroupEnd(es, g), State(level, printed, val, done));
          return done.value, val;
        }
        ghost var x := State(level, printed, val, None);
        assert Ok(x);
        if printed {
          if opt.prints {
            val := 1;
          }
        }
        if !opt.continues && printed {
          assert Close(opt, x) == State(level, printed, val, Some(val));
          NoMore(es, os, opt, GroupEnd(es, g), State(level, printed, val, Some(val)));
          return val, val;
        }
        assert Close(opt, x) == State(level, printed, val, None);
        magindex := magindex + 1;
      }
      NoMore(es, os, opt, magindex, State(level, printed, val, None));
      return val, val;
    }
  }
}
