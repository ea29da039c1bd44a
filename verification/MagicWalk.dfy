/** The walk of `match` in file/softmagic.c over a list of magic entries: one number and a few
    flags a level stand for a walk over the tree the continuation levels describe. What an
    entry is tested against is an oracle's business, and so is what a match nested in a test does
    to the levels. */
module MagicWalk {
  import opened Wrappers

  datatype Cond = NoCond | If | Elif | Else

  /** The types of entries the walk is concerned with: FILE_DEFAULT, FILE_USE, FILE_INDIRECT. */
  datatype Kind = Plain | Default | Use | Indirect

  /** What the walk needs of `struct magic`; `excluded` is the test of lines 1850 to 1855. */
  datatype Magic = Magic(
    level: nat, cond: Cond, kind: Kind, negated: bool, excluded: bool, hasDesc: bool, offset: int, offAdd: bool)

  /** For these mget calls `match` again, on the same levels. */
  predicate Reenters(m: Magic) {
    m.kind.Use? || m.kind.Indirect?
  }

  datatype Get = GetError | GetNothing | GetSomething
  datatype Check = CheckError | CheckFails | CheckHolds

  /** After a match: an annotation may end the walk with a code of its own, or output fail;
      else the offset behind the match is noted. */
  datatype After = Proceeds(off: int) | Annotated(code: int) | OutputFails

  /** What a nested match leaves behind: the first of the levels, and whether it set *returnval. */
  datatype Nested = Nested(li: seq<Level>, sets: bool)

  /** The answers of mget, magiccheck and the rest for one entry, and of the allocator. */
  datatype Outcome = Outcome(get: Get, nested: Nested, check: Check, after: After, memory: bool)

  predicate Matches(m: Magic, o: Outcome) {
    (o.get.GetNothing? && m.negated) || (o.get.GetSomething? && o.check.CheckHolds?)
  }

  predicate Chained(m: Magic) {
    m.cond.Else? || m.cond.Elif?
  }

  /** `struct level_info` */
  datatype Level = Level(got: bool, last: bool, off: int)

  datatype Eval = Eval(index: nat, offset: int)

  /** The state of the walk: cont_level, ms->c.li, the tests made, printed_something,
      *returnval, and the result once it is settled. */
  datatype Walk = Walk(level: nat, li: seq<Level>, log: seq<Eval>, printed: bool, val: int, done: Option<int>)

  /** What a grown ms->c.li holds before it is set. */
  const GARBAGE := Level(true, true, 0)

  /** file_check_mem: 20 more levels if need be, and a clean level. */
  function CheckLevel(li: seq<Level>, level: nat, memory: bool): (r: Option<seq<Level>>)
    requires level < |li| + 20
    ensures r.Some? ==> level < |r.value|
  {
    if level >= |li| && !memory then None
    else
      var grown := if level >= |li| then li + seq(20, _ => GARBAGE) else li;
      Some(grown[level := grown[level].(got := false, last := false)])
  }

  function CheckMem(w: Walk, memory: bool): Walk
    requires w.level < |w.li| + 20
  {
    match CheckLevel(w.li, w.level, memory)
    case None => w.(done := Some(-1))
    case Some(li) => w.(li := li)
  }

  predicate Ok(w: Walk) {
    w.level < |w.li|
  }

  /** ms->c.li behind mget, which changes it only through a nested match, and never shrinks it. */
  function Levels(m: Magic, o: Outcome, li: seq<Level>): (r: seq<Level>)
    ensures |li| <= |r|
  {
    if !Reenters(m) then li
    else if |o.nested.li| >= |li| then o.nested.li
    else o.nested.li + li[|o.nested.li|..]
  }

  /** What mget does to the state of the walk; only FILE_USE hands *returnval on. */
  function Mget(m: Magic, o: Outcome, w: Walk): Walk {
    w.(li := Levels(m, o, w.li), val := if m.kind.Use? && o.nested.sets then 1 else w.val)
  }

  const YES := Outcome(GetSomething, Nested([], false), CheckHolds, Proceeds(0), true)

  // ----- One continuation -----

  /** The part after a match and the handling of defaults: lines 1995 to 2036. */
  function Fire(m: Magic, o: Outcome, w: Walk): (r: Walk)
    requires Ok(w)
    ensures r.done.None? ==> Ok(r)
  {
    if o.after.Annotated? && o.after.code != 0 then w.(val := 1, done := Some(o.after.code))
    else if o.after.OutputFails? then w.(done := Some(-1), printed := w.printed || m.hasDesc)
    else
      var off := if o.after.Proceeds? then o.after.off else 0;
      var v := w.(printed := w.printed || m.hasDesc,
                 li := w.li[w.level := w.li[w.level].(off := off)], level := w.level + 1);
      CheckMem(v, o.memory)
  }

  /** The test of a continuation on its own level: lines 1958 to 2038. */
  function Test(m: Magic, o: Outcome, w: Walk): (r: Walk)
    requires Ok(w)
    ensures r.done.None? ==> Ok(r)
  {
    var u := Mget(m, o, w);
    if o.get.GetError? then u.(done := Some(-1))
    else if o.get.GetNothing? && !m.negated then u
    else
      var v := if o.get.GetSomething? && m.kind.Indirect? then u.(val := 1) else u;
      var l := v.li[v.level];
      if o.get.GetSomething? && o.check.CheckError? then v.(done := Some(-1))
      else if o.get.GetSomething? && o.check.CheckFails? then v.(li := v.li[v.level := l.(last := false)])
      else if m.kind.Default? && l.got then v.(li := v.li[v.level := l.(got := false, last := true)])
      else Fire(m, o, v.(li := v.li[v.level := l.(got := l.got || !m.kind.Default?, last := true)]))
  }

  /** Lines 1934 to 2038 for the continuation number k. */
  function Cont(m: Magic, o: Outcome, w: Walk, k: nat): (r: Walk)
    requires Ok(w) && m.level >= 1
    ensures r.done.None? ==> Ok(r)
  {
    if w.level < m.level then w
    else
      var v := w.(level := m.level);
      if Chained(m) && v.li[v.level].last then v
      else
        var base := if m.offAdd then v.li[v.level - 1].off else 0;
        Test(m, o, v.(log := v.log + [Eval(k, m.offset + base)]))
  }

  // ----- A group -----

  /** The end of the group that begins at g. */
  function GroupEnd(es: seq<Magic>, g: nat): (e: nat)
    requires g < |es|
    ensures g < e <= |es| && forall k | g < k < e :: es[k].level != 0
    ensures e < |es| ==> es[e].level == 0
    decreases |es| - g
  {
    if g + 1 == |es| || es[g + 1].level == 0 then g + 1 else GroupEnd(es, g + 1)
  }

  /** The state before entry k of the group of g, the walk of the continuations having begun in
      state w; it stays put once the result is settled. */
  function At(es: seq<Magic>, os: seq<Outcome>, g: nat, w: Walk, k: nat): (r: Walk)
    requires |os| == |es| && g < |es| && g < k <= GroupEnd(es, g) && (w.done.None? ==> Ok(w))
    ensures r.done.None? ==> Ok(r)
    decreases k
  {
    if k == g + 1 then w
    else
      var v := At(es, os, g, w, k - 1);
      if v.done.Some? then v else Cont(es[k - 1], os[k - 1], v, k - 1)
  }

  // What the counter walk does with entry k.

  predicate Reached(es: seq<Magic>, os: seq<Outcome>, g: nat, w: Walk, k: nat)
    requires |os| == |es| && g < |es| && g < k < GroupEnd(es, g) && (w.done.None? ==> Ok(w))
  {
    var v := At(es, os, g, w, k);
    v.done.None? && es[k].level <= v.level
  }

  predicate Tested(es: seq<Magic>, os: seq<Outcome>, g: nat, w: Walk, k: nat)
    requires |os| == |es| && g < |es| && g < k < GroupEnd(es, g) && (w.done.None? ==> Ok(w))
  {
    Reached(es, os, g, w, k) && !(Chained(es[k]) && At(es, os, g, w, k).li[es[k].level].last)
  }

  predicate Fired(es: seq<Magic>, os: seq<Outcome>, g: nat, w: Walk, k: nat)
    requires |os| == |es| && g < |es| && g < k < GroupEnd(es, g) && (w.done.None? ==> Ok(w))
  {
    && Tested(es, os, g, w, k) && Matches(es[k], os[k])
    && !(es[k].kind.Default? && At(es, os, g, w, k).li[es[k].level].got)
  }

  // ----- The tree -----

  /** The nearest entry before k whose level is below l; g itself bounds the group. */
  function Nearest(es: seq<Magic>, g: nat, k: nat, l: nat): (p: nat)
    requires g < k <= |es|
    ensures g <= p < k
    ensures p > g ==> es[p].level < l
    ensures forall j | p < j < k :: es[j].level >= l
    decreases k
  {
    if k == g + 1 then g else if es[k - 1].level < l then k - 1 else Nearest(es, g, k - 1, l)
  }

  /** The controlling entry: the nearest one before of smaller level. */
  function Parent(es: seq<Magic>, g: nat, k: nat): (p: nat)
    requires g < k < |es|
    ensures g <= p < k
  {
    Nearest(es, g, k, es[k].level)
  }

  /** Siblings share two flags: whether one has matched since the last default that was passed
      over, and whether the last one that was checked did. */
  datatype Flags = Flags(got: bool, last: bool)

  const CLEAN := Flags(false, false)

  function FlagsIn(li: seq<Level>, l: nat): Flags
    requires l < |li|
  {
    Flags(li[l].got, li[l].last)
  }

  function FlagsAt(w: Walk, l: nat): Flags
    requires l < |w.li|
  {
    FlagsIn(w.li, l)
  }

  predicate Hit(m: Magic, o: Outcome, f: Flags) {
    !(Chained(m) && f.last) && Matches(m, o) && !(m.kind.Default? && f.got)
  }

  /** The flags behind a test that found f. */
  function Settle(m: Magic, o: Outcome, f: Flags): Flags {
    if o.get.GetError? || (o.get.GetNothing? && !m.negated) || (o.get.GetSomething? && o.check.CheckError?) then f
    else if !Matches(m, o) then f.(last := false)
    else Flags(!m.kind.Default?, true)
  }

  function SiblingStep(m: Magic, o: Outcome, f: Flags): Flags {
    if Chained(m) && f.last then f else Settle(m, o, f)
  }

  /** The flags of the children at level l of entry p before entry k; the first of them finds
      the flags `start`. */
  function Siblings(es: seq<Magic>, os: seq<Outcome>, p: nat, l: nat, start: Flags, k: nat): Flags
    requires |os| == |es| && p < k <= |es|
    decreases k
  {
    if k == p + 1 then start
    else
      var f := Siblings(es, os, p, l, start, k - 1);
      if es[k - 1].level == l then SiblingStep(es[k - 1], os[k - 1], f) else f
  }

  /** The flags entry k finds; the children of the group's first entry begin with `start`. */
  function FlagsOf(es: seq<Magic>, os: seq<Outcome>, g: nat, start: Flags, k: nat): Flags
    requires |os| == |es| && g < k < |es|
  {
    var p := Parent(es, g, k);
    Siblings(es, os, p, es[k].level, if p == g then start else CLEAN, k)
  }

  /** The rules of the tree: a child is reached when its parent fired; an arm of a chain is not
      tested when one before has matched; a default is passed over when a sibling matched. */
  predicate TreeReached(es: seq<Magic>, os: seq<Outcome>, g: nat, start: Flags, k: nat)
    requires |os| == |es| && g < k < |es|
    decreases k, 0
  {
    var p := Parent(es, g, k);
    if p == g then es[k].level == 1 else es[k].level == es[p].level + 1 && TreeFired(es, os, g, start, p)
  }

  predicate TreeTested(es: seq<Magic>, os: seq<Outcome>, g: nat, start: Flags, k: nat)
    requires |os| == |es| && g < k < |es|
    decreases k, 1
  {
    TreeReached(es, os, g, start, k) && !(Chained(es[k]) && FlagsOf(es, os, g, start, k).last)
  }

  predicate TreeFired(es: seq<Magic>, os: seq<Outcome>, g: nat, start: Flags, k: nat)
    requires |os| == |es| && g < k < |es|
    decreases k, 2
  {
    && TreeTested(es, os, g, start, k) && Matches(es[k], os[k])
    && !(es[k].kind.Default? && FlagsOf(es, os, g, start, k).got)
  }

  // ----- One continuation, seen from outside -----

  function Noted(o: Outcome): int {
    if o.after.Proceeds? then o.after.off else 0
  }

  lemma CheckMemEffect(w: Walk, memory: bool)
    requires w.level < |w.li| + 20
    ensures var r := CheckMem(w, memory);
            && r.level == w.level && r.log == w.log
            && (r.done.None? ==>
                  && |w.li| <= |r.li| && Ok(r) && FlagsAt(r, r.level) == CLEAN
                  && forall l | 0 <= l < |w.li| && l != w.level :: r.li[l] == w.li[l])
  {
  }

  lemma FireEffect(m: Magic, o: Outcome, w: Walk)
    requires Ok(w)
    ensures var r := Fire(m, o, w);
            && r.log == w.log
            && (r.done.None? ==>
                  && r.level == w.level + 1 && |w.li| <= |r.li| && Ok(r) && FlagsAt(r, r.level) == CLEAN
                  && FlagsAt(r, w.level) == FlagsAt(w, w.level) && r.li[w.level].off == Noted(o)
                  && forall l | 0 <= l < w.level :: r.li[l] == w.li[l])
  {
    var v := w.(printed := w.printed || m.hasDesc,
               li := w.li[w.level := w.li[w.level].(off := Noted(o))], level := w.level + 1);
    hide CheckMem;
    CheckMemEffect(v, o.memory);
  }

  lemma TestEffect(m: Magic, o: Outcome, w: Walk)
    requires Ok(w) && !(Chained(m) && FlagsAt(w, w.level).last)
    ensures var r := Test(m, o, w);
            var f := FlagsAt(w, w.level);
            && r.log == w.log
            && (r.done.None? ==>
                  && r.level == w.level + (if Hit(m, o, f) then 1 else 0) && |w.li| <= |r.li|
                  && FlagsAt(r, w.level) == Settle(m, o, FlagsIn(Levels(m, o, w.li), w.level))
                  && (forall l | 0 <= l < w.level :: r.li[l] == Levels(m, o, w.li)[l])
                  && (Hit(m, o, f) ==> Ok(r) && FlagsAt(r, r.level) == CLEAN && r.li[w.level].off == Noted(o)))
  {
    hide Fire;
    var u := Mget(m, o, w);
    var v := if o.get.GetSomething? && m.kind.Indirect? then u.(val := 1) else u;
    var l := v.li[v.level];
    FireEffect(m, o, v.(li := v.li[v.level := l.(got := l.got || !m.kind.Default?, last := true)]));
  }

  function Base(m: Magic, noted: int): int {
    m.offset + (if m.offAdd then noted else 0)
  }

  /** What a reached continuation does to the level, to the flags of its own level, of the one
      below it and to the log. */
  lemma ReachedEffect(m: Magic, o: Outcome, w: Walk, k: nat)
    requires Ok(w) && 1 <= m.level <= w.level
    ensures var r := Cont(m, o, w, k);
            var f := FlagsAt(w, m.level);
            if Chained(m) && f.last then r == w.(level := m.level)
            else
              var li := Levels(m, o, w.li);
              && r.log == w.log + [Eval(k, Base(m, w.li[m.level - 1].off))]
              && (w.done.None? && r.done.None? ==>
                    && r.level == m.level + (if Hit(m, o, f) then 1 else 0) && |w.li| <= |r.li|
                    && FlagsAt(r, m.level) == Settle(m, o, FlagsIn(li, m.level))
                    && (forall l | 0 <= l < m.level :: r.li[l] == li[l])
                    && (Hit(m, o, f) ==> Ok(r) && FlagsAt(r, r.level) == CLEAN && r.li[m.level].off == Noted(o)))
  {
    hide Test, Matches, CheckMem, Noted, Levels, Settle;
    var v := w.(level := m.level);
    if !(Chained(m) && v.li[v.level].last) {
      TestEffect(m, o, v.(log := v.log + [Eval(k, Base(m, v.li[v.level - 1].off))]));
    }
  }

  // ----- The counter walk is the tree walk -----

  /** A walk of the continuations of g is under way: the group's first entry has matched. */
  predicate Ready(es: seq<Magic>, os: seq<Outcome>, g: nat, w: Walk) {
    |os| == |es| && g < |es| && w.done.None? && Ok(w) && w.level >= 1
  }

  lemma {:induction false} StillGoing(es: seq<Magic>, os: seq<Outcome>, g: nat, w: Walk, j: nat, k: nat)
    requires Ready(es, os, g, w) && g < j <= k <= GroupEnd(es, g)
    ensures At(es, os, g, w, k).done.None? ==> At(es, os, g, w, j).done.None?
    decreases k
  {
    hide Cont;
    if j < k {
      StillGoing(es, os, g, w, j, k - 1);
    }
  }

  /** Level l is open before entry k: an entry of that level would be reached. */
  predicate Open(es: seq<Magic>, os: seq<Outcome>, g: nat, w: Walk, k: nat, l: nat)
    requires Ready(es, os, g, w) && g < k <= GroupEnd(es, g)
  {
    var p := Nearest(es, g, k, l);
    if p == g then l <= w.level else l == es[p].level + 1 && Fired(es, os, g, w, p)
  }

  lemma ContEffect(es: seq<Magic>, os: seq<Outcome>, g: nat, w: Walk, k: nat)
    requires Ready(es, os, g, w) && g < k < GroupEnd(es, g) && At(es, os, g, w, k).done.None?
    ensures var v, r := At(es, os, g, w, k), At(es, os, g, w, k + 1);
            var m, o := es[k], os[k];
            && r == Cont(m, o, v, k)
            && (Reached(es, os, g, w, k) <==> m.level <= v.level)
            && (m.level > v.level ==> r == v)
            && (m.level <= v.level ==>
                  var f := FlagsAt(v, m.level);
                  && (Tested(es, os, g, w, k) <==> !(Chained(m) && f.last))
                  && (Fired(es, os, g, w, k) <==> Hit(m, o, f))
                  && (Chained(m) && f.last ==> r == v.(level := m.level))
                  && (!(Chained(m) && f.last) ==>
                        var li := Levels(m, o, v.li);
                        && r.log == v.log + [Eval(k, Base(m, v.li[m.level - 1].off))]
                        && (r.done.None? ==>
                              && r.level == m.level + (if Hit(m, o, f) then 1 else 0) && |v.li| <= |r.li|
                              && FlagsAt(r, m.level) == Settle(m, o, FlagsIn(li, m.level))
                              && (forall l | 0 <= l < m.level :: r.li[l] == li[l])
                              && (Hit(m, o, f) ==>
                                    Ok(r) && FlagsAt(r, r.level) == CLEAN && r.li[m.level].off == Noted(o)))))
  {
    var v := At(es, os, g, w, k);
    hide Test, Settle, Matches, Levels;
    if es[k].level <= v.level {
      ReachedEffect(es[k], os[k], v, k);
    }
  }

  lemma NearestStep(es: seq<Magic>, g: nat, k: nat, l: nat)
    requires g + 1 < k <= |es|
    ensures Nearest(es, g, k, l) == if es[k - 1].level < l then k - 1 else Nearest(es, g, k - 1, l)
  {
  }

  lemma NextLevel(es: seq<Magic>, os: seq<Outcome>, g: nat, w: Walk, k: nat)
    requires Ready(es, os, g, w) && g < k < GroupEnd(es, g) && At(es, os, g, w, k + 1).done.None?
    ensures var v, r, l := At(es, os, g, w, k), At(es, os, g, w, k + 1), es[k].level;
            r.level == if l > v.level then v.level else l + (if Fired(es, os, g, w, k) then 1 else 0)
    ensures Fired(es, os, g, w, k) ==> es[k].level <= At(es, os, g, w, k).level
  {
    StillGoing(es, os, g, w, k, k + 1);
    ContEffect(es, os, g, w, k);
    hide At, Cont, Tested, Hit, Settle, Levels, FlagsIn, Chained, Base;
  }

  lemma SiblingsStep(es: seq<Magic>, os: seq<Outcome>, p: nat, l: nat, start: Flags, k: nat)
    requires |os| == |es| && p <= k < |es|
    ensures Siblings(es, os, p, l, start, p + 1) == start
    ensures p < k ==>
              var f := Siblings(es, os, p, l, start, k);
              Siblings(es, os, p, l, start, k + 1) == if es[k].level == l then SiblingStep(es[k], os[k], f) else f
  {
    hide SiblingStep;
  }

  // ----- Nested matches -----

  /** The levels mget leaves are as good as the ones it found: at the open levels below, flags and
      offsets are what they were, and at the entry's own level the test makes the same of the flags. */
  predicate Spares(m: Magic, o: Outcome, li: seq<Level>)
    requires m.level < |li|
  {
    var li' := Levels(m, o, li);
    && (forall l | 1 <= l < m.level :: FlagsIn(li', l) == FlagsIn(li, l))
    && (forall l | 0 <= l < m.level :: li'[l].off == li[l].off)
    && Settle(m, o, FlagsIn(li', m.level)) == Settle(m, o, FlagsIn(li, m.level))
  }

  predicate Spared(es: seq<Magic>, os: seq<Outcome>, g: nat, w: Walk, k: nat)
    requires Ready(es, os, g, w) && g < k < GroupEnd(es, g)
  {
    Tested(es, os, g, w, k) ==> Spares(es[k], os[k], At(es, os, g, w, k).li)
  }

  /** No nested match of the entries before k has spoiled what they share. */
  predicate Undisturbed(es: seq<Magic>, os: seq<Outcome>, g: nat, w: Walk, k: nat)
    requires Ready(es, os, g, w) && g < k <= GroupEnd(es, g)
  {
    forall j | g < j < k :: Spared(es, os, g, w, j)
  }

  /** So it is where no entry that was tested is FILE_USE or FILE_INDIRECT. */
  lemma PlainIsUndisturbed(es: seq<Magic>, os: seq<Outcome>, g: nat, w: Walk, k: nat)
    requires Ready(es, os, g, w) && g < k <= GroupEnd(es, g)
    requires forall j | g < j < k && Tested(es, os, g, w, j) :: !Reenters(es[j])
    ensures Undisturbed(es, os, g, w, k)
  {
    hide At, Settle;
  }

  /** What entry k leaves at a level that is open behind it. */
  lemma NextState(es: seq<Magic>, os: seq<Outcome>, g: nat, w: Walk, k: nat, l: nat)
    requires Ready(es, os, g, w) && g < k < GroupEnd(es, g) && l >= 1
    requires var r := At(es, os, g, w, k + 1); r.done.None? && l <= r.level
    ensures var v, r, m := At(es, os, g, w, k), At(es, os, g, w, k + 1), es[k];
            && (m.level < l ==> m.level + 1 == l && FlagsAt(r, l) == CLEAN && r.li[l - 1].off == Noted(os[k]))
            && (m.level >= l ==> l <= v.level)
            && (m.level >= l && (m.level > v.level || !Tested(es, os, g, w, k)) ==> r.li == v.li)
            && (m.level >= l && Tested(es, os, g, w, k) ==>
                  var li := Levels(m, os[k], v.li);
                  && r.li[l - 1].off == li[l - 1].off
                  && FlagsAt(r, l) == if m.level == l then Settle(m, os[k], FlagsIn(li, l)) else FlagsIn(li, l))
  {
    StillGoing(es, os, g, w, k, k + 1);
    ContEffect(es, os, g, w, k);
    hide At, Cont, Fired, Hit, Settle, Levels, Chained, Base, Noted;
  }

  /** The same where a nested match has spoiled nothing. */
  lemma NextStateSpared(es: seq<Magic>, os: seq<Outcome>, g: nat, w: Walk, k: nat, l: nat)
    requires Ready(es, os, g, w) && g < k < GroupEnd(es, g) && l >= 1 && Spared(es, os, g, w, k)
    requires var r := At(es, os, g, w, k + 1); r.done.None? && l <= r.level
    ensures var v, r, m := At(es, os, g, w, k), At(es, os, g, w, k + 1), es[k];
            && (m.level < l ==> FlagsAt(r, l) == CLEAN && r.li[l - 1].off == Noted(os[k]))
            && (m.level >= l ==>
                  && l <= v.level && r.li[l - 1].off == v.li[l - 1].off
                  && FlagsAt(r, l) == if m.level == l then SiblingStep(m, os[k], FlagsAt(v, l)) else FlagsAt(v, l))
  {
    StillGoing(es, os, g, w, k, k + 1);
    NextState(es, os, g, w, k, l);
    hide At, Settle, Levels, Noted;
  }

  /** The one counter stands for the set of open levels. */
  lemma {:induction false} LevelIsOpen(es: seq<Magic>, os: seq<Outcome>, g: nat, w: Walk, k: nat, l: nat)
    requires Ready(es, os, g, w) && g < k <= GroupEnd(es, g)
    ensures var v := At(es, os, g, w, k);
            v.done.None? ==> (l <= v.level <==> Open(es, os, g, w, k, l))
    decreases k
  {
    hide Cont, GroupEnd, Tested, Reached, Matches, Chained;
    if k == g + 1 || At(es, os, g, w, k).done.Some? {
      return;
    }
    hide At, Fired, Nearest;
    StillGoing(es, os, g, w, k - 1, k);
    LevelIsOpen(es, os, g, w, k - 1, l);
    NearestStep(es, g, k, l);
    NextLevel(es, os, g, w, k - 1);
  }

  /** A continuation is reached exactly when its controlling entry fired and stands one level
      below; for those controlled by the group's first entry the level the group was entered
      with decides. */
  lemma CounterRule(es: seq<Magic>, os: seq<Outcome>, g: nat, w: Walk, k: nat)
    requires Ready(es, os, g, w) && g < k < GroupEnd(es, g) && At(es, os, g, w, k).done.None?
    ensures Reached(es, os, g, w, k) <==>
              var p := Parent(es, g, k);
              if p == g then es[k].level <= w.level else es[k].level == es[p].level + 1 && Fired(es, os, g, w, p)
  {
    LevelIsOpen(es, os, g, w, k, es[k].level);
    hide At, Fired;
  }

  function StartFlags(w: Walk, l: nat): Flags {
    if l < |w.li| then FlagsAt(w, l) else CLEAN
  }

  function StartOff(w: Walk, l: nat): int {
    if 1 <= l <= |w.li| then w.li[l - 1].off else 0
  }

  /** The flags the tree has at an open level, and the offset it has at the level below. */
  function TreeFlags(es: seq<Magic>, os: seq<Outcome>, g: nat, w: Walk, k: nat, l: nat): Flags
    requires |os| == |es| && g < k <= |es|
  {
    var p := Nearest(es, g, k, l);
    Siblings(es, os, p, l, if p == g then StartFlags(w, l) else CLEAN, k)
  }

  function TreeOff(es: seq<Magic>, os: seq<Outcome>, g: nat, w: Walk, k: nat, l: nat): int
    requires |os| == |es| && g < k <= |es|
  {
    var p := Nearest(es, g, k, l);
    if p == g then StartOff(w, l) else Noted(os[p])
  }

  /** Level l, if open, is as the tree has it. */
  predicate LevelAgrees(es: seq<Magic>, os: seq<Outcome>, g: nat, w: Walk, k: nat, l: nat)
    requires Ready(es, os, g, w) && g < k <= GroupEnd(es, g) && l >= 1
  {
    var v := At(es, os, g, w, k);
    v.done.None? && l <= v.level ==>
      && FlagsAt(v, l) == TreeFlags(es, os, g, w, k, l)
      && v.li[l - 1].off == TreeOff(es, os, g, w, k, l)
  }

  /** What entry k does to the values of the tree. */
  lemma TreeStep(es: seq<Magic>, os: seq<Outcome>, g: nat, w: Walk, k: nat, l: nat)
    requires |os| == |es| && g < k < |es|
    ensures es[k].level < l ==>
            TreeFlags(es, os, g, w, k + 1, l) == CLEAN && TreeOff(es, os, g, w, k + 1, l) == Noted(os[k])
    ensures es[k].level >= l ==>
              var f := TreeFlags(es, os, g, w, k, l);
              && TreeFlags(es, os, g, w, k + 1, l) == (if es[k].level == l then SiblingStep(es[k], os[k], f) else f)
              && TreeOff(es, os, g, w, k + 1, l) == TreeOff(es, os, g, w, k, l)
  {
    hide SiblingStep, Noted, Nearest, Siblings, StartFlags, StartOff;
    NearestStep(es, g, k + 1, l);
    var p := Nearest(es, g, k + 1, l);
    SiblingsStep(es, os, p, l, if p == g then StartFlags(w, l) else CLEAN, k);
  }

  /** An open level holds the flags of the siblings it belongs to, and the level below it the
      offset their parent noted. */
  lemma {:induction false} LevelState(es: seq<Magic>, os: seq<Outcome>, g: nat, w: Walk, k: nat, l: nat)
    requires Ready(es, os, g, w) && g < k <= GroupEnd(es, g) && l >= 1 && Undisturbed(es, os, g, w, k)
    ensures LevelAgrees(es, os, g, w, k, l)
    decreases k
  {
    hide Cont, GroupEnd, Chained, Matches, Noted, SiblingStep, Levels, Spared;
    if k == g + 1 || At(es, os, g, w, k).done.Some? || l > At(es, os, g, w, k).level {
      return;
    }
    hide At, Nearest, FlagsAt, TreeFlags, TreeOff;
    StillGoing(es, os, g, w, k - 1, k);
    NextStateSpared(es, os, g, w, k - 1, l);
    if es[k - 1].level >= l {
      LevelState(es, os, g, w, k - 1, l);
    }
    TreeStep(es, os, g, w, k - 1, l);
  }

  // ----- Nested matches: exactly what the tree survives -----

  ghost predicate LevelsAgree(es: seq<Magic>, os: seq<Outcome>, g: nat, w: Walk, k: nat)
    requires Ready(es, os, g, w) && g < k <= GroupEnd(es, g)
  {
    forall l | l >= 1 :: LevelAgrees(es, os, g, w, k, l)
  }

  /** An entry m, were it the next one, is dealt with as in the tree: skipped as an arm of a chain,
      tested at an offset, passed over as a default. */
  predicate DealsAsTree(es: seq<Magic>, os: seq<Outcome>, g: nat, w: Walk, k: nat, m: Magic)
    requires Ready(es, os, g, w) && g < k <= GroupEnd(es, g)
  {
    var v := At(es, os, g, w, k);
    v.done.None? && 1 <= m.level <= v.level ==>
      var f, t := FlagsAt(v, m.level), TreeFlags(es, os, g, w, k, m.level);
      && (Chained(m) && f.last <==> Chained(m) && t.last)
      && (m.kind.Default? && f.got <==> m.kind.Default? && t.got)
      && Base(m, v.li[m.level - 1].off) == Base(m, TreeOff(es, os, g, w, k, m.level))
  }

  /** Whatever comes next, it is dealt with as in the tree. */
  ghost predicate AllAsTree(es: seq<Magic>, os: seq<Outcome>, g: nat, w: Walk, k: nat)
    requires Ready(es, os, g, w) && g < k <= GroupEnd(es, g)
  {
    forall m :: DealsAsTree(es, os, g, w, k, m)
  }

  /** That is so exactly if all open levels are as the tree has them. */
  lemma AnyNextEntry(es: seq<Magic>, os: seq<Outcome>, g: nat, w: Walk, k: nat)
    requires Ready(es, os, g, w) && g < k <= GroupEnd(es, g)
    ensures AllAsTree(es, os, g, w, k) <==> LevelsAgree(es, os, g, w, k)
  {
    hide At, TreeFlags, TreeOff;
    if AllAsTree(es, os, g, w, k) {
      forall l | l >= 1 ensures LevelAgrees(es, os, g, w, k, l) {
        var v := At(es, os, g, w, k);
        var m := Magic(l, Else, Default, false, false, false, 0, true);
        assert DealsAsTree(es, os, g, w, k, m);
      }
    } else {
      var m :| !DealsAsTree(es, os, g, w, k, m);
      assert m.level >= 1 && !LevelAgrees(es, os, g, w, k, m.level);
    }
  }

  /** After a test that may have nested another match, the walk still deals with whatever comes next
      as the tree does exactly if the nested match spared the levels. */
  lemma NestedMatchIsExact(es: seq<Magic>, os: seq<Outcome>, g: nat, w: Walk, k: nat)
    requires Ready(es, os, g, w) && g < k < GroupEnd(es, g)
    requires LevelsAgree(es, os, g, w, k) && Tested(es, os, g, w, k) && At(es, os, g, w, k + 1).done.None?
    ensures AllAsTree(es, os, g, w, k + 1) <==> Spared(es, os, g, w, k)
  {
    hide At, Settle, Levels, Noted, AllAsTree, TreeFlags, TreeOff, Tested, Spares, AgreesBehind, LevelAgrees;
    AnyNextEntry(es, os, g, w, k + 1);
    TestedMeans(es, os, g, w, k);
    var m, o, li, n := es[k], os[k], At(es, os, g, w, k).li, k + 1;
    SparesByLevel(m, o, li);
    if LevelsAgree(es, os, g, w, k + 1) {
      forall l | l >= 1 ensures AgreesBehind(m, o, li, l) {
        AgreesStep(es, os, g, w, k, l);
        assert LevelAgrees(es, os, g, w, n, l);
      }
    }
    if Spares(m, o, li) {
      forall l | l >= 1 ensures LevelAgrees(es, os, g, w, n, l) {
        AgreesStep(es, os, g, w, k, l);
        assert AgreesBehind(m, o, li, l);
      }
    }
  }

  lemma TestedMeans(es: seq<Magic>, os: seq<Outcome>, g: nat, w: Walk, k: nat)
    requires Ready(es, os, g, w) && g < k < GroupEnd(es, g) && Tested(es, os, g, w, k)
    ensures var v := At(es, os, g, w, k);
            v.done.None? && 1 <= es[k].level <= v.level && !(Chained(es[k]) && FlagsAt(v, es[k].level).last)
  {
    hide At;
  }

  /** What Spares asks for at level l. */
  predicate AgreesBehind(m: Magic, o: Outcome, li: seq<Level>, l: nat)
    requires m.level < |li| && l >= 1
  {
    l <= m.level ==>
      var li' := Levels(m, o, li);
      && li'[l - 1].off == li[l - 1].off
      && (l < m.level ==> FlagsIn(li', l) == FlagsIn(li, l))
      && (l == m.level ==> Settle(m, o, FlagsIn(li', l)) == Settle(m, o, FlagsIn(li, l)))
  }

  lemma SparesByLevel(m: Magic, o: Outcome, li: seq<Level>)
    requires 1 <= m.level < |li|
    ensures Spares(m, o, li) <==> forall l | l >= 1 :: AgreesBehind(m, o, li, l)
  {
    hide Settle, Levels, FlagsIn;
    var li' := Levels(m, o, li);
    if forall l | l >= 1 :: AgreesBehind(m, o, li, l) {
      forall l | 0 <= l < m.level ensures li'[l].off == li[l].off {
        assert AgreesBehind(m, o, li, l + 1);
      }
      forall l | 1 <= l < m.level ensures FlagsIn(li', l) == FlagsIn(li, l) {
        assert AgreesBehind(m, o, li, l);
      }
      assert AgreesBehind(m, o, li, m.level);
    }
  }

  lemma AgreesStep(es: seq<Magic>, os: seq<Outcome>, g: nat, w: Walk, k: nat, l: nat)
    requires Ready(es, os, g, w) && g < k < GroupEnd(es, g) && l >= 1
    requires LevelsAgree(es, os, g, w, k) && Tested(es, os, g, w, k) && At(es, os, g, w, k + 1).done.None?
    ensures es[k].level <= At(es, os, g, w, k).level
    ensures LevelAgrees(es, os, g, w, k + 1, l) <==> AgreesBehind(es[k], os[k], At(es, os, g, w, k).li, l)
  {
    hide At, Settle, Levels, Noted, TreeFlags, TreeOff, Tested;
    TestedMeans(es, os, g, w, k);
    NextLevel(es, os, g, w, k);
    if l <= At(es, os, g, w, k + 1).level {
      NextState(es, os, g, w, k, l);
      TreeStep(es, os, g, w, k, l);
      assert LevelAgrees(es, os, g, w, k, l);
    }
  }

  /** Throughout a group whatever comes next is dealt with as the tree does exactly if no nested match
      before has spoiled the levels. */
  lemma TreeSurvivesExactly(es: seq<Magic>, os: seq<Outcome>, g: nat, w: Walk, k: nat)
    requires Ready(es, os, g, w) && g < k <= GroupEnd(es, g) && At(es, os, g, w, k).done.None?
    ensures (forall j | g < j <= k :: AllAsTree(es, os, g, w, j)) <==> Undisturbed(es, os, g, w, k)
  {
    hide At, AllAsTree, Spared, LevelsAgree;
    if Undisturbed(es, os, g, w, k) {
      forall j | g < j <= k ensures AllAsTree(es, os, g, w, j) {
        AgreesWhenUndisturbed(es, os, g, w, j);
        AnyNextEntry(es, os, g, w, j);
      }
    }
    if forall j | g < j <= k :: AllAsTree(es, os, g, w, j) {
      forall j | g < j < k ensures Spared(es, os, g, w, j) {
        SparedBetween(es, os, g, w, j, k);
      }
    }
  }

  lemma SparedBetween(es: seq<Magic>, os: seq<Outcome>, g: nat, w: Walk, j: nat, k: nat)
    requires Ready(es, os, g, w) && g < j < k <= GroupEnd(es, g) && At(es, os, g, w, k).done.None?
    requires AllAsTree(es, os, g, w, j) && AllAsTree(es, os, g, w, j + 1)
    ensures Spared(es, os, g, w, j)
  {
    hide At, AllAsTree, Spares, Tested, LevelsAgree;
    StillGoing(es, os, g, w, j + 1, k);
    AnyNextEntry(es, os, g, w, j);
    if Tested(es, os, g, w, j) {
      NestedMatchIsExact(es, os, g, w, j);
    }
  }

  lemma AgreesWhenUndisturbed(es: seq<Magic>, os: seq<Outcome>, g: nat, w: Walk, k: nat)
    requires Ready(es, os, g, w) && g < k <= GroupEnd(es, g) && Undisturbed(es, os, g, w, k)
    ensures LevelsAgree(es, os, g, w, k)
  {
    forall l | l >= 1 ensures LevelAgrees(es, os, g, w, k, l) {
      LevelState(es, os, g, w, k, l);
    }
  }

  // ----- Groups whose levels rise from 1 -----

  /** The levels of the group rise from 1, or it is entered at level 1. */
  predicate Regular(es: seq<Magic>, g: nat, w: Walk)
    requires g < |es|
  {
    w.level == 1 || (g + 1 < GroupEnd(es, g) ==> es[g + 1].level == 1)
  }

  /** The counter, the flags and the saved offsets of a level do what the tree asks for. */
  lemma {:induction false} CounterIsTree(es: seq<Magic>, os: seq<Outcome>, g: nat, w: Walk, k: nat)
    requires Ready(es, os, g, w) && Regular(es, g, w)
    requires g < k < GroupEnd(es, g) && At(es, os, g, w, k).done.None? && Undisturbed(es, os, g, w, k)
    ensures var start := FlagsAt(w, 1);
            && (Reached(es, os, g, w, k) <==> TreeReached(es, os, g, start, k))
            && (Tested(es, os, g, w, k) <==> TreeTested(es, os, g, start, k))
            && (Fired(es, os, g, w, k) <==> TreeFired(es, os, g, start, k))
    decreases k
  {
    hide At, Siblings, Matches, Spared;
    var p := Parent(es, g, k);
    var l := es[k].level;
    CounterRule(es, os, g, w, k);
    if p > g {
      StillGoing(es, os, g, w, p, k);
      CounterIsTree(es, os, g, w, p);
    } else {
      assert l <= w.level ==> l == 1;
    }
    assert Reached(es, os, g, w, k) <==> TreeReached(es, os, g, FlagsAt(w, 1), k);
    if Reached(es, os, g, w, k) {
      LevelState(es, os, g, w, k, l);
      assert FlagsAt(At(es, os, g, w, k), l) == FlagsOf(es, os, g, FlagsAt(w, 1), k);
    }
  }

  /** Entry k is tested once, when its turn comes, at the offset the tree gives it: its own, or
      counted from what its controlling entry noted. */
  lemma TestedAtOffset(es: seq<Magic>, os: seq<Outcome>, g: nat, w: Walk, k: nat)
    requires Ready(es, os, g, w) && Regular(es, g, w)
    requires g < k < GroupEnd(es, g) && At(es, os, g, w, k).done.None? && Undisturbed(es, os, g, w, k)
    ensures var p := Parent(es, g, k);
            At(es, os, g, w, k + 1).log == At(es, os, g, w, k).log +
              if TreeTested(es, os, g, FlagsAt(w, 1), k)
              then [Eval(k, Base(es[k], if p == g then w.li[0].off else Noted(os[p])))] else []
  {
    CounterIsTree(es, os, g, w, k);
    CounterRule(es, os, g, w, k);
    ContEffect(es, os, g, w, k);
    if Reached(es, os, g, w, k) {
      LevelState(es, os, g, w, k, es[k].level);
      assert Parent(es, g, k) == g ==> es[k].level == 1;
    }
    hide At, Siblings, Matches, Noted, TreeTested, TreeReached, TreeFired, Fired, Cont, Levels, Settle, Spared;
  }

  // ----- Groups entered at a level left over from earlier ones -----

  /** The first continuation of g whose level is at most l, or the end of the group. */
  function FirstWithin(es: seq<Magic>, g: nat, l: nat, k: nat): (r: nat)
    requires g < |es| && g < k <= GroupEnd(es, g)
    ensures k <= r <= GroupEnd(es, g)
    ensures r < GroupEnd(es, g) ==> es[r].level <= l
    ensures forall j | k <= j < r :: es[j].level > l
    decreases GroupEnd(es, g) - k
  {
    if k == GroupEnd(es, g) || es[k].level <= l then k else FirstWithin(es, g, l, k + 1)
  }

  predicate RuleHolds(es: seq<Magic>, os: seq<Outcome>, g: nat, w: Walk, k: nat)
    requires Ready(es, os, g, w) && g < k < GroupEnd(es, g)
  {
    At(es, os, g, w, k).done.None? ==>
      (Reached(es, os, g, w, k) <==>
         var p := Parent(es, g, k);
         if p == g then es[k].level == 1 else es[k].level == es[p].level + 1 && Fired(es, os, g, w, p))
  }

  /** The rule by which the tree reaches its entries holds throughout a group exactly when the
      first continuation that the level of entry lets through has level 1. */
  lemma RuleIsExact(es: seq<Magic>, os: seq<Outcome>, g: nat, w: Walk)
    requires Ready(es, os, g, w)
    ensures (forall k | g < k < GroupEnd(es, g) :: RuleHolds(es, os, g, w, k)) <==>
              var f := FirstWithin(es, g, w.level, g + 1);
              f == GroupEnd(es, g) || es[f].level == 1
  {
    var f := FirstWithin(es, g, w.level, g + 1);
    if f == GroupEnd(es, g) || es[f].level == 1 {
      forall k | g < k < GroupEnd(es, g) ensures RuleHolds(es, os, g, w, k) {
        RuleWhenFirstIsOne(es, os, g, w, k);
      }
    } else {
      NothingBeforeFirst(es, os, g, w, f);
      CounterRule(es, os, g, w, f);
      assert es[Parent(es, g, f)].level < es[f].level || Parent(es, g, f) == g;
      assert !RuleHolds(es, os, g, w, f);
    }
  }

  lemma RuleWhenFirstIsOne(es: seq<Magic>, os: seq<Outcome>, g: nat, w: Walk, k: nat)
    requires Ready(es, os, g, w) && g < k < GroupEnd(es, g)
    requires var f := FirstWithin(es, g, w.level, g + 1); f == GroupEnd(es, g) || es[f].level == 1
    ensures RuleHolds(es, os, g, w, k)
  {
    hide At, Fired, Reached;
    if At(es, os, g, w, k).done.None? {
      CounterRule(es, os, g, w, k);
      var f := FirstWithin(es, g, w.level, g + 1);
      if Parent(es, g, k) == g && es[k].level <= w.level {
        assert f <= k;
        assert f < k ==> es[f].level >= es[k].level;
      }
    }
  }

  /** Entries above the level of entry, before any other, leave the walk as it was. */
  lemma {:induction false} NothingBeforeFirst(es: seq<Magic>, os: seq<Outcome>, g: nat, w: Walk, k: nat)
    requires Ready(es, os, g, w) && g < k <= GroupEnd(es, g)
    requires forall j | g < j < k :: es[j].level > w.level
    ensures At(es, os, g, w, k) == w
    decreases k
  {
    if k > g + 1 {
      NothingBeforeFirst(es, os, g, w, k - 1);
    }
  }
}
