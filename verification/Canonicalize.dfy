/** `canonicalize_filename_mode` of coreutils/lib/canonicalize.c where no component is a symbolic
    link: one buffer in which a pointer moves forth and back is the component stack, and what it
    answers is the canonical name. A C string is the sequence of its characters before the NUL. */
module Canonicalize {
  import opened Wrappers

  datatype Errno = EINVAL | ENOENT | ENOTDIR | Errno(code: int)

  datatype Result<+T> = Ok(value: T) | Err(errno: Errno)

  datatype Mode = CanExisting | CanAllButLast | CanMissing

  /** What lstat says of a name. */
  datatype Stat = Absent(errno: Errno) | Directory | NoDirectory

  type FileSystem = string -> Stat

  // ----- Names and their components -----

  predicate IsName(c: string) {
    c != "" && '/' !in c
  }

  /** A component that stands for itself. */
  predicate Proper(c: string) {
    IsName(c) && c != "." && c != ".."
  }

  predicate AllProper(st: seq<string>) {
    forall c | c in st :: Proper(c)
  }

  /** The length of the first component of s, which starts with none of the separators. */
  function Span(s: string): (n: nat)
    ensures n <= |s| && (n < |s| ==> s[n] == '/')
    ensures forall i | 0 <= i < n :: s[i] != '/'
  {
    if s == "" || s[0] == '/' then 0 else 1 + Span(s[1..])
  }

  function Slashes(s: string): (n: nat)
    ensures n <= |s| && (n < |s| ==> s[n] != '/')
    ensures forall i | 0 <= i < n :: s[i] == '/'
  {
    if s == "" || s[0] != '/' then 0 else 1 + Slashes(s[1..])
  }

  /** The components of a name, in order. */
  function Split(s: string): (cs: seq<string>)
    decreases |s|
  {
    if s == "" then []
    else if s[0] == '/' then Split(s[1..])
    else [s[..Span(s)]] + Split(s[Span(s)..])
  }

  /** "." stays, ".." goes up and stays at the root, all else goes down. */
  function Step(st: seq<string>, c: string): seq<string> {
    if c == "." then st else if c == ".." then (if st == [] then [] else st[..|st| - 1]) else st + [c]
  }

  function Resolve(cs: seq<string>, st: seq<string>): seq<string> {
    if cs == [] then st else Resolve(cs[1..], Step(st, cs[0]))
  }

  /** Each component behind a slash. */
  function Joined(st: seq<string>): string {
    if st == [] then "" else Joined(st[..|st| - 1]) + "/" + st[|st| - 1]
  }

  function Render(st: seq<string>): string {
    if st == [] then "/" else Joined(st)
  }

  /** Absolute, no "." and no "..", no separator doubled or at the end but for the root. */
  predicate Canonical(s: string) {
    && s != "" && s[0] == '/'
    && (forall i | 0 <= i < |s| - 1 :: s[i] == '/' ==> s[i + 1] != '/')
    && (|s| > 1 ==> s[|s| - 1] != '/')
    && "." !in Split(s) && ".." !in Split(s)
  }

  // ----- Splitting -----

  lemma {:induction false} SplitNames(s: string)
    ensures forall c | c in Split(s) :: IsName(c)
    decreases |s|
  {
    if s != "" {
      if s[0] == '/' {
        SplitNames(s[1..]);
      } else {
        SplitNames(s[Span(s)..]);
      }
    }
  }

  lemma {:induction false} SpanOfJoin(a: string, b: string)
    ensures Span(a + "/" + b) == Span(a)
  {
    if a != "" && a[0] != '/' {
      SpanOfJoin(a[1..], b);
      assert (a + "/" + b)[1..] == a[1..] + "/" + b;
    }
  }

  lemma SplitAtSlash(s: string)
    ensures Split("/" + s) == Split(s)
  {
    assert ("/" + s)[1..] == s;
  }

  lemma SplitAtName(s: string)
    requires s != "" && s[0] != '/'
    ensures Span(s) > 0 && Split(s) == [s[..Span(s)]] + Split(s[Span(s)..])
  {
  }

  lemma SplitNothing()
    ensures Split("") == [] && Split("/") == [] && Joined([]) == ""
  {
    SplitAtSlash("");
    assert "/" + "" == "/";
  }

  /** A separator parts the components before it from those behind it. */
  lemma {:induction false} SplitJoin(a: string, b: string)
    ensures Split(a + "/" + b) == Split(a) + Split(b)
    decreases |a|
  {
    hide Split, Span;
    var s := a + "/" + b;
    if a == "" {
      SplitAtSlash(b);
      SplitNothing();
      assert s == "/" + b;
    } else if a[0] == '/' {
      SplitJoin(a[1..], b);
      SplitAtSlash(a[1..]);
      SplitAtSlash(a[1..] + "/" + b);
      assert a == "/" + a[1..] && s == "/" + (a[1..] + "/" + b);
    } else {
      SpanOfJoin(a, b);
      var n := Span(a);
      SplitAtName(a);
      SplitJoin(a[n..], b);
      SplitAtName(s);
      assert s[n..] == a[n..] + "/" + b && s[..n] == a[..n];
    }
  }

  lemma SplitName(c: string)
    requires IsName(c)
    ensures Split(c) == [c]
  {
    NoSlash(c);
    assert c[|c|..] == "" && c[..|c|] == c;
  }

  /** Splitting undoes joining. */
  lemma {:induction false} SplitJoined(st: seq<string>)
    requires forall c | c in st :: IsName(c)
    ensures Split(Joined(st)) == st && Split(Render(st)) == st
  {
    hide Split, IsName;
    SplitNothing();
    if st == [] {
      return;
    }
    var init, c := st[..|st| - 1], st[|st| - 1];
    SplitJoined(init);
    SplitName(c);
    SplitJoin(Joined(init), c);
  }

  lemma {:induction false} ResolveConcat(a: seq<string>, b: seq<string>, st: seq<string>)
    ensures Resolve(a + b, st) == Resolve(b, Resolve(a, st))
    decreases |a|
  {
    hide Step;
    if a == [] {
      assert a + b == b;
    } else {
      ResolveConcat(a[1..], b, Step(st, a[0]));
      assert (a + b)[1..] == a[1..] + b;
    }
  }

  lemma {:induction false} ResolveProper(cs: seq<string>, st: seq<string>)
    requires (forall c | c in cs :: IsName(c)) && AllProper(st)
    ensures AllProper(Resolve(cs, st))
    ensures AllProper(cs) ==> Resolve(cs, st) == st + cs
    decreases |cs|
  {
    if cs != [] {
      ResolveProper(cs[1..], Step(st, cs[0]));
      assert cs[0] in cs && forall c | c in cs[1..] :: c in cs;
      assert (st + [cs[0]]) + cs[1..] == st + cs;
    }
  }

  // ----- The canonical form -----

  lemma NoSlash(c: string)
    requires '/' !in c
    ensures forall i | 0 <= i < |c| :: c[i] != '/'
  {
    forall i | 0 <= i < |c| ensures c[i] != '/' {
      assert c[i] in c;
    }
  }

  /** Empty, or separators and names in turn. */
  predicate Clean(s: string) {
    s != "" ==>
      && s[0] == '/' && s[|s| - 1] != '/'
      && forall i | 0 <= i < |s| - 1 :: s[i] == '/' ==> s[i + 1] != '/'
  }

  lemma CleanAppend(b: string, c: string)
    requires Clean(b) && IsName(c)
    ensures Clean(b + "/" + c)
  {
    NoSlash(c);
    var s, n := b + "/" + c, |b|;
    forall i | 0 <= i < |s| - 1 ensures s[i] == '/' ==> s[i + 1] != '/' {
      if i < n {
        assert s[i] == b[i];
      } else if i == n {
        assert s[i + 1] == c[0];
      } else {
        assert s[i] == c[i - n - 1];
      }
    }
  }

  lemma {:induction false} JoinedClean(st: seq<string>)
    requires forall c | c in st :: IsName(c)
    ensures Clean(Joined(st)) && (st != [] ==> |Joined(st)| > 1)
  {
    if st != [] {
      JoinedClean(st[..|st| - 1]);
      CleanAppend(Joined(st[..|st| - 1]), st[|st| - 1]);
      hide Clean;
    }
  }

  lemma RenderIsCanonical(st: seq<string>)
    requires AllProper(st)
    ensures Canonical(Render(st)) && Split(Render(st)) == st
  {
    assert forall c | c in st :: IsName(c);
    SplitJoined(st);
    JoinedClean(st);
    hide Split, Joined;
  }

  lemma {:induction false} JoinedFront(c: string, cs: seq<string>)
    ensures Joined([c] + cs) == "/" + c + Joined(cs)
    decreases |cs|
  {
    var st := [c] + cs;
    if cs == [] {
      assert st[..0] == [];
      assert Joined(st) == Joined([]) + "/" + c;
    } else {
      JoinedFront(c, cs[..|cs| - 1]);
      assert st[..|st| - 1] == [c] + cs[..|cs| - 1];
    }
  }

  lemma SplitCons(s: string)
    requires s != "" && s[0] == '/'
    ensures Split(s) == Split(s[1..])
    ensures |s| > 1 && s[1] != '/' ==>
              var n := Span(s[1..]); n >= 1 && Split(s) == [s[1..n + 1]] + Split(s[n + 1..])
  {
    hide Split, Span;
    SplitAtSlash(s[1..]);
    assert "/" + s[1..] == s;
    if |s| > 1 && s[1] != '/' {
      SplitAtName(s[1..]);
      var n := Span(s[1..]);
      assert s[1..][..n] == s[1..n + 1] && s[1..][n..] == s[n + 1..];
    }
  }

  /** The canonical names are exactly those that list proper components. */
  lemma {:induction false} CanonicalIsRender(s: string)
    requires Canonical(s)
    ensures AllProper(Split(s)) && Render(Split(s)) == s
    decreases |s|
  {
    hide Split, Span, Joined, IsName;
    SplitNames(s);
    SplitCons(s);
    SplitNothing();
    if |s| > 1 {
      var n := Span(s[1..]);
      var c, rest := s[1..n + 1], s[n + 1..];
      assert s == "/" + c + rest;
      JoinedFront(c, Split(rest));
      if rest != "" {
        assert rest[0] == s[1..][n];
        assert rest[|rest| - 1] == s[|s| - 1];
        forall i | 0 <= i < |rest| - 1 && rest[i] == '/' ensures rest[i + 1] != '/' {
          assert s[n + 1 + i] == rest[i];
        }
        assert forall c | c in Split(rest) :: c in Split(s);
        CanonicalIsRender(rest);
        assert Split(rest) != [];
      }
    } else {
      assert s == "/";
    }
  }

  // ----- What the loop computes -----

  /** The error a component that was just appended is answered with, if any; `rest` follows it in
      the name. */
  function Judge(mode: Mode, stat: Stat, rest: string): Option<Errno> {
    match stat
    case Absent(errno) =>
      if mode.CanExisting? || (mode.CanAllButLast? && (Slashes(rest) < |rest| || errno != ENOENT))
      then Some(errno) else None
    case Directory => None
    case NoDirectory => if rest != "" && !mode.CanMissing? then Some(ENOTDIR) else None
  }

  /** The loop over the components of s, from the stack st on. */
  function Loop(mode: Mode, fs: FileSystem, s: string, st: seq<string>): Result<seq<string>>
    decreases |s|
  {
    var t := s[Slashes(s)..];
    if t == "" then Ok(st)
    else
      var c, rest := t[..Span(t)], t[Span(t)..];
      var next := Step(st, c);
      if c == "." || c == ".." then Loop(mode, fs, rest, next)
      else
        match Judge(mode, fs(Render(next)), rest)
        case Some(errno) => Err(errno)
        case None => Loop(mode, fs, rest, next)
  }

  /** One turn of the loop, and its end. */
  lemma LoopTurn(mode: Mode, fs: FileSystem, s: string, st: seq<string>)
    ensures var r, t := Loop(mode, fs, s, st), s[Slashes(s)..];
            if t == "" then r == Ok(st)
            else
              var c, rest := t[..Span(t)], t[Span(t)..];
              var next := Step(st, c);
              |rest| < |s| &&
              if c == "." || c == ".." then r == Loop(mode, fs, rest, next)
              else
                var e := Judge(mode, fs(Render(next)), rest);
                r == if e.Some? then Err(e.value) else Loop(mode, fs, rest, next)
  {
    hide Judge, Render, Step;
  }

  /** The whole function; cwd is what getcwd answers. */
  function CanonicalName(name: Option<string>, cwd: Result<string>, mode: Mode, fs: FileSystem): Result<string> {
    if name.None? then Err(EINVAL)
    else if name.value == "" then Err(ENOENT)
    else if name.value[0] != '/' && cwd.Err? then cwd
    else
      match Loop(mode, fs, name.value, if name.value[0] == '/' then [] else Split(cwd.value))
      case Ok(st) => Ok(Render(st))
      case Err(errno) => Err(errno)
  }

  /** The stack machine alone: no file system is asked. */
  function Machine(name: string, cwd: string): string {
    Render(Resolve(Split(name), if name != "" && name[0] == '/' then [] else Split(cwd)))
  }

  lemma {:induction false} SplitSkips(s: string)
    ensures Split(s) == Split(s[Slashes(s)..])
    decreases |s|
  {
    if s == "" || s[0] != '/' {
      assert s[0..] == s;
    } else {
      SplitSkips(s[1..]);
      assert s[1..][Slashes(s[1..])..] == s[Slashes(s)..];
    }
  }

  /** In every mode the loop either fails or answers what the stack machine answers; in the mode
      for missing names it never fails. */
  lemma {:induction false} LoopIsResolve(mode: Mode, fs: FileSystem, s: string, st: seq<string>)
    ensures var r := Loop(mode, fs, s, st);
            && (r.Ok? ==> r.value == Resolve(Split(s), st))
            && (mode.CanMissing? ==> r.Ok?)
    decreases |s|
  {
    SplitSkips(s);
    var t := s[Slashes(s)..];
    if t != "" {
      var c, rest := t[..Span(t)], t[Span(t)..];
      LoopIsResolve(mode, fs, rest, Step(st, c));
      assert Split(t) == [c] + Split(rest);
      assert ([c] + Split(rest))[1..] == Split(rest);
    }
  }

  /** What CAN_EXISTING accepts CAN_ALL_BUT_LAST accepts, and what that accepts CAN_MISSING. */
  lemma {:induction false} ModesNest(fs: FileSystem, s: string, st: seq<string>)
    ensures Loop(CanExisting, fs, s, st).Ok? ==> Loop(CanAllButLast, fs, s, st) == Loop(CanExisting, fs, s, st)
    ensures Loop(CanAllButLast, fs, s, st).Ok? ==> Loop(CanMissing, fs, s, st) == Loop(CanAllButLast, fs, s, st)
    decreases |s|
  {
    hide Step, Render, Split, Joined, Span, Slashes;
    var t := s[Slashes(s)..];
    if t != "" {
      ModesNest(fs, t[Span(t)..], Step(st, t[..Span(t)]));
    }
  }

  // ----- When the modes fail -----

  predicate EndsInSlash(s: string) {
    s != "" && s[|s| - 1] == '/'
  }

  /** What the file system says of the name up to component i, `..` taken away on the way. */
  function StatAt(fs: FileSystem, s: string, st: seq<string>, i: nat): Stat
    requires i < |Split(s)|
  {
    fs(Render(Resolve(Split(s)[..i + 1], st)))
  }

  /** The mode takes component i of s: `.` and `..` always; a missing one if missing ones are allowed,
      or the last for want of the entry if that is; one that is no directory if it is the last and
      no slash follows it, or missing ones are allowed. */
  predicate Accepts(mode: Mode, fs: FileSystem, s: string, st: seq<string>, i: nat)
    requires i < |Split(s)|
  {
    var c, last := Split(s)[i], i == |Split(s)| - 1;
    c == "." || c == ".." || mode.CanMissing? ||
    match StatAt(fs, s, st, i)
    case Absent(errno) => mode.CanAllButLast? && last && errno == ENOENT
    case Directory => true
    case NoDirectory => last && !EndsInSlash(s)
  }

  function Complaint(stat: Stat): Errno {
    if stat.Absent? then stat.errno else ENOTDIR
  }

  /** Component i is the first that is not taken, and e what is wrong with it. */
  predicate FirstFault(mode: Mode, fs: FileSystem, s: string, st: seq<string>, i: nat, e: Errno) {
    && i < |Split(s)| && !Accepts(mode, fs, s, st, i) && e == Complaint(StatAt(fs, s, st, i))
    && forall j | 0 <= j < i :: Accepts(mode, fs, s, st, j)
  }

  /** The first component of s and the rest. */
  lemma SplitFirst(s: string)
    requires s[Slashes(s)..] != ""
    ensures var t := s[Slashes(s)..];
            var rest := t[Span(t)..];
            && Split(s) == [t[..Span(t)]] + Split(rest)
            && (rest == "" ==> !EndsInSlash(s) && Split(rest) == [])
            && (rest != "" ==> (EndsInSlash(rest) <==> EndsInSlash(s)))
            && (Split(rest) == [] ==> rest == "" || EndsInSlash(s))
            && (Split(rest) == [] <==> Slashes(rest) == |rest|)
  {
    hide Split;
    SplitSkips(s);
    var t := s[Slashes(s)..];
    var rest := t[Span(t)..];
    SplitSkips(rest);
    SplitNothing();
    SplitAtName(t);
    if rest[Slashes(rest)..] != "" {
      SplitAtName(rest[Slashes(rest)..]);
    }
  }

  lemma ResolveOne(c: string, st: seq<string>)
    ensures Resolve([c], st) == Step(st, c)
  {
    hide Step;
    assert [c][1..] == [];
  }

  lemma ResolveFirst(c: string, cs: seq<string>, st: seq<string>)
    ensures Resolve([c] + cs, st) == Resolve(cs, Step(st, c))
  {
    hide Step;
    assert ([c] + cs)[1..] == cs;
  }

  lemma AcceptsFirst(mode: Mode, fs: FileSystem, s: string, st: seq<string>)
    requires s[Slashes(s)..] != ""
    ensures var t := s[Slashes(s)..];
            var c, rest := t[..Span(t)], t[Span(t)..];
            var next := Step(st, c);
            && Split(s) == [c] + Split(rest)
            && StatAt(fs, s, st, 0) == fs(Render(next))
            && (c == "." || c == ".." ==> Accepts(mode, fs, s, st, 0))
            && (c != "." && c != ".." ==>
                  && (Accepts(mode, fs, s, st, 0) <==> Judge(mode, fs(Render(next)), rest).None?)
                  && (!Accepts(mode, fs, s, st, 0) ==>
                        Judge(mode, fs(Render(next)), rest) == Some(Complaint(fs(Render(next))))))
  {
    hide Render, Split, Span, Slashes, Step, EndsInSlash, Resolve;
    SplitFirst(s);
    var t := s[Slashes(s)..];
    assert Split(s)[..1] == [t[..Span(t)]];
    ResolveOne(t[..Span(t)], st);
  }

  lemma AcceptsLater(mode: Mode, fs: FileSystem, s: string, st: seq<string>, i: nat)
    requires s[Slashes(s)..] != ""
    requires var t := s[Slashes(s)..]; i < |Split(t[Span(t)..])|
    ensures var t := s[Slashes(s)..];
            var next, rest := Step(st, t[..Span(t)]), t[Span(t)..];
            && i + 1 < |Split(s)|
            && StatAt(fs, s, st, i + 1) == StatAt(fs, rest, next, i)
            && (Accepts(mode, fs, s, st, i + 1) <==> Accepts(mode, fs, rest, next, i))
  {
    hide Render, Split, Span, Slashes, Step, EndsInSlash, Resolve;
    SplitFirst(s);
    var t := s[Slashes(s)..];
    var c, cs := t[..Span(t)], Split(t[Span(t)..]);
    assert Split(s)[..i + 2] == [c] + cs[..i + 1];
    ResolveFirst(c, cs[..i + 1], st);
  }

  lemma AcceptedAll(mode: Mode, fs: FileSystem, s: string, st: seq<string>)
    requires s[Slashes(s)..] != ""
    ensures Split(s) != []
    ensures var t := s[Slashes(s)..];
            var next, rest := Step(st, t[..Span(t)]), t[Span(t)..];
            (forall i | 0 <= i < |Split(s)| :: Accepts(mode, fs, s, st, i)) <==>
            Accepts(mode, fs, s, st, 0) && forall i | 0 <= i < |Split(rest)| :: Accepts(mode, fs, rest, next, i)
  {
    hide Split, Span, Slashes, Step, Accepts;
    SplitFirst(s);
    var t := s[Slashes(s)..];
    var next, rest := Step(st, t[..Span(t)]), t[Span(t)..];
    forall i | 0 < i < |Split(s)|
      ensures Accepts(mode, fs, s, st, i) <==> Accepts(mode, fs, rest, next, i - 1)
    {
      AcceptsLater(mode, fs, s, st, i - 1);
    }
    if forall i | 0 <= i < |Split(s)| :: Accepts(mode, fs, s, st, i) {
      forall i | 0 <= i < |Split(rest)| ensures Accepts(mode, fs, rest, next, i) {
        assert Accepts(mode, fs, s, st, i + 1);
      }
    }
  }

  /** The loop succeeds exactly if every component is taken, and fails with what is wrong with the
      first that is not. */
  lemma {:induction false} LoopFailsExactly(mode: Mode, fs: FileSystem, s: string, st: seq<string>)
    ensures Loop(mode, fs, s, st).Ok? <==> forall i | 0 <= i < |Split(s)| :: Accepts(mode, fs, s, st, i)
    ensures Loop(mode, fs, s, st).Err? ==>
              exists i: nat :: FirstFault(mode, fs, s, st, i, Loop(mode, fs, s, st).errno)
    decreases |s|
  {
    hide Loop, Slashes, Span, Step, Render, Judge, Split, StatAt, Accepts;
    LoopTurn(mode, fs, s, st);
    SplitSkips(s);
    SplitNothing();
    var t := s[Slashes(s)..];
    if t != "" {
      var c, rest := t[..Span(t)], t[Span(t)..];
      var next := Step(st, c);
      AcceptsFirst(mode, fs, s, st);
      LoopFailsExactly(mode, fs, rest, next);
      var r := Loop(mode, fs, s, st);
      if !Accepts(mode, fs, s, st, 0) {
        assert FirstFault(mode, fs, s, st, 0, r.errno);
      } else {
        AcceptedAll(mode, fs, s, st);
        if r.Err? {
          var i: nat :| FirstFault(mode, fs, rest, next, i, r.errno);
          AcceptsLater(mode, fs, s, st, i);
          forall j | 0 <= j < i + 1 ensures Accepts(mode, fs, s, st, j) {
            if j > 0 {
              AcceptsLater(mode, fs, s, st, j - 1);
            }
          }
          assert FirstFault(mode, fs, s, st, i + 1, r.errno);
        }
      }
    }
  }

  /** So does the whole function, but for a null or empty name and a missing working directory. */
  lemma FailsExactly(name: string, cwd: Result<string>, mode: Mode, fs: FileSystem)
    ensures CanonicalName(None, cwd, mode, fs) == Err(EINVAL)
    ensures var r := CanonicalName(Some(name), cwd, mode, fs);
            if name == "" then r == Err(ENOENT)
            else if name[0] != '/' && cwd.Err? then r == cwd
            else
              var st := if name[0] == '/' then [] else Split(cwd.value);
              && (r.Ok? <==> forall i | 0 <= i < |Split(name)| :: Accepts(mode, fs, name, st, i))
              && (r.Err? ==> exists i: nat :: FirstFault(mode, fs, name, st, i, r.errno))
  {
    hide Loop, Split, Render, Accepts, FirstFault;
    if name != "" && (name[0] == '/' || cwd.Ok?) {
      LoopFailsExactly(mode, fs, name, if name[0] == '/' then [] else Split(cwd.value));
    }
  }

  // ----- The laws of canonical names -----

  /** The answer is canonical, and it is the answer of the stack machine. */
  lemma AnswerIsCanonical(name: string, cwd: Result<string>, mode: Mode, fs: FileSystem)
    requires cwd.Ok? ==> Canonical(cwd.value)
    ensures var r := CanonicalName(Some(name), cwd, mode, fs);
            && (r.Ok? ==> Canonical(r.value) && r.value == Machine(name, if cwd.Ok? then cwd.value else "/"))
            && (mode.CanMissing? ==> (r.Err? <==> name == "" || (name[0] != '/' && cwd.Err?)))
  {
    hide Loop, Split, Resolve, Render, Canonical, IsName;
    if name != "" && (name[0] == '/' || cwd.Ok?) {
      var st := if name[0] == '/' then [] else Split(cwd.value);
      if st != [] {
        CanonicalIsRender(cwd.value);
      }
      LoopIsResolve(mode, fs, name, st);
      SplitNames(name);
      ResolveProper(Split(name), st);
      RenderIsCanonical(Resolve(Split(name), st));
    }
  }

  /** Canonicalising changes a name exactly when the name is not canonical. */
  lemma FixedPoints(name: string, cwd: string)
    requires Canonical(cwd)
    ensures Machine(name, cwd) == name <==> Canonical(name)
  {
    var st := if name != "" && name[0] == '/' then [] else Split(cwd);
    CanonicalIsRender(cwd);
    SplitNames(name);
    ResolveProper(Split(name), st);
    RenderIsCanonical(Resolve(Split(name), st));
    if Canonical(name) {
      CanonicalIsRender(name);
      assert [] + Split(name) == Split(name);
    }
  }

  /** Canonicalising an answer again changes nothing, whatever the directory it is done in. */
  lemma Idempotent(name: string, cwd: Result<string>, fs: FileSystem, cwd2: Result<string>, fs2: FileSystem)
    requires cwd.Ok? ==> Canonical(cwd.value)
    ensures var r := CanonicalName(Some(name), cwd, CanMissing, fs);
            r.Ok? ==> CanonicalName(Some(r.value), cwd2, CanMissing, fs2) == r
  {
    var r := CanonicalName(Some(name), cwd, CanMissing, fs);
    AnswerIsCanonical(name, cwd, CanMissing, fs);
    if r.Ok? {
      FixedPoints(r.value, "/") by {
        RenderIsCanonical([]);
      }
      LoopIsResolve(CanMissing, fs2, r.value, []);
    }
  }

  /** A relative name means the name behind the directory's. */
  lemma RelativeToDirectory(name: string, cwd: string)
    requires name != "" && name[0] != '/' && Canonical(cwd)
    ensures Machine(name, cwd) == Machine(cwd + "/" + name, cwd)
  {
    SplitJoin(cwd, name);
    ResolveConcat(Split(cwd), Split(name), []);
    CanonicalIsRender(cwd);
    ResolveProper(Split(cwd), []);
    assert [] + Split(cwd) == Split(cwd);
    assert (cwd + "/" + name)[0] == '/';
  }

  // ----- Dots -----

  lemma MachineOfParts(p: string, q: string, cwd: string)
    ensures Machine(p + "/" + q, cwd) ==
            Render(Resolve(Split(q), Resolve(Split(p), if p == "" || p[0] == '/' then [] else Split(cwd))))
  {
    hide Split, Resolve, Render;
    var st := if p == "" || p[0] == '/' then [] else Split(cwd);
    var s := p + "/" + q;
    assert s != "" && (s[0] == '/' <==> p == "" || p[0] == '/');
    SplitJoin(p, q);
    ResolveConcat(Split(p), Split(q), st);
  }

  /** A part `.` means nothing. */
  lemma DotIsNothing(p: string, q: string, cwd: string)
    ensures Machine(p + "/./" + q, cwd) == Machine(p + "/" + q, cwd)
  {
    hide Split, Render, Machine;
    assert p + "/./" + q == p + "/" + ("." + "/" + q);
    MachineOfParts(p, "." + "/" + q, cwd);
    MachineOfParts(p, q, cwd);
    SplitJoin(".", q);
    SplitName(".");
    assert (["."] + Split(q))[1..] == Split(q);
  }

  /** A part `..` takes back the proper part before it. */
  lemma UpUndoesDown(p: string, x: string, q: string, cwd: string)
    requires Proper(x)
    ensures Machine(p + "/" + x + "/../" + q, cwd) == Machine(p + "/" + q, cwd)
  {
    hide Split, Render, Machine, Resolve;
    assert p + "/" + x + "/../" + q == p + "/" + (x + "/" + (".." + "/" + q));
    MachineOfParts(p, x + "/" + (".." + "/" + q), cwd);
    MachineOfParts(p, q, cwd);
    SplitJoin(x, ".." + "/" + q);
    SplitJoin("..", q);
    SplitName(x);
    SplitName("..");
    DownAndUp(x, Split(q), Resolve(Split(p), if p == "" || p[0] == '/' then [] else Split(cwd)));
  }

  lemma DownAndUp(x: string, cs: seq<string>, st: seq<string>)
    requires Proper(x)
    ensures Resolve([x] + ([".."] + cs), st) == Resolve(cs, st)
  {
    assert ([x] + ([".."] + cs))[1..] == [".."] + cs && ([".."] + cs)[1..] == cs;
    assert (st + [x])[..|st|] == st;
  }

  /** At the root it means nothing. */
  lemma UpFromRoot(q: string, cwd: string)
    ensures Machine("/../" + q, cwd) == Machine("/" + q, cwd)
  {
    hide Split, Render, Machine;
    assert "/../" + q == "" + "/" + (".." + "/" + q) && "/" + q == "" + "/" + q;
    MachineOfParts("", ".." + "/" + q, cwd);
    MachineOfParts("", q, cwd);
    SplitJoin("..", q);
    SplitName("..");
    SplitNothing();
    assert ([".."] + Split(q))[1..] == Split(q);
  }

  // ----- Names that must exist -----

  /** Every part of the stack is there, and a part with another behind it is a directory. */
  predicate Exists(fs: FileSystem, st: seq<string>) {
    && (forall k | 0 < k <= |st| :: !fs(Render(st[..k])).Absent?)
    && (forall k | 0 < k < |st| :: fs(Render(st[..k])).Directory?)
  }

  lemma ExistsPrefix(fs: FileSystem, st: seq<string>, n: nat)
    requires Exists(fs, st) && n <= |st|
    ensures Exists(fs, st[..n])
  {
    forall k | 0 < k <= n ensures st[..n][..k] == st[..k] {
    }
  }

  lemma ExistsPush(fs: FileSystem, st: seq<string>, c: string)
    requires Exists(fs, st) && (st == [] || fs(Render(st)).Directory?) && !fs(Render(st + [c])).Absent?
    ensures Exists(fs, st + [c])
  {
    assert st[..|st|] == st;
    forall k | 0 < k <= |st| ensures (st + [c])[..k] == st[..k] {
    }
    assert (st + [c])[..|st| + 1] == st + [c];
  }

  /** The names CAN_EXISTING answers are there, directories all the way; only the last part may be
      something else, and that only when nothing is left of the name. */
  lemma {:induction false} ExistingExists(fs: FileSystem, s: string, st: seq<string>)
    requires Exists(fs, st) && (st == [] || s == "" || fs(Render(st)).Directory?)
    ensures var r := Loop(CanExisting, fs, s, st); r.Ok? ==> Exists(fs, r.value)
    decreases |s|
  {
    var t := s[Slashes(s)..];
    if t != "" {
      var c, rest := t[..Span(t)], t[Span(t)..];
      var next := Step(st, c);
      if c == "." {
        ExistingExists(fs, rest, st);
      } else if c == ".." {
        if st != [] {
          ExistsPrefix(fs, st, |st| - 1);
          assert |st| > 1 ==> fs(Render(st[..|st| - 1])).Directory?;
        }
        ExistingExists(fs, rest, next);
      } else if Judge(CanExisting, fs(Render(next)), rest).None? {
        ExistsPush(fs, st, c);
        ExistingExists(fs, rest, next);
      }
    }
  }

  /** Only the last part of an answer of CAN_ALL_BUT_LAST may be missing, and then nothing else is
      wrong with it. */
  predicate ExistsButLast(fs: FileSystem, st: seq<string>) {
    st != [] &&
    var dir := st[..|st| - 1];
    Exists(fs, dir) && (dir == [] || fs(Render(dir)).Directory?) && fs(Render(st)) == Absent(ENOENT)
  }

  lemma {:induction false} AllButLastExists(fs: FileSystem, s: string, st: seq<string>)
    requires Exists(fs, st) && (st == [] || s == "" || fs(Render(st)).Directory?)
    ensures var r := Loop(CanAllButLast, fs, s, st);
            r.Ok? ==> Exists(fs, r.value) || ExistsButLast(fs, r.value)
    decreases |s|
  {
    hide Loop, Slashes, Span, Render, Exists;
    LoopTurn(CanAllButLast, fs, s, st);
    var t := s[Slashes(s)..];
    if t != "" {
      var c, rest := t[..Span(t)], t[Span(t)..];
      var next := Step(st, c);
      if c == "." {
        AllButLastExists(fs, rest, st);
      } else if c == ".." {
        if st != [] {
          ExistsPrefix(fs, st, |st| - 1);
          UpIsDirectory(fs, st);
        }
        AllButLastExists(fs, rest, next);
      } else if fs(Render(next)).Absent? {
        LoopTurn(CanAllButLast, fs, rest, next);
        assert next[..|next| - 1] == st;
      } else if Judge(CanAllButLast, fs(Render(next)), rest).None? {
        ExistsPush(fs, st, c);
        AllButLastExists(fs, rest, next);
      }
    }
  }

  lemma UpIsDirectory(fs: FileSystem, st: seq<string>)
    requires Exists(fs, st)
    ensures |st| > 1 ==> fs(Render(st[..|st| - 1])).Directory?
  {
  }

  lemma FrontOfName(c: string, rest: string)
    requires IsName(c) && (rest != "" ==> rest[0] == '/')
    ensures var s := "/" + c + rest;
            var t := s[Slashes(s)..];
            t != "" && t[..Span(t)] == c && t[Span(t)..] == rest
  {
    hide Span;
    var s, u := "/" + c + rest, c + rest;
    assert s[1..] == u && u[0] == c[0] && c[0] in c;
    assert Slashes(u) == 0 && Slashes(s) == 1;
    SpanOfName(c, rest);
  }

  lemma FrontOfJoined(cs: seq<string>)
    requires cs != [] && AllProper(cs)
    ensures var s := Joined(cs);
            var t := s[Slashes(s)..];
            t != "" && t[..Span(t)] == cs[0] && t[Span(t)..] == Joined(cs[1..])
  {
    hide Span, Slashes, Joined;
    var c, more := cs[0], cs[1..];
    assert c in cs && cs == [c] + more;
    JoinedFront(c, more);
    JoinedSlash(more);
    SplitNothing();
    FrontOfName(c, Joined(more));
  }

  lemma {:induction false} LoopOnExisting(mode: Mode, fs: FileSystem, cs: seq<string>, st: seq<string>)
    requires AllProper(cs) && Exists(fs, st + cs)
    ensures Loop(mode, fs, Joined(cs), st) == Ok(st + cs)
    decreases |cs|
  {
    hide Loop, Slashes, Span, Joined, Render;
    SplitNothing();
    LoopTurn(mode, fs, Joined(cs), st);
    if cs == [] {
      assert st + cs == st && Joined(cs) == "";
    } else {
      var c, more := cs[0], cs[1..];
      assert c in cs && forall x | x in more :: x in cs;
      FrontOfJoined(cs);
      assert st + cs == st + [c] + more && (st + cs)[..|st| + 1] == st + [c];
      LoopOnExisting(mode, fs, more, st + [c]);
      assert more != [] ==> fs(Render((st + cs)[..|st| + 1])).Directory?;
    }
  }

  lemma JoinedSlash(cs: seq<string>)
    ensures cs != [] ==> Joined(cs) != "" && Joined(cs)[0] == '/'
    decreases |cs|
  {
    if cs != [] {
      assert cs == [cs[0]] + cs[1..];
      JoinedFront(cs[0], cs[1..]);
    }
  }

  lemma {:induction false} SpanOfName(c: string, rest: string)
    requires '/' !in c && (rest == "" || rest[0] == '/')
    ensures Span(c + rest) == |c|
    decreases |c|
  {
    if c == "" {
      assert c + rest == rest;
    } else {
      assert c[0] in c && forall x | x in c[1..] :: x in c;
      SpanOfName(c[1..], rest);
      assert (c + rest)[1..] == c[1..] + rest;
    }
  }

  /** What CAN_EXISTING answers for an absolute name is there, and it is answered again, in every
      mode, while the file system stays the same. */
  lemma ExistingAnswersAgain(name: string, cwd: Result<string>, mode: Mode, fs: FileSystem)
    requires name != "" && name[0] == '/'
    ensures var r := CanonicalName(Some(name), cwd, CanExisting, fs);
            r.Ok? ==> && (r.value != "/" ==> !fs(r.value).Absent?)
                      && CanonicalName(Some(r.value), cwd, mode, fs) == r
  {
    var r := Loop(CanExisting, fs, name, []);
    if r.Ok? {
      var st := r.value;
      ExistingExists(fs, name, []);
      LoopIsResolve(CanExisting, fs, name, []);
      SplitNames(name);
      ResolveProper(Split(name), []);
      hide Resolve, Split, Joined, Slashes, Span, Judge, IsName;
      LoopOnRoot(mode, fs);
      if st != [] {
        RenderedName(st);
        assert [] + st == st && st[..|st|] == st;
        LoopOnExisting(mode, fs, st, []);
      }
    }
  }

  lemma LoopOnRoot(mode: Mode, fs: FileSystem)
    ensures Loop(mode, fs, "/", []) == Ok([])
  {
    var s := "/";
    assert s[1..] == "" && Slashes(s) == 1 + Slashes("");
  }

  lemma RenderedName(st: seq<string>)
    requires st != []
    ensures Render(st) == Joined(st) != "" && Joined(st)[0] == '/'
  {
    JoinedSlash(st);
  }

  // ----- Room in the buffer -----

  /** dest and rname_limit, as offsets into the buffer. */
  datatype Room = Room(dest: nat, limit: nat)

  /** A component of some length is appended, with or without a separator before it, or dest goes
      back to an earlier place. */
  datatype Move = Forth(separator: bool, len: nat) | Back(to: nat)

  /** Lines 68 to 91, for an absolute name and for a directory of the given length. */
  function StartRoom(directory: Option<nat>, pathMax: nat): Room {
    match directory
    case None => Room(1, pathMax)
    case Some(n) => Room(n, if n < pathMax then pathMax else n)
  }

  /** Lines 123 to 145: what is added to the limit depends on the component. */
  function RoomBehind(r: Room, m: Move, pathMax: nat): Room {
    match m
    case Back(to) => r.(dest := to)
    case Forth(separator, len) =>
      var dest := if separator then r.dest + 1 else r.dest;
      Room(dest + len,
           if dest + len < r.limit then r.limit
           else r.limit + if len + 1 > pathMax then len + 1 else pathMax)
  }

  /** All components, and the NUL behind each, are written in front of the limit. */
  predicate StaysInside(r: Room, ms: seq<Move>, pathMax: nat)
    decreases |ms|
  {
    ms == [] ||
    var next := RoomBehind(r, ms[0], pathMax);
    (ms[0].Forth? ==> next.dest < next.limit) && StaysInside(next, ms[1..], pathMax)
  }

  /** Going back really goes back. */
  predicate Moves(r: Room, ms: seq<Move>, pathMax: nat)
    decreases |ms|
  {
    ms == [] ||
    ((ms[0].Back? ==> ms[0].to < r.dest) && Moves(RoomBehind(r, ms[0], pathMax), ms[1..], pathMax))
  }

  lemma {:induction false} InsideForGood(r: Room, ms: seq<Move>, pathMax: nat)
    requires r.dest < r.limit && Moves(r, ms, pathMax)
    ensures StaysInside(r, ms, pathMax)
    decreases |ms|
  {
    if ms != [] {
      InsideForGood(RoomBehind(r, ms[0], pathMax), ms[1..], pathMax);
    }
  }

  /** The rule by which the buffer grows keeps every write inside exactly if the working directory is
      shorter than PATH_MAX, or what is first appended to it is shorter than PATH_MAX - 1. */
  lemma GrowthKeepsInside(directory: Option<nat>, ms: seq<Move>, pathMax: nat)
    requires pathMax >= 2 && Moves(StartRoom(directory, pathMax), ms, pathMax)
    ensures StaysInside(StartRoom(directory, pathMax), ms, pathMax) <==>
              (directory.Some? && directory.value >= pathMax && ms != [] && ms[0].Forth? && ms[0].separator ==>
                 ms[0].len + 1 < pathMax)
  {
    var r := StartRoom(directory, pathMax);
    if r.dest < r.limit {
      InsideForGood(r, ms, pathMax);
    } else if ms != [] {
      var next := RoomBehind(r, ms[0], pathMax);
      if next.dest < next.limit {
        InsideForGood(next, ms[1..], pathMax);
      }
    }
  }

  // ----- The code -----

  /** What stands in the buffer before dest when the stack is st: its components, with the
      separator behind the last one present or not. */
  predicate Holds(b: string, st: seq<string>) {
    (forall c | c in st :: IsName(c)) && ((st != [] && b == Joined(st)) || b == Joined(st) + "/")
  }

  lemma HoldsSome(b: string, st: seq<string>)
    requires Holds(b, st)
    ensures b != "" && (|b| > 1 ==> st != [])
    ensures (if b[|b| - 1] != '/' then b + "/" else b) == Joined(st) + "/"
    ensures |b| > 1 && b[|b| - 1] == '/' ==> b[..|b| - 1] == Render(st)
    ensures !(|b| > 1 && b[|b| - 1] == '/') ==> b == Render(st)
  {
    if st != [] {
      var c := st[|st| - 1];
      assert c in st;
      NoSlash(c);
      assert Joined(st) == Joined(st[..|st| - 1]) + "/" + c;
      assert Joined(st)[|Joined(st)| - 1] == c[|c| - 1];
    } else {
      assert b == "/";
    }
  }

  lemma HoldsPush(st: seq<string>, c: string)
    requires (forall d | d in st :: IsName(d)) && IsName(c)
    ensures Holds(Joined(st) + "/" + c, st + [c]) && Render(st + [c]) == Joined(st) + "/" + c
  {
    assert (st + [c])[..|st|] == st;
  }

  /** Where the pointer comes to rest when it goes back over the last component. */
  lemma HoldsPop(b: string, st: seq<string>)
    requires Holds(b, st) && |b| > 1
    ensures st != []
    ensures var n := |Joined(st[..|st| - 1])|;
            && n + 1 < |b| && b[n] == '/' && Holds(b[..n + 1], st[..|st| - 1])
            && forall i | n < i < |b| - 1 :: b[i] != '/'
  {
    HoldsSome(b, st);
    var c, init := st[|st| - 1], st[..|st| - 1];
    assert c in st;
    NoSlash(c);
    var n := |Joined(init)|;
    assert Joined(st) == Joined(init) + "/" + c;
    assert b[..n + 1] == Joined(init) + "/";
    forall i | n < i < |b| - 1 ensures b[i] != '/' {
      assert b[i] == c[i - n - 1];
    }
  }

  /** Makes room for at least `need` characters: xrealloc, which ends the program when it fails. */
  method Grow(buf: array<char>, need: nat) returns (r: array<char>)
    ensures fresh(r) && r.Length > need && r.Length >= buf.Length && r[..buf.Length] == buf[..]
  {
    r := new char[buf.Length + need + 1];
    var i := 0;
    while i < buf.Length
      invariant i <= buf.Length && r[..i] == buf[..i]
    {
      r[i] := buf[i];
      i := i + 1;
    }
  }

  /** Backs up to the previous component, or stays at the root. */
  method BackUp(buf: array<char>, dest: nat, ghost st: seq<string>) returns (back: nat)
    requires dest <= buf.Length && Holds(buf[..dest], st)
    ensures 0 < back <= dest && Holds(buf[..back], Step(st, ".."))
  {
    hide Joined, Render;
    HoldsSome(buf[..dest], st);
    back := dest;
    if dest > 1 {
      HoldsPop(buf[..dest], st);
      ghost var n := |Joined(st[..|st| - 1])|;
      back := back - 1;
      while buf[back - 1] != '/'
        invariant n + 1 <= back < dest
        decreases back
      {
        back := back - 1;
      }
      assert back == n + 1;
      assert buf[..dest][..back] == buf[..back];
    } else {
      HoldsRoot(buf[..dest], st);
    }
  }

  lemma HoldsRoot(b: string, st: seq<string>)
    requires Holds(b, st) && |b| <= 1
    ensures b == "/" && st == []
  {
    HoldsSome(b, st);
  }

  /** memcpy and the NUL behind it. */
  method Copy(buf: array<char>, dest: nat, c: string)
    requires dest + |c| < buf.Length
    modifies buf
    ensures buf[..dest + |c|] == old(buf[..dest]) + c && buf[dest + |c|] == '\0'
  {
    var i := 0;
    while i < |c|
      invariant i <= |c| && buf[..dest + i] == old(buf[..dest]) + c[..i]
    {
      buf[dest + i] := c[i];
      assert buf[..dest + i] == old(buf[..dest]) + c[..i];
      i := i + 1;
    }
    buf[dest + |c|] := '\0';
    assert buf[..dest + |c|] == old(buf[..dest]) + c[..|c|];
  }

  /** Appends a component behind a separator; the text before dest is the name of the new stack. */
  method Append(buf: array<char>, dest: nat, c: string, ghost st: seq<string>) returns (r: array<char>, end: nat)
    requires dest <= buf.Length && Holds(buf[..dest], st) && IsName(c)
    modifies buf
    ensures r == buf || fresh(r)
    ensures 0 < end < r.Length && Holds(r[..end], st + [c]) && r[..end] == Render(st + [c]) && r[end] == '\0'
  {
    ghost var b := buf[..dest];
    HoldsSome(b, st);
    HoldsParts(b, st);
    HoldsPush(st, c);
    hide Joined, IsName, Render, Holds;
    r, end := Separate(buf, dest, |c|);
    assert r[..end] == Joined(st) + "/";
    Copy(r, end, c);
    end := end + |c|;
  }

  /** Makes room for n characters behind a separator, which is added unless it is there. */
  method Separate(buf: array<char>, dest: nat, n: nat) returns (r: array<char>, end: nat)
    requires 0 < dest <= buf.Length
    modifies buf
    ensures r == buf || fresh(r)
    ensures 0 < end && end + n < r.Length
    ensures r[..end] == old(if buf[dest - 1] != '/' then buf[..dest] + "/" else buf[..dest])
  {
    ghost var b := buf[..dest];
    r, end := buf, dest;
    if dest + n + 1 >= r.Length {
      r := Grow(buf, dest + n + 1);
      assert r[..dest] == r[..buf.Length][..dest];
    }
    assert r[..end] == b && r[end - 1] == b[dest - 1];
    if r[end - 1] != '/' {
      r[end] := '/';
      end := end + 1;
    }
  }

  lemma HoldsParts(b: string, st: seq<string>)
    requires Holds(b, st)
    ensures forall c | c in st :: IsName(c)
  {
  }

  lemma LoopStep(mode: Mode, fs: FileSystem, s: string, st: seq<string>, from: nat, start: nat, end: nat)
    requires from <= start <= end <= |s| && start == from + Slashes(s[from..]) && end == start + Span(s[start..])
    ensures var r := Loop(mode, fs, s[from..], st);
            var c, rest := s[start..end], s[end..];
            var next := Step(st, c);
            if start == |s| then r == Ok(st)
            else if c == "." || c == ".." then r == Loop(mode, fs, rest, next)
            else
              var e := Judge(mode, fs(Render(next)), rest);
              r == if e.Some? then Err(e.value) else Loop(mode, fs, rest, next)
  {
    hide Judge, Slashes, Span, Render, Step;
    var u, n := s[from..], start - from;
    var t := u[n..];
    assert t == s[start..];
    assert t[..end - start] == s[start..end] && t[end - start..] == s[end..];
  }

  /** The buffer to begin with: the root, or the working directory. */
  method Begin(absolute: bool, cwd: string) returns (buf: array<char>, dest: nat, ghost st: seq<string>)
    requires absolute || Canonical(cwd)
    ensures fresh(buf) && 0 < dest <= buf.Length && Holds(buf[..dest], st)
    ensures st == if absolute then [] else Split(cwd)
  {
    if absolute {
      buf := new char[2];
      buf[0] := '/';
      dest, st := 1, [];
      assert buf[..dest] == "/";
    } else {
      dest, st := |cwd|, Split(cwd);
      buf := new char[dest + 1](i => if 0 <= i < |cwd| then cwd[i] else '\0');
      assert buf[..dest] == cwd;
      CanonicalIsRender(cwd);
      assert forall c | c in st :: Proper(c);
    }
  }

  method Verdict(mode: Mode, stat: Stat, rest: string) returns (failure: Option<Errno>)
    ensures failure == Judge(mode, stat, rest)
  {
    if stat.Absent? {
      if mode.CanExisting? {
        return Some(stat.errno);
      }
      if mode.CanAllButLast? {
        if Slashes(rest) < |rest| || stat.errno != ENOENT {
          return Some(stat.errno);
        }
      }
    } else if !stat.Directory? && rest != "" && !mode.CanMissing? {
      return Some(ENOTDIR);
    }
    return None;
  }

  /** The body of the loop: lines 106 to 230 for one component. */
  method Enter(buf: array<char>, dest: nat, c: string, rest: string, mode: Mode, fs: FileSystem, ghost st: seq<string>)
    returns (r: array<char>, end: nat, ghost next: seq<string>, failure: Option<Errno>)
    requires 0 < dest <= buf.Length && Holds(buf[..dest], st) && IsName(c)
    modifies buf
    ensures r == buf || fresh(r)
    ensures 0 < end <= r.Length && next == Step(st, c) && Holds(r[..end], next)
    ensures failure == if c == "." || c == ".." then None else Judge(mode, fs(Render(next)), rest)
  {
    hide Holds, Render, Judge, IsName;
    r, end, next, failure := buf, dest, Step(st, c), None;
    if c == "." {
    } else if c == ".." {
      end := BackUp(buf, dest, st);
    } else {
      r, end := Append(buf, dest, c, st);
      failure := Verdict(mode, fs(r[..end]), rest);
    }
  }

  method Canonicalize(name: Option<string>, cwd: Result<string>, mode: Mode, fs: FileSystem) returns (r: Result<string>)
    requires cwd.Ok? ==> Canonical(cwd.value)
    ensures r == CanonicalName(name, cwd, mode, fs)
  {
    hide Loop, Render, Span, Slashes, Holds, Split, Joined, IsName, Canonical, Judge, Step;
    if name.None? {
      return Err(EINVAL);
    }
    var s := name.value;
    if s == "" {
      return Err(ENOENT);
    }
    if s[0] != '/' && cwd.Err? {
      return cwd;
    }
    var buf, dest;
    ghost var st;
    buf, dest, st := Begin(s[0] == '/', if cwd.Ok? then cwd.value else "/");
    ghost var answer := Loop(mode, fs, s, st);
    var start: nat := 0;
    assert s[0..] == s;
    while start < |s|
      invariant start <= |s| && 0 < dest <= buf.Length && fresh(buf)
      invariant Holds(buf[..dest], st)
      invariant Loop(mode, fs, s[start..], st) == answer
    {
      ghost var from := start;
      var c: string, end: nat;
      start, end, c := NextComponent(s, start);
      LoopStep(mode, fs, s, st, from, start, end);
      if end == start {
        break;
      }
      var failure;
      buf, dest, st, failure := Enter(buf, dest, c, s[end..], mode, fs, st);
      if failure.Some? {
        return Err(failure.value);
      }
      start := end;
    }
    LoopStep(mode, fs, s, st, |s|, |s|, |s|);
    assert answer == Ok(st);
    HoldsSome(buf[..dest], st);
    if dest > 1 && buf[dest - 1] == '/' {
      assert buf[..dest][..dest - 1] == buf[..dest - 1];
      dest := dest - 1;
    }
    return Ok(buf[..dest]);
  }

  /** Skips separators, then finds the end of the component. */
  method NextComponent(s: string, from: nat) returns (start: nat, end: nat, c: string)
    requires from <= |s|
    ensures from <= start <= end <= |s| && c == s[start..end]
    ensures start == from + Slashes(s[from..]) && end == start + Span(s[start..])
    ensures start == end <==> start == |s|
    ensures start < end ==> IsName(c)
  {
    hide Slashes, Span, IsName;
    start := from;
    ScanStep(s, start);
    while start < |s| && s[start] == '/'
      invariant from <= start <= |s|
      invariant start + Slashes(s[start..]) == from + Slashes(s[from..])
    {
      ScanStep(s, start);
      start := start + 1;
    }
    ScanStep(s, start);
    end := start;
    while end < |s| && s[end] != '/'
      invariant start <= end <= |s|
      invariant end + Span(s[end..]) == start + Span(s[start..])
      invariant forall i | start <= i < end :: s[i] != '/'
    {
      ScanStep(s, end);
      end := end + 1;
    }
    ScanStep(s, end);
    c := s[start..end];
    ComponentIsName(s, start, end);
  }

  lemma ScanStep(s: string, i: nat)
    requires i <= |s|
    ensures Span(s[i..]) == if i == |s| || s[i] == '/' then 0 else 1 + Span(s[i + 1..])
    ensures Slashes(s[i..]) == if i == |s| || s[i] != '/' then 0 else 1 + Slashes(s[i + 1..])
  {
    if i < |s| {
      assert s[i..][1..] == s[i + 1..];
    }
  }

  lemma ComponentIsName(s: string, start: nat, end: nat)
    requires start <= end <= |s| && forall i | start <= i < end :: s[i] != '/'
    ensures start < end ==> IsName(s[start..end])
  {
  }
}
