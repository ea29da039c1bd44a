/** Strings with C escapes, as `getstr` and `file_showstr` of file/apprentice.c read and print
    them: what is printed reads back, and exactly when. */
module Escapes {

  type Byte = b: int | 0 <= b < 256

  type Text = seq<Byte>

  const SPACE: Byte := 32
  const BACKSLASH: Byte := 92
  const LOWER_X: Byte := 120

  predicate IsSpace(c: Byte) {
    c == SPACE || 9 <= c <= 13
  }

  predicate IsPrinted(c: Byte) {
    32 <= c <= 126
  }

  predicate IsOctal(c: Byte) {
    48 <= c <= 55
  }

  /** hextoint. */
  function HexToInt(c: Byte): int {
    if 48 <= c <= 57 then c - 48
    else if 97 <= c <= 102 then c + 10 - 97
    else if 65 <= c <= 70 then c + 10 - 65
    else -1
  }

  /** A C string ends with a NUL. */
  function At(t: Text, i: nat): Byte {
    if i < |t| then t[i] else 0
  }

  predicate IsCString(t: Text) {
    0 !in t
  }

  // ----- Reading -----

  /** The letters that stand for control characters: \a \b \f \n \r \t \v. */
  function Control(c: Byte): Byte {
    if c == 97 then 7 else if c == 98 then 8 else if c == 102 then 12 else if c == 110 then 10
    else if c == 114 then 13 else if c == 116 then 9 else if c == 118 then 11 else c
  }

  datatype Escaped = Escaped(value: Byte, length: nat)

  /** What follows a backslash: its value, and how many characters it takes. */
  function Escape(t: Text): (e: Escaped)
    requires At(t, 0) != 0
    ensures 1 <= e.length <= |t| && e.length <= 3
  {
    var c, d := t[0], At(t, 1);
    if IsOctal(c) then
      if !IsOctal(d) then Escaped(c - 48, 1)
      else if !IsOctal(At(t, 2)) then Escaped((c - 48) * 8 + d - 48, 2)
      else Escaped((((c - 48) * 8 + d - 48) * 8 + At(t, 2) - 48) % 256, 3)
    else if c == LOWER_X then
      if HexToInt(d) < 0 then Escaped(LOWER_X, 1)
      else if HexToInt(At(t, 2)) < 0 then Escaped(HexToInt(d), 2)
      else Escaped(HexToInt(d) * 16 + HexToInt(At(t, 2)), 3)
    else Escaped(Control(c), 1)
  }

  predicate AtEnd(t: Text) {
    At(t, 0) == 0 || IsSpace(t[0]) || (t[0] == BACKSLASH && At(t, 1) == 0)
  }

  /** The first character of t, or its first escape. */
  function First(t: Text): (e: Escaped)
    requires !AtEnd(t)
    ensures 1 <= e.length <= |t|
  {
    if t[0] != BACKSLASH then Escaped(t[0], 1)
    else
      var e := Escape(t[1..]);
      e.(length := e.length + 1)
  }

  /** The string t stands for. */
  function Decode(t: Text): Text
    decreases |t|
  {
    if AtEnd(t) then [] else [First(t).value] + Decode(t[First(t).length..])
  }

  /** What is left of t behind the place where reading stops. */
  function Rest(t: Text): Text
    decreases |t|
  {
    if At(t, 0) == 0 then [] else if IsSpace(t[0]) then t[1..]
    else if AtEnd(t) then [] else Rest(t[First(t).length..])
  }

  /** How many characters are read, the white space or the NUL at the end included. */
  function Stop(t: Text): (n: nat)
    decreases |t|
  {
    if At(t, 0) == 0 || IsSpace(t[0]) then 1 else if AtEnd(t) then 2 else First(t).length + Stop(t[First(t).length..])
  }

  /** Reading stops behind the first white space that is not escaped, or one place behind the NUL. */
  lemma {:induction false} StopsBehind(t: Text)
    requires IsCString(t)
    ensures Stop(t) <= |t| + 1
    ensures Rest(t) == if Stop(t) <= |t| then t[Stop(t)..] else []
    ensures if Stop(t) <= |t| then IsSpace(t[Stop(t) - 1]) else true
    decreases |t|
  {
    hide IsSpace;
    if !AtEnd(t) {
      var n := First(t).length;
      assert IsCString(t[n..]);
      StopsBehind(t[n..]);
    }
  }

  /** A string is too long when something stands in the text where the buffer is full. */
  predicate Overflows(t: Text, room: nat)
    decreases |t|
  {
    if At(t, 0) == 0 || IsSpace(t[0]) then false
    else if room == 0 then true
    else if AtEnd(t) then false
    else Overflows(t[First(t).length..], room - 1)
  }

  lemma {:induction false} OverflowsMeans(t: Text, room: nat)
    ensures |Decode(t)| > room ==> Overflows(t, room)
    ensures |Decode(t)| < room ==> !Overflows(t, room)
    decreases |t|
  {
    if !AtEnd(t) && room > 0 {
      OverflowsMeans(t[First(t).length..], room - 1);
    }
  }

  // ----- Printing -----

  function Letter(b: Byte): Byte {
    if b == 7 then 97 else if b == 8 then 98 else if b == 12 then 102 else if b == 10 then 110
    else if b == 13 then 114 else if b == 9 then 116 else if b == 11 then 118 else 0
  }

  /** One byte as file_showstr prints it. */
  function ShowByte(b: Byte): (t: Text)
    ensures |t| > 0
  {
    if IsPrinted(b) then [b]
    else if Letter(b) != 0 then [BACKSLASH, Letter(b)]
    else [BACKSLASH, b / 64 + 48, b / 8 % 8 + 48, b % 8 + 48]
  }

  function Show(s: Text): Text {
    if s == [] then [] else ShowByte(s[0]) + Show(s[1..])
  }

  // ----- What is printed reads back -----

  predicate Safe(s: Text) {
    SPACE !in s && BACKSLASH !in s
  }

  lemma OctalDigits(b: Byte)
    ensures b / 64 < 4 && b / 8 % 8 < 8 && b % 8 < 8
    ensures (b / 64 * 8 + b / 8 % 8) * 8 + b % 8 == b
  {
  }

  /** Reading goes on behind the first character or escape. */
  lemma ReadOn(t: Text, room: nat)
    requires !AtEnd(t)
    ensures var u := t[First(t).length..];
            && Decode(t) == [First(t).value] + Decode(u) && Rest(t) == Rest(u)
            && Overflows(t, room) == (room == 0 || Overflows(u, room - 1))
            && Stop(t) == First(t).length + Stop(u)
  {
    hide First, Escape;
  }

  lemma OctalReadsBack(x: Byte, y: Byte, z: Byte, rest: Text)
    requires IsOctal(x) && IsOctal(y) && IsOctal(z)
    ensures var u := [x, y, z] + rest;
            At(u, 0) == x && Escape(u) == Escaped((((x - 48) * 8 + y - 48) * 8 + z - 48) % 256, 3)
  {
    var u := [x, y, z] + rest;
    assert At(u, 0) == x && At(u, 1) == y && At(u, 2) == z;
  }

  lemma LetterReadsBack(b: Byte, rest: Text)
    requires Letter(b) != 0
    ensures At([Letter(b)] + rest, 0) == Letter(b) && Escape([Letter(b)] + rest) == Escaped(b, 1)
  {
  }

  /** A byte is read back from its own text whatever stands behind it, digits included. */
  lemma ByteReadsBack(b: Byte, rest: Text)
    requires b != SPACE && b != BACKSLASH
    ensures !AtEnd(ShowByte(b) + rest)
    ensures First(ShowByte(b) + rest) == Escaped(b, |ShowByte(b)|)
  {
    hide Escape;
    var t := ShowByte(b) + rest;
    if !IsPrinted(b) {
      OctalDigits(b);
      var x, y, z := b / 64 + 48, b / 8 % 8 + 48, b % 8 + 48;
      OctalReadsBack(x, y, z, rest);
      assert Letter(b) == 0 ==> t[1..] == [x, y, z] + rest;
      if Letter(b) != 0 {
        LetterReadsBack(b, rest);
        assert t[1..] == [Letter(b)] + rest;
      }
    }
  }

  lemma {:induction false} ShowReadsBack(s: Text, rest: Text)
    requires Safe(s)
    ensures Decode(Show(s) + rest) == s + Decode(rest)
    ensures Rest(Show(s) + rest) == Rest(rest)
    ensures forall room: nat :: |s| <= room ==> Overflows(Show(s) + rest, room) == Overflows(rest, room - |s|)
    decreases |s|
  {
    hide First, AtEnd, ShowByte, Decode, Rest, Overflows;
    if s == [] {
      assert Show(s) + rest == rest;
    } else {
      var b, more := s[0], s[1..];
      var t, u := Show(s) + rest, Show(more) + rest;
      assert b in s && forall x | x in more :: x in s;
      ShowReadsBack(more, rest);
      ByteReadsBack(b, u);
      assert t == ShowByte(b) + u && t[|ShowByte(b)|..] == u;
      ReadOn(t, 0);
      forall room: nat
        ensures Overflows(t, room) == (room == 0 || Overflows(u, room - 1))
      {
        ReadOn(t, room);
      }
    }
  }

  function HexDigit(d: nat): Byte
    requires d < 16
  {
    if d < 10 then 48 + d else 87 + d
  }

  /** Every byte, space and backslash included, can be written as a hexadecimal escape. */
  lemma HexReadsBack(b: Byte, rest: Text)
    ensures First([BACKSLASH, LOWER_X, HexDigit(b / 16), HexDigit(b % 16)] + rest) == Escaped(b, 4)
  {
    var t := [BACKSLASH, LOWER_X, HexDigit(b / 16), HexDigit(b % 16)] + rest;
    assert t[1..] == [LOWER_X, HexDigit(b / 16), HexDigit(b % 16)] + rest;
    assert b / 16 * 16 + b % 16 == b;
  }

  // ----- Every escape -----

  /** The pairs of a letter and the control character it stands for. */
  const LETTERS: seq<(Byte, Byte)> := [(97, 7), (98, 8), (102, 12), (110, 10), (114, 13), (116, 9), (118, 11)]

  predicate Octal(c: Byte, d: nat) {
    d < 8 && c == 48 + d
  }

  /** c is the hexadecimal digit d, in either case. */
  predicate Hexadecimal(c: Byte, d: nat) {
    d < 16 && (if d < 10 then c == 48 + d else c == 97 + d - 10 || c == 65 + d - 10)
  }

  ghost predicate NoOctal(rest: Text) {
    forall d :: !Octal(At(rest, 0), d)
  }

  ghost predicate NoHexadecimal(rest: Text) {
    forall d :: !Hexadecimal(At(rest, 0), d)
  }

  lemma DigitsMean(c: Byte)
    ensures IsOctal(c) <==> exists d :: Octal(c, d)
    ensures HexToInt(c) >= 0 ==> Hexadecimal(c, HexToInt(c))
    ensures forall d :: Hexadecimal(c, d) ==> HexToInt(c) == d
  {
    if IsOctal(c) {
      assert Octal(c, c - 48);
    }
  }

  /** One to three octal digits are a number in base 8, in one byte; as many are taken as there are. */
  lemma OctalEscapes(x: Byte, y: Byte, z: Byte, a: nat, b: nat, c: nat, rest: Text)
    requires Octal(x, a) && Octal(y, b) && Octal(z, c)
    ensures First([BACKSLASH, x, y, z] + rest) == Escaped((64 * a + 8 * b + c) % 256, 4)
    ensures NoOctal(rest) ==> First([BACKSLASH, x, y] + rest) == Escaped(8 * a + b, 3)
    ensures NoOctal(rest) ==> First([BACKSLASH, x] + rest) == Escaped(a, 2)
  {
    DigitsMean(At(rest, 0));
    assert ([BACKSLASH, x, y, z] + rest)[1..] == [x, y, z] + rest;
    assert ([BACKSLASH, x, y] + rest)[1..] == [x, y] + rest;
    assert ([BACKSLASH, x] + rest)[1..] == [x] + rest;
    assert At([x, y] + rest, 2) == At(rest, 0) && At([x] + rest, 1) == At(rest, 0);
  }

  /** So are one or two hexadecimal digits behind an x, in base 16; without any the x stands for itself. */
  lemma HexEscapes(x: Byte, y: Byte, a: nat, b: nat, rest: Text)
    requires Hexadecimal(x, a) && Hexadecimal(y, b)
    ensures First([BACKSLASH, LOWER_X, x, y] + rest) == Escaped(16 * a + b, 4)
    ensures NoHexadecimal(rest) ==> First([BACKSLASH, LOWER_X, x] + rest) == Escaped(a, 3)
    ensures NoHexadecimal(rest) ==> First([BACKSLASH, LOWER_X] + rest) == Escaped(120, 2)
  {
    DigitsMean(x);
    DigitsMean(y);
    DigitsMean(At(rest, 0));
    assert ([BACKSLASH, LOWER_X, x, y] + rest)[1..] == [LOWER_X, x, y] + rest;
    assert ([BACKSLASH, LOWER_X, x] + rest)[1..] == [LOWER_X, x] + rest;
    assert ([BACKSLASH, LOWER_X] + rest)[1..] == [LOWER_X] + rest;
    assert At([LOWER_X, x] + rest, 2) == At(rest, 0) && At([LOWER_X] + rest, 1) == At(rest, 0);
  }

  /** Seven letters stand for control characters, and all else for itself, escaped or not; white space
      that is not escaped ends the string. */
  lemma OtherEscapes(c: Byte, rest: Text)
    requires c != 0
    ensures forall i | 0 <= i < |LETTERS| && LETTERS[i].0 == c ::
              First([BACKSLASH, c] + rest) == Escaped(LETTERS[i].1, 2)
    ensures (forall i | 0 <= i < |LETTERS| :: LETTERS[i].0 != c) && (forall d :: !Octal(c, d)) && c != LOWER_X ==>
              First([BACKSLASH, c] + rest) == Escaped(c, 2)
    ensures c != BACKSLASH && c != 32 && !(9 <= c <= 13) ==> First([c] + rest) == Escaped(c, 1)
    ensures c == 32 || 9 <= c <= 13 ==> Decode([c] + rest) == [] && Stop([c] + rest) == 1
  {
    DigitsMean(c);
    assert ([BACKSLASH, c] + rest)[1..] == [c] + rest;
    assert LETTERS[0].0 == 97 && LETTERS[1].0 == 98 && LETTERS[2].0 == 102 && LETTERS[3].0 == 110 &&
      LETTERS[4].0 == 114 && LETTERS[5].0 == 116 && LETTERS[6].0 == 118;
  }

  /** file_showstr prints a control character that has a letter with it, what is printed as it is, and
      all else as three octal digits. */
  lemma ShownAs(b: Byte)
    ensures 32 <= b <= 126 ==> ShowByte(b) == [b]
    ensures forall i | 0 <= i < |LETTERS| && LETTERS[i].1 == b :: ShowByte(b) == [BACKSLASH, LETTERS[i].0]
    ensures !(32 <= b <= 126) && (forall i | 0 <= i < |LETTERS| :: LETTERS[i].1 != b) ==>
              var t := ShowByte(b);
              && |t| == 4 && t[0] == BACKSLASH
              && exists x: nat, y: nat, z: nat {:trigger Octal(t[1], x), Octal(t[2], y), Octal(t[3], z)} ::
                   Octal(t[1], x) && Octal(t[2], y) && Octal(t[3], z) && 64 * x + 8 * y + z == b
  {
    OctalDigits(b);
    assert LETTERS[0].1 == 7 && LETTERS[1].1 == 8 && LETTERS[2].1 == 12 && LETTERS[3].1 == 10 &&
      LETTERS[4].1 == 13 && LETTERS[5].1 == 9 && LETTERS[6].1 == 11;
    assert Octal(b / 64 + 48, b / 64) && Octal(b / 8 % 8 + 48, b / 8 % 8) && Octal(b % 8 + 48, b % 8);
  }

  // ----- And nothing else does -----

  /** Bytes that need a backslash to come out of a text that has only printed characters. */
  predicate Special(b: Byte) {
    b == BACKSLASH || !IsPrinted(b)
  }

  function Specials(s: Text): nat {
    if s == [] then 0 else (if Special(s[0]) then 1 else 0) + Specials(s[1..])
  }

  function Backslashes(t: Text): nat {
    if t == [] then 0 else (if t[0] == BACKSLASH then 1 else 0) + Backslashes(t[1..])
  }

  predicate AllPrinted(t: Text) {
    forall c | c in t :: IsPrinted(c)
  }

  lemma {:induction false} BackslashesAdd(a: Text, b: Text)
    ensures Backslashes(a + b) == Backslashes(a) + Backslashes(b)
    decreases |a|
  {
    if a == [] {
      assert a + b == b;
    } else {
      BackslashesAdd(a[1..], b);
      assert (a + b)[1..] == a[1..] + b;
    }
  }

  lemma {:induction false} SpecialsAdd(a: Text, b: Text)
    ensures Specials(a + b) == Specials(a) + Specials(b)
    decreases |a|
  {
    if a == [] {
      assert a + b == b;
    } else {
      SpecialsAdd(a[1..], b);
      assert (a + b)[1..] == a[1..] + b;
    }
  }

  lemma ByteBackslashes(b: Byte)
    ensures AllPrinted(ShowByte(b)) && Backslashes(ShowByte(b)) == if Special(b) then 1 else 0
    ensures Special(b) <==> ShowByte(b)[0] == BACKSLASH
    ensures !Special(b) ==> ShowByte(b) == [b]
  {
    OctalDigits(b);
    var x, y, z := b / 64 + 48, b / 8 % 8 + 48, b % 8 + 48;
    BackslashesAdd([BACKSLASH], [Letter(b)]);
    BackslashesAdd([x, y], [z]);
    BackslashesAdd([BACKSLASH], [x, y, z]);
    assert [BACKSLASH] + [Letter(b)] == [BACKSLASH, Letter(b)];
    assert [x, y] + [z] == [x, y, z] && [BACKSLASH] + [x, y, z] == [BACKSLASH, x, y, z];
    assert Backslashes([x, y]) == Backslashes([y]);
  }

  /** One backslash is printed for each special byte. */
  lemma {:induction false} ShowBackslashes(s: Text)
    ensures AllPrinted(Show(s)) && Backslashes(Show(s)) == Specials(s)
  {
    hide ShowByte;
    if s != [] {
      ByteBackslashes(s[0]);
      ShowBackslashes(s[1..]);
      BackslashesAdd(ShowByte(s[0]), Show(s[1..]));
    }
  }

  lemma FirstBackslashes(t: Text)
    requires AllPrinted(t) && !AtEnd(t)
    ensures var n := First(t).length;
            && AllPrinted(t[n..]) && Backslashes(t) == Backslashes(t[..n]) + Backslashes(t[n..])
            && (t[0] == BACKSLASH ==> Backslashes(t[..n]) >= 1 + (if t[1] == BACKSLASH then 1 else 0))
            && (t[0] != BACKSLASH ==> !Special(First(t).value))
  {
    var n := First(t).length;
    assert t[..n] + t[n..] == t;
    BackslashesAdd(t[..n], t[n..]);
    assert t[0] in t;
    if t[0] == BACKSLASH {
      assert t[..n] == [t[0]] + t[1..n] && t[1..n] == [t[1]] + t[2..n];
      BackslashesAdd([t[0]], t[1..n]);
      BackslashesAdd([t[1]], t[2..n]);
    }
  }

  /** Reading makes no more special bytes than there are backslashes. */
  lemma {:induction false} DecodeSpecials(t: Text)
    requires AllPrinted(t)
    ensures Specials(Decode(t)) <= Backslashes(t)
    decreases |t|
  {
    if !AtEnd(t) {
      FirstBackslashes(t);
      hide First, AtEnd, AllPrinted;
      var u := t[First(t).length..];
      DecodeSpecials(u);
      assert ([First(t).value] + Decode(u))[1..] == Decode(u);
    }
  }

  lemma {:induction false} ShowConcat(a: Text, b: Text)
    ensures Show(a + b) == Show(a) + Show(b)
    decreases |a|
  {
    hide ShowByte;
    if a == [] {
      assert a + b == b;
    } else {
      ShowConcat(a[1..], b);
      assert (a + b)[1..] == a[1..] + b;
    }
  }

  lemma ShowFirst(s: Text)
    requires s != []
    ensures Show(s) == ShowByte(s[0]) + Show(s[1..]) && Show(s)[0] == ShowByte(s[0])[0]
    ensures Special(s[0]) <==> Show(s)[0] == BACKSLASH
    ensures !Special(s[0]) ==> Show(s)[0] == s[0] && Show(s)[1..] == Show(s[1..])
  {
    ByteBackslashes(s[0]);
    hide ShowByte;
  }

  /** A text cannot read back as its string with other plain bytes put in front. */
  lemma NoShift(q: Text, x: Text)
    requires x != [] && Specials(x) == 0
    requires q == [] || q[0] == SPACE || Special(q[0])
    ensures Decode(Show(q)) != x + q
  {
    hide First, Show, AtEnd, ShowByte, Specials, Backslashes, AllPrinted;
    var t := Show(q);
    DecodeEnds(t);
    if q == [] || q[0] == SPACE {
      ShowEnds(q);
    } else if !AtEnd(t) {
      ShowFirst(q);
      ShowBackslashes(q);
      AfterBackslash(t);
      hide Decode;
      NoneBefore(x, q);
    }
  }

  lemma DecodeEnds(t: Text)
    ensures AtEnd(t) ==> Decode(t) == []
  {
  }

  lemma ShowEnds(q: Text)
    requires q == [] || q[0] == SPACE
    ensures AtEnd(Show(q))
  {
    if q != [] {
      ShowFirst(q);
    }
  }

  lemma NoneBefore(x: Text, q: Text)
    requires x != [] && Specials(x) == 0
    ensures Specials((x + q)[1..]) == Specials(q)
  {
    SpecialsAdd(x[1..], q);
    assert (x + q)[1..] == x[1..] + q;
  }

  lemma AfterBackslash(t: Text)
    requires AllPrinted(t) && !AtEnd(t)
    ensures t[0] == BACKSLASH ==> Specials(Decode(t)[1..]) < Backslashes(t)
  {
    var n := First(t).length;
    FirstBackslashes(t);
    DecodeSpecials(t[n..]);
    hide First;
    assert Decode(t)[1..] == Decode(t[n..]);
  }

  /** How many bytes of v come before the first space or special byte. */
  function Plain(v: Text): (m: nat)
    ensures m <= |v| && Safe(v[..m]) && Specials(v[..m]) == 0
    ensures m < |v| ==> v[m] == SPACE || Special(v[m])
  {
    if v == [] || v[0] == SPACE || Special(v[0]) then 0
    else
      var n := Plain(v[1..]);
      assert v[..1 + n] == [v[0]] + v[1..][..n];
      assert v[..1 + n][1..] == v[1..][..n];
      1 + n
  }

  lemma ReadsBackBehind(p: Text, q: Text)
    requires Safe(p)
    ensures Decode(Show(p + q)) == p + Decode(Show(q))
  {
    ShowConcat(p, q);
    ShowReadsBack(p, Show(q));
  }

  /** What stands behind the first |p| bytes of w + p + q: as many bytes as w has, then q. */
  function Behind(w: Text, p: Text): (x: Text)
    ensures |x| == |w| && (Specials(w) == 0 && Specials(p) == 0 ==> Specials(x) == 0)
  {
    var y := w + p;
    SpecialsAdd(w, p);
    SpecialsAdd(y[..|p|], y[|p|..]);
    assert y == y[..|p|] + y[|p|..];
    y[|p|..]
  }

  lemma ShiftMoves(w: Text, p: Text, q: Text, d: Text)
    requires p + d == w + (p + q)
    ensures d == Behind(w, p) + q
  {
    var y := w + p;
    assert w + (p + q) == y + q == y[..|p|] + y[|p|..] + q;
    assert (p + d)[|p|..] == d;
    assert (y + q)[|p|..] == y[|p|..] + q;
  }

  lemma NoShiftAtAll(v: Text, w: Text)
    requires w != [] && Specials(w) == 0
    ensures Decode(Show(v)) != w + v
  {
    hide Decode, Show, Safe, Specials, Special, Behind;
    var m := Plain(v);
    var p, q := v[..m], v[m..];
    assert v == p + q;
    ReadsBackBehind(p, q);
    NoShift(q, Behind(w, p));
    if p + Decode(Show(q)) == w + (p + q) {
      ShiftMoves(w, p, q, Decode(Show(q)));
    }
  }

  lemma EscapedBackslash(t: Text)
    requires At(t, 0) != 0 && t[0] != BACKSLASH && Escape(t).value == BACKSLASH
    ensures Escape(t).length == 3 && t[1] != BACKSLASH && t[2] != BACKSLASH
  {
  }

  lemma ThreePlain(s: Text)
    requires |Show(s)| >= 3 && Show(s)[0] != BACKSLASH && Show(s)[1] != BACKSLASH && Show(s)[2] != BACKSLASH
    ensures |s| >= 3 && Specials(s[..3]) == 0 && Show(s)[3..] == Show(s[3..])
  {
    hide ShowByte, Special;
    ShowFirst(s);
    ShowFirst(s[1..]);
    assert s[1..][1..] == s[2..];
    ShowFirst(s[2..]);
    assert s[2..][1..] == s[3..];
    SpecialsAdd([s[0]], [s[1]]);
    SpecialsAdd([s[0]] + [s[1]], [s[2]]);
    assert s[..3] == [s[0]] + [s[1]] + [s[2]];
  }

  lemma HeadDoesNotReadBack(u: Text)
    requires u != [] && (u[0] == SPACE || u[0] == BACKSLASH)
    ensures Decode(Show(u)) != u
  {
    var t := Show(u);
    if u[0] == SPACE {
      ShowEnds(u);
    } else if !AtEnd(t) && First(t).value == BACKSLASH {
      OneBackslash(u);
    }
  }

  lemma OneBackslash(u: Text)
    requires u != [] && u[0] == BACKSLASH && !AtEnd(Show(u)) && First(Show(u)).value == BACKSLASH
    ensures Decode(Show(u)) != u
  {
    var t := Show(u);
    assert t == [BACKSLASH] + Show(u[1..]);
    var y := t[1..];
    var n := First(t).length;
    assert y == Show(u[1..]);
    if y[0] == BACKSLASH {
      ShowBackslashes(u);
      FirstBackslashes(t);
      DecodeSpecials(t[n..]);
      hide First, Show, AllPrinted, AtEnd;
      assert Decode(t)[1..] == Decode(t[n..]);
    } else {
      EscapedBackslash(y);
      ThreePlain(u[1..]);
      var w, v := u[1..4], u[4..];
      assert u[1..][..3] == w && u[1..][3..] == v && t[4..] == y[3..];
      NoShiftAtAll(v, w);
      assert Decode(t)[1..] == Decode(Show(v));
      assert u[1..] == w + v;
    }
  }

  function FirstUnsafe(s: Text): (k: nat)
    ensures k <= |s| && Safe(s[..k])
    ensures k < |s| ==> s[k] == SPACE || s[k] == BACKSLASH
  {
    if s == [] || s[0] == SPACE || s[0] == BACKSLASH then 0
    else
      var n := FirstUnsafe(s[1..]);
      assert s[..1 + n] == [s[0]] + s[1..][..n];
      1 + n
  }

  /** A string reads back from its own text exactly when it has no space and no backslash. */
  lemma ReadsBackExactly(s: Text)
    ensures Decode(Show(s)) == s <==> Safe(s)
  {
    hide Decode, Show;
    var k := FirstUnsafe(s);
    var p, u := s[..k], s[k..];
    assert s == p + u;
    ReadsBackBehind(p, u);
    if u == [] {
      ShowNothing();
    } else {
      assert s[k] in s;
      HeadDoesNotReadBack(u);
      assert s[k..] == u && (p + Decode(Show(u)))[k..] == Decode(Show(u));
    }
  }

  lemma ShowNothing()
    ensures Show([]) == [] && Decode(Show([])) == []
  {
  }

  lemma NothingEnds(size: nat)
    ensures forall room: nat | room <= size :: !Overflows([], room)
  {
  }

  // ----- The functions -----

  datatype Parsed = TooLong | Parsed(value: Text, length: Byte, rest: Text)

  /** getstr into a buffer of the given size; the length is kept in one byte. */
  function GetStr(t: Text, size: nat): Parsed
    requires size > 0
  {
    if Overflows(t, size - 1) then TooLong else Parsed(Decode(t), |Decode(t)| % 256, Rest(t))
  }

  /** getstr gives back what file_showstr printed, with its length when that fits a byte, exactly
      when the string fits the buffer and has no space and no backslash. */
  lemma RoundTrip(s: Text, size: nat)
    requires size > 0
    ensures var r := GetStr(Show(s), size);
            && (r.Parsed? && r.value == s <==> |s| < size && Safe(s))
            && (r.Parsed? && r.value == s ==> (r.length == |s| <==> |s| < 256))
  {
    hide Decode, Show, Overflows, Rest, Safe;
    ReadsBackExactly(s);
    OverflowsMeans(Show(s), size - 1);
    NothingEnds(size);
    if Safe(s) && |s| < size {
      ShowReadsBack(s, []);
      assert Show(s) + [] == Show(s);
    }
  }

  /** The same inside a line: reading stops at the white space behind the text. */
  lemma RoundTripInLine(s: Text, line: Text, size: nat)
    requires |s| < size && Safe(s) && line != [] && IsSpace(line[0])
    ensures GetStr(Show(s) + line, size) == Parsed(s, |s| % 256, line[1..])
  {
    ShowReadsBack(s, line);
    assert s + [] == s;
    assert Overflows(Show(s) + line, size - 1) == Overflows(line, size - 1 - |s|);
  }

  // ----- The code -----

  /** The switch on the character behind a backslash: lines 656 to 761. */
  method ReadEscape(t: Text, from: nat) returns (val: Byte, i: nat)
    requires from < |t| && At(t[from..], 0) != 0
    ensures from < i <= |t| && Escape(t[from..]) == Escaped(val, i - from)
  {
    ghost var u := t[from..];
    assert At(u, 1) == At(t, from + 1) && At(u, 2) == At(t, from + 2);
    var c := t[from];
    i := from + 1;
    if IsOctal(c) {
      var v: int := c - 48;
      c := At(t, i);
      i := i + 1;
      if IsOctal(c) {
        v := v * 8 + (c - 48);
        c := At(t, i);
        i := i + 1;
        if IsOctal(c) {
          v := v * 8 + (c - 48);
        } else {
          i := i - 1;
        }
      } else {
        i := i - 1;
      }
      val := v % 256;
    } else if c == LOWER_X {
      val := LOWER_X;
      var d := HexToInt(At(t, i));
      i := i + 1;
      if d >= 0 {
        val := d;
        d := HexToInt(At(t, i));
        i := i + 1;
        if d >= 0 {
          val := val * 16 + d;
        } else {
          i := i - 1;
        }
      } else {
        i := i - 1;
      }
    } else {
      val := Control(c);
    }
  }

  /** One turn of reading, seen from place i of the text. */
  lemma ReadAt(t: Text, i: nat, room: nat)
    requires IsCString(t) && i <= |t|
    ensures i == |t| ==> Decode(t[i..]) == [] && Stop(t[i..]) == 1 && !Overflows(t[i..], room)
    ensures i < |t| && IsSpace(t[i]) ==>
              Decode(t[i..]) == [] && Stop(t[i..]) == 1 && !Overflows(t[i..], room)
    ensures i < |t| && !IsSpace(t[i]) ==>
              && (room == 0 ==> Overflows(t[i..], room))
              && (t[i] == BACKSLASH && i + 1 == |t| && room > 0 ==>
                    Decode(t[i..]) == [] && Stop(t[i..]) == 2 && !Overflows(t[i..], room))
              && (t[i] == BACKSLASH && i + 1 < |t| ==>
                    At(t[i + 1..], 0) != 0 &&
                    ReadsTo(t, i, Escape(t[i + 1..]).value, i + 1 + Escape(t[i + 1..]).length, room))
              && (t[i] != BACKSLASH ==> ReadsTo(t, i, t[i], i + 1, room))
  {
    hide Escape;
    var u := t[i..];
    if i < |t| && !IsSpace(t[i]) {
      assert t[i] in t && u[0] == t[i];
      if i + 1 < |t| {
        assert t[i + 1] in t && At(u, 1) == t[i + 1] && u[1..] == t[i + 1..];
      }
      if !AtEnd(u) {
        ReadOn(u, room);
        assert u[First(u).length..] == t[i + First(u).length..];
      }
    }
  }

  /** From place i to place j the text yields the byte b. */
  predicate ReadsTo(t: Text, i: nat, b: Byte, j: nat, room: nat) {
    && i < j <= |t|
    && Decode(t[i..]) == [b] + Decode(t[j..]) && Stop(t[i..]) == j - i + Stop(t[j..])
    && (room > 0 ==> Overflows(t[i..], room) == Overflows(t[j..], room - 1))
  }

  /** getstr: fills `value`, and answers where the text goes on; at the end of the text that is one
      place behind the NUL, which stands at |t|. A Pascal string has the size of its length prefix
      added to its length, in one byte. */
  method ReadString(t: Text, value: array<Byte>, prefix: nat) returns (ok: bool, vallen: Byte, next: nat)
    requires IsCString(t) && value.Length > 0
    modifies value
    ensures var r := GetStr(t, value.Length);
            && (ok <==> r.Parsed?)
            && (ok ==> && |r.value| < value.Length && value[..|r.value|] == r.value && value[|r.value|] == 0
                       && vallen == (r.length + prefix) % 256)
            && (ok ==> next == Stop(t) <= |t| + 1 && r.rest == if next <= |t| then t[next..] else [])
  {
    hide Decode, Rest, Stop, Overflows, Escape, First, At, IsSpace, IsCString;
    StopsBehind(t);
    var i: nat, p: nat := 0, 0;
    assert t[0..] == t;
    while true
      invariant i <= |t| && p < value.Length
      invariant Decode(t) == value[..p] + Decode(t[i..]) && Stop(t) == i + Stop(t[i..])
      invariant Overflows(t, value.Length - 1) == Overflows(t[i..], value.Length - 1 - p)
      decreases |t| - i
    {
      ReadAt(t, i, value.Length - 1 - p);
      if i == |t| {
        i := i + 1;
        break;
      }
      var c := t[i];
      if IsSpace(c) {
        i := i + 1;
        break;
      }
      if p >= value.Length - 1 {
        return false, 0, 0;
      }
      if c == BACKSLASH && i + 1 == |t| {
        i := i + 2;
        break;
      }
      i := i + 1;
      if c == BACKSLASH {
        c, i := ReadEscape(t, i);
      }
      ghost var read := value[..p];
      value[p] := c;
      p := p + 1;
      assert value[..p] == read + [c];
    }
    assert value[..p] == Decode(t) && i == Stop(t) && !Overflows(t, value.Length - 1);
    value[p] := 0;
    vallen := p % 256;
    if prefix != 0 {
      vallen := (vallen + prefix) % 256;
    }
    return true, vallen, i;
  }

  /** file_showstr. The length ~0U, for a string that ends at its NUL, is len == strlen(s). */
  method ShowString(s: Text, len: nat) returns (text: Text)
    requires len <= |s|
    ensures text == Show(s[..len])
  {
    hide Show;
    text := [];
    var i := 0;
    assert s[..0] == [];
    ShowNothing();
    while i < len
      invariant i <= len && text == Show(s[..i])
    {
      var c := s[i];
      if 32 <= c <= 126 {
        text := text + [c];
      } else {
        text := text + [BACKSLASH];
        match c {
          case 7 => text := text + [97];
          case 8 => text := text + [98];
          case 12 => text := text + [102];
          case 10 => text := text + [110];
          case 13 => text := text + [114];
          case 9 => text := text + [116];
          case 11 => text := text + [118];
          case _ => text := text + [c / 64 + 48, c / 8 % 8 + 48, c % 8 + 48];
        }
      }
      ShowSnoc(s[..i], c);
      assert s[..i + 1] == s[..i] + [c];
      i := i + 1;
    }
  }

  lemma ShowSnoc(s: Text, c: Byte)
    ensures Show(s + [c]) == Show(s) + ShowByte(c)
  {
    ShowConcat(s, [c]);
  }
}
