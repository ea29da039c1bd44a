/** UTF-8 in the form of section 2 of RFC 2279, up to six bytes: the encoder of
    file/ascmagic.c and the decoder of file/encoding.c. */
module Utf8 {
  import opened Wrappers

  type Byte = b: nat | b < 256

  const MAX_CODE: nat := 0x7fffffff

  // ----- Encoding -----

  /** c >> (6 * n) */
  function Shift(c: nat, n: nat): nat {
    if n == 0 then c else Shift(c / 64, n - 1)
  }

  /** The number of continuation bytes of a code point. */
  function Following(c: nat): nat
    requires c <= MAX_CODE
  {
    if c <= 0x7f then 0
    else if c <= 0x7ff then 1
    else if c <= 0xffff then 2
    else if c <= 0x1fffff then 3
    else if c <= 0x3ffffff then 4
    else 5
  }

  function Marker(n: nat): nat
    requires n <= 5
  {
    if n == 0 then 0 else if n == 1 then 0xc0 else if n == 2 then 0xe0
    else if n == 3 then 0xf0 else if n == 4 then 0xf8 else 0xfc
  }

  /** The last n groups of six bits, each in a continuation byte. */
  function Tail(c: nat, n: nat): (s: seq<Byte>)
    ensures |s| == n
  {
    if n == 0 then [] else Tail(c / 64, n - 1) + [0x80 + c % 64]
  }

  lemma LeadFits(c: nat)
    requires c <= MAX_CODE
    ensures var n := Following(c);
            Shift(c, n) < (if n == 0 then 0x80 else if n == 1 then 0x20 else if n == 2 then 0x10
                           else if n == 3 then 8 else if n == 4 then 4 else 2)
  {
    var a := c / 64;
    var b := a / 64;
    var d := b / 64;
    var e := d / 64;
    assert Shift(c, 1) == a && Shift(c, 2) == Shift(a, 1) == b;
    assert Shift(c, 3) == Shift(a, 2) == Shift(b, 1) == d;
    assert Shift(c, 4) == Shift(a, 3) == Shift(b, 2) == Shift(d, 1) == e;
    assert Shift(c, 5) == Shift(a, 4) == Shift(b, 3) == Shift(d, 2) == Shift(e, 1) == e / 64;
  }

  function EncodeOne(c: nat): (s: seq<Byte>)
    requires c <= MAX_CODE
    ensures |s| == 1 + Following(c)
  {
    LeadFits(c);
    var n := Following(c);
    [Marker(n) + Shift(c, n)] + Tail(c, n)
  }

  /** The table of RFC 2279. */
  lemma EncodingIs(c: nat)
    requires c <= MAX_CODE
    ensures c < 0x80 ==> EncodeOne(c) == [c]
    ensures 0x80 <= c < 0x800 ==> EncodeOne(c) == [0xc0 + c / 64, 0x80 + c % 64]
    ensures 0x800 <= c < 0x10000 ==> EncodeOne(c) == [0xe0 + c / 4096, 0x80 + c / 64 % 64, 0x80 + c % 64]
    ensures 0x10000 <= c < 0x200000 ==>
              EncodeOne(c) == [0xf0 + c / 0x40000, 0x80 + c / 4096 % 64, 0x80 + c / 64 % 64, 0x80 + c % 64]
    ensures 0x200000 <= c < 0x4000000 ==>
              EncodeOne(c) == [0xf8 + c / 0x1000000, 0x80 + c / 0x40000 % 64, 0x80 + c / 4096 % 64,
                               0x80 + c / 64 % 64, 0x80 + c % 64]
    ensures 0x4000000 <= c ==>
              EncodeOne(c) == [0xfc + c / 0x40000000, 0x80 + c / 0x1000000 % 64, 0x80 + c / 0x40000 % 64,
                               0x80 + c / 4096 % 64, 0x80 + c / 64 % 64, 0x80 + c % 64]
  {
    hide Tail, Shift;
    Quotients(c);
    TailGroups(c);
    TailGroups(c / 64);
    TailGroups(c / 64 / 64);
  }

  lemma Quotients(c: nat)
    ensures c / 64 / 64 == c / 4096 && c / 4096 / 64 == c / 0x40000 && c / 0x40000 / 64 == c / 0x1000000
    ensures c / 0x1000000 / 64 == c / 0x40000000
  {
  }

  lemma TailGroups(c: nat)
    ensures Tail(c, 0) == [] && Shift(c, 0) == c
    ensures Tail(c, 1) == [0x80 + c % 64] && Shift(c, 1) == c / 64
    ensures Tail(c, 2) == [0x80 + c / 64 % 64, 0x80 + c % 64] && Shift(c, 2) == c / 64 / 64
    ensures Tail(c, 3) == [0x80 + c / 64 / 64 % 64, 0x80 + c / 64 % 64, 0x80 + c % 64]
    ensures Shift(c, 3) == c / 64 / 64 / 64
    ensures Tail(c, 4) == Tail(c / 64, 3) + [0x80 + c % 64] && Shift(c, 4) == Shift(c / 64, 3)
    ensures Tail(c, 5) == Tail(c / 64, 4) + [0x80 + c % 64] && Shift(c, 5) == Shift(c / 64, 4)
  {
    assert Tail(c, 1) == Tail(c / 64, 0) + [0x80 + c % 64];
    assert Tail(c, 2) == Tail(c / 64, 1) + [0x80 + c % 64];
    assert Tail(c, 3) == Tail(c / 64, 2) + [0x80 + c % 64];
  }

  predicate Codes(us: seq<nat>) {
    forall k | 0 <= k < |us| :: us[k] <= MAX_CODE
  }

  function Encode(us: seq<nat>): (s: seq<Byte>)
    requires Codes(us)
  {
    if us == [] then [] else EncodeOne(us[0]) + Encode(us[1..])
  }

  lemma {:induction false} EncodeAppend(us: seq<nat>, vs: seq<nat>)
    requires Codes(us) && Codes(vs)
    ensures Encode(us + vs) == Encode(us) + Encode(vs)
  {
    if us == [] {
      assert us + vs == vs;
    } else {
      EncodeAppend(us[1..], vs);
      assert (us + vs)[1..] == us[1..] + vs;
    }
  }

  lemma {:induction false} EncodeSize(us: seq<nat>)
    requires Codes(us)
    ensures |us| <= |Encode(us)| <= 6 * |us|
  {
    if us != [] {
      EncodeSize(us[1..]);
    }
  }

  // ----- Decoding -----

  /** The entries T of text_chars among the ASCII characters. */
  predicate IsText(b: nat) {
    b == 7 || b == 8 || b == 9 || b == 10 || b == 12 || b == 13 || b == 27 || 32 <= b <= 126
  }

  /** Number of continuation bytes a lead byte from 0xc0 on announces; 0 if it is none. */
  function Announced(b: Byte): nat
    requires b >= 0xc0
  {
    if b < 0xe0 then 1 else if b < 0xf0 then 2 else if b < 0xf8 then 3
    else if b < 0xfc then 4 else if b < 0xfe then 5 else 0
  }

  predicate IsContinuation(b: Byte) {
    0x80 <= b < 0xc0
  }

  function Accumulate(c: nat, bs: seq<Byte>): nat
    requires AllContinuation(bs)
  {
    if bs == [] then c
    else
      assert IsContinuation(bs[|bs| - 1]);
      Accumulate(c, bs[..|bs| - 1]) * 64 + (bs[|bs| - 1] - 0x80)
  }

  /** What the scan has found: the code points, and whether one of them was a control
      character no text has, or came from more than one byte; `bad` is verdict -1. */
  datatype Scan = Scan(us: seq<nat>, ctrl: bool, high: bool, bad: bool)

  function Verdict(s: Scan): int {
    if s.bad then -1 else if s.ctrl then 0 else if s.high then 2 else 1
  }

  function Min(a: nat, b: nat): nat {
    if a <= b then a else b
  }

  /** The bytes after a lead byte that should be continuation bytes, as far as they exist. */
  function Group(bs: seq<Byte>, n: nat): seq<Byte>
    requires bs != []
  {
    bs[1..1 + Min(n, |bs| - 1)]
  }

  predicate AllContinuation(bs: seq<Byte>) {
    forall k | 0 <= k < |bs| :: IsContinuation(bs[k])
  }

  /** file_looks_utf8: a sequence cut off by the end of the text is not an error. */
  function Decode(bs: seq<Byte>): Scan
    decreases |bs|
  {
    if bs == [] then Scan([], false, false, false)
    else if bs[0] < 0x80 then
      var r := Decode(bs[1..]);
      Scan([bs[0]] + r.us, r.ctrl || !IsText(bs[0]), r.high, r.bad)
    else if bs[0] < 0xc0 || Announced(bs[0]) == 0 then Scan([], false, false, true)
    else
      var n := Announced(bs[0]);
      var g := Group(bs, n);
      if !AllContinuation(g) then Scan([], false, false, true)
      else if |g| < n then Scan([], false, false, false)
      else
        var r := Decode(bs[1 + n..]);
        Scan([Accumulate(bs[0] - Marker(n), g)] + r.us, r.ctrl, true, r.bad)
  }

  // ----- Round trip -----

  lemma {:induction false} TailContinues(c: nat, n: nat)
    ensures AllContinuation(Tail(c, n))
  {
    if n > 0 {
      TailContinues(c / 64, n - 1);
    }
  }

  lemma {:induction false} AccumulateTail(c: nat, n: nat)
    ensures AllContinuation(Tail(c, n)) && Accumulate(Shift(c, n), Tail(c, n)) == c
  {
    TailContinues(c, n);
    if n > 0 {
      AccumulateTail(c / 64, n - 1);
      var t := Tail(c, n);
      assert t[..n - 1] == Tail(c / 64, n - 1);
    }
  }

  /** A code point is decoded, whatever follows it. */
  lemma DecodeEncodedOne(c: nat, rest: seq<Byte>)
    requires c <= MAX_CODE
    ensures var r := Decode(rest);
            Decode(EncodeOne(c) + rest)
            == Scan([c] + r.us, r.ctrl || (c < 0x80 && !IsText(c)), r.high || c >= 0x80, r.bad)
  {
    LeadFits(c);
    var n := Following(c);
    var bs := EncodeOne(c) + rest;
    assert bs[1 + n..] == rest;
    if n > 0 {
      AccumulateTail(c, n);
      assert Group(bs, n) == Tail(c, n);
    }
  }

  predicate HasControl(us: seq<nat>) {
    exists k :: 0 <= k < |us| && us[k] < 0x80 && !IsText(us[k])
  }

  predicate HasHigh(us: seq<nat>) {
    exists k :: 0 <= k < |us| && us[k] >= 0x80
  }

  /** Decoding what was encoded gives the code points back, and the verdict is about them. */
  lemma {:induction false} RoundTrip(us: seq<nat>)
    requires Codes(us)
    ensures Decode(Encode(us)) == Scan(us, HasControl(us), HasHigh(us), false)
  {
    hide EncodeOne;
    if us != [] {
      RoundTrip(us[1..]);
      DecodeEncodedOne(us[0], Encode(us[1..]));
      assert us == [us[0]] + us[1..];
      assert forall k | 1 <= k < |us| :: us[k] == us[1..][k - 1];
    }
  }

  /** What precedes is decoded whatever comes behind it, an error included. */
  lemma {:induction false} DecodeBehind(us: seq<nat>, rest: seq<Byte>)
    requires Codes(us)
    ensures var r := Decode(Encode(us) + rest);
            r.us == us + Decode(rest).us && r.bad == Decode(rest).bad
  {
    hide EncodeOne, Decode;
    if us == [] {
      assert Encode(us) + rest == rest;
    } else {
      DecodeEncodedOne(us[0], Encode(us[1..]) + rest);
      DecodeBehind(us[1..], rest);
      assert Encode(us) + rest == EncodeOne(us[0]) + (Encode(us[1..]) + rest);
      assert us == [us[0]] + us[1..];
    }
  }

  /** The number of code points whose encoding lies within the first k bytes. */
  function Complete(us: seq<nat>, k: nat): (m: nat)
    requires Codes(us)
    ensures m <= |us|
  {
    if us == [] || k < |EncodeOne(us[0])| then 0 else 1 + Complete(us[1..], k - |EncodeOne(us[0])|)
  }

  lemma {:induction false} CompleteIsExact(us: seq<nat>, k: nat)
    requires Codes(us)
    ensures var m := Complete(us, k);
            |Encode(us[..m])| <= k && (m < |us| ==> k < |Encode(us[..m + 1])|)
  {
    var m := Complete(us, k);
    if m > 0 {
      CompleteIsExact(us[1..], k - |EncodeOne(us[0])|);
      assert us[..m][1..] == us[1..][..m - 1];
      assert m < |us| ==> us[..m + 1][1..] == us[1..][..m];
    } else if us != [] {
      assert us[..1] == [us[0]];
      assert Encode(us[..1]) == EncodeOne(us[0]) + Encode([]);
    }
  }

  lemma CutOne(c: nat, k: nat)
    requires c <= MAX_CODE && k < |EncodeOne(c)|
    ensures Decode(EncodeOne(c)[..k]) == Scan([], false, false, false)
  {
    LeadFits(c);
    var n := Following(c);
    if k > 0 {
      TailContinues(c, n);
      var cut := EncodeOne(c)[..k];
      assert cut == [Marker(n) + Shift(c, n)] + Tail(c, n)[..k - 1];
      assert cut[1..] == Tail(c, n)[..k - 1] && Group(cut, n) == cut[1..];
    }
  }

  lemma DecodeNothing()
    ensures Decode([]) == Scan([], false, false, false)
  {
  }

  /** Any prefix of the bytes decodes to exactly the code points that are complete in it. */
  lemma {:induction false} PrefixDecodes(us: seq<nat>, k: nat)
    requires Codes(us) && k <= |Encode(us)|
    ensures Decode(Encode(us)[..k]) == Decode(Encode(us[..Complete(us, k)]))
    ensures Decode(Encode(us)[..k]).us == us[..Complete(us, k)] && !Decode(Encode(us)[..k]).bad
  {
    hide EncodeOne, Decode, HasControl, HasHigh;
    var m := Complete(us, k);
    RoundTrip(us[..m]);
    assert Decode([]) == Scan([], false, false, false) by {
      DecodeNothing();
    }
    if us != [] {
      var one := EncodeOne(us[0]);
      if k < |one| {
        CutOne(us[0], k);
        assert Encode(us)[..k] == one[..k];
      } else {
        PrefixDecodes(us[1..], k - |one|);
        assert Encode(us)[..k] == one + Encode(us[1..])[..k - |one|];
        DecodeEncodedOne(us[0], Encode(us[1..])[..k - |one|]);
        assert us[..m][1..] == us[1..][..m - 1];
        DecodeEncodedOne(us[0], Encode(us[1..][..m - 1]));
      }
    }
  }

  // ----- The verdict, from the bytes alone -----

  /** Byte k begins a character that goes on for `Announced(bs[k])` bytes more. */
  predicate Leads(bs: seq<Byte>, k: nat) {
    k < |bs| && 0xc0 <= bs[k] < 0xfe
  }

  /** What a lead byte announces follows, as far as there is text, and a continuation byte belongs to a
      lead byte before it. */
  predicate Sound(bs: seq<Byte>, k: nat)
    requires k < |bs|
  {
    && bs[k] < 0xfe
    && (Leads(bs, k) ==> forall i | k < i < |bs| && i <= k + Announced(bs[k]) :: 0x80 <= bs[i] < 0xc0)
    && (0x80 <= bs[k] < 0xc0 ==> exists j | 0 <= j < k :: Leads(bs, j) && k <= j + Announced(bs[j]))
  }

  predicate WellFormed(bs: seq<Byte>) {
    forall k | 0 <= k < |bs| :: Sound(bs, k)
  }

  /** An ASCII character that no text has. */
  predicate ControlAt(bs: seq<Byte>, k: nat)
    requires k < |bs|
  {
    bs[k] < 0x80 && !(bs[k] in {7, 8, 9, 10, 12, 13, 27} || 32 <= bs[k] <= 126)
  }

  /** A character of several bytes, all of them there. */
  predicate WideAt(bs: seq<Byte>, k: nat)
    requires k < |bs|
  {
    Leads(bs, k) && k + Announced(bs[k]) < |bs|
  }

  predicate AnyControl(bs: seq<Byte>) {
    exists k | 0 <= k < |bs| :: ControlAt(bs, k)
  }

  predicate AnyWide(bs: seq<Byte>) {
    exists k | 0 <= k < |bs| :: WideAt(bs, k)
  }

  /** The first m bytes are a character. */
  predicate Begins(bs: seq<Byte>, m: nat) {
    && 1 <= m <= |bs|
    && if bs[0] < 0x80 then m == 1
       else Leads(bs, 0) && m == 1 + Announced(bs[0]) && forall i | 1 <= i < m :: 0x80 <= bs[i] < 0xc0
  }

  lemma SoundBehind(bs: seq<Byte>, m: nat, k: nat)
    requires Begins(bs, m) && k < |bs| - m
    ensures Sound(bs, m + k) <==> Sound(bs[m..], k)
  {
    var t := bs[m..];
    forall j: nat | j < |t| ensures Leads(t, j) <==> Leads(bs, m + j) {
    }
    if 0x80 <= t[k] < 0xc0 {
      if j :| 0 <= j < k && Leads(t, j) && k <= j + Announced(t[j]) {
        assert Leads(bs, m + j);
      }
      if j :| 0 <= j < m + k && Leads(bs, j) && m + k <= j + Announced(bs[j]) {
        assert Leads(t, j - m);
      }
    }
    if Leads(t, k) {
      forall i | k < i < |t| ensures t[i] == bs[m + i] {
      }
      forall i | m + k < i < |bs| ensures bs[i] == t[i - m] {
      }
    }
  }

  lemma SoundFirst(bs: seq<Byte>, m: nat, k: nat)
    requires Begins(bs, m) && k < m
    ensures Sound(bs, k) && !(k > 0 && (ControlAt(bs, k) || WideAt(bs, k)))
  {
    assert Leads(bs, 0) || bs[0] < 0x80;
  }

  /** One character less. */
  lemma BytesStep(bs: seq<Byte>, m: nat)
    requires Begins(bs, m)
    ensures WellFormed(bs) <==> WellFormed(bs[m..])
    ensures AnyControl(bs) <==> ControlAt(bs, 0) || AnyControl(bs[m..])
    ensures AnyWide(bs) <==> WideAt(bs, 0) || AnyWide(bs[m..])
  {
    hide Sound;
    var t := bs[m..];
    forall k | 0 <= k < m ensures Sound(bs, k) && !(k > 0 && (ControlAt(bs, k) || WideAt(bs, k))) {
      SoundFirst(bs, m, k);
    }
    forall k | 0 <= k < |t|
      ensures Sound(t, k) <==> Sound(bs, m + k)
      ensures ControlAt(t, k) <==> ControlAt(bs, m + k)
      ensures WideAt(t, k) <==> WideAt(bs, m + k)
    {
      SoundBehind(bs, m, k);
    }
    hide ControlAt, WideAt;
    forall k | m <= k < |bs|
      ensures Sound(bs, k) <==> Sound(t, k - m)
      ensures ControlAt(bs, k) <==> ControlAt(t, k - m)
      ensures WideAt(bs, k) <==> WideAt(t, k - m)
    {
    }
  }

  /** -1 for malformed bytes, 0 where a control character stands that no text has, 2 where a character
      of several bytes is complete, and else 1. */
  lemma {:induction false} VerdictExactly(bs: seq<Byte>)
    ensures Verdict(Decode(bs)) ==
            if !WellFormed(bs) then -1 else if AnyControl(bs) then 0 else if AnyWide(bs) then 2 else 1
  {
    ScanMeans(bs);
  }

  lemma GroupLength(bs: seq<Byte>, n: nat)
    requires bs != []
    ensures |Group(bs, n)| == Min(n, |bs| - 1)
  {
  }

  /** What the first byte decides. */
  lemma FirstByte(bs: seq<Byte>)
    requires bs != []
    ensures bs[0] < 0x80 ==> Begins(bs, 1) && !WideAt(bs, 0) && (ControlAt(bs, 0) <==> !IsText(bs[0]))
    ensures bs[0] >= 0x80 ==> !ControlAt(bs, 0)
    ensures 0x80 <= bs[0] < 0xc0 || bs[0] >= 0xfe ==> !Sound(bs, 0)
    ensures bs[0] >= 0xc0 ==> (Announced(bs[0]) == 0 <==> bs[0] >= 0xfe)
    ensures 0xc0 <= bs[0] < 0xfe ==>
              var n := Announced(bs[0]);
              var g := Group(bs, n);
              && (!AllContinuation(g) ==> !Sound(bs, 0))
              && (AllContinuation(g) && |g| == n ==> Begins(bs, 1 + n) && WideAt(bs, 0))
  {
    if 0xc0 <= bs[0] < 0xfe {
      var n := Announced(bs[0]);
      var g := Group(bs, n);
      assert forall i | 1 <= i <= |g| :: bs[i] == g[i - 1];
      if !AllContinuation(g) {
        var k :| 0 <= k < |g| && !IsContinuation(g[k]);
        assert !(0x80 <= bs[k + 1] < 0xc0);
      }
    }
  }

  lemma CutShort(bs: seq<Byte>)
    requires bs != [] && 0xc0 <= bs[0] < 0xfe
    requires var n := Announced(bs[0]); AllContinuation(Group(bs, n)) && |Group(bs, n)| < n
    ensures WellFormed(bs) && !AnyControl(bs) && !AnyWide(bs)
  {
    var g := Group(bs, Announced(bs[0]));
    assert Leads(bs, 0) && |bs| == 1 + |g|;
    forall i | 1 <= i < |bs| ensures 0x80 <= bs[i] < 0xc0 {
      assert bs[i] == g[i - 1];
    }
  }

  lemma {:induction false} ScanMeans(bs: seq<Byte>)
    ensures var r := Decode(bs);
            && (r.bad <==> !WellFormed(bs))
            && (!r.bad ==> (r.ctrl <==> AnyControl(bs)) && (r.high <==> AnyWide(bs)))
    decreases |bs|
  {
    hide Decode, Sound, ControlAt, WideAt, Accumulate, Begins, Group, AllContinuation, IsText;
    DecodeNothing();
    if bs != [] {
      DecodeSteps(bs);
      FirstByte(bs);
      if bs[0] < 0x80 {
        BytesStep(bs, 1);
        ScanMeans(bs[1..]);
      } else if 0xc0 <= bs[0] < 0xfe {
        var n := Announced(bs[0]);
        if AllContinuation(Group(bs, n)) {
          if |Group(bs, n)| < n {
            CutShort(bs);
          } else {
            GroupLength(bs, n);
            BytesStep(bs, 1 + n);
            ScanMeans(bs[1 + n..]);
          }
        }
      }
    }
  }

  // ----- What the decoder accepts -----

  lemma {:induction false} AccumulateBound(c: nat, bs: seq<Byte>, limit: nat)
    requires AllContinuation(bs) && c < limit
    ensures Accumulate(c, bs) < limit * Power64(|bs|)
  {
    if bs != [] {
      AccumulateBound(c, bs[..|bs| - 1], limit);
      assert IsContinuation(bs[|bs| - 1]);
      var a, p := Accumulate(c, bs[..|bs| - 1]), Power64(|bs| - 1);
      assert limit * Power64(|bs|) == 64 * (limit * p);
    }
  }

  function Power64(n: nat): nat {
    if n == 0 then 1 else 64 * Power64(n - 1)
  }

  lemma SmallPowers64()
    ensures Power64(1) == 64 && Power64(2) == 4096 && Power64(3) == 0x40000
    ensures Power64(4) == 0x1000000 && Power64(5) == 0x40000000
  {
    assert Power64(2) == 64 * Power64(1);
    assert Power64(3) == 64 * Power64(2);
    assert Power64(4) == 64 * Power64(3);
    assert Power64(5) == 64 * Power64(4);
  }

  /** A decoded sequence never needs more bytes than it came in. */
  lemma GroupValue(b: Byte, g: seq<Byte>)
    requires b >= 0xc0 && Announced(b) == |g| >= 1 && AllContinuation(g)
    ensures var c := Accumulate(b - Marker(|g|), g); c <= MAX_CODE && Following(c) <= |g|
  {
    var n := |g|;
    SmallPowers64();
    var limit := if n == 1 then 0x20 else if n == 2 then 0x10 else if n == 3 then 8 else if n == 4 then 4 else 2;
    AccumulateBound(b - Marker(n), g, limit);
  }

  /** Text the decoder accepts can always be encoded again, and does not grow: the decoder also
      takes longer forms than the shortest. */
  lemma {:induction false} ReencodeNoLonger(bs: seq<Byte>)
    ensures Codes(Decode(bs).us) && |Encode(Decode(bs).us)| <= |bs|
    decreases |bs|
  {
    hide EncodeOne;
    if bs != [] {
      if bs[0] < 0x80 {
        ReencodeNoLonger(bs[1..]);
      } else if bs[0] >= 0xc0 && Announced(bs[0]) != 0 {
        var n := Announced(bs[0]);
        var g := Group(bs, n);
        if AllContinuation(g) && |g| == n {
          GroupValue(bs[0], g);
          ReencodeNoLonger(bs[1 + n..]);
        }
      }
    }
  }

  /** The bytes of a group, taken apart again. */
  lemma {:induction false} TailAccumulate(c: nat, g: seq<Byte>)
    requires AllContinuation(g)
    ensures Tail(Accumulate(c, g), |g|) == g && Shift(Accumulate(c, g), |g|) == c
    decreases |g|
  {
    if g != [] {
      assert IsContinuation(g[|g| - 1]);
      TailAccumulate(c, g[..|g| - 1]);
      var a, b := Accumulate(c, g[..|g| - 1]), g[|g| - 1];
      assert (a * 64 + (b - 0x80)) / 64 == a && (a * 64 + (b - 0x80)) % 64 == b - 0x80;
      assert g == g[..|g| - 1] + [b];
    }
  }

  lemma ShortGroup(b: Byte, g: seq<Byte>)
    requires b >= 0xc0 && Announced(b) == |g| >= 1 && AllContinuation(g)
    ensures var c := Accumulate(b - Marker(|g|), g);
            c <= MAX_CODE && (Following(c) == |g| ==> EncodeOne(c) == [b] + g)
  {
    GroupValue(b, g);
    TailAccumulate(b - Marker(|g|), g);
  }

  /** Every character is accepted and complete, and none could do with fewer bytes. */
  predicate InShortestForm(bs: seq<Byte>)
    decreases |bs|
  {
    if bs == [] then true
    else if bs[0] < 0x80 then InShortestForm(bs[1..])
    else if bs[0] < 0xc0 || Announced(bs[0]) == 0 then false
    else
      var n := Announced(bs[0]);
      var g := Group(bs, n);
      && AllContinuation(g) && |g| == n
      && (GroupValue(bs[0], g); Following(Accumulate(bs[0] - Marker(n), g)) == n)
      && InShortestForm(bs[1 + n..])
  }

  lemma EncodeCons(c: nat, us: seq<nat>)
    requires c <= MAX_CODE && Codes(us)
    ensures Encode([c] + us) == EncodeOne(c) + Encode(us)
  {
    assert ([c] + us)[1..] == us;
  }

  lemma SameConcat(a: seq<Byte>, b: seq<Byte>, a': seq<Byte>, b': seq<Byte>)
    requires a + b == a' + b' && |a| == |a'|
    ensures a == a' && b == b'
  {
    assert a == (a + b)[..|a|] && a' == (a' + b')[..|a|];
    assert b == (a + b)[|a|..] && b' == (a' + b')[|a|..];
  }

  /** Encoding again gives the bytes back exactly if they are accepted, complete and in shortest form. */
  lemma {:induction false} ReencodesExactly(bs: seq<Byte>)
    ensures Codes(Decode(bs).us) && (Encode(Decode(bs).us) == bs <==> InShortestForm(bs))
    decreases |bs|, 1
  {
    ReencodeNoLonger(bs);
    if bs == [] {
      return;
    }
    DecodeSteps(bs);
    hide EncodeOne, Encode, Decode, Accumulate, Group, AllContinuation;
    EncodeNothing();
    if bs[0] < 0x80 {
      var rest := bs[1..];
      ReencodesExactly(rest);
      EncodeCons(bs[0], Decode(rest).us);
      EncodeAscii(bs[0]);
      assert bs == [bs[0]] + rest;
      if Encode(Decode(bs).us) == bs {
        SameConcat([bs[0]], Encode(Decode(rest).us), [bs[0]], rest);
      }
    } else if bs[0] >= 0xc0 && Announced(bs[0]) != 0 {
      var n := Announced(bs[0]);
      var g := Group(bs, n);
      if AllContinuation(g) && |g| == n {
        ReencodeGroup(bs);
      }
    }
  }

  lemma EncodeNothing()
    ensures Encode([]) == []
  {
  }

  lemma EncodeAscii(c: nat)
    requires c < 0x80
    ensures EncodeOne(c) == [c]
  {
  }

  lemma ReencodeGroup(bs: seq<Byte>)
    requires bs != [] && bs[0] >= 0xc0 && Announced(bs[0]) != 0
    requires var n := Announced(bs[0]); AllContinuation(Group(bs, n)) && |Group(bs, n)| == n
    ensures Codes(Decode(bs).us) && (Encode(Decode(bs).us) == bs <==> InShortestForm(bs))
    decreases |bs|, 0
  {
    hide EncodeOne, Encode, Decode, Accumulate, AllContinuation, InShortestForm, Group, Announced, Marker, Following;
    GroupShape(bs);
    var n := Announced(bs[0]);
    var g := Group(bs, n);
    GroupValue(bs[0], g);
    var rest, c := bs[1 + n..], Accumulate(bs[0] - Marker(n), g);
    GroupParts(bs);
    ShortGroup(bs[0], g);
    ReencodesExactly(rest);
    EncodeCons(c, Decode(rest).us);
    assert Encode(Decode(bs).us) == EncodeOne(c) + Encode(Decode(rest).us);
    if Encode(Decode(bs).us) == bs {
      ReencodeNoLonger(rest);
      assert |EncodeOne(c)| == 1 + n;
      SameConcat(EncodeOne(c), Encode(Decode(rest).us), [bs[0]] + g, rest);
    }
  }

  lemma GroupShape(bs: seq<Byte>)
    requires bs != [] && bs[0] >= 0xc0 && Announced(bs[0]) != 0 && |Group(bs, Announced(bs[0]))| == Announced(bs[0])
    ensures var n := Announced(bs[0]);
            1 <= n <= 5 && 1 + n <= |bs| && Marker(n) <= bs[0] && bs == [bs[0]] + Group(bs, n) + bs[1 + n..]
  {
  }

  lemma GroupParts(bs: seq<Byte>)
    requires bs != [] && bs[0] >= 0xc0 && Announced(bs[0]) != 0
    requires var n := Announced(bs[0]); AllContinuation(Group(bs, n)) && |Group(bs, n)| == n
    ensures var n := Announced(bs[0]);
            var g := Group(bs, n);
            && 1 <= n <= 5 && 1 + n <= |bs| && Marker(n) <= bs[0]
            && Accumulate(bs[0] - Marker(n), g) <= MAX_CODE
            && Decode(bs).us == [Accumulate(bs[0] - Marker(n), g)] + Decode(bs[1 + n..]).us
            && (InShortestForm(bs) <==>
                  Following(Accumulate(bs[0] - Marker(n), g)) == n && InShortestForm(bs[1 + n..]))
  {
    hide Decode, Accumulate, AllContinuation, Following, Group, Announced, Marker;
    GroupShape(bs);
    GroupValue(bs[0], Group(bs, Announced(bs[0])));
    DecodeSteps(bs);
  }

  /** A longer form that is taken: two bytes for the slash. */
  lemma OverlongAccepted()
    ensures var s := Decode([0xc0, 0xaf]); !s.bad && s.us == [0x2f] && Encode(s.us) == [0x2f]
  {
    var bs: seq<Byte> := [0xc0, 0xaf];
    assert Group(bs, 1) == [0xaf];
    var g: seq<Byte> := [0xaf];
    assert g[..0] == [];
    assert Accumulate(0, [0xaf]) == 0x2f;
    assert bs[2..] == [];
    assert EncodeOne(0x2f) == [0x2f];
  }

  // ----- The code -----

  predicate Fits(us: seq<nat>, size: nat) {
    Codes(us) && |Encode(us)| <= size
  }

  lemma EncodeLast(us: seq<nat>, i: nat)
    requires i < |us| && Codes(us[..i])
    ensures Codes(us[..i + 1]) <==> us[i] <= MAX_CODE
    ensures us[i] <= MAX_CODE ==> Encode(us[..i + 1]) == Encode(us[..i]) + EncodeOne(us[i])
  {
    assert us[..i + 1] == us[..i] + [us[i]];
    if us[i] <= MAX_CODE {
      EncodeAppend(us[..i], [us[i]]);
      assert Encode([us[i]]) == EncodeOne(us[i]) + Encode([]);
    }
  }

  lemma {:induction false} PrefixFits(us: seq<nat>, i: nat, size: nat)
    requires i <= |us| && Fits(us, size)
    ensures Fits(us[..i], size)
  {
    assert us == us[..i] + us[i..];
    EncodeAppend(us[..i], us[i..]);
  }

  /** The bytes written for one code point, as the source spells them out. */
  function Bytes(c: nat): seq<Byte>
    requires c <= MAX_CODE
  {
    if c <= 0x7f then [c]
    else if c <= 0x7ff then [c / 0x40 + 0xc0, c % 0x40 + 0x80]
    else if c <= 0xffff then [c / 0x1000 + 0xe0, c / 0x40 % 0x40 + 0x80, c % 0x40 + 0x80]
    else if c <= 0x1fffff then
      [c / 0x40000 + 0xf0, c / 0x1000 % 0x40 + 0x80, c / 0x40 % 0x40 + 0x80, c % 0x40 + 0x80]
    else if c <= 0x3ffffff then
      [c / 0x1000000 + 0xf8, c / 0x40000 % 0x40 + 0x80, c / 0x1000 % 0x40 + 0x80,
       c / 0x40 % 0x40 + 0x80, c % 0x40 + 0x80]
    else
      [c / 0x40000000 + 0xfc, c / 0x1000000 % 0x40 + 0x80, c / 0x40000 % 0x40 + 0x80, c / 0x1000 % 0x40 + 0x80,
       c / 0x40 % 0x40 + 0x80, c % 0x40 + 0x80]
  }

  lemma Shifts(c: nat)
    ensures c / 64 / 64 == c / 0x1000
    ensures c / 64 / 64 / 64 == c / 0x40000
    ensures c / 64 / 64 / 64 / 64 == c / 0x1000000
    ensures c / 64 / 64 / 64 / 64 / 64 == c / 0x40000000
  {
    Shift2(c);
    Shift3(c);
    Shift4(c);
    Shift5(c);
  }

  lemma Shift2(c: nat)
    ensures c / 64 / 64 == c / 0x1000
  {
  }

  lemma Shift3(c: nat)
    ensures c / 0x1000 / 64 == c / 0x40000
  {
  }

  lemma Shift4(c: nat)
    ensures c / 0x40000 / 64 == c / 0x1000000
  {
  }

  lemma Shift5(c: nat)
    ensures c / 0x1000000 / 64 == c / 0x40000000
  {
  }

  lemma TailUnfolds(c: nat, n: nat)
    requires n > 0
    ensures Tail(c, n) == Tail(c / 64, n - 1) + [0x80 + c % 64] && Shift(c, n) == Shift(c / 64, n - 1)
    ensures n == 1 ==> Tail(c, n) == [0x80 + c % 64] && Shift(c, n) == c / 64
  {
    if n == 1 {
      assert Tail(c / 64, 0) == [];
    }
  }

  lemma Tail2(c: nat)
    ensures Tail(c, 2) == [0x80 + c / 64 % 64, 0x80 + c % 64]
    ensures Shift(c, 2) == c / 64 / 64
  {
    hide Tail, Shift;
    TailUnfolds(c, 2);
    TailUnfolds(c / 64, 1);
  }

  lemma Tail3(c: nat)
    ensures Tail(c, 3) == [0x80 + c / 64 / 64 % 64, 0x80 + c / 64 % 64, 0x80 + c % 64]
    ensures Shift(c, 3) == c / 64 / 64 / 64
  {
    hide Tail, Shift;
    TailUnfolds(c, 3);
    Tail2(c / 64);
  }

  lemma Tail4(c: nat)
    ensures Tail(c, 4) == [0x80 + c / 64 / 64 / 64 % 64, 0x80 + c / 64 / 64 % 64, 0x80 + c / 64 % 64, 0x80 + c % 64]
    ensures Shift(c, 4) == c / 64 / 64 / 64 / 64
  {
    hide Tail, Shift;
    TailUnfolds(c, 4);
    Tail3(c / 64);
  }

  lemma Tail5(c: nat)
    ensures Tail(c, 5) == [0x80 + c / 64 / 64 / 64 / 64 % 64, 0x80 + c / 64 / 64 / 64 % 64,
                           0x80 + c / 64 / 64 % 64, 0x80 + c / 64 % 64, 0x80 + c % 64]
    ensures Shift(c, 5) == c / 64 / 64 / 64 / 64 / 64
  {
    hide Tail, Shift;
    TailUnfolds(c, 5);
    Tail4(c / 64);
  }

  lemma BytesAreEncoding(c: nat)
    requires c <= MAX_CODE
    ensures Bytes(c) == EncodeOne(c)
  {
    Shifts(c);
    hide Tail, Shift;
    match Following(c)
    case 0 => TailNone(c);
    case 1 => TailUnfolds(c, 1);
    case 2 => Tail2(c);
    case 3 => Tail3(c);
    case 4 => Tail4(c);
    case _ => Tail5(c);
  }

  lemma TailNone(c: nat)
    ensures Tail(c, 0) == [] && Shift(c, 0) == c
  {
  }

  /** encode_utf8; None for NULL, the end of the text otherwise. */
  method EncodeUtf8(buf: array<Byte>, ubuf: seq<nat>) returns (end: Option<nat>)
    modifies buf
    ensures end.Some? <==> Fits(ubuf, buf.Length)
    ensures end.Some? ==> end.value <= buf.Length && buf[..end.value] == Encode(ubuf)
  {
    hide Encode, EncodeOne, Bytes;
    var p := 0;
    assert Encode([]) == [] by {
      EncodeEmpty();
    }
    for i := 0 to |ubuf|
      invariant p <= buf.Length && Codes(ubuf[..i]) && buf[..p] == Encode(ubuf[..i])
    {
      EncodeLast(ubuf, i);
      if Fits(ubuf, buf.Length) {
        PrefixFits(ubuf, i + 1, buf.Length);
      }
      var c := ubuf[i];
      if c > MAX_CODE {
        return None;
      }
      BytesAreEncoding(c);
      var bytes := Bytes(c);
      if buf.Length - p < |bytes| {
        return None;
      }
      ghost var before := buf[..p];
      p := Append(buf, p, bytes);
      assert buf[..p] == before + bytes;
    }
    assert ubuf[..|ubuf|] == ubuf;
    end := Some(p);
  }

  lemma EncodeEmpty()
    ensures Encode([]) == []
  {
  }

  method Append(buf: array<Byte>, p: nat, bytes: seq<Byte>) returns (q: nat)
    requires p + |bytes| <= buf.Length
    modifies buf
    ensures q == p + |bytes| && buf[..q] == old(buf[..p]) + bytes
  {
    q := p;
    for k := 0 to |bytes|
      invariant q == p + k && buf[..q] == old(buf[..p]) + bytes[..k]
    {
      buf[q] := bytes[k];
      q := q + 1;
    }
  }

  /** With the buffer file_ascmagic_with_encoding allocates, encoding never fails. */
  lemma SixTimesSuffices(us: seq<nat>)
    ensures Codes(us) ==> Fits(us, 6 * |us|)
  {
    if Codes(us) {
      EncodeSize(us);
    }
  }

  datatype GroupRead = Whole(c: nat) | CutOff | Broken

  /** The inner loop of file_looks_utf8: `following` continuation bytes after position i. */
  method ReadGroup(buf: seq<Byte>, i: nat, following: nat, lead: nat) returns (r: GroupRead)
    requires i < |buf|
    ensures var g := Group(buf[i..], following);
            r == if !AllContinuation(g) then Broken else if |g| < following then CutOff else Whole(Accumulate(lead, g))
    ensures r.Whole? ==> i + following < |buf|
  {
    ghost var g := Group(buf[i..], following);
    var c: nat := lead;
    for n := 0 to following
      invariant i + n < |buf| && n <= |g| && AllContinuation(g[..n]) && c == Accumulate(lead, g[..n])
    {
      if i + n + 1 >= |buf| {
        assert g[..n] == g;
        return CutOff;
      }
      var b: nat := buf[i + n + 1];
      assert b == g[n];
      if b / 0x80 % 2 == 0 || b / 0x40 % 2 != 0 {
        return Broken;
      }
      assert g[..n + 1][..n] == g[..n];
      c := c * 64 + b % 0x40;
    }
    assert g[..following] == g;
    r := Whole(c);
  }

  /** The part of the verdict a step of the scan contributes. */
  lemma DecodeSteps(bs: seq<Byte>)
    requires bs != []
    ensures var r := Decode(bs);
            if bs[0] < 0x80 then
              var t := Decode(bs[1..]);
              r == Scan([bs[0]] + t.us, t.ctrl || !IsText(bs[0]), t.high, t.bad)
            else if bs[0] < 0xc0 || Announced(bs[0]) == 0 then r == Scan([], false, false, true)
            else
              var n := Announced(bs[0]);
              var g := Group(bs, n);
              if !AllContinuation(g) then r == Scan([], false, false, true)
              else if |g| < n then r == Scan([], false, false, false)
              else
                var t := Decode(bs[1 + n..]);
                r == Scan([Accumulate(bs[0] - Marker(n), g)] + t.us, t.ctrl, true, t.bad)
  {
  }

  /** The lead byte, bit by bit: how many bytes follow, and its own bits; none if invalid. */
  method ReadLead(b: Byte) returns (following: nat, c: nat)
    requires b >= 0xc0
    ensures following == Announced(b) && (following > 0 ==> c + Marker(following) == b)
  {
    if b / 0x20 % 2 == 0 {
      following, c := 1, b % 0x20;
    } else if b / 0x10 % 2 == 0 {
      following, c := 2, b % 0x10;
    } else if b / 8 % 2 == 0 {
      following, c := 3, b % 8;
    } else if b / 4 % 2 == 0 {
      following, c := 4, b % 4;
    } else if b / 2 % 2 == 0 {
      following, c := 5, b % 2;
    } else {
      following, c := 0, 0;
    }
  }

  /** What has been scanned, and the scan of the rest. */
  function Together(text: seq<nat>, ctrl: bool, high: bool, rest: Scan): Scan {
    Scan(text + rest.us, ctrl || rest.ctrl, high || rest.high, rest.bad)
  }

  lemma OneMore(text: seq<nat>, ctrl: bool, high: bool, c: nat, control: bool, wide: bool, rest: Scan)
    ensures Together(text, ctrl, high, Scan([c] + rest.us, rest.ctrl || control, rest.high || wide, rest.bad))
            == Together(text + [c], ctrl || control, high || wide, rest)
  {
    assert text + ([c] + rest.us) == text + [c] + rest.us;
  }

  /** file_looks_utf8; without a buffer only the verdict is given. */
  method FileLooksUtf8(buf: seq<Byte>, ubuf: array?<nat>) returns (verdict: int, ulen: nat)
    requires ubuf != null ==> ubuf.Length >= |buf|
    modifies ubuf
    ensures verdict == Verdict(Decode(buf))
    ensures ubuf != null ==> ulen <= ubuf.Length && ubuf[..ulen] == Decode(buf).us
  {
    hide Decode, IsText, Together, Group, AllContinuation, Accumulate;
    var gotone, ctrl := false, false;
    ulen := 0;
    var i := 0;
    ghost var text: seq<nat> := [];
    ghost var whole := Decode(buf);
    assert buf[0..] == buf;
    assert Together([], false, false, whole) == whole by {
      TogetherIs([], false, false, whole);
    }
    while i < |buf|
      invariant ulen <= i <= |buf| && (ubuf != null ==> ubuf[..ulen] == text)
      invariant whole == Together(text, ctrl, gotone, Decode(buf[i..]))
      decreases |buf| - i
    {
      ghost var bs := buf[i..];
      DecodeSteps(bs);
      TogetherIs(text, ctrl, gotone, Decode(bs));
      var b: nat := buf[i];
      if b / 0x80 % 2 == 0 {
        OneMore(text, ctrl, gotone, b, !IsText(b), false, Decode(bs[1..]));
        if !IsText(b) {
          ctrl := true;
        }
        if ubuf != null {
          ulen := Store(ubuf, ulen, b);
        }
        text := text + [b];
        i := i + 1;
        assert bs[1..] == buf[i..];
      } else if b / 0x40 % 2 == 0 {
        return -1, ulen;
      } else {
        var following, c := ReadLead(b);
        if following == 0 {
          return -1, ulen;
        }
        var group := ReadGroup(buf, i, following, c);
        if group.CutOff? {
          return Judge(ctrl, gotone), ulen;
        }
        if group.Broken? {
          return -1, ulen;
        }
        OneMore(text, ctrl, gotone, group.c, false, true, Decode(bs[1 + following..]));
        if ubuf != null {
          ulen := Store(ubuf, ulen, group.c);
        }
        text := text + [group.c];
        gotone := true;
        i := i + 1 + following;
        assert bs[1 + following..] == buf[i..];
      }
    }
    DecodeNothing();
    assert buf[i..] == [];
    TogetherIs(text, ctrl, gotone, Decode([]));
    verdict := Judge(ctrl, gotone);
  }

  /** `return ctrl ? 0 : (gotone ? 2 : 1)` */
  function Judge(ctrl: bool, gotone: bool): int {
    if ctrl then 0 else if gotone then 2 else 1
  }

  lemma TogetherIs(text: seq<nat>, ctrl: bool, high: bool, rest: Scan)
    ensures Together(text, ctrl, high, rest) == Scan(text + rest.us, ctrl || rest.ctrl, high || rest.high, rest.bad)
    ensures text + [] == text && [] + rest.us == rest.us
  {
  }

  /** `ubuf[(*ulen)++] = c` */
  method Store(ubuf: array<nat>, ulen: nat, c: nat) returns (more: nat)
    requires ulen < ubuf.Length
    modifies ubuf
    ensures more == ulen + 1 && ubuf[..more] == old(ubuf[..ulen]) + [c]
  {
    ubuf[ulen] := c;
    more := ulen + 1;
  }
}
