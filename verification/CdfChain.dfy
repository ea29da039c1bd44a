/** The sector chains of a compound document ([MS-CFB] section 2.3) as file/cdf.c follows them: a
    chain is first counted, then read into a buffer of that many sectors. Bytes are taken in the
    order they are stored in. */
module CdfChain {
  import opened Wrappers

  /** cdf_secid_t, a 32-bit signed number; a negative one ends a chain. */
  type SecId = x: int | -0x8000_0000 <= x < 0x8000_0000

  const CDF_LOOP_LIMIT: nat := 10000

  /** cdf_sat_t; the table is taken to be defined on all the numbers cdf_count_chain looks up. */
  datatype Sat = Sat(len: nat, next: nat -> SecId)

  /** The cast to 32 bits. */
  function ToSecId(x: int): (r: SecId)
    ensures (x - r) % 0x1_0000_0000 == 0
  {
    var low := x % 0x1_0000_0000;
    if low < 0x8000_0000 then low else low - 0x1_0000_0000
  }

  /** The greatest sector number let through, cast to 32 bits. */
  function MaxSector(sat: Sat, size: nat): SecId {
    ToSecId(sat.len * size)
  }

  // ----- Chains -----

  /** The number at place k of the chain from sid on; past its end it stays. */
  function SidAt(sat: Sat, sid: SecId, k: nat): SecId
    decreases k
  {
    if k == 0 then sid
    else
      var s := SidAt(sat, sid, k - 1);
      if s < 0 then s else sat.next(s)
  }

  /** The chain has n sectors, all of them let through, and n is within the limit. */
  predicate IsChain(sat: Sat, sid: SecId, size: nat, n: nat) {
    && n <= CDF_LOOP_LIMIT && SidAt(sat, sid, n) < 0
    && forall k | 0 <= k < n :: 0 <= SidAt(sat, sid, k) <= MaxSector(sat, size)
  }

  lemma {:induction false} SameFromThere(sat: Sat, sid: SecId, i: nat, j: nat, d: nat)
    requires SidAt(sat, sid, i) == SidAt(sat, sid, j)
    ensures SidAt(sat, sid, i + d) == SidAt(sat, sid, j + d)
    decreases d
  {
    if d > 0 {
      SameFromThere(sat, sid, i, j, d - 1);
    }
  }

  lemma {:induction false} EndsForGood(sat: Sat, sid: SecId, n: nat, k: nat)
    requires SidAt(sat, sid, n) < 0 && n <= k
    ensures SidAt(sat, sid, k) < 0
    decreases k
  {
    if n < k {
      EndsForGood(sat, sid, n, k - 1);
    }
  }

  /** No sector stands twice in a chain that was counted. */
  lemma SectorsDistinct(sat: Sat, sid: SecId, size: nat, n: nat)
    requires IsChain(sat, sid, size, n)
    ensures forall i, j | 0 <= i < j < n :: SidAt(sat, sid, i) != SidAt(sat, sid, j)
  {
    forall i, j | 0 <= i < j < n ensures SidAt(sat, sid, i) != SidAt(sat, sid, j) {
      if SidAt(sat, sid, i) == SidAt(sat, sid, j) {
        SameFromThere(sat, sid, i, j, n - j);
        assert false;
      }
    }
  }

  /** A chain that runs into itself is turned down. */
  lemma CyclesHaveNoLength(sat: Sat, sid: SecId, size: nat, i: nat, j: nat)
    requires i < j && SidAt(sat, sid, i) == SidAt(sat, sid, j) >= 0
    ensures forall n: nat :: !IsChain(sat, sid, size, n)
  {
    forall n: nat | IsChain(sat, sid, size, n) ensures false {
      if n <= j {
        EndsForGood(sat, sid, n, j);
      } else {
        SectorsDistinct(sat, sid, size, n);
      }
    }
  }

  lemma LengthIsOne(sat: Sat, sid: SecId, size: nat, n: nat, m: nat)
    requires IsChain(sat, sid, size, n) && IsChain(sat, sid, size, m)
    ensures n == m
  {
    assert n < m ==> SidAt(sat, sid, n) >= 0;
    assert m < n ==> SidAt(sat, sid, m) >= 0;
  }

  function Sectors(sat: Sat, sid: SecId, n: nat): (s: set<int>) {
    set k | 0 <= k < n :: SidAt(sat, sid, k)
  }

  lemma {:induction false} CountSectors(sat: Sat, sid: SecId, n: nat)
    requires forall i, j | 0 <= i < j < n :: SidAt(sat, sid, i) != SidAt(sat, sid, j)
    ensures |Sectors(sat, sid, n)| == n
    decreases n
  {
    if n > 0 {
      CountSectors(sat, sid, n - 1);
      assert Sectors(sat, sid, n) == Sectors(sat, sid, n - 1) + {SidAt(sat, sid, n - 1)};
    }
  }

  lemma {:induction false} CountBelow(s: set<int>, m: nat)
    requires forall x | x in s :: 0 <= x < m
    ensures |s| <= m
    decreases m
  {
    if m == 0 {
      assert forall x | x in s :: false;
      assert s == {};
    } else {
      CountBelow(s - {m - 1}, m - 1);
    }
  }

  /** Being made of different sectors, a chain is no longer than there are sectors let through. */
  lemma ChainFits(sat: Sat, sid: SecId, size: nat, n: nat)
    requires IsChain(sat, sid, size, n)
    ensures n > 0 ==> n <= MaxSector(sat, size) + 1
  {
    if n > 0 {
      SectorsDistinct(sat, sid, size, n);
      CountSectors(sat, sid, n);
      assert SidAt(sat, sid, 0) >= 0;
      CountBelow(Sectors(sat, sid, n), MaxSector(sat, size) + 1);
    }
  }

  /** Chains of up to 10000 sectors can be counted, and no longer ones. */
  lemma LongestChain(n: nat)
    ensures n <= 10000 <==> exists sat, sid, size :: IsChain(sat, sid, size, n)
  {
    if n <= 10000 {
      var sat := Sat(10000, (id: nat) => if id + 1 < n then id + 1 else -1);
      var first: SecId := if n == 0 then -1 else 0;
      forall k: nat | k <= n ensures SidAt(sat, first, k) == if k < n then k else -1 {
        InARow(sat, n, k);
      }
      assert IsChain(sat, first, 512, n);
    }
  }

  lemma {:induction false} InARow(sat: Sat, n: nat, k: nat)
    requires n <= 10000 && k <= n && sat.next == ((id: nat) => if id + 1 < n then id + 1 else -1)
    ensures SidAt(sat, if n == 0 then -1 else 0, k) == if k < n then k else -1
  {
    if k > 0 {
      InARow(sat, n, k - 1);
    }
  }

  /** The entries a table of `len` sectors has room for, four bytes each. */
  function Entries(len: nat, size: nat): nat {
    len * size / 4
  }

  predicate LooksInside(sat: Sat, sid: SecId, size: nat, n: nat) {
    forall k | 0 <= k < n :: SidAt(sat, sid, k) < Entries(sat.len, size)
  }

  ghost predicate AllLookInside(len: nat, size: nat) {
    forall sat: Sat, sid: SecId, n: nat | sat.len == len && IsChain(sat, sid, size, n) :: LooksInside(sat, sid, size, n)
  }

  /** The test against the size in bytes keeps all chains inside the table exactly if the cast to 32
      bits makes the bound that small; where nothing is cast off it never does. */
  lemma BoundIsInBytes(len: nat, size: nat)
    ensures AllLookInside(len, size) <==> ToSecId(len * size) < Entries(len, size)
    ensures len * size < 0x8000_0000 ==> !AllLookInside(len, size)
  {
    var bound := ToSecId(len * size);
    if bound < Entries(len, size) {
      forall sat: Sat, sid: SecId, n: nat | sat.len == len && IsChain(sat, sid, size, n)
        ensures LooksInside(sat, sid, size, n)
      {
      }
    } else {
      var sat := Sat(len, (id: nat) => -1);
      assert SidAt(sat, bound, 0) == bound && SidAt(sat, bound, 1) == -1;
      assert IsChain(sat, bound, size, 1) && !LooksInside(sat, bound, size, 1);
    }
  }

  /** cdf_count_chain; None stands for (size_t)-1. */
  method CountChain(sat: Sat, start: SecId, size: nat) returns (count: Option<nat>)
    ensures count.Some? ==> forall n: nat :: IsChain(sat, start, size, n) <==> n == count.value
    ensures count.None? ==> forall n: nat :: !IsChain(sat, start, size, n)
  {
    var i, j: nat, sid := 0, 0, start;
    var maxsector := MaxSector(sat, size);
    while sid >= 0
      invariant i == j <= CDF_LOOP_LIMIT && sid == SidAt(sat, start, i)
      invariant forall k | 0 <= k < i :: 0 <= SidAt(sat, start, k) <= maxsector
      decreases CDF_LOOP_LIMIT - j, sid >= 0
    {
      if j >= CDF_LOOP_LIMIT {
        TooLong(sat, start, size, j);
        return None;
      }
      if sid > maxsector {
        TooGreat(sat, start, size, i);
        return None;
      }
      sid := sat.next(sid);
      i, j := i + 1, j + 1;
    }
    forall n: nat | IsChain(sat, start, size, n) ensures n == i {
      LengthIsOne(sat, start, size, i, n);
    }
    return Some(i);
  }

  lemma TooLong(sat: Sat, sid: SecId, size: nat, i: nat)
    requires i >= CDF_LOOP_LIMIT && SidAt(sat, sid, i) >= 0
    ensures forall n: nat :: !IsChain(sat, sid, size, n)
  {
    forall n: nat | IsChain(sat, sid, size, n) ensures false {
      EndsForGood(sat, sid, n, i);
    }
  }

  lemma TooGreat(sat: Sat, sid: SecId, size: nat, i: nat)
    requires 0 <= SidAt(sat, sid, i) && SidAt(sat, sid, i) > MaxSector(sat, size)
    ensures forall n: nat :: !IsChain(sat, sid, size, n)
  {
    forall n: nat | IsChain(sat, sid, size, n) ensures false {
      if n <= i {
        EndsForGood(sat, sid, n, i);
      }
    }
  }

  // ----- Reading -----

  type Bytes = seq<bv8>

  /** cdf_info_t; pread may answer with fewer bytes than it is asked for. */
  datatype Info = Info(buf: Option<Bytes>, fd: int, pread: (nat, nat) -> Bytes)

  /** cdf_read. */
  function Read(info: Info, off: nat, len: nat): Option<Bytes> {
    if info.buf.Some? && |info.buf.value| >= off + len then Some(info.buf.value[off..off + len])
    else if info.fd == -1 || |info.pread(off, len)| != len then None
    else Some(info.pread(off, len))
  }

  /** What one sector holds, or None when it cannot be read. */
  type Reader = nat -> Option<Bytes>

  predicate Whole(rd: Reader, ss: nat, id: nat) {
    rd(id).Some? ==> |rd(id).value| == ss
  }

  function Times(a: nat, b: nat): nat {
    a * b
  }

  /** cdf_read_sector: the header takes up the place of one sector. */
  function SectorReader(info: Info, ss: nat): Reader {
    (id: nat) => Read(info, ss + Times(id, ss), ss)
  }

  /** The stream that holds the short sectors. */
  datatype Container = Container(len: nat, at: nat -> bv8)

  /** cdf_read_short_sector; the container is taken to be defined on every place it looks at. */
  function ShortReader(c: Container, ss: nat, sss: nat): Reader {
    (id: nat) => if Times(id, sss) > Times(ss, c.len) then None
               else Some(seq(sss, i requires 0 <= i < sss => c.at(Times(id, sss) + i)))
  }

  /** The test lets short sector id through, but its copy reaches behind the end of the container. */
  predicate Crosses(len: nat, ss: nat, sss: nat, id: nat) {
    Times(id, sss) <= Times(ss, len) < Times(id, sss) + sss
  }

  predicate CopiesInside(ssat: Sat, sid: SecId, ss: nat, sss: nat, len: nat, n: nat) {
    forall k | 0 <= k < n && SidAt(ssat, sid, k) >= 0 :: !Crosses(len, ss, sss, SidAt(ssat, sid, k))
  }

  /** No chain counted in a table of `sectors` sectors makes a copy cross the end of a container of
      `len` sectors. */
  ghost predicate AllCopiesInside(sectors: nat, len: nat, ss: nat, sss: nat) {
    forall ssat: Sat, sid: SecId, n: nat | ssat.len == sectors && IsChain(ssat, sid, ss, n) ::
      CopiesInside(ssat, sid, ss, sss, len, n)
  }

  lemma DivisionBounds(x: nat, d: nat, id: nat)
    requires d > 0
    ensures id == x / d <==> Times(id, d) <= x < Times(id, d) + d
  {
    var q := x / d;
    assert x == q * d + x % d;
    if id < q {
      Place(id, q, d);
    } else if q < id {
      Place(q, id, d);
    }
  }

  /** The test on the start of a short sector lets exactly one number through whose copy crosses the
      end, the one behind the last that fits whole. All copies stay inside exactly if the bound of
      cdf_count_chain keeps that number out of the chains. */
  lemma OneCopyCrosses(sectors: nat, len: nat, ss: nat, sss: nat)
    requires sss > 0
    ensures forall id: nat :: Crosses(len, ss, sss, id) <==> id == ss * len / sss
    ensures AllCopiesInside(sectors, len, ss, sss) <==> ToSecId(sectors * ss) < ss * len / sss
  {
    hide Times, ToSecId;
    var behind, bound := ss * len / sss, ToSecId(sectors * ss);
    forall id: nat ensures Crosses(len, ss, sss, id) <==> id == behind {
      TimesMeans(ss, len);
      DivisionBounds(ss * len, sss, id);
    }
    if bound < behind {
      forall ssat: Sat, sid: SecId, n: nat | ssat.len == sectors && IsChain(ssat, sid, ss, n)
        ensures CopiesInside(ssat, sid, ss, sss, len, n)
      {
      }
    } else {
      var ssat := Sat(sectors, (id: nat) => -1);
      assert SidAt(ssat, behind, 0) == behind && SidAt(ssat, behind, 1) == -1;
      assert IsChain(ssat, behind, ss, 1) && !CopiesInside(ssat, behind, ss, sss, len, 1);
    }
  }

  lemma TimesMeans(a: nat, b: nat)
    ensures Times(a, b) == a * b
  {
  }

  /** The first k sectors of a chain, one behind the other. */
  function Data(sat: Sat, rd: Reader, sid: SecId, k: nat): Option<Bytes>
    decreases k
  {
    if k == 0 then Some([])
    else
      var d, s := Data(sat, rd, sid, k - 1), SidAt(sat, sid, k - 1);
      if d.None? || s < 0 || rd(s).None? then None else Some(d.value + rd(s).value)
  }

  lemma DataStep(sat: Sat, rd: Reader, sid: SecId, n: nat)
    requires n > 0
    ensures var d, s := Data(sat, rd, sid, n - 1), SidAt(sat, sid, n - 1);
            && (Data(sat, rd, sid, n).Some? <==> d.Some? && s >= 0 && rd(s).Some?)
            && (Data(sat, rd, sid, n).Some? ==> Data(sat, rd, sid, n).value == d.value + rd(s).value)
  {
    hide SidAt;
  }

  lemma {:induction false} DataNeedsAll(sat: Sat, rd: Reader, sid: SecId, i: nat, n: nat)
    requires i < n && Data(sat, rd, sid, n).Some?
    ensures SidAt(sat, sid, i) >= 0 && rd(SidAt(sat, sid, i)).Some?
    decreases n
  {
    if i < n - 1 {
      DataNeedsAll(sat, rd, sid, i, n - 1);
    }
  }

  lemma Place(i: nat, n: nat, ss: nat)
    requires i < n
    ensures i * ss + ss == (i + 1) * ss <= n * ss
  {
    assert (n - (i + 1)) * ss >= 0;
    assert (n - (i + 1)) * ss == n * ss - (i + 1) * ss;
  }

  lemma {:induction false} DataLength(sat: Sat, rd: Reader, sid: SecId, ss: nat, n: nat)
    requires Data(sat, rd, sid, n).Some? && forall id: nat :: Whole(rd, ss, id)
    ensures |Data(sat, rd, sid, n).value| == n * ss
    decreases n
  {
    if n > 0 {
      DataLength(sat, rd, sid, ss, n - 1);
      assert Whole(rd, ss, SidAt(sat, sid, n - 1));
      Place(n - 1, n, ss);
    }
  }

  /** Sector i of a chain that was read stands i sector sizes into the buffer. */
  lemma {:induction false} DataInPlace(sat: Sat, rd: Reader, sid: SecId, ss: nat, i: nat, n: nat)
    requires i < n && Data(sat, rd, sid, n).Some? && forall id: nat :: Whole(rd, ss, id)
    ensures |Data(sat, rd, sid, n).value| == n * ss && i * ss + ss <= n * ss
    ensures SidAt(sat, sid, i) >= 0
    ensures Some(Data(sat, rd, sid, n).value[i * ss..i * ss + ss]) == rd(SidAt(sat, sid, i))
    decreases n
  {
    hide SidAt, Data;
    DataStep(sat, rd, sid, n);
    var s := SidAt(sat, sid, n - 1);
    assert Whole(rd, ss, s);
    DataLength(sat, rd, sid, ss, n);
    DataLength(sat, rd, sid, ss, n - 1);
    Place(i, n, ss);
    var d, all := Data(sat, rd, sid, n - 1).value, Data(sat, rd, sid, n).value;
    assert all == d + rd(s).value;
    if i < n - 1 {
      DataInPlace(sat, rd, sid, ss, i, n - 1);
      Sliced(d, rd(s).value, i * ss, i * ss + ss);
    } else {
      assert all[i * ss..i * ss + ss] == rd(s).value;
    }
  }

  lemma Sliced(a: Bytes, b: Bytes, lo: nat, hi: nat)
    requires lo <= hi <= |a|
    ensures (a + b)[lo..hi] == a[lo..hi]
  {
  }

  lemma SectorsWhole(info: Info, ss: nat, id: nat)
    ensures Whole(SectorReader(info, ss), ss, id)
  {
  }

  lemma ShortSectorsWhole(c: Container, ss: nat, sss: nat, id: nat)
    ensures Whole(ShortReader(c, ss, sss), sss, id)
  {
  }

  /** The buffer and the descriptor are those of this file: what is asked for is read from its place,
      as far as there is something. */
  ghost predicate IsOf(info: Info, file: Bytes) {
    && (info.buf.Some? ==> info.buf.value <= file)
    && (info.fd != -1 ==>
          forall off: nat, len: nat {:trigger info.pread(off, len)} ::
            info.pread(off, len) == if off + len <= |file| then file[off..off + len]
                                    else if off <= |file| then file[off..] else [])
  }

  /** Sector id of the file, behind the header, which takes up the place of one. */
  predicate SectorIs(file: Bytes, ss: nat, id: nat, bytes: Bytes) {
    |bytes| == ss && (id + 2) * ss <= |file| && forall j | 0 <= j < ss :: bytes[j] == file[(id + 1) * ss + j]
  }

  /** A sector is read exactly if all of it is in the buffer, or in the file where that is open. */
  lemma SectorReads(info: Info, file: Bytes, ss: nat, id: nat)
    requires ss > 0 && IsOf(info, file)
    ensures var r := SectorReader(info, ss)(id);
            && (r.Some? ==> SectorIs(file, ss, id, r.value))
            && (r.Some? <==> (info.buf.Some? && (id + 2) * ss <= |info.buf.value|)
                             || (info.fd != -1 && (id + 2) * ss <= |file|))
  {
    TimesMeans(id, ss);
    assert (id + 1) * ss == id * ss + ss && (id + 2) * ss == id * ss + ss + ss;
  }

  predicate HasAt(bytes: Bytes, at: nat, b: bv8) {
    at < |bytes| && bytes[at] == b
  }

  predicate ByteIs(bytes: Bytes, at: nat, file: Bytes, from: nat) {
    at < |bytes| && from < |file| && bytes[at] == file[from]
  }

  /** Byte j of sector i of a chain that was read is byte j of that sector of the file. */
  lemma BytesOfFile(info: Info, file: Bytes, sat: Sat, sid: SecId, ss: nat, i: nat, j: nat, n: nat)
    requires i < n && j < ss && IsOf(info, file) && Data(sat, SectorReader(info, ss), sid, n).Some?
    ensures |Data(sat, SectorReader(info, ss), sid, n).value| == n * ss && SidAt(sat, sid, i) >= 0
    ensures ByteIs(Data(sat, SectorReader(info, ss), sid, n).value, i * ss + j, file, (SidAt(sat, sid, i) + 1) * ss + j)
  {
    hide Data, SidAt;
    forall id: nat ensures Whole(SectorReader(info, ss), ss, id) {
      SectorsWhole(info, ss, id);
    }
    DataInPlace(sat, SectorReader(info, ss), sid, ss, i, n);
    var s := SidAt(sat, sid, i);
    SectorReads(info, file, ss, s);
    assert (s + 2) * ss == (s + 1) * ss + ss;
    var all := Data(sat, SectorReader(info, ss), sid, n).value;
    assert all[i * ss..i * ss + ss][j] == all[i * ss + j];
  }

  /** Byte j of short sector i is byte j of that short sector of the container. */
  lemma BytesOfContainer(c: Container, ss: nat, sss: nat, ssat: Sat, sid: SecId, i: nat, j: nat, n: nat)
    requires i < n && j < sss && Data(ssat, ShortReader(c, ss, sss), sid, n).Some?
    ensures |Data(ssat, ShortReader(c, ss, sss), sid, n).value| == n * sss
    ensures SidAt(ssat, sid, i) >= 0 && SidAt(ssat, sid, i) * sss <= ss * c.len
    ensures HasAt(Data(ssat, ShortReader(c, ss, sss), sid, n).value, i * sss + j, c.at(SidAt(ssat, sid, i) * sss + j))
  {
    hide Data, SidAt;
    forall id: nat ensures Whole(ShortReader(c, ss, sss), sss, id) {
      ShortSectorsWhole(c, ss, sss, id);
    }
    DataInPlace(ssat, ShortReader(c, ss, sss), sid, sss, i, n);
    var s := SidAt(ssat, sid, i);
    TimesMeans(s, sss);
    TimesMeans(ss, c.len);
    var all := Data(ssat, ShortReader(c, ss, sss), sid, n).value;
    assert all[i * sss..i * sss + sss][j] == all[i * sss + j];
  }

  /** A chain can be read exactly if each of its sectors can. */
  lemma {:induction false} DataExactly(sat: Sat, rd: Reader, sid: SecId, n: nat)
    ensures Data(sat, rd, sid, n).Some? <==>
              forall i | 0 <= i < n :: SidAt(sat, sid, i) >= 0 && rd(SidAt(sat, sid, i)).Some?
    decreases n
  {
    hide SidAt, Data;
    if n == 0 {
      ReadStart(sat, rd, sid);
    } else {
      DataStep(sat, rd, sid, n);
      DataExactly(sat, rd, sid, n - 1);
    }
  }

  // ----- The code -----

  /** cdf_stream_t */
  class Stream {
    var tab: array?<bv8>
    var len: Option<nat>
    var dirlen: nat

    constructor () {
      tab, len, dirlen := null, None, 0;
    }
  }

  /** Copies a sector to its place. */
  method Store(buf: array<bv8>, at: nat, bytes: Bytes)
    requires at + |bytes| <= buf.Length
    modifies buf
    ensures buf[..at + |bytes|] == old(buf[..at]) + bytes
  {
    var i := 0;
    while i < |bytes|
      invariant i <= |bytes| && buf[..at + i] == old(buf[..at]) + bytes[..i]
    {
      buf[at + i] := bytes[i];
      assert buf[..at + i] == old(buf[..at]) + bytes[..i];
      i := i + 1;
    }
    assert bytes[..i] == bytes;
  }

  lemma ReadStart(sat: Sat, rd: Reader, sid: SecId)
    ensures SidAt(sat, sid, 0) == sid && Data(sat, rd, sid, 0) == Some([])
  {
  }

  /** Where the reader stands after i sectors: it is at its end exactly when all n are read, and
      one that cannot be read spoils the whole. */
  lemma ReadStep(sat: Sat, rd: Reader, sid: SecId, ss: nat, size: nat, i: nat, n: nat)
    requires IsChain(sat, sid, size, n) && i <= n && Data(sat, rd, sid, i).Some?
    requires forall id: nat :: Whole(rd, ss, id)
    ensures n <= CDF_LOOP_LIMIT && (i < n <==> SidAt(sat, sid, i) >= 0)
    ensures i < n ==>
              var s := SidAt(sat, sid, i);
              && SidAt(sat, sid, i + 1) == sat.next(s)
              && (rd(s).Some? ==> |rd(s).value| == ss
                                  && Data(sat, rd, sid, i + 1) == Some(Data(sat, rd, sid, i).value + rd(s).value))
              && (rd(s).None? ==> Data(sat, rd, sid, n).None?)
  {
    if i < n {
      assert Whole(rd, ss, SidAt(sat, sid, i));
      if Data(sat, rd, sid, n).Some? {
        DataNeedsAll(sat, rd, sid, i, n);
      }
    }
  }

  /** The loop the three chain readers share. The bounds it checks are never passed, and neither
      is a sector ever read in part. */
  method ReadSectors(sat: Sat, rd: Reader, start: SecId, ss: nat, n: nat, buf: array<bv8>, ghost size: nat)
    returns (rc: int)
    requires IsChain(sat, start, size, n) && buf.Length == n * ss && ss > 0
    requires forall id: nat :: Whole(rd, ss, id)
    modifies buf
    ensures rc == if Data(sat, rd, start, n).Some? then 0 else -1
    ensures rc == 0 ==> buf[..] == Data(sat, rd, start, n).value
  {
    hide Data, IsChain, Whole, SidAt;
    var i, j: nat, sid := 0, 0, start;
    ReadStart(sat, rd, start);
    while sid >= 0
      invariant i == j <= n && sid == SidAt(sat, start, i)
      invariant Data(sat, rd, start, i).Some? && buf.Length == n * ss
      invariant i * ss <= buf.Length && buf[..i * ss] == Data(sat, rd, start, i).value
      decreases n - i, sid >= 0
    {
      ReadStep(sat, rd, start, ss, size, i, n);
      if j >= CDF_LOOP_LIMIT {
        assert false;
      }
      if i >= n {
        assert false;
      }
      Place(i, n, ss);
      var sector := rd(sid);
      var nr: int := if sector.Some? then |sector.value| else -1;
      if nr != ss {
        if i == n - 1 && nr > 0 {
          assert false;
        }
        return -1;
      }
      Store(buf, i * ss, sector.value);
      sid := sat.next(sid);
      i, j := i + 1, j + 1;
    }
    ReadStep(sat, rd, start, ss, size, i, n);
    assert buf[..n * ss] == buf[..];
    return 0;
  }

  /** cdf_read_long_sector_chain; `memory` is the answer of calloc. */
  method ReadLongChain(info: Info, ss: nat, sat: Sat, sid: SecId, len: nat, scn: Stream, memory: bool) returns (rc: int)
    requires ss > 0
    modifies scn
    ensures scn.dirlen == len
    ensures scn.len.Some? ==> IsChain(sat, sid, ss, scn.len.value)
    ensures scn.len.None? ==> forall n: nat :: !IsChain(sat, sid, ss, n)
    ensures rc ==
               if scn.len.Some? && memory && Data(sat, SectorReader(info, ss), sid, scn.len.value).Some? then 0 else -1
    ensures rc == 0 ==> scn.tab != null && Some(scn.tab[..]) == Data(sat, SectorReader(info, ss), sid, scn.len.value)
  {
    scn.len := CountChain(sat, sid, ss);
    scn.dirlen := len;
    if scn.len.None? {
      return -1;
    }
    scn.tab := Calloc(scn.len.value, ss, memory);
    if scn.tab == null {
      return -1;
    }
    forall id: nat ensures Whole(SectorReader(info, ss), ss, id) {
      SectorsWhole(info, ss, id);
    }
    rc := ReadSectors(sat, SectorReader(info, ss), sid, ss, scn.len.value, scn.tab, ss);
  }

  method Calloc(n: nat, ss: nat, memory: bool) returns (tab: array?<bv8>)
    ensures tab == null <==> !memory
    ensures tab != null ==> fresh(tab) && tab.Length == n * ss
  {
    if !memory {
      return null;
    }
    tab := new bv8[Times(n, ss)](_ => 0);
  }

  /** cdf_read_short_sector_chain; the short chain is counted by the size of the long sectors. */
  method ReadShortChain(c: Option<Container>, ss: nat, sss: nat, ssat: Sat, sid: SecId,
        len: nat, scn: Stream, memory: bool)
    returns (rc: int)
    requires sss > 0
    modifies scn
    ensures scn.dirlen == len
    ensures scn.len.Some? ==> IsChain(ssat, sid, ss, scn.len.value)
    ensures scn.len.None? ==> forall n: nat :: !IsChain(ssat, sid, ss, n)
    ensures rc ==
              if && c.Some? && scn.len.Some? && memory
                 && Data(ssat, ShortReader(c.value, ss, sss), sid, scn.len.value).Some?
              then 0 else -1
    ensures rc == 0 ==>
              scn.tab != null && Some(scn.tab[..]) == Data(ssat, ShortReader(c.value, ss, sss), sid, scn.len.value)
  {
    scn.len := CountChain(ssat, sid, ss);
    scn.dirlen := len;
    if c.None? || scn.len.None? {
      return -1;
    }
    scn.tab := Calloc(scn.len.value, sss, memory);
    if scn.tab == null {
      return -1;
    }
    forall id: nat ensures Whole(ShortReader(c.value, ss, sss), sss, id) {
      ShortSectorsWhole(c.value, ss, sss, id);
    }
    rc := ReadSectors(ssat, ShortReader(c.value, ss, sss), sid, sss, scn.len.value, scn.tab, ss);
  }

  /** cdf_read_ssat: the short table is itself a chain of long sectors. */
  method ReadShortTable(info: Info, ss: nat, sat: Sat, first: SecId, memory: bool)
    returns (rc: int, len: Option<nat>, tab: array?<bv8>)
    requires ss > 0
    ensures len.Some? ==> IsChain(sat, first, ss, len.value)
    ensures len.None? ==> forall n: nat :: !IsChain(sat, first, ss, n)
    ensures rc == if len.Some? && memory && Data(sat, SectorReader(info, ss), first, len.value).Some? then 0 else -1
    ensures rc == 0 ==> tab != null && Some(tab[..]) == Data(sat, SectorReader(info, ss), first, len.value)
  {
    tab := null;
    len := CountChain(sat, first, ss);
    if len.None? {
      return -1, len, tab;
    }
    tab := Calloc(len.value, ss, memory);
    if tab == null {
      return -1, len, tab;
    }
    forall id: nat ensures Whole(SectorReader(info, ss), ss, id) {
      SectorsWhole(info, ss, id);
    }
    rc := ReadSectors(sat, SectorReader(info, ss), first, ss, len.value, tab, ss);
  }
}
