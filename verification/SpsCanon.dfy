/** Canonical sets on the wire: within the ranges of H.264 section 7.4.2.1.1 the builder's bytes never need
    emulation prevention (section 7.4.1), so the parser's strip leaves them alone and the round trip is exact. */
module SpsCanon {
  import opened Words
  import opened Bits
  import opened SpsParse
  import opened SpsBuild
  import opened SpsRoundTrip

  // ---------- runs of zero bits ----------

  /** Two zero bytes and the six leading zeros of a byte below 4. */
  const LONG: nat := 22

  /** How many zeros stand at the end of b when r zeros came before it; LONG once a run got that far. */
  function Run(b: seq<bit>, r: nat): nat {
    if b == [] || LONG <= r then r else Run(b[1..], if b[0] == 0 then r + 1 else 0)
  }

  lemma {:induction false} RunConcat(a: seq<bit>, b: seq<bit>, r: nat)
    ensures Run(a + b, r) == Run(b, Run(a, r))
    decreases |a|
  {
    if a == [] {
      assert a + b == b;
    } else if r < LONG {
      RunConcat(a[1..], b, if a[0] == 0 then r + 1 else 0);
      assert (a + b)[1..] == a[1..] + b;
    }
  }

  lemma {:induction false} RunBound(b: seq<bit>, r: nat)
    requires r <= LONG
    ensures Run(b, r) <= LONG && Run(b, r) <= r + |b|
    decreases |b|
  {
    if b != [] && r < LONG {
      RunBound(b[1..], if b[0] == 0 then r + 1 else 0);
    }
  }

  /** A one at k ends every earlier run, provided it is reached in time. */
  lemma {:induction false} RunEnds(b: seq<bit>, k: nat, r: nat)
    requires k < |b| < LONG + k && b[k] == 1 && r + k < LONG
    ensures Run(b, r) < |b| - k
    decreases k
  {
    if k == 0 {
      RunBound(b[1..], 0);
    } else if b[0] == 0 {
      RunEnds(b[1..], k - 1, r + 1);
    } else {
      RunEnds(b[1..], k - 1, 0);
    }
  }

  /** LONG zeros in a row never go unnoticed. */
  lemma {:induction false} RunNotices(b: seq<bit>, r: nat, i: nat)
    requires r <= LONG && i + LONG <= |b| && forall k | i <= k < i + LONG :: b[k] == 0
    ensures Run(b, r) == LONG
    decreases i
  {
    if r < LONG {
      if i == 0 {
        RunFills(b, r);
      } else {
        RunNotices(b[1..], if b[0] == 0 then r + 1 else 0, i - 1);
      }
    }
  }

  lemma {:induction false} RunFills(b: seq<bit>, r: nat)
    requires r <= LONG <= r + |b| && forall k | 0 <= k < LONG - r :: b[k] == 0
    ensures Run(b, r) == LONG
    decreases |b|
  {
    if r < LONG {
      RunFills(b[1..], r + 1);
    }
  }

  // ---------- runs in what the builder writes ----------

  lemma UeRun(v: u32, n: nat, r: nat)
    requires v + 1 < Pow2(n + 1) && n < 21 && r + n < LONG
    ensures Run(Ue(v), r) <= n
  {
    Pow2Of25();
    Pow2Grows(n + 1, 25);
    Log2Below(v + 1, n);
    UeCode(v);
    hide *;
    RunEnds(Ue(v), Log2(v + 1), r);
  }

  lemma SmallPowers()
    ensures Pow2(2) == 4 && Pow2(4) == 16 && Pow2(5) == 32 && Pow2(6) == 64 && Pow2(9) == 512 && Pow2(11) == 2048
  {
    assert Pow2(4) == 16;
    assert Pow2(7) == 128;
    assert Pow2(9) == 512;
  }

  lemma OctetBits(v: u32)
    ensures forall i | 0 <= i < 8 :: UBits(v, 8)[i] == Shr(v, 7 - i) % 2
  {
    forall i | 0 <= i < 8 ensures UBits(v, 8)[i] == Shr(v, 7 - i) % 2 {
      UBitsAt(v, 8, i);
    }
  }

  lemma Shifts(v: u32)
    ensures Shr(v, 0) == v && Shr(v, 1) == v / 2 && Shr(v, 2) == v / 4 && Shr(v, 3) == v / 8
    ensures Shr(v, 4) == v / 16 && Shr(v, 5) == v / 32 && Shr(v, 6) == v / 64 && Shr(v, 7) == v / 128
  {
    assert Shr(v, 2) == v / 2 / 2 == v / 4;
    assert Shr(v, 4) == Shr(v / 4, 2) == v / 4 / 2 / 2 == v / 16;
    assert Shr(v, 6) == Shr(v / 4, 4) == Shr(v / 16, 2);
  }

  /** A one in the byte, and one behind its top bit unless it is 128. */
  lemma OneInOctet(v: u32) returns (k: nat)
    requires 0 < v < 0x100
    ensures k < 8 && UBits(v, 8)[k] == 1 && (v != 128 ==> 0 < k)
  {
    OctetBits(v);
    Shifts(v);
    hide UBits, Shr;
    k := if v % 2 == 1 then 7 else if v / 2 % 2 == 1 then 6 else if v / 4 % 2 == 1 then 5
         else if v / 8 % 2 == 1 then 4 else if v / 16 % 2 == 1 then 3 else if v / 32 % 2 == 1 then 2
         else if v / 64 % 2 == 1 then 1 else 0;
    assert v == 128 || k != 0;
  }

  lemma OctetRun(v: u32, r: nat)
    requires 0 < v < 0x100 && r < LONG - 7
    ensures Run(UBits(v, 8), r) <= 7 && (v != 128 ==> Run(UBits(v, 8), r) <= 6)
  {
    var k := OneInOctet(v);
    hide *;
    RunEnds(UBits(v, 8), k, r);
  }

  /** Fields within the standard's ranges, 1 to 301 macroblocks a side, crops below 1024. */
  predicate InRange(si: SpsInfo) {
    && Shaped(si) && si.profile != 0 && si.level != 0
    && si.spsId <= 31 && si.log2frm <= 12 && si.pocType in {0, 2} && si.pocLsb <= 12 && si.maxRef <= 16
    && forall v | v in si.crop :: v <= 1023
  }

  /** Profile 128 could put 22 zeros in a row, though never byte-aligned ones. */
  predicate Spread(si: SpsInfo) {
    InRange(si) && si.profile != 128
  }

  predicate Legal(si: SpsInfo) {
    InRange(si) && !HighProfile(si.profile)
  }

  lemma HeadRun(si: SpsInfo)
    requires Spread(si)
    ensures Run(HeadCode(si), 0) <= 7
  {
    var x, y, z, u := UBits(NAL_SPS, 8), UBits(si.profile, 8), UBits(si.constraint, 8), UBits(si.level, 8);
    OctetRun(NAL_SPS, 0);
    HeaderRun();
    hide UBits, Run;
    RunConcat(x, y + (z + u), 0);
    OctetRun(si.profile, Run(x, 0));
    RunConcat(y, z + u, Run(x, 0));
    RunBound(z, Run(y, Run(x, 0)));
    RunConcat(z, u, Run(y, Run(x, 0)));
    OctetRun(si.level, Run(z, Run(y, Run(x, 0))));
  }

  lemma HeaderRun()
    ensures Run(UBits(NAL_SPS, 8), 0) == 0
  {
    UBitsAt(NAL_SPS, 8, 7);
    assert Shr(NAL_SPS, 0) == NAL_SPS;
    hide UBits, Run;
    RunEnds(UBits(NAL_SPS, 8), 7, 0);
  }

  lemma PocRun(si: SpsInfo, r: nat)
    requires Spread(si) && r <= 3
    ensures Run(PocCode(si), r) <= 3
  {
    SmallPowers();
    hide UBits, Run, Ue, Pow2, Writable;
    var rest := if si.pocType == 0 then Ue(si.pocLsb) else [];
    UeRun(si.pocType, 1, r);
    RunConcat(Ue(si.pocType), rest, r);
    if si.pocType == 0 {
      UeRun(si.pocLsb, 3, Run(Ue(si.pocType), r));
    } else {
      RunBound(rest, Run(Ue(si.pocType), r));
    }
  }

  lemma RefsRun(si: SpsInfo, r: nat)
    requires Spread(si) && r <= 7
    ensures Run(RefsCode(si), r) <= 4
  {
    SmallPowers();
    hide UBits, Run, Ue, Pow2, Writable, PocCode;
    var x, y, z, u := Ue(si.spsId), Ue(si.log2frm), PocCode(si), Ue(si.maxRef);
    UeRun(si.spsId, 5, r);
    RunConcat(x, y + (z + u), r);
    UeRun(si.log2frm, 3, Run(x, r));
    RunConcat(y, z + u, Run(x, r));
    PocRun(si, Run(y, Run(x, r)));
    RunConcat(z, u, Run(y, Run(x, r)));
    UeRun(si.maxRef, 4, Run(z, Run(y, Run(x, r))));
  }

  lemma DimsRun(si: SpsInfo, r: nat)
    requires Spread(si) && r <= 4
    ensures Run(DimsCode(si), r) <= if si.cropFlag == 1 then 0 else 12
  {
    SmallPowers();
    CodesOfSize(si);
    hide UBits, Run, Ue, Pow2, Writable, FlagsCode, WidthCode, HeightCode, Bit1;
    var x, y, z, u := Bit1(0), Ue(WidthCode(si)), Ue(HeightCode(si)), FlagsCode(si);
    RunBound(x, r);
    RunConcat(x, y + (z + u), r);
    UeRun(WidthCode(si), 8, Run(x, r));
    RunConcat(y, z + u, Run(x, r));
    UeRun(HeightCode(si), 8, Run(y, Run(x, r)));
    RunConcat(z, u, Run(y, Run(x, r)));
    FlagsRun(si, Run(z, Run(y, Run(x, r))));
  }

  lemma FlagsRun(si: SpsInfo, r: nat)
    requires r <= 8
    ensures Run(FlagsCode(si), r) <= if si.cropFlag == 1 then 0 else 12
  {
    var f := FlagsCode(si);
    assert f[|f| - 1] == si.cropFlag && |f| <= 4;
    hide Run, FlagsCode;
    RunBound(f, r);
    if si.cropFlag == 1 {
      RunEnds(f, |f| - 1, r);
    }
  }

  lemma {:induction false} UesRun(vals: seq<u32>, r: nat)
    requires r <= 10 && forall v | v in vals :: v <= 1023
    ensures Run(Ues(vals), r) <= 10
    decreases |vals|
  {
    SmallPowers();
    hide UBits, Run, Ue, Pow2;
    if vals == [] {
      RunBound([], r);
    } else {
      assert vals[0] in vals;
      UeRun(vals[0], 10, r);
      RunConcat(Ue(vals[0]), Ues(vals[1..]), r);
      assert forall v | v in vals[1..] :: v in vals;
      UesRun(vals[1..], Run(Ue(vals[0]), r));
    }
  }

  lemma CropRun(si: SpsInfo, r: nat)
    requires Spread(si) && r <= if si.cropFlag == 1 then 0 else 12
    ensures Run(CropCode(si), r) <= 12
  {
    hide Run, Ues;
    if si.cropFlag == 1 {
      UesRun(si.crop, r);
    } else {
      RunBound([], r);
    }
  }

  lemma FieldsRun(si: SpsInfo)
    requires Spread(si)
    ensures Run(FieldBits(si), 0) <= 12
  {
    hide Run, HeadCode, RefsCode, DimsCode, CropCode, Spread;
    var x, y, z, u := HeadCode(si), RefsCode(si), DimsCode(si), CropCode(si);
    HeadRun(si);
    RunConcat(x, y + (z + u), 0);
    RefsRun(si, Run(x, 0));
    RunConcat(y, z + u, Run(x, 0));
    DimsRun(si, Run(y, Run(x, 0)));
    RunConcat(z, u, Run(y, Run(x, 0)));
    CropRun(si, Run(z, Run(y, Run(x, 0))));
  }

  /** A body ending in a one keeps its run short however it is padded. */
  lemma PaddedRun(f: seq<bit>, e: seq<bit>, r: nat)
    requires Run(f, 0) == r < LONG - 1 && |e| == 2 && e[1] == 1
    ensures Run(Padded(f + e), 0) < LONG
  {
    var body := f + e;
    var pad := Padded(body)[|body|..];
    assert Padded(body) == body + pad && |pad| < 8;
    hide *;
    RunConcat(f, e, 0);
    RunEnds(e, 1, r);
    RunConcat(body, pad, 0);
    RunBound(pad, 0);
  }

  /** Twenty-two zero bits in a row never occur in such a set, padding included. */
  lemma BuiltRun(si: SpsInfo)
    requires Spread(si)
    ensures Run(Padded(BodyBits(si)), 0) < LONG
  {
    FieldsRun(si);
    var e := Bit1(0) + Bit1(1);
    assert |e| == 2 && e[1] == 1;
    hide Run, FieldBits, UBits, Bit1, Padded, Spread;
    PaddedRun(FieldBits(si), e, Run(FieldBits(si), 0));
  }

  // ---------- the bytes ----------

  /** Bytes that emulation prevention exists to keep out: a start code, or an escape. */
  predicate Reserved(s: seq<byte>, i: nat)
    requires i + 2 < |s|
  {
    s[i] == 0 && s[i + 1] == 0 && s[i + 2] <= 3
  }

  lemma {:induction false} ShrSmall(b: byte, n: nat)
    requires b < Pow2(n)
    ensures Shr(b, n) == 0
  {
    hide *;
    ShrBelow(b, n);
  }

  lemma {:induction false} ShrBelow(v: nat, n: nat)
    requires v < Pow2(n)
    ensures Shr(v, n) == 0
  {
    if n != 0 {
      ShrBelow(v / 2, n - 1);
    }
  }

  lemma ReservedZeros(s: seq<byte>, i: nat)
    requires i + 2 < |s| && Reserved(s, i)
    ensures forall p | 8 * i <= p < 8 * i + LONG :: BitsOf(s)[p] == 0
  {
    forall p | 8 * i <= p < 8 * i + LONG ensures BitsOf(s)[p] == 0 {
      var k, j := p / 8, p % 8;
      assert s[k] == 0 || (k == i + 2 && j < 6 && s[k] < 4);
      assert BitsOf(s)[p] == Shr(s[k], 7 - j) % 2;
      hide BitsOf, Shr, Pow2;
      if s[k] == 0 {
        ShrOfZero(7 - j);
      } else {
        PowFour(7 - j);
        ShrSmall(s[k], 7 - j);
      }
    }
  }

  lemma PowFour(n: nat)
    requires 2 <= n
    ensures 4 <= Pow2(n)
  {
    SmallPowers();
    Pow2Grows(2, n);
  }

  lemma RangeHead(si: SpsInfo)
    requires InRange(si)
    ensures 0 < si.profile < 0x100 && si.constraint < 0x100 && si.level < 0x100
  {
  }

  /** The profile is byte 1 and nothing else. */
  lemma ProfileOnly(si: SpsInfo, other: SpsInfo, k: nat)
    requires other == si.(profile := 100) && 16 <= k
    ensures |Padded(BodyBits(si))| == |Padded(BodyBits(other))|
    ensures k < |Padded(BodyBits(si))| ==> Padded(BodyBits(si))[k] == Padded(BodyBits(other))[k]
  {
    var x, tail := UBits(NAL_SPS, 8), UBits(si.constraint, 8) + UBits(si.level, 8);
    var rest := RefsCode(si) + (DimsCode(si) + CropCode(si));
    var e := Bit1(0) + Bit1(1);
    SameRest(si, other);
    hide RefsCode, DimsCode, CropCode, UBits, Bit1, Padded;
    PaddedPast(x, UBits(si.profile, 8), UBits(100, 8), tail, rest, e, k);
  }

  lemma SameRest(si: SpsInfo, other: SpsInfo)
    requires other == si.(profile := 100)
    ensures RefsCode(si) == RefsCode(other) && DimsCode(si) == DimsCode(other) && CropCode(si) == CropCode(other)
  {
    hide Ue, Ues, Bit1;
  }

  lemma PaddedPast(x: seq<bit>, y: seq<bit>, z: seq<bit>, tail: seq<bit>, rest: seq<bit>, e: seq<bit>, k: nat)
    requires |x| == |y| == |z| == 8 <= k - 8
    ensures var b, d := Padded(x + (y + tail) + rest + e), Padded(x + (z + tail) + rest + e);
      |b| == |d| && (k < |b| ==> b[k] == d[k])
  {
    var v, w := x + (y + tail) + rest + e, x + (z + tail) + rest + e;
    assert |v| == |w| && v[16..] == tail + rest + e == w[16..];
    assert k < |v| ==> v[k] == v[16..][k - 16] && w[k] == w[16..][k - 16];
  }

  /** Emulation freedom: no start code and no escape inside its bytes. */
  lemma NoReservedBytes(si: SpsInfo, i: nat)
    requires InRange(si) && i + 2 < |BuildSps(si)|
    ensures !Reserved(BuildSps(si), i)
  {
    hide *;
    var s, other := BuildSps(si), si.(profile := 100);
    RangeHead(si);
    HeaderBytes(si);
    OtherSpread(si);
    BuiltRun(other);
    BuiltIs(si);
    if Reserved(s, i) {
      ReservedAt(s, i);
      ReservedZeros(s, i);
      ZerosMoved(si, other, 8 * i);
      RunNotices(Padded(BodyBits(other)), 0, i * 8);
    }
  }

  lemma BuiltIs(si: SpsInfo)
    ensures BitsOf(BuildSps(si)) == Padded(BodyBits(si))
  {
    BuiltBits(si);
  }

  lemma ZerosMoved(si: SpsInfo, other: SpsInfo, p: nat)
    requires other == si.(profile := 100) && 16 <= p && p + LONG <= |Padded(BodyBits(si))|
    requires forall k | p <= k < p + LONG :: Padded(BodyBits(si))[k] == 0
    ensures p + LONG <= |Padded(BodyBits(other))| && forall k | p <= k < p + LONG :: Padded(BodyBits(other))[k] == 0
  {
    hide Padded, BodyBits;
    ProfileOnly(si, other, p);
    forall k | p <= k < p + LONG ensures Padded(BodyBits(other))[k] == 0 {
      ProfileOnly(si, other, k);
    }
  }

  lemma OtherSpread(si: SpsInfo)
    requires InRange(si)
    ensures Spread(si.(profile := 100))
  {
    hide WidthCode;
  }

  lemma ReservedAt(s: seq<byte>, i: nat)
    requires i + 2 < |s| && s[0] != 0 && s[1] != 0 && Reserved(s, i)
    ensures 2 <= i && 8 * i + LONG <= |BitsOf(s)|
  {
    hide BitsOf;
  }

  lemma UeLength(v: u32)
    ensures |Ue(v)| <= 63
  {
    hide UBits, Log2;
    Low32Log(Low32(v + 1));
  }

  lemma BuildFits(si: SpsInfo)
    requires |si.crop| == 4
    ensures |BuildSps(si)| <= NAL_BUF_MAX
  {
    UeLength(si.spsId);
    UeLength(si.log2frm);
    UeLength(si.pocType);
    UeLength(si.pocLsb);
    UeLength(si.maxRef);
    UeLength(WidthCode(si));
    UeLength(HeightCode(si));
    UeLength(si.crop[0]);
    UeLength(si.crop[1]);
    UeLength(si.crop[2]);
    UeLength(si.crop[3]);
    FourCodes(si.crop);
    hide UBits, Ue, WidthCode, HeightCode, BitsOf, Ues;
    assert |HeadCode(si)| == 32 && |RefsCode(si)| <= 315 && |DimsCode(si)| <= 131 && |CropCode(si)| <= 252;
  }

  /** Round trip on the wire, whenever the builder happened to write no 00 00 03. */
  lemma RoundTripClean(si: SpsInfo)
    requires Writable(si)
    requires forall i | 0 <= i < |BuildSps(si)| - 2 :: !EmulationAt(BuildSps(si), i)
    ensures ParseSps(BuildSps(si)) == si
  {
    hide *;
    RoundTripRaw(si);
    StripIdentity(BuildSps(si));
    CropCount(si);
    BuildFits(si);
    ParseOfUnstripped(BuildSps(si));
  }

  lemma CropCount(si: SpsInfo)
    requires Writable(si)
    ensures |si.crop| == 4
  {
  }

  lemma ParseOfUnstripped(d: seq<byte>)
    requires 4 <= |d| <= NAL_BUF_MAX && Strip(d) == d
    ensures ParseSps(d) == ParseRbsp(d).si
  {
    hide Strip, ParseBits, BitsOf;
  }

  lemma LegalIsWritable(si: SpsInfo)
    requires Legal(si)
    ensures Writable(si)
  {
  }

  /** Print, then parse: every field of every legal set comes back. */
  lemma RoundTrip(si: SpsInfo)
    requires Legal(si)
    ensures ParseSps(BuildSps(si)) == si
  {
    LegalIsWritable(si);
    forall i | 0 <= i < |BuildSps(si)| - 2 ensures !EmulationAt(BuildSps(si), i) {
      NoReservedBytes(si, i);
      hide InRange, BuildSps;
    }
    hide *;
    RoundTripClean(si);
  }

  // ---------- what the parser can return ----------

  lemma {:induction false} ReadsReadable(b: seq<bit>, c: Cur, n: nat)
    ensures forall v | v in ReadUes(b, c, n).vals :: Readable(v)
    decreases n
  {
    hide ReadUe;
    if n != 0 {
      ReadsReadable(b, ReadUe(b, c).cur, n - 1);
    }
  }

  lemma HeadWritable(b: seq<bit>, profile: u32, constraint: u32, level: u32)
    ensures var si := ParseHead(b, profile, constraint, level).si;
      && si.profile == profile && si.constraint == constraint && si.level == level && si.crop == [0, 0, 0, 0] && !si.ok
      && Readable(si.spsId) && Readable(si.log2frm) && Readable(si.pocType)
      && Readable(si.pocLsb) && Readable(si.maxRef)
      && si.pocType != 1 && (si.pocType != 0 ==> si.pocLsb == 0)
  {
    hide ReadUe, SkipHigh, SkipUes;
  }

  lemma DimsWritable(b: seq<bit>, p: Parsed)
    requires !p.si.ok
    ensures var si := ParseDims(b, p).si;
      && si == p.si.(w := si.w, h := si.h, fmbo := si.fmbo, mbAdaptive := si.mbAdaptive, direct8x8 := si.direct8x8,
                     cropFlag := si.cropFlag, ok := si.ok)
      && (si.ok ==>
        && si.w % 16 == 0 && 16 <= si.w <= 16 * 301
        && (if si.fmbo == 1 then si.h % 16 == 0 && 16 <= si.h <= 16 * 301 else si.h % 32 == 0 && 32 <= si.h <= 32 * 301)
        && (si.fmbo == 1 ==> si.mbAdaptive == 0))
  {
    hide ReadUe, ReadBit;
    var w := ReadUe(b, ReadBit(b, p.cur).cur);
    var h := ReadUe(b, w.cur);
    assert (w.val + 1) * 16 % 16 == 0 && (h.val + 1) * 16 % 16 == 0 && (h.val + 1) * 32 % 32 == 0;
  }

  /** Whatever NAL came in: an accepted set outside the high profiles is one the builder can write back. */
  lemma ParsedIsWritable(d: seq<byte>)
    requires ParseSps(d).ok && !HighProfile(ParseSps(d).profile)
    ensures Writable(ParseSps(d))
  {
    var s := Strip(d);
    var head := ParseHead(BitsOf(s), s[1], s[2], s[3]);
    hide Strip, BitsOf, ReadUe, ParseHead, ParseDims, ReadUes, HighProfile, Readable;
    HeadWritable(BitsOf(s), s[1], s[2], s[3]);
    var dims := ParseDims(BitsOf(s), head);
    DimsWritable(BitsOf(s), head);
    ReadsReadable(BitsOf(s), dims.cur, 4);
    ZeroReadable();
  }

  lemma ZeroReadable()
    ensures Readable(0)
  {
  }

  /** Canonicalising twice changes nothing: rebuilding a rebuilt set gives the same bytes. */
  lemma RebuildStable(d: seq<byte>)
    requires Legal(ParseSps(d))
    ensures BuildSps(ParseSps(BuildSps(ParseSps(d)))) == BuildSps(ParseSps(d))
  {
    hide *;
    RoundTrip(ParseSps(d));
  }

  // ---------- where the round trip ends ----------

  /** The strip leaves no 00 00 03 anywhere, whatever it was given. */
  lemma {:induction false} StripLeavesNone(d: seq<byte>, i: nat)
    requires i + 2 < |Strip(d)|
    ensures !EmulationAt(Strip(d), i)
  {
    var n := |d| - 1;
    var kept := Strip(d[..n]);
    if i + 2 < |kept| {
      StripLeavesNone(d[..n], i);
    }
  }

  /** So no NAL parses to profile 0, constraints 0, level 3, and a set with these values is lost. */
  lemma ZeroHeadLost(d: seq<byte>)
    requires 4 <= |Strip(d)| && 4 <= |d| <= NAL_BUF_MAX
    ensures var si := ParseSps(d); !(si.profile == 0 && si.constraint == 0 && si.level == 3)
  {
    var s := Strip(d);
    StripLeavesNone(d, 1);
    hide Strip, BitsOf, ParseHead, ParseDims, ReadUes;
    HeadWritable(BitsOf(s), s[1], s[2], s[3]);
    DimsWritable(BitsOf(s), ParseHead(BitsOf(s), s[1], s[2], s[3]));
  }
}
