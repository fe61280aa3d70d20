/** High profiles outside the standard's ranges: there some sets do come back, by the zeros read behind the end. */
module SpsHighOutside {
  import opened Words
  import opened Bits
  import opened SpsParse
  import opened SpsBuild
  import opened SpsRoundTrip
  import opened SpsCanon
  import opened SpsHigh
  import opened SpsHighEnd
  import opened SpsEscape

  /** One macroblock pair, an order count size of 31, everything else 0. */
  function Tiny(profile: u32, constraint: u32, level: u32): SpsInfo {
    SpsInfo(profile, constraint, level, 0, 0, 0, 31, 0, 16, 32, 0, 0, 0, 0, [0, 0, 0, 0], true)
  }

  /** Behind the header: id 0, frame size 0, count type 0; the code of 31; reference count 0, gaps 0, width and height
      0, four clear flags, no VUI, the stop bit. */
  predicate TinyBits(b: seq<bit>) {
    && |b| == 56 && b[32] == 1 && b[33] == 1 && b[34] == 1 && At(b, 35, Ue(31)) && b[46] == 1 && b[47] == 0
    && b[48] == 1 && b[49] == 1 && b[50] == 0 && b[51] == 0 && b[52] == 0 && b[53] == 0 && b[54] == 0 && b[55] == 1
  }

  lemma TinyCodes(profile: u32, constraint: u32, level: u32)
    ensures var si := Tiny(profile, constraint, level);
      && RefsRest(si) == [1] + (([1] + Ue(31)) + [1]) && SizeCode(si) == [1, 1, 0, 0, 0, 0] && CropCode(si) == []
      && Ue(si.spsId) == [1]
  {
    var si := Tiny(profile, constraint, level);
    hide Ue, RefsRest, SizeCode, CropCode;
    TinyRefs(si);
    TinySizes(si);
  }

  lemma TinyRefs(si: SpsInfo)
    requires si.spsId == 0 && si.log2frm == 0 && si.pocType == 0 && si.pocLsb == 31 && si.maxRef == 0
    ensures RefsRest(si) == [1] + (([1] + Ue(31)) + [1]) && Ue(si.spsId) == [1]
  {
    hide *;
    CodeOfZeroAndTwo();
    PocCodeZero(si);
    RefsRestIs(si);
  }

  lemma TinySizes(si: SpsInfo)
    requires si.w == 16 && si.h == 32 && si.fmbo == 0 && si.mbAdaptive == 0 && si.direct8x8 == 0 && si.cropFlag == 0
    ensures SizeCode(si) == [1, 1, 0, 0, 0, 0] && CropCode(si) == []
  {
    hide Ue, Ues, FlagsCode;
    assert SizeCode(si) == Ue(0) + (Ue(0) + FlagsCode(si));
    hide *;
    CodeOfZeroAndTwo();
    FlagsAre(si);
    assert [] + ([0] + [0]) == [0, 0];
    assert [0] + ([0] + ([0] + [0])) == [0, 0, 0, 0];
  }

  lemma CodeLength31()
    ensures |Ue(31)| == 11
  {
    SmallPow();
    Log2Is(32, 5);
    UeCode(31);
    hide Ue, UBits, Log2, Pow2;
  }

  lemma TinyBuilt(profile: u32, constraint: u32, level: u32)
    ensures TinyBits(BitsOf(BuildSps(Tiny(profile, constraint, level))))
  {
    var si := Tiny(profile, constraint, level);
    var b := BitsOf(BuildSps(si));
    BuiltBits(si);
    BodyEnds(si);
    PaddedEnds(FieldBits(si));
    TinyCodes(profile, constraint, level);
    CodeLength31();
    hide *;
    var u := Ue(31);
    BuiltTail(b, si);
    TinySize(si);
    AtSplit(b, 33, [1], ([1] + u) + [1]);
    AtSplit(b, 34, [1] + u, [1]);
    AtSplit(b, 34, [1], u);
    AtElement(b, 32, [1], 0);
    AtElement(b, 33, [1], 0);
    AtElement(b, 34, [1], 0);
    AtElement(b, 46, [1], 0);
    Bit1Is(0);
    AtElement(b, 47, [0], 0);
    AtElement(b, 48, [1, 1, 0, 0, 0, 0], 0);
    AtElement(b, 48, [1, 1, 0, 0, 0, 0], 1);
    AtElement(b, 48, [1, 1, 0, 0, 0, 0], 2);
    AtElement(b, 48, [1, 1, 0, 0, 0, 0], 3);
    AtElement(b, 48, [1, 1, 0, 0, 0, 0], 4);
    AtElement(b, 48, [1, 1, 0, 0, 0, 0], 5);
    TinyIs(b);
  }

  lemma TinySize(si: SpsInfo)
    requires |FieldBits(si)| == 54
    ensures |BitsOf(BuildSps(si))| == 56 && Ends(BitsOf(BuildSps(si)), 54)
  {
    BuiltBits(si);
    BodyEnds(si);
    PaddedEnds(FieldBits(si));
    hide FieldBits, BitsOf, BuildSps, Bit1;
  }

  lemma TinyIs(b: seq<bit>)
    requires |b| == 56 && b[32] == 1 && b[33] == 1 && b[34] == 1 && At(b, 35, Ue(31)) && b[46] == 1 && b[47] == 0
    requires b[48] == 1 && b[49] == 1 && b[50] == 0 && b[51] == 0 && b[52] == 0 && b[53] == 0 && Ends(b, 54)
    ensures TinyBits(b)
  {
    hide At, Ue;
  }

  /** The skipped fields end in front of the width. */
  lemma TinySkip(b: seq<bit>)
    requires TinyBits(b)
    ensures SkipHigh(b, Cur(33, false)) == Cur(48, false)
  {
    CodeLength31();
    hide ReadUe, Ue, At;
    UeOfOne(b, Cur(33, false));
    UeOfOne(b, Cur(34, false));
    UeInverts(b, Cur(35, false), 31);
  }

  /** Read from the width on, the references are the set's: 0, 0, 31 over the end, and then 0. */
  lemma TinyLate(b: seq<bit>, si: SpsInfo)
    requires TinyBits(b)
    ensures var head := LateHead(b, Cur(48, false), si);
      && head.cur == Cur(56, true)
      && head.si == BLANK.(profile := si.profile, constraint := si.constraint, level := si.level, spsId := si.spsId,
                           pocLsb := 31)
  {
    Tiny31(b);
    hide ReadUe, Ue, At;
    UeOfOne(b, Cur(48, false));
    UeOfOne(b, Cur(49, false));
    DeadUe(b, Cur(56, true));
  }

  lemma Tiny31(b: seq<bit>)
    requires TinyBits(b)
    ensures ReadUe(b, Cur(50, false)) == Read(31, Cur(56, true))
  {
    hide Ue, At, Taken, Value;
    ZerosAt(b, 50, 5);
    BitsTaken(b, Cur(56, false), 5, 0);
    ValueOfZeros(Taken(b, 56, 5)) by {
      TakenEnd(b, 5);
    }
    SmallPow();
    hide Zeros, ReadBits, Pow2;
  }

  lemma TakenEnd(b: seq<bit>, n: nat)
    ensures forall i | 0 <= i < n :: Taken(b, |b|, n)[i] == 0
  {
  }

  lemma TinyRest(b: seq<bit>, head: Parsed)
    requires |b| == 56 && head.cur == Cur(56, true) && !head.si.ok
    ensures ParseCrop(b, ParseDims(b, head)).si == head.si.(w := 16, h := 32, fmbo := 0, mbAdaptive := 0,
                                                             direct8x8 := 0, cropFlag := 0, ok := true)
  {
    DeadUe(b, Cur(56, true));
    DeadFlags(b, Cur(56, true));
    hide ReadUe, ReadFlags;
  }

  lemma TinyParsed(profile: u32, constraint: u32, level: u32)
    requires HighProfile(profile) && profile < 0x100 && constraint < 0x100 && level < 0x100
    ensures var si := Tiny(profile, constraint, level);
      4 <= |BuildSps(si)| && ParseRbsp(BuildSps(si)).si == si
  {
    var si := Tiny(profile, constraint, level);
    var s := BuildSps(si);
    var b := BitsOf(s);
    TinyBuilt(profile, constraint, level);
    HeaderBytes(si);
    hide BitsOf, BuildSps, ReadUe, SkipHigh, LateHead, ParseHead, ParseDims, ParseCrop, HighProfile, At, Ue;
    UeOfOne(b, Cur(32, false));
    TinySkip(b);
    HeadIsLate(b, profile, constraint, level, si);
    TinyLate(b, si);
    TinyRest(b, LateHead(b, Cur(48, false), si));
  }

  lemma NothingEscaped(d: seq<byte>)
    requires |d| == 7 && d[0] != 0 && d[1] != 0 && d[4] != 0 && d[4] != 3
    ensures Strip(d) == d
  {
    forall i | 0 <= i < |d| - 2 ensures !EmulationAt(d, i) {
    }
    hide *;
    StripIdentity(d);
  }

  /** Byte 4 starts with a one, so the strip finds nothing to drop. */
  lemma TinyKept(profile: u32, constraint: u32, level: u32)
    requires 0 < profile < 0x100 && constraint < 0x100 && level < 0x100
    ensures var d := BuildSps(Tiny(profile, constraint, level)); |d| == 7 && Strip(d) == d
  {
    var si := Tiny(profile, constraint, level);
    var d := BuildSps(si);
    TinyBuilt(profile, constraint, level);
    HeaderBytes(si);
    hide BuildSps, At, Ue, Strip;
    TinyFifth(d);
    hide BitsOf;
    NothingEscaped(d);
  }

  lemma TinyFifth(d: seq<byte>)
    requires TinyBits(BitsOf(d))
    ensures |d| == 7 && d[4] != 0 && d[4] != 3
  {
    OctetOfThree();
    OctetOfZero(0);
    hide Octet, At, Ue;
    assert |d| == 7;
    hide BitsOf;
    BitOfByte(d, 4, 0);
  }

  lemma TinyShape(profile: u32, constraint: u32, level: u32)
    requires HighProfile(profile) && constraint < 0x100 && level < 0x100
    ensures var si := Tiny(profile, constraint, level); Shaped(si) && !InRange(si)
    ensures 0 < profile < 0x100
  {
  }

  /** So the ranges matter: whatever its constraints and level, this high profile set is parsed back from the bytes
      built for it. Its order count size is above the 12 of the standard. */
  lemma TinyReadsBack(profile: u32, constraint: u32, level: u32)
    requires HighProfile(profile) && constraint < 0x100 && level < 0x100
    ensures var si := Tiny(profile, constraint, level);
      Shaped(si) && ParseSps(BuildSps(si)) == si && !InRange(si)
  {
    hide *;
    TinyShape(profile, constraint, level);
    TinyParsed(profile, constraint, level);
    TinyKept(profile, constraint, level);
    ParseOfUnstripped(BuildSps(Tiny(profile, constraint, level))) by {
      Limits();
    }
  }

}
