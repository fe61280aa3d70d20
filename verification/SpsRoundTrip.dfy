/** The parser inverts the builder, and what the builder writes needs no emulation prevention. */
module SpsRoundTrip {
  import opened Words
  import opened Bits
  import opened SpsParse
  import opened SpsBuild

  /** A value the Exp-Golomb reader gives back. */
  predicate Readable(v: u32) {
    v < 0x1FF_FFFF
  }

  /** Field values that can come out of a successful parse. */
  predicate Shaped(si: SpsInfo) {
    && si.ok && si.profile < 0x100 && si.constraint < 0x100 && si.level < 0x100
    && Readable(si.spsId) && Readable(si.log2frm) && Readable(si.pocType) && Readable(si.pocLsb) && Readable(si.maxRef)
    && si.pocType != 1 && (si.pocType != 0 ==> si.pocLsb == 0)
    && si.w % 16 == 0 && 16 <= si.w <= 16 * 301
    && (if si.fmbo == 1 then si.h % 16 == 0 && 16 <= si.h <= 16 * 301 else si.h % 32 == 0 && 32 <= si.h <= 32 * 301)
    && (si.fmbo == 1 ==> si.mbAdaptive == 0)
    && |si.crop| == 4
    && (si.cropFlag == 0 ==> si.crop == [0, 0, 0, 0])
    && (forall v | v in si.crop :: Readable(v) && v != UE_ERROR)
  }

  /** And outside the high profiles, whose extra fields the builder does not write. */
  predicate Writable(si: SpsInfo) {
    Shaped(si) && !HighProfile(si.profile)
  }

  // ---------- reading back, piece by piece ----------

  lemma BitInverts(b: seq<bit>, c: Cur, x: bit)
    requires At(b, c.pos, Bit1(x))
    ensures ReadBit(b, c) == Read(x, Cur(c.pos + 1, c.over))
  {
    assert b[c.pos..c.pos + 1][0] == x;
  }

  lemma PocReads(b: seq<bit>, c: Cur, si: SpsInfo)
    requires Writable(si) && At(b, c.pos, PocCode(si))
    ensures ReadPoc(b, c) == Poc(si.pocType, si.pocLsb, Cur(c.pos + |PocCode(si)|, c.over))
  {
    hide ReadUe, Ue;
    var rest := if si.pocType == 0 then Ue(si.pocLsb) else [];
    AtSplit(b, c.pos, Ue(si.pocType), rest);
    UeInverts(b, c, si.pocType);
    if si.pocType == 0 {
      UeInverts(b, Cur(c.pos + |Ue(si.pocType)|, c.over), si.pocLsb);
    }
  }

  lemma HeadReads(b: seq<bit>, si: SpsInfo)
    requires Writable(si) && At(b, 32, RefsCode(si))
    ensures ParseHead(b, si.profile, si.constraint, si.level)
      == Parsed(BLANK.(profile := si.profile, constraint := si.constraint, level := si.level, spsId := si.spsId,
                       log2frm := si.log2frm, pocType := si.pocType, pocLsb := si.pocLsb, maxRef := si.maxRef),
                Cur(32 + |RefsCode(si)|, false))
  {
    hide ReadUe, Ue, At, PocCode, ReadPoc;
    var x, y, z, u := Ue(si.spsId), Ue(si.log2frm), PocCode(si), Ue(si.maxRef);
    AtSplit(b, 32, x, y + (z + u));
    AtSplit(b, 32 + |x|, y, z + u);
    AtSplit(b, 32 + |x| + |y|, z, u);
    UeInverts(b, Cur(32, false), si.spsId);
    UeInverts(b, Cur(32 + |x|, false), si.log2frm);
    PocReads(b, Cur(32 + |x| + |y|, false), si);
    UeInverts(b, Cur(32 + |x| + |y| + |z|, false), si.maxRef);
  }

  lemma FlagsRead(b: seq<bit>, c: Cur, si: SpsInfo)
    requires Shaped(si) && At(b, c.pos, FlagsCode(si))
    ensures ReadFlags(b, c)
      == Flags(si.fmbo, si.mbAdaptive, si.direct8x8, si.cropFlag, Cur(c.pos + |FlagsCode(si)|, c.over))
  {
    hide ReadBit, At, UBits;
    var x, y := Bit1(si.fmbo), if si.fmbo == 0 then Bit1(si.mbAdaptive) else [];
    var z, u := Bit1(si.direct8x8), Bit1(si.cropFlag);
    AtSplit(b, c.pos, x, y + (z + u));
    AtSplit(b, c.pos + |x|, y, z + u);
    AtSplit(b, c.pos + |x| + |y|, z, u);
    BitInverts(b, c, si.fmbo);
    if si.fmbo == 0 {
      BitInverts(b, Cur(c.pos + 1, c.over), si.mbAdaptive);
    }
    BitInverts(b, Cur(c.pos + |x| + |y|, c.over), si.direct8x8);
    BitInverts(b, Cur(c.pos + |x| + |y| + |z|, c.over), si.cropFlag);
  }

  lemma CodesOfSize(si: SpsInfo)
    requires Shaped(si)
    ensures WidthCode(si) <= MAX_MBS_MINUS1 && HeightCode(si) <= MAX_MBS_MINUS1
    ensures (WidthCode(si) + 1) * 16 == si.w && (HeightCode(si) + 1) * (if si.fmbo == 1 then 16 else 32) == si.h
  {
    hide HighProfile, Readable;
    SizeParts(si.w / 16, si.w % 16);
    if si.fmbo == 1 {
      SizeParts(si.h / 16, si.h % 16);
    } else {
      assert si.h / 2 % 16 == 0 && si.h / 2 / 16 == si.h / 32;
    }
  }

  lemma SizeParts(q: nat, r: nat)
    requires 1 <= q <= 301 && r < 16
    ensures (16 * q + r) / 16 == q && Low32(q - 1) == q - 1
  {
  }

  lemma DimsRead(b: seq<bit>, p: Parsed, si: SpsInfo)
    requires Shaped(si) && At(b, p.cur.pos, DimsCode(si))
    ensures ParseDims(b, p)
      == Parsed(p.si.(w := si.w, h := si.h, fmbo := si.fmbo, mbAdaptive := si.mbAdaptive,
                      direct8x8 := si.direct8x8, cropFlag := si.cropFlag, ok := true),
                Cur(p.cur.pos + |DimsCode(si)|, p.cur.over))
  {
    hide Shaped, ReadUe, ReadBit, ReadFlags, Ue, At, FlagsCode, WidthCode, HeightCode, UBits;
    CodesOfSize(si);
    var x, y, z, u := Bit1(0), Ue(WidthCode(si)), Ue(HeightCode(si)), FlagsCode(si);
    var o, c := p.cur.over, p.cur.pos;
    AtSplit(b, c, x, y + (z + u));
    AtSplit(b, c + |x|, y, z + u);
    AtSplit(b, c + |x| + |y|, z, u);
    BitInverts(b, p.cur, 0);
    UeInverts(b, Cur(c + |x|, o), WidthCode(si));
    UeInverts(b, Cur(c + |x| + |y|, o), HeightCode(si));
    FlagsRead(b, Cur(c + |x| + |y| + |z|, o), si);
  }

  lemma {:induction false} UesRead(b: seq<bit>, c: Cur, vals: seq<u32>)
    requires At(b, c.pos, Ues(vals)) && forall v | v in vals :: Readable(v)
    ensures ReadUes(b, c, |vals|) == Reads(vals, Cur(c.pos + |Ues(vals)|, c.over))
    decreases |vals|
  {
    hide *;
    if vals == [] {
      NoReads(b, c);
      NoCodes();
    } else {
      var v, rest := vals[0], vals[1..];
      FirstCode(vals);
      OneRead(b, c, |vals|);
      AtSplit(b, c.pos, Ue(v), Ues(rest));
      UeInverts(b, c, v);
      UesRead(b, Cur(c.pos + |Ue(v)|, c.over), rest);
      assert vals == [v] + rest;
    }
  }

  lemma NoCodes()
    ensures Ues([]) == []
  {
  }

  lemma FirstCode(vals: seq<u32>)
    requires vals != [] && forall v | v in vals :: Readable(v)
    ensures Ues(vals) == Ue(vals[0]) + Ues(vals[1..]) && vals[0] < 0x1FF_FFFF
    ensures forall v | v in vals[1..] :: Readable(v)
  {
    hide Ue;
    assert vals[0] in vals;
  }

  lemma CropReads(b: seq<bit>, p: Parsed, si: SpsInfo)
    requires Writable(si) && At(b, p.cur.pos, CropCode(si))
    requires p.si == si.(crop := [0, 0, 0, 0])
    ensures ParseCrop(b, p) == Parsed(si, Cur(p.cur.pos + |CropCode(si)|, p.cur.over))
  {
    hide ReadUes, Ues, At;
    if si.cropFlag == 1 {
      UesRead(b, p.cur, si.crop);
    }
  }

  /** The bits hold the fields of every writable set, and the parse ends exactly behind them. */
  lemma FieldsRead(b: seq<bit>, si: SpsInfo)
    requires Writable(si) && At(b, 0, FieldBits(si))
    ensures ParseBits(b, si.profile, si.constraint, si.level) == Parsed(si, Cur(|FieldBits(si)|, false))
  {
    hide ReadUe, Ue, At, RefsCode, DimsCode, CropCode, ParseHead, ParseDims, ParseCrop, UBits;
    var x, y, z, u := HeadCode(si), RefsCode(si), DimsCode(si), CropCode(si);
    AtSplit(b, 0, x, y + (z + u));
    AtSplit(b, 32, y, z + u);
    AtSplit(b, 32 + |y|, z, u);
    HeadReads(b, si);
    DimsRead(b, ParseHead(b, si.profile, si.constraint, si.level), si);
    CropReads(b, ParseDims(b, ParseHead(b, si.profile, si.constraint, si.level)), si);
  }

  lemma BuiltBits(si: SpsInfo)
    ensures var s := BuildSps(si);
      && At(BitsOf(s), 0, FieldBits(si)) && 4 <= |s| && BitsOf(s) == Padded(BodyBits(si))
  {
    hide HeadCode, RefsCode, DimsCode, CropCode, BitsOf;
    var body := BodyBits(si);
    assert BitsOf(BuildSps(si)) == Padded(body);
    assert Padded(body)[..|FieldBits(si)|] == body[..|FieldBits(si)|] == FieldBits(si);
    HeadLength(si);
  }

  lemma HeadLength(si: SpsInfo)
    ensures |HeadCode(si)| == 32
  {
  }

  lemma ByteReads(s: seq<byte>, k: nat, v: u32)
    requires k < |s| && v < 0x100 && At(BitsOf(s), 8 * k, UBits(v, 8))
    ensures s[k] == v
  {
    BitsOfOctet(s, k);
    Pow2Of8();
    ValueOfUBits(s[k], 8);
    ValueOfUBits(v, 8);
  }

  /** Whatever the fields, the NAL header byte says: parameter set, of highest priority. */
  lemma NalByte(si: SpsInfo)
    ensures BuildSps(si) != [] && BuildSps(si)[0] == 0x67
  {
    BuiltBits(si);
    hide BitsOf, RefsCode, DimsCode, CropCode, UBits, At, Ue;
    var s, b := BuildSps(si), BitsOf(BuildSps(si));
    AtSplit(b, 0, HeadCode(si), RefsCode(si) + (DimsCode(si) + CropCode(si)));
    AtSplit(b, 0, UBits(NAL_SPS, 8), UBits(si.profile, 8) + (UBits(si.constraint, 8) + UBits(si.level, 8)));
    ByteReads(s, 0, NAL_SPS);
  }

  lemma HeaderBytes(si: SpsInfo)
    requires si.profile < 0x100 && si.constraint < 0x100 && si.level < 0x100
    ensures var s := BuildSps(si);
      4 <= |s| && s[0] == 0x67 && s[1] == si.profile && s[2] == si.constraint && s[3] == si.level
  {
    BuiltBits(si);
    NalByte(si);
    hide BitsOf, RefsCode, DimsCode, CropCode, UBits, At, Ue;
    var s, b := BuildSps(si), BitsOf(BuildSps(si));
    AtSplit(b, 0, HeadCode(si), RefsCode(si) + (DimsCode(si) + CropCode(si)));
    AtSplit(b, 0, UBits(NAL_SPS, 8), UBits(si.profile, 8) + (UBits(si.constraint, 8) + UBits(si.level, 8)));
    AtSplit(b, 8, UBits(si.profile, 8), UBits(si.constraint, 8) + UBits(si.level, 8));
    AtSplit(b, 16, UBits(si.constraint, 8), UBits(si.level, 8));
    ByteReads(s, 1, si.profile);
    ByteReads(s, 2, si.constraint);
    ByteReads(s, 3, si.level);
  }

  /** What the builder writes where the parser does not look: no gaps, and behind the last field no VUI, the stop bit,
      and fewer than eight zeros. */
  lemma SilentBits(si: SpsInfo)
    requires Writable(si)
    ensures 4 <= |BuildSps(si)|
    ensures var b := BitsOf(BuildSps(si));
      var g, n := ParseHead(b, si.profile, si.constraint, si.level).cur.pos, ParseRbsp(BuildSps(si)).cur.pos;
      && g < |b| && b[g] == 0
      && n + 2 <= |b| < n + 10 && b[n] == 0 && b[n + 1] == 1 && forall i | n + 2 <= i < |b| :: b[i] == 0
  {
    hide *;
    RoundTripRaw(si);
    BuiltBits(si);
    GapsClear(BitsOf(BuildSps(si)), si);
    BodyTail(si);
  }

  lemma GapsClear(b: seq<bit>, si: SpsInfo)
    requires Writable(si) && At(b, 0, FieldBits(si))
    ensures var g := ParseHead(b, si.profile, si.constraint, si.level).cur.pos; g < |b| && b[g] == 0
  {
    hide *;
    HeadLength(si);
    var x, y, z, u := HeadCode(si), RefsCode(si), DimsCode(si), CropCode(si);
    var rest := Ue(WidthCode(si)) + (Ue(HeightCode(si)) + FlagsCode(si));
    PiecesAre(si);
    AtSplit(b, 0, x, y + (z + u));
    AtSplit(b, 32, y, z + u);
    AtSplit(b, 32 + |y|, z, u);
    AtSplit(b, 32 + |y|, [0], rest);
    HeadReads(b, si);
    AtEnds(b, 32 + |y|, [0]);
  }

  lemma PiecesAre(si: SpsInfo)
    ensures FieldBits(si) == HeadCode(si) + (RefsCode(si) + (DimsCode(si) + CropCode(si)))
    ensures DimsCode(si) == [0] + (Ue(WidthCode(si)) + (Ue(HeightCode(si)) + FlagsCode(si)))
  {
    assert Bit1(0) == [0];
    hide Bit1, Ue, WidthCode, HeightCode, FlagsCode, HeadCode, RefsCode, CropCode;
  }

  lemma AtEnds(b: seq<bit>, p: nat, x: seq<bit>)
    requires At(b, p, x)
    ensures p + |x| <= |b|
  {
  }

  lemma BodyIs(si: SpsInfo)
    ensures BodyBits(si) == FieldBits(si) + [0, 1]
  {
    assert Bit1(0) == [0] && Bit1(1) == [1];
    hide FieldBits, Bit1;
  }

  lemma BodyTail(si: SpsInfo)
    ensures var n, b := |FieldBits(si)|, Padded(BodyBits(si));
      n + 2 <= |b| < n + 10 && b[n] == 0 && b[n + 1] == 1 && forall i | n + 2 <= i < |b| :: b[i] == 0
  {
    hide *;
    var f, b := FieldBits(si), Padded(BodyBits(si));
    BodyIs(si);
    assert b[..|f| + 2] == BodyBits(si);
    assert b[|f|] == b[..|f| + 2][|f|] && b[|f| + 1] == b[..|f| + 2][|f| + 1];
  }

  /** Round trip on the raw bytes: before any emulation strip, parsing a built set returns every field. */
  lemma RoundTripRaw(si: SpsInfo)
    requires Writable(si)
    ensures 4 <= |BuildSps(si)| && ParseRbsp(BuildSps(si)) == Parsed(si, Cur(|FieldBits(si)|, false))
  {
    BuiltBits(si);
    FieldsRead(BitsOf(BuildSps(si)), si);
    HeaderBytes(si);
    hide BitsOf, RefsCode, DimsCode, CropCode, UBits, At, Ue, HeadCode;
  }
}
