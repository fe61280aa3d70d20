/** High profiles with crops: a late reading that runs over copies the set onto itself, so the string behind the
    references repeats, and no string that repeats so closely holds four crops. */
module SpsHighCrop {
  import opened Words
  import opened Bits
  import opened SpsParse
  import opened SpsTail
  import opened SpsBuild
  import opened SpsRoundTrip
  import opened SpsCanon
  import opened SpsHigh
  import opened SpsHighEnd
  import opened SpsLoop

  // ---------- the copy ----------

  /** So far as b goes, n bits at s stand d bits later too. */
  predicate Copied(b: seq<bit>, s: nat, n: nat, d: nat) {
    forall i | s <= i < s + n && i + d < |b| :: b[i + d] == b[i]
  }

  lemma ShownCopied(b: seq<bit>, s: nat, d: nat, code: seq<bit>)
    requires At(b, s, code) && Shown(b, Cap(b, s + d), code)
    ensures Copied(b, s, |code|, d) && Cap(b, Cap(b, s + d) + |code|) == Cap(b, s + |code| + d)
  {
    hide At;
    forall i | s <= i < s + |code| && i + d < |b| ensures b[i + d] == b[i] {
      AtElement(b, s, code, i - s);
    }
  }

  /** A code that stands at s, read again d bits later, perhaps over the end. */
  lemma UeCopied(b: seq<bit>, s: nat, d: nat, c: Cur)
    requires Tame(b, c) && c.pos == Cap(b, s + d) && ReadUe(b, c).val < UE_ERROR && At(b, s, Ue(ReadUe(b, c).val))
    ensures var n := |Ue(ReadUe(b, c).val)|; Copied(b, s, n, d) && ReadUe(b, c).cur.pos == Cap(b, s + n + d)
  {
    hide *;
    CapOf(b, c);
    UeShown(b, c);
    ShownCopied(b, s, d, Ue(ReadUe(b, c).val));
  }

  lemma {:induction false} UesCopied(b: seq<bit>, s: nat, d: nat, c: Cur, n: nat)
    requires Tame(b, c) && c.pos == Cap(b, s + d) && At(b, s, Ues(ReadUes(b, c, n).vals))
    requires forall v | v in ReadUes(b, c, n).vals :: v < UE_ERROR
    ensures var r := ReadUes(b, c, n);
      Tame(b, r.cur) && Copied(b, s, |Ues(r.vals)|, d) && r.cur.pos == Cap(b, s + |Ues(r.vals)| + d)
    decreases n
  {
    hide *;
    if n == 0 {
      NoReads(b, c);
      NoCodes();
      NoneCopied(b, s, d);
    } else {
      OneRead(b, c, n);
      var first := ReadUe(b, c);
      var rest := ReadUes(b, first.cur, n - 1);
      var vals := [first.val] + rest.vals;
      assert first.val in vals && forall v | v in rest.vals :: v in vals;
      assert vals[1..] == rest.vals;
      UesOf(vals);
      AtSplit(b, s, Ue(first.val), Ues(rest.vals));
      UeTame(b, c);
      UeCopied(b, s, d, c);
      UesCopied(b, s + |Ue(first.val)|, d, first.cur, n - 1);
      CopiedJoin(b, s, |Ue(first.val)|, |Ues(rest.vals)|, d);
    }
  }

  lemma NoneCopied(b: seq<bit>, s: nat, d: nat)
    ensures Copied(b, s, 0, d)
  {
  }

  lemma CopiedJoin(b: seq<bit>, s: nat, m: nat, n: nat, d: nat)
    requires Copied(b, s, m, d) && Copied(b, s + m, n, d)
    ensures Copied(b, s, m + n, d)
  {
  }

  lemma CopyOf(b: seq<bit>, s: nat, d: nat, code: seq<bit>)
    requires At(b, s, code) && At(b, s + d, code)
    ensures Copied(b, s, |code|, d)
  {
    forall i | s <= i < s + |code| && i + d < |b| ensures b[i + d] == b[i] {
      AtElement(b, s, code, i - s);
      AtElement(b, s + d, code, i - s);
    }
  }

  /** From p on b repeats after d bits, but for the gaps bit. */
  predicate Twin(b: seq<bit>, p: nat, g: nat, d: nat) {
    p <= g && 0 < d && g + d < |b| && forall i | p <= i && i + d < |b| && i != g :: b[i + d] == b[i]
  }

  lemma TwinOf(b: seq<bit>, p: nat, m: nat, n: nat, r: nat, d: nat)
    requires Copied(b, p, m, d) && Copied(b, p + m + 1, n, d) && Copied(b, p + m + 1 + n, r, d)
    requires 0 < d && p + m + d < |b| <= p + m + 1 + n + r + d
    ensures Twin(b, p, p + m, d)
  {
  }

  /** The flag in front of the crops is a one, so a late reading runs over behind it at the earliest. */
  lemma LateInside(b: seq<bit>, c: Cur, si: SpsInfo)
    requires InRange(si) && si.cropFlag == 1 && Tame(b, c) && Late(b, c, si).si == si
    ensures !LateGaps(b, c, si).over && !LateWidth(b, c, si).over && !LateHeight(b, c, si).over
    ensures !ParseDims(b, LateHead(b, c, si)).cur.over
  {
    hide *;
    LateIsGiven(b, c, si);
    LateTame(b, c, si);
    LatePlaces(b, c, si);
    LateParts(b, c, si);
    var h := LateHeight(b, c, si);
    if h.over {
      DeadFlags(b, h);
    }
    RangeParts(si);
    LateFields(b, LateHead(b, c, si), si);
    DimsParts(b, LateHead(b, c, si));
    FlagsInside(b, h);
  }

  lemma FlagsInside(b: seq<bit>, c: Cur)
    requires Tame(b, c) && ReadFlags(b, c).crop == 1
    ensures !ReadFlags(b, c).cur.over
  {
  }

  lemma LateIsTwin(b: seq<bit>, p: nat, c: Cur, si: SpsInfo)
    requires InRange(si) && si.cropFlag == 1 && Stands(b, p, si) && Tame(b, c) && p < c.pos
    requires Late(b, c, si).si == si && Late(b, c, si).cur.over
    ensures !c.over && At(b, c.pos, RefsRest(si)) && Twin(b, p, p + |RefsRest(si)|, c.pos - p)
    ensures c.pos + |RefsRest(si)| < |b| && ReadBit(b, LateHead(b, c, si).cur).val == b[c.pos + |RefsRest(si)|]
  {
    var head := LateHead(b, c, si);
    var dims := ParseDims(b, head);
    var d, m, n, r := c.pos - p, |RefsRest(si)|, |SizeCode(si)|, |CropCode(si)|;
    hide *;
    RangeParts(si);
    LateInside(b, c, si);
    LateRefs(b, c, si);
    LateParts(b, c, si);
    LateFields(b, head, si);
    DimsOnly(b, head, si);
    StandsRow(b, p, si);
    RowStands(b, p, RefsRest(si), SizeCode(si), CropCode(si));
    AtEnd(b, head.cur.pos + 1, SizeCode(si));
    BitHere(b, head.cur);
    CopyOf(b, p, d, RefsRest(si));
    CopyOf(b, p + m + 1, d, SizeCode(si));
    CropsCopied(b, p + m + 1 + n, d, dims, si);
    TwinOf(b, p, m, n, r, d);
  }

  lemma RowStands(b: seq<bit>, p: nat, x: seq<bit>, y: seq<bit>, z: seq<bit>)
    requires Row(b, p, x, y, z)
    ensures At(b, p, x) && At(b, p + |x|, [0]) && At(b, p + |x| + 1, y) && At(b, p + |x| + 1 + |y|, z)
    ensures Ends(b, p + |x| + 1 + |y| + |z|)
  {
    hide At, Ends;
  }

  lemma CropsCopied(b: seq<bit>, s: nat, d: nat, dims: Parsed, si: SpsInfo)
    requires InRange(si) && si.cropFlag == 1 && At(b, s, CropCode(si))
    requires dims.cur == Cur(s + d, false) && s + d <= |b| && dims.si.ok && dims.si.cropFlag == 1
    requires ParseCrop(b, dims).si.crop == si.crop && ParseCrop(b, dims).cur.over
    ensures Copied(b, s, |CropCode(si)|, d) && |b| <= s + |CropCode(si)| + d
  {
    hide *;
    CropsSmall(si);
    CropsRead(b, dims, si);
    AtEnd(b, s, CropCode(si));
    TameAt(b, dims.cur);
    UesCopied(b, s, d, dims.cur, 4);
    OverEnds(b, ReadUes(b, dims.cur, 4).cur);
  }

  lemma OverEnds(b: seq<bit>, c: Cur)
    requires Tame(b, c) && c.over
    ensures c.pos == |b|
  {
  }

  // ---------- the ones in a period ----------

  /** If crop k is not 0, the k crops in front of it were read within the string. */
  lemma {:induction false} SpillsBound(b: seq<bit>, c: Cur, n: nat, k: nat)
    requires Tame(b, c) && k < n && ReadUes(b, c, n).vals[k] != 0
    ensures Spills(b, c, n) <= n - k
    decreases k
  {
    hide *;
    if k == 0 {
      SpillsAtMost(b, c, n);
    } else {
      UeTame(b, c);
      OneRead(b, c, n);
      SpillsStep(b, c, n);
      var first := ReadUe(b, c);
      var rest := ReadUes(b, first.cur, n - 1).vals;
      assert ([first.val] + rest)[k] == rest[k - 1];
      if first.cur.over {
        DeadReads(b, first.cur, n - 1, k - 1);
      }
      SpillsBound(b, first.cur, n - 1, k - 1);
    }
  }

  lemma {:induction false} SpillsAtMost(b: seq<bit>, c: Cur, n: nat)
    ensures Spills(b, c, n) <= n
    decreases n
  {
    hide *;
    if n == 0 {
      NoSpills(b, c);
    } else {
      SpillsStep(b, c, n);
      SpillsAtMost(b, ReadUe(b, c).cur, n - 1);
    }
  }

  lemma NoSpills(b: seq<bit>, c: Cur)
    ensures Spills(b, c, 0) == 0
  {
  }

  lemma {:induction false} DeadReads(b: seq<bit>, c: Cur, n: nat, k: nat)
    requires Tame(b, c) && c.over && k < n
    ensures ReadUes(b, c, n).vals[k] == 0
    decreases k
  {
    DeadUe(b, c);
    OneRead(b, c, n);
    hide ReadUe, ReadUes, Tame;
    if k != 0 {
      DeadReads(b, c, n - 1, k - 1);
    }
  }

  /** What the crops behind the last one read within the string must be. */
  predicate Fewer(ones: nat, crop: seq<u32>)
    requires |crop| == 4
  {
    ones <= 5 && (3 <= ones ==> crop[3] == 0) && (4 <= ones ==> crop[2] == 0) && (5 <= ones ==> crop[1] == 0)
  }

  lemma PeriodOnes(b: seq<bit>, p: nat, c: Cur, si: SpsInfo)
    requires InRange(si) && si.cropFlag == 1 && Stands(b, p, si) && Tame(b, c) && p <= c.pos
    requires Late(b, c, si).si == si
    ensures c.pos <= |b| && |si.crop| == 4
      && Fewer(Count(b, p, c.pos) + ReadBit(b, LateHead(b, c, si).cur).val, si.crop)
  {
    var head := LateHead(b, c, si);
    var dims := ParseDims(b, head);
    hide *;
    RangeParts(si);
    CropLength(si);
    LateInside(b, c, si);
    LateParts(b, c, si);
    LateFields(b, head, si);
    LateRefs(b, c, si);
    Budget(b, p, c, si);
    TameAt(b, head.cur);
    SizeYield(b, head, si);
    CropsRead(b, dims, si);
    CropSpillsAre(b, dims.cur, si);
    SpillsAtMost(b, dims.cur, 4);
    forall k | 1 <= k < 4 && si.crop[k] != 0 ensures Spills(b, dims.cur, 4) <= 4 - k {
      SpillsBound(b, dims.cur, 4, k);
    }
    FewerIs(Count(b, p, c.pos) + ReadBit(b, head.cur).val, si.crop);
  }

  lemma CropLength(si: SpsInfo)
    requires InRange(si)
    ensures |si.crop| == 4
  {
  }

  lemma CropSpillsAre(b: seq<bit>, c: Cur, si: SpsInfo)
    requires si.cropFlag == 1
    ensures CropSpills(b, c, si) == Spills(b, c, 4)
  {
    hide Spills;
  }

  lemma FewerIs(ones: nat, crop: seq<u32>)
    requires |crop| == 4 && ones <= 5
    requires (crop[3] != 0 ==> ones <= 2) && (crop[2] != 0 ==> ones <= 3) && (crop[1] != 0 ==> ones <= 4)
    ensures Fewer(ones, crop)
  {
  }

  // ---------- sizes, flags and crops as they stand ----------

  lemma LeadOf(b: seq<bit>, m: nat, p: nat, v: u32) returns (z: nat)
    requires m <= p && At(b, p, Ue(v)) && v < UE_ERROR
    ensures |Ue(v)| == 2 * z + 1 && m <= |b| && Lead(b[m..], p - m, z) && (v == 0 ==> z == 0)
  {
    hide Ue, At;
    z := CodeParts(b, p, v);
    hide Log2;
    if v == 0 {
      WidthLog(v);
    }
  }

  lemma CropsLay(b: seq<bit>, m: nat, s: nat, crop: seq<u32>) returns (k: Tokens)
    requires m <= s && |crop| == 4 && At(b, s, Ues(crop))
    requires crop[0] < UE_ERROR && crop[1] < UE_ERROR && crop[2] < UE_ERROR && crop[3] < UE_ERROR
    requires Ends(b, s + |Ues(crop)|)
    ensures m <= |b| && k.w == 0 && k.h == 0 && Crops(b[m..], s - m, k)
    ensures (crop[1] == 0 ==> k.c1 == 0) && (crop[2] == 0 ==> k.c2 == 0) && (crop[3] == 0 ==> k.c3 == 0)
  {
    hide *;
    UesOfFour(crop);
    var x, y, z, u := Ue(crop[0]), Ue(crop[1]), Ue(crop[2]), Ue(crop[3]);
    AtSplit(b, s, x, y + (z + u));
    AtSplit(b, s + |x|, y, z + u);
    AtSplit(b, s + |x| + |y|, z, u);
    var c0 := LeadOf(b, m, s, crop[0]);
    var c1 := LeadOf(b, m, s + |x|, crop[1]);
    var c2 := LeadOf(b, m, s + |x| + |y|, crop[2]);
    var c3 := LeadOf(b, m, s + |x| + |y| + |z|, crop[3]);
    EndsClear(b, s + |x| + |y| + |z| + |u|);
    k := Tokens(0, 0, c0, c1, c2, c3);
    CropsAre(b[m..], s - m, k);
  }

  lemma UesOfFour(crop: seq<u32>)
    requires |crop| == 4
    ensures Ues(crop) == Ue(crop[0]) + (Ue(crop[1]) + (Ue(crop[2]) + Ue(crop[3])))
  {
    UesOf(crop);
    UesOf(crop[1..]);
    UesOf(crop[2..]);
    UesOf(crop[3..]);
    NoCodes();
    hide Ue, Ues;
    assert crop[1..][1..] == crop[2..] && crop[2..][1..] == crop[3..] && crop[3..][1..] == [];
    assert Ue(crop[3]) + [] == Ue(crop[3]);
  }

  lemma EndsClear(b: seq<bit>, n: nat)
    requires Ends(b, n)
    ensures n + 2 <= |b| && b[n] == 0
  {
  }

  lemma CropsAre(t: seq<bit>, s: nat, k: Tokens)
    requires var s1 := s + 2 * k.c0 + 1;
      var s2 := s1 + 2 * k.c1 + 1;
      var s3 := s2 + 2 * k.c2 + 1;
      var end := s3 + 2 * k.c3 + 1;
      Lead(t, s, k.c0) && Lead(t, s1, k.c1) && Lead(t, s2, k.c2) && Lead(t, s3, k.c3) && end < |t| && t[end] == 0
    ensures Crops(t, s, k)
  {
    hide Lead;
  }

  lemma FlagsStand(b: seq<bit>, y: nat, si: SpsInfo)
    requires At(b, y, FlagsCode(si)) && si.cropFlag == 1
    ensures y < |b| && |FlagsCode(si)| == if b[y] == 1 then 3 else 4
    ensures y + |FlagsCode(si)| <= |b| && b[y + |FlagsCode(si)| - 1] == 1
  {
    Bit1Is(si.fmbo);
    Bit1Is(si.mbAdaptive);
    Bit1Is(si.direct8x8);
    Bit1Is(si.cropFlag);
    var code := FlagsCode(si);
    AtEnd(b, y, code);
    AtElement(b, y, code, 0);
    AtElement(b, y, code, |code| - 1);
    hide Bit1, At;
  }

  lemma LaidOf(t: seq<bit>, z: nat, h: nat, k: Tokens)
    requires Lead(t, 0, z) && Lead(t, 2 * z + 1, h)
    requires var y := 2 * z + 2 * h + 2;
      var n := if y < |t| && t[y] == 1 then 3 else 4;
      y + n < |t| && t[y + n - 1] == 1 && Crops(t, y + n, k)
    ensures Laid(t, k.(w := z, h := h))
  {
    hide Lead;
  }

  /** Sizes, flags and crops, behind the gaps bit. */
  lemma Lay(b: seq<bit>, p: nat, si: SpsInfo) returns (k: Tokens)
    requires InRange(si) && si.cropFlag == 1 && Stands(b, p, si)
    ensures |si.crop| == 4 && p + |RefsRest(si)| + 1 <= |b| && Laid(b[p + |RefsRest(si)| + 1..], k)
    ensures (si.crop[1] == 0 ==> k.c1 == 0) && (si.crop[2] == 0 ==> k.c2 == 0) && (si.crop[3] == 0 ==> k.c3 == 0)
  {
    var m := p + |RefsRest(si)| + 1;
    var w, h, f := Ue(WidthCode(si)), Ue(HeightCode(si)), FlagsCode(si);
    hide *;
    RangeParts(si);
    CropLength(si);
    CodesOfSize(si);
    CodesSmall(si);
    CropsSmall(si);
    assert si.crop[0] in si.crop && si.crop[1] in si.crop && si.crop[2] in si.crop && si.crop[3] in si.crop;
    CropIs(si);
    StandsRow(b, p, si);
    RowStands(b, p, RefsRest(si), SizeCode(si), CropCode(si));
    SizeStands(b, m, si);
    var y := m + |w| + |h|;
    FlagsStand(b, y, si);
    var z := LeadOf(b, m, m, WidthCode(si));
    var u := LeadOf(b, m, m + |w|, HeightCode(si));
    k := CropsLay(b, m, y + |f|, si.crop);
    CropsInside(b[m..], y + |f| - m, k);
    LaidOf(b[m..], z, u, k);
    k := k.(w := z, h := u);
  }

  lemma CodesSmall(si: SpsInfo)
    requires WidthCode(si) <= MAX_MBS_MINUS1 && HeightCode(si) <= MAX_MBS_MINUS1
    ensures WidthCode(si) < UE_ERROR && HeightCode(si) < UE_ERROR
  {
    hide WidthCode, HeightCode;
  }

  lemma CropIs(si: SpsInfo)
    requires si.cropFlag == 1
    ensures CropCode(si) == Ues(si.crop)
  {
    hide Ues;
  }

  lemma CropsInside(t: seq<bit>, s: nat, k: Tokens)
    requires Crops(t, s, k)
    ensures s < |t|
  {
  }

  lemma Fitting(b: seq<bit>, p: nat, c: Cur, si: SpsInfo) returns (k: Tokens, ones: nat)
    requires InRange(si) && si.cropFlag == 1 && Stands(b, p, si) && Tame(b, c) && p <= c.pos
    requires Late(b, c, si).si == si && c.pos <= |b| && 3 <= Count(b, p, c.pos)
    ensures ones == Count(b, p, c.pos) + ReadBit(b, LateHead(b, c, si).cur).val && ones <= 5
    ensures p + |RefsRest(si)| + 1 <= |b| && Fits(b[p + |RefsRest(si)| + 1..], ones, k)
  {
    hide *;
    PeriodOnes(b, p, c, si);
    ones := Count(b, p, c.pos) + ReadBit(b, LateHead(b, c, si).cur).val;
    k := Lay(b, p, si);
    FitsOf(b[p + |RefsRest(si)| + 1..], ones, si.crop, k);
  }

  lemma FitsOf(t: seq<bit>, ones: nat, crop: seq<u32>, k: Tokens)
    requires |crop| == 4 && Fewer(ones, crop) && 3 <= ones && Laid(t, k)
    requires (crop[1] == 0 ==> k.c1 == 0) && (crop[2] == 0 ==> k.c2 == 0) && (crop[3] == 0 ==> k.c3 == 0)
    ensures Fits(t, ones, k) && ones <= 5
  {
    hide Laid;
  }

  // ---------- the bits of the period ----------

  /** A code of at most 16, its leading zeros and the ones behind its leading one. */
  lemma CodeIn(b: seq<bit>, p: nat, v: u32) returns (n: nat, o: nat)
    requires v <= 16 && At(b, p, Ue(v))
    ensures Code(b, p, n, o) && |Ue(v)| == 2 * n + 1 && n <= 4 && 1 + o <= Ones(Ue(v))
    ensures v <= 12 ==> n <= 3
    ensures n == 2 && o == 0 <==> v == 3
    ensures p + 2 * n < |b| && (n == 3 && v <= 12 ==> b[p + 4] == 0 || b[p + 5] == 0)
    ensures (v == 0 <==> n == 0) && (3 <= v <==> 2 <= n) && (v == 1 <==> n == 1 && o == 0)
  {
    hide Ue, At, ReadUe, Ones;
    n := CodeParts(b, p, v);
    RefsLogs(v);
    UeInverts(b, Cur(p, false), v);
    CodeOnes(b, p, n, v);
    if n == 1 {
      o := b[p + 2];
      UeShort1(b, Cur(p, false), b[p + 2]);
    } else if n == 2 {
      o := b[p + 3] as int + b[p + 4] as int;
      UeShort2(b, Cur(p, false), b[p + 3], b[p + 4]);
    } else if n == 3 {
      o := b[p + 4] as int + b[p + 5] as int + b[p + 6] as int;
      UeShort3(b, Cur(p, false), b[p + 4], b[p + 5], b[p + 6]);
    } else {
      o := 0;
    }
  }

  lemma CodeOnes(b: seq<bit>, p: nat, n: nat, v: u32)
    requires At(b, p, Ue(v)) && |Ue(v)| == 2 * n + 1 && p + 2 * n < |b| && b[p + n] == 1
    ensures 1 <= Ones(Ue(v))
    ensures n == 1 ==> 1 + b[p + 2] as int <= Ones(Ue(v))
    ensures n == 2 ==> 1 + b[p + 3] as int + b[p + 4] as int <= Ones(Ue(v))
    ensures n == 3 ==> 1 + b[p + 4] as int + b[p + 5] as int + b[p + 6] as int <= Ones(Ue(v))
  {
    hide *;
    CountAt(b, p, Ue(v));
    var e := p + 2 * n + 1;
    CountSplit(b, p, p + n, e);
    CountSplit(b, p + n, p + n + 1, e);
    CountBit(b, p + n);
    if n == 1 {
      CountBit(b, p + 2);
    } else if n == 2 {
      CountSplit(b, p + 3, p + 4, e);
      CountBit(b, p + 3);
      CountBit(b, p + 4);
    } else if n == 3 {
      CountSplit(b, p + 4, p + 5, e);
      CountSplit(b, p + 5, p + 6, e);
      CountBit(b, p + 4);
      CountBit(b, p + 5);
      CountBit(b, p + 6);
    }
  }

  lemma CountBit(b: seq<bit>, p: nat)
    requires p < |b|
    ensures Count(b, p, p + 1) == b[p]
  {
    assert b[p..p + 1] == [b[p]];
    OnesOfBit(b[p]);
  }

  lemma CodeDrop(b: seq<bit>, m: nat, p: nat, z: nat, o: nat)
    requires m <= p && Code(b, p, z, o)
    ensures m <= |b| && Code(b[m..], p - m, z, o)
  {
  }

  lemma LoopOf(b: seq<bit>, p: nat, g: nat, d: nat)
    requires Twin(b, p, g, d)
    ensures Loop(b[g + 1..], d) && b[g + 1..][d - 1] == b[g + d]
  {
    var t := b[g + 1..];
    forall i | 0 <= i && i + d < |t| ensures t[i + d] == t[i] {
      assert b[g + 1 + i + d] == b[g + 1 + i];
    }
  }

  /** Leading zeros and ones of the codes in front of the gaps bit: size, order count and reference count. */
  datatype Refs = Refs(a: nat, o: nat, c: nat, q: nat, r: nat, u: nat)

  /** Behind the size code at s, count type 0. */
  predicate RefsZero(b: seq<bit>, s: nat, m: nat, x: Refs) {
    && s + 2 * x.a + 1 < |b| && b[s + 2 * x.a + 1] == 1
    && Code(b, s + 2 * x.a + 2, x.c, x.q) && x.c <= 3
    && (x.c == 3 ==> b[s + 2 * x.a + 6] == 0 || b[s + 2 * x.a + 7] == 0)
    && Code(b, s + 2 * x.a + 2 * x.c + 3, x.r, x.u) && m == 2 * x.a + 2 * x.c + 2 * x.r + 4
  }

  /** Behind the size code at s, count type 2. */
  predicate RefsTwo(b: seq<bit>, s: nat, m: nat, x: Refs) {
    && s + 2 * x.a + 3 < |b| && b[s + 2 * x.a + 1] == 0 && b[s + 2 * x.a + 2] == 1 && b[s + 2 * x.a + 3] == 1
    && x.c == 0 && x.q == 0
    && Code(b, s + 2 * x.a + 4, x.r, x.u) && m == 2 * x.a + 2 * x.r + 5
  }

  /** The references at s, code by code. */
  predicate RefsBehind(b: seq<bit>, s: nat, si: SpsInfo, x: Refs) {
    && Code(b, s, x.a, x.o) && x.a <= 3 && (x.a == 2 && x.o == 0 <==> si.log2frm == 3)
    && x.r <= 4 && (si.maxRef == 0 <==> x.r == 0) && (si.maxRef == 1 <==> x.r == 1 && x.u == 0)
    && (3 <= si.maxRef <==> 2 <= x.r) && |Ue(si.maxRef)| == 2 * x.r + 1
    && (si.pocType == 0 ==> RefsZero(b, s, |RefsRest(si)|, x))
    && (si.pocType == 2 ==> RefsTwo(b, s, |RefsRest(si)|, x))
  }

  lemma RefsIn(b: seq<bit>, s: nat, si: SpsInfo) returns (x: Refs)
    requires InRange(si) && At(b, s, RefsRest(si))
    ensures RefsBehind(b, s, si, x)
    ensures 3 + x.o + x.q + Ones(Ue(si.maxRef)) <= Ones(RefsRest(si)) && 1 + x.u <= Ones(Ue(si.maxRef))
  {
    hide *;
    RefsSmall(si);
    RefsOnes(si);
    var q := RefsPlaces(b, s, si);
    var a, o := CodeIn(b, s, si.log2frm);
    var r, u := CodeIn(b, q, si.maxRef);
    if si.pocType == 0 {
      var c, n := CodeIn(b, s + 2 * a + 2, si.pocLsb);
      x := Refs(a, o, c, n, r, u);
      RefsZeroOf(b, s, |RefsRest(si)|, x);
    } else {
      x := Refs(a, o, 0, 0, r, u);
      RefsTwoOf(b, s, |RefsRest(si)|, x);
    }
    RefsBehindOf(b, s, si, x);
  }

  lemma RefsZeroOf(b: seq<bit>, s: nat, m: nat, x: Refs)
    requires s + 2 * x.a + 1 < |b| && b[s + 2 * x.a + 1] == 1
    requires s + 2 * x.a + 2 * x.c + 2 < |b|
    requires Code(b, s + 2 * x.a + 2, x.c, x.q) && x.c <= 3
    requires x.c == 3 ==> b[s + 2 * x.a + 6] == 0 || b[s + 2 * x.a + 7] == 0
    requires Code(b, s + 2 * x.a + 2 * x.c + 3, x.r, x.u) && m == 2 * x.a + 2 * x.c + 2 * x.r + 4
    ensures RefsZero(b, s, m, x)
  {
    hide Code;
  }

  lemma RefsTwoOf(b: seq<bit>, s: nat, m: nat, x: Refs)
    requires s + 2 * x.a + 3 < |b| && b[s + 2 * x.a + 1] == 0 && b[s + 2 * x.a + 2] == 1 && b[s + 2 * x.a + 3] == 1
    requires x.c == 0 && x.q == 0 && Code(b, s + 2 * x.a + 4, x.r, x.u) && m == 2 * x.a + 2 * x.r + 5
    ensures RefsTwo(b, s, m, x)
  {
    hide Code;
  }

  lemma RefsBehindOf(b: seq<bit>, s: nat, si: SpsInfo, x: Refs)
    requires Code(b, s, x.a, x.o) && x.a <= 3 && (x.a == 2 && x.o == 0 <==> si.log2frm == 3)
    requires x.r <= 4 && (si.maxRef == 0 <==> x.r == 0) && (si.maxRef == 1 <==> x.r == 1 && x.u == 0)
    requires (3 <= si.maxRef <==> 2 <= x.r) && |Ue(si.maxRef)| == 2 * x.r + 1
    requires si.pocType == 0 ==> RefsZero(b, s, |RefsRest(si)|, x)
    requires si.pocType == 2 ==> RefsTwo(b, s, |RefsRest(si)|, x)
    ensures RefsBehind(b, s, si, x)
  {
    hide Code, RefsZero, RefsTwo, RefsRest, Ue;
  }

  lemma RefsOnes(si: SpsInfo)
    ensures si.pocType == 0 ==>
      Ones(RefsRest(si)) == Ones(Ue(si.log2frm)) + 1 + Ones(Ue(si.pocLsb)) + Ones(Ue(si.maxRef))
    ensures si.pocType == 2 ==> Ones(RefsRest(si)) == Ones(Ue(si.log2frm)) + 2 + Ones(Ue(si.maxRef))
  {
    hide *;
    RefsRestIs(si);
    OnesOfOne();
    OnesConcat(Ue(si.log2frm), PocCode(si) + Ue(si.maxRef));
    OnesConcat(PocCode(si), Ue(si.maxRef));
    if si.pocType == 0 {
      PocCodeZero(si);
      OnesConcat([1], Ue(si.pocLsb));
    } else if si.pocType == 2 {
      PocCodeTwo(si);
      assert [0, 1, 1] == [0] + ([1] + [1]);
      OnesConcat([0], [1] + [1]);
      OnesConcat([1], [1]);
      OnesOfBit(0);
    }
  }

  // ---------- which word repeats ----------

  /** What is known of two readings d bits apart, and of the ones between them. */
  predicate Apart(b: seq<bit>, p: nat, d: nat, si: SpsInfo, x: Refs, ones: nat) {
    var m := |RefsRest(si)|;
    && InRange(si) && At(b, p, RefsRest(si)) && Twin(b, p, p + m, d) && b[p + m] == 0
    && RefsBehind(b, p + d, si, x) && p + d + m < |b|
    && 3 + x.o + x.q + (if m < d then 1 + x.u else 0) + b[p + d + m] as int <= ones
  }

  /** Where the late reading starts behind the gaps bit, the word is the references and what lies between. */
  lemma PastGaps(b: seq<bit>, p: nat, d: nat, si: SpsInfo, x: Refs, ones: nat)
    requires Apart(b, p, d, si, x, ones) && |RefsRest(si)| < d
    ensures var g := p + |RefsRest(si)|;
      var m := p + d - g - 1;
      var t := b[g + 1..];
      && g + d < |b| && Loop(t, d) && t[d - 1] == b[g + d] && 4 + x.o + x.q + x.u + b[g + d] as int <= ones
      && Code(t, m, x.a, x.o) && forall i | 0 <= i < m :: t[i] == b[g + 1 + i]
  {
    hide *;
    var g := p + |RefsRest(si)|;
    ApartTwin(b, p, d, si, x, ones);
    ApartBits(b, p, d, si, x, ones);
    ApartOnes(b, p, d, si, x, ones);
    LoopOf(b, p, g, d);
    CodeDrop(b, g + 1, p + d, x.a, x.o);
  }

  /** And behind the size code, count type 0. */
  lemma PastGapsZero(b: seq<bit>, p: nat, d: nat, si: SpsInfo, x: Refs, ones: nat)
    requires Apart(b, p, d, si, x, ones) && |RefsRest(si)| < d && si.pocType == 0
    ensures var g := p + |RefsRest(si)|;
      var m := p + d - g - 1;
      g < |b| && RefsZero(b[g + 1..], m, |RefsRest(si)|, x) && d == m + 2 * x.a + 2 * x.c + 2 * x.r + 5
  {
    hide *;
    var g := p + |RefsRest(si)|;
    ApartRefs(b, p, d, si, x, ones);
    ZeroDrop(b, g + 1, p + d, |RefsRest(si)|, x);
  }

  lemma ApartRefs(b: seq<bit>, p: nat, d: nat, si: SpsInfo, x: Refs, ones: nat)
    requires Apart(b, p, d, si, x, ones)
    ensures p + |RefsRest(si)| < |b|
    ensures si.pocType == 0 ==> RefsZero(b, p + d, |RefsRest(si)|, x)
    ensures si.pocType == 2 ==> RefsTwo(b, p + d, |RefsRest(si)|, x)
  {
    hide InRange, At, Code, Ue, RefsRest, RefsZero, RefsTwo, Twin;
  }

  lemma ZeroDrop(b: seq<bit>, m: nat, s: nat, n: nat, x: Refs)
    requires m <= s && m <= |b| && RefsZero(b, s, n, x)
    ensures RefsZero(b[m..], s - m, n, x) && n == 2 * x.a + 2 * x.c + 2 * x.r + 4
  {
    hide Code;
    CodeDrop(b, m, s + 2 * x.a + 2, x.c, x.q);
    CodeDrop(b, m, s + 2 * x.a + 2 * x.c + 3, x.r, x.u);
    CodeInside(b, s + 2 * x.a + 2, x.c, x.q);
  }

  lemma CodeInside(b: seq<bit>, p: nat, z: nat, o: nat)
    requires Code(b, p, z, o)
    ensures p + 2 * z < |b|
  {
  }

  /** And count type 2. */
  lemma PastGapsTwo(b: seq<bit>, p: nat, d: nat, si: SpsInfo, x: Refs, ones: nat)
    requires Apart(b, p, d, si, x, ones) && |RefsRest(si)| < d && si.pocType == 2
    ensures var g := p + |RefsRest(si)|;
      var m := p + d - g - 1;
      g < |b| && RefsTwo(b[g + 1..], m, |RefsRest(si)|, x) && d == m + 2 * x.a + 2 * x.r + 6
  {
    hide *;
    var g := p + |RefsRest(si)|;
    ApartRefs(b, p, d, si, x, ones);
    TwoDrop(b, g + 1, p + d, |RefsRest(si)|, x);
  }

  lemma TwoDrop(b: seq<bit>, m: nat, s: nat, n: nat, x: Refs)
    requires m <= s && m <= |b| && RefsTwo(b, s, n, x)
    ensures RefsTwo(b[m..], s - m, n, x) && n == 2 * x.a + 2 * x.r + 5
  {
    hide Code;
    CodeDrop(b, m, s + 2 * x.a + 4, x.r, x.u);
  }

  lemma ApartParts(b: seq<bit>, p: nat, d: nat, si: SpsInfo, x: Refs, ones: nat)
    requires Apart(b, p, d, si, x, ones)
    ensures x.a <= 3 && x.r <= 4 && (x.a == 2 && x.o == 0 <==> si.log2frm == 3)
    ensures (si.maxRef == 0 <==> x.r == 0) && (si.maxRef == 1 <==> x.r == 1 && x.u == 0)
    ensures si.pocType == 0 || si.pocType == 2
  {
    RangeParts(si);
    hide InRange, At, Code, Ue, RefsRest, RefsZero, RefsTwo, Twin;
  }

  lemma SizeOfThree(t: seq<bit>, i: nat)
    requires Code(t, i, 2, 0)
    ensures i + 4 < |t| && t[i] == 0 && t[i + 1] == 0 && t[i + 2] == 1 && t[i + 3] == 0 && t[i + 4] == 0
  {
  }

  /** Reference count 0, and the late reading starts behind the gaps bit. */
  lemma NoRefs(b: seq<bit>, p: nat, d: nat, si: SpsInfo, x: Refs, ones: nat, k: Tokens)
    requires Apart(b, p, d, si, x, ones) && Sparse(si) && si.maxRef == 0 && d == |RefsRest(si)| + 1
    ensures p + d <= |b| && !Fits(b[p + d..], ones, k)
  {
    hide InRange, Apart, RefsRest, Twin, Loop, Code, Lead, Fits, Word0, Word1, Word4, Word5, At;
    ApartParts(b, p, d, si, x, ones);
    PastGaps(b, p, d, si, x, ones);
    var t := b[p + d..];
    if si.pocType == 0 {
      PastGapsZero(b, p, d, si, x, ones);
      CodeOfNone(t, d - 2, x.u);
      Word0Of(t, d, x.a, x.o, x.c, x.q, t[d - 1], ones);
      Word0Never(t, d, x.a, x.o, x.c, x.q, t[d - 1], ones, k);
    } else {
      PastGapsTwo(b, p, d, si, x, ones);
      CodeOfNone(t, d - 2, x.u);
      SizeOfThree(t, 0);
      LeadOfCode(t, 0, 2, 0);
      Word0Output(t, ones, k);
    }
  }

  lemma CodeOfNone(t: seq<bit>, i: nat, o: nat)
    requires Code(t, i, 0, o)
    ensures i < |t| && t[i] == 1
  {
  }

  lemma LeadOfCode(t: seq<bit>, i: nat, z: nat, o: nat)
    requires Code(t, i, z, o)
    ensures Lead(t, i, z)
  {
  }

  lemma Word0Of(t: seq<bit>, n: nat, a: nat, o: nat, c: nat, q: nat, d: nat, ones: nat)
    requires n == 2 * a + 2 * c + 5 && Loop(t, n) && n <= |t|
    requires Code(t, 0, a, o) && t[2 * a + 1] == 1 && Code(t, 2 * a + 2, c, q) && t[n - 2] == 1 && t[n - 1] == d
    requires 4 + o + q + d <= ones
    ensures Word0(t, n, a, o, c, q, d, ones)
  {
    hide Loop, Code;
  }

  /** Reference count 1, and eight clear list flags behind its first two bits. */
  lemma OneRef(b: seq<bit>, p: nat, d: nat, si: SpsInfo, x: Refs, ones: nat, k: Tokens)
    requires Apart(b, p, d, si, x, ones) && si.pocType == 0 && si.maxRef == 1 && d == |RefsRest(si)| + 7
    requires p + d <= |b| && forall i | p + d - 6 <= i < p + d :: b[i] == 0
    ensures !Fits(b[p + d - 6..], ones, k)
  {
    hide InRange, Apart, RefsRest, Sparse, Twin, Loop, Code, Lead, Fits, Word0, Word1, Word4, Word5, At;
    ApartParts(b, p, d, si, x, ones);
    PastGaps(b, p, d, si, x, ones);
    PastGapsZero(b, p, d, si, x, ones);
    var t := b[p + d - 6..];
    CodeOfOne(t, d - 4);
    assert forall i | 0 <= i < 6 :: t[i] == b[p + d - 6 + i];
    Word1Of(t, d, x.a, x.o, x.c, x.q, t[d - 1], ones);
    Word1Never(t, d, x.a, x.o, x.c, x.q, t[d - 1], ones, k);
  }

  lemma CodeOfOne(t: seq<bit>, i: nat)
    requires Code(t, i, 1, 0)
    ensures i + 2 < |t| && t[i] == 0 && t[i + 1] == 1 && t[i + 2] == 0
  {
  }

  lemma Word1Of(t: seq<bit>, n: nat, a: nat, o: nat, c: nat, q: nat, d: nat, ones: nat)
    requires n == 2 * a + 2 * c + 13 && Loop(t, n) && n <= |t| && (forall i | 0 <= i < 6 :: t[i] == 0)
    requires Code(t, 6, a, o) && t[2 * a + 7] == 1 && Code(t, 2 * a + 8, c, q)
    requires t[n - 4] == 0 && t[n - 3] == 1 && t[n - 2] == 0 && t[n - 1] == d && 4 + o + q + d <= ones
    ensures Word1(t, n, a, o, c, q, d, ones)
  {
    hide Loop, Code;
  }

  /** The late reading starts two bits behind the references. */
  lemma AnyRefs(b: seq<bit>, p: nat, d: nat, si: SpsInfo, x: Refs, ones: nat, k: Tokens)
    requires Apart(b, p, d, si, x, ones) && !Sparse(si) && d == |RefsRest(si)| + 2
    requires p + d <= |b| && b[p + d - 1] == 0
    ensures !Fits(b[p + d - 1..], ones, k)
  {
    hide InRange, Apart, RefsRest, Twin, Loop, Code, Lead, Fits, Word0, Word1, Word4, Word5, At;
    ApartParts(b, p, d, si, x, ones);
    PastGaps(b, p, d, si, x, ones);
    var t := b[p + d - 1..];
    if si.pocType == 0 {
      PastGapsZero(b, p, d, si, x, ones);
      SizeOfThree(t, 1);
      Word4Of(t, d, x.c, x.q, x.r, x.u, t[d - 1], ones);
      Word4Never(t, d, x.c, x.q, x.r, x.u, t[d - 1], ones, k);
    } else {
      PastGapsTwo(b, p, d, si, x, ones);
      Word5Of(t, d, x.a, x.o, x.r, x.u, t[d - 1], ones);
      Word5Never(t, d, x.a, x.o, x.r, x.u, t[d - 1], ones, k);
    }
  }

  lemma Word4Of(t: seq<bit>, n: nat, c: nat, q: nat, r: nat, u: nat, d: nat, ones: nat)
    requires n == 2 * c + 2 * r + 10 && Loop(t, n) && n <= |t|
    requires t[0] == 0 && t[1] == 0 && t[2] == 0 && t[3] == 1 && t[4] == 0 && t[5] == 0 && t[6] == 1
    requires Code(t, 7, c, q) && Code(t, 2 * c + 8, r, u) && t[n - 1] == d && 4 + q + u + d <= ones
    ensures Word4(t, n, c, q, r, u, d, ones)
  {
    hide Loop, Code;
  }

  lemma Word5Of(t: seq<bit>, n: nat, a: nat, o: nat, r: nat, u: nat, d: nat, ones: nat)
    requires n == 2 * a + 2 * r + 7 && Loop(t, n) && n <= |t|
    requires t[0] == 0 && Code(t, 1, a, o) && t[2 * a + 2] == 0 && t[2 * a + 3] == 1 && t[2 * a + 4] == 1
    requires Code(t, 2 * a + 5, r, u) && t[n - 1] == d && 4 + o + u + d <= ones
    ensures Word5(t, n, a, o, r, u, d, ones)
  {
    hide Loop, Code;
  }

  // ---------- reference counts the late reading starts in ----------

  /** Two bits into a reference count of at least 3: its leading zeros are two more than the size code's, so the size
      code is short. */
  lemma ShortSize(b: seq<bit>, p: nat, d: nat, q: nat, si: SpsInfo, x: Refs, ones: nat)
    requires Apart(b, p, d, si, x, ones) && Sparse(si) && 3 <= si.maxRef
    requires q + 2 == p + d && At(b, q, Ue(si.maxRef)) && p + |RefsRest(si)| == q + |Ue(si.maxRef)|
    ensures x.a <= 1 && x.r == x.a + 2 && si.pocType == 0 && p + |RefsRest(si)| == q + 2 * x.a + 5
  {
    hide *;
    ApartBits(b, p, d, si, x, ones);
    RefsSmall(si);
    var z := RefsLead(b, q, si.maxRef);
    SameLead(b, q, z, x.a, x.o);
    if x.a == 2 {
      NoOnesInside(b, q, x.o, si.maxRef);
    }
  }

  lemma RefsLead(b: seq<bit>, q: nat, r: u32) returns (z: nat)
    requires 3 <= r <= 16 && At(b, q, Ue(r))
    ensures 2 <= z <= 4 && |Ue(r)| == 2 * z + 1 && Lead(b, q, z)
  {
    RefsLogs(r);
    hide Ue, At, Log2;
    z := CodeParts(b, q, r);
  }

  lemma SameLead(b: seq<bit>, q: nat, z: nat, a: nat, o: nat)
    requires 2 <= z && Lead(b, q, z) && Code(b, q + 2, a, o)
    ensures z == a + 2
  {
    LeadIs(b, q + 2, z - 2, a);
  }

  lemma NoOnesInside(b: seq<bit>, q: nat, o: nat, r: u32)
    requires Lead(b, q, 4) && Code(b, q + 2, 2, o) && At(b, q, Ue(r)) && r <= 16
    ensures o == 0
  {
    hide ReadUe, Ue, At;
    UeInverts(b, Cur(q, false), r);
    UeShort4(b, Cur(q, false), r);
  }

  lemma ApartBits(b: seq<bit>, p: nat, d: nat, si: SpsInfo, x: Refs, ones: nat)
    requires Apart(b, p, d, si, x, ones)
    ensures InRange(si) && Code(b, p + d, x.a, x.o) && x.a <= 3 && (x.a == 2 && x.o == 0 <==> si.log2frm == 3)
    ensures p + |RefsRest(si)| < |b| && b[p + |RefsRest(si)|] == 0 && |Ue(si.maxRef)| == 2 * x.r + 1
    ensures si.pocType == 2 ==>
      p + d + 2 * x.a + 3 < |b| && b[p + d + 2 * x.a + 2] == 1 && b[p + d + 2 * x.a + 3] == 1
  {
    hide InRange, At, Code, Ue, RefsRest, RefsZero;
  }

  /** The size code, the count type and the first bit behind it stand d bits later too. */
  lemma SizeAgain(b: seq<bit>, p: nat, g: nat, d: nat, e: nat, a: nat, o: nat)
    requires Twin(b, p, g, d) && p <= e && g == e + 2 * a + 3 && a <= 1
    requires Code(b, e, a, o) && b[e + 2 * a + 1] == 1
    ensures e + d + 2 * a + 3 < |b| && Code(b, e + d, a, o) && b[e + d + 2 * a + 1] == 1
    ensures b[e + d + 2 * a + 2] == b[e + 2 * a + 2]
  {
    assert b[e + d] == b[e] && b[e + 1 + d] == b[e + 1] && b[e + 2 + d] == b[e + 2];
    assert b[e + 2 * a + 1 + d] == b[e + 2 * a + 1] && b[e + 2 * a + 2 + d] == b[e + 2 * a + 2];
  }

  /** What is left of an order count code behind its second bit. */
  predicate Left(t: seq<bit>, c: nat, q: nat, s: bit) {
    && (c == 0 ==> s == 1)
    && (c == 2 ==> 2 < |t| && s == 0 && t[0] == 1 && q == t[1] as int + t[2] as int)
    && (c == 3 ==>
          4 < |t| && s == 0 && t[0] == 0 && t[1] == 1 && q == t[2] as int + t[3] as int + t[4] as int
          && (t[2] == 0 || t[3] == 0))
  }

  /** Behind the gaps bit: what is left of the order count code, two zeros, and the late copies. */
  predicate Many(t: seq<bit>, d: nat, a: nat, o: nat, c: nat, q: nat, s: bit) {
    && d == 2 * a + 2 * c + 5 && Loop(t, d) && Code(t, 2 * c + 1, a, o) && Left(t, c, q, s)
    && t[2 * a + 2 * c + 2] == 1 && t[2 * a + 2 * c + 3] == s && t[2 * c] == 0 && (0 < c ==> t[2 * c - 1] == 0)
  }

  lemma ManyOf(b: seq<bit>, p: nat, d: nat, si: SpsInfo, x: Refs, ones: nat, e: nat, g: nat)
    requires Apart(b, p, d, si, x, ones) && g == p + |RefsRest(si)| && e == p + d
    requires x.a <= 1 && x.r == x.a + 2 && si.pocType == 0 && g == e + 2 * x.a + 3
    ensures g + 1 <= |b| && e + 2 * x.a + 2 < |b| && x.c != 1 && x.c <= 3
    ensures Many(b[g + 1..], d, x.a, x.o, x.c, x.q, b[e + 2 * x.a + 2])
  {
    hide *;
    ApartTwin(b, p, d, si, x, ones);
    ApartRefs(b, p, d, si, x, ones);
    ApartBits(b, p, d, si, x, ones);
    OrderBits(b, e, |RefsRest(si)|, x);
    SizeAgain(b, p, g, d, e, x.a, x.o);
    LoopOf(b, p, g, d);
    ManyIs(b, d, x, e, g);
  }

  lemma ApartTwin(b: seq<bit>, p: nat, d: nat, si: SpsInfo, x: Refs, ones: nat)
    requires Apart(b, p, d, si, x, ones)
    ensures Twin(b, p, p + |RefsRest(si)|, d) && p + |RefsRest(si)| + d < |b|
  {
    hide InRange, At, RefsBehind, RefsRest, Twin;
  }

  /** The order count code and the first two bits of the reference count. */
  predicate Ordered(b: seq<bit>, e: nat, a: nat, c: nat, q: nat) {
    var i := e + 2 * a + 2;
    && i + 2 * c + 2 < |b| && b[i + 2 * c + 1] == 0 && b[i + 2 * c + 2] == 0
    && c <= 3 && b[i + c] == 1 && (0 < c ==> b[i] == 0)
    && (c == 2 ==> q == b[i + 3] as int + b[i + 4] as int)
    && (c == 3 ==>
          b[i + 2] == 0 && q == b[i + 4] as int + b[i + 5] as int + b[i + 6] as int && (b[i + 4] == 0 || b[i + 5] == 0))
  }

  lemma OrderBits(b: seq<bit>, e: nat, m: nat, x: Refs)
    requires RefsZero(b, e, m, x) && 2 <= x.r
    ensures Ordered(b, e, x.a, x.c, x.q) && m == 2 * x.a + 2 * x.c + 2 * x.r + 4
    ensures e + 2 * x.a + 1 < |b| && b[e + 2 * x.a + 1] == 1
  {
  }

  lemma LeftIs(b: seq<bit>, x: Refs, e: nat, g: nat)
    requires Ordered(b, e, x.a, x.c, x.q) && g == e + 2 * x.a + 3 && g < |b| && b[g] == 0
    ensures x.c != 1 && x.c <= 3 && e + 2 * x.a + 2 < |b| && Left(b[g + 1..], x.c, x.q, b[e + 2 * x.a + 2])
  {
  }

  lemma ManyIs(b: seq<bit>, d: nat, x: Refs, e: nat, g: nat)
    requires Ordered(b, e, x.a, x.c, x.q) && g == e + 2 * x.a + 3 && d == 2 * x.a + 2 * x.c + 5 && g + d < |b|
    requires b[g] == 0 && Loop(b[g + 1..], d) && Code(b, e + d, x.a, x.o) && b[e + d + 2 * x.a + 1] == 1
    requires b[e + d + 2 * x.a + 2] == b[e + 2 * x.a + 2]
    ensures x.c != 1 && x.c <= 3 && e + 2 * x.a + 2 < |b|
    ensures Many(b[g + 1..], d, x.a, x.o, x.c, x.q, b[e + 2 * x.a + 2])
  {
    hide Loop, Code, Left, Ordered;
    LeftIs(b, x, e, g);
    TwoZeros(b, e, x.a, x.c, x.q);
    CodeDrop(b, g + 1, e + d, x.a, x.o);
  }

  lemma TwoZeros(b: seq<bit>, e: nat, a: nat, c: nat, q: nat)
    requires Ordered(b, e, a, c, q)
    ensures var i := e + 2 * a + 2 * c + 3; i + 1 < |b| && b[i] == 0 && b[i + 1] == 0
  {
  }

  lemma ManyNever(t: seq<bit>, n: nat, a: nat, o: nat, c: nat, q: nat, s: bit, ones: nat, k: Tokens)
    requires Many(t, n, a, o, c, q, s) && a <= 1 && c != 1 && c <= 3
    requires n <= |t| && 3 + o + q + t[n - 1] as int <= ones
    ensures !Fits(t, ones, k)
  {
    hide Loop, Fits;
    if c == 0 {
      Word3ZeroNever(t, a, t[n - 1], ones, k);
    } else {
      hide Code;
      if c == 2 {
        Word3TwoNever(t, a, o, t[n - 1], ones, k);
      } else {
        Word3ThreeNever(t, a, o, t[n - 1], ones, k);
      }
    }
  }

  /** The late reading starts two bits into the reference count. */
  lemma ManyRefs(b: seq<bit>, p: nat, d: nat, q: nat, si: SpsInfo, x: Refs, ones: nat, k: Tokens)
    requires Apart(b, p, d, si, x, ones) && Sparse(si) && 3 <= si.maxRef
    requires q + 2 == p + d && At(b, q, Ue(si.maxRef)) && p + |RefsRest(si)| == q + |Ue(si.maxRef)|
    ensures p + |RefsRest(si)| < |b| && !Fits(b[p + |RefsRest(si)| + 1..], ones, k)
  {
    hide *;
    var g := p + |RefsRest(si)|;
    ShortSize(b, p, d, q, si, x, ones);
    ManyOf(b, p, d, si, x, ones, p + d, g);
    ApartTwin(b, p, d, si, x, ones);
    ApartOnes(b, p, d, si, x, ones);
    ManyLast(b, g, d);
    ManyNever(b[g + 1..], d, x.a, x.o, x.c, x.q, b[p + d + 2 * x.a + 2], ones, k);
  }

  lemma ManyLast(b: seq<bit>, g: nat, d: nat)
    requires g + d < |b| && 0 < d
    ensures d <= |b[g + 1..]| && b[g + 1..][d - 1] == b[g + d]
  {
  }

  lemma ApartOnes(b: seq<bit>, p: nat, d: nat, si: SpsInfo, x: Refs, ones: nat)
    requires Apart(b, p, d, si, x, ones)
    ensures p + d + |RefsRest(si)| < |b| && 0 < d && 3 + x.o + x.q + b[p + d + |RefsRest(si)|] as int <= ones
    ensures |RefsRest(si)| < d ==> 4 + x.o + x.q + x.u + b[p + d + |RefsRest(si)|] as int <= ones
  {
    hide InRange, At, RefsBehind, RefsRest;
  }

  // ---------- scaling lists ----------

  lemma ForwardIs(c: Cur, r: Cur)
    requires Forward(c, r)
    ensures c.pos <= r.pos && (c.over ==> r.over)
  {
  }

  lemma ListHasOne(b: seq<bit>, c: Cur, left: nat)
    requires Tame(b, c) && 0 < left && !SkipList(b, c, left, 8, 8).over
    ensures var r := SkipList(b, c, left, 8, 8); c.pos <= r.pos <= |b| && 1 <= Count(b, c.pos, r.pos)
  {
    hide *;
    var first, r := ReadUe(b, c), SkipList(b, c, left, 8, 8);
    UeTame(b, c);
    ListTame(b, c, left, 8, 8);
    TamePos(b, r);
    ListStep(b, c, left, 8, 8);
    var n := (8 + first.val) % 256;
    ListLocal(b, b, first.cur, left - 1, if n != 0 then n else 8, n);
    ForwardIs(first.cur, r);
    UeHasOne(b, c);
    CountSplit(b, c.pos, first.cur.pos, r.pos);
  }

  lemma BitInside(b: seq<bit>, c: Cur)
    requires !ReadBit(b, c).cur.over
    ensures c.pos < |b| && ReadBit(b, c) == Read(b[c.pos], Cur(c.pos + 1, false))
  {
  }

  /** A list in the string takes two ones at least; fewer, and every list flag is clear. */
  lemma {:induction false} ListsClear(b: seq<bit>, c: Cur, m: nat, total: nat)
    requires Tame(b, c) && m <= total && !SkipLists(b, c, m, total).over
    ensures var r := SkipLists(b, c, m, total);
      c.pos <= r.pos <= |b|
      && (Count(b, c.pos, r.pos) <= 1 ==>
            r.pos == c.pos + (total - m) && forall i | c.pos <= i < r.pos :: b[i] == 0)
    decreases total - m
  {
    hide *;
    var r := SkipLists(b, c, m, total);
    ListsTame(b, c, m, total);
    TamePos(b, r);
    if m == total {
      NoLists(b, c, m);
    } else {
      var bit, n := ReadBit(b, c), if m < 6 then 16 else 64;
      BitTame(b, c);
      ListsNext(b, c, m, total);
      var next := if bit.val == 1 then SkipList(b, bit.cur, n, 8, 8) else bit.cur;
      ListTame(b, bit.cur, n, 8, 8);
      ListLocal(b, b, bit.cur, n, 8, 8);
      ForwardIs(bit.cur, SkipList(b, bit.cur, n, 8, 8));
      ListsLocal(b, b, next, m + 1, total);
      ForwardIs(next, r);
      BitInside(b, c);
      ListsClear(b, next, m + 1, total);
      CountSplit(b, c.pos, c.pos + 1, r.pos);
      CountBit(b, c.pos);
      if bit.val == 1 {
        ListHasOne(b, bit.cur, n);
        CountSplit(b, c.pos + 1, next.pos, r.pos);
      }
    }
  }

  lemma NoLists(b: seq<bit>, c: Cur, m: nat)
    ensures SkipLists(b, c, m, m) == c
  {
  }

  lemma ListsNext(b: seq<bit>, c: Cur, m: nat, total: nat)
    requires m < total
    ensures var bit, n := ReadBit(b, c), if m < 6 then 16 else 64;
      var next := if bit.val == 1 then SkipList(b, bit.cur, n, 8, 8) else bit.cur;
      SkipLists(b, c, m, total) == SkipLists(b, next, m + 1, total)
  {
    hide SkipList, ReadBit;
  }

  /** A size of at most 300 is led by at most eight zeros. */
  lemma SizeLead(b: seq<bit>, p: nat, v: u32) returns (z: nat)
    requires v <= MAX_MBS_MINUS1 && At(b, p, Ue(v))
    ensures z <= 8 && p + z < |b| && b[p + z] == 1 && |Ue(v)| == 2 * z + 1 && forall i | p <= i < p + z :: b[i] == 0
  {
    hide Ue, At;
    z := CodeParts(b, p, v);
    assert Pow2(9) == 512 by {
      SmallPow();
    }
    Log2Below(v + 1, 8);
  }

  /** Eight zeros leave room for 45 above 255 only. */
  lemma SizeSecond(b: seq<bit>, p: nat, v: u32)
    requires v <= MAX_MBS_MINUS1 && At(b, p, Ue(v)) && p + 8 < |b| && b[p + 8] == 1
    requires forall i | p <= i < p + 8 :: b[i] == 0
    ensures p + 16 < |b| && b[p + 10] == 0
  {
    hide *;
    Limits();
    var z := SizeLead(b, p, v);
    assert z == 8;
    AtEnd(b, p, Ue(v));
    UeInverts(b, Cur(p, false), v);
    UeWhole(b, Cur(p, false), 8);
    var t := b[p + 9..p + 17];
    assert t[1] == b[p + 10];
    EightBits(t);
  }

  lemma EightBits(t: seq<bit>)
    requires |t| == 8
    ensures Pow2(8) == 256 && 64 * t[1] as int <= Value(t)
  {
    ValueFront(t);
    ValueFront(t[1..]);
    SmallPow();
    assert Pow2(6) == 64 && Pow2(8) == 4 * Pow2(6);
    hide Value, Pow2;
  }

  /** Clear list flags behind the references of a set that is not sparse would make the height too large. */
  lemma NoListsBehind(b: seq<bit>, p: nat, s: nat, si: SpsInfo, x: Refs)
    requires InRange(si) && Stands(b, p, si) && !Sparse(si) && RefsBehind(b, s, si, x) && s + 3 < |b|
    requires s == p + |RefsRest(si)| + 2 + (if si.log2frm != 3 then 8 else 12) && b[p + |RefsRest(si)| + 1] == 1
    ensures !forall i | p + |RefsRest(si)| + 2 <= i < s :: b[i] == 0
  {
    hide *;
    var e := p + |RefsRest(si)|;
    RefsSmall(si);
    RangeParts(si);
    CodesOfSize(si);
    StandsRow(b, p, si);
    RowStands(b, p, RefsRest(si), SizeCode(si), CropCode(si));
    SizeStands(b, e + 1, si);
    var z := SizeLead(b, e + 1, WidthCode(si));
    assert z == 0;
    var h := SizeLead(b, e + 2, HeightCode(si));
    if forall i | e + 2 <= i < s :: b[i] == 0 {
      SizeSecond(b, e + 2, HeightCode(si));
      FirstOne(b, s, si, x);
    }
  }

  /** Behind the references of a sparse set they can only be the eight, and the reference count is 1. */
  lemma ListsBehindOne(b: seq<bit>, p: nat, q: nat, s: nat, si: SpsInfo)
    requires InRange(si) && Stands(b, p, si) && Sparse(si) && At(b, q, Ue(si.maxRef))
    requires p + |RefsRest(si)| == q + |Ue(si.maxRef)| && q + 1 < |b| && b[q + 1] == 1
    requires s == q + 2 + (if si.log2frm != 3 then 8 else 12) && s <= |b| && forall i | q + 2 <= i < s :: b[i] == 0
    ensures si.maxRef == 1 && si.pocType == 0 && s == p + |RefsRest(si)| + 7
  {
    hide *;
    RefsSmall(si);
    RangeParts(si);
    CodesOfSize(si);
    StandsRow(b, p, si);
    RowStands(b, p, RefsRest(si), SizeCode(si), CropCode(si));
    AtElement(b, p + |RefsRest(si)|, [0], 0);
    RefsBits(b, q, si.maxRef);
    SizeStands(b, p + |RefsRest(si)| + 1, si);
    var z := SizeLead(b, p + |RefsRest(si)| + 1, WidthCode(si));
  }

  /** Size code 0 and count type 2: 1011. */
  lemma FirstOne(b: seq<bit>, s: nat, si: SpsInfo, x: Refs)
    requires RefsBehind(b, s, si, x) && si.pocType == 2 && s < |b| && b[s] == 1
    ensures s + 3 < |b| && b[s + 2] == 1
  {
    hide RefsRest, Ue;
  }

  // ---------- no crops come out right ----------

  lemma ApartOf(b: seq<bit>, p: nat, q: nat, s: nat, si: SpsInfo, ones: nat) returns (x: Refs)
    requires InRange(si) && At(b, p, RefsRest(si)) && At(b, s, RefsRest(si)) && p < s <= |b|
    requires Twin(b, p, p + |RefsRest(si)|, s - p) && At(b, p + |RefsRest(si)|, [0])
    requires At(b, q, Ue(si.maxRef)) && q + |Ue(si.maxRef)| == p + |RefsRest(si)| && p <= q <= s
    requires s + |RefsRest(si)| < |b| && ones == Count(b, p, s) + b[s + |RefsRest(si)|] as nat
    ensures Apart(b, p, s - p, si, x, ones)
  {
    hide *;
    var g := p + |RefsRest(si)|;
    AtElement(b, g, [0], 0);
    x := RefsIn(b, s, si);
    CountAt(b, p, RefsRest(si));
    CountAt(b, q, Ue(si.maxRef));
    CountSplit(b, p, q, g);
    CountSplit(b, p, q, s);
    if g < s {
      CountSplit(b, p, g, s);
    }
    ApartIs(b, p, s - p, si, x, ones);
  }

  lemma ApartIs(b: seq<bit>, p: nat, d: nat, si: SpsInfo, x: Refs, ones: nat)
    requires var m := |RefsRest(si)|;
      && InRange(si) && At(b, p, RefsRest(si)) && Twin(b, p, p + m, d) && p + m < |b| && b[p + m] == 0
      && RefsBehind(b, p + d, si, x) && p + d + m < |b|
      && 3 + x.o + x.q + (if m < d then 1 + x.u else 0) + b[p + d + m] as int <= ones
    ensures Apart(b, p, d, si, x, ones)
  {
    hide InRange, At, RefsBehind, RefsRest;
  }

  /** A late reading of a set with crops that gives the set back does so within the string, which it cannot. */
  lemma CropMisread(b: seq<bit>, p: nat, si: SpsInfo)
    requires InRange(si) && si.cropFlag == 1 && Stands(b, p, si)
    ensures var r := Late(b, SkipHigh(b, Cur(p, false)), si); r.si != si || !r.cur.over
  {
    hide *;
    var c := SkipHigh(b, Cur(p, false));
    if Late(b, c, si).si == si && Late(b, c, si).cur.over {
      var m := |RefsRest(si)|;
      StandsRow(b, p, si);
      RowStands(b, p, RefsRest(si), SizeCode(si), CropCode(si));
      RowLonger(b, p, RefsRest(si), SizeCode(si), CropCode(si));
      var q, e := SkipLeads(b, p, si);
      LateInside(b, c, si);
      LateRefs(b, c, si);
      LateIsTwin(b, p, c, si);
      var k, ones := Fitting(b, p, c, si);
      RefsLong(si);
      var x := ApartOf(b, p, q, c.pos, si, ones);
      if b[e + 1] == 1 {
        ListsMisread(b, p, q, e, c, si, x, ones, k);
      } else if !Sparse(si) {
        AnyRefs(b, p, c.pos - p, si, x, ones, k);
      } else {
        RefsSmall(si);
        RefsBits(b, q, si.maxRef);
        if si.maxRef == 0 {
          NoRefs(b, p, c.pos - p, si, x, ones, k);
        } else {
          ManyRefs(b, p, c.pos - p, q, si, x, ones, k);
        }
      }
    }
  }

  lemma RefsLong(si: SpsInfo)
    ensures 3 <= |RefsRest(si)|
  {
    CodeNonempty(si.log2frm);
    CodeNonempty(si.maxRef);
    CodeNonempty(si.pocType);
    hide Ue;
  }

  lemma ListsMisread(b: seq<bit>, p: nat, q: nat, e: nat, c: Cur, si: SpsInfo, x: Refs, ones: nat, k: Tokens)
    requires p < c.pos <= |b| && !c.over && Stands(b, p, si) && Apart(b, p, c.pos - p, si, x, ones)
    requires At(b, q, Ue(si.maxRef)) && q + |Ue(si.maxRef)| == p + |RefsRest(si)|
    requires e == (if Sparse(si) then q else p + |RefsRest(si)|) && p <= e && e + 2 <= c.pos && b[e + 1] == 1
    requires c == SkipLists(b, Cur(e + 2, false), 0, if si.log2frm != 3 then 8 else 12)
    requires 4 <= Count(b, p, e + 2) && Count(b, p, c.pos) <= 5 && c.pos + 3 < |b|
    ensures p + |RefsRest(si)| + 1 <= |b| && !Fits(b[p + |RefsRest(si)| + 1..], ones, k)
  {
    hide *;
    TameAt(b, Cur(e + 2, false));
    CountSplit(b, p, e + 2, c.pos);
    ListsClear(b, Cur(e + 2, false), 0, if si.log2frm != 3 then 8 else 12);
    ApartBits(b, p, c.pos - p, si, x, ones);
    if Sparse(si) {
      ListsBehindOne(b, p, q, c.pos, si);
      OneRef(b, p, c.pos - p, si, x, ones, k);
    } else {
      ApartBehind(b, p, c.pos - p, si, x, ones);
      NoListsBehind(b, p, c.pos, si, x);
    }
  }

  lemma ApartBehind(b: seq<bit>, p: nat, d: nat, si: SpsInfo, x: Refs, ones: nat)
    requires Apart(b, p, d, si, x, ones)
    ensures RefsBehind(b, p + d, si, x)
  {
    hide InRange, At, RefsBehind, RefsRest, Twin;
  }

  // ---------- the exact condition ----------

  /** The parser never gives a high profile set back from the bytes built for it, wherever it stops reading. */
  lemma HighNeverBack(si: SpsInfo)
    requires InRange(si) && HighProfile(si.profile)
    ensures 4 <= |BuildSps(si)| && ParseRbsp(BuildSps(si)).si != si
  {
    hide *;
    HighMisread(si);
    var s := BuildSps(si);
    var b, at := BitsOf(s), Cur(32 + |Ue(si.spsId)|, false);
    if ParseRbsp(s).si == si {
      IdStands(si);
      UeInRange(si);
      UeInverts(b, Cur(32, false), si.spsId);
      HighHead(s, si);
      BuiltStands(si);
      LateParts(b, SkipHigh(b, at), si);
      if si.cropFlag == 0 {
        CroplessMisread(b, at.pos, si);
      } else {
        CropMisread(b, at.pos, si);
      }
    }
  }

  lemma IdStands(si: SpsInfo)
    ensures At(BitsOf(BuildSps(si)), 32, Ue(si.spsId))
  {
    BuiltBits(si);
    hide *;
    BuiltTail(BitsOf(BuildSps(si)), si);
  }

  lemma ProfilesAre(profile: u32)
    ensures HighProfile(profile)
      <==> profile in {44, 83, 86, 100, 110, 118, 122, 128, 134, 135, 138, 139, 244}
  {
  }

  /** Exactly which profiles survive: the set parsed from the bytes built for a set in range is that set if and only if
      its profile is not one of the high ones. */
  lemma ReadsBackIffPlain(si: SpsInfo)
    requires InRange(si)
    ensures ParseSps(BuildSps(si)) == si
      <==> si.profile !in {44, 83, 86, 100, 110, 118, 122, 128, 134, 135, 138, 139, 244}
  {
    hide *;
    ProfilesAre(si.profile);
    if HighProfile(si.profile) {
      HighNeverBack(si);
      CropLength(si);
      BuildFits(si);
      Unstripped(si);
      ParseOfUnstripped(BuildSps(si));
    } else {
      LegalIs(si);
      RoundTrip(si);
    }
  }

  lemma Unstripped(si: SpsInfo)
    requires InRange(si)
    ensures Strip(BuildSps(si)) == BuildSps(si)
  {
    forall i | 0 <= i < |BuildSps(si)| - 2 ensures !EmulationAt(BuildSps(si), i) {
      NoReservedBytes(si, i);
      hide InRange, BuildSps;
    }
    hide *;
    StripIdentity(BuildSps(si));
  }

  lemma LegalIs(si: SpsInfo)
    requires InRange(si) && !HighProfile(si.profile)
    ensures Legal(si)
  {
    hide InRange, HighProfile;
  }
}
