/** The high profiles. The builder leaves out the chroma, bit depth and scaling fields the parser expects there, and
    takes the references for them: read back within the string, no such set comes out as it went in. */
module SpsHigh {
  import opened Words
  import opened Bits
  import opened SpsParse
  import opened SpsTail
  import opened SpsBuild
  import opened SpsRoundTrip
  import opened SpsCanon

  // ---------- reading determines the bits ----------

  lemma {:induction false} ZerosSpan(b: seq<bit>, pos: nat)
    requires pos + Zeros(b, pos) < |b|
    ensures b[pos + Zeros(b, pos)] == 1 && forall i | pos <= i < pos + Zeros(b, pos) :: b[i] == 0
    decreases |b| - pos
  {
    if b[pos] == 0 {
      ZerosSpan(b, pos + 1);
    }
  }

  lemma {:induction false} BitsInside(b: seq<bit>, c: Cur, n: nat, acc: nat)
    requires !ReadBits(b, c, n, acc).cur.over && c.pos <= |b|
    ensures c.pos + n <= |b|
    decreases n
  {
    if n != 0 {
      var r := ReadBit(b, c);
      BitsLocal(b, b, r.cur, n - 1, 2 * acc + r.val);
      BitsInside(b, r.cur, n - 1, 2 * acc + r.val);
    }
  }

  lemma Log2Is(t: nat, z: nat)
    requires Pow2(z) <= t < 2 * Pow2(z)
    ensures Log2(t) == z
  {
    Log2Bounds(t);
    Log2Below(t, z);
    if Log2(t) < z {
      Pow2Grows(Log2(t) + 1, z);
    }
  }

  /** The code of a value whose bits behind the leading one are t. */
  lemma CodeOf(t: seq<bit>, v: u32)
    requires v == Pow2(|t|) - 1 + Value(t) && v < U32_MAX
    ensures Ue(v) == UBits(0, |t|) + ([1] + t)
  {
    hide *;
    UBitsOfValue(t);
    Log2Is(v + 1, |t|);
    LedValue(t);
    UBitsOfValue([1] + t);
    UeCode(v);
  }

  lemma LedValue(t: seq<bit>)
    ensures Value([1] + t) == Pow2(|t|) + Value(t)
  {
    hide *;
    ValueFront([1] + t);
    assert ([1] + t)[1..] == t && ([1] + t)[0] == 1;
  }

  /** Exp-Golomb codes are read off one way only: a value below 0xFFFF read within the string is there as its
      canonical code. */
  lemma UeOnly(b: seq<bit>, c: Cur)
    requires c.pos <= |b| && !ReadUe(b, c).cur.over && ReadUe(b, c).val < UE_ERROR
    ensures var r := ReadUe(b, c); At(b, c.pos, Ue(r.val)) && r.cur == Cur(c.pos + |Ue(r.val)|, false)
  {
    hide Zeros, ReadBits, Pow2, Ue, UBits;
    var z := Zeros(b, c.pos);
    var c1 := if c.pos + z < |b| then Cur(c.pos + z + 1, c.over) else Cur(c.pos + z, true);
    BitsLocal(b, b, c1, z, 0);
    ZerosSpan(b, c.pos);
    BitsInside(b, c1, z, 0);
    var t := b[c1.pos..c1.pos + z];
    ReadBitsAt(b, c1, t, 0);
    CodeOf(t, ReadUe(b, c).val);
    ZeroBits(z);
    CodeStands(b, c.pos, UBits(0, z), t);
  }

  lemma CodeStands(b: seq<bit>, pos: nat, zs: seq<bit>, t: seq<bit>)
    requires pos + |zs| < |b| && b[pos + |zs|] == 1 && At(b, pos + |zs| + 1, t)
    requires forall i | pos <= i < pos + |zs| :: b[i] == 0
    requires forall i | 0 <= i < |zs| :: zs[i] == 0
    ensures At(b, pos, zs + ([1] + t))
  {
    hide *;
    AtIntro(b, pos, zs);
    AtIntro(b, pos + |zs|, [1]);
    AtJoin(b, pos + |zs|, [1], t);
    AtJoin(b, pos, zs, [1] + t);
  }

  lemma AtIntro(b: seq<bit>, pos: nat, code: seq<bit>)
    requires pos + |code| <= |b| && forall i | 0 <= i < |code| :: b[pos + i] == code[i]
    ensures At(b, pos, code)
  {
  }

  // ---------- where the ones are ----------

  /** Every one among the n bits at p has a one d bits further on. */
  predicate Echo(b: seq<bit>, p: nat, n: nat, d: nat) {
    p + n <= |b| && forall i | p <= i < p + n && b[i] == 1 :: i + d < |b| && b[i + d] == 1
  }

  lemma EchoJoin(b: seq<bit>, p: nat, m: nat, n: nat, d: nat)
    requires Echo(b, p, m, d) && Echo(b, p + m, n, d)
    ensures Echo(b, p, m + n, d)
  {
  }

  lemma AtElement(b: seq<bit>, p: nat, code: seq<bit>, i: nat)
    requires At(b, p, code) && i < |code|
    ensures p + i < |b| && b[p + i] == code[i]
  {
    assert b[p..p + |code|][i] == b[p + i];
  }

  lemma EchoOf(b: seq<bit>, p: nat, d: nat, code: seq<bit>)
    requires At(b, p, code) && At(b, p + d, code)
    ensures Echo(b, p, |code|, d)
  {
    forall i | p <= i < p + |code| && b[i] == 1 ensures i + d < |b| && b[i + d] == 1 {
      AtElement(b, p, code, i - p);
      AtElement(b, p + d, code, i - p);
    }
  }

  /** If the only one behind the echoing bits is at e, every one lies a multiple of d before e. */
  lemma {:induction false} Chain(b: seq<bit>, p: nat, n: nat, d: nat, e: nat, i: nat) returns (m: nat)
    requires Echo(b, p, n, d) && p <= i < p + n && b[i] == 1 && 0 < d
    requires forall k | p + n <= k < |b| && b[k] == 1 :: k == e
    ensures i + m * d == e
    decreases p + n - i
  {
    if i + d < p + n {
      var k := Chain(b, p, n, d, e, i + d);
      m := k + 1;
      assert m * d == k * d + d;
    } else {
      m := 1;
      assert b[i + d] == 1 && m * d == d;
    }
  }

  lemma Multiples(m: nat, k: nat, d: nat, gap: nat)
    requires m * d == k * d + gap && 0 < gap
    ensures d <= gap
  {
    var x: int := m - k;
    assert x * d == gap;
    if x < 1 {
      NotPositive(x, d);
    } else {
      MulAtLeast(x, d);
    }
  }

  lemma NotPositive(x: int, d: nat)
    requires x <= 0
    ensures x * d <= 0
  {
  }

  /** So two ones stand at least d apart. */
  lemma Spaced(b: seq<bit>, p: nat, n: nat, d: nat, e: nat, i: nat, j: nat)
    requires Echo(b, p, n, d) && p <= i < j < p + n && b[i] == 1 && b[j] == 1
    requires forall k | p + n <= k < |b| && b[k] == 1 :: k == e
    ensures d <= j - i
  {
    if d != 0 {
      var m := Chain(b, p, n, d, e, i);
      var k := Chain(b, p, n, d, e, j);
      hide Echo;
      Multiples(m, k, d, j - i);
    }
  }

  // ---------- a second reading that agrees ----------

  /** The skipped fields take at least five bits. */
  lemma SkipsFive(b: seq<bit>, c: Cur)
    requires !SkipHigh(b, c).over && c.pos <= |b|
    ensures c.pos + 5 <= SkipHigh(b, c).pos
  {
    hide ReadUe, ReadBit, SkipLists;
    var chroma := ReadUe(b, c);
    UeAtLeastOne(b, c);
    BitLocal(b, b, chroma.cur);
    var c1 := if chroma.val == 3 then ReadBit(b, chroma.cur).cur else chroma.cur;
    UeAtLeastOne(b, c1);
    var luma := ReadUe(b, c1);
    UeAtLeastOne(b, luma.cur);
    var depth := ReadUe(b, luma.cur);
    BitAtLeastOne(b, depth.cur);
    var bypass := ReadBit(b, depth.cur);
    BitAtLeastOne(b, bypass.cur);
    var matrix := ReadBit(b, bypass.cur);
    ListsLocal(b, b, matrix.cur, 0, if chroma.val != 3 then 8 else 12);
  }

  lemma UeAtLeastOne(b: seq<bit>, c: Cur)
    ensures var r := ReadUe(b, c).cur; Forward(c, r) && (!r.over ==> c.pos < r.pos && c.pos < |b|)
  {
    UeLocal(b, b, c);
    hide ReadBits, Zeros, Pow2;
    var z := Zeros(b, c.pos);
    var c1 := if c.pos + z < |b| then Cur(c.pos + z + 1, c.over) else Cur(c.pos + z, true);
    BitsLocal(b, b, c1, if z <= UE_CAP then z else UE_CAP, 0);
  }

  lemma BitAtLeastOne(b: seq<bit>, c: Cur)
    ensures var r := ReadBit(b, c).cur; Forward(c, r) && (!r.over ==> c.pos < r.pos)
  {
  }

  /** A bit read within the string stands there. */
  lemma BitOnly(b: seq<bit>, c: Cur)
    requires !ReadBit(b, c).cur.over
    ensures var r := ReadBit(b, c); r.val < 2 && At(b, c.pos, [r.val]) && r.cur == Cur(c.pos + 1, false)
  {
    assert b[c.pos..c.pos + 1] == [b[c.pos]];
  }

  lemma Bit1Is(x: bit)
    ensures Bit1(x) == [x]
  {
  }

  /** A parse of the references that gives si's values, within the string, found si's codes. */
  lemma RefsOnly(b: seq<bit>, c: Cur, si: SpsInfo)
    requires InRange(si) && c.pos <= |b| && !c.over
    requires var frm := ReadUe(b, c); var poc := ReadPoc(b, frm.cur); var refs := ReadUe(b, poc.cur);
      !refs.cur.over && frm.val == si.log2frm && poc.kind == si.pocType && poc.lsb == si.pocLsb && refs.val == si.maxRef
    ensures var code := Ue(si.log2frm) + (PocCode(si) + Ue(si.maxRef));
      At(b, c.pos, code) && ReadUe(b, ReadPoc(b, ReadUe(b, c).cur).cur).cur == Cur(c.pos + |code|, false)
  {
    hide ReadUe, Ue, At, Shaped;
    var frm := ReadUe(b, c);
    var poc := ReadPoc(b, frm.cur);
    UeLocal(b, b, poc.cur);
    PocLocal(b, b, frm.cur);
    UeOnly(b, c);
    AtEnd(b, c.pos, Ue(si.log2frm));
    PocOnly(b, frm.cur, si);
    AtEnd(b, frm.cur.pos, PocCode(si));
    UeOnly(b, poc.cur);
    AtJoin(b, frm.cur.pos, PocCode(si), Ue(si.maxRef));
    AtJoin(b, c.pos, Ue(si.log2frm), PocCode(si) + Ue(si.maxRef));
  }

  lemma PocOnly(b: seq<bit>, c: Cur, si: SpsInfo)
    requires InRange(si) && c.pos <= |b| && !ReadPoc(b, c).cur.over
    requires ReadPoc(b, c).kind == si.pocType && ReadPoc(b, c).lsb == si.pocLsb
    ensures At(b, c.pos, PocCode(si)) && ReadPoc(b, c).cur == Cur(c.pos + |PocCode(si)|, false)
  {
    hide ReadUe, Ue, At, Shaped, SkipUes;
    var t := ReadUe(b, c);
    if si.pocType == 0 {
      UeLocal(b, b, t.cur);
      UeOnly(b, c);
      AtEnd(b, c.pos, Ue(0));
      UeOnly(b, t.cur);
      AtJoin(b, c.pos, Ue(0), Ue(si.pocLsb));
    } else {
      UeOnly(b, c);
      assert Ue(2) + [] == Ue(2);
    }
  }

  lemma AtEnd(b: seq<bit>, p: nat, code: seq<bit>)
    requires At(b, p, code)
    ensures p + |code| <= |b|
  {
  }

  lemma AtJoin(b: seq<bit>, p: nat, x: seq<bit>, y: seq<bit>)
    requires At(b, p, x) && At(b, p + |x|, y)
    ensures At(b, p, x + y)
  {
    assert b[p..p + |x + y|] == b[p..p + |x|] + b[p + |x|..p + |x| + |y|];
  }

  lemma FlagsOnly(b: seq<bit>, c: Cur, si: SpsInfo)
    requires Shaped(si) && c.pos <= |b| && !ReadFlags(b, c).cur.over
    requires var f := ReadFlags(b, c);
      f.fmbo == si.fmbo && f.mb == si.mbAdaptive && f.d8 == si.direct8x8 && f.crop == si.cropFlag
    ensures At(b, c.pos, FlagsCode(si)) && ReadFlags(b, c).cur == Cur(c.pos + |FlagsCode(si)|, false)
  {
    hide ReadBit, At, UBits, Shaped;
    var fmbo := ReadBit(b, c);
    var mb := if fmbo.val == 0 then ReadBit(b, fmbo.cur) else Read(0, fmbo.cur);
    var d8 := ReadBit(b, mb.cur);
    BitLocal(b, b, d8.cur);
    BitLocal(b, b, mb.cur);
    BitLocal(b, b, fmbo.cur);
    BitOnly(b, c);
    if fmbo.val == 0 {
      BitOnly(b, fmbo.cur);
    }
    BitOnly(b, mb.cur);
    BitOnly(b, d8.cur);
    Bit1Is(si.fmbo);
    Bit1Is(si.mbAdaptive);
    Bit1Is(si.direct8x8);
    Bit1Is(si.cropFlag);
    var tail := Bit1(si.direct8x8) + Bit1(si.cropFlag);
    AtJoin(b, mb.cur.pos, Bit1(si.direct8x8), Bit1(si.cropFlag));
    if fmbo.val == 0 {
      AtJoin(b, fmbo.cur.pos, Bit1(si.mbAdaptive), tail);
      AtJoin(b, c.pos, Bit1(si.fmbo), Bit1(si.mbAdaptive) + tail);
    } else {
      assert [] + tail == tail;
      AtJoin(b, c.pos, Bit1(si.fmbo), tail);
    }
  }

  /** Behind the gaps bit, which the parser skips and the builder writes as 0. */
  function SizeCode(si: SpsInfo): seq<bit> {
    Ue(WidthCode(si)) + (Ue(HeightCode(si)) + FlagsCode(si))
  }

  lemma DimsParts(b: seq<bit>, p: Parsed)
    requires !p.si.ok && ParseDims(b, p).si.ok
    ensures var d, gaps := ParseDims(b, p).si, ReadBit(b, p.cur);
      var w := ReadUe(b, gaps.cur);
      var h := ReadUe(b, w.cur);
      var f := ReadFlags(b, h.cur);
      && w.val <= MAX_MBS_MINUS1 && h.val <= MAX_MBS_MINUS1 && ParseDims(b, p).cur == f.cur
      && d.w == (w.val + 1) * 16 && d.h == (h.val + 1) * (if f.fmbo == 1 then 16 else 32)
      && d.fmbo == f.fmbo && d.mbAdaptive == f.mb && d.direct8x8 == f.d8 && d.cropFlag == f.crop
  {
    hide ReadUe, ReadBit, ReadFlags;
  }

  lemma DimsOnly(b: seq<bit>, p: Parsed, si: SpsInfo)
    requires InRange(si) && p.cur.pos <= |b| && !ParseDims(b, p).cur.over && !p.si.ok
    requires var d := ParseDims(b, p).si;
      && d.ok && d.w == si.w && d.h == si.h && d.fmbo == si.fmbo && d.mbAdaptive == si.mbAdaptive
      && d.direct8x8 == si.direct8x8 && d.cropFlag == si.cropFlag
    ensures At(b, p.cur.pos + 1, SizeCode(si)) && ParseDims(b, p).cur == Cur(p.cur.pos + 1 + |SizeCode(si)|, false)
  {
    hide ReadUe, ReadBit, ReadFlags, ParseDims, Ue, At, Shaped, InRange, WidthCode, HeightCode, FlagsCode;
    RangeParts(si);
    CodesOfSize(si);
    DimsParts(b, p);
    var gaps := ReadBit(b, p.cur);
    var w := ReadUe(b, gaps.cur);
    var h := ReadUe(b, w.cur);
    FlagsLocal(b, b, h.cur);
    UeLocal(b, b, w.cur);
    UeLocal(b, b, gaps.cur);
    BitOnly(b, p.cur);
    AtEnd(b, p.cur.pos, [gaps.val]);
    assert w.val == WidthCode(si) && h.val == HeightCode(si);
    UeOnly(b, gaps.cur);
    AtEnd(b, gaps.cur.pos, Ue(w.val));
    UeOnly(b, w.cur);
    AtEnd(b, w.cur.pos, Ue(h.val));
    FlagsOnly(b, h.cur, si);
    AtJoin(b, w.cur.pos, Ue(h.val), FlagsCode(si));
    AtJoin(b, gaps.cur.pos, Ue(w.val), Ue(h.val) + FlagsCode(si));
  }

  lemma {:induction false} UesOnly(b: seq<bit>, c: Cur, n: nat)
    requires c.pos <= |b| && !c.over && !ReadUes(b, c, n).cur.over
    requires forall v | v in ReadUes(b, c, n).vals :: v < UE_ERROR
    ensures var r := ReadUes(b, c, n); At(b, c.pos, Ues(r.vals)) && r.cur == Cur(c.pos + |Ues(r.vals)|, false)
    decreases n
  {
    hide *;
    if n == 0 {
      NoReads(b, c);
      NoCodes();
      AtNothing(b, c.pos);
    } else {
      OneRead(b, c, n);
      var first := ReadUe(b, c);
      var rest := ReadUes(b, first.cur, n - 1);
      var vals := [first.val] + rest.vals;
      assert first.val in vals;
      assert forall v | v in rest.vals :: v in vals;
      ReadsLocal(b, b, first.cur, n - 1);
      NotOverBefore(first.cur, rest.cur);
      UeOnly(b, c);
      AtEnd(b, c.pos, Ue(first.val));
      UesOnly(b, first.cur, n - 1);
      assert vals[1..] == rest.vals;
      UesOf(vals);
      AtJoin(b, c.pos, Ue(first.val), Ues(rest.vals));
    }
  }

  lemma UesOf(vals: seq<u32>)
    requires vals != []
    ensures Ues(vals) == Ue(vals[0]) + Ues(vals[1..])
  {
    hide Ue;
  }

  lemma AtNothing(b: seq<bit>, p: nat)
    requires p <= |b|
    ensures At(b, p, [])
  {
  }

  lemma NotOverBefore(c: Cur, r: Cur)
    requires Forward(c, r) && !r.over
    ensures !c.over
  {
  }

  // ---------- the two readings side by side ----------

  /** What the skipped fields are read from: the builder's references, behind the set's id. */
  function RefsRest(si: SpsInfo): seq<bit> {
    Ue(si.log2frm) + (PocCode(si) + Ue(si.maxRef))
  }

  lemma CodeOfZeroAndTwo()
    ensures Ue(0) == [1] && Ue(2) == [0, 1, 1]
  {
    UeCode(0);
    UeCode(2);
    assert Log2(1) == 0 && Log2(3) == 1;
    assert UBits(3, 2) == [1, 1] && UBits(1, 1) == [1];
    hide *;
    assert Ue(0) == [Ue(0)[0]];
    assert Ue(2) == [Ue(2)[0], Ue(2)[1], Ue(2)[2]];
  }

  /** In a string whose codes are k zeros, a one and k bits, then 1 or 011, with k at most 3. */
  lemma CloseIn(code: seq<bit>, l: seq<bit>, t: seq<bit>, rest: seq<bit>, k: nat) returns (i: nat, j: nat)
    requires code == l + (t + rest) && |l| == 2 * k + 1 && k <= 3 && l[k] == 1 && (t == [1] || t == [0, 1, 1])
    ensures i < j < |code| && j - i < 5 && code[i] == 1 && code[j] == 1
  {
    if t == [1] {
      i, j := k, 2 * k + 1;
      assert code[j] == t[0];
    } else {
      i, j := 2 * k + 2, 2 * k + 3;
      assert code[i] == t[1] && code[j] == t[2];
    }
  }

  lemma SmallCode(v: u32)
    requires v <= 12
    ensures Log2(v + 1) <= 3 && |Ue(v)| == 2 * Log2(v + 1) + 1 && Ue(v)[Log2(v + 1)] == 1
  {
    SmallPowers();
    Log2Below(v + 1, 3);
    UeCode(v);
    hide *;
  }

  lemma RestParts(si: SpsInfo) returns (rest: seq<bit>)
    ensures RefsRest(si) == Ue(si.log2frm) + (Ue(si.pocType) + rest)
  {
    hide Ue;
    var lsb := if si.pocType == 0 then Ue(si.pocLsb) else [];
    rest := lsb + Ue(si.maxRef);
    assert PocCode(si) + Ue(si.maxRef) == Ue(si.pocType) + (lsb + Ue(si.maxRef));
  }

  lemma RangeParts(si: SpsInfo)
    requires InRange(si)
    ensures si.ok && Shaped(si) && si.log2frm <= 12 && (si.pocType == 0 || si.pocType == 2)
  {
  }

  /** Two ones less than five bits apart: the frame number size and the order count type are too small for more. */
  lemma CloseOnes(b: seq<bit>, p: nat, si: SpsInfo) returns (i: nat, j: nat)
    requires InRange(si) && At(b, p, RefsRest(si))
    ensures p <= i < j < p + |RefsRest(si)| && j - i < 5 && j < |b| && b[i] == 1 && b[j] == 1
  {
    hide *;
    RangeParts(si);
    SmallCode(si.log2frm);
    CodeOfZeroAndTwo();
    var rest := RestParts(si);
    var code := RefsRest(si);
    var x, y := CloseIn(code, Ue(si.log2frm), Ue(si.pocType), rest, Log2(si.log2frm + 1));
    AtElement(b, p, code, x);
    AtElement(b, p, code, y);
    i, j := p + x, p + y;
  }

  lemma FieldsAre(si: SpsInfo)
    ensures FieldBits(si) == HeadCode(si) + (RefsCode(si) + (DimsCode(si) + CropCode(si))) && |HeadCode(si)| == 32
    ensures RefsCode(si) == Ue(si.spsId) + RefsRest(si)
    ensures DimsCode(si) == Bit1(0) + SizeCode(si) && Bit1(0) == [0]
  {
    HeadLength(si);
    Bit1Is(0);
    hide HeadCode, Ue, CropCode, FlagsCode, WidthCode, HeightCode, PocCode, Bit1;
  }

  /** Everything from the references on, as it stands in the built bits. */
  lemma BuiltTail(b: seq<bit>, si: SpsInfo)
    requires At(b, 0, FieldBits(si))
    ensures var p, m := 32 + |Ue(si.spsId)|, |RefsRest(si)|;
      && At(b, 32, Ue(si.spsId)) && At(b, p, RefsRest(si)) && At(b, p + m, Bit1(0)) && At(b, p + m + 1, SizeCode(si))
      && At(b, p + m + 1 + |SizeCode(si)|, CropCode(si))
      && p + m + 1 + |SizeCode(si)| + |CropCode(si)| == |FieldBits(si)|
  {
    FieldsAre(si);
    hide *;
    var id, rest, size := Ue(si.spsId), RefsRest(si), SizeCode(si);
    var refs, dims, crop := RefsCode(si), DimsCode(si), CropCode(si);
    AtSplit(b, 0, HeadCode(si), refs + (dims + crop));
    AtSplit(b, 32, refs, dims + crop);
    AtSplit(b, 32 + |refs|, dims, crop);
    AtSplit(b, 32, id, rest);
    AtSplit(b, 32 + |refs|, Bit1(0), size);
  }

  /** Behind the fields only the stop bit is a one. */
  lemma OnlyStop(si: SpsInfo)
    ensures var b, n := Padded(BodyBits(si)), |FieldBits(si)|;
      forall k | n <= k < |b| && b[k] == 1 :: k == n + 1
  {
    var f, e := FieldBits(si), Bit1(0) + Bit1(1);
    Bit1Is(0);
    Bit1Is(1);
    assert BodyBits(si) == f + e && e == [0, 1];
    hide FieldBits, Bit1, UBits;
  }

  lemma CropOnly(b: seq<bit>, p: Parsed, si: SpsInfo)
    requires InRange(si) && p.cur.pos <= |b| && !p.cur.over && p.si.ok && p.si.cropFlag == si.cropFlag
    requires ParseCrop(b, p).si.crop == si.crop && !ParseCrop(b, p).cur.over
    ensures At(b, p.cur.pos, CropCode(si))
  {
    hide ReadUes, Ues, At, Shaped;
    if si.cropFlag == 1 {
      UesOnly(b, p.cur, 4);
    } else {
      AtNothing(b, p.cur.pos);
    }
  }

  lemma LateFields(b: seq<bit>, head: Parsed, si: SpsInfo)
    requires si.ok && !head.si.ok && ParseCrop(b, ParseDims(b, head)).si == si
    ensures var d := ParseDims(b, head).si;
      && d.ok && d.w == si.w && d.h == si.h && d.fmbo == si.fmbo && d.mbAdaptive == si.mbAdaptive
      && d.direct8x8 == si.direct8x8 && d.cropFlag == si.cropFlag
      && head.si.log2frm == si.log2frm && head.si.pocType == si.pocType && head.si.pocLsb == si.pocLsb
      && head.si.maxRef == si.maxRef
  {
    DimsWritable(b, head);
    hide ParseDims, ReadUes;
  }

  /** If a parse that takes up the references at q still gives si, si's codes stand there too. */
  lemma LateCopy(b: seq<bit>, q: nat, head: Parsed, si: SpsInfo)
    requires InRange(si) && q <= |b| && head == LateHead(b, Cur(q, false), si)
    requires var r := ParseCrop(b, ParseDims(b, head)); r.si == si && !r.cur.over
    ensures var m := |RefsRest(si)|;
      At(b, q, RefsRest(si)) && At(b, q + m + 1, SizeCode(si)) && At(b, q + m + 1 + |SizeCode(si)|, CropCode(si))
  {
    hide ReadUe, ReadPoc, ParseDims, ParseCrop, At, InRange, PocCode, Ue, CropCode, SizeCode;
    RangeParts(si);
    var dims := ParseDims(b, head);
    LateFields(b, head, si);
    CropLocal(b, b, dims);
    DimsLocal(b, b, head);
    RefsOnly(b, Cur(q, false), si);
    AtEnd(b, q, RefsRest(si));
    DimsOnly(b, head, si);
    AtEnd(b, head.cur.pos + 1, SizeCode(si));
    CropOnly(b, dims, si);
  }

  /** The head that results when the references are read from c on. */
  function LateHead(b: seq<bit>, c: Cur, si: SpsInfo): Parsed {
    var frm := ReadUe(b, c);
    var poc := ReadPoc(b, frm.cur);
    var refs := ReadUe(b, poc.cur);
    Parsed(BLANK.(profile := si.profile, constraint := si.constraint, level := si.level, spsId := si.spsId,
                  log2frm := frm.val, pocType := poc.kind, pocLsb := poc.lsb, maxRef := refs.val), refs.cur)
  }

  // ---------- the exact condition ----------

  lemma OverBefore(b: seq<bit>, c: Cur, si: SpsInfo)
    requires !ParseCrop(b, ParseDims(b, LateHead(b, c, si))).cur.over
    ensures !c.over && c.pos < |b|
  {
    hide ReadUe, ReadPoc, ParseDims, ParseCrop;
    var frm := ReadUe(b, c);
    var poc := ReadPoc(b, frm.cur);
    var head := LateHead(b, c, si);
    CropLocal(b, b, ParseDims(b, head));
    DimsLocal(b, b, head);
    UeLocal(b, b, poc.cur);
    PocLocal(b, b, frm.cur);
    UeAtLeastOne(b, c);
  }

  /** A second copy of si's codes could only stand fewer than five bits behind the first. */
  lemma LateCopyNear(si: SpsInfo, q: nat)
    requires InRange(si) && 32 + |Ue(si.spsId)| < q
    requires var b, m := Padded(BodyBits(si)), |RefsRest(si)|;
      At(b, q, RefsRest(si)) && At(b, q + m + 1, SizeCode(si)) && At(b, q + m + 1 + |SizeCode(si)|, CropCode(si))
    ensures q < 32 + |Ue(si.spsId)| + 5
  {
    var b, p := Padded(BodyBits(si)), 32 + |Ue(si.spsId)|;
    BuiltBits(si);
    OnlyStop(si);
    hide *;
    BuiltTail(b, si);
    var d, m, n := q - p, |RefsRest(si)|, |SizeCode(si)|;
    EchoOf(b, p, d, RefsRest(si));
    EchoOfZero(b, p + m, d);
    EchoJoin(b, p, m, 1, d);
    EchoOf(b, p + m + 1, d, SizeCode(si));
    EchoJoin(b, p, m + 1, n, d);
    EchoOf(b, p + m + 1 + n, d, CropCode(si));
    EchoJoin(b, p, m + 1 + n, |CropCode(si)|, d);
    var i, j := CloseOnes(b, p, si);
    Spaced(b, p, m + 1 + n + |CropCode(si)|, d, |FieldBits(si)| + 1, i, j);
  }

  lemma EchoOfZero(b: seq<bit>, p: nat, d: nat)
    requires At(b, p, Bit1(0))
    ensures Echo(b, p, 1, d)
  {
    Bit1Is(0);
    assert b[p..p + 1][0] == b[p];
  }

  /** A high profile never reads back within the string: some field is wrong, or the parser ran off the end. */
  lemma HighMisread(si: SpsInfo)
    requires InRange(si) && HighProfile(si.profile)
    ensures 4 <= |BuildSps(si)|
    ensures var r := ParseRbsp(BuildSps(si)); r.si != si || r.cur.over
  {
    BuiltBits(si);
    hide *;
    var s := BuildSps(si);
    var b, r := BitsOf(s), ParseRbsp(s);
    BuiltTail(b, si);
    RangeParts(si);
    UeInRange(si);
    UeInverts(b, Cur(32, false), si.spsId);
    if r.si == si && !r.cur.over {
      var at := Cur(32 + |Ue(si.spsId)|, false);
      var c := SkipHigh(b, at);
      HighHead(s, si);
      OverBefore(b, c, si);
      AtEnd(b, 32, Ue(si.spsId));
      SkipsFive(b, at);
      LateCopy(b, c.pos, LateHead(b, c, si), si);
      LateCopyNear(si, c.pos);
    }
  }

  lemma UeInRange(si: SpsInfo)
    requires InRange(si)
    ensures si.spsId < 0x1FF_FFFF
  {
    hide Shaped;
  }

  lemma HighHead(s: seq<byte>, si: SpsInfo)
    requires 4 <= |s| && ParseRbsp(s).si == si && HighProfile(si.profile)
    requires ReadUe(BitsOf(s), Cur(32, false)) == Read(si.spsId, Cur(32 + |Ue(si.spsId)|, false))
    ensures var b := BitsOf(s); var c := SkipHigh(b, Cur(32 + |Ue(si.spsId)|, false));
      ParseRbsp(s) == ParseCrop(b, ParseDims(b, LateHead(b, c, si)))
  {
    hide BitsOf, HighProfile, ReadUe, ReadPoc, ParseDims, ReadUes, Ue, SkipHigh, ParseHead;
    var b := BitsOf(s);
    var head := ParseHead(b, s[1], s[2], s[3]);
    HeadWritable(b, s[1], s[2], s[3]);
    DimsWritable(b, head);
    HeadIsLate(b, s[1], s[2], s[3], si);
  }

  lemma HeadIsLate(b: seq<bit>, profile: u32, constraint: u32, level: u32, si: SpsInfo)
    requires HighProfile(profile) && ReadUe(b, Cur(32, false)).val == si.spsId
    requires si.profile == profile && si.constraint == constraint && si.level == level
    ensures ParseHead(b, profile, constraint, level) == LateHead(b, SkipHigh(b, ReadUe(b, Cur(32, false)).cur), si)
  {
    hide HighProfile, ReadUe, ReadPoc, SkipHigh;
  }
}
