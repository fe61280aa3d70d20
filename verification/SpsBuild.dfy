/** The synthesis of a canonical sequence parameter set from parsed fields. */
module SpsBuild {
  import opened Words
  import opened Bits
  import opened SpsParse

  const NAL_SPS: u32 := 0x67

  // ---------- the bits to write ----------

  function Bit1(x: bit): seq<bit> {
    UBits(x, 1)
  }

  function Ues(vals: seq<u32>): seq<bit> {
    if vals == [] then [] else Ue(vals[0]) + Ues(vals[1..])
  }

  function HeadCode(si: SpsInfo): seq<bit> {
    UBits(NAL_SPS, 8) + (UBits(si.profile, 8) + (UBits(si.constraint, 8) + UBits(si.level, 8)))
  }

  function WidthCode(si: SpsInfo): u32 {
    Low32(si.w / 16 - 1)
  }

  function HeightCode(si: SpsInfo): u32 {
    Low32((if si.fmbo == 1 then si.h else si.h / 2) / 16 - 1)
  }

  function PocCode(si: SpsInfo): seq<bit> {
    Ue(si.pocType) + if si.pocType == 0 then Ue(si.pocLsb) else []
  }

  function FlagsCode(si: SpsInfo): seq<bit> {
    Bit1(si.fmbo) + ((if si.fmbo == 0 then Bit1(si.mbAdaptive) else []) + (Bit1(si.direct8x8) + Bit1(si.cropFlag)))
  }

  function CropCode(si: SpsInfo): seq<bit> {
    if si.cropFlag == 1 then Ues(si.crop) else []
  }

  /** gaps_in_frame_num is always 0. */
  function DimsCode(si: SpsInfo): seq<bit> {
    Bit1(0) + (Ue(WidthCode(si)) + (Ue(HeightCode(si)) + FlagsCode(si)))
  }

  function RefsCode(si: SpsInfo): seq<bit> {
    Ue(si.spsId) + (Ue(si.log2frm) + (PocCode(si) + Ue(si.maxRef)))
  }

  /** Everything the parser reads back. */
  function FieldBits(si: SpsInfo): seq<bit> {
    HeadCode(si) + (RefsCode(si) + (DimsCode(si) + CropCode(si)))
  }

  /** The fields, no VUI, the stop bit. */
  function BodyBits(si: SpsInfo): seq<bit> {
    FieldBits(si) + (Bit1(0) + Bit1(1))
  }

  function Padded(b: seq<bit>): (r: seq<bit>)
    ensures |r| % 8 == 0 && b <= r && |r| < |b| + 8
    ensures forall i | |b| <= i < |r| :: r[i] == 0
  {
    b + seq((8 - |b| % 8) % 8, _ => 0)
  }

  function BuildSps(si: SpsInfo): seq<byte> {
    Packed(Padded(BodyBits(si)))
  }

  // ---------- the code ----------

  /** Setting bit i of byte k is setting bit 8k + i of the string. */
  lemma SetOneBit(s: seq<byte>, p: nat)
    requires p < 8 * |s|
    ensures BitsOf(s[p / 8 := WithBit(s[p / 8], p % 8)]) == BitsOf(s)[p := 1]
  {
    var k, i := p / 8, p % 8;
    var t := s[k := WithBit(s[k], i)];
    WithBitSets(s[k], i);
    hide WithBit, BitsOf, UBits, Shr;
    forall q | 0 <= q < 8 * |s| ensures BitsOf(t)[q] == BitsOf(s)[p := 1][q] {
      var m, j := q / 8, q % 8;
      BitsOfOctet(s, m);
      BitsOfOctet(t, m);
      assert BitsOf(t)[8 * m..8 * m + 8][j] == BitsOf(t)[q];
      assert BitsOf(s)[8 * m..8 * m + 8][j] == BitsOf(s)[q];
    }
  }

  /** A byte buffer written bit by bit; the bits behind pos are still clear. */
  class BitWriter {
    const out: array<byte>
    var pos: nat

    ghost predicate Valid()
      reads this, out
    {
      pos <= 8 * out.Length && forall p | pos <= p < 8 * out.Length :: BitsOf(out[..])[p] == 0
    }

    ghost function Written(): (b: seq<bit>)
      requires Valid()
      reads this, out
      ensures |b| == pos
    {
      BitsOf(out[..])[..pos]
    }

    constructor (size: nat)
      ensures Valid() && fresh(out) && out.Length == size && pos == 0
    {
      out := new byte[size](_ => 0);
      pos := 0;
      new;
      AllClear(out[..]);
    }

    /** One iteration of the writer's loop. */
    method PutBit(one: bool)
      requires Valid() && pos < 8 * out.Length
      modifies this, out
      ensures Valid() && Written() == old(Written()) + [if one then 1 else 0]
    {
      hide BitsOf, WithBit;
      ghost var before := BitsOf(out[..]);
      SetOneBit(out[..], pos);
      if one {
        out[pos / 8] := WithBit(out[pos / 8], pos % 8);
        assert out[..] == old(out[..])[pos / 8 := WithBit(old(out[..])[pos / 8], pos % 8)];
        assert BitsOf(out[..]) == before[pos := 1];
      } else {
        assert out[..] == old(out[..]);
      }
      assert BitsOf(out[..])[pos] == if one then 1 else 0;
      pos := pos + 1;
      assert BitsOf(out[..])[..pos] == before[..pos - 1] + [if one then 1 else 0];
    }

    method Put(v: u32, n: nat)
      requires Valid() && n <= 32 && pos + n <= 8 * out.Length
      modifies this, out
      ensures Valid() && Written() == old(Written()) + UBits(v, n)
    {
      hide BitsOf, UBits;
      ghost var code := UBits(v, n);
      var left := n;
      assert Written() + code[..0] == Written();
      while left != 0
        invariant 0 <= left <= n && Valid() && pos == old(pos) + (n - left)
        invariant Written() == old(Written()) + code[..n - left]
      {
        left := left - 1;
        UBitsAt(v, n, n - 1 - left);
        PutBit(Shr(v, left) % 2 == 1);
        assert code[..n - left] == code[..n - left - 1] + [code[n - left - 1]];
      }
      assert code[..n] == code;
    }

    method PutUe(v: u32)
      requires Valid() && pos + 63 <= 8 * out.Length
      modifies this, out
      ensures Valid() && Written() == old(Written()) + Ue(v) && pos <= old(pos) + 63
    {
      hide BitsOf, UBits;
      var n, t := 0, Low32(v + 1);
      ghost var top := t;
      Low32Log(top);
      while 1 < t
        invariant Log2(top) == n + Log2(t)
        decreases t
      {
        t := t / 2;
        n := n + 1;
      }
      Put(0, n);
      Put(Low32(v + 1), n + 1);
      assert Ue(v) == UBits(0, n) + UBits(top, n + 1);
    }
  }

  lemma AllClear(s: seq<byte>)
    requires forall k | 0 <= k < |s| :: s[k] == 0
    ensures forall p | 0 <= p < 8 * |s| :: BitsOf(s)[p] == 0
  {
    forall p | 0 <= p < 8 * |s| ensures BitsOf(s)[p] == 0 {
      ShrOfZero(7 - p % 8);
    }
  }

  lemma {:induction false} ShrOfZero(n: nat)
    ensures Shr(0, n) == 0
  {
    if n != 0 {
      ShrOfZero(n - 1);
    }
  }

  lemma Low32Log(t: u32)
    ensures Log2(t) <= 31
  {
    Pow2Of25();
    assert Pow2(26) == 2 * Pow2(25) && Pow2(28) == 4 * Pow2(26) && Pow2(30) == 4 * Pow2(28) && Pow2(32) == 4 * Pow2(30);
    Log2Below(t, 31);
  }

  /** The NAL header byte is stored whole. */
  method PutNalHeader(w: BitWriter)
    requires w.Valid() && w.pos == 0 && 0 < w.out.Length
    modifies w, w.out
    ensures w.Valid() && w.Written() == UBits(NAL_SPS, 8)
  {
    hide BitsOf, UBits;
    ghost var before := w.out[..];
    w.out[0] := NAL_SPS;
    w.pos := 8;
    FirstByte(before, w.out[..]);
  }

  lemma FirstByte(s: seq<byte>, t: seq<byte>)
    requires 0 < |s| && t == s[0 := NAL_SPS]
    ensures BitsOf(t)[..8] == UBits(NAL_SPS, 8)
    ensures forall p | 8 <= p < 8 * |s| :: BitsOf(t)[p] == BitsOf(s)[p]
  {
    BitsOfOctet(t, 0);
    hide UBits;
    assert BitsOf(t)[..8] == BitsOf(t)[8 * 0..8 * 0 + 8];
    forall p | 8 <= p < 8 * |s| ensures BitsOf(t)[p] == BitsOf(s)[p] {
      assert t[p / 8] == s[p / 8];
    }
  }

  method PutRefs(w: BitWriter, si: SpsInfo)
    requires w.Valid() && w.pos + 315 <= 8 * w.out.Length
    modifies w, w.out
    ensures w.Valid() && w.Written() == old(w.Written()) + RefsCode(si) && w.pos <= old(w.pos) + 315
  {
    hide BitsOf, Ue;
    ghost var b := w.Written();
    w.PutUe(si.spsId);
    w.PutUe(si.log2frm);
    ghost var c := w.Written();
    w.PutUe(si.pocType);
    if si.pocType == 0 {
      w.PutUe(si.pocLsb);
    }
    assert w.Written() == c + PocCode(si);
    w.PutUe(si.maxRef);
    Assoc4(b, Ue(si.spsId), Ue(si.log2frm), PocCode(si), Ue(si.maxRef));
  }

  lemma Assoc4(b: seq<bit>, x: seq<bit>, y: seq<bit>, z: seq<bit>, u: seq<bit>)
    ensures b + x + y + z + u == b + (x + (y + (z + u)))
  {
  }

  method PutFlags(w: BitWriter, si: SpsInfo)
    requires w.Valid() && w.pos + 4 <= 8 * w.out.Length
    modifies w, w.out
    ensures w.Valid() && w.Written() == old(w.Written()) + FlagsCode(si) && w.pos <= old(w.pos) + 4
  {
    hide BitsOf, UBits;
    ghost var b := w.Written();
    w.Put(si.fmbo, 1);
    ghost var mb := if si.fmbo == 0 then Bit1(si.mbAdaptive) else [];
    if si.fmbo == 0 {
      w.Put(si.mbAdaptive, 1);
    }
    assert w.Written() == b + Bit1(si.fmbo) + mb;
    w.Put(si.direct8x8, 1);
    w.Put(si.cropFlag, 1);
    Assoc4(b, Bit1(si.fmbo), mb, Bit1(si.direct8x8), Bit1(si.cropFlag));
  }

  method PutDims(w: BitWriter, si: SpsInfo)
    requires w.Valid() && w.pos + 131 <= 8 * w.out.Length
    modifies w, w.out
    ensures w.Valid() && w.Written() == old(w.Written()) + DimsCode(si) && w.pos <= old(w.pos) + 131
  {
    hide BitsOf, UBits, Ue, FlagsCode;
    ghost var b := w.Written();
    w.Put(0, 1);
    w.PutUe(Low32(si.w / 16 - 1));
    w.PutUe(Low32((if si.fmbo == 1 then si.h else si.h / 2) / 16 - 1));
    PutFlags(w, si);
    Assoc4(b, Bit1(0), Ue(WidthCode(si)), Ue(HeightCode(si)), FlagsCode(si));
  }

  method PutCrop(w: BitWriter, si: SpsInfo)
    requires w.Valid() && |si.crop| == 4 && w.pos + 252 <= 8 * w.out.Length
    modifies w, w.out
    ensures w.Valid() && w.Written() == old(w.Written()) + CropCode(si) && w.pos <= old(w.pos) + 252
  {
    hide BitsOf, Ue;
    ghost var b := w.Written();
    if si.cropFlag == 1 {
      w.PutUe(si.crop[0]);
      w.PutUe(si.crop[1]);
      w.PutUe(si.crop[2]);
      w.PutUe(si.crop[3]);
      FourCodes(si.crop);
      Assoc4(b, Ue(si.crop[0]), Ue(si.crop[1]), Ue(si.crop[2]), Ue(si.crop[3]));
    } else {
      assert b + [] == b;
    }
  }

  lemma FourCodes(v: seq<u32>)
    requires |v| == 4
    ensures Ues(v) == Ue(v[0]) + (Ue(v[1]) + (Ue(v[2]) + Ue(v[3])))
  {
    hide Ue;
    assert v[1..][1..][1..] == [v[3]] && v[1..][1..] == [v[2], v[3]] && v[1..] == [v[1], v[2], v[3]];
    assert Ues([v[3]]) == Ue(v[3]) + [] by {
      assert [v[3]][1..] == [];
    }
    assert Ues([v[2], v[3]]) == Ue(v[2]) + Ues([v[3]]);
    assert Ues([v[1], v[2], v[3]]) == Ue(v[1]) + Ues([v[2], v[3]]);
  }

  method PutHead(w: BitWriter, si: SpsInfo)
    requires w.Valid() && w.pos == 0 && 32 <= 8 * w.out.Length
    modifies w, w.out
    ensures w.Valid() && w.Written() == HeadCode(si) && w.pos == 32
  {
    hide BitsOf, UBits;
    PutNalHeader(w);
    w.Put(si.profile, 8);
    w.Put(si.constraint, 8);
    w.Put(si.level, 8);
    Assoc4([], UBits(NAL_SPS, 8), UBits(si.profile, 8), UBits(si.constraint, 8), UBits(si.level, 8));
  }

  method PutOne(w: BitWriter, x: bit)
    requires w.Valid() && w.pos < 8 * w.out.Length
    modifies w, w.out
    ensures w.Valid() && w.pos == old(w.pos) + 1 && w.Written() == old(w.Written()) + [x] && Bit1(x) == [x]
  {
    hide BitsOf;
    w.Put(x, 1);
  }

  method PutTrailer(w: BitWriter)
    requires w.Valid() && w.pos + 9 <= 8 * w.out.Length
    modifies w, w.out
    ensures w.Valid() && w.Written() == Padded(old(w.Written()) + (Bit1(0) + Bit1(1)))
  {
    hide *;
    ghost var b := w.Written();
    PutOne(w, 0);
    PutOne(w, 1);
    ghost var body := b + (Bit1(0) + Bit1(1));
    assert b + ([0] + [1]) == b + [0] + [1];
    PadEnds(body, w.pos);
    while w.pos % 8 != 0
      invariant w.Valid() && |body| <= w.pos <= |Padded(body)| <= 8 * w.out.Length
      invariant w.Written() == Padded(body)[..w.pos]
      decreases |Padded(body)| - w.pos
    {
      PadEnds(body, w.pos);
      PutOne(w, 0);
    }
    PadEnds(body, w.pos);
  }

  /** Padding starts with what is padded, goes on with a zero at every place but the last, a multiple of eight. */
  lemma PadEnds(b: seq<bit>, q: nat)
    requires |b| <= q <= |Padded(b)|
    ensures q == |b| ==> Padded(b)[..q] == b
    ensures if q % 8 == 0 then q == |Padded(b)| && Padded(b)[..q] == Padded(b)
            else q < |Padded(b)| && Padded(b)[..q + 1] == Padded(b)[..q] + [0]
    ensures forall n | |b| <= 8 * n :: |Padded(b)| <= 8 * n
  {
    hide Padded;
  }

  /** The builder: never leaves its 256-byte buffer, for any field values. */
  method Build(si: SpsInfo) returns (nal: seq<byte>)
    requires |si.crop| == 4
    ensures nal == BuildSps(si) && |nal| <= NAL_BUF_MAX
  {
    var w := new BitWriter(NAL_BUF_MAX);
    PutAll(w, si);
    hide BitsOf, BodyBits, Padded;
    nal := w.out[..w.pos / 8];
    PrefixBits(w.out[..], w.pos / 8);
    BitsOfInjective(nal, BuildSps(si));
  }

  method PutAll(w: BitWriter, si: SpsInfo)
    requires |si.crop| == 4 && w.Valid() && w.pos == 0 && w.out.Length == NAL_BUF_MAX
    modifies w, w.out
    ensures w.Valid() && w.Written() == Padded(BodyBits(si))
  {
    hide BitsOf, HeadCode, RefsCode, DimsCode, CropCode, Padded, UBits;
    PutHead(w, si);
    PutRefs(w, si);
    PutDims(w, si);
    PutCrop(w, si);
    AssocBody(HeadCode(si), RefsCode(si), DimsCode(si), CropCode(si));
    PutTrailer(w);
  }

  lemma AssocBody(x: seq<bit>, y: seq<bit>, z: seq<bit>, u: seq<bit>)
    ensures x + y + z + u == x + (y + (z + u))
  {
  }

  lemma PrefixBits(s: seq<byte>, n: nat)
    requires n <= |s|
    ensures BitsOf(s[..n]) == BitsOf(s)[..8 * n]
  {
    forall p | 0 <= p < 8 * n ensures BitsOf(s[..n])[p] == BitsOf(s)[p] {
      assert s[..n][p / 8] == s[p / 8];
    }
  }
}
