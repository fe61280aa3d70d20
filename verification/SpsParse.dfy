/** The sequence parameter set parser (ITU-T H.264 sections 7.3.1 and 7.3.2.1.1), as the reader runs it. */
module SpsParse {
  import opened Words
  import opened Bits

  const NAL_BUF_MAX: nat := 256
  const MAX_MBS_MINUS1: nat := 300
  const POC_UNSUPPORTED: u32 := 9

  const NAL_SPS_TYPE: nat := 7

  /** The numbers behind the names, for proofs that look into no definition. */
  lemma Limits()
    ensures UE_CAP == 24 && UE_ERROR == 0xFFFF && MAX_MBS_MINUS1 == 300 && NAL_BUF_MAX == 256
  {
  }

  /** The unit type, the five low bits of the header byte. */
  function NalType(nal: seq<byte>): nat
    requires nal != []
  {
    nal[0] % 32
  }

  datatype SpsInfo = SpsInfo(profile: u32, constraint: u32, level: u32, spsId: u32, log2frm: u32,
                             pocType: u32, pocLsb: u32, maxRef: u32, w: u32, h: u32,
                             fmbo: bit, mbAdaptive: bit, direct8x8: bit, cropFlag: bit,
                             crop: seq<u32>, ok: bool)

  const BLANK: SpsInfo := SpsInfo(0, 0, 0, 0, 0, 0, 0, 0, 0, 0, 0, 0, 0, 0, [0, 0, 0, 0], false)

  // ---------- emulation prevention ----------

  /** One byte of the strip: a 3 is dropped when the last two bytes kept are zero. */
  function StripStep(kept: seq<byte>, b: byte): seq<byte> {
    if 2 <= |kept| && kept[|kept| - 1] == 0 && kept[|kept| - 2] == 0 && b == 3 then kept else kept + [b]
  }

  function Strip(d: seq<byte>): (s: seq<byte>)
    ensures |s| <= |d|
  {
    if d == [] then [] else StripStep(Strip(d[..|d| - 1]), d[|d| - 1])
  }

  /** Three bytes that the strip, or the standard's, could react to. */
  predicate EmulationAt(d: seq<byte>, i: nat)
    requires i + 2 < |d|
  {
    d[i] == 0 && d[i + 1] == 0 && d[i + 2] == 3
  }

  lemma {:induction false} StripIdentity(d: seq<byte>)
    requires forall i | 0 <= i < |d| - 2 :: !EmulationAt(d, i)
    ensures Strip(d) == d
  {
    hide StripStep, EmulationAt;
    if d != [] {
      var n := |d| - 1;
      PrefixClean(d, n);
      StripIdentity(d[..n]);
      NoEmulationAtEnd(d);
      assert d == d[..n] + [d[n]];
    }
  }

  lemma PrefixClean(d: seq<byte>, n: nat)
    requires n <= |d| && forall i | 0 <= i < |d| - 2 :: !EmulationAt(d, i)
    ensures forall i | 0 <= i < |d[..n]| - 2 :: !EmulationAt(d[..n], i)
  {
    forall i | 0 <= i < |d[..n]| - 2 ensures !EmulationAt(d[..n], i) {
      assert !EmulationAt(d, i);
    }
  }

  lemma NoEmulationAtEnd(d: seq<byte>)
    requires d != [] && forall i | 0 <= i < |d| - 2 :: !EmulationAt(d, i)
    ensures StripStep(d[..|d| - 1], d[|d| - 1]) == d[..|d| - 1] + [d[|d| - 1]]
  {
    if 3 <= |d| {
      assert !EmulationAt(d, |d| - 3);
    }
  }

  lemma {:induction false} StripMonotone(d: seq<byte>, k: nat)
    requires k <= |d|
    ensures Strip(d[..k]) <= Strip(d)
    decreases |d|
  {
    if k < |d| {
      var n := |d| - 1;
      StripMonotone(d[..n], k);
      assert d[..n][..k] == d[..k];
    } else {
      assert d[..k] == d;
    }
  }

  // ---------- the syntax, as functions of the bits ----------

  predicate HighProfile(profile: u32) {
    || profile == 100 || profile == 110 || profile == 122 || profile == 244 || profile == 44 || profile == 83
    || profile == 86 || profile == 118 || profile == 128 || profile == 138 || profile == 139 || profile == 134
    || profile == 135
  }

  /** One scaling list of `left` more entries. */
  function SkipList(b: seq<bit>, c: Cur, left: nat, last: nat, nxt: nat): Cur
    decreases left
  {
    if left == 0 then c
    else if nxt == 0 then SkipList(b, c, left - 1, last, nxt)
    else
      var r := ReadUe(b, c);
      var n := (last + r.val) % 256;
      SkipList(b, r.cur, left - 1, if n != 0 then n else last, n)
  }

  function SkipLists(b: seq<bit>, c: Cur, m: nat, total: nat): Cur
    decreases total - m
  {
    if total <= m then c
    else
      var r := ReadBit(b, c);
      SkipLists(b, if r.val == 1 then SkipList(b, r.cur, if m < 6 then 16 else 64, 8, 8) else r.cur, m + 1, total)
  }

  /** The fields only the high profiles carry. */
  function SkipHigh(b: seq<bit>, c: Cur): Cur {
    var chroma := ReadUe(b, c);
    var c1 := if chroma.val == 3 then ReadBit(b, chroma.cur).cur else chroma.cur;
    var luma := ReadUe(b, c1);
    var depth := ReadUe(b, luma.cur);
    var bypass := ReadBit(b, depth.cur);
    var matrix := ReadBit(b, bypass.cur);
    if matrix.val == 1 then SkipLists(b, matrix.cur, 0, if chroma.val != 3 then 8 else 12) else matrix.cur
  }

  function SkipUes(b: seq<bit>, c: Cur, n: nat): Cur
    decreases n
  {
    if n == 0 then c else SkipUes(b, ReadUe(b, c).cur, n - 1)
  }

  datatype Poc = Poc(kind: u32, lsb: u32, cur: Cur)

  function CycleCap(n: nat): nat {
    if n < 255 then n else 255
  }

  function ReadPoc(b: seq<bit>, c: Cur): Poc {
    var t := ReadUe(b, c);
    if t.val == 0 then
      var lsb := ReadUe(b, t.cur);
      Poc(0, lsb.val, lsb.cur)
    else if t.val == 1 then
      var flag := ReadBit(b, t.cur);
      var nonref := ReadUe(b, flag.cur);
      var field := ReadUe(b, nonref.cur);
      var cycle := ReadUe(b, field.cur);
      Poc(POC_UNSUPPORTED, 0, SkipUes(b, cycle.cur, CycleCap(cycle.val)))
    else
      Poc(t.val, 0, t.cur)
  }

  datatype Parsed = Parsed(si: SpsInfo, cur: Cur)

  /** From the profile bytes to the reference count. */
  function ParseHead(b: seq<bit>, profile: u32, constraint: u32, level: u32): Parsed {
    var id := ReadUe(b, Cur(32, false));
    var c1 := if HighProfile(profile) then SkipHigh(b, id.cur) else id.cur;
    var frm := ReadUe(b, c1);
    var poc := ReadPoc(b, frm.cur);
    var refs := ReadUe(b, poc.cur);
    Parsed(BLANK.(profile := profile, constraint := constraint, level := level, spsId := id.val,
                  log2frm := frm.val, pocType := poc.kind, pocLsb := poc.lsb, maxRef := refs.val), refs.cur)
  }

  datatype Flags = Flags(fmbo: bit, mb: bit, d8: bit, crop: bit, cur: Cur)

  function ReadFlags(b: seq<bit>, c: Cur): Flags {
    var fmbo := ReadBit(b, c);
    var mb := if fmbo.val == 0 then ReadBit(b, fmbo.cur) else Read(0, fmbo.cur);
    var d8 := ReadBit(b, mb.cur);
    var crop := ReadBit(b, d8.cur);
    Flags(fmbo.val, mb.val, d8.val, crop.val, crop.cur)
  }

  /** Dimensions and flags; too large a dimension ends the parse. */
  function ParseDims(b: seq<bit>, p: Parsed): (r: Parsed) {
    var gaps := ReadBit(b, p.cur);
    var w := ReadUe(b, gaps.cur);
    var h := ReadUe(b, w.cur);
    if MAX_MBS_MINUS1 < w.val || MAX_MBS_MINUS1 < h.val then Parsed(p.si, h.cur)
    else
      var f := ReadFlags(b, h.cur);
      var units := (h.val + 1) * 16;
      Parsed(p.si.(w := (w.val + 1) * 16, h := if f.fmbo == 1 then units else 2 * units,
                   fmbo := f.fmbo, mbAdaptive := f.mb, direct8x8 := f.d8, cropFlag := f.crop, ok := true), f.cur)
  }

  datatype Reads = Reads(vals: seq<u32>, cur: Cur)

  function ReadUes(b: seq<bit>, c: Cur, n: nat): (r: Reads)
    ensures |r.vals| == n
    decreases n
  {
    if n == 0 then Reads([], c)
    else
      var first := ReadUe(b, c);
      var rest := ReadUes(b, first.cur, n - 1);
      Reads([first.val] + rest.vals, rest.cur)
  }

  /** The four crop offsets; an unreadable one ends the parse. */
  function ParseCrop(b: seq<bit>, p: Parsed): Parsed {
    if p.si.cropFlag == 0 || !p.si.ok then p
    else
      var r := ReadUes(b, p.cur, 4);
      Parsed(p.si.(crop := r.vals, ok := UE_ERROR !in r.vals), r.cur)
  }

  function ParseBits(b: seq<bit>, profile: u32, constraint: u32, level: u32): Parsed {
    ParseCrop(b, ParseDims(b, ParseHead(b, profile, constraint, level)))
  }

  function ParseRbsp(s: seq<byte>): Parsed
    requires 4 <= |s|
  {
    ParseBits(BitsOf(s), s[1], s[2], s[3])
  }

  /** What parse_sps_full makes of a NAL, header byte included. */
  function ParseSps(d: seq<byte>): SpsInfo {
    if |d| < 4 || NAL_BUF_MAX < |d| || |Strip(d)| < 4 then BLANK else ParseRbsp(Strip(d)).si
  }

  // ---------- the code ----------

  /** A byte string with a read position that each call moves on. */
  class BitReader {
    const s: seq<byte>
    var pos: nat
    ghost var over: bool

    constructor (s: seq<byte>, pos: nat)
      ensures this.s == s && Here() == Cur(pos, false)
    {
      this.s, this.pos, this.over := s, pos, false;
    }

    ghost function Here(): Cur
      reads this
    {
      Cur(pos, over)
    }

    method Bit() returns (v: bit)
      modifies this
      ensures Read(v, Here()) == ReadBit(BitsOf(s), old(Here()))
    {
      if 8 * |s| <= pos {
        over := true;
        return 0;
      }
      v := Shr(s[pos / 8], 7 - pos % 8) % 2;
      pos := pos + 1;
    }

    /** Count zero bits, and take the one that ends them if the string goes on. */
    method LeadingZeros() returns (z: nat)
      modifies this
      ensures var b, c := BitsOf(s), old(Here());
        && z == Zeros(b, c.pos)
        && Here() == if c.pos + z < |b| then Cur(c.pos + z + 1, c.over) else Cur(c.pos + z, true)
    {
      ghost var b, c := BitsOf(s), Here();
      hide BitsOf;
      z := 0;
      var bit: bit := 0;
      while pos < 8 * |s| && bit == 0
        invariant pos <= 8 * |s| || (pos == c.pos && z == 0 && bit == 0)
        invariant over == c.over
        invariant c.pos <= pos && pos == c.pos + z + bit
        invariant Zeros(b, c.pos) == z + if bit == 0 then Zeros(b, pos) else 0
        invariant bit == 1 ==> c.pos + z < |b|
        decreases 8 * |s| - pos
      {
        bit := Bit();
        if bit == 0 {
          z := z + 1;
        }
      }
      if bit == 0 {
        over := true;
      }
    }

    method Fixed(n: nat) returns (v: nat)
      modifies this
      ensures Read(v, Here()) == ReadBits(BitsOf(s), old(Here()), n, 0)
    {
      hide BitsOf;
      v := 0;
      var i := 0;
      while i < n
        invariant i <= n
        invariant ReadBits(BitsOf(s), old(Here()), n, 0) == ReadBits(BitsOf(s), Here(), n - i, v)
      {
        var x := Bit();
        v := 2 * v + x;
        i := i + 1;
      }
    }

    method Ue() returns (v: nat)
      modifies this
      ensures Read(v, Here()) == ReadUe(BitsOf(s), old(Here()))
    {
      hide BitsOf, Zeros, ReadBits, Pow2;
      var z := LeadingZeros();
      v := Fixed(if z <= UE_CAP then z else UE_CAP);
      v := if UE_CAP < z then UE_ERROR else Pow2(z) - 1 + v;
    }
  }

  method SkipListBits(r: BitReader, n: nat)
    modifies r
    ensures r.Here() == SkipList(BitsOf(r.s), old(r.Here()), n, 8, 8)
  {
    hide ReadUe, BitsOf;
    var last, nxt, i := 8, 8, 0;
    while i < n
      invariant i <= n
      invariant SkipList(BitsOf(r.s), old(r.Here()), n, 8, 8) == SkipList(BitsOf(r.s), r.Here(), n - i, last, nxt)
    {
      if nxt != 0 {
        var v := r.Ue();
        nxt := (last + v) % 256;
      }
      last := if nxt != 0 then nxt else last;
      i := i + 1;
    }
  }

  method SkipHighBits(r: BitReader)
    modifies r
    ensures r.Here() == SkipHigh(BitsOf(r.s), old(r.Here()))
  {
    hide ReadUe, BitsOf, SkipList;
    var chroma := r.Ue();
    if chroma == 3 {
      var _ := r.Bit();
    }
    var _ := r.Ue();
    var _ := r.Ue();
    var _ := r.Bit();
    var matrix := r.Bit();
    if matrix == 1 {
      var m, total := 0, if chroma != 3 then 8 else 12;
      ghost var c := r.Here();
      while m < total
        invariant m <= total
        invariant SkipLists(BitsOf(r.s), c, 0, total) == SkipLists(BitsOf(r.s), r.Here(), m, total)
      {
        var present := r.Bit();
        if present == 1 {
          SkipListBits(r, if m < 6 then 16 else 64);
        }
        m := m + 1;
      }
    }
  }

  method PocBits(r: BitReader) returns (kind: nat, lsb: nat)
    modifies r
    ensures var p := ReadPoc(BitsOf(r.s), old(r.Here())); kind == p.kind && lsb == p.lsb && r.Here() == p.cur
  {
    hide ReadUe, BitsOf;
    kind := r.Ue();
    lsb := 0;
    if kind == 0 {
      lsb := r.Ue();
    } else if kind == 1 {
      var _ := r.Bit();
      var _ := r.Ue();
      var _ := r.Ue();
      var cycle := r.Ue();
      var i := 0;
      ghost var c := r.Here();
      while i < cycle && i < 255
        invariant i <= CycleCap(cycle)
        invariant SkipUes(BitsOf(r.s), c, CycleCap(cycle)) == SkipUes(BitsOf(r.s), r.Here(), CycleCap(cycle) - i)
      {
        var _ := r.Ue();
        i := i + 1;
      }
      kind := POC_UNSUPPORTED;
    }
  }

  method HeadBits(r: BitReader) returns (si: SpsInfo)
    requires 4 <= |r.s| && r.Here() == Cur(32, false)
    modifies r
    ensures Parsed(si, r.Here()) == ParseHead(BitsOf(r.s), r.s[1], r.s[2], r.s[3])
  {
    hide ReadUe, BitsOf, SkipHigh, ReadPoc;
    var profile := r.s[1];
    si := BLANK.(profile := profile, constraint := r.s[2], level := r.s[3]);
    var id := r.Ue();
    si := si.(spsId := id);
    if HighProfile(profile) {
      SkipHighBits(r);
    }
    var frm := r.Ue();
    var kind, lsb := PocBits(r);
    var refs := r.Ue();
    si := si.(log2frm := frm, pocType := kind, pocLsb := lsb, maxRef := refs);
  }

  method DimsBits(r: BitReader, head: SpsInfo) returns (si: SpsInfo)
    modifies r
    ensures Parsed(si, r.Here()) == ParseDims(BitsOf(r.s), Parsed(head, old(r.Here())))
  {
    hide ReadUe, BitsOf;
    si := head;
    var _ := r.Bit();
    var w := r.Ue();
    var h := r.Ue();
    if MAX_MBS_MINUS1 < w || MAX_MBS_MINUS1 < h {
      return;
    }
    var height := (h + 1) * 16;
    var fmbo := r.Bit();
    var mb: bit := 0;
    if fmbo == 0 {
      mb := r.Bit();
      height := height * 2;
    }
    var d8 := r.Bit();
    var crop := r.Bit();
    si := si.(w := (w + 1) * 16, h := height, fmbo := fmbo, mbAdaptive := mb, direct8x8 := d8, cropFlag := crop,
              ok := true);
  }

  method UeList(r: BitReader, n: nat) returns (vals: seq<u32>)
    modifies r
    ensures Reads(vals, r.Here()) == ReadUes(BitsOf(r.s), old(r.Here()), n)
  {
    hide ReadUe, BitsOf, ReadUes;
    vals := [];
    NoReads(BitsOf(r.s), r.Here());
    while |vals| < n
      invariant |vals| <= n
      invariant var rest := ReadUes(BitsOf(r.s), r.Here(), n - |vals|);
        ReadUes(BitsOf(r.s), old(r.Here()), n) == Reads(vals + rest.vals, rest.cur)
    {
      ghost var before := vals;
      OneRead(BitsOf(r.s), r.Here(), n - |vals|);
      var v := r.Ue();
      vals := vals + [v];
      ghost var rest := ReadUes(BitsOf(r.s), r.Here(), n - |vals|);
      assert before + ([v] + rest.vals) == vals + rest.vals;
    }
    NoReads(BitsOf(r.s), r.Here());
    assert vals + [] == vals;
  }

  lemma NoReads(b: seq<bit>, c: Cur)
    ensures ReadUes(b, c, 0) == Reads([], c)
  {
  }

  lemma OneRead(b: seq<bit>, c: Cur, n: nat)
    requires n != 0
    ensures var first := ReadUe(b, c); var rest := ReadUes(b, first.cur, n - 1);
      ReadUes(b, c, n) == Reads([first.val] + rest.vals, rest.cur)
  {
    hide ReadUe;
  }

  method CropBits(r: BitReader, dims: SpsInfo) returns (si: SpsInfo)
    modifies r
    ensures Parsed(si, r.Here()) == ParseCrop(BitsOf(r.s), Parsed(dims, old(r.Here())))
  {
    hide ReadUes, BitsOf;
    si := dims;
    if dims.ok && dims.cropFlag == 1 {
      var vals := UeList(r, 4);
      si := si.(crop := vals, ok := UE_ERROR !in vals);
    }
  }

  /** The parser: strip, then the syntax elements in order. */
  method ParseSpsFull(d: seq<byte>) returns (si: SpsInfo)
    ensures si == ParseSps(d)
  {
    hide ParseHead, ParseDims, ParseCrop, BitsOf;
    si := BLANK;
    if |d| < 4 || NAL_BUF_MAX < |d| {
      return;
    }
    var kept: seq<byte>, i := [], 0;
    while i < |d| && |kept| < NAL_BUF_MAX
      invariant i <= |d| && kept == Strip(d[..i])
    {
      assert d[..i + 1][..i] == d[..i];
      if 2 <= |kept| && kept[|kept| - 1] == 0 && kept[|kept| - 2] == 0 && d[i] == 3 {
        i := i + 1;
        continue;
      }
      kept := kept + [d[i]];
      i := i + 1;
    }
    assert d[..|d|] == d;
    if |kept| < 4 {
      return;
    }
    var r := new BitReader(kept, 32);
    si := HeadBits(r);
    si := DimsBits(r, si);
    si := CropBits(r, si);
  }
}
