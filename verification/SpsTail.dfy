/** The parser looks at nothing behind the last bit it reads: whatever follows in the NAL is ignored. */
module SpsTail {
  import opened Words
  import opened Bits
  import opened SpsParse

  /** b and e share their first p bits. */
  predicate Agree(b: seq<bit>, e: seq<bit>, p: nat) {
    p <= |b| && p <= |e| && forall i | 0 <= i < p :: b[i] == e[i]
  }

  /** r was reached from c without running off the end, over bits the two strings share. */
  predicate Inside(b: seq<bit>, e: seq<bit>, r: Cur) {
    !r.over && Agree(b, e, r.pos)
  }

  predicate Forward(c: Cur, r: Cur) {
    c.pos <= r.pos && (c.over ==> r.over)
  }

  lemma BitLocal(b: seq<bit>, e: seq<bit>, c: Cur)
    ensures var r := ReadBit(b, c); Forward(c, r.cur) && (Inside(b, e, r.cur) ==> ReadBit(e, c) == r)
  {
  }

  lemma {:induction false} BitsLocal(b: seq<bit>, e: seq<bit>, c: Cur, n: nat, acc: nat)
    ensures var r := ReadBits(b, c, n, acc); Forward(c, r.cur) && (Inside(b, e, r.cur) ==> ReadBits(e, c, n, acc) == r)
    decreases n
  {
    if n != 0 {
      var r := ReadBit(b, c);
      BitLocal(b, e, c);
      BitsLocal(b, e, r.cur, n - 1, 2 * acc + r.val);
    }
  }

  lemma {:induction false} ZerosLocal(b: seq<bit>, e: seq<bit>, pos: nat)
    requires pos + Zeros(b, pos) < |b| && Agree(b, e, pos + Zeros(b, pos) + 1)
    ensures Zeros(e, pos) == Zeros(b, pos)
    decreases |b| - pos
  {
    if pos < |b| && b[pos] == 0 {
      ZerosLocal(b, e, pos + 1);
    }
  }

  lemma UeLocal(b: seq<bit>, e: seq<bit>, c: Cur)
    ensures var r := ReadUe(b, c); Forward(c, r.cur) && (Inside(b, e, r.cur) ==> ReadUe(e, c) == r)
  {
    hide Zeros, ReadBits, Pow2;
    var z := Zeros(b, c.pos);
    var c1 := if c.pos + z < |b| then Cur(c.pos + z + 1, c.over) else Cur(c.pos + z, true);
    BitsLocal(b, e, c1, if z <= UE_CAP then z else UE_CAP, 0);
    if Inside(b, e, ReadUe(b, c).cur) {
      ZerosLocal(b, e, c.pos);
    }
  }

  lemma {:induction false} ListLocal(b: seq<bit>, e: seq<bit>, c: Cur, left: nat, last: nat, nxt: nat)
    ensures var r := SkipList(b, c, left, last, nxt);
      Forward(c, r) && (Inside(b, e, r) ==> SkipList(e, c, left, last, nxt) == r)
    decreases left
  {
    hide ReadUe;
    if left != 0 {
      if nxt == 0 {
        ListLocal(b, e, c, left - 1, last, nxt);
      } else {
        UeLocal(b, e, c);
        var r := ReadUe(b, c);
        var n := (last + r.val) % 256;
        ListLocal(b, e, r.cur, left - 1, if n != 0 then n else last, n);
      }
    }
  }

  lemma {:induction false} ListsLocal(b: seq<bit>, e: seq<bit>, c: Cur, m: nat, total: nat)
    ensures var r := SkipLists(b, c, m, total); Forward(c, r) && (Inside(b, e, r) ==> SkipLists(e, c, m, total) == r)
    decreases total - m
  {
    hide SkipList;
    if m < total {
      var r := ReadBit(b, c);
      BitLocal(b, e, c);
      var n := if m < 6 then 16 else 64;
      ListLocal(b, e, r.cur, n, 8, 8);
      ListsLocal(b, e, if r.val == 1 then SkipList(b, r.cur, n, 8, 8) else r.cur, m + 1, total);
    }
  }

  lemma HighLocal(b: seq<bit>, e: seq<bit>, c: Cur)
    ensures var r := SkipHigh(b, c); Forward(c, r) && (Inside(b, e, r) ==> SkipHigh(e, c) == r)
  {
    hide ReadUe, ReadBit, SkipLists;
    var chroma := ReadUe(b, c);
    UeLocal(b, e, c);
    BitLocal(b, e, chroma.cur);
    var c1 := if chroma.val == 3 then ReadBit(b, chroma.cur).cur else chroma.cur;
    var luma := ReadUe(b, c1);
    UeLocal(b, e, c1);
    var depth := ReadUe(b, luma.cur);
    UeLocal(b, e, luma.cur);
    var bypass := ReadBit(b, depth.cur);
    BitLocal(b, e, depth.cur);
    var matrix := ReadBit(b, bypass.cur);
    BitLocal(b, e, bypass.cur);
    ListsLocal(b, e, matrix.cur, 0, if chroma.val != 3 then 8 else 12);
  }

  lemma {:induction false} UesLocal(b: seq<bit>, e: seq<bit>, c: Cur, n: nat)
    ensures var r := SkipUes(b, c, n); Forward(c, r) && (Inside(b, e, r) ==> SkipUes(e, c, n) == r)
    decreases n
  {
    hide ReadUe;
    if n != 0 {
      UeLocal(b, e, c);
      UesLocal(b, e, ReadUe(b, c).cur, n - 1);
    }
  }

  lemma PocLocal(b: seq<bit>, e: seq<bit>, c: Cur)
    ensures var r := ReadPoc(b, c); Forward(c, r.cur) && (Inside(b, e, r.cur) ==> ReadPoc(e, c) == r)
  {
    hide ReadUe, ReadBit, SkipUes;
    var t := ReadUe(b, c);
    UeLocal(b, e, c);
    UeLocal(b, e, t.cur);
    var flag := ReadBit(b, t.cur);
    BitLocal(b, e, t.cur);
    var nonref := ReadUe(b, flag.cur);
    UeLocal(b, e, flag.cur);
    var field := ReadUe(b, nonref.cur);
    UeLocal(b, e, nonref.cur);
    var cycle := ReadUe(b, field.cur);
    UeLocal(b, e, field.cur);
    UesLocal(b, e, cycle.cur, CycleCap(cycle.val));
  }

  lemma HeadLocal(b: seq<bit>, e: seq<bit>, profile: u32, constraint: u32, level: u32)
    ensures var r := ParseHead(b, profile, constraint, level);
      Inside(b, e, r.cur) ==> ParseHead(e, profile, constraint, level) == r
  {
    hide ReadUe, SkipHigh, ReadPoc;
    var id := ReadUe(b, Cur(32, false));
    UeLocal(b, e, Cur(32, false));
    var c1 := if HighProfile(profile) then SkipHigh(b, id.cur) else id.cur;
    HighLocal(b, e, id.cur);
    var frm := ReadUe(b, c1);
    UeLocal(b, e, c1);
    var poc := ReadPoc(b, frm.cur);
    PocLocal(b, e, frm.cur);
    UeLocal(b, e, poc.cur);
  }

  lemma DimsLocal(b: seq<bit>, e: seq<bit>, p: Parsed)
    ensures var r := ParseDims(b, p); Forward(p.cur, r.cur) && (Inside(b, e, r.cur) ==> ParseDims(e, p) == r)
  {
    hide ReadUe, ReadBit, ReadFlags;
    var gaps := ReadBit(b, p.cur);
    BitLocal(b, e, p.cur);
    var w := ReadUe(b, gaps.cur);
    UeLocal(b, e, gaps.cur);
    var h := ReadUe(b, w.cur);
    UeLocal(b, e, w.cur);
    FlagsLocal(b, e, h.cur);
  }

  lemma FlagsLocal(b: seq<bit>, e: seq<bit>, c: Cur)
    ensures var r := ReadFlags(b, c); Forward(c, r.cur) && (Inside(b, e, r.cur) ==> ReadFlags(e, c) == r)
  {
    hide ReadBit;
    var fmbo := ReadBit(b, c);
    BitLocal(b, e, c);
    BitLocal(b, e, fmbo.cur);
    var mb := if fmbo.val == 0 then ReadBit(b, fmbo.cur) else Read(0, fmbo.cur);
    var d8 := ReadBit(b, mb.cur);
    BitLocal(b, e, mb.cur);
    BitLocal(b, e, d8.cur);
  }

  lemma {:induction false} ReadsLocal(b: seq<bit>, e: seq<bit>, c: Cur, n: nat)
    ensures var r := ReadUes(b, c, n); Forward(c, r.cur) && (Inside(b, e, r.cur) ==> ReadUes(e, c, n) == r)
    decreases n
  {
    hide ReadUe;
    if n != 0 {
      UeLocal(b, e, c);
      ReadsLocal(b, e, ReadUe(b, c).cur, n - 1);
    }
  }

  lemma CropLocal(b: seq<bit>, e: seq<bit>, p: Parsed)
    ensures var r := ParseCrop(b, p); Forward(p.cur, r.cur) && (Inside(b, e, r.cur) ==> ParseCrop(e, p) == r)
  {
    hide ReadUes;
    ReadsLocal(b, e, p.cur, 4);
  }

  lemma BitsOfPrefix(s: seq<byte>, t: seq<byte>)
    requires s <= t
    ensures forall i | 0 <= i < 8 * |s| :: BitsOf(t)[i] == BitsOf(s)[i]
  {
    forall i | 0 <= i < 8 * |s| ensures BitsOf(t)[i] == BitsOf(s)[i] {
      assert t[i / 8] == s[i / 8];
    }
  }

  /** Two NALs that share the bytes up to the last bit the parser reads give the same result, whatever
      VUI or glued metadata follows. */
  lemma TailIgnored(d: seq<byte>, e: seq<byte>, k: nat)
    requires 4 <= |d| <= NAL_BUF_MAX && 4 <= |e| <= NAL_BUF_MAX && k <= |d| && k <= |e| && d[..k] == e[..k]
    requires 4 <= |Strip(d[..k])| && 4 <= |Strip(d)|
    requires var r := ParseRbsp(Strip(d)).cur; !r.over && r.pos <= 8 * |Strip(d[..k])|
    ensures ParseSps(d) == ParseSps(e)
  {
    StripMonotone(d, k);
    StripMonotone(e, k);
    hide Strip, ParseBits, BitsOf;
    var s, t, u := Strip(d[..k]), Strip(d), Strip(e);
    BitsOfPrefix(s, t);
    BitsOfPrefix(s, u);
    var a, b := BitsOf(t), BitsOf(u);
    assert t[1] == s[1] == u[1] && t[2] == s[2] == u[2] && t[3] == s[3] == u[3];
    ParseLocal(a, b, t[1], t[2], t[3]);
  }

  lemma ParseLocal(b: seq<bit>, e: seq<bit>, profile: u32, constraint: u32, level: u32)
    ensures var r := ParseBits(b, profile, constraint, level);
      Inside(b, e, r.cur) ==> ParseBits(e, profile, constraint, level) == r
  {
    hide ParseHead, ParseDims, ParseCrop;
    var head := ParseHead(b, profile, constraint, level);
    var dims := ParseDims(b, head);
    HeadLocal(b, e, profile, constraint, level);
    DimsLocal(b, e, head);
    CropLocal(b, e, dims);
  }
}
