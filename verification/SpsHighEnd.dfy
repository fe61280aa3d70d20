/** High profiles at the end of the string. The parser reads zeros there without noticing, so a wrong parse might still
    come out right; counting ones shows that for a set without crops it cannot. */
module SpsHighEnd {
  import opened Words
  import opened Bits
  import opened SpsParse
  import opened SpsTail
  import opened SpsBuild
  import opened SpsRoundTrip
  import opened SpsCanon
  import opened SpsHigh

  // ---------- the end of the string ----------

  /** A position within the string; once a read ran over, the position is its end. */
  predicate Tame(b: seq<bit>, c: Cur) {
    c.pos <= |b| && (c.over ==> c.pos == |b|)
  }

  lemma BitTame(b: seq<bit>, c: Cur)
    requires Tame(b, c)
    ensures var r := ReadBit(b, c); Tame(b, r.cur) && Forward(c, r.cur) && (r.cur.over ==> r.val == 0) && r.val < 2
  {
  }

  lemma {:induction false} BitsTame(b: seq<bit>, c: Cur, n: nat, acc: nat)
    requires Tame(b, c)
    ensures Tame(b, ReadBits(b, c, n, acc).cur) && Forward(c, ReadBits(b, c, n, acc).cur)
    decreases n
  {
    if n != 0 {
      var r := ReadBit(b, c);
      BitsTame(b, r.cur, n - 1, 2 * acc + r.val);
    }
  }

  lemma UeTame(b: seq<bit>, c: Cur)
    requires Tame(b, c)
    ensures Tame(b, ReadUe(b, c).cur) && Forward(c, ReadUe(b, c).cur)
  {
    hide Zeros, ReadBits, Pow2;
    var z := Zeros(b, c.pos);
    var c1 := if c.pos + z < |b| then Cur(c.pos + z + 1, c.over) else Cur(c.pos + z, true);
    BitsTame(b, c1, if z <= UE_CAP then z else UE_CAP, 0);
  }

  lemma {:induction false} ListTame(b: seq<bit>, c: Cur, left: nat, last: nat, nxt: nat)
    requires Tame(b, c)
    ensures Tame(b, SkipList(b, c, left, last, nxt))
    decreases left
  {
    hide ReadUe, Tame;
    if left != 0 {
      if nxt == 0 {
        ListTame(b, c, left - 1, last, nxt);
      } else {
        UeTame(b, c);
        var n := (last + ReadUe(b, c).val) % 256;
        ListTame(b, ReadUe(b, c).cur, left - 1, if n != 0 then n else last, n);
      }
    }
  }

  lemma {:induction false} ListsTame(b: seq<bit>, c: Cur, m: nat, total: nat)
    requires Tame(b, c)
    ensures Tame(b, SkipLists(b, c, m, total))
    decreases total - m
  {
    hide SkipList, Tame;
    if m < total {
      BitTame(b, c);
      var r, n := ReadBit(b, c), if m < 6 then 16 else 64;
      if r.val == 1 {
        ListTame(b, r.cur, n, 8, 8);
      }
      ListsTame(b, if r.val == 1 then SkipList(b, r.cur, n, 8, 8) else r.cur, m + 1, total);
    }
  }

  lemma HighTame(b: seq<bit>, c: Cur)
    requires Tame(b, c)
    ensures Tame(b, SkipHigh(b, c))
  {
    hide ReadUe, ReadBit, SkipLists, Tame;
    var chroma := ReadUe(b, c);
    UeTame(b, c);
    BitTame(b, chroma.cur);
    var c1 := if chroma.val == 3 then ReadBit(b, chroma.cur).cur else chroma.cur;
    UeTame(b, c1);
    var luma := ReadUe(b, c1);
    UeTame(b, luma.cur);
    var depth := ReadUe(b, luma.cur);
    BitTame(b, depth.cur);
    var bypass := ReadBit(b, depth.cur);
    BitTame(b, bypass.cur);
    var matrix := ReadBit(b, bypass.cur);
    ListsTame(b, matrix.cur, 0, if chroma.val != 3 then 8 else 12);
  }

  lemma DeadUe(b: seq<bit>, c: Cur)
    requires Tame(b, c) && c.over
    ensures ReadUe(b, c) == Read(0, c)
  {
    assert Zeros(b, c.pos) == 0 && Pow2(0) == 1;
    assert ReadBits(b, c, 0, 0) == Read(0, c);
    hide Zeros, ReadBits, Pow2;
  }

  // ---------- counting ones ----------

  function Ones(s: seq<bit>): nat {
    if s == [] then 0 else Ones(s[1..]) + s[0]
  }

  lemma {:induction false} OnesConcat(a: seq<bit>, b: seq<bit>)
    ensures Ones(a + b) == Ones(a) + Ones(b)
    decreases |a|
  {
    if a == [] {
      assert a + b == b;
    } else {
      OnesConcat(a[1..], b);
      assert (a + b)[1..] == a[1..] + b;
    }
  }

  /** Ones in a stretch of b. */
  function Count(b: seq<bit>, p: nat, q: nat): nat
    requires p <= q <= |b|
  {
    Ones(b[p..q])
  }

  lemma CountSplit(b: seq<bit>, p: nat, q: nat, r: nat)
    requires p <= q <= r <= |b|
    ensures Count(b, p, r) == Count(b, p, q) + Count(b, q, r)
  {
    OnesConcat(b[p..q], b[q..r]);
    assert b[p..r] == b[p..q] + b[q..r];
    hide Ones;
  }

  lemma CountAt(b: seq<bit>, p: nat, code: seq<bit>)
    requires At(b, p, code)
    ensures p + |code| <= |b| && Count(b, p, p + |code|) == Ones(code)
  {
  }

  lemma {:induction false} OnesOfZeros(s: seq<bit>)
    requires forall i | 0 <= i < |s| :: s[i] == 0
    ensures Ones(s) == 0
  {
    if s != [] {
      OnesOfZeros(s[1..]);
    }
  }

  // ---------- what a read takes from the string ----------

  /** n bits from p on, with zeros behind the end. */
  function Taken(b: seq<bit>, p: nat, n: nat): (t: seq<bit>)
    ensures |t| == n
  {
    seq(n, i requires 0 <= i < n => if p + i < |b| then b[p + i] else 0)
  }

  lemma {:induction false} BitsTaken(b: seq<bit>, c: Cur, n: nat, acc: nat)
    requires Tame(b, c)
    ensures ReadBits(b, c, n, acc).val == acc * Pow2(n) + Value(Taken(b, c.pos, n))
    ensures ReadBits(b, c, n, acc).cur == if c.pos + n <= |b| then Cur(c.pos + n, c.over) else Cur(|b|, true)
    decreases n
  {
    if n == 0 {
      assert Pow2(0) == 1 && Value(Taken(b, c.pos, 0)) == 0;
    } else {
      var r, t := ReadBit(b, c), Taken(b, c.pos, n);
      BitsTaken(b, r.cur, n - 1, 2 * acc + r.val);
      assert t[1..] == Taken(b, r.cur.pos, n - 1);
      ValueFront(t);
      HornerStep(acc, t[0], Pow2(n - 1));
    }
  }

  lemma OnesOfTaken(b: seq<bit>, p: nat, n: nat)
    requires p <= |b|
    ensures Ones(Taken(b, p, n)) == Count(b, p, if p + n <= |b| then p + n else |b|)
  {
    if p + n <= |b| {
      assert Taken(b, p, n) == b[p..p + n];
    } else {
      var k := |b| - p;
      assert Taken(b, p, n) == b[p..] + Taken(b, |b|, n - k);
      OnesConcat(b[p..], Taken(b, |b|, n - k));
      OnesOfZeros(Taken(b, |b|, n - k));
      assert b[p..|b|] == b[p..];
    }
  }

  lemma OnesOfCode(t: seq<bit>, v: u32)
    requires v == Pow2(|t|) - 1 + Value(t) && v < U32_MAX
    ensures Ones(Ue(v)) == 1 + Ones(t)
  {
    CodeOf(t, v);
    ZeroBits(|t|);
    hide Ue, UBits, Ones, Value, Pow2;
    OnesOfZeros(UBits(0, |t|));
    OnesConcat(UBits(0, |t|), [1] + t);
    OnesConcat([1], t);
    OnesOfOne();
  }

  lemma OnesOfOne()
    ensures Ones([1]) == 1
  {
    assert Ones([]) == 0;
  }

  lemma {:induction false} ZerosClear(b: seq<bit>, pos: nat)
    requires pos <= |b|
    ensures forall i | pos <= i < pos + Zeros(b, pos) :: b[i] == 0
    ensures pos + Zeros(b, pos) < |b| ==> b[pos + Zeros(b, pos)] == 1
    decreases |b| - pos
  {
    if pos < |b| && b[pos] == 0 {
      ZerosClear(b, pos + 1);
    }
  }

  /** A read in parts: z zeros, a one unless the string ends, and z more bits, zero behind the end. */
  lemma UeParts(b: seq<bit>, c: Cur) returns (z: nat, p: nat)
    requires Tame(b, c) && Zeros(b, c.pos) <= UE_CAP
    ensures c.pos + z <= p <= |b| && (forall i | c.pos <= i < c.pos + z :: b[i] == 0)
    ensures (p == c.pos + z + 1 && b[p - 1] == 1) || (p == c.pos + z == |b| && ReadUe(b, c).cur.over)
    ensures var r := ReadUe(b, c);
      r.val == Pow2(z) - 1 + Value(Taken(b, p, z)) && r.val < U32_MAX && p <= r.cur.pos <= |b| && Tame(b, r.cur)
      && r.cur.pos == if p + z <= |b| then p + z else |b|
  {
    ZerosClear(b, c.pos);
    z := Zeros(b, c.pos);
    var c1 := if c.pos + z < |b| then Cur(c.pos + z + 1, c.over) else Cur(c.pos + z, true);
    p := c1.pos;
    hide Zeros, ReadBits, Pow2, Value, Taken;
    BitsTaken(b, c1, z, 0);
    BitsTame(b, c1, z, 0);
  }

  lemma CapOf(b: seq<bit>, c: Cur)
    requires ReadUe(b, c).val != UE_ERROR
    ensures Zeros(b, c.pos) <= UE_CAP
  {
    hide Zeros, ReadBits, Pow2;
  }

  /** A position, held back to the end of the string. */
  function Cap(b: seq<bit>, i: nat): (p: nat)
    ensures p <= i && p <= |b| && (p == i || p == |b|)
  {
    if i < |b| then i else |b|
  }

  /** So far as b goes, the code stands at p. */
  predicate Shown(b: seq<bit>, p: nat, code: seq<bit>) {
    forall i | 0 <= i < |code| && p + i < |b| :: b[p + i] == code[i]
  }

  /** What a read took is its value's code, so far as the string goes. */
  lemma UeShown(b: seq<bit>, c: Cur)
    requires Tame(b, c) && Zeros(b, c.pos) <= UE_CAP
    ensures var r := ReadUe(b, c);
      r.val < U32_MAX && Shown(b, c.pos, Ue(r.val)) && r.cur.pos == Cap(b, c.pos + |Ue(r.val)|)
  {
    var v := ReadUe(b, c).val;
    hide ReadUe, Tame, Ue, Pow2, Value, UBits, Zeros;
    var z, p := UeParts(b, c);
    CodeOf(Taken(b, p, z), v);
    ZeroBits(z);
  }

  /** The code of the value read has no more ones than the bits it was read from, and one more at most where the read
      ran over. */
  lemma UeYield(b: seq<bit>, c: Cur)
    requires Tame(b, c) && ReadUe(b, c).val < UE_ERROR
    ensures var r := ReadUe(b, c);
      c.pos <= r.cur.pos <= |b| && Ones(Ue(r.val)) <= Count(b, c.pos, r.cur.pos) + (if r.cur.over then 1 else 0)
  {
    hide *;
    var r := ReadUe(b, c);
    TamePos(b, c);
    CapOf(b, c);
    var z, p := UeParts(b, c);
    OnesOfCode(Taken(b, p, z), r.val);
    OnesOfTaken(b, p, z);
    CountSplit(b, c.pos, p, r.cur.pos);
    if p == c.pos + z + 1 {
      CountSplit(b, c.pos, p - 1, p);
      CountOfOne(b, p - 1);
    }
  }

  lemma TamePos(b: seq<bit>, c: Cur)
    requires Tame(b, c)
    ensures c.pos <= |b|
  {
  }

  lemma CountOfOne(b: seq<bit>, p: nat)
    requires p < |b| && b[p] == 1
    ensures Count(b, p, p + 1) == 1
  {
    assert b[p..p + 1] == [1];
    OnesOfOne();
  }

  lemma BitYield(b: seq<bit>, c: Cur)
    requires Tame(b, c)
    ensures var r := ReadBit(b, c); c.pos <= r.cur.pos <= |b| && Count(b, c.pos, r.cur.pos) == r.val
  {
    if c.pos < |b| {
      assert b[c.pos..c.pos + 1] == [b[c.pos]];
      assert [b[c.pos]][1..] == [];
    }
  }

  // ---------- small reads ----------

  lemma UeOfOne(b: seq<bit>, c: Cur)
    requires c.pos < |b| && b[c.pos] == 1
    ensures ReadUe(b, c) == Read(0, Cur(c.pos + 1, c.over))
  {
    assert Zeros(b, c.pos) == 0 && Pow2(0) == 1;
    assert ReadBits(b, Cur(c.pos + 1, c.over), 0, 0) == Read(0, Cur(c.pos + 1, c.over));
    hide Zeros, ReadBits, Pow2;
  }

  /** z zeros, a one and all z bits behind it are there. */
  lemma UeWhole(b: seq<bit>, c: Cur, z: nat)
    requires c.pos + 2 * z < |b| && b[c.pos + z] == 1 && z <= 24
    requires forall i | c.pos <= i < c.pos + z :: b[i] == 0
    ensures ReadUe(b, c)
      == Read(Pow2(z) - 1 + Value(b[c.pos + z + 1..c.pos + 2 * z + 1]), Cur(c.pos + (2 * z + 1), c.over))
  {
    hide Zeros, Pow2, Value, ReadUe, At, ReadBits;
    var t := b[c.pos + z + 1..c.pos + 2 * z + 1];
    ZerosAt(b, c.pos, z);
    AtSlice(b, c.pos + z + 1, z);
    UeOfParts(b, c, z, t);
  }

  lemma AtSlice(b: seq<bit>, p: nat, n: nat)
    requires p + n <= |b|
    ensures At(b, p, b[p..p + n])
  {
  }

  lemma ValueOf1(t: seq<bit>, x: nat)
    requires |t| == 1 && t[0] == x
    ensures Value(t) == x
  {
    assert Value([]) == 0 && t[..0] == [];
  }

  lemma ValueOf2(t: seq<bit>, x: nat, y: nat)
    requires |t| == 2 && t[0] == x && t[1] == y
    ensures Value(t) == 2 * x + y
  {
    ValueOf1(t[..1], x);
  }

  lemma ValueOf3(t: seq<bit>, x: nat, y: nat, z: nat)
    requires |t| == 3 && t[0] == x && t[1] == y && t[2] == z
    ensures Value(t) == 4 * x + 2 * y + z
  {
    ValueOf2(t[..2], x, y);
  }

  lemma UeShort1(b: seq<bit>, c: Cur, x: nat)
    requires c.pos + 2 < |b| && b[c.pos] == 0 && b[c.pos + 1] == 1 && b[c.pos + 2] == x
    ensures ReadUe(b, c) == Read(1 + x, Cur(c.pos + 3, c.over))
  {
    hide *;
    UeWhole(b, c, 1);
    ValueOf1(b[c.pos + 2..c.pos + 3], x);
    SmallPow();
  }

  lemma UeShort2(b: seq<bit>, c: Cur, x: nat, y: nat)
    requires c.pos + 4 < |b| && b[c.pos] == 0 && b[c.pos + 1] == 0 && b[c.pos + 2] == 1
    requires b[c.pos + 3] == x && b[c.pos + 4] == y
    ensures ReadUe(b, c) == Read(3 + 2 * x + y, Cur(c.pos + 5, c.over))
  {
    hide *;
    UeWhole(b, c, 2);
    ValueOf2(b[c.pos + 3..c.pos + 5], x, y);
    SmallPow();
  }

  lemma UeShort3(b: seq<bit>, c: Cur, x: nat, y: nat, z: nat)
    requires c.pos + 6 < |b| && b[c.pos] == 0 && b[c.pos + 1] == 0 && b[c.pos + 2] == 0 && b[c.pos + 3] == 1
    requires b[c.pos + 4] == x && b[c.pos + 5] == y && b[c.pos + 6] == z
    ensures ReadUe(b, c) == Read(7 + 4 * x + 2 * y + z, Cur(c.pos + 7, c.over))
  {
    hide *;
    UeWhole(b, c, 3);
    ValueOf3(b[c.pos + 4..c.pos + 7], x, y, z);
    SmallPow();
  }

  lemma SmallPow()
    ensures Pow2(1) == 2 && Pow2(2) == 4 && Pow2(3) == 8 && Pow2(4) == 16 && Pow2(5) == 32
  {
    assert Pow2(2) == 4;
    assert Pow2(4) == 16;
  }

  /** z zeros in front make a value of at least 2^z - 1, wherever the rest is. */
  lemma UeLarge(b: seq<bit>, c: Cur, z: nat)
    requires c.pos + z <= |b| && z <= 5 && forall i | c.pos <= i < c.pos + z :: b[i] == 0
    ensures Pow2(z) - 1 <= ReadUe(b, c).val
  {
    SmallPow();
    Pow2Grows(z, 5);
    if 0 < z {
      AtLeastZeros(b, c.pos, z);
    }
    var n := Zeros(b, c.pos);
    if n <= UE_CAP {
      Pow2Grows(z, n);
    }
    hide Zeros, ReadBits, Pow2;
  }

  lemma {:induction false} AtLeastZeros(b: seq<bit>, pos: nat, z: nat)
    requires pos + z <= |b| && forall i | pos <= i < pos + z :: b[i] == 0
    ensures z <= Zeros(b, pos)
    decreases z
  {
    if z != 0 {
      AtLeastZeros(b, pos + 1, z - 1);
    }
  }

  // ---------- the set as it stands in the string ----------

  /** From n on: no VUI, the stop bit, and less than a byte of padding. */
  predicate Ends(b: seq<bit>, n: nat) {
    n + 2 <= |b| <= n + 9 && b[n] == 0 && b[n + 1] == 1 && forall i | n + 2 <= i < |b| :: b[i] == 0
  }

  /** Three codes from p on, a 0 behind the first, and then the end. */
  predicate Row(b: seq<bit>, p: nat, x: seq<bit>, y: seq<bit>, z: seq<bit>) {
    && At(b, p, x) && At(b, p + |x|, [0]) && At(b, p + |x| + 1, y) && At(b, p + |x| + 1 + |y|, z)
    && Ends(b, p + |x| + 1 + |y| + |z|)
  }

  /** What the built bits look like from p on, p being behind the set's id. */
  predicate Stands(b: seq<bit>, p: nat, si: SpsInfo) {
    Row(b, p, RefsRest(si), SizeCode(si), CropCode(si))
  }

  lemma PaddedEnds(f: seq<bit>)
    ensures Ends(Padded(f + [0, 1]), |f|)
  {
    var body := f + [0, 1];
    assert Padded(body)[..|body|] == body;
    assert body[|f|] == 0 && body[|f| + 1] == 1;
  }

  lemma BodyEnds(si: SpsInfo)
    ensures BodyBits(si) == FieldBits(si) + [0, 1] && Bit1(0) == [0]
  {
    Bit1Is(0);
    Bit1Is(1);
    hide FieldBits, Bit1;
  }

  lemma BuiltStands(si: SpsInfo)
    ensures Stands(BitsOf(BuildSps(si)), 32 + |Ue(si.spsId)|, si)
  {
    hide At, Ends, BitsOf, RefsRest, SizeCode, CropCode, BuildSps, FieldBits, BodyBits, Padded;
    BuiltBits(si);
    BodyEnds(si);
    PaddedEnds(FieldBits(si));
    BuiltTail(BitsOf(BuildSps(si)), si);
  }

  lemma EndsOnes(b: seq<bit>, n: nat)
    requires Ends(b, n)
    ensures n <= |b| && Count(b, n, |b|) == 1
  {
    OnesOfZeros(b[n..n + 1]);
    OnesOfZeros(b[n + 2..|b|]);
    CountOfOne(b, n + 1);
    CountSplit(b, n, n + 1, |b|);
    CountSplit(b, n + 1, n + 2, |b|);
  }

  lemma RowOnes(b: seq<bit>, p: nat, x: seq<bit>, y: seq<bit>, z: seq<bit>)
    requires Row(b, p, x, y, z)
    ensures p <= |b| && Count(b, p, |b|) == Ones(x) + Ones(y) + Ones(z) + 1
  {
    hide At, Ends, Ones, Count;
    var g := p + |x|;
    var h := g + 1 + |y|;
    CountAt(b, p, x);
    CountAt(b, g, [0]);
    CountAt(b, g + 1, y);
    CountAt(b, h, z);
    EndsOnes(b, h + |z|);
    OnesOfZeros([0]);
    CountSplit(b, p, g, |b|);
    CountSplit(b, g, g + 1, |b|);
    CountSplit(b, g + 1, h, |b|);
    CountSplit(b, h, h + |z|, |b|);
  }

  // ---------- the budget ----------

  /** One for a read that ran over. */
  function Spill(c: Cur): (n: nat)
    ensures n <= 1 && (n == 1 <==> c.over)
  {
    if c.over then 1 else 0
  }

  lemma FlagsYield(b: seq<bit>, c: Cur, si: SpsInfo)
    requires Tame(b, c) && Shaped(si)
    requires var f := ReadFlags(b, c);
      f.fmbo == si.fmbo && f.mb == si.mbAdaptive && f.d8 == si.direct8x8 && f.crop == si.cropFlag
    ensures var e := ReadFlags(b, c).cur;
      Tame(b, e) && c.pos <= e.pos <= |b| && Ones(FlagsCode(si)) <= Count(b, c.pos, e.pos)
  {
    var fmbo := ReadBit(b, c);
    var mb := if fmbo.val == 0 then ReadBit(b, fmbo.cur) else Read(0, fmbo.cur);
    var d8 := ReadBit(b, mb.cur);
    var crop := ReadBit(b, d8.cur);
    hide ReadBit, Ones, Shaped;
    BitTame(b, c);
    BitYield(b, c);
    if fmbo.val == 0 {
      BitTame(b, fmbo.cur);
      BitYield(b, fmbo.cur);
    } else {
      OnesOfZeros(b[mb.cur.pos..mb.cur.pos]);
    }
    BitTame(b, mb.cur);
    BitYield(b, mb.cur);
    BitTame(b, d8.cur);
    BitYield(b, d8.cur);
    CountSplit(b, c.pos, fmbo.cur.pos, crop.cur.pos);
    CountSplit(b, fmbo.cur.pos, mb.cur.pos, crop.cur.pos);
    CountSplit(b, mb.cur.pos, d8.cur.pos, crop.cur.pos);
    FlagsOnes(si);
  }

  lemma FlagsOnes(si: SpsInfo)
    requires si.fmbo == 1 ==> si.mbAdaptive == 0
    ensures Ones(FlagsCode(si)) == si.fmbo as int + si.mbAdaptive as int + si.direct8x8 as int + si.cropFlag as int
  {
    Bit1Is(si.fmbo);
    Bit1Is(si.mbAdaptive);
    Bit1Is(si.direct8x8);
    Bit1Is(si.cropFlag);
    var y, z, u := if si.fmbo == 0 then [si.mbAdaptive] else [], [si.direct8x8], [si.cropFlag];
    assert FlagsCode(si) == [si.fmbo] + (y + (z + u));
    OnesConcat([si.fmbo], y + (z + u));
    OnesConcat(y, z + u);
    OnesConcat(z, u);
    OnesOfBit(si.fmbo);
    OnesOfBit(si.mbAdaptive);
    OnesOfBit(si.direct8x8);
    OnesOfBit(si.cropFlag);
    assert Ones([]) == 0;
    hide FlagsCode, Bit1;
  }

  lemma OnesOfBit(x: bit)
    ensures Ones([x]) == x
  {
    assert [x][1..] == [];
  }

  /** The late dimensions: what their codes have more in ones than the bits read, the two sizes ran over with. */
  lemma SizeYield(b: seq<bit>, p: Parsed, si: SpsInfo)
    requires InRange(si) && Tame(b, p.cur) && !p.si.ok
    requires var d := ParseDims(b, p).si;
      && d.ok && d.w == si.w && d.h == si.h && d.fmbo == si.fmbo && d.mbAdaptive == si.mbAdaptive
      && d.direct8x8 == si.direct8x8 && d.cropFlag == si.cropFlag
    ensures var gaps := ReadBit(b, p.cur);
      var w := ReadUe(b, gaps.cur);
      var h := ReadUe(b, w.cur);
      var e := ParseDims(b, p).cur;
      && Tame(b, gaps.cur) && Tame(b, e) && p.cur.pos <= gaps.cur.pos <= e.pos <= |b|
      && w.val == WidthCode(si) && h.val == HeightCode(si)
      && Ones(SizeCode(si)) <= Count(b, gaps.cur.pos, e.pos) + Spill(w.cur) + Spill(h.cur)
  {
    hide *;
    RangeParts(si);
    CodesOfSize(si);
    DimsParts(b, p);
    SizeValues(b, p, si);
    var gaps := ReadBit(b, p.cur);
    var w := ReadUe(b, gaps.cur);
    var h := ReadUe(b, w.cur);
    var f := ReadFlags(b, h.cur);
    BitTame(b, p.cur);
    BitYield(b, p.cur);
    UeTame(b, gaps.cur);
    UeYield(b, gaps.cur);
    UeTame(b, w.cur);
    UeYield(b, w.cur);
    FlagsYield(b, h.cur, si);
    CountSplit(b, gaps.cur.pos, w.cur.pos, f.cur.pos);
    CountSplit(b, w.cur.pos, h.cur.pos, f.cur.pos);
    SizeOnes(si);
  }

  /** Width, height and flags stand one behind the other. */
  lemma SizeStands(b: seq<bit>, m: nat, si: SpsInfo)
    requires At(b, m, SizeCode(si))
    ensures var w, h, f := Ue(WidthCode(si)), Ue(HeightCode(si)), FlagsCode(si);
      && At(b, m, w) && At(b, m + |w|, h) && At(b, m + |w| + |h|, f) && |SizeCode(si)| == |w| + |h| + |f|
  {
    var w, h, f := Ue(WidthCode(si)), Ue(HeightCode(si)), FlagsCode(si);
    hide Ue, At, FlagsCode, WidthCode, HeightCode;
    AtSplit(b, m, w, h + f);
    AtSplit(b, m + |w|, h, f);
  }

  lemma SizeOnes(si: SpsInfo)
    ensures Ones(SizeCode(si)) == Ones(Ue(WidthCode(si))) + (Ones(Ue(HeightCode(si))) + Ones(FlagsCode(si)))
  {
    OnesConcat(Ue(WidthCode(si)), Ue(HeightCode(si)) + FlagsCode(si));
    OnesConcat(Ue(HeightCode(si)), FlagsCode(si));
    hide Ones, Ue, FlagsCode, WidthCode, HeightCode;
  }

  lemma SizeValues(b: seq<bit>, p: Parsed, si: SpsInfo)
    requires Shaped(si) && !p.si.ok && ParseDims(b, p).si.ok
    requires ParseDims(b, p).si.w == si.w && ParseDims(b, p).si.h == si.h && ParseDims(b, p).si.fmbo == si.fmbo
    ensures var w := ReadUe(b, ReadBit(b, p.cur).cur);
      w.val == WidthCode(si) && ReadUe(b, w.cur).val == HeightCode(si) && w.val < UE_ERROR && HeightCode(si) < UE_ERROR
  {
    CodesOfSize(si);
    DimsParts(b, p);
    hide ReadUe, ReadBit, ReadFlags, ParseDims, WidthCode, HeightCode, Shaped;
  }

  /** How many of n reads in a row ran over. */
  function Spills(b: seq<bit>, c: Cur, n: nat): nat
    decreases n
  {
    if n == 0 then 0 else Spill(ReadUe(b, c).cur) + Spills(b, ReadUe(b, c).cur, n - 1)
  }

  lemma {:induction false} UesYield(b: seq<bit>, c: Cur, n: nat)
    requires Tame(b, c) && forall v | v in ReadUes(b, c, n).vals :: v < UE_ERROR
    ensures var r := ReadUes(b, c, n);
      Tame(b, r.cur) && c.pos <= r.cur.pos <= |b|
      && Ones(Ues(r.vals)) <= Count(b, c.pos, r.cur.pos) + Spills(b, c, n)
    decreases n
  {
    if n == 0 {
      NoReads(b, c);
      NoCodes();
      hide ReadUes, Ues;
    } else {
      OneRead(b, c, n);
      SpillsStep(b, c, n);
      hide ReadUe, ReadUes, Ues, Ue, Ones, Count, Spills;
      var first := ReadUe(b, c);
      var rest := ReadUes(b, first.cur, n - 1);
      var vals := [first.val] + rest.vals;
      assert first.val in vals && forall v | v in rest.vals :: v in vals;
      UeTame(b, c);
      UeYield(b, c);
      UesYield(b, first.cur, n - 1);
      assert vals[1..] == rest.vals;
      UesOf(vals);
      OnesConcat(Ue(first.val), Ues(rest.vals));
      CountSplit(b, c.pos, first.cur.pos, rest.cur.pos);
    }
  }

  lemma SpillsStep(b: seq<bit>, c: Cur, n: nat)
    requires n != 0
    ensures Spills(b, c, n) == Spill(ReadUe(b, c).cur) + Spills(b, ReadUe(b, c).cur, n - 1)
  {
    hide ReadUe;
  }

  function CropSpills(b: seq<bit>, c: Cur, si: SpsInfo): nat {
    if si.cropFlag == 1 then Spills(b, c, 4) else 0
  }

  lemma CropYield(b: seq<bit>, p: Parsed, si: SpsInfo)
    requires InRange(si) && Tame(b, p.cur) && p.si.ok && p.si.cropFlag == si.cropFlag
    requires ParseCrop(b, p).si.crop == si.crop
    ensures p.cur.pos <= |b| && Ones(CropCode(si)) <= Count(b, p.cur.pos, |b|) + CropSpills(b, p.cur, si)
  {
    CropsSmall(si);
    hide ReadUes, Ues, Spills, Ones, InRange;
    if si.cropFlag == 1 {
      UesYield(b, p.cur, 4);
      var e := ReadUes(b, p.cur, 4).cur;
      hide Count;
      CountSplit(b, p.cur.pos, e.pos, |b|);
    } else {
      NoOnes();
    }
  }

  lemma CropsRead(b: seq<bit>, dims: Parsed, si: SpsInfo)
    requires si.cropFlag == 1 && dims.si.ok && dims.si.cropFlag == 1 && ParseCrop(b, dims).si.crop == si.crop
    ensures ReadUes(b, dims.cur, 4).vals == si.crop && ReadUes(b, dims.cur, 4).cur == ParseCrop(b, dims).cur
    ensures CropCode(si) == Ues(si.crop)
  {
    hide ReadUes, Ues;
  }

  lemma NoOnes()
    ensures Ones([]) == 0
  {
  }

  lemma CropsSmall(si: SpsInfo)
    requires InRange(si)
    ensures forall v | v in si.crop :: v < UE_ERROR
  {
    hide Shaped;
  }

  /** The late reading of a set, from c on. */
  function Late(b: seq<bit>, c: Cur, si: SpsInfo): Parsed {
    ParseCrop(b, ParseDims(b, LateHead(b, c, si)))
  }

  function LateGaps(b: seq<bit>, c: Cur, si: SpsInfo): Cur {
    ReadBit(b, LateHead(b, c, si).cur).cur
  }

  function LateWidth(b: seq<bit>, c: Cur, si: SpsInfo): Cur {
    ReadUe(b, LateGaps(b, c, si)).cur
  }

  function LateHeight(b: seq<bit>, c: Cur, si: SpsInfo): Cur {
    ReadUe(b, LateWidth(b, c, si)).cur
  }

  /** Values and places of a late reading that gives si and has not run over by the gaps bit. */
  lemma LateRefs(b: seq<bit>, c: Cur, si: SpsInfo)
    requires InRange(si) && Tame(b, c) && Late(b, c, si).si == si && !LateGaps(b, c, si).over
    ensures !c.over && At(b, c.pos, RefsRest(si)) && LateHead(b, c, si).cur == Cur(c.pos + |RefsRest(si)|, false)
    ensures c.pos + |RefsRest(si)| <= |b|
  {
    var head := LateHead(b, c, si);
    RangeParts(si);
    LateFields(b, head, si);
    hide ReadUe, ReadPoc, ParseDims, ParseCrop, At, InRange, Tame, RefsRest;
    BitLocal(b, b, head.cur);
    var frm := ReadUe(b, c);
    var poc := ReadPoc(b, frm.cur);
    UeLocal(b, b, poc.cur);
    PocLocal(b, b, frm.cur);
    UeLocal(b, b, c);
    RefsFound(b, c, si);
  }

  lemma RefsFound(b: seq<bit>, c: Cur, si: SpsInfo)
    requires InRange(si) && Tame(b, c) && !c.over
    requires var frm := ReadUe(b, c); var poc := ReadPoc(b, frm.cur); var refs := ReadUe(b, poc.cur);
      !refs.cur.over && frm.val == si.log2frm && poc.kind == si.pocType && poc.lsb == si.pocLsb && refs.val == si.maxRef
    ensures At(b, c.pos, RefsRest(si))
      && ReadUe(b, ReadPoc(b, ReadUe(b, c).cur).cur).cur == Cur(c.pos + |RefsRest(si)|, false)
      && c.pos + |RefsRest(si)| <= |b|
  {
    TamePos(b, c);
    hide ReadUe, ReadPoc, At, InRange, PocCode, Ue;
    RefsOnly(b, c, si);
    AtEnd(b, c.pos, RefsRest(si));
  }

  lemma TameAt(b: seq<bit>, c: Cur)
    requires c.pos <= |b| && !c.over
    ensures Tame(b, c)
  {
  }

  lemma StandsRow(b: seq<bit>, p: nat, si: SpsInfo)
    requires Stands(b, p, si)
    ensures Row(b, p, RefsRest(si), SizeCode(si), CropCode(si))
  {
  }

  lemma LateParts(b: seq<bit>, c: Cur, si: SpsInfo)
    ensures var head := LateHead(b, c, si);
      && !head.si.ok && Late(b, c, si) == ParseCrop(b, ParseDims(b, head))
      && LateGaps(b, c, si) == ReadBit(b, head.cur).cur
  {
    hide ReadUe, ReadPoc, ParseDims, ParseCrop;
  }

  lemma LatePlaces(b: seq<bit>, c: Cur, si: SpsInfo)
    ensures LateGaps(b, c, si) == ReadBit(b, LateHead(b, c, si).cur).cur
    ensures LateWidth(b, c, si) == ReadUe(b, LateGaps(b, c, si)).cur
    ensures LateHeight(b, c, si) == ReadUe(b, LateWidth(b, c, si)).cur
  {
    hide ReadUe, LateHead;
  }

  /** The budget: the ones between the set and its late reading, and the late gaps bit, are at most one more than the
      late codes that ran over. */
  lemma Budget(b: seq<bit>, p: nat, c: Cur, si: SpsInfo)
    requires InRange(si) && Stands(b, p, si) && Tame(b, c) && p <= c.pos
    requires Late(b, c, si).si == si && !LateGaps(b, c, si).over
    ensures c.pos <= |b| && Count(b, p, c.pos) + ReadBit(b, LateHead(b, c, si).cur).val
      <= 1 + Spill(LateWidth(b, c, si)) + Spill(LateHeight(b, c, si))
         + CropSpills(b, ParseDims(b, LateHead(b, c, si)).cur, si)
  {
    var head := LateHead(b, c, si);
    var dims := ParseDims(b, head);
    hide *;
    RangeParts(si);
    LateParts(b, c, si);
    LateRefs(b, c, si);
    LateFields(b, head, si);
    StandsRow(b, p, si);
    TameAt(b, head.cur);
    SizeYield(b, head, si);
    CropYield(b, dims, si);
    BitYield(b, head.cur);
    LatePlaces(b, c, si);
    CountAt(b, c.pos, RefsRest(si));
    RowOnes(b, p, RefsRest(si), SizeCode(si), CropCode(si));
    var x, y, z := head.cur.pos, LateGaps(b, c, si).pos, dims.cur.pos;
    CountSplit(b, p, c.pos, |b|);
    CountSplit(b, c.pos, x, |b|);
    CountSplit(b, x, y, |b|);
    CountSplit(b, y, z, |b|);
  }

  // ---------- what the skipped fields take ----------

  lemma UeHasOne(b: seq<bit>, c: Cur)
    requires Tame(b, c) && !ReadUe(b, c).cur.over
    ensures !c.over && c.pos < ReadUe(b, c).cur.pos <= |b| && 1 <= Count(b, c.pos, ReadUe(b, c).cur.pos)
  {
    UeTame(b, c);
    UeEnds(b, c);
    var e, q := ReadUe(b, c).cur.pos, c.pos + Zeros(b, c.pos);
    hide ReadUe, Zeros, Ones, Count;
    CountSplit(b, c.pos, q, e);
    CountSplit(b, q, q + 1, e);
    CountOfOne(b, q);
  }

  lemma UeEnds(b: seq<bit>, c: Cur)
    requires Tame(b, c) && !ReadUe(b, c).cur.over
    ensures var q := c.pos + Zeros(b, c.pos); !c.over && q < ReadUe(b, c).cur.pos <= |b| && b[q] == 1
  {
    UeTame(b, c);
    ZerosClear(b, c.pos);
    UeOpens(b, c);
    hide Zeros, ReadUe;
  }

  /** Where a read goes on behind the leading zeros. */
  lemma UeOpens(b: seq<bit>, c: Cur)
    requires Tame(b, c)
    ensures var z := Zeros(b, c.pos);
      var c1 := if c.pos + z < |b| then Cur(c.pos + z + 1, c.over) else Cur(c.pos + z, true);
      Forward(c1, ReadUe(b, c).cur) && c.pos + z <= |b|
  {
    ZerosInside(b, c.pos);
    hide Zeros, ReadBits, Pow2;
    var z := Zeros(b, c.pos);
    var c1 := if c.pos + z < |b| then Cur(c.pos + z + 1, c.over) else Cur(c.pos + z, true);
    BitsTame(b, c1, if z <= UE_CAP then z else UE_CAP, 0);
  }

  /** The code of 2 is 011. */
  lemma UeOfTwo(b: seq<bit>, c: Cur)
    requires Tame(b, c) && !ReadUe(b, c).cur.over && ReadUe(b, c).val == 2
    ensures c.pos <= ReadUe(b, c).cur.pos <= |b| && 2 <= Count(b, c.pos, ReadUe(b, c).cur.pos)
  {
    UeYield(b, c);
    CodeOfZeroAndTwo();
    OnesConcat([0, 1], [1]);
    OnesConcat([0], [1]);
    OnesOfOne();
    assert [0, 1] + [1] == [0, 1, 1] && [0] + [1] == [0, 1];
    hide ReadUe, Count, Ones;
  }

  function PlaneBit(b: seq<bit>, chroma: Read): nat {
    if chroma.val == 3 then ReadBit(b, chroma.cur).val else 0
  }

  /** The skipped fields, one after the other, and the ones they must contain. */
  lemma SkipParts(b: seq<bit>, c: Cur)
    returns (chroma: Read, c1: Cur, luma: Read, depth: Read, bypass: Read, matrix: Read)
    requires Tame(b, c)
    ensures chroma == ReadUe(b, c) && c1 == (if chroma.val == 3 then ReadBit(b, chroma.cur).cur else chroma.cur)
    ensures luma == ReadUe(b, c1) && depth == ReadUe(b, luma.cur)
    ensures bypass == ReadBit(b, depth.cur) && matrix == ReadBit(b, bypass.cur)
    ensures SkipHigh(b, c)
      == if matrix.val == 1 then SkipLists(b, matrix.cur, 0, if chroma.val != 3 then 8 else 12) else matrix.cur
    ensures Tame(b, matrix.cur)
    ensures !SkipHigh(b, c).over ==>
      && !matrix.cur.over && c.pos <= matrix.cur.pos <= SkipHigh(b, c).pos <= |b|
      && 3 + PlaneBit(b, chroma) + (if luma.val == 2 then 1 else 0) + bypass.val + matrix.val
         <= Count(b, c.pos, matrix.cur.pos) <= Count(b, c.pos, SkipHigh(b, c).pos)
  {
    hide ReadUe, ReadBit, SkipLists, Tame, Count;
    chroma := ReadUe(b, c);
    UeTame(b, c);
    c1 := if chroma.val == 3 then ReadBit(b, chroma.cur).cur else chroma.cur;
    BitTame(b, chroma.cur);
    luma := ReadUe(b, c1);
    UeTame(b, c1);
    depth := ReadUe(b, luma.cur);
    UeTame(b, luma.cur);
    bypass := ReadBit(b, depth.cur);
    BitTame(b, depth.cur);
    matrix := ReadBit(b, bypass.cur);
    BitTame(b, bypass.cur);
    var total := if chroma.val != 3 then 8 else 12;
    ListsTame(b, matrix.cur, 0, total);
    ListsLocal(b, b, matrix.cur, 0, total);
    if !SkipHigh(b, c).over {
      SkipCount(b, c, chroma, c1, luma, depth, bypass, matrix);
      TamePos(b, SkipHigh(b, c));
      CountSplit(b, c.pos, matrix.cur.pos, SkipHigh(b, c).pos);
    }
  }

  lemma SkipCount(b: seq<bit>, c: Cur, chroma: Read, c1: Cur, luma: Read, depth: Read, bypass: Read, matrix: Read)
    requires Tame(b, c) && chroma == ReadUe(b, c)
    requires c1 == if chroma.val == 3 then ReadBit(b, chroma.cur).cur else chroma.cur
    requires luma == ReadUe(b, c1) && depth == ReadUe(b, luma.cur)
    requires bypass == ReadBit(b, depth.cur) && matrix == ReadBit(b, bypass.cur)
    requires !matrix.cur.over
    ensures c.pos <= matrix.cur.pos <= |b|
    ensures 3 + PlaneBit(b, chroma) + (if luma.val == 2 then 1 else 0) + bypass.val + matrix.val
      <= Count(b, c.pos, matrix.cur.pos)
  {
    hide ReadUe, ReadBit, Count;
    UeTame(b, c);
    BitTame(b, chroma.cur);
    UeTame(b, c1);
    UeTame(b, luma.cur);
    BitTame(b, depth.cur);
    BitTame(b, bypass.cur);
    hide Tame;
    UeHasOne(b, c);
    PlaneCount(b, chroma, c1);
    UeHasOne(b, c1);
    if luma.val == 2 {
      UeOfTwo(b, c1);
    }
    UeHasOne(b, luma.cur);
    BitYield(b, depth.cur);
    BitYield(b, bypass.cur);
    CountSplit(b, c.pos, chroma.cur.pos, matrix.cur.pos);
    CountSplit(b, chroma.cur.pos, c1.pos, matrix.cur.pos);
    CountSplit(b, c1.pos, luma.cur.pos, matrix.cur.pos);
    CountSplit(b, luma.cur.pos, depth.cur.pos, matrix.cur.pos);
    CountSplit(b, depth.cur.pos, bypass.cur.pos, matrix.cur.pos);
  }

  lemma PlaneCount(b: seq<bit>, chroma: Read, c1: Cur)
    requires Tame(b, chroma.cur)
    requires c1 == if chroma.val == 3 then ReadBit(b, chroma.cur).cur else chroma.cur
    ensures chroma.cur.pos <= c1.pos <= |b| && Count(b, chroma.cur.pos, c1.pos) == PlaneBit(b, chroma)
  {
    if chroma.val == 3 {
      BitYield(b, chroma.cur);
    } else {
      NoOnes();
      assert b[c1.pos..c1.pos] == [];
    }
    hide Ones, ReadBit;
  }

  // ---------- sets with nothing but zeros behind the width ----------

  /** The gaps bit at g, a width of z leading zeros, height code 0 at h, four clear flags, and the end. */
  predicate Frame(b: seq<bit>, g: nat, z: nat, h: nat) {
    && h == g + 2 + 2 * z && h + 6 < |b| && b[g] == 0 && b[g + 1 + z] == 1 && b[h] == 1
    && (forall i | g < i <= g + z :: b[i] == 0) && (forall i | h < i <= h + 5 :: b[i] == 0)
  }

  lemma TailLarge(b: seq<bit>, g: nat, z: nat, h: nat, c: Cur)
    requires Frame(b, g, z, h) && (c.pos == h + 1 || c.pos == h + 2)
    ensures 15 <= ReadUe(b, c).val
  {
    SmallPow();
    hide Pow2, ReadUe;
    UeLarge(b, c, 4);
  }

  /** A code that starts at the gaps bit: too large, or its reader stops at the first flag or reads 2. */
  lemma CodeAtGaps(b: seq<bit>, g: nat, z: nat, h: nat)
    requires Frame(b, g, z, h)
    ensures var r := ReadUe(b, Cur(g, false));
      && (z == 0 ==> r.val == 2) && (z == 1 ==> r.val <= 6 && r.cur == Cur(h + 1, false))
      && (z == 2 ==> r.cur == Cur(h + 1, false)) && (2 <= z ==> 7 <= r.val) && (3 <= z ==> 15 <= r.val)
  {
    SmallPow();
    hide Pow2, ReadUe;
    if z == 0 {
      UeShort1(b, Cur(g, false), 1);
    } else if z == 1 {
      UeShort2(b, Cur(g, false), b[g + 3], 1);
    } else if z == 2 {
      UeShort3(b, Cur(g, false), b[g + 4], b[g + 5], 1);
    } else {
      UeLarge(b, Cur(g, false), 4);
    }
  }

  /** A code that starts one bit earlier, with a 0: it or the one behind it is too large. */
  lemma CodeBeforeGaps(b: seq<bit>, g: nat, z: nat, h: nat)
    requires Frame(b, g, z, h) && 0 < g && b[g - 1] == 0
    ensures var r := ReadUe(b, Cur(g - 1, false)); 15 <= r.val || 15 <= ReadUe(b, r.cur).val
  {
    SmallPow();
    hide Pow2, ReadUe;
    var c := Cur(g - 1, false);
    if z == 0 {
      UeShort2(b, c, 1, 0);
      TailLarge(b, g, z, h, Cur(h + 2, false));
    } else if z == 1 {
      UeShort3(b, c, b[g + 3], 1, 0);
      TailLarge(b, g, z, h, Cur(h + 2, false));
    } else {
      UeLarge(b, c, 4);
    }
  }

  /** The late reading from c finds si's references and width. */
  predicate LateGives(b: seq<bit>, c: Cur, si: SpsInfo) {
    var frm := ReadUe(b, c);
    var poc := ReadPoc(b, frm.cur);
    var refs := ReadUe(b, poc.cur);
    && frm.val == si.log2frm && poc.kind == si.pocType && poc.lsb == si.pocLsb && refs.val == si.maxRef
    && ReadUe(b, ReadBit(b, refs.cur).cur).val == WidthCode(si)
  }

  /** Count type 0 is there as a single one, with the order count size behind it. */
  lemma PocZero(b: seq<bit>, c: Cur)
    requires c.pos < |b|
    ensures ReadPoc(b, c).kind == 0 ==> b[c.pos] == 1
    ensures b[c.pos] == 1 ==>
      var lsb := ReadUe(b, Cur(c.pos + 1, c.over)); ReadPoc(b, c) == Poc(0, lsb.val, lsb.cur)
  {
    SmallPow();
    hide ReadUe, SkipUes, Pow2;
    if b[c.pos] == 1 {
      UeOfOne(b, c);
    } else {
      UeLarge(b, c, 1);
    }
  }

  /** A code in parts, as it stands. */
  lemma CodeParts(b: seq<bit>, p: nat, v: u32) returns (n: nat)
    requires At(b, p, Ue(v)) && v < U32_MAX
    ensures n == Log2(v + 1) && |Ue(v)| == 2 * n + 1 && p + 2 * n < |b| && b[p + n] == 1
    ensures forall i | p <= i < p + n :: b[i] == 0
  {
    n := Log2(v + 1);
    UeCode(v);
    hide Ue, UBits, Log2;
    AtElement(b, p, Ue(v), n);
    AtEnd(b, p, Ue(v));
    forall i | p <= i < p + n ensures b[i] == 0 {
      AtElement(b, p, Ue(v), i - p);
    }
  }

  /** In range, outside the order count the two kinds of set whose skipped fields need just three ones. */
  predicate Sparse(si: SpsInfo) {
    (si.pocType == 0 && si.log2frm != 3) || (si.pocType == 2 && si.log2frm == 3)
  }

  lemma InsideTwo(b: seq<bit>, p: nat, g: nat, z: nat, h: nat, si: SpsInfo, x: nat, y: nat)
    requires Frame(b, g, z, h) && g == p + 5 && Sparse(si) && si.pocLsb <= 12 && si.maxRef == 3 + 2 * x + y
    requires b[p + 2] == 1 && b[p + 3] == x && b[p + 4] == y && (z <= 2 ==> WidthCode(si) < 15)
    ensures !LateGives(b, Cur(p + 2, false), si)
  {
    hide ReadUe, ReadPoc, WidthCode;
    var c := Cur(p + 2, false);
    UeOfOne(b, c);
    if LateGives(b, c, si) {
      PocZero(b, Cur(p + 3, false));
      if y == 1 {
        UeOfOne(b, Cur(p + 4, false));
        CodeAtGaps(b, g, z, h);
        TailLarge(b, g, z, h, Cur(h + 2, false));
      } else {
        CodeBeforeGaps(b, g, z, h);
      }
    }
  }

  lemma InsideThree(b: seq<bit>, p: nat, g: nat, z: nat, h: nat, si: SpsInfo, x: nat, y: nat, u: nat)
    requires Frame(b, g, z, h) && g == p + 7 && Sparse(si) && si.pocLsb <= 12
    requires si.maxRef == 7 + 4 * x + 2 * y + u <= 14
    requires b[p + 2] == 0 && b[p + 3] == 1 && b[p + 4] == x && b[p + 5] == y && b[p + 6] == u
    requires z <= 2 ==> WidthCode(si) < 15
    ensures !LateGives(b, Cur(p + 2, false), si)
  {
    hide ReadUe, ReadPoc, WidthCode;
    var c := Cur(p + 2, false);
    UeShort1(b, c, x);
    if LateGives(b, c, si) {
      PocZero(b, Cur(p + 5, false));
      if u == 1 {
        UeOfOne(b, Cur(p + 6, false));
        CodeAtGaps(b, g, z, h);
        TailLarge(b, g, z, h, Cur(h + 2, false));
      } else {
        CodeBeforeGaps(b, g, z, h);
      }
    }
  }

  lemma InsideFour(b: seq<bit>, p: nat, g: nat, z: nat, h: nat, si: SpsInfo, y: nat)
    requires Frame(b, g, z, h) && g == p + 9 && Sparse(si)
    requires b[p + 2] == 0 && b[p + 3] == 0 && b[p + 4] == 1 && b[p + 5] == 0 && b[p + 6] == 0 && b[p + 7] == 0
    requires b[p + 8] == y
    ensures !LateGives(b, Cur(p + 2, false), si)
  {
    SmallPow();
    hide ReadUe, WidthCode, Pow2, SkipUes;
    var c := Cur(p + 2, false);
    UeShort2(b, c, 0, 0);
    if y == 1 {
      UeShort1(b, Cur(p + 7, false), 0);
    } else {
      UeLarge(b, Cur(p + 7, false), 3);
    }
  }

  /** The first bits of a reference count of at least 3. */
  lemma InsideRefs(b: seq<bit>, p: nat, g: nat, z: nat, h: nat, si: SpsInfo)
    requires InRange(si) && Sparse(si) && 3 <= si.maxRef && At(b, p, Ue(si.maxRef)) && g == p + |Ue(si.maxRef)|
    requires Frame(b, g, z, h) && (z <= 2 ==> WidthCode(si) < 15)
    ensures !LateGives(b, Cur(p + 2, false), si)
  {
    hide *;
    RefsSmall(si);
    var n := CodeParts(b, p, si.maxRef);
    RefsLog(si.maxRef);
    FrameInside(b, g, z, h);
    UeInverts(b, Cur(p, false), si.maxRef);
    if n == 2 {
      UeShort2(b, Cur(p, false), b[p + 3], b[p + 4]);
      InsideTwo(b, p, g, z, h, si, b[p + 3], b[p + 4]);
    } else if n == 3 {
      UeShort3(b, Cur(p, false), b[p + 4], b[p + 5], b[p + 6]);
      InsideThree(b, p, g, z, h, si, b[p + 4], b[p + 5], b[p + 6]);
    } else {
      UeShort4(b, Cur(p, false), si.maxRef);
      InsideFour(b, p, g, z, h, si, b[p + 8]);
    }
  }

  lemma RefsSmall(si: SpsInfo)
    requires InRange(si)
    ensures si.maxRef <= 16 && si.pocLsb <= 12 && si.log2frm <= 12 && (si.pocType == 0 || si.pocType == 2)
    ensures si.maxRef < U32_MAX && (Sparse(si) <==> (si.pocType == 0 <==> si.log2frm != 3))
  {
    hide Shaped;
  }

  lemma RefsLog(r: nat)
    requires 3 <= r <= 16
    ensures Log2(r + 1) == if r <= 6 then 2 else if r <= 14 then 3 else 4
  {
    SmallPow();
    Log2Is(r + 1, if r <= 6 then 2 else if r <= 14 then 3 else 4);
  }

  lemma FrameInside(b: seq<bit>, g: nat, z: nat, h: nat)
    requires Frame(b, g, z, h)
    ensures g < h && h + 6 < |b| && b[g] == 0
  {
  }

  /** Four leading zeros and a value of at most 16 leave only the last bit open. */
  lemma UeShort4(b: seq<bit>, c: Cur, r: nat)
    requires c.pos + 8 < |b| && b[c.pos + 4] == 1 && forall i | c.pos <= i < c.pos + 4 :: b[i] == 0
    requires ReadUe(b, c).val == r <= 16
    ensures b[c.pos + 5] == 0 && b[c.pos + 6] == 0 && b[c.pos + 7] == 0
  {
    var t := b[c.pos + 5..c.pos + 9];
    SmallPow();
    hide ReadUe, Pow2;
    UeWhole(b, c, 4);
    ValueOf3(t[..3], t[0], t[1], t[2]);
    assert t[..|t| - 1] == t[..3];
    assert t[0] == b[c.pos + 5] && t[1] == b[c.pos + 6] && t[2] == b[c.pos + 7];
  }

  // ---------- scaling lists that run into the end ----------

  /** A frame without a width, and less than a byte behind its stop bit. */
  predicate Stub(b: seq<bit>, g: nat, h: nat) {
    && Frame(b, g, 0, h) && b[h + 6] == 1 && |b| <= h + 14 && forall i | h + 7 <= i < |b| :: b[i] == 0
  }

  lemma {:induction false} ValueOfZeros(t: seq<bit>)
    requires forall i | 0 <= i < |t| :: t[i] == 0
    ensures Value(t) == 0
  {
    if t != [] {
      ValueOfZeros(t[..|t| - 1]);
    }
  }

  /** From the first flag on the next code reads 31. */
  lemma StubCode(b: seq<bit>, g: nat, h: nat, c: Cur)
    requires Stub(b, g, h) && Tame(b, c) && c.pos == h + 1
    ensures ReadUe(b, c).val == 31
    ensures ReadUe(b, c).cur == if h + 12 <= |b| then Cur(h + 12, c.over) else Cur(|b|, true)
  {
    hide Zeros, ReadBits, Pow2, Value;
    SmallPow();
    ZerosAt(b, h + 1, 5);
    var c1 := Cur(h + 7, c.over);
    BitsTaken(b, c1, 5, 0);
    ValueOfZeros(Taken(b, h + 7, 5));
  }

  lemma NoOneLeft(b: seq<bit>, c: Cur)
    requires Tame(b, c) && forall i | c.pos <= i < |b| :: b[i] == 0
    ensures ReadUe(b, c).cur.over
  {
    ZerosClear(b, c.pos);
    hide ReadBits, Zeros, Pow2;
    var z := Zeros(b, c.pos);
    ZerosInside(b, c.pos);
    assert c.pos + z == |b|;
    BitsLocal(b, b, Cur(c.pos + z, true), if z <= UE_CAP then z else UE_CAP, 0);
  }

  lemma ZerosInside(b: seq<bit>, pos: nat)
    requires pos <= |b|
    ensures pos + Zeros(b, pos) <= |b|
  {
  }

  lemma ListDies(b: seq<bit>, g: nat, h: nat, left: nat, last: nat)
    requires Stub(b, g, h) && 2 <= left && 8 <= last <= 10
    ensures SkipList(b, Cur(h + 1, false), left, last, last).over
  {
    var c := Cur(h + 1, false);
    var r := ReadUe(b, c);
    StubRest(b, g, h);
    hide *;
    TameAt(b, c);
    StubCode(b, g, h, c);
    ListStep(b, c, left, last, last);
    var n := last + 31;
    if r.cur.over {
      ListLocal(b, b, r.cur, left - 1, n, n);
    } else {
      TameAt(b, r.cur);
      NoOneLeft(b, r.cur);
      ListOver(b, r.cur, left - 1, n);
    }
  }

  lemma StubRest(b: seq<bit>, g: nat, h: nat)
    requires Stub(b, g, h)
    ensures h + 6 < |b| && forall i | h + 7 <= i < |b| :: b[i] == 0
  {
  }

  lemma ListOver(b: seq<bit>, c: Cur, left: nat, last: nat)
    requires 0 < left && 0 < last && ReadUe(b, c).cur.over
    ensures SkipList(b, c, left, last, last).over
  {
    hide ReadUe;
    var e := ReadUe(b, c);
    var k := (last + e.val) % 256;
    ListStep(b, c, left, last, last);
    ListLocal(b, b, e.cur, left - 1, if k != 0 then k else last, k);
  }

  lemma ListStep(b: seq<bit>, c: Cur, left: nat, last: nat, nxt: nat)
    requires left != 0 && nxt != 0
    ensures var r := ReadUe(b, c); var n := (last + r.val) % 256;
      SkipList(b, c, left, last, nxt) == SkipList(b, r.cur, left - 1, if n != 0 then n else last, n)
  {
    hide ReadUe;
  }

  lemma ListsStep1(b: seq<bit>, c: Cur, m: nat, total: nat)
    requires m < total && c.pos < |b|
    ensures b[c.pos] == 0 ==> SkipLists(b, c, m, total) == SkipLists(b, Cur(c.pos + 1, c.over), m + 1, total)
    ensures b[c.pos] == 1 ==>
      var list := SkipList(b, Cur(c.pos + 1, c.over), if m < 6 then 16 else 64, 8, 8);
      SkipLists(b, c, m, total) == SkipLists(b, list, m + 1, total)
  {
    hide SkipList;
  }

  /** A list flag at the height, the width or the gaps bit starts a list that runs over. */
  lemma ListsDie(b: seq<bit>, g: nat, h: nat, c: Cur, m: nat, total: nat)
    requires Stub(b, g, h) && m < 6 < total && !c.over
    requires c.pos == h || c.pos == h - 1 || (c.pos == g - 1 && 0 < g && b[g - 1] == 1)
    ensures SkipLists(b, c, m, total).over
  {
    hide ReadUe, SkipList, SkipLists;
    ListsStep1(b, c, m, total);
    var at := Cur(c.pos + 1, false);
    if c.pos == h {
      ListDies(b, g, h, 16, 8);
    } else if c.pos == h - 1 {
      UeOfOne(b, at);
      ListStep(b, at, 16, 8, 8);
      ListDies(b, g, h, 15, 8);
    } else {
      UeShort1(b, at, 1);
      ListStep(b, at, 16, 8, 8);
      ListDies(b, g, h, 15, 10);
    }
    ListsLocal(b, b, SkipList(b, at, 16, 8, 8), m + 1, total);
  }

  /** r = 1: two clear flags, then one at the width. */
  lemma ListsDieLater(b: seq<bit>, g: nat, h: nat, c: Cur, total: nat)
    requires Stub(b, g, h) && 6 < total && !c.over && c.pos == g - 1 && 0 < g && b[g - 1] == 0
    ensures SkipLists(b, c, 0, total).over
  {
    hide SkipLists;
    ListsStep1(b, c, 0, total);
    ListsStep1(b, Cur(g, false), 1, total);
    ListsDie(b, g, h, Cur(g + 1, false), 2, total);
  }

  /** Behind the end everything reads as 0. */
  lemma DeadLate(b: seq<bit>, c: Cur, si: SpsInfo)
    requires Tame(b, c) && c.over && LateGives(b, c, si)
    ensures si.log2frm == 0 && si.pocType == 0 && si.pocLsb == 0 && si.maxRef == 0 && WidthCode(si) == 0
  {
    DeadUe(b, c);
    hide ReadUe, WidthCode, SkipUes;
  }

  // ---------- putting it together ----------

  /** Where the codes of the references stand: their sizes, and what starts where. */
  lemma RefsPlaces(b: seq<bit>, p: nat, si: SpsInfo) returns (q: nat)
    requires InRange(si) && At(b, p, RefsRest(si))
    ensures var l, g := |Ue(si.log2frm)|, p + |RefsRest(si)|;
      && At(b, p, Ue(si.log2frm)) && At(b, q, Ue(si.maxRef)) && q + |Ue(si.maxRef)| == g <= |b|
      && (si.pocType == 0 ==>
            p + l < |b| && b[p + l] == 1 && At(b, p + l + 1, Ue(si.pocLsb)) && q == p + l + 1 + |Ue(si.pocLsb)|)
      && (si.pocType == 2 ==>
            p + l + 2 < |b| && b[p + l] == 0 && b[p + l + 1] == 1 && b[p + l + 2] == 1 && q == p + l + 3)
  {
    hide *;
    RangeParts(si);
    RefsRestIs(si);
    AtEnd(b, p, RefsRest(si));
    var l, r := Ue(si.log2frm), Ue(si.maxRef);
    AtSplit(b, p, l, PocCode(si) + r);
    AtSplit(b, p + |l|, PocCode(si), r);
    q := p + |l| + |PocCode(si)|;
    if si.pocType == 0 {
      PocCodeZero(si);
      AtSplit(b, p + |l|, [1], Ue(si.pocLsb));
      AtElement(b, p + |l|, [1], 0);
    } else {
      PocCodeTwo(si);
      AtElement(b, p + |l|, [0, 1, 1], 0);
      AtElement(b, p + |l|, [0, 1, 1], 1);
      AtElement(b, p + |l|, [0, 1, 1], 2);
    }
  }

  lemma RefsRestIs(si: SpsInfo)
    ensures RefsRest(si) == Ue(si.log2frm) + (PocCode(si) + Ue(si.maxRef))
  {
  }

  lemma PocCodeZero(si: SpsInfo)
    requires si.pocType == 0
    ensures PocCode(si) == [1] + Ue(si.pocLsb)
  {
    CodeOfZeroAndTwo();
    hide Ue;
  }

  lemma PocCodeTwo(si: SpsInfo)
    requires si.pocType == 2
    ensures PocCode(si) == [0, 1, 1]
  {
    CodeOfZeroAndTwo();
    hide Ue;
  }

  /** No height, no flags, no crops: what stands behind the references is a frame. */
  predicate Bare(si: SpsInfo) {
    && HeightCode(si) == 0 && si.fmbo == 0 && si.mbAdaptive == 0 && si.direct8x8 == 0 && si.cropFlag == 0
  }

  lemma BareCode(si: SpsInfo)
    requires Bare(si)
    ensures SizeCode(si) == Ue(WidthCode(si)) + [1, 0, 0, 0, 0] && CropCode(si) == []
  {
    CodeOfZeroAndTwo();
    Bit1Is(0);
    hide Ue, WidthCode, HeightCode, Bit1;
  }

  lemma FrameOf(b: seq<bit>, g: nat, w: u32) returns (z: nat, h: nat)
    requires At(b, g, [0]) && At(b, g + 1, Ue(w) + [1, 0, 0, 0, 0]) && w < U32_MAX && Ends(b, g + 1 + |Ue(w)| + 5)
    ensures z == Log2(w + 1) && Frame(b, g, z, h)
    ensures b[h + 6] == 1 && |b| <= h + 14 && forall i | h + 7 <= i < |b| :: b[i] == 0
  {
    hide Ue, At, Log2;
    AtSplit(b, g + 1, Ue(w), [1, 0, 0, 0, 0]);
    z := CodeParts(b, g + 1, w);
    h := g + 2 + 2 * z;
    AtElement(b, g, [0], 0);
    forall i | h <= i < h + 5 ensures i < |b| && b[i] == [1, 0, 0, 0, 0][i - h] {
      AtElement(b, h, [1, 0, 0, 0, 0], i - h);
    }
  }

  lemma WidthLog(w: nat)
    ensures Log2(w + 1) <= 2 ==> w < 15
    ensures w == 0 ==> Log2(w + 1) == 0
  {
    SmallPow();
    Log2Bounds(w + 1);
    var z := Log2(w + 1);
    if z <= 2 {
      Pow2Grows(z, 2);
    }
    hide Pow2;
  }

  lemma BareFrame(b: seq<bit>, p: nat, si: SpsInfo) returns (z: nat, h: nat)
    requires Stands(b, p, si) && InRange(si) && Bare(si)
    ensures var g := p + |RefsRest(si)|;
      && Frame(b, g, z, h) && (z <= 2 ==> WidthCode(si) < 15) && (WidthCode(si) == 0 ==> z == 0 && Stub(b, g, h))
  {
    hide *;
    var g, w := p + |RefsRest(si)|, WidthCode(si);
    RangeParts(si);
    CodesOfSize(si);
    WidthSmall(si);
    BareCode(si);
    StandsRow(b, p, si);
    RowBare(b, p, RefsRest(si), w);
    z, h := FrameOf(b, g, w);
    WidthLog(w);
    if w == 0 {
      StubOf(b, g, h);
    }
  }

  lemma WidthSmall(si: SpsInfo)
    requires WidthCode(si) <= MAX_MBS_MINUS1
    ensures WidthCode(si) < U32_MAX
  {
    hide WidthCode;
  }

  lemma RowBare(b: seq<bit>, p: nat, x: seq<bit>, w: u32)
    requires Row(b, p, x, Ue(w) + [1, 0, 0, 0, 0], [])
    ensures var g := p + |x|;
      At(b, p, x) && At(b, g, [0]) && At(b, g + 1, Ue(w) + [1, 0, 0, 0, 0]) && Ends(b, g + 1 + |Ue(w)| + 5)
  {
    hide Ue, At, Ends;
  }

  lemma StubOf(b: seq<bit>, g: nat, h: nat)
    requires Frame(b, g, 0, h) && b[h + 6] == 1 && |b| <= h + 14 && forall i | h + 7 <= i < |b| :: b[i] == 0
    ensures Stub(b, g, h)
  {
  }

  /** Where the bit depth of chroma ends: behind the reference count if the plane bit or the luma code already took an
      extra one, and in front of it otherwise. */
  lemma SkipStart(b: seq<bit>, p: nat, q: nat, si: SpsInfo, chroma: Read, c1: Cur, luma: Read, depth: Read)
    requires InRange(si) && At(b, p, Ue(si.log2frm)) && At(b, q, Ue(si.maxRef))
    requires var l := |Ue(si.log2frm)|;
      && (si.pocType == 0 ==>
            p + l < |b| && b[p + l] == 1 && At(b, p + l + 1, Ue(si.pocLsb)) && q == p + l + 1 + |Ue(si.pocLsb)|)
      && (si.pocType == 2 ==>
            p + l + 2 < |b| && b[p + l] == 0 && b[p + l + 1] == 1 && b[p + l + 2] == 1 && q == p + l + 3)
    requires chroma == ReadUe(b, Cur(p, false))
    requires c1 == if chroma.val == 3 then ReadBit(b, chroma.cur).cur else chroma.cur
    requires luma == ReadUe(b, c1) && depth == ReadUe(b, luma.cur)
    ensures chroma.val == si.log2frm
    ensures depth.cur == Cur(if Sparse(si) then q else q + |Ue(si.maxRef)|, false)
    ensures !Sparse(si) ==> 1 <= PlaneBit(b, chroma) + if luma.val == 2 then 1 else 0
  {
    RangeParts(si);
    RefsSmall(si);
    hide *;
    UeInverts(b, Cur(p, false), si.log2frm);
    UeInverts(b, Cur(q, false), si.maxRef);
    if si.pocType == 0 {
      StartZero(b, p, q, si, chroma, c1, luma, depth);
    } else {
      StartTwo(b, p, q, si, chroma, c1, luma, depth);
    }
  }

  lemma StartZero(b: seq<bit>, p: nat, q: nat, si: SpsInfo, chroma: Read, c1: Cur, luma: Read, depth: Read)
    requires si.pocType == 0 && si.pocLsb <= 12 && At(b, p + |Ue(si.log2frm)| + 1, Ue(si.pocLsb))
    requires p + |Ue(si.log2frm)| < |b| && b[p + |Ue(si.log2frm)|] == 1
    requires q == p + |Ue(si.log2frm)| + 1 + |Ue(si.pocLsb)|
    requires chroma == Read(si.log2frm, Cur(p + |Ue(si.log2frm)|, false))
    requires ReadUe(b, Cur(q, false)) == Read(si.maxRef, Cur(q + |Ue(si.maxRef)|, false))
    requires c1 == if chroma.val == 3 then ReadBit(b, chroma.cur).cur else chroma.cur
    requires luma == ReadUe(b, c1) && depth == ReadUe(b, luma.cur)
    ensures depth.cur == Cur(if Sparse(si) then q else q + |Ue(si.maxRef)|, false)
    ensures !Sparse(si) ==> PlaneBit(b, chroma) == 1
  {
    hide ReadUe, Ue, At;
    UeInverts(b, Cur(p + |Ue(si.log2frm)| + 1, false), si.pocLsb);
    if si.log2frm != 3 {
      UeOfOne(b, chroma.cur);
    }
  }

  lemma StartTwo(b: seq<bit>, p: nat, q: nat, si: SpsInfo, chroma: Read, c1: Cur, luma: Read, depth: Read)
    requires si.pocType == 2
    requires var at := p + |Ue(si.log2frm)|;
      at + 2 < |b| && b[at] == 0 && b[at + 1] == 1 && b[at + 2] == 1 && q == at + 3
    requires chroma == Read(si.log2frm, Cur(p + |Ue(si.log2frm)|, false))
    requires ReadUe(b, Cur(q, false)) == Read(si.maxRef, Cur(q + |Ue(si.maxRef)|, false))
    requires c1 == if chroma.val == 3 then ReadBit(b, chroma.cur).cur else chroma.cur
    requires luma == ReadUe(b, c1) && depth == ReadUe(b, luma.cur)
    ensures depth.cur == Cur(if Sparse(si) then q else q + |Ue(si.maxRef)|, false)
    ensures !Sparse(si) ==> luma.val == 2
  {
    hide ReadUe, Ue;
    var at := chroma.cur.pos;
    if si.log2frm == 3 {
      UeOfOne(b, Cur(at + 1, false));
      UeOfOne(b, Cur(at + 2, false));
    } else {
      UeShort1(b, Cur(at, false), 1);
    }
  }

  /** The skipped fields of a set in range: they end at the chroma bit depth of the place above, two bits, and the
      scaling lists if the second is a one. */
  lemma SkipLeads(b: seq<bit>, p: nat, si: SpsInfo) returns (q: nat, e: nat)
    requires InRange(si) && At(b, p, RefsRest(si)) && p + |RefsRest(si)| + 1 < |b|
    ensures p <= q && At(b, q, Ue(si.maxRef)) && q + |Ue(si.maxRef)| == p + |RefsRest(si)|
    ensures e == if Sparse(si) then q else p + |RefsRest(si)|
    ensures p <= e && e + 1 < |b|
    ensures var c := SkipHigh(b, Cur(p, false));
      && Tame(b, c)
      && c == (if b[e + 1] == 1 then SkipLists(b, Cur(e + 2, false), 0, if si.log2frm != 3 then 8 else 12)
               else Cur(e + 2, false))
      && (!c.over ==>
            p <= e + 2 <= c.pos <= |b|
            && 3 + (if Sparse(si) then 0 else 1) + b[e] as int + b[e + 1] as int
               <= Count(b, p, e + 2) <= Count(b, p, c.pos))
  {
    hide *;
    TameAt(b, Cur(p, false));
    RefsSmall(si);
    q := RefsPlaces(b, p, si);
    CodeNonempty(si.maxRef);
    RangeParts(si);
    e := if Sparse(si) then q else p + |RefsRest(si)|;
    HighTame(b, Cur(p, false));
    var chroma, c1, luma, depth, bypass, matrix := SkipParts(b, Cur(p, false));
    SkipStart(b, p, q, si, chroma, c1, luma, depth);
    BitHere(b, Cur(e, false));
    BitHere(b, Cur(e + 1, false));
  }

  lemma CodeNonempty(v: u32)
    ensures 1 <= |Ue(v)|
  {
    hide UBits, Log2;
  }

  lemma BitHere(b: seq<bit>, c: Cur)
    requires c.pos < |b|
    ensures ReadBit(b, c) == Read(b[c.pos], Cur(c.pos + 1, c.over))
  {
  }

  // ---------- sets without a width ----------

  lemma RefsBits(b: seq<bit>, q: nat, r: u32)
    requires r <= 16 && At(b, q, Ue(r))
    ensures r == 0 ==> |Ue(r)| == 1 && q < |b| && b[q] == 1
    ensures 0 < r <= 2 ==> |Ue(r)| == 3 && q + 2 < |b| && b[q] == 0 && b[q + 1] == 1 && b[q + 2] == r - 1
    ensures 3 <= r ==> q + 2 < |b| && b[q] == 0 && b[q + 1] == 0
  {
    hide Ue, At;
    var n := CodeParts(b, q, r);
    RefsLogs(r);
    UeInverts(b, Cur(q, false), r);
    if n == 1 {
      UeShort1(b, Cur(q, false), b[q + 2]);
    }
  }

  lemma RefsLogs(r: nat)
    requires r <= 16
    ensures Log2(r + 1) == if r == 0 then 0 else if r <= 2 then 1 else if r <= 6 then 2 else if r <= 14 then 3 else 4
  {
    SmallPow();
    if 3 <= r {
      RefsLog(r);
    } else {
      Log2Is(r + 1, if r == 0 then 0 else 1);
    }
  }

  lemma StubBits(b: seq<bit>, g: nat, h: nat)
    requires Stub(b, g, h)
    ensures h == g + 2 && h + 6 < |b| && b[g] == 0 && b[g + 1] == 1 && b[h] == 1
  {
  }

  /** Reference count 0: the late reading starts behind the gaps bit and finds 31 as the order count size. */
  lemma BareNoRefs(b: seq<bit>, g: nat, h: nat, si: SpsInfo)
    requires Stub(b, g, h) && si.pocLsb <= 12
    ensures !LateGives(b, Cur(g + 1, false), si)
  {
    hide *;
    StubBits(b, g, h);
    UeOfOne(b, Cur(g + 1, false));
    PocZero(b, Cur(h, false));
    TameAt(b, Cur(h + 1, false));
    StubCode(b, g, h, Cur(h + 1, false));
    if LateGives(b, Cur(g + 1, false), si) {
      GivenPoc(b, Cur(g + 1, false), si);
    }
  }

  lemma GivenPoc(b: seq<bit>, c: Cur, si: SpsInfo)
    requires LateGives(b, c, si)
    ensures ReadPoc(b, ReadUe(b, c).cur).lsb == si.pocLsb
  {
    hide ReadUe, ReadPoc, ReadBit, WidthCode;
  }

  /** A set with neither width nor height nor flags nor crops: every late reading finds a value it does not have. */
  lemma BareMisread(b: seq<bit>, p: nat, si: SpsInfo)
    requires InRange(si) && Stands(b, p, si) && Bare(si) && WidthCode(si) == 0
    ensures !LateGives(b, SkipHigh(b, Cur(p, false)), si)
  {
    hide *;
    RefsSmall(si);
    var g := p + |RefsRest(si)|;
    var z, h := BareFrame(b, p, si);
    StubBits(b, g, h);
    StandsRow(b, p, si);
    RowFirst(b, p, RefsRest(si), SizeCode(si), CropCode(si));
    var q, e := SkipLeads(b, p, si);
    RefsBits(b, q, si.maxRef);
    var c, total := SkipHigh(b, Cur(p, false)), if si.log2frm != 3 then 8 else 12;
    if !Sparse(si) {
      ListsDie(b, g, h, Cur(h, false), 0, total);
    } else if si.maxRef == 0 {
      BareNoRefs(b, g, h, si);
    } else if si.maxRef == 1 {
      ListsDieLater(b, g, h, Cur(g - 1, false), total);
    } else if si.maxRef == 2 {
      ListsDie(b, g, h, Cur(g - 1, false), 0, total);
    } else {
      InsideRefs(b, q, g, z, h, si);
    }
    if c.over && LateGives(b, c, si) {
      DeadLate(b, c, si);
    }
  }

  lemma RowFirst(b: seq<bit>, p: nat, x: seq<bit>, y: seq<bit>, z: seq<bit>)
    requires Row(b, p, x, y, z)
    ensures At(b, p, x)
  {
  }

  // ---------- sets without crops ----------

  lemma LateIsGiven(b: seq<bit>, c: Cur, si: SpsInfo)
    requires InRange(si) && Late(b, c, si).si == si
    ensures LateGives(b, c, si)
    ensures ReadUe(b, LateWidth(b, c, si)).val == HeightCode(si)
    ensures var f := ReadFlags(b, LateHeight(b, c, si));
      f.fmbo == si.fmbo && f.mb == si.mbAdaptive && f.d8 == si.direct8x8 && f.crop == si.cropFlag
  {
    var head := LateHead(b, c, si);
    RangeParts(si);
    LateParts(b, c, si);
    LateFields(b, head, si);
    DimsParts(b, head);
    SizeValues(b, head, si);
    hide ReadUe, ReadBit, ReadPoc, ReadFlags, ParseDims, ParseCrop, WidthCode, HeightCode, InRange, Shaped;
  }

  lemma DeadFlags(b: seq<bit>, c: Cur)
    requires Tame(b, c) && c.over
    ensures ReadFlags(b, c) == Flags(0, 0, 0, 0, c)
  {
  }

  /** A late reading that ran over by the end of the width finds no height and no flags, one that ran over by the gaps
      bit no width either. */
  lemma LateDead(b: seq<bit>, c: Cur, si: SpsInfo)
    requires InRange(si) && Tame(b, c) && Late(b, c, si).si == si && LateWidth(b, c, si).over
    ensures Bare(si)
    ensures LateGaps(b, c, si).over ==> WidthCode(si) == 0
  {
    hide InRange, Tame, Late, LateGaps, LateWidth, LateHeight, LateHead, HeightCode, WidthCode, ReadUe, ReadFlags;
    LateIsGiven(b, c, si);
    LatePlaces(b, c, si);
    LateTame(b, c, si);
    DeadUe(b, LateWidth(b, c, si));
    DeadFlags(b, LateHeight(b, c, si));
    if LateGaps(b, c, si).over {
      DeadUe(b, LateGaps(b, c, si));
      GivenWidth(b, c, si);
    }
  }

  lemma GivenWidth(b: seq<bit>, c: Cur, si: SpsInfo)
    requires LateGives(b, c, si)
    ensures ReadUe(b, LateGaps(b, c, si)).val == WidthCode(si)
  {
    hide ReadUe, ReadPoc, ReadBit, WidthCode;
  }

  lemma LateTame(b: seq<bit>, c: Cur, si: SpsInfo)
    requires Tame(b, c)
    ensures Tame(b, LateHead(b, c, si).cur) && Tame(b, LateGaps(b, c, si))
    ensures Tame(b, LateWidth(b, c, si)) && Tame(b, LateHeight(b, c, si))
    ensures LateGaps(b, c, si).over ==> LateWidth(b, c, si).over
    ensures LateWidth(b, c, si).over ==> LateHeight(b, c, si).over
  {
    hide Tame, ReadUe, ReadPoc, ReadBit;
    var frm := ReadUe(b, c);
    var poc := ReadPoc(b, frm.cur);
    var refs := ReadUe(b, poc.cur);
    UeTame(b, c);
    PocTame(b, frm.cur);
    UeTame(b, poc.cur);
    BitTame(b, refs.cur);
    UeTame(b, LateGaps(b, c, si));
    UeTame(b, LateWidth(b, c, si));
  }

  lemma PocTame(b: seq<bit>, c: Cur)
    requires Tame(b, c)
    ensures Tame(b, ReadPoc(b, c).cur)
  {
    hide Tame, ReadUe, ReadBit, SkipUes;
    var t := ReadUe(b, c);
    UeTame(b, c);
    if t.val == 0 {
      UeTame(b, t.cur);
    } else if t.val == 1 {
      var flag := ReadBit(b, t.cur);
      BitTame(b, t.cur);
      var nonref := ReadUe(b, flag.cur);
      UeTame(b, flag.cur);
      var field := ReadUe(b, nonref.cur);
      UeTame(b, nonref.cur);
      var cycle := ReadUe(b, field.cur);
      UeTame(b, field.cur);
      SkipsTame(b, cycle.cur, CycleCap(cycle.val));
    }
  }

  lemma {:induction false} SkipsTame(b: seq<bit>, c: Cur, n: nat)
    requires Tame(b, c)
    ensures Tame(b, SkipUes(b, c, n))
    decreases n
  {
    hide Tame, ReadUe;
    if n != 0 {
      UeTame(b, c);
      SkipsTame(b, ReadUe(b, c).cur, n - 1);
    }
  }

  /** The skipped fields take three ones at least, and without crops only the two sizes can run over. */
  lemma CroplessMisread(b: seq<bit>, p: nat, si: SpsInfo)
    requires InRange(si) && Stands(b, p, si) && si.cropFlag == 0
    ensures Late(b, SkipHigh(b, Cur(p, false)), si).si != si
  {
    hide *;
    var c := SkipHigh(b, Cur(p, false));
    if Late(b, c, si).si == si {
      StandsRow(b, p, si);
      RowFirst(b, p, RefsRest(si), SizeCode(si), CropCode(si));
      RowLonger(b, p, RefsRest(si), SizeCode(si), CropCode(si));
      var q, e := SkipLeads(b, p, si);
      LateTame(b, c, si);
      LateIsGiven(b, c, si);
      if LateGaps(b, c, si).over {
        LateDead(b, c, si);
        BareMisread(b, p, si);
      } else {
        LateRefs(b, c, si);
        Budget(b, p, c, si);
        assert CropSpills(b, ParseDims(b, LateHead(b, c, si)).cur, si) == 0 by {
          NoCropSpills(b, ParseDims(b, LateHead(b, c, si)).cur, si);
        }
        LateDead(b, c, si);
        RefsSmall(si);
        RefsBits(b, q, si.maxRef);
        var z, h := BareFrame(b, p, si);
        InsideRefs(b, q, p + |RefsRest(si)|, z, h, si);
      }
    }
  }

  lemma NoCropSpills(b: seq<bit>, c: Cur, si: SpsInfo)
    requires si.cropFlag == 0
    ensures CropSpills(b, c, si) == 0
  {
  }

  lemma RowLonger(b: seq<bit>, p: nat, x: seq<bit>, y: seq<bit>, z: seq<bit>)
    requires Row(b, p, x, y, z)
    ensures p + |x| + 1 < |b|
  {
    hide At;
  }
}
