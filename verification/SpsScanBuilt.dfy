/** When the scanning tool finds a size: its reads against the reader's, and the sets the builder writes. */
module SpsScanBuilt {
  import opened Words
  import opened Bits
  import opened SpsParse
  import opened SpsBuild
  import opened SpsRoundTrip
  import opened SpsCanon
  import opened SpsScan
  import SpsTail
  import GateSets

  // ---------- a read of the tool against one of the reader ----------

  lemma {:induction false} ZerosTaken(b: seq<bit>, pos: nat, z: nat)
    requires z <= 24
    ensures TakeZeros(b, pos, z)
      == if pos + Zeros(b, pos) < |b| && z + Zeros(b, pos) <= 24
         then Got(Taken(z + Zeros(b, pos), pos + Zeros(b, pos) + 1)) else Raised
    decreases |b| - pos
  {
    if pos < |b| && b[pos] == 0 && z < 24 {
      ZerosTaken(b, pos + 1, z + 1);
    }
  }

  lemma {:induction false} BitsGot(b: seq<bit>, pos: nat, n: nat, acc: nat)
    requires pos <= |b|
    ensures TakeBits(b, pos, n, acc)
      == if pos + n <= |b| then Got(Taken(ReadBits(b, Cur(pos, false), n, acc).val, pos + n)) else Raised
    ensures ReadBits(b, Cur(pos, false), n, acc).cur.over <==> |b| < pos + n
    ensures pos + n <= |b| ==> ReadBits(b, Cur(pos, false), n, acc).cur.pos == pos + n
    decreases n
  {
    if n != 0 {
      if pos < |b| {
        BitsGot(b, pos + 1, n - 1, 2 * acc + b[pos]);
      } else {
        OverStays(b, Cur(pos, true), n - 1, 2 * acc);
      }
    }
  }

  lemma {:induction false} OverStays(b: seq<bit>, c: Cur, n: nat, acc: nat)
    requires c.over
    ensures ReadBits(b, c, n, acc).cur.over
    decreases n
  {
    if n != 0 {
      var r := ReadBit(b, c);
      OverStays(b, r.cur, n - 1, 2 * acc + r.val);
    }
  }

  /** The tool's read raises exactly where the reader's runs off the end or meets more than 24 zeros; otherwise the two
      come to the same value at the same place. */
  lemma TakenIff(b: seq<bit>, pos: nat)
    requires pos <= |b|
    ensures var r := ReadUe(b, Cur(pos, false));
      TakeUe(b, pos) == if Zeros(b, pos) <= 24 && !r.cur.over then Got(Taken(r.val, r.cur.pos)) else Raised
  {
    hide Zeros, ReadBits, TakeZeros, TakeBits, Pow2;
    var z := Zeros(b, pos);
    ZerosTaken(b, pos, 0);
    if pos + z < |b| {
      BitsGot(b, pos + z + 1, z, 0);
    } else {
      OverStays(b, Cur(pos + z, true), if z <= UE_CAP then z else UE_CAP, 0);
    }
  }

  lemma ReadableBelow(v: u32)
    requires Readable(v)
    ensures v < 0x1FF_FFFF
  {
  }

  lemma CodeTaken(b: seq<bit>, pos: nat, v: u32)
    requires Readable(v) && At(b, pos, Ue(v))
    ensures TakeUe(b, pos) == Got(Taken(v, pos + |Ue(v)|)) && pos + |Ue(v)| <= |b|
  {
    hide *;
    AtInside(b, pos, Ue(v));
    ReadableBelow(v);
    CodeLength(v);
    UeShape(b, pos, v);
    UeInverts(b, Cur(pos, false), v);
    TakenIff(b, pos);
    Limits();
  }

  lemma AtInside(b: seq<bit>, pos: nat, x: seq<bit>)
    requires At(b, pos, x)
    ensures pos + |x| <= |b|
  {
  }

  // ---------- the fields of a built set ----------

  lemma PocTaken(b: seq<bit>, pos: nat, si: SpsInfo)
    requires Writable(si) && At(b, pos, PocCode(si))
    ensures TakePoc(b, pos) == Got(Taken(0, pos + |PocCode(si)|))
  {
    hide Ue, At, TakeUe;
    AtSplit(b, pos, Ue(si.pocType), if si.pocType == 0 then Ue(si.pocLsb) else []);
    CodeTaken(b, pos, si.pocType);
    if si.pocType == 0 {
      CodeTaken(b, pos + |Ue(si.pocType)|, si.pocLsb);
    }
  }

  lemma FrameTaken(b: seq<bit>, pos: nat, si: SpsInfo)
    requires At(b, pos, FlagsCode(si))
    ensures TakeBit(b, pos) == Got(Taken(si.fmbo, pos + 1))
    ensures si.fmbo == 0 ==> TakeBit(b, pos + 1).Got?
  {
    var x, y := Bit1(si.fmbo), if si.fmbo == 0 then Bit1(si.mbAdaptive) else [];
    AtSplit(b, pos, x, y + (Bit1(si.direct8x8) + Bit1(si.cropFlag)));
    AtSplit(b, pos + 1, y, Bit1(si.direct8x8) + Bit1(si.cropFlag));
  }

  lemma DimsPieces(si: SpsInfo)
    ensures |Bit1(0)| == 1
    ensures DimsCode(si) == Bit1(0) + (Ue(WidthCode(si)) + (Ue(HeightCode(si)) + FlagsCode(si)))
  {
    hide Ue, WidthCode, HeightCode, FlagsCode;
  }

  lemma DimsStand(b: seq<bit>, pos: nat, si: SpsInfo)
    requires At(b, pos, Ue(si.maxRef) + DimsCode(si))
    ensures var r, x, y := |Ue(si.maxRef)|, |Ue(WidthCode(si))|, |Ue(HeightCode(si))|;
      && At(b, pos, Ue(si.maxRef)) && TakeBit(b, pos + r).Got? && At(b, pos + r + 1, Ue(WidthCode(si)))
      && At(b, pos + r + 1 + x, Ue(HeightCode(si))) && At(b, pos + r + 1 + x + y, FlagsCode(si))
  {
    hide *;
    var r, g, x, y, f := Ue(si.maxRef), Bit1(0), Ue(WidthCode(si)), Ue(HeightCode(si)), FlagsCode(si);
    DimsPieces(si);
    AtSplit(b, pos, r, g + (x + (y + f)));
    AtSplit(b, pos + |r|, g, x + (y + f));
    AtSplit(b, pos + |r| + 1, x, y + f);
    AtSplit(b, pos + |r| + 1 + |x|, y, f);
    AtInside(b, pos + |r| + 1, x);
    BitThere(b, pos + |r|);
  }

  lemma BitThere(b: seq<bit>, pos: nat)
    requires pos < |b|
    ensures TakeBit(b, pos).Got?
  {
  }

  lemma DimsOf(b: seq<bit>, pos: nat, refs: Taken, gaps: Taken, w: Taken, h: Taken, fmbo: Taken)
    requires TakeUe(b, pos) == Got(refs) && TakeBit(b, refs.pos) == Got(gaps) && TakeUe(b, gaps.pos) == Got(w)
    requires TakeUe(b, w.pos) == Got(h) && TakeBit(b, h.pos) == Got(fmbo) && fmbo.val <= 1
    requires fmbo.val == 0 ==> TakeBit(b, fmbo.pos).Got?
    ensures TakeDims(b, pos, 0) == Got(Dims(w.val + 1, h.val + 1, fmbo.val, 0))
  {
    hide TakeUe, TakeBit;
  }

  lemma BitGot(b: seq<bit>, pos: nat)
    requires TakeBit(b, pos).Got?
    ensures TakeBit(b, pos).value.pos == pos + 1
  {
  }

  lemma SizeTaken(b: seq<bit>, pos: nat, si: SpsInfo)
    requires Shaped(si) && At(b, pos, Ue(si.maxRef) + DimsCode(si))
    ensures TakeDims(b, pos, 0) == Got(Dims(WidthCode(si) + 1, HeightCode(si) + 1, si.fmbo, 0))
  {
    hide *;
    CodesReadable(si);
    DimsStand(b, pos, si);
    var r := pos + |Ue(si.maxRef)|;
    var x := r + 1 + |Ue(WidthCode(si))|;
    var y := x + |Ue(HeightCode(si))|;
    CodeTaken(b, pos, si.maxRef);
    CodeTaken(b, r + 1, WidthCode(si));
    CodeTaken(b, x, HeightCode(si));
    FrameTaken(b, y, si);
    BitGot(b, r);
    DimsOf(b, pos, Taken(si.maxRef, r), TakeBit(b, r).value, Taken(WidthCode(si), x), Taken(HeightCode(si), y),
           Taken(si.fmbo, y + 1));
  }

  lemma CodesReadable(si: SpsInfo)
    requires Shaped(si)
    ensures Readable(si.spsId) && Readable(si.log2frm) && Readable(si.maxRef)
    ensures Readable(WidthCode(si)) && Readable(HeightCode(si))
  {
    CodesOfSize(si);
    hide WidthCode, HeightCode;
  }

  lemma RefsParts(si: SpsInfo)
    ensures RefsCode(si) == Ue(si.spsId) + (Ue(si.log2frm) + (PocCode(si) + Ue(si.maxRef)))
  {
    hide Ue, PocCode;
  }

  lemma Assoc(x: seq<bit>, y: seq<bit>, z: seq<bit>, u: seq<bit>, w: seq<bit>)
    ensures x + (y + (z + u)) + w == x + (y + (z + (u + w)))
  {
  }

  lemma RefsStand(b: seq<bit>, si: SpsInfo)
    requires At(b, 24, RefsCode(si) + DimsCode(si))
    ensures var x, y, z := |Ue(si.spsId)|, |Ue(si.log2frm)|, |PocCode(si)|;
      && At(b, 24, Ue(si.spsId)) && At(b, 24 + x, Ue(si.log2frm)) && At(b, 24 + x + y, PocCode(si))
      && At(b, 24 + x + y + z, Ue(si.maxRef) + DimsCode(si))
  {
    hide *;
    var x, y, z, u, w := Ue(si.spsId), Ue(si.log2frm), PocCode(si), Ue(si.maxRef), DimsCode(si);
    RefsParts(si);
    Assoc(x, y, z, u, w);
    AtSplit(b, 24, x, y + (z + (u + w)));
    AtSplit(b, 24 + |x|, y, z + (u + w));
    AtSplit(b, 24 + |x| + |y|, z, u + w);
  }

  lemma ScanOf(b: seq<bit>, profile: byte, id: Taken, frm: Taken, poc: Taken)
    requires !HighProfile(profile) && TakeUe(b, 24) == Got(id) && TakeUe(b, id.pos) == Got(frm)
    requires TakePoc(b, frm.pos) == Got(poc)
    ensures ScanBits(b, profile) == TakeDims(b, poc.pos, poc.val)
  {
    hide HighProfile, TakeUe, TakePoc, TakeDims;
  }

  /** The tool reads a writable set's fields from any string that holds them, whatever follows. */
  lemma FieldsTaken(b: seq<bit>, si: SpsInfo)
    requires Writable(si) && si.profile < 0x100 && At(b, 24, RefsCode(si) + DimsCode(si))
    ensures ScanBits(b, si.profile) == Got(Dims(WidthCode(si) + 1, HeightCode(si) + 1, si.fmbo, 0))
  {
    hide *;
    WritableParts(si);
    CodesReadable(si);
    RefsStand(b, si);
    var x := 24 + |Ue(si.spsId)|;
    var y := x + |Ue(si.log2frm)|;
    CodeTaken(b, 24, si.spsId);
    CodeTaken(b, x, si.log2frm);
    PocTaken(b, y, si);
    SizeTaken(b, y + |PocCode(si)|, si);
    ScanOf(b, si.profile, Taken(si.spsId, x), Taken(si.log2frm, y), Taken(0, y + |PocCode(si)|));
  }

  lemma WritableParts(si: SpsInfo)
    requires Writable(si)
    ensures Shaped(si) && !HighProfile(si.profile)
  {
    hide Shaped, HighProfile;
  }

  // ---------- the bytes ----------

  lemma {:induction false} StdMonotone(d: seq<byte>, k: nat)
    requires k <= |d|
    ensures StdStrip(d[..k]) <= StdStrip(d)
    decreases |d|
  {
    if k < |d| {
      var n := |d| - 1;
      StdMonotone(d[..n], k);
      assert d[..n][..k] == d[..k];
    } else {
      assert d[..k] == d;
    }
  }

  lemma NoneDoubled(d: seq<byte>)
    requires Strip(d) == d
    ensures StdStrip(d) == d
  {
    hide Strip, StdStrip, NoDouble;
    StripShorter(d, |d|);
    StripsAgreeOrShorter(d);
  }

  lemma StripsAgreeOrShorter(d: seq<byte>)
    ensures Strip(d) == StdStrip(d) || |Strip(d)| < |StdStrip(d)|
    ensures |StdStrip(d)| <= |d|
  {
    hide Strip, StdStrip, DoubleEscape;
    StripsAgree(d);
    if !NoDouble(d) {
      var i :| 0 <= i < |d| - 2 && DoubleEscape(d, i);
      DoubleLost(d, i);
    }
  }

  /** What the tool strips is a header byte short of what starts with the built set. */
  lemma DataHolds(si: SpsInfo, t: seq<byte>) returns (s: seq<byte>)
    requires Legal(si)
    ensures BuildSps(si) != []
    ensures s == StdStrip((BuildSps(si) + t)[1..]) && BuildSps(si) <= [0x67] + s && 3 <= |s|
  {
    hide *;
    var u := BuildSps(si);
    var d := u + t;
    GateSets.BuiltStripped(si);
    NalByte(si);
    BuiltBits(si);
    NoneDoubled(u);
    assert d[..|u|] == u && d == [0x67] + d[1..];
    StdMonotone(d, |u|);
    StripBehindHeader(0x67, d[1..]);
    s := StdStrip(d[1..]);
  }

  /** What stands at 32 in a prefix of c stands eight bits earlier in b, if c is b behind one more byte. */
  lemma Shifted(a: seq<bit>, b: seq<bit>, c: seq<bit>, x: seq<bit>)
    requires Behind(b, c) && |a| <= |c| && (forall i | 0 <= i < |a| :: c[i] == a[i]) && At(a, 32, x)
    ensures At(b, 24, x)
  {
    forall i | 0 <= i < |x| ensures b[24 + i] == x[i] {
      assert a[32..32 + |x|][i] == a[32 + i] == c[24 + i + 8];
    }
  }

  lemma FieldsStand(a: seq<bit>, si: SpsInfo)
    requires At(a, 0, FieldBits(si))
    ensures At(a, 32, RefsCode(si) + DimsCode(si))
  {
    HeadLength(si);
    var h, x, y, z := HeadCode(si), RefsCode(si), DimsCode(si), CropCode(si);
    hide HeadCode, RefsCode, DimsCode, CropCode, At;
    AtSplit(a, 0, h, x + (y + z));
    assert x + (y + z) == x + y + z;
    AtSplit(a, 32, x + y, z);
  }

  lemma HeldBits(si: SpsInfo, s: seq<byte>)
    requires si.profile < 0x100 && si.constraint < 0x100 && si.level < 0x100
    requires BuildSps(si) <= [0x67] + s && 3 <= |s|
    ensures At(BitsOf(s), 24, RefsCode(si) + DimsCode(si)) && s[0] == si.profile
  {
    hide *;
    var u, e := BuildSps(si), [0x67] + s;
    BuiltBits(si);
    HeaderBytes(si);
    assert e[1] == u[1];
    BitsBehind(0x67, s);
    SpsTail.BitsOfPrefix(u, e);
    FieldsStand(BitsOf(u), si);
    Shifted(BitsOf(u), BitsOf(s), BitsOf(e), RefsCode(si) + DimsCode(si));
  }

  /** A legal set is scanned from the bytes built for it, whatever follows them, if and only if there are eight bytes
      behind the header byte; the tool then finds its size. */
  lemma BuiltScanned(si: SpsInfo, t: seq<byte>)
    requires Legal(si)
    ensures var d := BuildSps(si) + t;
      && d != [] && (Scan(d[1..]).Got? <==> 9 <= |d|)
      && (9 <= |d| ==> Scan(d[1..]).value.Width() == si.w && Scan(d[1..]).value.Height() == si.h)
  {
    hide *;
    var s := DataHolds(si, t);
    LegalIsWritable(si);
    WritableParts(si);
    ShapedBytes(si);
    CodesOfSize(si);
    HeldBits(si, s);
    FieldsTaken(BitsOf(s), si);
    ScanTest((BuildSps(si) + t)[1..]);
    SizeOf(Dims(WidthCode(si) + 1, HeightCode(si) + 1, si.fmbo, 0));
  }

  lemma ShapedBytes(si: SpsInfo)
    requires Shaped(si)
    ensures si.profile < 0x100 && si.constraint < 0x100 && si.level < 0x100
  {
  }

  lemma ScanTest(rbsp: seq<byte>)
    requires StdStrip(rbsp) != []
    ensures Scan(rbsp) == if |rbsp| < 8 then Raised else ScanBits(BitsOf(StdStrip(rbsp)), StdStrip(rbsp)[0])
  {
    hide StdStrip, ScanBits, BitsOf;
  }

  lemma SizeOf(d: Dims)
    ensures d.Width() == d.mbs * 16 && d.Height() == d.units * if d.fmbo == 1 then 16 else 32
  {
  }
}
