/** The scanning tool's own SPS parser, and when it sees the same picture size as the reader's. It raises where
    the reader reads on: at the end of the data, and on more than 24 leading zeros. */
module SpsScan {
  import opened Words
  import opened Bits
  import opened SpsParse

  /** A read that may raise. */
  datatype Attempt<+T> = Raised | Got(value: T) {
    predicate IsFailure() { Raised? }
    function PropagateFailure<U>(): Attempt<U>
      requires Raised?
    {
      Raised
    }
    function Extract(): T
      requires Got?
    {
      value
    }
  }

  // ---------- the two strips ----------

  /** Section 7.4.1: every 3 behind two zero bytes is dropped. */
  function StdStrip(d: seq<byte>): (s: seq<byte>)
    ensures |s| <= |d|
  {
    if d == [] then []
    else
      var n := |d| - 1;
      if EndsEscape(d) then StdStrip(d[..n]) else StdStrip(d[..n]) + [d[n]]
  }

  predicate EndsEscape(d: seq<byte>) {
    3 <= |d| && d[|d| - 1] == 3 && EndsZeros(d[..|d| - 1])
  }

  predicate EndsZeros(d: seq<byte>) {
    2 <= |d| && d[|d| - 1] == 0 && d[|d| - 2] == 0
  }

  /** An escape followed by 03, or by 00 03. */
  predicate DoubleEscape(d: seq<byte>, i: nat)
    requires i + 2 < |d|
  {
    EmulationAt(d, i) && ((i + 3 < |d| && d[i + 3] == 3) || (i + 4 < |d| && d[i + 3] == 0 && d[i + 4] == 3))
  }

  predicate NoDouble(d: seq<byte>) {
    forall i | 0 <= i < |d| - 2 :: !DoubleEscape(d, i)
  }

  /** How the output of the reader's strip ends: the zeros before a dropped 3 still count. */
  predicate Follows(d: seq<byte>) {
    && EndsZeros(Strip(d))
       == (EndsZeros(d) || EndsEscape(d) || (4 <= |d| && d[|d| - 1] == 0 && EndsEscape(d[..|d| - 1])))
    && (Strip(d) != [] && Strip(d)[|Strip(d)| - 1] == 0) == ((d != [] && d[|d| - 1] == 0) || EndsEscape(d))
  }

  lemma NoDoublePrefix(d: seq<byte>)
    requires d != [] && NoDouble(d)
    ensures NoDouble(d[..|d| - 1])
  {
    var e := d[..|d| - 1];
    forall i | 0 <= i < |e| - 2 ensures !DoubleEscape(e, i) {
      assert !DoubleEscape(d, i);
    }
  }

  lemma NoThirdWay(d: seq<byte>)
    requires d != [] && NoDouble(d) && d[|d| - 1] == 3
    ensures var e := d[..|d| - 1]; !EndsEscape(e) && !(4 <= |e| && e[|e| - 1] == 0 && EndsEscape(e[..|e| - 1]))
  {
    var n := |d| - 1;
    if 3 <= n {
      assert !DoubleEscape(d, n - 3);
    }
    if 4 <= n {
      assert !DoubleEscape(d, n - 4);
    }
  }

  lemma {:induction false} StripsMeet(d: seq<byte>)
    requires NoDouble(d)
    ensures Strip(d) == StdStrip(d) && Follows(d)
  {
    if d != [] {
      NoDoublePrefix(d);
      StripsMeet(d[..|d| - 1]);
      if d[|d| - 1] == 3 {
        NoThirdWay(d);
      }
      hide NoDouble, DoubleEscape;
    }
  }

  lemma {:induction false} ZerosKept(d: seq<byte>)
    requires EndsZeros(d)
    ensures EndsZeros(Strip(d))
  {
    var n := |d| - 1;
    assert Strip(d) == Strip(d[..n]) + [0];
    assert d[..n][..n - 1] == d[..n - 1];
    assert Strip(d[..n]) == Strip(d[..n - 1]) + [0];
  }

  lemma {:induction false} StripShorter(d: seq<byte>, k: nat)
    requires k <= |d|
    ensures |Strip(d)| - |StdStrip(d)| <= |Strip(d[..k])| - |StdStrip(d[..k])| <= 0
    decreases |d|
  {
    if k < |d| {
      var n := |d| - 1;
      StripShorter(d[..n], k);
      assert d[..n][..k] == d[..k];
      if EndsEscape(d) {
        ZerosKept(d[..n]);
      }
    } else {
      assert d[..k] == d;
      if d != [] {
        StripShorter(d[..k - 1], k - 1);
        if EndsEscape(d) {
          ZerosKept(d[..k - 1]);
        }
      }
    }
  }

  lemma StripLast(d: seq<byte>, n: nat)
    requires n < |d|
    ensures Strip(d[..n + 1]) == StripStep(Strip(d[..n]), d[n])
    ensures !EndsEscape(d[..n + 1]) ==> StdStrip(d[..n + 1]) == StdStrip(d[..n]) + [d[n]]
  {
    assert d[..n + 1][..n] == d[..n];
    hide StripStep, EndsEscape;
  }

  /** A 3 behind two zeros kept, and not behind two zeros: the reader's strip drops it, the standard keeps it. */
  lemma LostAt(d: seq<byte>, m: nat)
    requires m < |d| && d[m] == 3 && EndsZeros(Strip(d[..m])) && !EndsEscape(d[..m + 1])
    ensures |Strip(d)| < |StdStrip(d)|
  {
    hide Strip, StdStrip, EndsEscape;
    StripLast(d, m);
    assert d[..m][..m] == d[..m];
    StripShorter(d[..m], m);
    StripShorter(d, m + 1);
  }

  lemma ZerosAfterEscape(d: seq<byte>, i: nat)
    requires i + 2 < |d| && EmulationAt(d, i)
    ensures EndsZeros(Strip(d[..i + 3]))
  {
    ZerosKept(d[..i + 2]);
    hide Strip;
    StripLast(d, i + 2);
  }

  /** At a double escape the reader's strip drops a byte the standard keeps. */
  lemma DoubleLost(d: seq<byte>, i: nat)
    requires i + 2 < |d| && DoubleEscape(d, i)
    ensures |Strip(d)| < |StdStrip(d)|
  {
    hide Strip, StdStrip;
    ZerosAfterEscape(d, i);
    if d[i + 3] == 3 {
      LostAt(d, i + 3);
    } else {
      StripLast(d, i + 3);
      LostAt(d, i + 4);
    }
  }

  /** The reader's strip is the standard's exactly on inputs without a double escape. */
  lemma StripsAgree(d: seq<byte>)
    ensures Strip(d) == StdStrip(d) <==> NoDouble(d)
  {
    if NoDouble(d) {
      StripsMeet(d);
    } else {
      var i :| 0 <= i < |d| - 2 && DoubleEscape(d, i);
      hide *;
      DoubleLost(d, i);
    }
  }

  /** A nonzero first byte is kept and changes nothing behind it. */
  lemma {:induction false} StripBehindHeader(h: byte, d: seq<byte>)
    requires h != 0
    ensures StdStrip([h] + d) == [h] + StdStrip(d)
    decreases |d|
  {
    var e := [h] + d;
    if d == [] {
      assert e[..0] == [];
    } else {
      var n := |d| - 1;
      assert e[..n + 1] == [h] + d[..n];
      StripBehindHeader(h, d[..n]);
      assert EndsEscape(e) == EndsEscape(d);
    }
  }

  // ---------- reading, as functions ----------

  datatype Taken = Taken(val: nat, pos: nat)

  function TakeBit(b: seq<bit>, pos: nat): Attempt<Taken> {
    if pos < |b| then Got(Taken(b[pos], pos + 1)) else Raised
  }

  function TakeZeros(b: seq<bit>, pos: nat, z: nat): Attempt<Taken>
    decreases |b| - pos
  {
    var t :- TakeBit(b, pos);
    if t.val == 1 then Got(Taken(z, t.pos)) else if UE_CAP < z + 1 then Raised else TakeZeros(b, t.pos, z + 1)
  }

  function TakeBits(b: seq<bit>, pos: nat, n: nat, acc: nat): Attempt<Taken>
    decreases n
  {
    if n == 0 then Got(Taken(acc, pos))
    else
      var t :- TakeBit(b, pos);
      TakeBits(b, t.pos, n - 1, 2 * acc + t.val)
  }

  function TakeUe(b: seq<bit>, pos: nat): Attempt<Taken> {
    var z :- TakeZeros(b, pos, 0);
    var v :- TakeBits(b, z.pos, z.val, 0);
    Got(Taken(Pow2(z.val) - 1 + v.val, v.pos))
  }

  function TakeUes(b: seq<bit>, pos: nat, n: nat): Attempt<nat>
    decreases n
  {
    if n == 0 then Got(pos)
    else
      var t :- TakeUe(b, pos);
      TakeUes(b, t.pos, n - 1)
  }

  function TakeList(b: seq<bit>, pos: nat, left: nat, last: nat, nxt: nat): Attempt<nat>
    decreases left
  {
    if left == 0 then Got(pos)
    else if nxt == 0 then TakeList(b, pos, left - 1, last, nxt)
    else
      var t :- TakeUe(b, pos);
      var n := (last + t.val) % 256;
      TakeList(b, t.pos, left - 1, if n != 0 then n else last, n)
  }

  function TakeLists(b: seq<bit>, pos: nat, m: nat, total: nat): Attempt<nat>
    decreases total - m
  {
    if total <= m then Got(pos)
    else
      var t :- TakeBit(b, pos);
      if t.val == 1 then
        var p :- TakeList(b, t.pos, if m < 6 then 16 else 64, 8, 8);
        TakeLists(b, p, m + 1, total)
      else
        TakeLists(b, t.pos, m + 1, total)
  }

  function TakeHigh(b: seq<bit>, pos: nat): Attempt<nat> {
    var chroma :- TakeUe(b, pos);
    var plane :- if chroma.val == 3 then TakeBit(b, chroma.pos) else Got(chroma);
    var luma :- TakeUe(b, plane.pos);
    var depth :- TakeUe(b, luma.pos);
    var bypass :- TakeBit(b, depth.pos);
    var matrix :- TakeBit(b, bypass.pos);
    if matrix.val == 1 then TakeLists(b, matrix.pos, 0, if chroma.val != 3 then 8 else 12) else Got(matrix.pos)
  }

  /** Position behind the picture order count fields, and how many cycle offsets they held. */
  function TakePoc(b: seq<bit>, pos: nat): Attempt<Taken> {
    var kind :- TakeUe(b, pos);
    if kind.val == 0 then
      var lsb :- TakeUe(b, kind.pos);
      Got(Taken(0, lsb.pos))
    else if kind.val == 1 then
      var flag :- TakeBit(b, kind.pos);
      var nonref :- TakeUe(b, flag.pos);
      var field :- TakeUe(b, nonref.pos);
      var cycle :- TakeUe(b, field.pos);
      var p :- TakeUes(b, cycle.pos, cycle.val);
      Got(Taken(cycle.val, p))
    else
      Got(Taken(0, kind.pos))
  }

  /** Stored macroblock dimensions, the frame flag, and the cycle length met on the way. */
  datatype Dims = Dims(mbs: nat, units: nat, fmbo: bit, cycle: nat) {
    function Width(): nat { mbs * 16 }
    function Height(): nat { if fmbo == 1 then units * 16 else units * 32 }
  }

  function TakeDims(b: seq<bit>, pos: nat, cycle: nat): Attempt<Dims> {
    var refs :- TakeUe(b, pos);
    var gaps :- TakeBit(b, refs.pos);
    var w :- TakeUe(b, gaps.pos);
    var h :- TakeUe(b, w.pos);
    var fmbo :- TakeBit(b, h.pos);
    if fmbo.val == 1 then Got(Dims(w.val + 1, h.val + 1, 1, cycle))
    else
      var mb :- TakeBit(b, fmbo.pos);
      Got(Dims(w.val + 1, h.val + 1, 0, cycle))
  }

  function ScanBits(b: seq<bit>, profile: byte): Attempt<Dims> {
    var id :- TakeUe(b, 24);
    var p :- if HighProfile(profile) then TakeHigh(b, id.pos) else Got(id.pos);
    var frm :- TakeUe(b, p);
    var poc :- TakePoc(b, frm.pos);
    TakeDims(b, poc.pos, poc.val)
  }

  /** What the tool makes of the bytes behind a NAL header. */
  function Scan(rbsp: seq<byte>): Attempt<Dims> {
    if |rbsp| < 8 || StdStrip(rbsp) == [] then Raised else ScanBits(BitsOf(StdStrip(rbsp)), StdStrip(rbsp)[0])
  }

  // ---------- the two parsers in step ----------

  /** e is b behind one more byte. */
  predicate Behind(b: seq<bit>, e: seq<bit>) {
    |e| == |b| + 8 && forall p | 0 <= p < |b| :: e[p + 8] == b[p]
  }

  lemma BitStep(b: seq<bit>, e: seq<bit>, pos: nat, o: bool)
    requires Behind(b, e) && TakeBit(b, pos).Got?
    ensures var t := TakeBit(b, pos).value; ReadBit(e, Cur(pos + 8, o)) == Read(t.val, Cur(t.pos + 8, o))
  {
    assert e[pos + 8] == b[pos];
  }

  lemma {:induction false} ZerosStep(b: seq<bit>, e: seq<bit>, pos: nat, z: nat)
    requires Behind(b, e) && TakeZeros(b, pos, z).Got? && z <= UE_CAP
    ensures var t := TakeZeros(b, pos, z).value;
      t.val == z + Zeros(e, pos + 8) <= UE_CAP && t.pos == pos + (t.val - z) + 1 <= |b|
    decreases |b| - pos
  {
    var t := TakeBit(b, pos).value;
    BitStep(b, e, pos, false);
    if t.val != 1 {
      ZerosStep(b, e, t.pos, z + 1);
    }
  }

  lemma {:induction false} BitsStep(b: seq<bit>, e: seq<bit>, pos: nat, o: bool, n: nat, acc: nat)
    requires Behind(b, e) && TakeBits(b, pos, n, acc).Got?
    ensures var t := TakeBits(b, pos, n, acc).value;
      ReadBits(e, Cur(pos + 8, o), n, acc) == Read(t.val, Cur(t.pos + 8, o))
    decreases n
  {
    if n != 0 {
      var t := TakeBit(b, pos).value;
      BitStep(b, e, pos, o);
      BitsStep(b, e, t.pos, o, n - 1, 2 * acc + t.val);
    }
  }

  lemma UeStep(b: seq<bit>, e: seq<bit>, pos: nat, o: bool)
    requires Behind(b, e) && TakeUe(b, pos).Got?
    ensures var t := TakeUe(b, pos).value; ReadUe(e, Cur(pos + 8, o)) == Read(t.val, Cur(t.pos + 8, o))
  {
    hide TakeZeros, TakeBits, Zeros, ReadBits, Pow2;
    var z := TakeZeros(b, pos, 0).value;
    ZerosStep(b, e, pos, 0);
    BitsStep(b, e, z.pos, o, z.val, 0);
  }

  lemma {:induction false} UesStep(b: seq<bit>, e: seq<bit>, pos: nat, o: bool, n: nat)
    requires Behind(b, e) && TakeUes(b, pos, n).Got?
    ensures SkipUes(e, Cur(pos + 8, o), n) == Cur(TakeUes(b, pos, n).value + 8, o)
    decreases n
  {
    hide TakeUe, ReadUe;
    if n != 0 {
      UeStep(b, e, pos, o);
      UesStep(b, e, TakeUe(b, pos).value.pos, o, n - 1);
    }
  }

  lemma {:induction false} ListStep(b: seq<bit>, e: seq<bit>, pos: nat, o: bool, left: nat, last: nat, nxt: nat)
    requires Behind(b, e) && TakeList(b, pos, left, last, nxt).Got?
    ensures SkipList(e, Cur(pos + 8, o), left, last, nxt) == Cur(TakeList(b, pos, left, last, nxt).value + 8, o)
    decreases left
  {
    hide TakeUe, ReadUe;
    if left != 0 {
      if nxt == 0 {
        ListStep(b, e, pos, o, left - 1, last, nxt);
      } else {
        UeStep(b, e, pos, o);
        var t := TakeUe(b, pos).value;
        var n := (last + t.val) % 256;
        ListStep(b, e, t.pos, o, left - 1, if n != 0 then n else last, n);
      }
    }
  }

  lemma {:induction false} ListsStep(b: seq<bit>, e: seq<bit>, pos: nat, o: bool, m: nat, total: nat)
    requires Behind(b, e) && TakeLists(b, pos, m, total).Got?
    ensures SkipLists(e, Cur(pos + 8, o), m, total) == Cur(TakeLists(b, pos, m, total).value + 8, o)
    decreases total - m
  {
    hide TakeList, SkipList;
    if m < total {
      BitStep(b, e, pos, o);
      var t, n := TakeBit(b, pos).value, if m < 6 then 16 else 64;
      if t.val == 1 {
        ListStep(b, e, t.pos, o, n, 8, 8);
        ListsStep(b, e, TakeList(b, t.pos, n, 8, 8).value, o, m + 1, total);
      } else {
        ListsStep(b, e, t.pos, o, m + 1, total);
      }
    }
  }

  lemma HighStep(b: seq<bit>, e: seq<bit>, pos: nat, o: bool)
    requires Behind(b, e) && TakeHigh(b, pos).Got?
    ensures SkipHigh(e, Cur(pos + 8, o)) == Cur(TakeHigh(b, pos).value + 8, o)
  {
    hide TakeUe, ReadUe, TakeBit, ReadBit, TakeLists, SkipLists;
    UeStep(b, e, pos, o);
    var chroma := TakeUe(b, pos).value;
    if chroma.val == 3 {
      BitStep(b, e, chroma.pos, o);
    }
    var plane := if chroma.val == 3 then TakeBit(b, chroma.pos).value else chroma;
    UeStep(b, e, plane.pos, o);
    var luma := TakeUe(b, plane.pos).value;
    UeStep(b, e, luma.pos, o);
    var depth := TakeUe(b, luma.pos).value;
    BitStep(b, e, depth.pos, o);
    var bypass := TakeBit(b, depth.pos).value;
    BitStep(b, e, bypass.pos, o);
    var matrix := TakeBit(b, bypass.pos).value;
    if matrix.val == 1 {
      ListsStep(b, e, matrix.pos, o, 0, if chroma.val != 3 then 8 else 12);
    }
  }

  lemma PocStep(b: seq<bit>, e: seq<bit>, pos: nat, o: bool)
    requires Behind(b, e) && TakePoc(b, pos).Got? && TakePoc(b, pos).value.val <= 255
    ensures ReadPoc(e, Cur(pos + 8, o)).cur == Cur(TakePoc(b, pos).value.pos + 8, o)
  {
    hide TakeUe, ReadUe, TakeBit, ReadBit, TakeUes, SkipUes;
    UeStep(b, e, pos, o);
    var kind := TakeUe(b, pos).value;
    if kind.val == 0 {
      UeStep(b, e, kind.pos, o);
    } else if kind.val == 1 {
      BitStep(b, e, kind.pos, o);
      var flag := TakeBit(b, kind.pos).value;
      UeStep(b, e, flag.pos, o);
      var nonref := TakeUe(b, flag.pos).value;
      UeStep(b, e, nonref.pos, o);
      var field := TakeUe(b, nonref.pos).value;
      UeStep(b, e, field.pos, o);
      var cycle := TakeUe(b, field.pos).value;
      UesStep(b, e, cycle.pos, o, cycle.val);
    }
  }

  /** From the reference count on, given a head without dimensions that stopped where the tool stopped. */
  lemma DimsStep(b: seq<bit>, e: seq<bit>, pos: nat, cycle: nat, head: Parsed)
    requires Behind(b, e) && TakeDims(b, pos, cycle).Got? && head.si.w == 0 && head.si.h == 0
    requires head.cur == ReadUe(e, Cur(pos + 8, false)).cur
    ensures SameSize(TakeDims(b, pos, cycle).value, ParseCrop(e, ParseDims(e, head)).si)
  {
    hide TakeUe, ReadUe, TakeBit, ReadBit, ReadUes;
    UeStep(b, e, pos, false);
    var refs := TakeUe(b, pos).value;
    BitStep(b, e, refs.pos, false);
    var gaps := TakeBit(b, refs.pos).value;
    UeStep(b, e, gaps.pos, false);
    var w := TakeUe(b, gaps.pos).value;
    UeStep(b, e, w.pos, false);
    var h := TakeUe(b, w.pos).value;
    BitStep(b, e, h.pos, false);
  }

  /** Same size within the reader's 301 macroblocks a side; above, the reader leaves 0 x 0. */
  predicate SameSize(d: Dims, si: SpsInfo) {
    if d.mbs <= 301 && d.units <= 301 then si.w == d.Width() && si.h == d.Height() else si.w == 0 && si.h == 0
  }

  lemma ScanStep(b: seq<bit>, e: seq<bit>, profile: byte, constraint: byte, level: byte)
    requires Behind(b, e) && ScanBits(b, profile).Got? && ScanBits(b, profile).value.cycle <= 255
    ensures SameSize(ScanBits(b, profile).value, ParseBits(e, profile, constraint, level).si)
  {
    hide TakeUe, ReadUe, TakePoc, ReadPoc, TakeHigh, SkipHigh, ParseDims, ParseCrop, HighProfile, SameSize, TakeDims;
    UeStep(b, e, 24, false);
    var id := TakeUe(b, 24).value;
    if HighProfile(profile) {
      HighStep(b, e, id.pos, false);
    }
    var p := if HighProfile(profile) then TakeHigh(b, id.pos).value else id.pos;
    UeStep(b, e, p, false);
    var frm := TakeUe(b, p).value;
    var poc := TakePoc(b, frm.pos).value;
    CycleKept(b, poc.pos, poc.val);
    PocStep(b, e, frm.pos, false);
    DimsStep(b, e, poc.pos, poc.val, ParseHead(e, profile, constraint, level));
  }

  lemma CycleKept(b: seq<bit>, pos: nat, cycle: nat)
    ensures TakeDims(b, pos, cycle).Got? ==> TakeDims(b, pos, cycle).value.cycle == cycle
  {
    hide TakeUe, TakeBit;
  }

  lemma BitsBehind(h: byte, s: seq<byte>)
    ensures Behind(BitsOf(s), BitsOf([h] + s))
  {
    var t := [h] + s;
    forall p | 0 <= p < 8 * |s| ensures BitsOf(t)[p + 8] == BitsOf(s)[p] {
      assert (p + 8) / 8 == p / 8 + 1 && (p + 8) % 8 == p % 8;
      assert t[(p + 8) / 8] == s[p / 8];
    }
  }

  /** d is an SPS NAL the reader takes and whose picture size the tool finds to be t. */
  predicate Scanned(d: seq<byte>, t: Dims) {
    1 < |d| <= NAL_BUF_MAX && NalType(d) == NAL_SPS_TYPE && NoDouble(d) && t.cycle <= 255 && Scan(d[1..]) == Got(t)
  }

  lemma SameData(d: seq<byte>, t: Dims)
    requires Scanned(d, t)
    ensures var s := StdStrip(d[1..]);
      Strip(d) == [d[0]] + s && 3 < |s| && ScanBits(BitsOf(s), s[0]) == Got(t)
  {
    hide BitsOf, StdStrip, Strip, ScanBits, NoDouble;
    StripsMeet(d);
    assert d == [d[0]] + d[1..];
    StripBehindHeader(d[0], d[1..]);
    LongEnough(StdStrip(d[1..]));
  }

  lemma ParseOfStripped(d: seq<byte>, h: byte, s: seq<byte>)
    requires |d| <= NAL_BUF_MAX && Strip(d) == [h] + s && 3 < |s|
    ensures ParseSps(d) == ParseBits(BitsOf([h] + s), s[0], s[1], s[2]).si
  {
    hide BitsOf, Strip, ParseBits;
  }

  /** Two independent parsers, one size: on any SPS NAL of at most 256 bytes without a double escape, dimensions
      the tool finds are the ones the reader computes, high profiles and scaling lists included. */
  lemma ParsersAgree(d: seq<byte>, t: Dims)
    requires Scanned(d, t)
    ensures SameSize(t, ParseSps(d))
  {
    var s := StdStrip(d[1..]);
    SameData(d, t);
    hide *;
    BitsBehind(d[0], s);
    ScanStep(BitsOf(s), BitsOf([d[0]] + s), s[0], s[1], s[2]);
    ParseOfStripped(d, d[0], s);
  }

  /** The tool starts reading behind the third byte, so it raises on fewer. */
  lemma LongEnough(s: seq<byte>)
    requires s != [] && ScanBits(BitsOf(s), s[0]).Got?
    ensures 3 < |s|
  {
    hide TakeBits, TakeHigh, TakePoc, TakeDims, BitsOf, HighProfile;
    FirstTake(BitsOf(s), 24);
    hide TakeUe;
  }

  lemma FirstTake(b: seq<bit>, pos: nat)
    ensures TakeUe(b, pos).Got? ==> pos < |b|
  {
    hide TakeBits;
  }

  /** Both sizes are the same pair exactly when the stored dimensions are within the reader's limit. */
  lemma AgreeIffWithinLimit(d: seq<byte>, t: Dims)
    requires Scanned(d, t)
    ensures ParseSps(d).w == t.Width() && ParseSps(d).h == t.Height() <==> t.mbs <= 301 && t.units <= 301
  {
    hide ScanBits, ParseSps, StdStrip, NoDouble, BitsOf;
    ParsersAgree(d, t);
    TakenPositive(BitsOf(StdStrip(d[1..])), StdStrip(d[1..])[0]);
  }

  lemma TakenPositive(b: seq<bit>, profile: byte)
    ensures ScanBits(b, profile).Got? ==> 0 < ScanBits(b, profile).value.mbs
  {
    hide TakeUe, TakeBit, TakeHigh, TakePoc, HighProfile;
  }

  // ---------- the tool's code ----------

  /** A read position in stripped data; the nested functions of the tool share it. */
  class ScanReader {
    const data: seq<byte>
    var pos: nat

    constructor (data: seq<byte>)
      ensures this.data == data && pos == 24
    {
      this.data, pos := data, 24;
    }

    method Bit() returns (r: Attempt<bit>)
      modifies this
      ensures match TakeBit(BitsOf(data), old(pos))
              case Raised => r == Raised
              case Got(t) => r == Got(t.val) && pos == t.pos
    {
      if 8 * |data| <= pos {
        return Raised;
      }
      r := Got(Shr(data[pos / 8], 7 - pos % 8) % 2);
      pos := pos + 1;
    }

    method Ue() returns (r: Attempt<nat>)
      modifies this
      ensures match TakeUe(BitsOf(data), old(pos))
              case Raised => r == Raised
              case Got(t) => r == Got(t.val) && pos == t.pos
    {
      ghost var b := BitsOf(data);
      hide BitsOf, Pow2;
      var zeros := 0;
      var bit :- Bit();
      while bit == 0
        invariant zeros <= UE_CAP && pos <= |b|
        invariant TakeZeros(b, old(pos), 0)
          == if bit == 1 then Got(Taken(zeros, pos)) else if UE_CAP < zeros + 1 then Raised
             else TakeZeros(b, pos, zeros + 1)
        decreases |b| - pos, 1 - bit
      {
        zeros := zeros + 1;
        if UE_CAP < zeros {
          return Raised;
        }
        bit :- Bit();
      }
      var val: nat, i: nat := 0, 0;
      ghost var start := pos;
      while i < zeros
        invariant i <= zeros && TakeBits(b, start, zeros, 0) == TakeBits(b, pos, zeros - i, val)
      {
        var x :- Bit();
        val := 2 * val + x;
        i := i + 1;
      }
      r := Got(Pow2(zeros) - 1 + val);
    }

    /** One scaling list of n entries; like the steps below it returns the position it stops at. */
    method List(n: nat) returns (r: Attempt<nat>)
      modifies this
      ensures r == TakeList(BitsOf(data), old(pos), n, 8, 8) && (r.Got? ==> r.value == pos)
    {
      ghost var b := BitsOf(data);
      hide TakeUe, BitsOf;
      var last, nxt, i := 8, 8, 0;
      while i < n
        invariant i <= n && TakeList(b, old(pos), n, 8, 8) == TakeList(b, pos, n - i, last, nxt)
      {
        if nxt != 0 {
          var v :- Ue();
          nxt := (last + v) % 256;
        }
        last := if nxt != 0 then nxt else last;
        i := i + 1;
      }
      r := Got(pos);
    }

    method High() returns (r: Attempt<nat>)
      modifies this
      ensures r == TakeHigh(BitsOf(data), old(pos)) && (r.Got? ==> r.value == pos)
    {
      ghost var b := BitsOf(data);
      hide TakeUe, TakeBit, BitsOf, TakeList;
      var chroma :- Ue();
      if chroma == 3 {
        var _ :- Bit();
      }
      var _ :- Ue();
      var _ :- Ue();
      var _ :- Bit();
      var matrix :- Bit();
      if matrix == 1 {
        var i, total := 0, if chroma != 3 then 8 else 12;
        ghost var start := pos;
        while i < total
          invariant i <= total && TakeLists(b, start, 0, total) == TakeLists(b, pos, i, total)
        {
          var present :- Bit();
          if present == 1 {
            var _ :- List(if i < 6 then 16 else 64);
          }
          i := i + 1;
        }
      }
      r := Got(pos);
    }

    method Poc() returns (r: Attempt<nat>)
      modifies this
      ensures match TakePoc(BitsOf(data), old(pos))
              case Raised => r == Raised
              case Got(t) => r == Got(t.val) && pos == t.pos
    {
      ghost var b := BitsOf(data);
      hide TakeUe, TakeBit, BitsOf;
      var cycle: nat := 0;
      var kind :- Ue();
      if kind == 0 {
        var _ :- Ue();
      } else if kind == 1 {
        var _ :- Bit();
        var _ :- Ue();
        var _ :- Ue();
        cycle :- Ue();
        var i := 0;
        ghost var start := pos;
        while i < cycle
          invariant i <= cycle && TakeUes(b, start, cycle) == TakeUes(b, pos, cycle - i)
        {
          var _ :- Ue();
          i := i + 1;
        }
      }
      r := Got(cycle);
    }

    method Size(cycle: nat) returns (r: Attempt<Dims>)
      modifies this
      ensures r == TakeDims(BitsOf(data), old(pos), cycle)
    {
      hide TakeUe, TakeBit, BitsOf;
      var _ :- Ue();
      var _ :- Bit();
      var w :- Ue();
      var h :- Ue();
      var fmbo :- Bit();
      if fmbo == 0 {
        var _ :- Bit();
      }
      r := Got(Dims(w + 1, h + 1, fmbo, cycle));
    }
  }

  /** The tool's strip counts zeros as it goes and forgets them at each dropped 3. */
  method StripEscapes(rbsp: seq<byte>) returns (out: seq<byte>)
    ensures out == StdStrip(rbsp)
  {
    out := [];
    var z, i := 0, 0;
    while i < |rbsp|
      invariant i <= |rbsp| && out == StdStrip(rbsp[..i]) && z <= i
      invariant forall k | i - z <= k < i :: rbsp[k] == 0
      invariant z < i ==> rbsp[i - z - 1] != 0
    {
      assert rbsp[..i + 1][..i] == rbsp[..i];
      if 2 <= z && rbsp[i] == 3 {
        z := 0;
      } else {
        out := out + [rbsp[i]];
        z := if rbsp[i] == 0 then z + 1 else 0;
      }
      i := i + 1;
    }
    assert rbsp[..|rbsp|] == rbsp;
  }

  method ScanSps(rbsp: seq<byte>) returns (r: Attempt<Dims>)
    ensures r == Scan(rbsp)
  {
    hide TakeUe, TakeHigh, TakePoc, TakeDims, BitsOf, StdStrip, HighProfile;
    if |rbsp| < 8 {
      return Raised;
    }
    var data := StripEscapes(rbsp);
    if data == [] {
      return Raised;
    }
    var reader := new ScanReader(data);
    var _ :- reader.Ue();
    if HighProfile(data[0]) {
      var _ :- reader.High();
    }
    var _ :- reader.Ue();
    var cycle :- reader.Poc();
    r := reader.Size(cycle);
  }
}
