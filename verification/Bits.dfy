/** Bit strings: the most-significant-first reading of bytes and words, and the fixed-width and
    Exp-Golomb (ITU-T H.264 section 9.1) readers and writers. */
module Bits {
  import opened Words

  type bit = x: int | 0 <= x < 2

  // ---------- numbers as bit strings ----------

  function Pow2(n: nat): (p: nat)
    ensures 0 < p
  {
    if n == 0 then 1 else 2 * Pow2(n - 1)
  }

  /** v >> n */
  function Shr(v: nat, n: nat): nat {
    if n == 0 then v else Shr(v / 2, n - 1)
  }

  /** The n low bits of v, most significant first. */
  function UBits(v: nat, n: nat): (b: seq<bit>)
    ensures |b| == n
  {
    if n == 0 then [] else UBits(v / 2, n - 1) + [v % 2]
  }

  lemma {:induction false} UBitsAt(v: nat, n: nat, i: nat)
    requires i < n
    ensures UBits(v, n)[i] == Shr(v, n - 1 - i) % 2
  {
    if i < n - 1 {
      UBitsAt(v / 2, n - 1, i);
    }
  }

  function Value(b: seq<bit>): nat {
    if b == [] then 0
    else
      var hi: nat, lo: int := Value(b[..|b| - 1]), b[|b| - 1];
      2 * hi + lo
  }

  lemma {:induction false} UBitsOfValue(b: seq<bit>)
    ensures UBits(Value(b), |b|) == b
    ensures Value(b) < Pow2(|b|)
  {
    if b != [] {
      var n := |b| - 1;
      UBitsOfValue(b[..n]);
      assert Value(b) / 2 == Value(b[..n]) && Value(b) % 2 == b[n];
      assert b == b[..n] + [b[n]];
    }
  }

  lemma {:induction false} ValueOfUBits(v: nat, n: nat)
    requires v < Pow2(n)
    ensures Value(UBits(v, n)) == v
  {
    if n != 0 {
      ValueOfUBits(v / 2, n - 1);
      assert UBits(v, n)[..n - 1] == UBits(v / 2, n - 1);
    }
  }

  /** Setting a clear bit adds its weight. */
  lemma {:induction false} ValueWithBit(b: seq<bit>, i: nat)
    requires i < |b| && b[i] == 0
    ensures Value(b[i := 1]) == Value(b) + Pow2(|b| - 1 - i)
  {
    var n, c := |b| - 1, b[i := 1];
    if i == n {
      assert c[..n] == b[..n];
    } else {
      ValueWithBit(b[..n], i);
      assert c[..n] == b[..n][i := 1];
    }
  }

  // ---------- bytes as bit strings ----------

  function Octet(b: byte): (t: seq<bit>)
    ensures |t| == 8
  {
    UBits(b, 8)
  }

  lemma Pow2Of8()
    ensures Pow2(8) == 0x100 && Pow2(4) == 16
  {
    assert Pow2(2) == 4;
    assert Pow2(4) == 16;
    assert Pow2(6) == 64;
  }

  /** b with the bit i places below the most significant or-ed in. */
  function WithBit(b: byte, i: nat): byte
    requires i < 8
  {
    if Shr(b, 7 - i) % 2 == 1 then b
    else
      BitFits(b, i);
      b + Pow2(7 - i)
  }

  lemma BitFits(b: byte, i: nat)
    requires i < 8 && Shr(b, 7 - i) % 2 == 0
    ensures b + Pow2(7 - i) < 0x100 && Octet(b + Pow2(7 - i)) == Octet(b)[i := 1]
  {
    UBitsAt(b, 8, i);
    hide UBits, Value, Shr;
    Pow2Of8();
    ValueOfUBits(b, 8);
    ValueWithBit(Octet(b), i);
    UBitsOfValue(Octet(b)[i := 1]);
  }

  lemma WithBitSets(b: byte, i: nat)
    requires i < 8
    ensures Octet(WithBit(b, i)) == Octet(b)[i := 1]
  {
    UBitsAt(b, 8, i);
    if Shr(b, 7 - i) % 2 == 0 {
      BitFits(b, i);
    }
    hide UBits, Shr;
  }

  /** Bit p of a byte string, counted from the most significant bit of its first byte. */
  function BitAt(s: seq<byte>, p: nat): bit
    requires p < 8 * |s|
  {
    Shr(s[p / 8], 7 - p % 8) % 2
  }

  function BitsOf(s: seq<byte>): (b: seq<bit>)
    ensures |b| == 8 * |s|
  {
    seq(8 * |s|, p requires 0 <= p < 8 * |s| => BitAt(s, p))
  }

  lemma BitsOfOctet(s: seq<byte>, k: nat)
    requires k < |s|
    ensures BitsOf(s)[8 * k..8 * k + 8] == Octet(s[k])
  {
    var b := BitsOf(s)[8 * k..8 * k + 8];
    hide UBits, Shr;
    forall i | 0 <= i < 8 ensures b[i] == Octet(s[k])[i] {
      assert (8 * k + i) / 8 == k && (8 * k + i) % 8 == i;
      UBitsAt(s[k], 8, i);
    }
  }

  lemma BitsOfInjective(s: seq<byte>, t: seq<byte>)
    requires BitsOf(s) == BitsOf(t)
    ensures s == t
  {
    forall k | 0 <= k < |s| ensures s[k] == t[k] {
      BitsOfOctet(s, k);
      BitsOfOctet(t, k);
      Pow2Of8();
      ValueOfUBits(s[k], 8);
      ValueOfUBits(t[k], 8);
    }
  }

  /** The bytes of a bit string of whole octets. */
  function Packed(b: seq<bit>): (s: seq<byte>)
    requires |b| % 8 == 0
    ensures |s| == |b| / 8 && BitsOf(s) == b
  {
    var s := seq(|b| / 8, k requires 0 <= k < |b| / 8 => PackedByte(b, k));
    PackedBits(b, s);
    s
  }

  function PackedByte(b: seq<bit>, k: nat): byte
    requires 8 * k + 8 <= |b|
  {
    Pow2Of8();
    UBitsOfValue(b[8 * k..8 * k + 8]);
    Value(b[8 * k..8 * k + 8])
  }

  lemma PackedBits(b: seq<bit>, s: seq<byte>)
    requires |b| == 8 * |s| && forall k | 0 <= k < |s| :: s[k] == PackedByte(b, k)
    ensures BitsOf(s) == b
  {
    hide UBits, Value, BitsOf, PackedByte;
    forall p | 0 <= p < |b| ensures BitsOf(s)[p] == b[p] {
      PackedOctet(b, s, p / 8);
      assert BitsOf(s)[p] == BitsOf(s)[8 * (p / 8)..8 * (p / 8) + 8][p % 8];
    }
  }

  lemma PackedOctet(b: seq<bit>, s: seq<byte>, k: nat)
    requires |b| == 8 * |s| && k < |s| && s[k] == PackedByte(b, k)
    ensures BitsOf(s)[8 * k..8 * k + 8] == b[8 * k..8 * k + 8]
  {
    hide UBits, Value, BitsOf;
    UBitsOfValue(b[8 * k..8 * k + 8]);
    BitsOfOctet(s, k);
  }

  // ---------- reading ----------

  /** A read position, and whether some read ran off the end of the string. */
  datatype Cur = Cur(pos: nat, over: bool)

  datatype Read = Read(val: nat, cur: Cur)

  /** One bit; at the end of the string, 0 without moving. */
  function ReadBit(b: seq<bit>, c: Cur): Read {
    if c.pos < |b| then Read(b[c.pos], Cur(c.pos + 1, c.over)) else Read(0, Cur(c.pos, true))
  }

  function ReadBits(b: seq<bit>, c: Cur, n: nat, acc: nat): Read
    decreases n
  {
    if n == 0 then Read(acc, c)
    else
      var r := ReadBit(b, c);
      ReadBits(b, r.cur, n - 1, 2 * acc + r.val)
  }

  /** How many zero bits stand at pos. */
  function Zeros(b: seq<bit>, pos: nat): (z: nat)
    ensures pos <= |b| ==> pos + z <= |b|
    ensures |b| <= pos ==> z == 0
    decreases |b| - pos
  {
    if pos < |b| && b[pos] == 0 then 1 + Zeros(b, pos + 1) else 0
  }

  const UE_CAP: nat := 24
  const UE_ERROR: nat := 0xFFFF

  lemma {:induction false} BitsBound(b: seq<bit>, c: Cur, n: nat, acc: nat)
    ensures ReadBits(b, c, n, acc).val < (acc + 1) * Pow2(n)
    decreases n
  {
    if n == 0 {
      assert Pow2(0) == 1;
    } else {
      var r, p := ReadBit(b, c), Pow2(n - 1);
      BitsBound(b, r.cur, n - 1, 2 * acc + r.val);
      BoundStep(acc, r.val, p);
    }
  }

  lemma BoundStep(acc: nat, x: nat, p: nat)
    requires x < 2
    ensures (2 * acc + x + 1) * p <= (acc + 1) * (2 * p)
  {
    assert (acc + 1) * (2 * p) == (2 * acc + 2) * p;
    if x == 0 {
      assert (2 * acc + 2) * p == (2 * acc + 1) * p + p;
    }
  }

  /** Every value the Exp-Golomb reader returns fits comfortably in 32 bits. */
  lemma UeFits(b: seq<bit>, c: Cur, z: nat)
    ensures z <= UE_CAP ==> Pow2(z) - 1 + ReadBits(b, c, z, 0).val < 0x1FF_FFFF
  {
    hide ReadBits;
    if z <= UE_CAP {
      BitsBound(b, c, z, 0);
      Pow2Of25();
      Pow2Grows(z + 1, 25);
    }
  }

  /** ue(v) as the reader takes it: leading zeros, a one unless the string ends, then as many bits as
      zeros but never more than 24. */
  function ReadUe(b: seq<bit>, c: Cur): (r: Read)
    ensures r.val < 0x1FF_FFFF
  {
    var z := Zeros(b, c.pos);
    var c1 := if c.pos + z < |b| then Cur(c.pos + z + 1, c.over) else Cur(c.pos + z, true);
    var r := ReadBits(b, c1, if z <= UE_CAP then z else UE_CAP, 0);
    UeFits(b, c1, z);
    Read(if UE_CAP < z then UE_ERROR else Pow2(z) - 1 + r.val, r.cur)
  }

  // ---------- writing ----------

  function Log2(t: nat): nat {
    if t <= 1 then 0 else 1 + Log2(t / 2)
  }

  lemma {:induction false} Log2Bounds(t: nat)
    requires 0 < t
    ensures Pow2(Log2(t)) <= t < 2 * Pow2(Log2(t))
  {
    if 1 < t {
      Log2Bounds(t / 2);
    }
  }

  lemma {:induction false} Log2Below(t: nat, n: nat)
    requires t < Pow2(n + 1)
    ensures Log2(t) <= n
  {
    if 1 < t && n != 0 {
      Log2Below(t / 2, n - 1);
    }
  }

  /** ue(v): as many zeros as v + 1 has bits after its first, then v + 1. The C adds in 32 bits. */
  function Ue(v: u32): seq<bit> {
    var t := Low32(v + 1);
    UBits(0, Log2(t)) + UBits(t, Log2(t) + 1)
  }

  // ---------- the reader inverts the writer ----------

  /** b continues with code at pos. */
  predicate At(b: seq<bit>, pos: nat, code: seq<bit>) {
    pos + |code| <= |b| && b[pos..pos + |code|] == code
  }

  lemma {:induction false} ReadBitsAt(b: seq<bit>, c: Cur, t: seq<bit>, acc: nat)
    requires At(b, c.pos, t)
    ensures ReadBits(b, c, |t|, acc) == Read(acc * Pow2(|t|) + Value(t), Cur(c.pos + |t|, c.over))
    decreases |t|
  {
    if t == [] {
      assert Pow2(0) == 1 && Value(t) == 0;
    } else {
      var r, p, rest := ReadBit(b, c), Pow2(|t| - 1), t[1..];
      assert b[c.pos] == b[c.pos..c.pos + |t|][0] == t[0];
      assert b[c.pos + 1..c.pos + |t|] == rest;
      ReadBitsAt(b, r.cur, rest, 2 * acc + t[0]);
      ValueFront(t);
      HornerStep(acc, t[0], p);
    }
  }

  lemma HornerStep(acc: nat, x: bit, p: nat)
    ensures (2 * acc + x) * p == acc * (2 * p) + x * p
  {
  }

  lemma {:induction false} ValueFront(t: seq<bit>)
    requires t != []
    ensures Value(t) == t[0] * Pow2(|t| - 1) + Value(t[1..])
  {
    if |t| == 1 {
      assert t[..0] == [] && t[1..] == [];
    } else {
      var n := |t| - 1;
      ValueFront(t[..n]);
      assert t[1..][..n - 1] == t[..n][1..];
      assert Pow2(n) == 2 * Pow2(n - 1);
      assert t[0] * Pow2(n) == 2 * (t[0] * Pow2(n - 1));
    }
  }

  lemma {:induction false} ZerosAt(b: seq<bit>, pos: nat, z: nat)
    requires pos + z < |b| && b[pos + z] == 1
    requires forall i | pos <= i < pos + z :: b[i] == 0
    ensures Zeros(b, pos) == z
    decreases z
  {
    if z != 0 {
      ZerosAt(b, pos + 1, z - 1);
    }
  }

  /** The Exp-Golomb reader inverts the writer at any offset of any string, for every value below 2^25 - 1. */
  lemma UeInverts(b: seq<bit>, c: Cur, v: u32)
    requires v < 0x1FF_FFFF && At(b, c.pos, Ue(v))
    ensures ReadUe(b, c) == Read(v, Cur(c.pos + |Ue(v)|, c.over))
  {
    hide *;
    var n := Log2(v + 1);
    CodeLength(v);
    UeShape(b, c.pos, v);
    var rest := UBits(v + 1, n + 1)[1..];
    UeOfParts(b, c, n, rest);
    UeRest(v + 1, n);
  }

  lemma CodeLength(v: u32)
    requires v < 0x1FF_FFFF
    ensures Log2(v + 1) <= UE_CAP && v < U32_MAX
  {
    Pow2Of25();
    Log2Below(v + 1, UE_CAP);
  }

  lemma UeOfParts(b: seq<bit>, c: Cur, n: nat, rest: seq<bit>)
    requires Zeros(b, c.pos) == n <= UE_CAP && c.pos + n < |b| && |rest| == n && At(b, c.pos + n + 1, rest)
    ensures ReadUe(b, c) == Read(Pow2(n) - 1 + Value(rest), Cur(c.pos + (2 * n + 1), c.over))
  {
    hide Value, Zeros, ReadBits, Pow2;
    ReadBitsAt(b, Cur(c.pos + n + 1, c.over), rest, 0);
  }

  /** A code as it stands in the string: n zeros, a one, and the n lower bits of v + 1. */
  lemma UeShape(b: seq<bit>, pos: nat, v: u32)
    requires v < U32_MAX && At(b, pos, Ue(v))
    ensures var n := Log2(v + 1);
      && |Ue(v)| == 2 * n + 1 && |UBits(v + 1, n + 1)[1..]| == n && pos + 2 * n < |b| && Zeros(b, pos) == n
      && At(b, pos + n + 1, UBits(v + 1, n + 1)[1..])
  {
    hide *;
    UeCode(v);
    var n := Log2(v + 1);
    var zeros, top := UBits(0, n), UBits(v + 1, n + 1);
    AtSplit(b, pos, zeros, top);
    assert top == [top[0]] + top[1..];
    AtSplit(b, pos + n, [top[0]], top[1..]);
    ZerosOfCode(b, pos, zeros);
  }

  lemma UeCode(v: u32)
    requires v < U32_MAX
    ensures var n := Log2(v + 1);
      && Ue(v) == UBits(0, n) + UBits(v + 1, n + 1) && |Ue(v)| == 2 * n + 1
      && (forall i | 0 <= i < n :: UBits(0, n)[i] == 0) && UBits(v + 1, n + 1)[0] == 1
  {
    hide UBits, Log2;
    assert Low32(v + 1) == v + 1;
    LeadingOne(v + 1);
    ZeroBits(Log2(v + 1));
  }

  lemma AtSplit(b: seq<bit>, pos: nat, x: seq<bit>, y: seq<bit>)
    requires At(b, pos, x + y)
    ensures At(b, pos, x) && At(b, pos + |x|, y)
    ensures |x| == 1 ==> b[pos] == x[0]
  {
    var code := x + y;
    assert b[pos..pos + |x|] == b[pos..pos + |code|][..|x|] == code[..|x|] == x;
    assert b[pos + |x|..pos + |code|] == b[pos..pos + |code|][|x|..] == code[|x|..] == y;
  }

  lemma ZerosOfCode(b: seq<bit>, pos: nat, zeros: seq<bit>)
    requires At(b, pos, zeros) && (forall i | 0 <= i < |zeros| :: zeros[i] == 0)
    requires pos + |zeros| < |b| && b[pos + |zeros|] == 1
    ensures Zeros(b, pos) == |zeros|
  {
    forall i | pos <= i < pos + |zeros| ensures b[i] == 0 {
      assert b[i] == b[pos..pos + |zeros|][i - pos];
    }
    ZerosAt(b, pos, |zeros|);
  }

  lemma {:induction false} ZeroBits(n: nat)
    ensures forall i | 0 <= i < n :: UBits(0, n)[i] == 0
  {
    if n != 0 {
      ZeroBits(n - 1);
    }
  }

  lemma UeRest(t: nat, n: nat)
    requires 0 < t && n == Log2(t)
    ensures Pow2(n) - 1 + Value(UBits(t, n + 1)[1..]) == t - 1
  {
    Log2Bounds(t);
    LeadingOne(t);
    ValueFront(UBits(t, n + 1));
    ValueOfUBits(t, n + 1);
  }

  lemma {:induction false} LeadingOne(t: nat)
    requires 0 < t
    ensures UBits(t, Log2(t) + 1)[0] == 1
  {
    if 1 < t {
      LeadingOne(t / 2);
    }
  }

  lemma Pow2Of25()
    ensures Pow2(25) == 0x200_0000
  {
    Pow2Of8();
    assert Pow2(10) == 0x400;
    assert Pow2(12) == 0x1000;
    assert Pow2(14) == 0x4000;
    assert Pow2(16) == 0x1_0000;
    assert Pow2(18) == 0x4_0000;
    assert Pow2(20) == 0x10_0000;
    assert Pow2(22) == 0x40_0000;
    assert Pow2(24) == 0x100_0000;
  }

  /** Beyond that the reader gives up: more than 24 leading zeros read as 0xFFFF. The largest word is written as a
      single zero, since the C adds one in 32 bits. */
  lemma UeTooLong(b: seq<bit>, c: Cur, v: u32)
    requires 0x1FF_FFFF <= v && At(b, c.pos, Ue(v))
    ensures v < U32_MAX ==> ReadUe(b, c).val == UE_ERROR
    ensures v == U32_MAX ==> Ue(v) == [0]
    ensures ReadUe(b, c).val != v
  {
    if v < U32_MAX {
      UeShape(b, c.pos, v);
      var n := Log2(v + 1);
      Log2Bounds(v + 1);
      hide Value, Zeros, ReadBits, UBits, Ue;
      if n <= UE_CAP {
        Pow2Of25();
        Pow2Grows(n + 1, 25);
      }
    } else {
      hide ReadUe;
      assert Low32(v + 1) == 0;
      assert UBits(0, 1) == [0] && UBits(0, 0) + [0] == [0];
    }
  }

  /** So the code of v reads back as v if and only if v is below 2^25 - 1, whatever follows it. */
  lemma UeInvertsIff(b: seq<bit>, c: Cur, v: u32)
    requires At(b, c.pos, Ue(v))
    ensures ReadUe(b, c).val == v <==> v < 0x1FF_FFFF
  {
    hide *;
    if v < 0x1FF_FFFF {
      UeInverts(b, c, v);
    } else {
      UeTooLong(b, c, v);
    }
  }

  lemma {:induction false} Pow2Grows(a: nat, b: nat)
    requires a <= b
    ensures Pow2(a) <= Pow2(b)
  {
    if a < b {
      Pow2Grows(a, b - 1);
    }
  }
}
