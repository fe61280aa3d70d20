/** Machine words as bounded integers, little-endian storage, and the two facts about
    remainders that every ring offset computation rests on. */
module Words {
  type byte = x: int | 0 <= x < 0x100
  type u16 = x: int | 0 <= x < 0x1_0000
  type u32 = x: int | 0 <= x < 0x1_0000_0000

  const U32_MAX: u32 := 0xFFFF_FFFF

  datatype Option<+T> = None | Some(value: T)

  /** Reduction to an unsigned 32-bit word: what C does to every uint32_t result. */
  function Low32(x: int): u32 {
    x % 0x1_0000_0000
  }

  /** Byte k of a word, least significant first. */
  function LeByte(x: u32, k: nat): byte
    requires k < 4
  {
    (if k == 0 then x else if k == 1 then x / 0x100 else if k == 2 then x / 0x1_0000 else x / 0x100_0000) % 0x100
  }

  function U16At(b: seq<byte>, o: nat): u16
    requires o + 2 <= |b|
  {
    var lo: int, hi: int := b[o], b[o + 1];
    lo + 0x100 * hi
  }

  function U32At(b: seq<byte>, o: nat): u32
    requires o + 4 <= |b|
  {
    var lo: int, hi: int := U16At(b, o), U16At(b, o + 2);
    lo + 0x1_0000 * hi
  }

  lemma DigitsOf(x: u32, b0: byte, b1: byte, b2: byte, b3: byte)
    requires x == b0 + 0x100 * b1 + 0x1_0000 * b2 + 0x100_0000 * b3
    ensures x % 0x100 == b0 && x / 0x100 % 0x100 == b1 && x / 0x1_0000 % 0x100 == b2 && x / 0x100_0000 == b3
  {
    assert x / 0x100 == b1 + 0x100 * b2 + 0x1_0000 * b3;
    assert x / 0x1_0000 == b2 + 0x100 * b3;
  }

  lemma DigitsSum(x: u32)
    ensures x == x % 0x100 + 0x100 * (x / 0x100 % 0x100) + 0x1_0000 * (x / 0x1_0000 % 0x100)
                 + 0x100_0000 * (x / 0x100_0000)
  {
    assert x / 0x1_0000 == x / 0x100 / 0x100;
    assert x / 0x100_0000 == x / 0x1_0000 / 0x100;
  }

  lemma U32OfBytes(b: seq<byte>, o: nat, x: u32)
    requires o + 4 <= |b|
    ensures b[o] == LeByte(x, 0) && b[o + 1] == LeByte(x, 1) && b[o + 2] == LeByte(x, 2) && b[o + 3] == LeByte(x, 3)
       <==> U32At(b, o) == x
  {
    DigitsSum(x);
    if U32At(b, o) == x {
      DigitsOf(x, b[o], b[o + 1], b[o + 2], b[o + 3]);
    }
  }

  lemma U16OfBytes(b: seq<byte>, o: nat, x: u16)
    requires o + 2 <= |b|
    ensures b[o] == LeByte(x, 0) && b[o + 1] == LeByte(x, 1) <==> U16At(b, o) == x
  {
  }

  /** Position x reduced to an offset in a ring of m bytes. */
  function Wrap(x: nat, m: nat): (r: nat)
    requires 0 < m
    ensures r < m
  {
    x % m
  }

  lemma WrapBelowTwice(x: nat, m: nat)
    requires 0 < m && x < 2 * m
    ensures Wrap(x, m) == if x < m then x else x - m
  {
    if x < m {
      ModUnique(x, m, 0, x);
    } else {
      ModUnique(x, m, 1, x - m);
    }
  }

  lemma ModUnique(x: nat, m: nat, q: nat, r: nat)
    requires r < m && x == q * m + r
    ensures x % m == r
  {
    var d, e := x / m, x % m;
    var k := q - d;
    assert q * m == d * m + k * m;
    assert e == k * m + r;
    if 0 < k {
      MulAtLeast(k, m);
    } else if k < 0 {
      MulAtLeast(-k, m);
    }
  }

  lemma MulAtLeast(k: nat, m: nat)
    requires 0 < k
    ensures m <= k * m
  {
  }

  /** Wrapping one summand first does not change where a sum lands. */
  lemma WrapShift(x: nat, y: nat, m: nat)
    requires 0 < m
    ensures Wrap(Wrap(x, m) + y, m) == Wrap(x + y, m)
  {
    var d, e := x / m, x % m;
    var q, r := (e + y) / m, (e + y) % m;
    assert x + y == (d + q) * m + r;
    ModUnique(x + y, m, d + q, r);
  }
}
