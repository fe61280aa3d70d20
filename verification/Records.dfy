/** Ring memory, the 26-byte record header, and the byte image of a log of records. */
module Records {
  import opened Words

  const HDR_LEN: nat := 26
  const MAXPAY: nat := 512 * 1024

  // ---------- wrapping windows of ring memory ----------

  /** The n bytes that start at ring offset off, wrapping at the end of mem. */
  function Window(mem: seq<byte>, off: nat, n: nat): (w: seq<byte>)
    requires 0 < |mem|
    ensures |w| == n
  {
    seq(n, i requires 0 <= i < n => mem[Wrap(off + i, |mem|)])
  }

  lemma WindowSplit(mem: seq<byte>, off: nat, n: nat, m: nat)
    requires 0 < |mem|
    ensures Window(mem, off, n + m) == Window(mem, off, n) + Window(mem, Wrap(off + n, |mem|), m)
  {
    var whole, front, rest := Window(mem, off, n + m), Window(mem, off, n), Window(mem, Wrap(off + n, |mem|), m);
    forall i | 0 <= i < n + m ensures whole[i] == (front + rest)[i] {
      if n <= i {
        WrapShift(off + n, i - n, |mem|);
        assert off + n + (i - n) == off + i;
      }
    }
  }

  lemma WindowPart(mem: seq<byte>, off: nat, n: nat, lo: nat, hi: nat)
    requires 0 < |mem| && lo <= hi <= n
    ensures Window(mem, off, n)[lo..hi] == Window(mem, Wrap(off + lo, |mem|), hi - lo)
  {
    WindowSplit(mem, off, lo, hi - lo);
    WindowSplit(mem, off, hi, n - hi);
  }

  /** How far position p lies ahead of off, going round. */
  function Ahead(p: nat, off: nat, size: nat): nat
    requires p < size && off < size
  {
    if off <= p then p - off else p + size - off
  }

  /** mem with the bytes b stored from ring offset off on, wrapping. */
  function Stored(mem: seq<byte>, off: nat, b: seq<byte>): (r: seq<byte>)
    requires off < |mem|
    ensures |r| == |mem|
  {
    seq(|mem|, p requires 0 <= p < |mem| =>
      var k := Ahead(p, off, |mem|);
      if k < |b| then b[k] else mem[p])
  }

  lemma StoredWindow(mem: seq<byte>, off: nat, b: seq<byte>)
    requires off < |mem| && |b| <= |mem|
    ensures Window(Stored(mem, off, b), off, |b|) == b
  {
    var w := Window(Stored(mem, off, b), off, |b|);
    forall i | 0 <= i < |b| ensures w[i] == b[i] {
      WrapBelowTwice(off + i, |mem|);
    }
  }

  /** Storing right behind v live bytes that start at t leaves those bytes alone,
      as long as both fit in one lap. */
  lemma StoredFrame(mem: seq<byte>, t: nat, v: nat, b: seq<byte>)
    requires t < |mem| && v + |b| <= |mem|
    ensures Window(Stored(mem, Wrap(t + v, |mem|), b), t, v) == Window(mem, t, v)
  {
    var off := Wrap(t + v, |mem|);
    var w, w' := Window(mem, t, v), Window(Stored(mem, off, b), t, v);
    forall i | 0 <= i < v ensures w'[i] == w[i] {
      WrapBelowTwice(t + v, |mem|);
      WrapBelowTwice(t + i, |mem|);
    }
  }

  // ---------- records ----------

  datatype Header = Header(len: u32, seqno: u32, magic: u32, cookie: u32, ts: u32,
                           kind: u16, chain: u16, extra: u16)

  datatype Record = Record(h: Header, payload: seq<byte>) {
    predicate Ok() { h.len == |payload| }
  }

  function Image(h: Header): (b: seq<byte>)
    ensures |b| == HDR_LEN
  {
    seq(HDR_LEN, i requires 0 <= i < HDR_LEN =>
      if i < 20 then LeByte(Wide(h, i / 4), i % 4) else LeByte(Narrow(h, (i - 20) / 2), i % 2))
  }

  function Wide(h: Header, j: nat): u32
    requires j < 5
  {
    match j case 0 => h.len case 1 => h.seqno case 2 => h.magic case 3 => h.cookie case _ => h.ts
  }

  function Narrow(h: Header, j: nat): u16
    requires j < 3
  {
    match j case 0 => h.kind case 1 => h.chain case _ => h.extra
  }

  function Decode(b: seq<byte>): Header
    requires |b| == HDR_LEN
  {
    Header(U32At(b, 0), U32At(b, 4), U32At(b, 8), U32At(b, 12), U32At(b, 16),
           U16At(b, 20), U16At(b, 22), U16At(b, 24))
  }

  lemma FourBytes(c: seq<byte>, d: seq<byte>, w: u32)
    requires |c| == |d| == 4
    requires d[0] == LeByte(w, 0) && d[1] == LeByte(w, 1) && d[2] == LeByte(w, 2) && d[3] == LeByte(w, 3)
    ensures c == d <==> U32At(c, 0) == w
  {
    U32OfBytes(c, 0, w);
    if c[0] == d[0] && c[1] == d[1] && c[2] == d[2] && c[3] == d[3] {
      assert c == d;
    }
  }

  lemma WideField(b: seq<byte>, h: Header, j: nat)
    requires |b| == HDR_LEN && j < 5
    ensures b[4 * j..4 * j + 4] == Image(h)[4 * j..4 * j + 4] <==> U32At(b, 4 * j) == Wide(h, j)
  {
    var o, w := 4 * j, Wide(h, j);
    var c, d := b[o..o + 4], Image(h)[o..o + 4];
    forall k | 0 <= k < 4 ensures d[k] == LeByte(w, k) {
      assert d[k] == Image(h)[o + k];
    }
    FourBytes(c, d, w);
  }

  lemma NarrowField(b: seq<byte>, h: Header, j: nat)
    requires |b| == HDR_LEN && j < 3
    ensures b[20 + 2 * j..22 + 2 * j] == Image(h)[20 + 2 * j..22 + 2 * j] <==> U16At(b, 20 + 2 * j) == Narrow(h, j)
  {
    var o, w := 20 + 2 * j, Narrow(h, j);
    U16OfBytes(b, o, w);
    assert Image(h)[o..o + 2] == [LeByte(w, 0), LeByte(w, 1)];
    assert b[o..o + 2] == [b[o], b[o + 1]];
  }

  /** Header images and headers determine each other. */
  lemma ImageIffDecode(b: seq<byte>, h: Header)
    requires |b| == HDR_LEN
    ensures b == Image(h) <==> Decode(b) == h
  {
    hide Image, LeByte, U32At, U16At;
    WideField(b, h, 0);
    WideField(b, h, 1);
    WideField(b, h, 2);
    WideField(b, h, 3);
    WideField(b, h, 4);
    NarrowField(b, h, 0);
    NarrowField(b, h, 1);
    NarrowField(b, h, 2);
    InFields(b);
    InFields(Image(h));
  }

  lemma InFields(b: seq<byte>)
    requires |b| == HDR_LEN
    ensures b == b[0..4] + b[4..8] + b[8..12] + b[12..16] + b[16..20] + b[20..22] + b[22..24] + b[24..26]
  {
  }

  /** Which bytes hold which field: little-endian, in the order length, number, magic, cookie, time, type, chain,
      extra. */
  lemma FieldsOfBytes(b: seq<byte>)
    requires |b| == 26
    ensures var h, v: seq<int> := Decode(b), b;
      && h.len == v[0] + 0x100 * v[1] + 0x1_0000 * v[2] + 0x100_0000 * v[3]
      && h.seqno == v[4] + 0x100 * v[5] + 0x1_0000 * v[6] + 0x100_0000 * v[7]
      && h.magic == v[8] + 0x100 * v[9] + 0x1_0000 * v[10] + 0x100_0000 * v[11]
      && h.cookie == v[12] + 0x100 * v[13] + 0x1_0000 * v[14] + 0x100_0000 * v[15]
      && h.ts == v[16] + 0x100 * v[17] + 0x1_0000 * v[18] + 0x100_0000 * v[19]
      && h.kind == v[20] + 0x100 * v[21] && h.chain == v[22] + 0x100 * v[23] && h.extra == v[24] + 0x100 * v[25]
  {
  }

  function Bytes(r: Record): (b: seq<byte>)
    ensures |b| == HDR_LEN + |r.payload|
  {
    Image(r.h) + r.payload
  }

  /** The byte image of a log: its records back to back, with nothing in between. */
  function LogBytes(log: seq<Record>): seq<byte> {
    if log == [] then [] else Bytes(log[0]) + LogBytes(log[1..])
  }

  function HeaderAt(mem: seq<byte>, off: nat): Header
    requires 0 < |mem|
  {
    Decode(Window(mem, off, HDR_LEN))
  }

  lemma EmptyLogBytes()
    ensures LogBytes([]) == []
  {
  }

  lemma {:induction false} LogBytesConcat(a: seq<Record>, b: seq<Record>)
    ensures LogBytes(a + b) == LogBytes(a) + LogBytes(b)
  {
    if a == [] {
      assert a + b == b;
    } else {
      LogBytesConcat(a[1..], b);
      assert (a + b)[1..] == a[1..] + b && (a + b)[0] == a[0];
      var x, y, z := Bytes(a[0]), LogBytes(a[1..]), LogBytes(b);
      assert x + (y + z) == (x + y) + z;
    }
  }

  lemma LogBytesParts(log: seq<Record>)
    requires log != []
    ensures var s, stride := LogBytes(log), HDR_LEN + |log[0].payload|;
      |s| >= stride && s[0..HDR_LEN] == Image(log[0].h)
      && s[HDR_LEN..stride] == log[0].payload && s[stride..|s|] == LogBytes(log[1..])
  {
    assert LogBytes(log) == Bytes(log[0]) + LogBytes(log[1..]);
  }

  lemma {:induction false} LogLength(log: seq<Record>)
    ensures HDR_LEN * |log| <= |LogBytes(log)|
  {
    if log != [] {
      LogLength(log[1..]);
      LogBytesParts(log);
    }
  }

  /** A window that holds a nonempty log starts with its first record and goes on with the rest. */
  lemma LogFirst(mem: seq<byte>, off: nat, log: seq<Record>)
    requires 0 < |mem| && log != []
    requires Window(mem, off, |LogBytes(log)|) == LogBytes(log)
    ensures HeaderAt(mem, off) == log[0].h
    ensures Window(mem, Wrap(off + HDR_LEN, |mem|), |log[0].payload|) == log[0].payload
    ensures var stride := HDR_LEN + |log[0].payload|;
      |LogBytes(log)| == stride + |LogBytes(log[1..])|
      && Window(mem, Wrap(off + stride, |mem|), |LogBytes(log[1..])|) == LogBytes(log[1..])
  {
    hide Image, Decode, Window, LogBytes;
    LogBytesParts(log);
    var n, stride := |LogBytes(log)|, HDR_LEN + |log[0].payload|;
    WindowPart(mem, off, n, 0, HDR_LEN);
    WindowPart(mem, off, n, HDR_LEN, stride);
    WindowPart(mem, off, n, stride, n);
    WindowNormal(mem, off, HDR_LEN);
    ImageIffDecode(Image(log[0].h), log[0].h);
  }

  lemma WindowNormal(mem: seq<byte>, off: nat, n: nat)
    requires 0 < |mem|
    ensures Window(mem, Wrap(off, |mem|), n) == Window(mem, off, n)
  {
    WindowSplit(mem, off, 0, n);
  }

  /** Byte images determine logs: there is one way to read a window as records. */
  lemma {:induction false} LogUnique(a: seq<Record>, b: seq<Record>)
    requires forall r | r in a :: r.Ok()
    requires forall r | r in b :: r.Ok()
    requires LogBytes(a) == LogBytes(b)
    ensures a == b
  {
    if a != [] && b != [] {
      var s := LogBytes(a);
      assert a[0].Ok() && b[0].Ok();
      assert s[..HDR_LEN] == Image(a[0].h) && s[..HDR_LEN] == Image(b[0].h);
      ImageIffDecode(Image(a[0].h), a[0].h);
      ImageIffDecode(Image(b[0].h), b[0].h);
      var stride := |Bytes(a[0])|;
      assert s[HDR_LEN..stride] == a[0].payload && s[HDR_LEN..stride] == b[0].payload;
      assert s[stride..] == LogBytes(a[1..]) && s[stride..] == LogBytes(b[1..]);
      LogUnique(a[1..], b[1..]);
      assert a == [a[0]] + a[1..] && b == [b[0]] + b[1..];
    }
  }

  // ---------- acceptance tests of the reader ----------

  predicate MagicOk(m: u32) {
    0x6a00 <= m / 0x1_0000 <= 0x6aff
  }

  /** The magic test takes exactly the headers whose byte 11, the magic's highest, is 0x6a. */
  lemma MagicIff(b: seq<byte>)
    requires |b| == 26
    ensures MagicOk(Decode(b).magic) <==> b[11] == 0x6a
  {
    FieldsOfBytes(b);
    hide Decode;
    var m := Decode(b).magic;
    var lo: int, hi: int := b[10], b[11];
    assert m / 0x1_0000 == lo + 0x100 * hi;
  }

  /** And so for a header to be stored. */
  lemma MagicOfImage(h: Header)
    ensures MagicOk(h.magic) <==> Image(h)[11] == 0x6a
  {
    hide Decode, Image;
    ImageIffDecode(Image(h), h);
    MagicIff(Image(h));
  }

  /** Bit j, the lowest being bit 0. */
  predicate Bit(x: nat, j: nat) {
    if j == 0 then x % 2 == 1 else Bit(x / 2, j - 1)
  }

  /** Do the class bits (high bytes) of a record type and a filter overlap? */
  predicate ClassMatch(kind: u16, filter: u16) {
    exists j | 8 <= j < 16 :: Bit(kind, j) && Bit(filter, j)
  }

  /** The subtype pinned by a filter's low nibble, 0 meaning "any". */
  predicate SubtypeMatch(kind: u16, filter: u16) {
    filter % 16 == 0 || filter % 16 == kind % 16
  }

  /** Bitwise and: the bits set in both. */
  function And(x: nat, y: nat): (z: nat)
    ensures z <= x && z <= y
  {
    if x == 0 || y == 0 then 0 else 2 * And(x / 2, y / 2) + (if x % 2 == 1 && y % 2 == 1 then 1 else 0)
  }

  lemma {:induction false} AndBit(x: nat, y: nat, j: nat)
    ensures Bit(And(x, y), j) <==> Bit(x, j) && Bit(y, j)
    decreases j
  {
    if x == 0 || y == 0 {
      ZeroBit(j);
    } else {
      assert And(x, y) / 2 == And(x / 2, y / 2);
      if j != 0 {
        AndBit(x / 2, y / 2, j - 1);
      }
    }
  }

  lemma {:induction false} ZeroBit(j: nat)
    ensures !Bit(0, j)
  {
    if j != 0 {
      ZeroBit(j - 1);
    }
  }

  lemma {:induction false} SomeBit(z: nat) returns (j: nat)
    requires z != 0
    ensures Bit(z, j)
  {
    if z % 2 == 1 {
      j := 0;
    } else {
      j := SomeBit(z / 2);
      j := j + 1;
    }
  }

  /** A word with the bits lo to hi - 1 set. */
  function Block(lo: nat, hi: nat): nat {
    if hi == 0 then 0 else if lo != 0 then 2 * Block(lo - 1, hi - 1) else 2 * Block(0, hi - 1) + 1
  }

  lemma {:induction false} BlockBit(lo: nat, hi: nat, j: nat)
    ensures Bit(Block(lo, hi), j) <==> lo <= j < hi
    decreases j
  {
    if hi == 0 {
      ZeroBit(j);
    } else if j != 0 {
      BlockBit(if lo == 0 then 0 else lo - 1, hi - 1, j - 1);
    }
  }

  lemma Blocks()
    ensures Block(8, 16) == 0xFF00 && Block(9, 10) == 0x200
  {
    assert Block(0, 4) == 15;
    assert Block(0, 8) == 255;
    assert Block(4, 12) == 16 * 255;
    assert Block(4, 5) == 16;
  }

  /** What the class test means in words of the source: the class bytes share a bit. */
  lemma ClassMatchIff(kind: u16, filter: u16)
    ensures ClassMatch(kind, filter) <==> And(kind, And(filter, 0xFF00)) != 0
  {
    Blocks();
    hide And, Bit, Block;
    var m := And(filter, 0xFF00);
    var z := And(kind, m);
    if z != 0 {
      var j := SomeBit(z);
      AndBit(kind, m, j);
      AndBit(filter, 0xFF00, j);
      BlockBit(8, 16, j);
    }
    if j :| 8 <= j < 16 && Bit(kind, j) && Bit(filter, j) {
      BlockBit(8, 16, j);
      AndBit(filter, 0xFF00, j);
      AndBit(kind, m, j);
      ZeroBit(j);
    }
  }

  lemma LowNibble(x: nat)
    ensures And(x, 0x0F) == x % 16
  {
    hide And;
    AndOdd(x, 7);
    AndOdd(x / 2, 3);
    AndOdd(x / 2 / 2, 1);
    AndOdd(x / 2 / 2 / 2, 0);
    AndNone(x / 2 / 2 / 2 / 2);
  }

  lemma AndOdd(x: nat, m: nat)
    ensures And(x, 2 * m + 1) == 2 * And(x / 2, m) + x % 2
  {
  }

  lemma AndNone(x: nat)
    ensures And(x, 0) == 0
  {
  }

  /** The subtype test likewise: no low nibble in the filter, or the same one. */
  lemma SubtypeMatchIff(kind: u16, filter: u16)
    ensures SubtypeMatch(kind, filter) <==> And(filter, 0x0F) == 0 || And(filter, 0x0F) == And(kind, 0x0F)
  {
    LowNibble(kind);
    LowNibble(filter);
  }

  /** The freshness clause: is seqno at or after cursor + 1, counting modulo 2^32? */
  predicate Fresh(cursor: u32, seqno: u32) {
    cursor == 0 ||
    (var want := if cursor == U32_MAX then 1 else cursor + 1;
     Low32(seqno - want) <= 0x7FFF_FFFE)
  }

  predicate Wanted(cursor: u32, filter: u16, h: Header) {
    SubtypeMatch(h.kind, filter) && ClassMatch(h.kind, filter) && Fresh(cursor, h.seqno)
  }

  /** The writer's counter: +1 per record, skipping 0 on wrap. */
  function NextSeq(s: u32): u32 {
    if s == U32_MAX then 1 else s + 1
  }
}
