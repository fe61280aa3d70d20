/** Sets outside the standard's ranges. Their bytes may hold 00 00 03; the strip then drops the 3, and what is parsed
    is another set, or none. */
module SpsEscape {
  import opened Words
  import opened Bits
  import opened SpsParse
  import opened SpsBuild
  import opened SpsRoundTrip
  import opened SpsCanon
  import opened SpsHigh
  import opened SpsHighEnd

  // ---------- the first bytes dropped ----------

  /** The first threes dropped: m of them from k on. */
  predicate Dropped(d: seq<byte>, k: nat, m: nat) {
    && 2 <= k && 1 <= m && k + m < |d| && d[k - 2] == 0 && d[k - 1] == 0
    && (forall j | k <= j < k + m :: d[j] == 3) && d[k + m] != 3
  }

  predicate Escaped(d: seq<byte>) {
    exists i :: 0 <= i < |d| - 2 && EmulationAt(d, i)
  }

  lemma FirstEscape(d: seq<byte>) returns (i: nat)
    requires Escaped(d)
    ensures i + 2 < |d| && EmulationAt(d, i) && forall j | 0 <= j < i :: !EmulationAt(d, j)
  {
    var w :| 0 <= w < |d| - 2 && EmulationAt(d, w);
    hide EmulationAt;
    i := 0;
    while !EmulationAt(d, i)
      invariant i <= w && forall j | 0 <= j < i :: !EmulationAt(d, j)
      decreases w - i
    {
      i := i + 1;
    }
  }

  lemma FirstDropped(d: seq<byte>) returns (k: nat, m: nat)
    requires Escaped(d) && d[|d| - 1] != 3
    ensures Dropped(d, k, m) && Strip(d[..k + m]) == d[..k]
  {
    hide *;
    var i := FirstEscape(d);
    k := i + 2;
    EscapeBytes(d, i);
    StripBefore(d, k);
    StripNext(d, k);
    DropOf(d[..k], d[k]);
    m := DropRun(d, k, 1);
    DroppedIs(d, k, m);
  }

  lemma EscapeBytes(d: seq<byte>, i: nat)
    requires i + 2 < |d| && EmulationAt(d, i)
    ensures d[i] == 0 && d[i + 1] == 0 && d[i + 2] == 3
  {
  }

  lemma StripBefore(d: seq<byte>, k: nat)
    requires k <= |d| && forall j | 0 <= j < k - 2 :: !EmulationAt(d, j)
    ensures Strip(d[..k]) == d[..k]
  {
    forall j | 0 <= j < |d[..k]| - 2 ensures !EmulationAt(d[..k], j) {
      assert !EmulationAt(d, j);
    }
    hide *;
    StripIdentity(d[..k]);
  }

  lemma DropOf(kept: seq<byte>, x: byte)
    ensures 2 <= |kept| && kept[|kept| - 1] == 0 && kept[|kept| - 2] == 0 && x == 3 ==> StripStep(kept, x) == kept
    ensures kept == [] || kept[|kept| - 1] != 0 || x != 3 ==> StripStep(kept, x) == kept + [x]
  {
  }

  lemma {:induction false} DropRun(d: seq<byte>, k: nat, n: nat) returns (m: nat)
    requires 2 <= k && 1 <= n && k + n <= |d| && d[|d| - 1] != 3 && d[k - 2] == 0 && d[k - 1] == 0
    requires (forall j | k <= j < k + n :: d[j] == 3) && Strip(d[..k + n]) == d[..k]
    ensures n <= m && k + m < |d| && (forall j | k <= j < k + m :: d[j] == 3) && d[k + m] != 3
    ensures Strip(d[..k + m]) == d[..k]
    decreases |d| - n
  {
    hide *;
    m := n;
    assert k + n != |d|;
    if d[k + n] == 3 {
      StripNext(d, k + n);
      DropOf(d[..k], d[k + n]);
      m := DropRun(d, k, n + 1);
    }
  }

  lemma DroppedIs(d: seq<byte>, k: nat, m: nat)
    requires 2 <= k && 1 <= m && k + m < |d| && d[k - 2] == 0 && d[k - 1] == 0
    requires (forall j | k <= j < k + m :: d[j] == 3) && d[k + m] != 3
    ensures Dropped(d, k, m)
  {
  }

  lemma StripNext(d: seq<byte>, n: nat)
    requires n < |d|
    ensures Strip(d[..n + 1]) == StripStep(Strip(d[..n]), d[n])
  {
    assert d[..n + 1][..n] == d[..n];
    hide StripStep;
  }

  // ---------- bytes and their bits ----------

  lemma BitOfByte(s: seq<byte>, i: nat, j: nat)
    requires i < |s| && j < 8
    ensures BitsOf(s)[8 * i + j] == Octet(s[i])[j]
  {
    BitsOfOctet(s, i);
    assert BitsOf(s)[8 * i..8 * i + 8][j] == BitsOf(s)[8 * i + j];
    hide BitsOf, Octet;
  }

  lemma OctetOfThree()
    ensures Octet(3) == [0, 0, 0, 0, 0, 0, 1, 1]
  {
    assert Shr(3, 2) == 0;
    assert Shr(3, 4) == Shr(0, 2);
    assert Shr(3, 6) == Shr(0, 4);
  }

  lemma OctetOfZero(j: nat)
    requires j < 8
    ensures Octet(0)[j] == 0
  {
    ZeroBits(8);
    hide UBits;
  }

  /** Two zero bytes and a three, bit by bit. */
  predicate Hole(b: seq<bit>, k: nat) {
    && 2 <= k && 8 * k + 8 <= |b| && b[8 * k + 6] == 1 && b[8 * k + 7] == 1
    && forall p | 8 * k - 16 <= p < 8 * k + 6 :: b[p] == 0
  }

  lemma HoleOf(d: seq<byte>, k: nat)
    requires 2 <= k < |d| && d[k - 2] == 0 && d[k - 1] == 0 && d[k] == 3
    ensures Hole(BitsOf(d), k)
  {
    var b := BitsOf(d);
    OctetOfThree();
    BitOfByte(d, k, 6);
    BitOfByte(d, k, 7);
    forall p | 8 * k - 16 <= p < 8 * k + 6 ensures b[p] == 0 {
      var i := if p < 8 * k - 8 then k - 2 else if p < 8 * k then k - 1 else k;
      BitOfByte(d, i, p - 8 * i);
      if i < k {
        OctetOfZero(p - 8 * i);
      }
      hide BitsOf, Octet;
    }
  }

  // ---------- a parse of the stripped bytes that agrees ----------

  /** The stripped bits from q on, up to n, are the bits before the strip, but for the one at g. */
  predicate Tracks(d: seq<byte>, q: nat, n: nat, g: nat) {
    forall p | q <= p < n && p < 8 * |Strip(d)| && p < 8 * |d| && p != g :: BitsOf(Strip(d))[p] == BitsOf(d)[p]
  }

  /** Behind the threes dropped at k, the bytes up to i + m were kept, m bytes early. */
  predicate Slid(d: seq<byte>, k: nat, m: nat, i: nat) {
    && k <= i <= |Strip(d)| && i + m <= |d| && Strip(d[..i + m]) == Strip(d)[..i]
    && forall j | k <= j < i :: Strip(d)[j] == d[j + m]
  }

  predicate BitSix(d: seq<byte>, j: nat) {
    j < |d| && BitsOf(d)[8 * j + 6] == 1
  }

  predicate BitSeven(d: seq<byte>, j: nat) {
    j < |d| && BitsOf(d)[8 * j + 7] == 1
  }

  /** Their last two bits are ones, but perhaps the very last. */
  predicate Odd(d: seq<byte>, k: nat, q: nat, n: nat) {
    (forall j | k <= j < q :: BitSix(d, j)) && forall j | k <= j < q && 8 * j + 7 < n :: BitSeven(d, j)
  }

  lemma SlidFirst(d: seq<byte>, k: nat, m: nat)
    requires Dropped(d, k, m) && Strip(d[..k + m]) == d[..k]
    ensures Slid(d, k, m, k)
  {
    StripMonotone(d, k + m);
    hide Strip;
  }

  lemma OddFirst(d: seq<byte>, k: nat, m: nat, n: nat)
    requires Dropped(d, k, m)
    ensures Odd(d, k, k + m, n)
  {
    forall j | k <= j < k + m ensures BitSix(d, j) && BitSeven(d, j) {
      ThreeBits(d, j);
    }
    hide BitSix, BitSeven;
  }

  lemma ThreeBits(d: seq<byte>, j: nat)
    requires j < |d| && d[j] == 3
    ensures BitSix(d, j) && BitSeven(d, j)
  {
    OctetOfThree();
    hide BitsOf, Octet;
    BitOfByte(d, j, 6);
    BitOfByte(d, j, 7);
  }

  lemma PrefixNext(s: seq<byte>, i: nat, x: byte, y: seq<byte>)
    requires i <= |s| && y == s[..i] + [x] && y <= s
    ensures i < |s| && s[i] == x && s[..i + 1] == y
  {
  }

  lemma SlidParts(d: seq<byte>, k: nat, m: nat, i: nat)
    requires Slid(d, k, m, i)
    ensures k <= i <= |Strip(d)| && i + m <= |d| && Strip(d[..i + m]) == Strip(d)[..i]
    ensures k < i ==> Strip(d)[i - 1] == d[i - 1 + m]
  {
    hide Strip;
  }

  lemma SlidMore(d: seq<byte>, k: nat, m: nat, i: nat)
    requires Slid(d, k, m, i) && i < |Strip(d)| && i + m < |d| && Strip(d)[i] == d[i + m]
    requires Strip(d[..i + m + 1]) == Strip(d)[..i + 1]
    ensures Slid(d, k, m, i + 1)
  {
    hide Strip;
  }

  /** The next byte is kept: it is no three, or the byte in front of it is not 0. */
  lemma SlidNext(d: seq<byte>, k: nat, m: nat, i: nat)
    requires Slid(d, k, m, i) && i + m < |d|
    requires if i == k then d[i + m] != 3 else d[i - 1 + m] != 0
    ensures i < |Strip(d)| && Slid(d, k, m, i + 1) && Strip(d)[i] == d[i + m]
  {
    SlidParts(d, k, m, i);
    hide *;
    var s, x := Strip(d), d[i + m];
    StripNext(d, i + m);
    assert k < i ==> s[..i][i - 1] == s[i - 1];
    DropOf(s[..i], x);
    StripMonotone(d, i + m + 1);
    PrefixNext(s, i, x, Strip(d[..i + m + 1]));
    SlidMore(d, k, m, i);
  }

  lemma SixNonzero(d: seq<byte>, j: nat)
    requires BitSix(d, j)
    ensures d[j] != 0
  {
    OctetOfZero(6);
    hide BitsOf, Octet;
    BitOfByte(d, j, 6);
  }

  /** The bits of a byte kept m bytes early are those of the byte m before it. */
  lemma BitMoves(d: seq<byte>, i: nat, j: nat, q: nat, n: nat, g: nat, t: nat)
    requires i < |Strip(d)| && i < |d| && j < |d| && Strip(d)[i] == d[j] && t < 8
    requires Tracks(d, q, n, g) && g < 8 * |d| && BitsOf(d)[g] == 0 && BitsOf(d)[8 * i + t] == 1
    requires q <= 8 * i + t < n
    ensures BitsOf(d)[8 * j + t] == 1
  {
    hide Strip, BitsOf, Octet;
    BitOfByte(Strip(d), i, t);
    BitOfByte(d, j, t);
    assert BitsOf(Strip(d))[8 * i + t] == BitsOf(d)[8 * i + t];
  }

  lemma OddNext(d: seq<byte>, k: nat, m: nat, n: nat, g: nat, i: nat)
    requires Odd(d, k, i + m, n + 8 * m) && k <= i < |Strip(d)| && 1 <= m && i + m < |d| && Strip(d)[i] == d[i + m]
    requires Tracks(d, 8 * k, n, g) && g < 8 * |d| && BitsOf(d)[g] == 0 && 8 * |d| <= n + 9
    ensures Odd(d, k, i + m + 1, n + 8 * m)
  {
    hide Strip, BitsOf, Tracks;
    assert BitSix(d, i);
    BitMoves(d, i, i + m, 8 * k, n, g, 6);
    if 8 * (i + m) + 7 < n + 8 * m {
      assert BitSeven(d, i);
      BitMoves(d, i, i + m, 8 * k, n, g, 7);
    }
  }

  lemma SlidStep(d: seq<byte>, k: nat, m: nat, n: nat, g: nat, i: nat)
    requires Dropped(d, k, m) && Slid(d, k, m, i) && Odd(d, k, i + m, n + 8 * m) && i + m < |d| && 8 * |d| <= n + 9
    requires Tracks(d, 8 * k, n, g) && g < 8 * |d| && BitsOf(d)[g] == 0
    ensures Slid(d, k, m, i + 1) && Odd(d, k, i + m + 1, n + 8 * m)
  {
    hide *;
    DroppedParts(d, k, m);
    SlidParts(d, k, m, i);
    if k < i {
      OddSix(d, k, i + m, n + 8 * m, i - 1 + m);
      SixNonzero(d, i - 1 + m);
    }
    SlidNext(d, k, m, i);
    OddNext(d, k, m, n, g, i);
  }

  lemma {:induction false} SlidAll(d: seq<byte>, k: nat, m: nat, n: nat, g: nat, i: nat)
    requires Dropped(d, k, m) && Strip(d[..k + m]) == d[..k] && k <= i && i + m <= |d| && 8 * |d| <= n + 9
    requires Tracks(d, 8 * k, n, g) && g < 8 * |d| && BitsOf(d)[g] == 0
    ensures Slid(d, k, m, i) && Odd(d, k, i + m, n + 8 * m)
    decreases i
  {
    hide *;
    if i == k {
      SlidFirst(d, k, m);
      OddFirst(d, k, m, n + 8 * m);
    } else {
      SlidAll(d, k, m, n, g, i - 1);
      SlidStep(d, k, m, n, g, i - 1);
    }
  }

  lemma DroppedParts(d: seq<byte>, k: nat, m: nat)
    requires Dropped(d, k, m)
    ensures 2 <= k && 1 <= m && k + m < |d| && d[k + m] != 3 && d[k - 2] == 0 && d[k - 1] == 0 && d[k] == 3
  {
  }

  lemma OddSix(d: seq<byte>, k: nat, q: nat, n: nat, j: nat)
    requires Odd(d, k, q, n) && k <= j < q
    ensures BitSix(d, j) && j < |d|
  {
    hide BitsOf;
    assert BitSix(d, j);
  }

  lemma OddLast(d: seq<byte>, k: nat, n: nat)
    requires Odd(d, k, |d|, n) && k < |d|
    ensures BitsOf(d)[8 * |d| - 2] == 1 && (8 * |d| - 1 < n ==> BitsOf(d)[8 * |d| - 1] == 1)
  {
    hide BitsOf;
    assert BitSix(d, |d| - 1);
    if 8 * |d| - 1 < n {
      assert BitSeven(d, |d| - 1);
    }
  }

  /** No string that ends with a stop bit and padding can slide onto itself to the end. */
  lemma NeverTracks(d: seq<byte>, k: nat, m: nat, n: nat, g: nat)
    requires Dropped(d, k, m) && Strip(d[..k + m]) == d[..k] && Ends(BitsOf(d), n)
    requires g < 8 * |d| && BitsOf(d)[g] == 0
    ensures !Tracks(d, 8 * k, n, g)
  {
    DroppedParts(d, k, m);
    hide Strip, BitsOf, Tracks, Slid, Dropped;
    if Tracks(d, 8 * k, n, g) {
      SlidAll(d, k, m, n, g, |d| - m);
      OddLast(d, k, n + 8 * m);
    }
  }

  // ---------- reading the same codes ----------

  /** The first q bits of e are those of b, up to the bit lim. */
  predicate Same(e: seq<bit>, b: seq<bit>, q: nat, lim: nat) {
    forall i | 0 <= i < q && i < lim && i < |e| && i < |b| :: e[i] == b[i]
  }

  /** A reader of e that has come as far as q in b, which only matters before the bit lim. */
  predicate InStep(e: seq<bit>, b: seq<bit>, c: Cur, q: nat, lim: nat) {
    Tame(e, c) && (q < lim ==> c.pos == Cap(e, q)) && Same(e, b, q, lim)
  }

  lemma PastLimit(e: seq<bit>, b: seq<bit>, c: Cur, r: Cur, q: nat, n: nat, lim: nat)
    requires InStep(e, b, c, q, lim) && Tame(e, r) && lim <= q
    ensures InStep(e, b, r, q + n, lim)
  {
  }

  lemma StepTame(e: seq<bit>, b: seq<bit>, c: Cur, q: nat, lim: nat)
    requires InStep(e, b, c, q, lim)
    ensures Tame(e, c) && (q < lim ==> c.pos == Cap(e, q))
  {
    hide Tame, Cap;
  }

  /** A code both hold, read in e. */
  lemma UeInStep(e: seq<bit>, b: seq<bit>, c: Cur, q: nat, lim: nat)
    requires InStep(e, b, c, q, lim) && q < lim && Zeros(e, c.pos) <= UE_CAP && At(b, q, Ue(ReadUe(e, c).val))
    ensures InStep(e, b, ReadUe(e, c).cur, q + |Ue(ReadUe(e, c).val)|, lim)
  {
    hide *;
    StepTame(e, b, c, q, lim);
    UeShown(e, c);
    UeTame(e, c);
    CodeShown(e, b, c, q, lim, ReadUe(e, c).cur, Ue(ReadUe(e, c).val));
  }

  lemma CodeShown(e: seq<bit>, b: seq<bit>, c: Cur, q: nat, lim: nat, r: Cur, code: seq<bit>)
    requires InStep(e, b, c, q, lim) && q < lim && At(b, q, code) && Shown(e, c.pos, code) && Tame(e, r)
    requires r.pos == Cap(e, c.pos + |code|)
    ensures InStep(e, b, r, q + |code|, lim)
  {
    hide Tame, At;
    forall i | 0 <= i < q + |code| && i < lim && i < |e| && i < |b| ensures e[i] == b[i] {
      if q <= i {
        AtElement(b, q, code, i - q);
      }
    }
  }

  lemma BitInStep(e: seq<bit>, b: seq<bit>, c: Cur, q: nat, lim: nat)
    requires InStep(e, b, c, q, lim) && q < lim && At(b, q, [ReadBit(e, c).val])
    ensures InStep(e, b, ReadBit(e, c).cur, q + 1, lim)
  {
    AtElement(b, q, [ReadBit(e, c).val], 0);
    hide At;
  }

  /** The code of 0xFFFF, which the reader also gives for codes too long. */
  lemma ErrorCode(b: seq<bit>, q: nat)
    requires At(b, q, Ue(UE_ERROR))
    ensures q + 17 < |b| && b[q + 16] == 1 && b[q + 17] == 0 && forall i | q <= i < q + 16 :: b[i] == 0
  {
    hide ReadUe, Ue, At;
    var n := CodeParts(b, q, UE_ERROR);
    assert Pow2(16) == 0x1_0000 by {
      Pow2Of8();
      assert Pow2(10) == 0x400;
      assert Pow2(12) == 0x1000;
      assert Pow2(14) == 0x4000;
    }
    Log2Is(UE_ERROR + 1, 16);
    UeInverts(b, Cur(q, false), UE_ERROR);
    UeWhole(b, Cur(q, false), 16);
    hide Value, Pow2;
    FrontOfZero(b[q + 17..q + 33]);
  }

  lemma FrontOfZero(t: seq<bit>)
    requires t != [] && Value(t) == 0
    ensures t[0] == 0
  {
    ValueFront(t);
    PowPositive(|t| - 1);
    hide Value, Pow2;
  }

  lemma {:induction false} PowPositive(n: nat)
    ensures 1 <= Pow2(n)
  {
    Pow2Grows(0, n);
  }

  lemma ZerosAtMost(e: seq<bit>, p: nat, z: nat)
    requires p + z < |e| && e[p + z] == 1
    ensures Zeros(e, p) <= z
  {
    ZerosClear(e, p);
    hide Zeros;
  }

  lemma HoleParts(b: seq<bit>, k: nat, p: nat)
    requires Hole(b, k)
    ensures 2 <= k && 8 * k + 8 <= |b| && b[8 * k + 6] == 1 && b[8 * k + 7] == 1
    ensures 8 * k - 16 <= p < 8 * k + 6 ==> b[p] == 0
  {
  }

  lemma ErrorBeforeHole(b: seq<bit>, k: nat, q: nat)
    requires Hole(b, k) && q + 17 < |b| && b[q + 16] == 1 && b[q + 17] == 0 && q < 8 * k + 8
    requires forall i | q <= i < q + 16 :: b[i] == 0
    ensures q + 16 < 8 * k - 16
  {
    HoleParts(b, k, q + 16);
    hide *;
    assert b[8 * k + 6] == 1 && b[8 * k + 7] == 1;
  }

  /** Behind two bytes of zeros and a three no such code starts: one in front is read as it stands. */
  lemma ErrorInStep(e: seq<bit>, b: seq<bit>, k: nat, q: nat)
    requires Hole(b, k) && 8 * k + 8 <= |e| && Same(e, b, 8 * k, 8 * k) && At(b, q, Ue(UE_ERROR)) && q < 8 * k + 8
    ensures Zeros(e, q) <= 16
  {
    hide *;
    ErrorCode(b, q);
    ErrorBeforeHole(b, k, q);
    SameAt(e, b, 8 * k, 8 * k, q + 16);
    ZerosAtMost(e, q, 16);
  }

  lemma SameAt(e: seq<bit>, b: seq<bit>, q: nat, lim: nat, i: nat)
    requires Same(e, b, q, lim) && i < q && i < lim && i < |e| && i < |b|
    ensures e[i] == b[i]
  {
  }

  /** One code more, whatever its value. */
  lemma CodeInStep(e: seq<bit>, b: seq<bit>, k: nat, c: Cur, q: nat)
    requires Hole(b, k) && 8 * k + 8 <= |e| && Same(e, b, 8 * k, 8 * k) && InStep(e, b, c, q, 8 * k + 8)
    requires At(b, q, Ue(ReadUe(e, c).val))
    ensures InStep(e, b, ReadUe(e, c).cur, q + |Ue(ReadUe(e, c).val)|, 8 * k + 8)
  {
    hide *;
    var v := ReadUe(e, c).val;
    StepTame(e, b, c, q, 8 * k + 8);
    UeTame(e, c);
    if 8 * k + 8 <= q {
      PastLimit(e, b, c, ReadUe(e, c).cur, q, |Ue(v)|, 8 * k + 8);
    } else {
      Limits();
      if v != UE_ERROR {
        CapOf(e, c);
      } else if q < |e| {
        ErrorInStep(e, b, k, q);
      } else {
        ZerosAtEnd(e, c.pos);
      }
      UeInStep(e, b, c, q, 8 * k + 8);
    }
  }

  lemma ZerosAtEnd(e: seq<bit>, p: nat)
    requires p == |e|
    ensures Zeros(e, p) == 0
  {
  }

  /** The code of 9 is 0001010. */
  lemma CodeOfNine(b: seq<bit>, q: nat)
    requires At(b, q, Ue(9))
    ensures q + 4 < |b| && b[q] == 0 && b[q + 1] == 0 && b[q + 2] == 0 && b[q + 3] == 1 && b[q + 4] == 0
  {
    hide ReadUe, Ue, At;
    RefsLogs(9);
    var n := CodeParts(b, q, 9);
    UeInverts(b, Cur(q, false), 9);
    UeShort3(b, Cur(q, false), b[q + 4], b[q + 5], b[q + 6]);
  }

  lemma CodeOfUnit()
    ensures |Ue(1)| == 3 && Ue(1)[1] == 1
  {
    RefsLogs(1);
    UeCode(1);
    hide Ue, UBits, Log2;
  }

  lemma NineBeforeHole(b: seq<bit>, k: nat, q: nat)
    requires Hole(b, k) && q < 8 * k + 8 && q + 4 < |b|
    requires b[q] == 0 && b[q + 1] == 0 && b[q + 2] == 0 && b[q + 3] == 1 && b[q + 4] == 0
    ensures q + 3 < 8 * k
  {
    HoleParts(b, k, q + 3);
    hide *;
    assert b[8 * k + 6] == 1 && b[8 * k + 7] == 1;
  }

  /** Count type 1 is given back as 9, but not where 9 was written. */
  lemma NotNine(e: seq<bit>, b: seq<bit>, k: nat, c: Cur, q: nat)
    requires Hole(b, k) && 8 * k + 8 <= |e| && Same(e, b, 8 * k, 8 * k) && InStep(e, b, c, q, 8 * k + 8)
    requires q < 8 * k + 8 && At(b, q, Ue(9))
    ensures ReadUe(e, c).val != 1
  {
    hide *;
    CodeOfNine(b, q);
    NineBeforeHole(b, k, q);
    StepTame(e, b, c, q, 8 * k + 8);
    SameAt(e, b, 8 * k, 8 * k, q + 1);
    if ReadUe(e, c).val == 1 {
      Limits();
      CapOf(e, c);
      UeShown(e, c);
      CodeOfUnit();
      ShownAt(e, q, Ue(1), 1);
    }
  }

  lemma ShownAt(e: seq<bit>, q: nat, code: seq<bit>, i: nat)
    requires Shown(e, q, code) && i < |code| && q + i < |e|
    ensures e[q + i] == code[i]
  {
  }

  lemma PocParts(e: seq<bit>, c: Cur)
    ensures var t := ReadUe(e, c);
      && (t.val == 0 ==> ReadPoc(e, c) == Poc(0, ReadUe(e, t.cur).val, ReadUe(e, t.cur).cur))
      && (t.val == 1 ==> ReadPoc(e, c).kind == 9) && (2 <= t.val ==> ReadPoc(e, c) == Poc(t.val, 0, t.cur))
  {
    hide ReadUe, ReadBit, SkipUes;
  }

  lemma PocStands(b: seq<bit>, q: nat, si: SpsInfo)
    requires At(b, q, PocCode(si))
    ensures At(b, q, Ue(si.pocType)) && (si.pocType != 0 ==> |PocCode(si)| == |Ue(si.pocType)|)
    ensures si.pocType == 0
      ==> At(b, q + |Ue(0)|, Ue(si.pocLsb)) && |PocCode(si)| == |Ue(0)| + |Ue(si.pocLsb)|
  {
    hide Ue, At;
    AtSplit(b, q, Ue(si.pocType), if si.pocType == 0 then Ue(si.pocLsb) else []);
  }

  lemma PocInStep(e: seq<bit>, b: seq<bit>, k: nat, c: Cur, q: nat, si: SpsInfo)
    requires Hole(b, k) && 8 * k + 8 <= |e| && Same(e, b, 8 * k, 8 * k) && InStep(e, b, c, q, 8 * k + 8)
    requires At(b, q, PocCode(si)) && ReadPoc(e, c).kind == si.pocType && ReadPoc(e, c).lsb == si.pocLsb
    ensures InStep(e, b, ReadPoc(e, c).cur, q + |PocCode(si)|, 8 * k + 8)
  {
    hide *;
    var t := ReadUe(e, c);
    StepTame(e, b, c, q, 8 * k + 8);
    PocTame(e, c);
    PocParts(e, c);
    if 8 * k + 8 <= q {
      PastLimit(e, b, c, ReadPoc(e, c).cur, q, |PocCode(si)|, 8 * k + 8);
    } else {
      PocStands(b, q, si);
      if t.val == 1 {
        NotNine(e, b, k, c, q);
      } else {
        CodeInStep(e, b, k, c, q);
        if t.val == 0 {
          CodeInStep(e, b, k, t.cur, q + |Ue(0)|);
        }
      }
    }
  }

  /** The references: id, frame number size, order count and reference count. */
  lemma RefsInStep(e: seq<bit>, b: seq<bit>, k: nat, c: Cur, q: nat, si: SpsInfo)
    requires Hole(b, k) && 8 * k + 8 <= |e| && Same(e, b, 8 * k, 8 * k) && InStep(e, b, c, q, 8 * k + 8)
    requires At(b, q, Ue(si.spsId) + RefsRest(si)) && ReadUe(e, c).val == si.spsId
    requires var head := LateHead(e, ReadUe(e, c).cur, si).si;
      && head.log2frm == si.log2frm && head.pocType == si.pocType && head.pocLsb == si.pocLsb
      && head.maxRef == si.maxRef
    ensures InStep(e, b, LateHead(e, ReadUe(e, c).cur, si).cur, q + |Ue(si.spsId)| + |RefsRest(si)|, 8 * k + 8)
  {
    hide *;
    RefsRestIs(si);
    LateHeadIs(e, ReadUe(e, c).cur, si);
    var id := ReadUe(e, c);
    var frm := ReadUe(e, id.cur);
    var poc := ReadPoc(e, frm.cur);
    var x, y, z, u := Ue(si.spsId), Ue(si.log2frm), PocCode(si), Ue(si.maxRef);
    AtSplit(b, q, x, RefsRest(si));
    AtSplit(b, q + |x|, y, z + u);
    AtSplit(b, q + |x| + |y|, z, u);
    CodeInStep(e, b, k, c, q);
    CodeInStep(e, b, k, id.cur, q + |x|);
    PocInStep(e, b, k, frm.cur, q + |x| + |y|, si);
    CodeInStep(e, b, k, poc.cur, q + |x| + |y| + |z|);
  }

  lemma LateHeadIs(b: seq<bit>, c: Cur, si: SpsInfo)
    ensures var frm := ReadUe(b, c);
      var poc := ReadPoc(b, frm.cur);
      var refs := ReadUe(b, poc.cur);
      var head := LateHead(b, c, si);
      && head.cur == refs.cur && head.si.log2frm == frm.val && head.si.pocType == poc.kind
      && head.si.pocLsb == poc.lsb && head.si.maxRef == refs.val
  {
    hide ReadUe, ReadPoc;
  }

  // ---------- behind the gaps bit ----------

  /** b with the gaps bit that was read, which the parser does not look at. */
  function WithGap(b: seq<bit>, g: nat, x: bit): (r: seq<bit>)
    requires g < |b|
    ensures |r| == |b|
  {
    b[g := x]
  }

  lemma AtBehind(b: seq<bit>, g: nat, x: bit, q: nat, code: seq<bit>)
    requires g < q && g < |b| && At(b, q, code)
    ensures At(WithGap(b, g, x), q, code)
  {
  }

  lemma GapInStep(e: seq<bit>, b: seq<bit>, c: Cur, g: nat, lim: nat, n: nat)
    requires InStep(e, b, c, g, lim) && g < lim && g < |b|
    ensures InStep(e, WithGap(b, g, ReadBit(e, c).val), ReadBit(e, c).cur, g + 1, n)
  {
  }

  /** A code that is not the error's. */
  lemma ValueInStep(e: seq<bit>, b: seq<bit>, c: Cur, q: nat, lim: nat)
    requires InStep(e, b, c, q, lim) && |b| < lim && At(b, q, Ue(ReadUe(e, c).val)) && ReadUe(e, c).val != UE_ERROR
    ensures InStep(e, b, ReadUe(e, c).cur, q + |Ue(ReadUe(e, c).val)|, lim)
  {
    hide *;
    CapOf(e, c);
    AtEnd(b, q, Ue(ReadUe(e, c).val));
    UeInStep(e, b, c, q, lim);
  }

  lemma {:induction false} UesInStep(e: seq<bit>, b: seq<bit>, c: Cur, q: nat, lim: nat, n: nat)
    requires InStep(e, b, c, q, lim) && |b| < lim && At(b, q, Ues(ReadUes(e, c, n).vals))
    requires forall v | v in ReadUes(e, c, n).vals :: v != UE_ERROR
    ensures InStep(e, b, ReadUes(e, c, n).cur, q + |Ues(ReadUes(e, c, n).vals)|, lim)
    decreases n
  {
    hide *;
    if n == 0 {
      NoReads(e, c);
      NoCodes();
    } else {
      OneRead(e, c, n);
      var first := ReadUe(e, c);
      var rest := ReadUes(e, first.cur, n - 1);
      var vals := [first.val] + rest.vals;
      assert first.val in vals && forall v | v in rest.vals :: v in vals;
      assert vals[1..] == rest.vals;
      UesOf(vals);
      AtSplit(b, q, Ue(first.val), Ues(rest.vals));
      ValueInStep(e, b, c, q, lim);
      UesInStep(e, b, first.cur, q + |Ue(first.val)|, lim, n - 1);
    }
  }

  lemma FlagsInStep(e: seq<bit>, b: seq<bit>, c: Cur, q: nat, lim: nat, si: SpsInfo)
    requires InStep(e, b, c, q, lim) && |b| < lim && At(b, q, FlagsCode(si))
    requires var f := ReadFlags(e, c);
      f.fmbo == si.fmbo && f.mb == si.mbAdaptive && f.d8 == si.direct8x8 && f.crop == si.cropFlag
    ensures InStep(e, b, ReadFlags(e, c).cur, q + |FlagsCode(si)|, lim)
  {
    FlagsAre(si);
    FlagsParts(e, c);
    hide *;
    var fmbo := ReadBit(e, c);
    var mb := if fmbo.val == 0 then ReadBit(e, fmbo.cur) else Read(0, fmbo.cur);
    var d8 := ReadBit(e, mb.cur);
    var y, z, u := if si.fmbo == 0 then [si.mbAdaptive] else [], [si.direct8x8], [si.cropFlag];
    AtEnd(b, q, FlagsCode(si));
    AtSplit(b, q, [si.fmbo], y + (z + u));
    AtSplit(b, q + 1, y, z + u);
    AtSplit(b, q + 1 + |y|, z, u);
    BitInStep(e, b, c, q, lim);
    if fmbo.val == 0 {
      BitInStep(e, b, fmbo.cur, q + 1, lim);
    }
    BitInStep(e, b, mb.cur, q + 1 + |y|, lim);
    BitInStep(e, b, d8.cur, q + 2 + |y|, lim);
  }

  lemma FlagsAre(si: SpsInfo)
    ensures FlagsCode(si)
      == [si.fmbo] + ((if si.fmbo == 0 then [si.mbAdaptive] else []) + ([si.direct8x8] + [si.cropFlag]))
  {
    Bit1Is(si.fmbo);
    Bit1Is(si.mbAdaptive);
    Bit1Is(si.direct8x8);
    Bit1Is(si.cropFlag);
    hide Bit1;
  }

  lemma FlagsParts(b: seq<bit>, c: Cur)
    ensures var fmbo := ReadBit(b, c);
      var mb := if fmbo.val == 0 then ReadBit(b, fmbo.cur) else Read(0, fmbo.cur);
      var d8 := ReadBit(b, mb.cur);
      var crop := ReadBit(b, d8.cur);
      ReadFlags(b, c).fmbo == fmbo.val && ReadFlags(b, c).mb == mb.val && ReadFlags(b, c).d8 == d8.val
      && ReadFlags(b, c).crop == crop.val && ReadFlags(b, c).cur == crop.cur
  {
    hide ReadBit;
  }

  /** Sizes, flags and crops. */
  lemma RestInStep(e: seq<bit>, b: seq<bit>, head: Parsed, m: nat, lim: nat, si: SpsInfo)
    requires Shaped(si) && !head.si.ok && ParseCrop(e, ParseDims(e, head)).si == si && |b| < lim
    requires InStep(e, b, ReadBit(e, head.cur).cur, m, lim)
    requires At(b, m, SizeCode(si)) && At(b, m + |SizeCode(si)|, CropCode(si))
    ensures Same(e, b, m + |SizeCode(si)| + |CropCode(si)|, lim)
  {
    hide *;
    ShapedParts(si);
    LateFields(e, head, si);
    DimsParts(e, head);
    SizeValues(e, head, si);
    FlagsValues(e, head, si);
    SizeStands(b, m, si);
    var w := ReadUe(e, ReadBit(e, head.cur).cur);
    var h := ReadUe(e, w.cur);
    var x, y := Ue(WidthCode(si)), Ue(HeightCode(si));
    ValueInStep(e, b, ReadBit(e, head.cur).cur, m, lim);
    ValueInStep(e, b, w.cur, m + |x|, lim);
    FlagsInStep(e, b, h.cur, m + |x| + |y|, lim, si);
    if si.cropFlag == 1 {
      CropsRead(e, ParseDims(e, head), si);
      UesInStep(e, b, ReadFlags(e, h.cur).cur, m + |SizeCode(si)|, lim, 4);
    } else {
      NoCrops(si);
    }
    StepSame(e, b, if si.cropFlag == 1 then ReadUes(e, ReadFlags(e, h.cur).cur, 4).cur else ReadFlags(e, h.cur).cur,
             m + |SizeCode(si)| + |CropCode(si)|, lim);
  }

  lemma ShapedParts(si: SpsInfo)
    requires Shaped(si)
    ensures si.ok && forall v | v in si.crop :: v != UE_ERROR
  {
  }

  lemma FlagsValues(b: seq<bit>, p: Parsed, si: SpsInfo)
    requires !p.si.ok && ParseDims(b, p).si.ok
    requires var d := ParseDims(b, p).si;
      d.fmbo == si.fmbo && d.mbAdaptive == si.mbAdaptive && d.direct8x8 == si.direct8x8 && d.cropFlag == si.cropFlag
    ensures var f := ReadFlags(b, ReadUe(b, ReadUe(b, ReadBit(b, p.cur).cur).cur).cur);
      && f.fmbo == si.fmbo && f.mb == si.mbAdaptive && f.d8 == si.direct8x8 && f.crop == si.cropFlag
      && ParseDims(b, p).cur == f.cur
  {
    hide ReadUe, ReadBit, ReadFlags;
  }

  lemma NoCrops(si: SpsInfo)
    requires si.cropFlag == 0
    ensures CropCode(si) == []
  {
  }

  lemma StepSame(e: seq<bit>, b: seq<bit>, c: Cur, q: nat, lim: nat)
    requires InStep(e, b, c, q, lim)
    ensures Same(e, b, q, lim)
  {
    hide Same, Tame, Cap;
  }

  // ---------- the exact condition ----------

  lemma LastNotThree(d: seq<byte>, n: nat)
    requires Ends(BitsOf(d), n)
    ensures d != [] && d[|d| - 1] != 3
  {
    hide BitsOf;
    if d[|d| - 1] == 3 {
      ThreeBits(d, |d| - 1);
    }
  }

  /** Bytes in front of the first one dropped, bit by bit. */
  lemma PrefixBits(s: seq<byte>, d: seq<byte>, k: nat)
    requires k <= |s| && k <= |d| && s[..k] == d[..k]
    ensures Same(BitsOf(s), BitsOf(d), 8 * k, 8 * k)
  {
    hide BitsOf;
    forall p | 0 <= p < 8 * k && p < |BitsOf(s)| && p < |BitsOf(d)| ensures BitsOf(s)[p] == BitsOf(d)[p] {
      var i := p / 8;
      BitOfByte(s, i, p - 8 * i);
      BitOfByte(d, i, p - 8 * i);
      assert s[..k][i] == d[..k][i];
    }
  }

  lemma SameByte(s: seq<byte>, d: seq<byte>, k: nat, q: nat)
    requires k < |s| && k < |d| && d[k] == 3 && Same(BitsOf(s), BitsOf(d), q, 8 * k + 8) && 8 * k + 8 <= q
    ensures s[k] == 3
  {
    OctetOfThree();
    hide BitsOf, Octet, Same;
    var e := BitsOf(s);
    forall j | 0 <= j < 8 ensures e[8 * k + j] == Octet(3)[j] {
      BitOfByte(d, k, j);
      SameAt(e, BitsOf(d), q, 8 * k + 8, 8 * k + j);
    }
    OctetStands(e, 8 * k, 3);
    ByteReads(s, k, 3);
  }

  lemma OctetStands(e: seq<bit>, p: nat, v: byte)
    requires p + 8 <= |e| && forall j | 0 <= j < 8 :: e[p + j] == Octet(v)[j]
    ensures At(e, p, UBits(v, 8))
  {
    assert UBits(v, 8) == Octet(v);
    hide Octet, UBits;
    AtIntro(e, p, Octet(v));
  }

  /** The header bytes are the fields parsed. */
  lemma HeaderKept(s: seq<byte>, si: SpsInfo)
    requires 4 <= |s| && ParseRbsp(s).si == si
    ensures s[1] == si.profile && s[2] == si.constraint && s[3] == si.level
  {
    hide BitsOf, ReadUe, ReadPoc, ReadBit, ReadFlags, ReadUes, SkipHigh, HighProfile;
  }

  /** A plain profile is parsed like a late reading, from the id on. */
  lemma PlainLate(s: seq<byte>, si: SpsInfo)
    requires 4 <= |s| && ParseRbsp(s).si == si && si.ok && !HighProfile(si.profile)
    ensures var e := BitsOf(s);
      var id := ReadUe(e, Cur(32, false));
      id.val == si.spsId && ParseCrop(e, ParseDims(e, LateHead(e, id.cur, si))).si == si
  {
    hide BitsOf, ReadUe, ReadPoc, ParseDims, ReadUes, ParseHead;
    HeaderKept(s, si);
    var e := BitsOf(s);
    var head := ParseHead(e, s[1], s[2], s[3]);
    HeadWritable(e, s[1], s[2], s[3]);
    DimsWritable(e, head);
    HeadIsPlain(e, si);
  }

  lemma HeadIsPlain(b: seq<bit>, si: SpsInfo)
    requires !HighProfile(si.profile)
    ensures var head, id := ParseHead(b, si.profile, si.constraint, si.level), ReadUe(b, Cur(32, false));
      head.si.spsId == id.val && (id.val == si.spsId ==> head == LateHead(b, id.cur, si)) && !head.si.ok
  {
    hide HighProfile, ReadUe, ReadPoc;
  }

  lemma ParsedStripped(d: seq<byte>, si: SpsInfo)
    requires ParseSps(d) == si && si.ok
    ensures 4 <= |Strip(d)| && ParseRbsp(Strip(d)).si == si
  {
    hide Strip, ParseBits, BitsOf;
  }

  /** Everything behind the header, as it stands in the built bits. */
  lemma BuiltRest(si: SpsInfo)
    ensures var b, q := BitsOf(BuildSps(si)), 32 + |Ue(si.spsId)|;
      var g := q + |RefsRest(si)|;
      && At(b, 32, Ue(si.spsId) + RefsRest(si)) && g < |b| && b[g] == 0 && At(b, g + 1, SizeCode(si))
      && At(b, g + 1 + |SizeCode(si)|, CropCode(si))
      && g + 1 + |SizeCode(si)| + |CropCode(si)| == |FieldBits(si)| && Ends(b, |FieldBits(si)|)
  {
    BuiltBits(si);
    BodyEnds(si);
    PaddedEnds(FieldBits(si));
    hide *;
    var b := BitsOf(BuildSps(si));
    BuiltTail(b, si);
    AtJoin(b, 32, Ue(si.spsId), RefsRest(si));
    FieldsAre(si);
    AtElement(b, 32 + |Ue(si.spsId)| + |RefsRest(si)|, Bit1(0), 0);
  }

  lemma StartInStep(e: seq<bit>, b: seq<bit>, k: nat)
    requires 4 <= k && 8 * k + 8 <= |e| && Same(e, b, 8 * k, 8 * k)
    ensures InStep(e, b, Cur(32, false), 32, 8 * k + 8)
  {
  }

  lemma SameButGap(e: seq<bit>, b: seq<bit>, g: nat, x: bit, n: nat, p: nat)
    requires g < |b| && Same(e, WithGap(b, g, x), n, |b| + 1) && p < n && p < |e| && p < |b| && p != g
    ensures e[p] == b[p]
  {
  }

  lemma TracksOf(d: seq<byte>, q: nat, n: nat, g: nat, x: bit)
    requires g < |BitsOf(d)| && Same(BitsOf(Strip(d)), WithGap(BitsOf(d), g, x), n, |BitsOf(d)| + 1)
    ensures Tracks(d, q, n, g)
  {
    hide BitsOf, Strip, Same, WithGap;
    forall p | q <= p < n && p < 8 * |Strip(d)| && p < 8 * |d| && p != g
      ensures BitsOf(Strip(d))[p] == BitsOf(d)[p]
    {
      SameButGap(BitsOf(Strip(d)), BitsOf(d), g, x, n, p);
    }
  }

  /** The bits that stand behind a place in b stand there with any gaps bit. */
  lemma RestBehind(b: seq<bit>, g: nat, x: bit, si: SpsInfo)
    requires g < |b| && At(b, g + 1, SizeCode(si)) && At(b, g + 1 + |SizeCode(si)|, CropCode(si))
    ensures At(WithGap(b, g, x), g + 1, SizeCode(si)) && At(WithGap(b, g, x), g + 1 + |SizeCode(si)|, CropCode(si))
  {
    hide *;
    AtBehind(b, g, x, g + 1, SizeCode(si));
    AtBehind(b, g, x, g + 1 + |SizeCode(si)|, CropCode(si));
  }

  lemma HeadNotDone(b: seq<bit>, c: Cur, si: SpsInfo)
    ensures !LateHead(b, c, si).si.ok
  {
    hide ReadUe, ReadPoc;
  }

  /** What is left of the first threes dropped, and the parse that agrees. */
  predicate Misled(si: SpsInfo, d: seq<byte>, k: nat, m: nat) {
    var s := Strip(d);
    && Writable(si) && d == BuildSps(si) && Dropped(d, k, m) && Strip(d[..k + m]) == d[..k]
    && k < |s| && s[k] == d[k + m] && Same(BitsOf(s), BitsOf(d), 8 * k, 8 * k)
    && 4 <= |s| && ParseRbsp(s).si == si
  }

  lemma MisledParts(si: SpsInfo, d: seq<byte>, k: nat, m: nat)
    requires Misled(si, d, k, m)
    ensures Writable(si) && si.ok && Shaped(si) && !HighProfile(si.profile) && d == BuildSps(si) && Dropped(d, k, m)
    ensures Strip(d[..k + m]) == d[..k] && k < |Strip(d)| && Strip(d)[k] == d[k + m]
    ensures Same(BitsOf(Strip(d)), BitsOf(d), 8 * k, 8 * k) && 4 <= |Strip(d)| && ParseRbsp(Strip(d)).si == si
  {
    hide Strip, BuildSps, BitsOf, Dropped, HighProfile, Same, ParseRbsp;
  }

  lemma MisledIs(si: SpsInfo, d: seq<byte>, k: nat, m: nat)
    requires Writable(si) && d == BuildSps(si) && Dropped(d, k, m) && Strip(d[..k + m]) == d[..k]
    requires k < |Strip(d)| && Strip(d)[k] == d[k + m] && Same(BitsOf(Strip(d)), BitsOf(d), 8 * k, 8 * k)
    requires 4 <= |Strip(d)| && ParseRbsp(Strip(d)).si == si
    ensures Misled(si, d, k, m)
  {
    hide Strip, BuildSps, BitsOf, Dropped, Writable, Same, ParseRbsp;
  }

  /** The header bytes are parsed one by one. */
  lemma NotInHeader(si: SpsInfo, d: seq<byte>, k: nat, m: nat)
    requires Misled(si, d, k, m)
    ensures 4 <= k
  {
    hide *;
    MisledParts(si, d, k, m);
    DroppedParts(d, k, m);
    HeaderKept(Strip(d), si);
    RoundTripRaw(si);
    HeaderKept(d, si);
  }

  /** The references agree up to the byte dropped, or past it. */
  lemma RefsAgree(si: SpsInfo, d: seq<byte>, k: nat, m: nat) returns (head: Parsed)
    requires Misled(si, d, k, m)
    ensures !head.si.ok && ParseCrop(BitsOf(Strip(d)), ParseDims(BitsOf(Strip(d)), head)).si == si
    ensures InStep(BitsOf(Strip(d)), BitsOf(d), head.cur, 32 + |Ue(si.spsId)| + |RefsRest(si)|, 8 * k + 8)
  {
    hide *;
    NotInHeader(si, d, k, m);
    MisledParts(si, d, k, m);
    DroppedParts(d, k, m);
    HoleOf(d, k);
    var e, b := BitsOf(Strip(d)), BitsOf(d);
    StartInStep(e, b, k);
    PlainLate(Strip(d), si);
    head := LateHead(e, ReadUe(e, Cur(32, false)).cur, si);
    HeadNotDone(e, ReadUe(e, Cur(32, false)).cur, si);
    LateFields(e, head, si);
    BuiltRest(si);
    RefsInStep(e, b, k, Cur(32, false), 32, si);
  }

  lemma NeverMisled(si: SpsInfo, d: seq<byte>, k: nat, m: nat)
    ensures !Misled(si, d, k, m)
  {
    hide *;
    if Misled(si, d, k, m) {
      var head := RefsAgree(si, d, k, m);
      MisledParts(si, d, k, m);
      DroppedParts(d, k, m);
      BuiltRest(si);
      var e, b, n := BitsOf(Strip(d)), BitsOf(d), |FieldBits(si)|;
      var g := 32 + |Ue(si.spsId)| + |RefsRest(si)|;
      if 8 * k + 8 <= g {
        StepSame(e, b, head.cur, g, 8 * k + 8);
        SameByte(Strip(d), d, k, g);
      } else {
        StepTame(e, b, head.cur, g, 8 * k + 8);
        BitTame(e, head.cur);
        var x := ReadBit(e, head.cur).val;
        GapInStep(e, b, head.cur, g, 8 * k + 8, |b| + 1);
        RestBehind(b, g, x, si);
        RestInStep(e, WithGap(b, g, x), head, g + 1, |b| + 1, si);
        TracksOf(d, 8 * k, n, g, x);
        NeverTracks(d, k, m, n, g);
      }
    }
  }

  /** Bytes with 00 00 03 never parse back: what the strip leaves would have to be the same bytes again. */
  lemma EscapedNeverBack(si: SpsInfo)
    requires Writable(si) && Escaped(BuildSps(si))
    ensures ParseSps(BuildSps(si)) != si
  {
    hide *;
    var d := BuildSps(si);
    BuiltRest(si);
    LastNotThree(d, |FieldBits(si)|);
    var k, m := FirstDropped(d);
    DroppedParts(d, k, m);
    SlidFirst(d, k, m);
    SlidParts(d, k, m, k);
    SlidNext(d, k, m, k);
    assert d[..k] == Strip(d)[..k];
    PrefixBits(Strip(d), d, k);
    if ParseSps(d) == si {
      WritableParts(si);
      ParsedStripped(d, si);
      MisledIs(si, d, k, m);
      NeverMisled(si, d, k, m);
    }
  }

  lemma WritableParts(si: SpsInfo)
    requires Writable(si)
    ensures si.ok && Shaped(si) && !HighProfile(si.profile)
  {
  }

  /** The round trip outside the standard's ranges: a writable set comes back if and only if its bytes hold no
      00 00 03. */
  lemma ReadsBackIffClean(si: SpsInfo)
    requires Writable(si)
    ensures ParseSps(BuildSps(si)) == si <==> forall i | 0 <= i < |BuildSps(si)| - 2 :: !EmulationAt(BuildSps(si), i)
  {
    hide Writable, BuildSps, ParseSps, EmulationAt;
    if Escaped(BuildSps(si)) {
      EscapedNeverBack(si);
    } else {
      RoundTripClean(si);
    }
  }
}
