/** Bit strings that repeat. If a high profile set with crops were read back, its size, flags and crops would stand in a
    string that repeats with the distance of the two readings; the words that could repeat are few, and in none of them
    do the crops come out right. */
module SpsLoop {
  import opened Bits

  // ---------- codes in a string ----------

  /** A code at i with z leading zeros. */
  predicate Lead(t: seq<bit>, i: nat, z: nat) {
    i + 2 * z < |t| && t[i + z] == 1 && forall k | i <= k < i + z :: t[k] == 0
  }

  /** So far as the string goes: z zeros from i on, and then a one. */
  predicate Starts(t: seq<bit>, i: nat, z: nat) {
    (i + z < |t| ==> t[i + z] == 1) && forall k | i <= k < i + z && k < |t| :: t[k] == 0
  }

  lemma LeadIs(t: seq<bit>, i: nat, z: nat, y: nat)
    requires Starts(t, i, z) && Lead(t, i, y)
    ensures y == z
  {
  }

  lemma StartsSooner(t: seq<bit>, i: nat, m: nat, z: nat)
    requires m <= i && Starts(t, i, z) && forall k | m <= k < i && k < |t| :: t[k] == 0
    ensures Starts(t, m, z + (i - m))
  {
  }

  /** A code of at most three leading zeros with o ones behind its leading one. */
  predicate Code(t: seq<bit>, i: nat, z: nat, o: nat) {
    && Lead(t, i, z)
    && (z == 1 ==> o == t[i + 2] as int)
    && (z == 2 ==> o == t[i + 3] as int + t[i + 4] as int)
    && (z == 3 ==> o == t[i + 4] as int + t[i + 5] as int + t[i + 6] as int)
  }

  predicate Loop(t: seq<bit>, n: nat) {
    0 < n <= |t| && forall i | 0 <= i && i + n < |t| :: t[i + n] == t[i]
  }

  lemma Again(t: seq<bit>, n: nat, i: nat)
    requires Loop(t, n) && i < |t|
    ensures i + n < |t| ==> t[i + n] == t[i]
  {
  }

  lemma LoopFits(t: seq<bit>, n: nat)
    requires Loop(t, n)
    ensures n <= |t|
  {
  }

  lemma StartsAgain(t: seq<bit>, n: nat, i: nat, z: nat)
    requires Loop(t, n) && Starts(t, i, z)
    ensures Starts(t, i + n, z)
  {
    forall k | i + n <= k < i + n + z && k < |t| ensures t[k] == 0 {
      assert t[k - n + n] == t[k - n];
    }
    assert i + z + n < |t| ==> t[i + z + n] == t[i + z];
  }

  // ---------- sizes, flags and crops ----------

  /** How many zeros lead the codes of the width, the height and the four crops. */
  datatype Tokens = Tokens(w: nat, h: nat, c0: nat, c1: nat, c2: nat, c3: nat)

  /** Four crops from s on, and the missing VUI. */
  predicate Crops(t: seq<bit>, s: nat, k: Tokens) {
    var s1 := s + 2 * k.c0 + 1;
    var s2 := s1 + 2 * k.c1 + 1;
    var s3 := s2 + 2 * k.c2 + 1;
    var end := s3 + 2 * k.c3 + 1;
    Lead(t, s, k.c0) && Lead(t, s1, k.c1) && Lead(t, s2, k.c2) && Lead(t, s3, k.c3) && end < |t| && t[end] == 0
  }

  /** Flags from y on, the last of them saying that there are crops. */
  predicate Flagged(t: seq<bit>, y: nat, k: Tokens) {
    y + 3 < |t|
    && if t[y] == 1 then t[y + 2] == 1 && Crops(t, y + 3, k) else t[y + 3] == 1 && Crops(t, y + 4, k)
  }

  predicate Laid(t: seq<bit>, k: Tokens) {
    Lead(t, 0, k.w) && Lead(t, 2 * k.w + 1, k.h) && Flagged(t, 2 * k.w + 2 * k.h + 2, k)
  }

  /** And with n ones in a period the last n - 2 crops are 0. */
  predicate Fits(t: seq<bit>, n: nat, k: Tokens) {
    Laid(t, k) && n <= 5 && k.c3 == 0 && (4 <= n ==> k.c2 == 0) && (5 <= n ==> k.c1 == 0)
  }

  lemma SizesAre(t: seq<bit>, n: nat, k: Tokens, w: nat, h: nat)
    requires Fits(t, n, k) && Starts(t, 0, w) && Starts(t, 2 * w + 1, h)
    ensures Flagged(t, 2 * w + 2 * h + 2, k)
    ensures n <= 5 && k.c3 == 0 && (4 <= n ==> k.c2 == 0) && (5 <= n ==> k.c1 == 0)
  {
    LeadIs(t, 0, w, k.w);
    LeadIs(t, 2 * w + 1, h, k.h);
  }

  // ---------- reference count 0 ----------

  /** Size code, count type 0, order count code, reference count 0, late gaps bit. */
  predicate Word0(t: seq<bit>, n: nat, a: nat, o: nat, c: nat, q: nat, d: nat, ones: nat) {
    && n == 2 * a + 2 * c + 5 && Loop(t, n)
    && Code(t, 0, a, o) && t[2 * a + 1] == 1 && Code(t, 2 * a + 2, c, q) && t[n - 2] == 1 && t[n - 1] == d
    && 4 + o + q + d <= ones
  }

  lemma Word0Sizes(t: seq<bit>, n: nat, a: nat, o: nat, c: nat, q: nat, d: nat, ones: nat, k: Tokens)
    requires Word0(t, n, a, o, c, q, d, ones) && Fits(t, ones, k)
    ensures Flagged(t, 2 * a + 2, k)
    ensures ones <= 5 && k.c3 == 0 && k.c2 == 0 && (5 <= ones ==> k.c1 == 0)
  {
    hide Loop, Fits;
    SizesAre(t, ones, k, a, 0);
  }

  lemma Word0Zero(t: seq<bit>, n: nat, a: nat, o: nat, q: nat, d: nat, ones: nat, k: Tokens)
    requires Word0(t, n, a, o, 0, q, d, ones)
    ensures !Fits(t, ones, k)
  {
    hide Loop, Fits;
    if Fits(t, ones, k) {
      Word0Sizes(t, n, a, o, 0, q, d, ones, k);
      StartsAgain(t, n, 0, a);
      LeadIs(t, n, a, k.c0);
      Again(t, n, n - 1);
    }
  }

  lemma Word0One(t: seq<bit>, n: nat, a: nat, o: nat, q: nat, d: nat, ones: nat, k: Tokens)
    requires Word0(t, n, a, o, 1, q, d, ones)
    ensures !Fits(t, ones, k)
  {
    hide Loop, Fits;
    if Fits(t, ones, k) {
      Word0Sizes(t, n, a, o, 1, q, d, ones, k);
      StartsAgain(t, n, 0, a);
      Again(t, n, 2 * a + 2);
      Again(t, n, 2 * a + 3);
      if d == 0 {
        StartsSooner(t, n, n - 1, a);
        LeadIs(t, n - 1, a + 1, k.c0);
        Again(t, n, n - 1);
      } else {
        LeadIs(t, n, a, k.c1);
      }
    }
  }

  lemma Word0Two(t: seq<bit>, n: nat, a: nat, o: nat, q: nat, d: nat, ones: nat, k: Tokens)
    requires Word0(t, n, a, o, 2, q, d, ones)
    ensures !Fits(t, ones, k)
  {
    hide Loop, Fits;
    if Fits(t, ones, k) {
      Word0Sizes(t, n, a, o, 2, q, d, ones, k);
      Again(t, n, 0);
      Again(t, n, 2);
    }
  }

  lemma Word0Three(t: seq<bit>, n: nat, a: nat, o: nat, q: nat, d: nat, ones: nat, k: Tokens)
    requires Word0(t, n, a, o, 3, q, d, ones)
    requires t[2 * a + 6] == 1 || t[2 * a + 7] == 1 || t[2 * a + 8] == 1
    ensures !Fits(t, ones, k)
  {
    hide Loop, Fits;
    if Fits(t, ones, k) {
      Word0Sizes(t, n, a, o, 3, q, d, ones, k);
      Again(t, n, 0);
      Again(t, n, 2);
    }
  }

  lemma Word0Seven(t: seq<bit>, n: nat, a: nat, o: nat, q: nat, d: nat, ones: nat, k: Tokens)
    requires Word0(t, n, a, o, 3, q, d, ones) && a <= 3 && (a == 2 ==> 0 < o)
    requires t[2 * a + 6] == 0 && t[2 * a + 7] == 0 && t[2 * a + 8] == 0
    ensures !Fits(t, ones, k)
  {
    hide Loop, Fits;
    if Fits(t, ones, k) {
      Word0Sizes(t, n, a, o, 3, q, d, ones, k);
      assert k.c0 == 3;
      Again(t, n, 2);
      Again(t, n, 3);
      Again(t, n, 4);
      Again(t, n, 5);
      if a == 0 {
        Again(t, n, 9);
        Again(t, n, 10);
      }
    }
  }

  lemma Word0Never(t: seq<bit>, n: nat, a: nat, o: nat, c: nat, q: nat, d: nat, ones: nat, k: Tokens)
    requires Word0(t, n, a, o, c, q, d, ones) && a <= 3 && (a == 2 ==> 0 < o) && c <= 3
    ensures !Fits(t, ones, k)
  {
    hide Loop, Fits;
    if c == 0 {
      Word0Zero(t, n, a, o, q, d, ones, k);
    } else if c == 1 {
      Word0One(t, n, a, o, q, d, ones, k);
    } else if c == 2 {
      Word0Two(t, n, a, o, q, d, ones, k);
    } else if t[2 * a + 6] == 0 && t[2 * a + 7] == 0 && t[2 * a + 8] == 0 {
      Word0Seven(t, n, a, o, q, d, ones, k);
    } else {
      Word0Three(t, n, a, o, q, d, ones, k);
    }
  }

  /** Size code 00100, count type 011, reference count 0, late gaps bit. */
  lemma Word0Output(t: seq<bit>, ones: nat, k: Tokens)
    requires Loop(t, 10) && Lead(t, 0, 2) && t[5] == 0 && t[6] == 1 && t[7] == 1 && t[8] == 1
    ensures !Fits(t, ones, k)
  {
    hide Loop, Fits;
    if Fits(t, ones, k) {
      SizesAre(t, ones, k, 2, 1);
      Again(t, 10, 0);
    }
  }

  // ---------- reference count 1 and eight clear list flags ----------

  /** Six zeros, size code, count type, order count code, reference count 1, late gaps bit. */
  predicate Word1(t: seq<bit>, n: nat, a: nat, o: nat, c: nat, q: nat, d: nat, ones: nat) {
    && n == 2 * a + 2 * c + 13 && Loop(t, n) && (forall i | 0 <= i < 6 :: t[i] == 0)
    && Code(t, 6, a, o) && t[2 * a + 7] == 1 && Code(t, 2 * a + 8, c, q)
    && t[n - 4] == 0 && t[n - 3] == 1 && t[n - 2] == 0 && t[n - 1] == d
    && 4 + o + q + d <= ones
  }

  lemma Word1Sizes(t: seq<bit>, n: nat, a: nat, o: nat, c: nat, q: nat, d: nat, ones: nat, k: Tokens, h: nat)
    requires Word1(t, n, a, o, c, q, d, ones) && Fits(t, ones, k) && Starts(t, 2 * a + 13, h)
    ensures Flagged(t, 2 * a + 2 * h + 14, k) && ones <= 5
  {
    hide Loop, Fits;
    StartsSooner(t, 6, 0, a);
    SizesAre(t, ones, k, 6 + a, h);
  }

  lemma Word1Lap(t: seq<bit>, n: nat, a: nat, o: nat, c: nat, q: nat, d: nat, ones: nat)
    requires Word1(t, n, a, o, c, q, d, ones)
    ensures Starts(t, n, 6 + a)
    ensures forall i | n <= i < n + 6 && i < |t| :: t[i] == 0
    ensures forall i | n + n <= i < n + n + 6 && i < |t| :: t[i] == 0
  {
    hide Loop;
    StartsSooner(t, 6, 0, a);
    StartsAgain(t, n, 0, 6 + a);
    forall i | n <= i < n + 6 && i < |t| ensures t[i] == 0 {
      Again(t, n, i - n);
    }
    forall i | n + n <= i < n + n + 6 && i < |t| ensures t[i] == 0 {
      Again(t, n, i - n);
    }
  }

  lemma Word1Zero(t: seq<bit>, n: nat, a: nat, o: nat, q: nat, d: nat, ones: nat, k: Tokens)
    requires Word1(t, n, a, o, 0, q, d, ones)
    ensures !Fits(t, ones, k)
  {
    hide Loop, Fits, Crops;
    if Fits(t, ones, k) {
      Word1Lap(t, n, a, o, 0, q, d, ones);
      Word1Sizes(t, n, a, o, 0, q, d, ones, k, 6 + a);
    }
  }

  lemma Word1One(t: seq<bit>, n: nat, a: nat, o: nat, q: nat, d: nat, ones: nat, k: Tokens)
    requires Word1(t, n, a, o, 1, q, d, ones)
    ensures !Fits(t, ones, k)
  {
    hide Loop, Fits, Crops;
    if Fits(t, ones, k) {
      Word1Lap(t, n, a, o, 1, q, d, ones);
      if d == 0 {
        StartsSooner(t, n, 2 * a + 13, 6 + a);
        Word1Sizes(t, n, a, o, 1, q, d, ones, k, 8 + a);
      } else {
        Word1Sizes(t, n, a, o, 1, q, d, ones, k, 1);
      }
    }
  }

  lemma Word1Two(t: seq<bit>, n: nat, a: nat, o: nat, q: nat, d: nat, ones: nat, k: Tokens)
    requires Word1(t, n, a, o, 2, q, d, ones)
    ensures !Fits(t, ones, k)
  {
    hide Loop, Fits, Crops;
    if Fits(t, ones, k) {
      Word1Lap(t, n, a, o, 2, q, d, ones);
      Word1Sizes(t, n, a, o, 2, q, d, ones, k, 1);
    }
  }

  lemma Word1Three(t: seq<bit>, n: nat, a: nat, o: nat, q: nat, d: nat, ones: nat, k: Tokens)
    requires Word1(t, n, a, o, 3, q, d, ones)
    ensures !Fits(t, ones, k)
  {
    hide Loop, Fits, Crops;
    if Fits(t, ones, k) {
      Word1Lap(t, n, a, o, 3, q, d, ones);
      if t[2 * a + 13] == 1 {
        Word1Sizes(t, n, a, o, 3, q, d, ones, k, 0);
      } else if t[2 * a + 14] == 1 {
        Word1Sizes(t, n, a, o, 3, q, d, ones, k, 1);
      } else {
        Word1Sizes(t, n, a, o, 3, q, d, ones, k, 3);
      }
    }
  }

  lemma Word1Never(t: seq<bit>, n: nat, a: nat, o: nat, c: nat, q: nat, d: nat, ones: nat, k: Tokens)
    requires Word1(t, n, a, o, c, q, d, ones) && c <= 3
    ensures !Fits(t, ones, k)
  {
    hide *;
    if c == 0 {
      Word1Zero(t, n, a, o, q, d, ones, k);
    } else if c == 1 {
      Word1One(t, n, a, o, q, d, ones, k);
    } else if c == 2 {
      Word1Two(t, n, a, o, q, d, ones, k);
    } else {
      Word1Three(t, n, a, o, q, d, ones, k);
    }
  }

  // ---------- reference count 3 and more ----------

  /** The same bit again, one, two and three periods on. */
  predicate Turns(t: seq<bit>, n: nat, i: nat)
    requires i < n <= |t|
  {
    && (i + n < |t| ==> t[i + n] == t[i]) && (i + 2 * n < |t| ==> t[i + 2 * n] == t[i])
    && (i + 3 * n < |t| ==> t[i + 3 * n] == t[i])
  }

  lemma Turning(t: seq<bit>, n: nat, i: nat)
    requires Loop(t, n) && i < n
    ensures n <= |t| && Turns(t, n, i)
  {
    LoopFits(t, n);
    hide Loop;
    Again(t, n, i);
    if i + n < |t| {
      Again(t, n, i + n);
    }
    if i + 2 * n < |t| {
      Again(t, n, i + 2 * n);
    }
  }

  lemma FirstFive(t: seq<bit>, n: nat)
    requires Loop(t, n) && 5 <= n
    ensures 5 <= n <= |t| && Turns(t, n, 0) && Turns(t, n, 1) && Turns(t, n, 2) && Turns(t, n, 3) && Turns(t, n, 4)
  {
    hide Loop, Turns;
    Turning(t, n, 0);
    Turning(t, n, 1);
    Turning(t, n, 2);
    Turning(t, n, 3);
    Turning(t, n, 4);
  }

  lemma NextFour(t: seq<bit>, n: nat)
    requires Loop(t, n) && 9 <= n
    ensures 9 <= n <= |t| && Turns(t, n, 5) && Turns(t, n, 6) && Turns(t, n, 7) && Turns(t, n, n - 1)
  {
    hide Loop, Turns;
    Turning(t, n, 5);
    Turning(t, n, 6);
    Turning(t, n, 7);
    Turning(t, n, n - 1);
  }

  lemma WithNine(t: seq<bit>, n: nat)
    requires Loop(t, n) && 9 <= n
    ensures 9 <= n <= |t| && Turns(t, n, 0) && Turns(t, n, 1) && Turns(t, n, 2) && Turns(t, n, 3) && Turns(t, n, 4)
    ensures Turns(t, n, 5) && Turns(t, n, 6) && Turns(t, n, 7) && Turns(t, n, n - 1)
  {
    FirstFive(t, n);
    NextFour(t, n);
    hide Loop, Turns;
  }

  lemma FirstSeven(t: seq<bit>)
    requires Loop(t, 7)
    ensures 7 <= |t| && Turns(t, 7, 0) && Turns(t, 7, 1) && Turns(t, 7, 2) && Turns(t, 7, 3) && Turns(t, 7, 4)
    ensures 7 <= |t| && Turns(t, 7, 5) && Turns(t, 7, 6)
  {
    FirstFive(t, 7);
    hide Loop, Turns;
    Turning(t, 7, 5);
    Turning(t, 7, 6);
  }

  /** The second of two zeros, size code, count type, order count size 0, late gaps bit. */
  predicate Word3Zero(t: seq<bit>, a: nat, d: bit) {
    && Loop(t, 2 * a + 5) && t[0] == 0 && Lead(t, 1, a)
    && t[2 * a + 2] == 1 && t[2 * a + 3] == 1 && t[2 * a + 4] == d
  }

  lemma Word3ZeroShort(t: seq<bit>, d: bit, ones: nat, k: Tokens)
    requires Word3Zero(t, 0, d)
    ensures !Fits(t, ones, k)
  {
    hide Loop, Fits;
    if Fits(t, ones, k) {
      SizesAre(t, ones, k, 1, 0);
      FirstFive(t, 5);
    }
  }

  lemma Word3ZeroLong(t: seq<bit>, d: bit, ones: nat, k: Tokens)
    requires Word3Zero(t, 1, d)
    ensures !Fits(t, ones, k)
  {
    hide Loop, Fits;
    if Fits(t, ones, k) {
      SizesAre(t, ones, k, 2, 0);
      FirstSeven(t);
    }
  }

  /** The last three bits of an order count code 001xy, two zeros, size code, count type, a zero, late gaps bit. */
  predicate Word3Two(t: seq<bit>, a: nat, o: nat, d: bit, ones: nat) {
    && Loop(t, 2 * a + 9) && t[0] == 1 && t[3] == 0 && t[4] == 0 && Code(t, 5, a, o)
    && t[2 * a + 6] == 1 && t[2 * a + 7] == 0 && t[2 * a + 8] == d
    && 3 + o + t[1] as int + t[2] as int + d as int <= ones
  }

  lemma Word3TwoHigh(t: seq<bit>, a: nat, o: nat, d: bit, ones: nat, k: Tokens)
    requires Word3Two(t, a, o, d, ones) && a <= 1 && t[1] == 1
    ensures !Fits(t, ones, k)
  {
    hide Loop, Fits;
    if Fits(t, ones, k) {
      SizesAre(t, ones, k, 0, 0);
      if a == 0 {
        WithNine(t, 9);
      }
    }
  }

  lemma Word3TwoMid(t: seq<bit>, a: nat, o: nat, d: bit, ones: nat, k: Tokens)
    requires Word3Two(t, a, o, d, ones) && a <= 1 && t[1] == 0 && t[2] == 1
    ensures !Fits(t, ones, k)
  {
    hide Loop, Fits;
    if Fits(t, ones, k) {
      SizesAre(t, ones, k, 0, 1);
    }
  }

  lemma Word3TwoLow(t: seq<bit>, a: nat, o: nat, d: bit, ones: nat, k: Tokens)
    requires Word3Two(t, a, o, d, ones) && a <= 1 && t[1] == 0 && t[2] == 0
    ensures !Fits(t, ones, k)
  {
    hide Loop, Fits, Crops;
    var n := 2 * a + 9;
    if Fits(t, ones, k) {
      StartsSooner(t, 5, 1, a);
      SizesAre(t, ones, k, 0, 4 + a);
      hide Code, Starts;
      Again(t, n, 1);
      Again(t, n, 4);
    }
  }

  /** The last five bits of an order count code 0001xyz, two zeros, size code, count type, a zero, late gaps bit. */
  predicate Word3Three(t: seq<bit>, a: nat, o: nat, d: bit, ones: nat) {
    && Loop(t, 2 * a + 11) && t[0] == 0 && t[1] == 1 && t[5] == 0 && t[6] == 0 && Code(t, 7, a, o)
    && t[2 * a + 8] == 1 && t[2 * a + 9] == 0 && t[2 * a + 10] == d && (t[2] == 0 || t[3] == 0)
    && 3 + o + t[2] as int + t[3] as int + t[4] as int + d as int <= ones
  }

  lemma Word3ThreeHigh(t: seq<bit>, a: nat, o: nat, d: bit, ones: nat, k: Tokens)
    requires Word3Three(t, a, o, d, ones) && a <= 1 && t[3] == 1
    ensures !Fits(t, ones, k)
  {
    hide Loop, Fits;
    if Fits(t, ones, k) {
      SizesAre(t, ones, k, 1, 0);
      if a == 0 {
        WithNine(t, 11);
      }
    }
  }

  lemma Word3ThreeMid(t: seq<bit>, a: nat, o: nat, d: bit, ones: nat, k: Tokens)
    requires Word3Three(t, a, o, d, ones) && a <= 1 && t[3] == 0 && t[4] == 1
    ensures !Fits(t, ones, k)
  {
    hide Loop, Fits;
    if Fits(t, ones, k) {
      SizesAre(t, ones, k, 1, 1);
    }
  }

  lemma Word3ThreeLow(t: seq<bit>, a: nat, o: nat, d: bit, ones: nat, k: Tokens)
    requires Word3Three(t, a, o, d, ones) && a <= 1 && t[3] == 0 && t[4] == 0
    ensures !Fits(t, ones, k)
  {
    hide Loop, Fits, Crops;
    var n := 2 * a + 11;
    if Fits(t, ones, k) {
      StartsSooner(t, 7, 3, a);
      SizesAre(t, ones, k, 1, 4 + a);
      hide Code, Starts;
      Again(t, n, 1);
      Again(t, n, 3);
    }
  }

  lemma Word3ZeroNever(t: seq<bit>, a: nat, d: bit, ones: nat, k: Tokens)
    requires Word3Zero(t, a, d) && a <= 1
    ensures !Fits(t, ones, k)
  {
    hide Loop, Fits;
    if a == 0 {
      Word3ZeroShort(t, d, ones, k);
    } else {
      Word3ZeroLong(t, d, ones, k);
    }
  }

  lemma Word3TwoNever(t: seq<bit>, a: nat, o: nat, d: bit, ones: nat, k: Tokens)
    requires Word3Two(t, a, o, d, ones) && a <= 1
    ensures !Fits(t, ones, k)
  {
    hide Loop, Fits;
    if t[1] == 1 {
      Word3TwoHigh(t, a, o, d, ones, k);
    } else if t[2] == 1 {
      Word3TwoMid(t, a, o, d, ones, k);
    } else {
      Word3TwoLow(t, a, o, d, ones, k);
    }
  }

  lemma Word3ThreeNever(t: seq<bit>, a: nat, o: nat, d: bit, ones: nat, k: Tokens)
    requires Word3Three(t, a, o, d, ones) && a <= 1
    ensures !Fits(t, ones, k)
  {
    hide Loop, Fits;
    if t[3] == 1 {
      Word3ThreeHigh(t, a, o, d, ones, k);
    } else if t[4] == 1 {
      Word3ThreeMid(t, a, o, d, ones, k);
    } else {
      Word3ThreeLow(t, a, o, d, ones, k);
    }
  }

  // ---------- any reference count, behind size code 00100 and count type 0 ----------

  /** A zero, size code 00100, count type 0, order count code, reference count, late gaps bit. */
  predicate Word4(t: seq<bit>, n: nat, c: nat, q: nat, r: nat, u: nat, d: nat, ones: nat) {
    && n == 2 * c + 2 * r + 10 && Loop(t, n)
    && t[0] == 0 && t[1] == 0 && t[2] == 0 && t[3] == 1 && t[4] == 0 && t[5] == 0 && t[6] == 1
    && Code(t, 7, c, q) && Code(t, 2 * c + 8, r, u) && t[n - 1] == d
    && 4 + q + u + d <= ones
  }

  lemma Word4Sizes(t: seq<bit>, n: nat, c: nat, q: nat, r: nat, u: nat, d: nat, ones: nat, k: Tokens)
    requires Word4(t, n, c, q, r, u, d, ones) && Fits(t, ones, k)
    ensures Flagged(t, 2 * c + 8, k)
    ensures ones <= 5 && k.c3 == 0 && k.c2 == 0 && (5 <= ones ==> k.c1 == 0)
    ensures (n < |t| ==> t[n] == 0) && (n + 1 < |t| ==> t[n + 1] == 0) && (n + 2 < |t| ==> t[n + 2] == 0)
    ensures (n + 3 < |t| ==> t[n + 3] == 1) && (n + 4 < |t| ==> t[n + 4] == 0)
  {
    hide Loop, Fits;
    SizesAre(t, ones, k, 3, c);
    Again(t, n, 0);
    Again(t, n, 1);
    Again(t, n, 2);
    Again(t, n, 3);
    Again(t, n, 4);
  }

  lemma Word4Short(t: seq<bit>, n: nat, c: nat, q: nat, r: nat, u: nat, d: nat, ones: nat, k: Tokens)
    requires Word4(t, n, c, q, r, u, d, ones) && c <= 3 && (r <= 2 || r == 4)
    ensures !Fits(t, ones, k)
  {
    hide Loop, Fits;
    if Fits(t, ones, k) {
      Word4Sizes(t, n, c, q, r, u, d, ones, k);
      if r == 1 {
        LeadIs(t, n, 3, k.c0);
        Again(t, n, 7);
        Again(t, n, 8);
      } else if r == 2 {
        LeadIs(t, n - 2, 5, k.c0);
        Again(t, n, 9);
        Again(t, n, 10);
      }
    }
  }

  lemma Word4Long(t: seq<bit>, n: nat, c: nat, q: nat, u: nat, d: nat, ones: nat, k: Tokens)
    requires Word4(t, n, c, q, 3, u, d, ones) && c <= 3
    ensures !Fits(t, ones, k)
  {
    hide Loop, Fits;
    if Fits(t, ones, k) {
      Word4Sizes(t, n, c, q, 3, u, d, ones, k);
      if u == 0 && d == 0 {
        LeadIs(t, n - 4, 7, k.c0);
        Word4Tail(t, n, c, q, ones, k);
      }
    }
  }

  /** Crop 0 takes seven zeros, a one and seven bits more; the crops behind it do not fit. */
  lemma Word4Tail(t: seq<bit>, n: nat, c: nat, q: nat, ones: nat, k: Tokens)
    requires Word4(t, n, c, q, 3, 0, 0, ones) && c <= 3
    ensures !(Lead(t, n + 11, k.c1) && Lead(t, n + 12 + 2 * k.c1, 0) && ones <= 5 && (5 <= ones ==> k.c1 == 0)
              && Lead(t, n + 13 + 2 * k.c1, 0))
  {
    LoopFits(t, n);
    hide Loop;
    Again(t, n, 0);
    Again(t, n, 11);
    Again(t, n, 12);
    Again(t, n, 13);
    Again(t, n, 14);
    Again(t, n, 15);
    if 0 < c {
      Again(t, n, 16);
      Again(t, n, 17);
    }
    if c == 2 && n + n < |t| {
      Again(t, n, n);
    }
    if c == 3 && n + n + 2 < |t| {
      Again(t, n, 2);
      Again(t, n, n + 2);
    }
  }

  lemma Word4Never(t: seq<bit>, n: nat, c: nat, q: nat, r: nat, u: nat, d: nat, ones: nat, k: Tokens)
    requires Word4(t, n, c, q, r, u, d, ones) && c <= 3 && r <= 4
    ensures !Fits(t, ones, k)
  {
    hide Loop, Fits;
    if r == 3 {
      Word4Long(t, n, c, q, u, d, ones, k);
    } else {
      Word4Short(t, n, c, q, r, u, d, ones, k);
    }
  }

  // ---------- any reference count, behind count type 2 ----------

  /** A zero, size code, count type 011, reference count, late gaps bit. */
  predicate Word5(t: seq<bit>, n: nat, a: nat, o: nat, r: nat, u: nat, d: nat, ones: nat) {
    && n == 2 * a + 2 * r + 7 && Loop(t, n)
    && t[0] == 0 && Code(t, 1, a, o) && t[2 * a + 2] == 0 && t[2 * a + 3] == 1 && t[2 * a + 4] == 1
    && Code(t, 2 * a + 5, r, u) && t[n - 1] == d
    && 4 + o + u + d <= ones
  }

  lemma Word5Sizes(t: seq<bit>, n: nat, a: nat, o: nat, r: nat, u: nat, d: nat, ones: nat, k: Tokens)
    requires Word5(t, n, a, o, r, u, d, ones) && Fits(t, ones, k)
    ensures Flagged(t, 2 * a + 4, k)
    ensures ones <= 5 && k.c3 == 0 && k.c2 == 0 && (5 <= ones ==> k.c1 == 0)
  {
    hide Loop, Fits, Flagged;
    StartsSooner(t, 1, 0, a);
    SizesAre(t, ones, k, a + 1, 0);
  }

  lemma Word5Lap(t: seq<bit>, n: nat, a: nat, o: nat, r: nat, u: nat, d: nat, ones: nat)
    requires Word5(t, n, a, o, r, u, d, ones)
    ensures Starts(t, n, a + 1) && Starts(t, n + 1, a) && n <= |t|
  {
    hide Loop;
    StartsSooner(t, 1, 0, a);
    StartsAgain(t, n, 0, a + 1);
    StartsAgain(t, n, 1, a);
    LoopFits(t, n);
  }

  lemma Word5Short(t: seq<bit>, n: nat, a: nat, o: nat, r: nat, u: nat, d: nat, ones: nat, k: Tokens)
    requires Word5(t, n, a, o, r, u, d, ones) && (r != 1 || u != 0 || d != 0)
    ensures !Fits(t, ones, k)
  {
    hide Loop, Fits;
    if Fits(t, ones, k) {
      Word5Sizes(t, n, a, o, r, u, d, ones, k);
      Word5Lap(t, n, a, o, r, u, d, ones);
      hide Starts;
      if r == 0 {
        LeadIs(t, n, a + 1, k.c0);
        Again(t, n, n - 1);
      } else if r == 1 && u == 0 {
        LeadIs(t, n + 1, a, k.c1);
        Again(t, n, 2);
      }
    }
  }

  lemma Word5Long(t: seq<bit>, n: nat, a: nat, o: nat, ones: nat, k: Tokens)
    requires Word5(t, n, a, o, 1, 0, 0, ones)
    ensures !Fits(t, ones, k)
  {
    hide Loop, Fits;
    if Fits(t, ones, k) {
      Word5Sizes(t, n, a, o, 1, 0, 0, ones, k);
      Word5Lap(t, n, a, o, 1, 0, 0, ones);
      StartsSooner(t, n, n - 2, a + 1);
      LeadIs(t, n - 2, a + 3, k.c0);
      hide Starts;
      Again(t, n, 2 * a + 5);
      Again(t, n, 2 * a + 6);
      Again(t, n, 2 * a + 8);
    }
  }

  lemma Word5Never(t: seq<bit>, n: nat, a: nat, o: nat, r: nat, u: nat, d: nat, ones: nat, k: Tokens)
    requires Word5(t, n, a, o, r, u, d, ones)
    ensures !Fits(t, ones, k)
  {
    hide Loop, Fits;
    if r == 1 && u == 0 && d == 0 {
      Word5Long(t, n, a, o, ones, k);
    } else {
      Word5Short(t, n, a, o, r, u, d, ones, k);
    }
  }
}
