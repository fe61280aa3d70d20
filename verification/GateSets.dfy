/** What the gate makes of parameter sets, in bytes; and that every unit of the output carries the type it was chosen
    as. */
module GateSets {
  import opened Words
  import opened Bits
  import opened AnnexB
  import opened SpsParse
  import opened SpsBuild
  import opened ChainGate
  import opened ChainOutput
  import SpsCanon
  import SpsRoundTrip
  import SpsTail
  import SpsHighEnd

  // ---------- parameter sets ----------

  lemma BuiltStripped(si: SpsInfo)
    requires SpsCanon.Legal(si)
    ensures Strip(BuildSps(si)) == BuildSps(si) && SpsRoundTrip.Writable(si) && |BuildSps(si)| <= 256
  {
    SpsCanon.LegalIsWritable(si);
    SpsCanon.CropCount(si);
    SpsCanon.BuildFits(si);
    forall i | 0 <= i < |BuildSps(si)| - 2 ensures !EmulationAt(BuildSps(si), i) {
      SpsCanon.NoReservedBytes(si, i);
      hide SpsCanon.InRange, BuildSps;
    }
    hide *;
    StripIdentity(BuildSps(si));
  }

  /** Whatever is glued behind a built set, the parser gives the set back. */
  lemma GluedParses(si: SpsInfo, t: seq<byte>)
    requires SpsCanon.Legal(si) && |BuildSps(si)| + |t| <= 256
    ensures ParseSps(BuildSps(si) + t) == si
  {
    hide *;
    var s := BuildSps(si);
    Limits();
    BuiltStripped(si);
    SpsRoundTrip.RoundTripRaw(si);
    SpsCanon.RoundTrip(si);
    FieldsInside(si);
    assert s[..|s|] == s && (s + t)[..|s|] == s;
    SpsTail.TailIgnored(s, s + t, |s|);
  }

  lemma FieldsInside(si: SpsInfo)
    ensures |FieldBits(si)| <= 8 * |BuildSps(si)|
  {
    SpsRoundTrip.BuiltBits(si);
    hide BitsOf, Padded, FieldBits, BuildSps;
  }

  ghost function SetOut(nal: seq<byte>): seq<byte> {
    if ParseSps(nal).ok && ParseSps(nal).pocType == 0 then BuildSps(ParseSps(nal)) else nal
  }

  lemma AdmitSet(g: Gate, nal: seq<byte>)
    requires nal != [] && NalType(nal) == 7
    ensures Admit(g, nal).0 == Gate(1, g.open) && Admit(g, nal).1 == Some(Put(Sps, SetOut(nal)))
  {
    hide ParseSps, BuildSps, PpsPasses, Trim;
  }

  lemma TypeBits(nal: seq<byte>)
    requires nal != []
    ensures NalType(nal) == nal[0] % 32
  {
  }

  lemma SetOutIs(nal: seq<byte>)
    ensures ParseSps(nal).ok && ParseSps(nal).pocType == 0 ==> SetOut(nal) == BuildSps(ParseSps(nal))
    ensures !(ParseSps(nal).ok && ParseSps(nal).pocType == 0) ==> SetOut(nal) == nal
  {
    hide ParseSps, BuildSps;
  }

  lemma LegalOk(si: SpsInfo)
    requires SpsCanon.Legal(si)
    ensures si.ok
  {
  }

  /** A unit that starts with a built set is replaced by that set: glued bytes go, and the gate takes its own output
      back unchanged. */
  lemma SetRebuilt(g: Gate, si: SpsInfo, t: seq<byte>)
    requires SpsCanon.Legal(si) && si.pocType == 0 && |BuildSps(si)| + |t| <= 256
    ensures Admit(g, BuildSps(si) + t) == (Gate(1, g.open), Some(Put(Sps, BuildSps(si))))
  {
    hide *;
    LegalOk(si);
    GluedParses(si, t);
    SpsRoundTrip.NalByte(si);
    TypeBits(BuildSps(si) + t);
    AdmitSet(g, BuildSps(si) + t);
    SetOutIs(BuildSps(si) + t);
  }

  /** Two units of type 7 that agree up to the last bit the parser reads put the same bytes. */
  lemma SameSetSameBytes(g: Gate, d: seq<byte>, e: seq<byte>, k: nat)
    requires 4 <= |d| <= 256 && 4 <= |e| <= 256 && k <= |d| && k <= |e| && d[..k] == e[..k]
    requires 4 <= |Strip(d[..k])| && 4 <= |Strip(d)|
    requires var r := ParseRbsp(Strip(d)).cur; !r.over && r.pos <= 8 * |Strip(d[..k])|
    requires NalType(d) == 7 && ParseSps(d).ok && ParseSps(d).pocType == 0
    ensures Admit(g, d) == Admit(g, e)
  {
    hide *;
    Limits();
    SpsTail.TailIgnored(d, e, k);
    assert d[0] == d[..k][0] == e[0];
    TypeBits(d);
    TypeBits(e);
    AdmitSet(g, d);
    AdmitSet(g, e);
    SetOutIs(d);
    SetOutIs(e);
  }

  /** And what they put holds the fields that were read. */
  lemma RebuiltHolds(g: Gate, nal: seq<byte>)
    requires nal != [] && NalType(nal) == 7 && ParseSps(nal).pocType == 0 && SpsCanon.Legal(ParseSps(nal))
    ensures var put := Admit(g, nal).1;
      put.Some? && put.value.kind == Sps && ParseSps(put.value.body) == ParseSps(nal) && put.value.body[0] == 0x67
  {
    hide *;
    LegalOk(ParseSps(nal));
    SpsCanon.RoundTrip(ParseSps(nal));
    SpsRoundTrip.NalByte(ParseSps(nal));
    AdmitSet(g, nal);
    SetOutIs(nal);
  }

  /** A set the parser refuses, or with another order count type, goes out as it came. */
  lemma OtherSetKept(g: Gate, nal: seq<byte>)
    requires nal != [] && NalType(nal) == 7 && !(ParseSps(nal).ok && ParseSps(nal).pocType == 0)
    ensures Admit(g, nal).0 == Gate(1, g.open) && Admit(g, nal).1 == Some(Put(Sps, nal))
  {
    hide *;
    AdmitSet(g, nal);
    SetOutIs(nal);
  }

  lemma FirstFed(w: World, r: int, nal: seq<byte>, rest: seq<seq<byte>>)
    ensures var a := FeedOne(w, r, nal);
      FeedAll(w, r, [nal] + rest) == if a.stop then a else FeedAll(a.w, a.r, rest)
  {
    hide FeedOne;
    assert ([nal] + rest)[1..] == rest;
  }

  /** The write of a rebuilt set does not end the walk of its record, whatever becomes of it. */
  lemma RebuiltGoesOn(w: World, r: int, nal: seq<byte>, rest: seq<seq<byte>>)
    requires nal != [] && NalType(nal) == 7 && ParseSps(nal).ok && ParseSps(nal).pocType == 0
    ensures var p := Put(Sps, BuildSps(ParseSps(nal)));
      FeedAll(w, r, [nal] + rest)
      == FeedAll(Write(w.(gate := Gate(1, w.gate.open)), p), Code(Answer(w.answers, Sps)), rest)
  {
    FirstFed(w, r, nal, rest);
    AdmitSet(w.gate, nal);
    SetOutIs(nal);
    hide FeedAll, ParseSps, BuildSps, Admit, SetOut, Write, Code, Answer;
  }

  /** Any other write that fails hard does: it is the last one tried. */
  lemma FailureEnds(w: World, r: int, nal: seq<byte>, rest: seq<seq<byte>>)
    requires Admit(w.gate, nal).1.Some? && w.answers != [] && w.answers[0] == Broken
    requires nal != [] && NalType(nal) == 7 ==> !(ParseSps(nal).ok && ParseSps(nal).pocType == 0)
    ensures var a := FeedAll(w, r, [nal] + rest);
      a.r == -2 && a.w.tried == w.tried + [Admit(w.gate, nal).1.value] && a.w.results == w.results + [Broken]
  {
    FirstFed(w, r, nal, rest);
    if Admit(w.gate, nal).1.value.kind == Sps {
      KindOfSet(w.gate, nal);
    }
    hide FeedAll, ParseSps, BuildSps, Admit;
  }

  lemma KindOfSet(g: Gate, nal: seq<byte>)
    requires Admit(g, nal).1.Some? && Admit(g, nal).1.value.kind == Sps
    ensures nal != [] && NalType(nal) == 7
  {
    hide Canonical, PpsPasses, Trim;
  }

  /** Whole or not at all: a slice the output has no room for is refused, counted, and leaves no byte behind; anything
      else waits until it fits. */
  lemma FullOutput(w: World, r: int, nal: seq<byte>)
    requires Admit(w.gate, nal).1.Some? && w.answers != [] && w.answers[0] == Full && |w.tried| == |w.results|
    ensures var a, p := FeedOne(w, r, nal), Admit(w.gate, nal).1.value;
      && !a.stop && |a.w.tried| == |a.w.results|
      && (if NalType(nal) == 1 then
            a.r == -1 && a.w.drops == w.drops + 1 && a.w.bytes == w.bytes && Stream(a.w) == Stream(w)
          else
            a.r == 0 && a.w.drops == w.drops && Stream(a.w) == Stream(w) + [0, 0, 0, 1] + p.body)
  {
    var p := Admit(w.gate, nal).1.value;
    SliceIff(w.gate, nal);
    hide Admit, Rebuilt, Sent, Join, Bodies;
    var o := Answer(w.answers, p.kind);
    SentMore(w.tried, w.results, p, o);
    var s := Sent(w.tried, w.results);
    BodiesMore(s, p);
    JoinOneMore(Bodies(s), p.body);
    assert s + [] == s;
  }

  lemma BodiesMore(s: seq<Put>, p: Put)
    ensures Bodies(s + [p]) == Bodies(s) + [p.body]
  {
  }

  lemma SliceIff(g: Gate, nal: seq<byte>)
    requires Admit(g, nal).1.Some?
    ensures nal != [] && (Admit(g, nal).1.value.kind == Slice <==> NalType(nal) == 1)
  {
    hide Canonical, PpsPasses, Trim;
  }

  lemma {:induction false} AnyMeansSome(t: seq<Put>)
    requires Ordered(t)
    ensures Opened(t) || StageOf(t) != 0 <==> t != []
    decreases |t|
  {
    if t != [] {
      var n := |t| - 1;
      LastAllowed(t);
      AnyMeansSome(t[..n]);
      assert t == t[..n] + [t[n]];
      OneMore(t[..n], t[n]);
      hide Ordered, Opened, StageOf;
    }
  }

  /** A unit of any other type, an access unit delimiter apart, is chosen if and only if anything was chosen before. */
  lemma OtherIff(w: World, nal: seq<byte>)
    requires Tracks(w) && nal != [] && NalType(nal) !in {1, 5, 7, 8, 9}
    ensures Admit(w.gate, nal).1 == if w.tried == [] then None else Some(Put(Other, nal))
  {
    AnyMeansSome(w.tried);
    hide Ordered, Opened, StageOf, PpsPasses, Canonical, Trim;
  }

  // ---------- the picture parameter set test ----------

  /** The reads never go past the end, so the test on the position rejects nothing: a body passes if and only if it has
      two bytes and neither code reads as 0xFFFF. */
  lemma PassesIff(body: seq<byte>)
    ensures var b := BitsOf(body);
      var x := ReadUe(b, Cur(0, false));
      PpsPasses(body) <==> 2 <= |body| && x.val != 0xFFFF && ReadUe(b, x.cur).val != 0xFFFF
  {
    var b := BitsOf(body);
    var x := ReadUe(b, Cur(0, false));
    SpsHighEnd.TameAt(b, Cur(0, false));
    SpsHighEnd.UeTame(b, Cur(0, false));
    SpsHighEnd.UeTame(b, x.cur);
    SpsHighEnd.TamePos(b, ReadUe(b, x.cur).cur);
    hide ReadUe, BitsOf;
  }

  /** And it does reject: behind header byte 0x28, three zero bytes are more than the second code can hold. */
  lemma ZerosRejected(body: seq<byte>)
    requires 4 <= |body| && body[0] == 0x28 && body[1] == 0 && body[2] == 0 && body[3] == 0
    ensures !PpsPasses(body)
  {
    hide *;
    var b := BitsOf(body);
    Header28(body);
    ZeroBytes(body);
    SpsHighEnd.UeShort2(b, Cur(0, false), 0, 1);
    ManyZeros(b, 5, 27);
    TooManyZeros(b, Cur(5, false));
    PassesIff(body);
  }

  lemma Header28(body: seq<byte>)
    requires body != [] && body[0] == 0x28
    ensures var b := BitsOf(body);
      b[0] == 0 && b[1] == 0 && b[2] == 1 && b[3] == 0 && b[4] == 1 && b[5] == 0 && b[6] == 0 && b[7] == 0
  {
    var b := BitsOf(body);
    SpsCanon.Shifts(0x28);
    SpsCanon.OctetBits(0x28);
    BitsOfOctet(body, 0);
    hide Shr, UBits, BitsOf;
    assert forall i | 0 <= i < 8 :: b[i] == b[8 * 0..8 * 0 + 8][i];
  }

  lemma ZeroBytes(body: seq<byte>)
    requires 4 <= |body| && body[1] == 0 && body[2] == 0 && body[3] == 0
    ensures forall p | 8 <= p < 32 :: BitsOf(body)[p] == 0
  {
    forall p | 8 <= p < 32 ensures BitsOf(body)[p] == 0 {
      ShrOfZero(7 - p % 8);
      assert body[p / 8] == 0;
    }
  }

  lemma {:induction false} ManyZeros(b: seq<bit>, p: nat, n: nat)
    requires p + n <= |b| && forall i | p <= i < p + n :: b[i] == 0
    ensures n <= Zeros(b, p)
    decreases n
  {
    if n != 0 {
      ManyZeros(b, p + 1, n - 1);
    }
  }

  lemma TooManyZeros(b: seq<bit>, c: Cur)
    requires 24 < Zeros(b, c.pos)
    ensures ReadUe(b, c).val == 0xFFFF
  {
    hide Zeros, ReadBits, Pow2;
  }

  // ---------- the types of what is written ----------

  /** A unit of the kind it is put as, by the five low bits of its first byte. */
  predicate Typed(p: Put) {
    p.body != [] &&
    var t := p.body[0] % 32;
    match p.kind
    case Sps => t == 7
    case Pps => t == 8
    case Idr => t == 5
    case Slice => t == 1
    case Other => t != 1 && t != 5 && t != 7 && t != 8 && t != 9
  }

  lemma AdmitTyped(g: Gate, nal: seq<byte>)
    ensures var put := Admit(g, nal).1; put.Some? ==> Typed(put.value)
  {
    if nal != [] && NalType(nal) == 7 {
      hide *;
      AdmitSet(g, nal);
      SetOutIs(nal);
      SpsRoundTrip.NalByte(ParseSps(nal));
      SetTyped(Admit(g, nal).1.value, nal);
    } else if nal != [] && NalType(nal) == 8 {
      PpsTyped(g, nal);
    } else {
      hide ParseSps, BuildSps, PpsPasses, Trim;
    }
  }

  lemma PpsTyped(g: Gate, nal: seq<byte>)
    requires nal != [] && NalType(nal) == 8
    ensures var put := Admit(g, nal).1; put.Some? ==> Typed(put.value)
  {
    hide ParseSps, BuildSps, PpsPasses;
    if PpsPasses(Trim(nal)) {
      PassesNeedsTwo(Trim(nal));
      assert Trim(nal)[0] == nal[0];
    }
  }

  lemma SetTyped(p: Put, nal: seq<byte>)
    requires p.kind == Sps && p.body != [] && (p.body[0] == 0x67 || (p.body == nal && NalType(nal) == 7))
    ensures Typed(p)
  {
  }

  lemma PassesNeedsTwo(body: seq<byte>)
    requires PpsPasses(body)
    ensures 2 <= |body|
  {
  }

  lemma FeedOneTyped(w: World, r: int, nal: seq<byte>)
    requires forall p | p in w.tried :: Typed(p)
    ensures forall p | p in FeedOne(w, r, nal).w.tried :: Typed(p)
  {
    AdmitTyped(w.gate, nal);
    hide Admit, Typed, Rebuilt, Answer;
  }

  lemma {:induction false} FeedAllTyped(w: World, r: int, nals: seq<seq<byte>>)
    requires forall p | p in w.tried :: Typed(p)
    ensures forall p | p in FeedAll(w, r, nals).w.tried :: Typed(p)
    decreases |nals|
  {
    hide FeedOne, Typed;
    if nals != [] {
      var a := FeedOne(w, r, nals[0]);
      FeedOneTyped(w, r, nals[0]);
      if !a.stop {
        FeedAllTyped(a.w, a.r, nals[1..]);
      }
    }
  }

  lemma {:induction false} RunTyped(w: World, records: seq<seq<byte>>)
    requires forall p | p in w.tried :: Typed(p)
    ensures forall p | p in Run(w, records).tried :: Typed(p)
    decreases |records|
  {
    hide FeedAll, Typed;
    if records != [] {
      FeedAllTyped(w, 0, Split(records[0]));
      RunTyped(EmitRecord(w, records[0]).w, records[1..]);
    }
  }

  lemma {:induction false} SentWereTried(tried: seq<Put>, results: seq<Outcome>)
    requires |tried| == |results|
    ensures forall p | p in Sent(tried, results) :: p in tried
    decreases |tried|
  {
    if tried != [] {
      SentWereTried(tried[..|tried| - 1], results[..|tried| - 1]);
    }
  }

  /** Over every run whose rebuilt sets are in range: each unit cut from the output stream has the type of the kind it
      was sent as. */
  lemma CutTypes(answers: seq<Outcome>, records: seq<seq<byte>>)
    requires forall p | p in records :: CleanSets(Split(p))
    ensures var w := Run(FRESH.(answers := answers), records);
      && |w.tried| == |w.results| && |Split(Stream(w))| == |Sent(w.tried, w.results)|
      && forall k | 0 <= k < |Split(Stream(w))| :: Typed(Put(Sent(w.tried, w.results)[k].kind, Split(Stream(w))[k]))
  {
    var f := FRESH.(answers := answers);
    hide Run, Typed, Sent, Split, CleanSets, Stream;
    OutputResplits(answers, records);
    RunTyped(f, records);
    var w := Run(f, records);
    SentWereTried(w.tried, w.results);
    var s := Sent(w.tried, w.results);
    forall k | 0 <= k < |s| ensures Typed(Put(s[k].kind, Bodies(s)[k])) {
      assert s[k] in s && s[k] == Put(s[k].kind, s[k].body);
    }
  }
}
