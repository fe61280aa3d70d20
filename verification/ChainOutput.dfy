/** What reaches the output: the counters account for every write, refused slices never break a chain, and a
    reader that cuts the stream at start codes gets back exactly the NAL units that were sent. */
module ChainOutput {
  import opened Words
  import opened AnnexB
  import opened SpsParse
  import opened SpsBuild
  import opened ChainGate
  import SpsCanon

  // ---------- accounting ----------

  function Count(results: seq<Outcome>, o: Outcome): nat {
    if results == [] then 0 else Count(results[..|results| - 1], o) + if results[|results| - 1] == o then 1 else 0
  }

  /** The writes that got through, in order. */
  function Sent(tried: seq<Put>, results: seq<Outcome>): seq<Put>
    requires |tried| == |results|
  {
    if tried == [] then []
    else
      var n := |tried| - 1;
      Sent(tried[..n], results[..n]) + if results[n] == Done then [tried[n]] else []
  }

  function Size(puts: seq<Put>): nat {
    if puts == [] then 0 else Size(puts[..|puts| - 1]) + 4 + |puts[|puts| - 1].body|
  }

  /** The counters, the outcomes and the writes fit together; only slices are ever refused. */
  predicate Accounted(w: World) {
    && |w.results| == |w.tried|
    && w.nals == Count(w.results, Done) == |Sent(w.tried, w.results)| && w.drops == Count(w.results, Full)
    && w.bytes == Size(Sent(w.tried, w.results))
    && forall k | 0 <= k < |w.tried| :: w.results[k] == Full ==> w.tried[k].kind == Slice
  }

  lemma CountMore(results: seq<Outcome>, o: Outcome, p: Outcome)
    ensures Count(results + [o], p) == Count(results, p) + if o == p then 1 else 0
  {
    assert (results + [o])[..|results|] == results;
  }

  lemma SentMore(tried: seq<Put>, results: seq<Outcome>, put: Put, o: Outcome)
    requires |tried| == |results|
    ensures Sent(tried + [put], results + [o]) == Sent(tried, results) + if o == Done then [put] else []
  {
    assert (tried + [put])[..|tried|] == tried && (results + [o])[..|results|] == results;
  }

  lemma SizeMore(puts: seq<Put>, p: Put)
    ensures Size(puts + [p]) == Size(puts) + 4 + |p.body|
  {
    assert (puts + [p])[..|puts|] == puts;
  }

  lemma WriteAccounted(w: World, put: Put)
    requires Accounted(w)
    ensures Accounted(Write(w, put))
  {
    hide Count, Sent, Size;
    var o, s := Answer(w.answers, put.kind), Sent(w.tried, w.results);
    CountMore(w.results, o, Done);
    CountMore(w.results, o, Full);
    SentMore(w.tried, w.results, put, o);
    SizeMore(s, put);
    assert s + [] == s;
    hide Answer;
    OnlySlicesRefused(w, put, o);
  }

  lemma OnlySlicesRefused(w: World, put: Put, o: Outcome)
    requires |w.results| == |w.tried| && o == Answer(w.answers, put.kind)
    requires forall k | 0 <= k < |w.tried| :: w.results[k] == Full ==> w.tried[k].kind == Slice
    ensures var t, r := w.tried + [put], w.results + [o];
      forall k | 0 <= k < |t| :: r[k] == Full ==> t[k].kind == Slice
  {
  }

  lemma FeedOneAccounted(w: World, r: int, nal: seq<byte>)
    requires Accounted(w)
    ensures Accounted(FeedOne(w, r, nal).w)
  {
    var (g, put) := Admit(w.gate, nal);
    hide Admit, Write, Count, Sent, Size;
    if put.Some? {
      WriteAccounted(w.(gate := g), put.value);
    }
  }

  lemma {:induction false} FeedAllAccounted(w: World, r: int, nals: seq<seq<byte>>)
    requires Accounted(w)
    ensures Accounted(FeedAll(w, r, nals).w)
    decreases |nals|
  {
    hide Accounted, FeedOne;
    if nals != [] {
      var a := FeedOne(w, r, nals[0]);
      FeedOneAccounted(w, r, nals[0]);
      if !a.stop {
        FeedAllAccounted(a.w, a.r, nals[1..]);
      }
    }
  }

  /** Conservation over every run: writes tried = sent + dropped + failed, and bytes are those of the sent ones. */
  lemma {:induction false} RunAccounted(w: World, records: seq<seq<byte>>)
    requires Accounted(w)
    ensures Accounted(Run(w, records))
    decreases |records|
  {
    hide Accounted, FeedAll;
    if records != [] {
      FeedAllAccounted(w, 0, Split(records[0]));
      RunAccounted(EmitRecord(w, records[0]).w, records[1..]);
    }
  }

  lemma FreshAccounted(answers: seq<Outcome>)
    ensures Accounted(FRESH.(answers := answers))
  {
  }

  lemma {:induction false} CountsAddUp(results: seq<Outcome>)
    ensures Count(results, Done) + Count(results, Full) + Count(results, Broken) == |results|
  {
    if results != [] {
      CountsAddUp(results[..|results| - 1]);
    }
  }

  // ---------- the order of what was sent ----------

  /** No write broke the output, and only slices were refused. */
  predicate Benign(tried: seq<Put>, results: seq<Outcome>) {
    |tried| == |results| && forall k | 0 <= k < |tried| ::
      results[k] != Broken && (results[k] == Full ==> tried[k].kind == Slice)
  }

  lemma {:induction false} SentKeepsState(tried: seq<Put>, results: seq<Outcome>)
    requires Benign(tried, results) && Ordered(tried)
    ensures |tried| == |results|
    ensures var s := Sent(tried, results); StageOf(s) == StageOf(tried) && Opened(s) == Opened(tried) && Ordered(s)
    decreases |tried|
  {
    hide Ordered, Opened, StageOf, Sent, Allowed;
    if tried == [] {
      SentOfNone(tried, results);
    } else {
      var n := |tried| - 1;
      var p, s := tried[n], Sent(tried[..n], results[..n]);
      LastAllowed(tried);
      SentKeepsState(tried[..n], results[..n]);
      LastSent(tried, results);
      assert tried == tried[..n] + [p] && s + [] == s;
      SameAllowed(s, tried[..n], p.kind);
      OneMore(tried[..n], p);
      OneMore(s, p);
    }
  }

  lemma LastAllowed(t: seq<Put>)
    requires t != [] && Ordered(t)
    ensures Ordered(t[..|t| - 1]) && Allowed(t[..|t| - 1], t[|t| - 1].kind)
  {
  }

  lemma SentOfNone(tried: seq<Put>, results: seq<Outcome>)
    requires |tried| == |results| && tried == []
    ensures Sent(tried, results) == tried
  {
  }

  lemma LastSent(tried: seq<Put>, results: seq<Outcome>)
    requires |tried| == |results| && tried != []
    ensures var n := |tried| - 1;
      Sent(tried, results) == Sent(tried[..n], results[..n]) + if results[n] == Done then [tried[n]] else []
  {
  }

  lemma SameAllowed(s: seq<Put>, t: seq<Put>, k: Kind)
    requires StageOf(s) == StageOf(t) && Opened(s) == Opened(t)
    ensures Allowed(s, k) == Allowed(t, k)
  {
  }

  /** Unless the output breaks, the stream itself has the order: refused slices leave every chain intact. */
  lemma SentIsOrdered(answers: seq<Outcome>, records: seq<seq<byte>>)
    ensures var w := Run(FRESH.(answers := answers), records);
      |w.results| == |w.tried| && (Broken !in w.results ==> Ordered(Sent(w.tried, w.results)))
  {
    var f := FRESH.(answers := answers);
    FreshTracks(answers);
    FreshAccounted(answers);
    hide Run, Ordered, Tracks;
    RunAccounted(f, records);
    RunTracks(f, records);
    OrderOf(Run(f, records));
  }

  lemma OrderOf(w: World)
    requires Tracks(w) && Accounted(w)
    ensures Broken !in w.results ==> Ordered(Sent(w.tried, w.results))
  {
    hide Ordered, Sent, Count, Size, StageOf, Opened;
    assert Broken !in w.results ==> Benign(w.tried, w.results);
    if Broken !in w.results {
      SentKeepsState(w.tried, w.results);
    }
  }

  // ---------- reading the stream back ----------

  function Bodies(puts: seq<Put>): seq<seq<byte>> {
    seq(|puts|, k requires 0 <= k < |puts| => puts[k].body)
  }

  /** No start code begins inside a write; sequence parameter sets count only if sets says so. */
  ghost predicate AllFree(t: seq<Put>, sets: bool) {
    forall k | 0 <= k < |t| && (sets || t[k].kind != Sps) :: CodeFree(t[k].body)
  }

  /** Every SPS that gets rebuilt has fields in the standard's ranges. */
  predicate CleanSets(nals: seq<seq<byte>>) {
    forall n | n in nals :: CleanSet(n)
  }

  predicate CleanSet(nal: seq<byte>) {
    nal != [] && NalType(nal) == NAL_SPS_TYPE && Rebuilt(nal) ==> SpsCanon.InRange(ParseSps(nal))
  }

  lemma FreePrefix(a: seq<byte>, b: seq<byte>)
    requires a <= b && CodeFree(b)
    ensures CodeFree(a)
  {
    forall i: nat ensures !CodeAt(a, i) {
      assert !CodeAt(b, i);
    }
  }

  lemma BuiltIsFree(si: SpsInfo)
    requires SpsCanon.InRange(si)
    ensures CodeFree(BuildSps(si))
  {
    var s := BuildSps(si);
    hide *;
    forall i: nat ensures !CodeAt(s, i) {
      if i + 4 <= |s| {
        SpsCanon.NoReservedBytes(si, i);
      }
      NotReserved(s, i);
    }
    FreeIntro(s);
  }

  lemma NotReserved(s: seq<byte>, i: nat)
    requires i + 4 <= |s| ==> !SpsCanon.Reserved(s, i)
    ensures !CodeAt(s, i)
  {
  }

  lemma FreeIntro(s: seq<byte>)
    requires forall i: nat :: !CodeAt(s, i)
    ensures CodeFree(s)
  {
  }

  lemma CanonicalFree(nal: seq<byte>)
    requires CodeFree(nal) && CleanSet(nal) && nal != [] && NalType(nal) == NAL_SPS_TYPE
    ensures CodeFree(Canonical(nal))
  {
    hide ParseSps, CodeFree, BuildSps, SpsCanon.InRange;
    if Rebuilt(nal) {
      BuiltIsFree(ParseSps(nal));
    }
  }

  lemma AdmitFree(g: Gate, nal: seq<byte>, sets: bool)
    requires CodeFree(nal) && (sets ==> CleanSet(nal))
    ensures var put := Admit(g, nal).1; put.Some? && (sets || put.value.kind != Sps) ==> CodeFree(put.value.body)
  {
    hide PpsPasses, CodeFree, Canonical, CleanSet, Trim;
    if sets && nal != [] && NalType(nal) == NAL_SPS_TYPE {
      CanonicalFree(nal);
    }
    FreePrefix(Trim(nal), nal);
  }

  lemma FeedOneFree(w: World, r: int, nal: seq<byte>, sets: bool)
    requires CodeFree(nal) && (sets ==> CleanSet(nal)) && AllFree(w.tried, sets)
    ensures AllFree(FeedOne(w, r, nal).w.tried, sets)
  {
    AdmitFree(w.gate, nal, sets);
    hide Admit, CodeFree, CleanSet;
  }

  lemma {:induction false} FeedAllFree(w: World, r: int, nals: seq<seq<byte>>, sets: bool)
    requires AllFree(w.tried, sets) && (sets ==> CleanSets(nals)) && forall n | n in nals :: CodeFree(n)
    ensures AllFree(FeedAll(w, r, nals).w.tried, sets)
    decreases |nals|
  {
    hide AllFree, FeedOne, CodeFree, CleanSet;
    if nals != [] {
      assert nals[0] in nals;
      var a := FeedOne(w, r, nals[0]);
      FeedOneFree(w, r, nals[0], sets);
      if !a.stop {
        assert forall n | n in nals[1..] :: n in nals;
        FeedAllFree(a.w, a.r, nals[1..], sets);
      }
    }
  }

  lemma {:induction false} RunFree(w: World, records: seq<seq<byte>>, sets: bool)
    requires AllFree(w.tried, sets) && (sets ==> forall p | p in records :: CleanSets(Split(p)))
    ensures AllFree(Run(w, records).tried, sets)
    decreases |records|
  {
    hide AllFree, FeedAll, CodeFree, CleanSets, Split;
    if records != [] {
      var p := records[0];
      assert p in records;
      SplitFree(p);
      FeedAllFree(w, 0, Split(p), sets);
      assert forall q | q in records[1..] :: q in records;
      RunFree(EmitRecord(w, p).w, records[1..], sets);
    }
  }

  lemma SplitFree(p: seq<byte>)
    ensures forall n | n in Split(p) :: CodeFree(n)
  {
    SegmentsTile(p, 0);
    NalsAreFree(p, NextCode(p, 0), Segments(p, 0));
  }

  lemma {:induction false} SentFree(tried: seq<Put>, results: seq<Outcome>, sets: bool)
    requires |tried| == |results| && AllFree(tried, sets)
    ensures AllFree(Sent(tried, results), sets)
    decreases |tried|
  {
    hide CodeFree;
    if tried != [] {
      SentFree(tried[..|tried| - 1], results[..|tried| - 1], sets);
    }
  }

  /** The bytes on the output. */
  function Stream(w: World): seq<byte>
    requires |w.tried| == |w.results|
  {
    Join(Bodies(Sent(w.tried, w.results)))
  }

  lemma {:induction false} StreamLength(puts: seq<Put>)
    ensures |Join(Bodies(puts))| == Size(puts)
    decreases |puts|
  {
    hide Join;
    if puts == [] {
      JoinOfNone();
    } else {
      var n := |puts| - 1;
      StreamLength(puts[..n]);
      assert Bodies(puts) == Bodies(puts[..n]) + [puts[n].body];
      JoinOneMore(Bodies(puts[..n]), puts[n].body);
    }
  }

  /** Over every run the byte counter is the length of the output stream, the unit counter the number of units in it,
      and the drop counter the number of refusals. */
  lemma CountersAreStream(answers: seq<Outcome>, records: seq<seq<byte>>)
    ensures var w := Run(FRESH.(answers := answers), records);
      && |w.tried| == |w.results| && w.bytes == |Stream(w)| && w.nals == |Sent(w.tried, w.results)|
      && w.drops == Count(w.results, Full)
  {
    var f := FRESH.(answers := answers);
    FreshAccounted(answers);
    hide Run, Sent, Count, Size, Join, Bodies;
    RunAccounted(f, records);
    StreamLength(Sent(Run(f, records).tried, Run(f, records).results));
  }

  /** What one record returns: 0, -1 or -2 as its last write was sent, refused or failed, and 0 without one. */
  lemma {:induction false} ReturnIsLast(w: World, r: int, nals: seq<seq<byte>>)
    ensures var a := FeedAll(w, r, nals);
      && w.results <= a.w.results
      && a.r == if a.w.results == w.results then r
                else match a.w.results[|a.w.results| - 1] { case Done => 0 case Full => -1 case Broken => -2 }
    decreases |nals|
  {
    hide FeedOne;
    if nals != [] {
      var a := FeedOne(w, r, nals[0]);
      OneReturn(w, r, nals[0]);
      if !a.stop {
        ReturnIsLast(a.w, a.r, nals[1..]);
      }
    }
  }

  lemma OneReturn(w: World, r: int, nal: seq<byte>)
    ensures var a := FeedOne(w, r, nal);
      || (a.w.results == w.results && a.r == r)
      || (|a.w.results| == |w.results| + 1 && w.results <= a.w.results
          && a.r == match a.w.results[|w.results|] { case Done => 0 case Full => -1 case Broken => -2 })
  {
    hide Admit, Answer, Rebuilt;
  }

  /** Over every run, whatever the records held and whichever slices were refused: cutting the output stream at its
      start codes recovers exactly the NAL units that were sent, if and only if no start code begins inside a sequence
      parameter set that was sent. */
  lemma OutputResplitsIff(answers: seq<Outcome>, records: seq<seq<byte>>)
    ensures var w := Run(FRESH.(answers := answers), records);
      && |w.tried| == |w.results|
      && var s := Sent(w.tried, w.results);
         Split(Stream(w)) == Bodies(s) <==> forall k | 0 <= k < |s| && s[k].kind == Sps :: CodeFree(s[k].body)
  {
    var f := FRESH.(answers := answers);
    FreshAccounted(answers);
    hide Run, Split, Sent, CodeFree, Join, Bodies;
    RunAccounted(f, records);
    RunFree(f, records, false);
    var w := Run(f, records);
    var s := Sent(w.tried, w.results);
    SentFree(w.tried, w.results, false);
    NothingFree();
    SplitOfJoinIff([], Bodies(s));
    assert [] + Stream(w) == Stream(w);
    BodiesFree(s);
  }

  lemma BodiesFree(s: seq<Put>)
    ensures (forall n | n in Bodies(s) :: CodeFree(n)) <==> forall k | 0 <= k < |s| :: CodeFree(s[k].body)
  {
    hide CodeFree;
    forall k | 0 <= k < |s| ensures s[k].body in Bodies(s) {
      assert Bodies(s)[k] == s[k].body;
    }
  }

  /** Which is so if the sets rebuilt on the way are within the standard's ranges. */
  lemma OutputResplits(answers: seq<Outcome>, records: seq<seq<byte>>)
    requires forall p | p in records :: CleanSets(Split(p))
    ensures var w := Run(FRESH.(answers := answers), records);
      |w.tried| == |w.results| && Split(Stream(w)) == Bodies(Sent(w.tried, w.results))
  {
    var f := FRESH.(answers := answers);
    hide Run, Split, Sent, CleanSets, CodeFree, Bodies, Stream;
    OutputResplitsIff(answers, records);
    RunFree(f, records, true);
    var w := Run(f, records);
    SentFree(w.tried, w.results, true);
  }

  lemma NothingFree()
    ensures CodeFree([])
  {
  }
}
