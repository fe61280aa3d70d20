/** From a delivered record to the output: every NAL unit is routed through a gate that lets a parameter set
    chain open the stream. The gate's state lives on from record to record. */
module ChainGate {
  import opened Words
  import opened Bits
  import opened AnnexB
  import opened SpsParse
  import opened SpsBuild
  import SpsCanon

  datatype Kind = Sps | Pps | Idr | Slice | Other

  /** A NAL unit chosen for output; a start code is written in front of it. */
  datatype Put = Put(kind: Kind, body: seq<byte>)

  /** stage: 0 no set accepted since the last IDR, 1 an SPS, 2 an SPS and then a PPS. */
  datatype Gate = Gate(stage: nat, open: bool)

  // ---------- the decision on one NAL unit ----------

  /** The bytes up to the last nonzero one. */
  function Trim(nal: seq<byte>): (b: seq<byte>)
    ensures b <= nal && (b == [] || b[|b| - 1] != 0) && forall i | |b| <= i < |nal| :: nal[i] == 0
  {
    if nal != [] && nal[|nal| - 1] == 0 then Trim(nal[..|nal| - 1]) else nal
  }

  /** The test for a degenerate PPS: two codes, read from the header byte on, that do not overflow. */
  predicate PpsPasses(body: seq<byte>) {
    2 <= |body| &&
    var a := ReadUe(BitsOf(body), Cur(0, false));
    var b := ReadUe(BitsOf(body), a.cur);
    a.val != UE_ERROR && b.val != UE_ERROR && b.cur.pos <= 8 * |body|
  }

  predicate Rebuilt(nal: seq<byte>) {
    ParseSps(nal).ok && ParseSps(nal).pocType == 0
  }

  function Canonical(nal: seq<byte>): seq<byte> {
    if Rebuilt(nal) then BuildSps(ParseSps(nal)) else nal
  }

  function Admit(g: Gate, nal: seq<byte>): (Gate, Option<Put>) {
    if nal == [] then (g, None)
    else
      var nt := NalType(nal);
      if nt == NAL_SPS_TYPE then (g.(stage := 1), Some(Put(Sps, Canonical(nal))))
      else if nt == 8 then
        if g.stage < 1 || !PpsPasses(Trim(nal)) then (g, None) else (g.(stage := 2), Some(Put(Pps, Trim(nal))))
      else if nt == 5 then
        if g.stage < 2 then (g, None) else (Gate(0, true), Some(Put(Idr, nal)))
      else if nt == 1 then
        if !g.open then (g, None) else (g, Some(Put(Slice, nal)))
      else if nt == 9 || (!g.open && g.stage == 0) then (g, None)
      else (g, Some(Put(Other, nal)))
  }

  // ---------- the sink, and whole runs ----------

  /** What an all-or-nothing output says to one write. */
  datatype Outcome = Done | Full | Broken

  /** The gate, the writes tried so far with their outcomes, the counters, and the answers still to come. */
  datatype World = World(gate: Gate, tried: seq<Put>, results: seq<Outcome>, nals: nat, bytes: nat, drops: nat,
                         answers: seq<Outcome>)

  const FRESH: World := World(Gate(0, false), [], [], 0, 0, 0, [])

  /** Chain writes wait for space, so they are never refused for lack of it. */
  function Answer(answers: seq<Outcome>, k: Kind): Outcome {
    if answers == [] then Done else if answers[0] == Full && k != Slice then Done else answers[0]
  }

  function Code(o: Outcome): int {
    match o
    case Done => 0
    case Full => -1
    case Broken => -2
  }

  function Write(w: World, put: Put): World {
    var o := Answer(w.answers, put.kind);
    var rest := if w.answers == [] then [] else w.answers[1..];
    var v := w.(tried := w.tried + [put], results := w.results + [o], answers := rest);
    match o
    case Done => v.(nals := w.nals + 1, bytes := w.bytes + 4 + |put.body|)
    case Full => v.(drops := w.drops + 1)
    case Broken => v
  }

  /** stop: the walk of this record ends here. A failed write of a rebuilt SPS does not end it. */
  datatype After = After(w: World, r: int, stop: bool)

  function FeedOne(w: World, r: int, nal: seq<byte>): After {
    var (g, put) := Admit(w.gate, nal);
    match put
    case None => After(w.(gate := g), r, false)
    case Some(p) =>
      var o := Answer(w.answers, p.kind);
      After(Write(w.(gate := g), p), Code(o), o == Broken && !(p.kind == Sps && Rebuilt(nal)))
  }

  function FeedAll(w: World, r: int, nals: seq<seq<byte>>): After
    decreases |nals|
  {
    if nals == [] then After(w, r, false)
    else
      var a := FeedOne(w, r, nals[0]);
      if a.stop then a else FeedAll(a.w, a.r, nals[1..])
  }

  function EmitRecord(w: World, p: seq<byte>): After {
    FeedAll(w, 0, Split(p))
  }

  function Run(w: World, records: seq<seq<byte>>): World
    decreases |records|
  {
    if records == [] then w else Run(EmitRecord(w, records[0]).w, records[1..])
  }

  // ---------- the order of the writes ----------

  /** What the chain state should be after these writes. */
  function StageOf(t: seq<Put>): (s: nat)
    ensures s <= 2
  {
    if t == [] then 0
    else
      match t[|t| - 1].kind
      case Sps => 1
      case Pps => 2
      case Idr => 0
      case _ => StageOf(t[..|t| - 1])
  }

  predicate Opened(t: seq<Put>) {
    exists k :: 0 <= k < |t| && t[k].kind == Idr
  }

  /** May a write of kind k follow the writes t? */
  predicate Allowed(t: seq<Put>, k: Kind) {
    match k
    case Sps => true
    case Pps => 1 <= StageOf(t)
    case Idr => StageOf(t) == 2
    case Slice => Opened(t)
    case Other => Opened(t) || StageOf(t) != 0
  }

  predicate Ordered(t: seq<Put>) {
    t == [] || (Ordered(t[..|t| - 1]) && Allowed(t[..|t| - 1], t[|t| - 1].kind))
  }

  /** The gate remembers of the past exactly what the order of the writes needs. */
  predicate Tracks(w: World) {
    w.gate.stage == StageOf(w.tried) && w.gate.open == Opened(w.tried) && Ordered(w.tried)
  }

  lemma OneMore(t: seq<Put>, p: Put)
    ensures Opened(t + [p]) == (Opened(t) || p.kind == Idr)
    ensures Allowed(t, p.kind) && Ordered(t) ==> Ordered(t + [p])
    ensures StageOf(t + [p]) == match p.kind { case Sps => 1 case Pps => 2 case Idr => 0 case _ => StageOf(t) }
  {
    var u := t + [p];
    assert u[..|t|] == t && u[|t|] == p;
    if k :| 0 <= k < |t| && t[k].kind == Idr {
      assert u[k].kind == Idr;
    }
  }

  lemma FeedOneTracks(w: World, r: int, nal: seq<byte>)
    requires Tracks(w)
    ensures Tracks(FeedOne(w, r, nal).w)
  {
    hide Ordered, Opened, StageOf, PpsPasses, Rebuilt, Canonical, Trim;
    var (g, put) := Admit(w.gate, nal);
    if put.Some? {
      OneMore(w.tried, put.value);
    }
  }

  lemma {:induction false} FeedAllTracks(w: World, r: int, nals: seq<seq<byte>>)
    requires Tracks(w)
    ensures Tracks(FeedAll(w, r, nals).w)
    decreases |nals|
  {
    hide Tracks, FeedOne;
    if nals != [] {
      var a := FeedOne(w, r, nals[0]);
      FeedOneTracks(w, r, nals[0]);
      if !a.stop {
        FeedAllTracks(a.w, a.r, nals[1..]);
      }
    }
  }

  /** In every run the gate's two variables are a function of what was chosen for output so far, across records
      and whatever the writes answered. */
  lemma {:induction false} RunTracks(w: World, records: seq<seq<byte>>)
    requires Tracks(w)
    ensures Tracks(Run(w, records))
    decreases |records|
  {
    hide Tracks, FeedAll;
    if records != [] {
      FeedAllTracks(w, 0, Split(records[0]));
      RunTracks(EmitRecord(w, records[0]).w, records[1..]);
    }
  }

  lemma FreshTracks(answers: seq<Outcome>)
    ensures Tracks(FRESH.(answers := answers))
  {
  }

  // ---------- what the order means ----------

  lemma {:induction false} OrderedPrefix(t: seq<Put>, k: nat)
    requires Ordered(t) && k <= |t|
    ensures Ordered(t[..k]) && (k < |t| ==> Allowed(t[..k], t[k].kind))
    decreases |t|
  {
    if k == |t| {
      assert t[..k] == t;
    } else if k < |t| - 1 {
      OrderedPrefix(t[..|t| - 1], k);
      assert t[..|t| - 1][..k] == t[..k];
    }
  }

  /** An SPS at m, a PPS at j behind it; no SPS and no IDR between the SPS and k. */
  predicate ChainAt(t: seq<Put>, m: nat, j: nat, k: nat) {
    && m < j < k <= |t| && t[m].kind == Sps && t[j].kind == Pps
    && forall i | m < i < k :: t[i].kind != Sps && t[i].kind != Idr
  }

  /** An SPS at m with no SPS and no IDR behind it. */
  predicate SetAt(t: seq<Put>, m: nat) {
    m < |t| && t[m].kind == Sps && forall i | m < i < |t| :: t[i].kind != Sps && t[i].kind != Idr
  }

  lemma {:induction false} StageOneMeans(t: seq<Put>) returns (m: nat)
    requires Ordered(t) && 1 <= StageOf(t)
    ensures SetAt(t, m)
    decreases |t|
  {
    var n := |t| - 1;
    if t[n].kind == Sps {
      m := n;
    } else {
      m := StageOneMeans(t[..n]);
    }
  }

  lemma {:induction false} StageTwoMeans(t: seq<Put>) returns (m: nat, j: nat)
    requires Ordered(t) && StageOf(t) == 2
    ensures ChainAt(t, m, j, |t|)
    decreases |t|
  {
    var n := |t| - 1;
    if t[n].kind == Pps {
      m := StageOneMeans(t[..n]);
      j := n;
    } else {
      m, j := StageTwoMeans(t[..n]);
      assert ChainAt(t[..n], m, j, n);
    }
  }

  /** Every IDR follows its own chain: a PPS behind the most recent SPS, both behind the IDR before. */
  lemma IdrHasChain(t: seq<Put>, k: nat) returns (m: nat, j: nat)
    requires Ordered(t) && k < |t| && t[k].kind == Idr
    ensures ChainAt(t, m, j, k)
  {
    OrderedPrefix(t, k);
    hide Ordered, StageOf;
    m, j := StageTwoMeans(t[..k]);
  }

  lemma StartsWithSps(t: seq<Put>)
    requires Ordered(t) && t != []
    ensures t[0].kind == Sps
  {
    OrderedPrefix(t, 0);
    assert t[..0] == [];
    hide Ordered;
  }

  /** No slice comes before the first IDR. */
  lemma SliceNeedsIdr(t: seq<Put>, k: nat) returns (j: nat)
    requires Ordered(t) && k < |t| && t[k].kind == Slice
    ensures j < k && t[j].kind == Idr
  {
    OrderedPrefix(t, k);
    hide Ordered;
    j :| 0 <= j < |t[..k]| && t[..k][j].kind == Idr;
  }

  /** The three together, for everything a run from start-up ever chose for output. */
  lemma RunIsOrdered(answers: seq<Outcome>, records: seq<seq<byte>>)
    ensures var t := Run(FRESH.(answers := answers), records).tried;
      && (t != [] ==> t[0].kind == Sps)
      && (forall k | 0 <= k < |t| && t[k].kind == Idr :: exists m: nat, j: nat :: ChainAt(t, m, j, k))
      && (forall k | 0 <= k < |t| && t[k].kind == Slice :: exists j: nat :: j < k && t[j].kind == Idr)
  {
    hide Run, FRESH;
    var w := Run(FRESH.(answers := answers), records);
    FreshTracks(answers);
    RunTracks(FRESH.(answers := answers), records);
    TrackedOrder(w);
  }

  lemma TrackedOrder(w: World)
    requires Tracks(w)
    ensures var t := w.tried;
      && (t != [] ==> t[0].kind == Sps)
      && (forall k | 0 <= k < |t| && t[k].kind == Idr :: exists m: nat, j: nat :: ChainAt(t, m, j, k))
      && (forall k | 0 <= k < |t| && t[k].kind == Slice :: exists j: nat :: j < k && t[j].kind == Idr)
  {
    hide Ordered, StageOf, Opened, ChainAt;
    var t := w.tried;
    if t != [] {
      StartsWithSps(t);
    }
    forall k | 0 <= k < |t| && t[k].kind == Idr ensures exists m: nat, j: nat :: ChainAt(t, m, j, k) {
      var m, j := IdrHasChain(t, k);
    }
    forall k | 0 <= k < |t| && t[k].kind == Slice ensures exists j: nat :: j < k && t[j].kind == Idr {
      var j := SliceNeedsIdr(t, k);
    }
  }

  // ---------- exactly which NAL units are chosen ----------

  function KindOf(nal: seq<byte>): Kind
    requires nal != []
  {
    var nt := NalType(nal);
    if nt == NAL_SPS_TYPE then Sps else if nt == 8 then Pps
    else if nt == 5 then Idr else if nt == 1 then Slice else Other
  }

  /** NAL units the gate could let pass at all. */
  predicate Presentable(nal: seq<byte>) {
    nal != [] && NalType(nal) != 9 && (NalType(nal) == 8 ==> PpsPasses(Trim(nal)))
  }

  /** A NAL unit is chosen if and only if it is presentable and its kind may follow what was chosen before. */
  lemma ChosenIff(w: World, nal: seq<byte>)
    requires Tracks(w)
    ensures Admit(w.gate, nal).1.Some? <==> Presentable(nal) && Allowed(w.tried, KindOf(nal))
  {
    hide Ordered, Opened, StageOf, PpsPasses, Canonical, Trim;
  }

  lemma {:induction false} OpenStays(w: World, r: int, nals: seq<seq<byte>>)
    requires w.gate.open
    ensures FeedAll(w, r, nals).w.gate.open
    decreases |nals|
  {
    hide PpsPasses, Rebuilt, Canonical, Trim;
    if nals != [] {
      var a := FeedOne(w, r, nals[0]);
      if !a.stop {
        OpenStays(a.w, a.r, nals[1..]);
      }
    }
  }

  /** The gate never re-arms: after the first IDR every slice is chosen, even one that refers to a newer SPS whose
      IDR has not come yet. */
  lemma {:induction false} NeverRearms(w: World, records: seq<seq<byte>>, nal: seq<byte>)
    requires w.gate.open && nal != [] && NalType(nal) == 1
    ensures Admit(Run(w, records).gate, nal).1 == Some(Put(Slice, nal))
    decreases |records|
  {
    hide FeedAll;
    if records != [] {
      OpenStays(w, 0, Split(records[0]));
      NeverRearms(EmitRecord(w, records[0]).w, records[1..], nal);
    }
  }

  /** The degenerate-PPS test looks at the header byte: with the usual header 0x68 both codes end inside that
      byte, so no body of two bytes or more is ever rejected. */
  lemma PpsTestInert(body: seq<byte>)
    requires 2 <= |body| && body[0] == 0x68
    ensures PpsPasses(body)
  {
    var b := BitsOf(body);
    BitsOfOctet(body, 0);
    assert Octet(0x68) == [0, 1, 1, 0, 1, 0, 0, 0] by {
      SpsCanon.Shifts(0x68);
      SpsCanon.OctetBits(0x68);
      hide UBits, Shr;
    }
    hide UBits, Shr, BitsOf;
    forall i | 0 <= i < 8 ensures b[i] == Octet(0x68)[i] {
      assert b[8 * 0..8 * 0 + 8][i] == b[i];
    }
    ShortCode(b, 0, 2);
    ShortCode(b, 3, 1);
  }

  lemma ShortCode(b: seq<bit>, pos: nat, v: nat)
    requires pos + 3 <= |b| && b[pos] == 0 && b[pos + 1] == 1 && b[pos + 2] == v - 1
    ensures ReadUe(b, Cur(pos, false)) == Read(v, Cur(pos + 3, false))
  {
    assert Zeros(b, pos + 1) == 0;
    assert Zeros(b, pos) == 1;
    assert Pow2(1) == 2;
    assert ReadBits(b, Cur(pos + 2, false), 1, 0) == Read(b[pos + 2], Cur(pos + 3, false));
    hide Zeros, ReadBits, Pow2;
  }
}
