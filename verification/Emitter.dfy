/** The record walk as it runs: cut, route, write, with the gate's variables and the counters updated in place. */
module Emitter {
  import opened Words
  import opened Bits
  import opened AnnexB
  import opened SpsParse
  import SpsBuild
  import opened ChainGate

  lemma CropsParsed(d: seq<byte>)
    ensures |ParseSps(d).crop| == 4
  {
    hide Strip, BitsOf, ReadUe, ReadBit, SkipHigh, ReadPoc, ReadFlags;
  }

  /** A search that starts anywhere before the code it must find, and behind the last one, finds it. */
  lemma {:induction false} NextFrom(p: seq<byte>, i: nat, j: nat)
    requires i <= j <= NextCode(p, i) && i <= |p|
    ensures NextCode(p, j) == NextCode(p, i)
    decreases j - i
  {
    if i < j {
      NextFrom(p, i + 1, j);
    }
  }

  class Emitter {
    var stage: nat
    var chainOpen: bool
    var nals: nat
    var bytes: nat
    var drops: nat
    var answers: seq<Outcome>
    ghost var tried: seq<Put>
    ghost var results: seq<Outcome>

    constructor (answers: seq<Outcome>)
      ensures Abstract() == FRESH.(answers := answers)
    {
      stage, chainOpen, nals, bytes, drops := 0, false, 0, 0, 0;
      this.answers, tried, results := answers, [], [];
    }

    ghost function Abstract(): World
      reads this
    {
      World(Gate(stage, chainOpen), tried, results, nals, bytes, drops, answers)
    }

    /** One write of start code and body. */
    method WriteOut(kind: Kind, body: seq<byte>) returns (r: int)
      modifies this
      ensures Abstract() == Write(old(Abstract()), Put(kind, body)) && r == Code(Answer(old(answers), kind))
    {
      var o := Done;
      if answers != [] {
        if !(answers[0] == Full && kind != Slice) {
          o := answers[0];
        }
        answers := answers[1..];
      }
      tried, results := tried + [Put(kind, body)], results + [o];
      r := Code(o);
      if r == 0 {
        nals, bytes := nals + 1, bytes + 4 + |body|;
      } else if r == -1 {
        drops := drops + 1;
      }
    }

    method RouteSps(nal: seq<byte>) returns (r: int, stop: bool)
      requires nal != [] && NalType(nal) == NAL_SPS_TYPE
      modifies this
      ensures forall r0 :: After(Abstract(), r, stop) == FeedOne(old(Abstract()), r0, nal)
    {
      CropsParsed(nal);
      hide ParseSps, SpsBuild.BuildSps;
      var si := ParseSpsFull(nal);
      if si.ok && si.pocType == 0 {
        var built := SpsBuild.Build(si);
        stage := 1;
        r := WriteOut(Sps, built);
        stop := false;
      } else {
        stage := 1;
        r := WriteOut(Sps, nal);
        stop := r == -2;
      }
    }

    /** body: how much of the NAL unit is left once its trailing zeros are taken off. */
    method TrimZeros(nal: seq<byte>) returns (body: nat)
      ensures body == |Trim(nal)|
    {
      body := |nal|;
      assert nal[..body] == nal;
      while body > 0 && nal[body - 1] == 0
        invariant body <= |nal| && Trim(nal[..body]) == Trim(nal)
      {
        body := body - 1;
        assert nal[..body + 1][..body] == nal[..body];
      }
    }

    method CheckPps(body: seq<byte>) returns (ok: bool)
      ensures ok == PpsPasses(body)
    {
      hide ReadUe, BitsOf;
      if |body| < 2 {
        return false;
      }
      var reader := new BitReader(body, 0);
      var a := reader.Ue();
      var b := reader.Ue();
      ok := a != UE_ERROR && b != UE_ERROR && reader.pos <= 8 * |body|;
    }

    method RoutePps(nal: seq<byte>, r: int) returns (r2: int, stop: bool, kept: nat)
      requires nal != [] && NalType(nal) == 8
      modifies this
      ensures After(Abstract(), r2, stop) == FeedOne(old(Abstract()), r, nal)
      ensures kept <= |nal|
    {
      hide PpsPasses, ParseSps;
      r2, stop, kept := r, false, |nal|;
      if stage < 1 {
        return;
      }
      var body := TrimZeros(nal);
      assert nal[..body] == Trim(nal);
      var ok := CheckPps(nal[..body]);
      if !ok {
        return;
      }
      kept := body;
      stage := 2;
      r2 := WriteOut(Pps, nal[..body]);
      stop := r2 == -2;
    }

    /** Every other type. */
    method RouteRest(nal: seq<byte>, r: int) returns (r2: int, stop: bool)
      requires nal != [] && NalType(nal) != NAL_SPS_TYPE && NalType(nal) != 8
      modifies this
      ensures After(Abstract(), r2, stop) == FeedOne(old(Abstract()), r, nal)
    {
      hide PpsPasses, ParseSps, Trim;
      r2, stop := r, false;
      var nt := NalType(nal);
      var kind := Other;
      if nt == 5 {
        if stage < 2 {
          return;
        }
        chainOpen := true;
        stage := 0;
        kind := Idr;
      } else if nt == 1 {
        if !chainOpen {
          return;
        }
        kind := Slice;
      } else if nt == 9 {
        return;
      } else if !chainOpen && stage == 0 {
        return;
      }
      r2 := WriteOut(kind, nal);
      stop := r2 == -2;
    }

    /** One NAL unit of the walk. kept: where in it the walk resumes. */
    method Route(nal: seq<byte>, r: int) returns (r2: int, stop: bool, kept: nat)
      modifies this
      ensures After(Abstract(), r2, stop) == FeedOne(old(Abstract()), r, nal)
      ensures kept <= |nal|
    {
      hide FeedOne;
      kept := |nal|;
      if nal == [] {
        EmptyPassed(Abstract(), r);
        return r, false, kept;
      }
      if NalType(nal) == NAL_SPS_TYPE {
        r2, stop := RouteSps(nal);
        assert After(Abstract(), r2, stop) == FeedOne(old(Abstract()), r, nal);
      } else if NalType(nal) == 8 {
        r2, stop, kept := RoutePps(nal, r);
      } else {
        r2, stop := RouteRest(nal, r);
      }
    }

    /** Walk one payload. */
    method Emit(p: seq<byte>) returns (r: int)
      modifies this
      ensures var a := EmitRecord(old(Abstract()), p); Abstract() == a.w && r == a.r
    {
      hide FeedOne, FeedAll, NalsOf, NextCode;
      var i := 0;
      r := 0;
      ghost var w := Abstract();
      while i + 4 <= |p|
        invariant i <= |p|
        invariant FeedAll(w, 0, Split(p)) == FeedAll(Abstract(), r, NalsOf(p, Segments(p, i)))
        decreases |p| - i
      {
        var s := FindCode(p, i);
        NextSteps(p, i);
        if |p| <= s {
          FeedNone(Abstract(), r, p, i);
          return;
        }
        var e := FindCode(p, s + 4);
        var nal := p[s + 4..e];
        ghost var rest := NalsOf(p, Segments(p, e));
        Peel(p, i, s, e);
        FeedStep(Abstract(), r, nal, rest);
        var stop, kept;
        r, stop, kept := Route(nal, r);
        if stop {
          return;
        }
        i := s + 4 + kept;
        NextFrom(p, s + 4, i);
        NextFrom(p, s + 4, e);
        SameRest(p, i, e);
      }
      NextSteps(p, i);
      FeedNone(Abstract(), r, p, i);
    }
  }

  lemma EmptyPassed(w: World, r: int)
    ensures FeedOne(w, r, []) == After(w, r, false)
  {
  }

  lemma NextSteps(p: seq<byte>, i: nat)
    requires i <= |p|
    ensures i <= NextCode(p, i) <= |p| && (NextCode(p, i) < |p| ==> NextCode(p, i) + 4 <= |p|)
    ensures |p| < i + 4 ==> NextCode(p, i) == |p|
  {
  }

  lemma FeedNone(w: World, r: int, p: seq<byte>, i: nat)
    requires i <= |p| && NextCode(p, i) == |p|
    ensures FeedAll(w, r, NalsOf(p, Segments(p, i))) == After(w, r, false)
  {
    hide FeedOne;
  }

  lemma Peel(p: seq<byte>, i: nat, s: nat, e: nat)
    requires s == NextCode(p, i) && s + 4 <= |p| && e == NextCode(p, s + 4)
    ensures s + 4 <= e <= |p|
    ensures NalsOf(p, Segments(p, i)) == [p[s + 4..e]] + NalsOf(p, Segments(p, e))
  {
    assert Segments(p, i) == [Seg(s, e)] + Segments(p, e);
    hide NextCode, Segments;
  }

  lemma FeedStep(w: World, r: int, nal: seq<byte>, rest: seq<seq<byte>>)
    ensures var a := FeedOne(w, r, nal);
      FeedAll(w, r, [nal] + rest) == if a.stop then a else FeedAll(a.w, a.r, rest)
  {
    hide FeedOne;
    assert ([nal] + rest)[1..] == rest;
  }

  lemma SameRest(p: seq<byte>, i: nat, e: nat)
    requires NextCode(p, i) == NextCode(p, e)
    ensures Segments(p, i) == Segments(p, e)
  {
    hide NextCode;
  }
}
