/** Annex B byte streams with four-byte start codes (ITU-T H.264 section B.1): cutting a payload into NAL
    units, and joining NAL units into a payload. */
module AnnexB {
  import opened Words

  const START_CODE: seq<byte> := [0, 0, 0, 1]

  predicate CodeAt(p: seq<byte>, i: nat) {
    i + 4 <= |p| && p[i] == 0 && p[i + 1] == 0 && p[i + 2] == 0 && p[i + 3] == 1
  }

  /** No start code lies wholly inside p. */
  ghost predicate CodeFree(p: seq<byte>) {
    forall i: nat :: !CodeAt(p, i)
  }

  /** The first start code at or behind i, else the end. */
  function NextCode(p: seq<byte>, i: nat): (j: nat)
    ensures i <= |p| ==> i <= j <= |p|
    ensures |p| < i ==> j == |p|
    ensures j < |p| ==> CodeAt(p, j)
    ensures forall k: nat :: i <= k < j ==> !CodeAt(p, k)
    decreases |p| - i
  {
    if |p| < i + 4 then |p| else if CodeAt(p, i) then i else NextCode(p, i + 1)
  }

  /** A NAL unit in a payload: its start code is at s, its bytes are p[s + 4..e]. */
  datatype Seg = Seg(s: nat, e: nat)

  function Segments(p: seq<byte>, i: nat): seq<Seg>
    decreases |p| - i
  {
    var s := NextCode(p, i);
    if |p| <= s then []
    else
      var e := NextCode(p, s + 4);
      [Seg(s, e)] + Segments(p, e)
  }

  /** A segment carries a start code, and no other start code begins inside it. */
  predicate WellCut(p: seq<byte>, g: Seg) {
    CodeAt(p, g.s) && g.s + 4 <= g.e <= |p| && forall j: nat :: g.s < j < g.e ==> !CodeAt(p, j)
  }

  predicate Tiles(p: seq<byte>, from: nat, t: seq<Seg>)
    decreases |t|
  {
    if t == [] then from == |p| else t[0].s == from && WellCut(p, t[0]) && Tiles(p, t[0].e, t[1..])
  }

  lemma CodesApart(p: seq<byte>, i: nat, j: nat)
    requires CodeAt(p, i) && i < j && CodeAt(p, j)
    ensures i + 4 <= j
  {
  }

  /** The segments tile the payload from its first start code to its last byte, none missing, none overlapping. */
  lemma {:induction false} SegmentsTile(p: seq<byte>, i: nat)
    requires i <= |p|
    ensures Tiles(p, NextCode(p, i), Segments(p, i))
    decreases |p| - i
  {
    var s := NextCode(p, i);
    if s < |p| {
      var e := NextCode(p, s + 4);
      forall j: nat | s < j < e ensures !CodeAt(p, j) {
        if CodeAt(p, j) {
          CodesApart(p, s, j);
        }
      }
      SegmentsTile(p, e);
      StaysPut(p, e);
      assert Segments(p, i)[1..] == Segments(p, e);
    }
  }

  lemma StaysPut(p: seq<byte>, e: nat)
    requires e == |p| || CodeAt(p, e)
    ensures NextCode(p, e) == e
  {
  }

  /** A tiling is the segmentation: the cut is determined by where the start codes are. */
  lemma {:induction false} TilingUnique(p: seq<byte>, i: nat, t: seq<Seg>)
    requires i <= |p| && Tiles(p, NextCode(p, i), t)
    ensures t == Segments(p, i)
    decreases |t|
  {
    if t != [] {
      var g := t[0];
      TileEnd(p, g.e, t[1..]);
      CutEnd(p, g);
      StaysPut(p, g.e);
      TilingUnique(p, g.e, t[1..]);
      assert t == [g] + t[1..];
    }
  }

  lemma TileEnd(p: seq<byte>, from: nat, t: seq<Seg>)
    requires Tiles(p, from, t)
    ensures from == |p| || CodeAt(p, from)
  {
  }

  lemma CutEnd(p: seq<byte>, g: Seg)
    requires WellCut(p, g) && (g.e == |p| || CodeAt(p, g.e))
    ensures NextCode(p, g.s + 4) == g.e
  {
    var j := NextCode(p, g.s + 4);
    assert CodeAt(p, j) || j == |p|;
  }

  // ---------- NAL units ----------

  function NalOf(p: seq<byte>, g: Seg): seq<byte> {
    if g.s + 4 <= g.e <= |p| then p[g.s + 4..g.e] else []
  }

  function NalsOf(p: seq<byte>, t: seq<Seg>): seq<seq<byte>> {
    if t == [] then [] else [NalOf(p, t[0])] + NalsOf(p, t[1..])
  }

  /** The NAL units of a payload, in order. */
  function Split(p: seq<byte>): seq<seq<byte>> {
    NalsOf(p, Segments(p, 0))
  }

  function Join(nals: seq<seq<byte>>): seq<byte> {
    if nals == [] then [] else START_CODE + (nals[0] + Join(nals[1..]))
  }

  lemma {:induction false} JoinOfTiles(p: seq<byte>, from: nat, t: seq<Seg>)
    requires from <= |p| && Tiles(p, from, t)
    ensures Join(NalsOf(p, t)) == p[from..]
    decreases |t|
  {
    if t == [] {
      assert p[from..] == [];
    } else {
      var g := t[0];
      JoinOfTiles(p, g.e, t[1..]);
      assert p[from..] == p[from..from + 4] + (p[from + 4..g.e] + p[g.e..]);
      assert p[from..from + 4] == START_CODE;
      assert NalsOf(p, t)[1..] == NalsOf(p, t[1..]);
    }
  }

  /** Joining what the splitter found gives the payload back from its first start code on. */
  lemma JoinOfSplit(p: seq<byte>)
    ensures Join(Split(p)) == p[NextCode(p, 0)..]
  {
    SegmentsTile(p, 0);
    JoinOfTiles(p, NextCode(p, 0), Segments(p, 0));
  }

  /** Every NAL unit the splitter returns is free of start codes. */
  lemma {:induction false} NalsAreFree(p: seq<byte>, from: nat, t: seq<Seg>)
    requires Tiles(p, from, t)
    ensures forall n | n in NalsOf(p, t) :: CodeFree(n)
    decreases |t|
  {
    if t != [] {
      var g := t[0];
      var n := NalOf(p, g);
      forall i: nat ensures !CodeAt(n, i) {
        if CodeAt(n, i) {
          assert CodeAt(p, g.s + 4 + i);
        }
      }
      NalsAreFree(p, g.e, t[1..]);
    }
  }

  /** The tiling that joined NAL units have behind `from` bytes. */
  function Layout(from: nat, nals: seq<seq<byte>>): seq<Seg>
    decreases |nals|
  {
    if nals == [] then [] else
      var e := from + 4 + |nals[0]|;
      [Seg(from, e)] + Layout(e, nals[1..])
  }

  /** In x followed by a start code or by nothing, a code-free x hides no code that straddles its end. */
  lemma NoStraddle(p: seq<byte>, a: nat, b: nat, j: nat)
    requires a <= b <= |p| && CodeFree(p[a..b]) && (b == |p| || CodeAt(p, b))
    requires a <= j < b
    ensures !CodeAt(p, j)
  {
    if CodeAt(p, j) {
      if j + 4 <= b {
        assert CodeAt(p[a..b], j - a);
      }
    }
  }

  /** The first NAL unit of a joined tail, and where it ends. */
  lemma JoinHead(p: seq<byte>, from: nat, nals: seq<seq<byte>>)
    requires from <= |p| && nals != [] && p[from..] == Join(nals)
    ensures var e := from + 4 + |nals[0]|;
      CodeAt(p, from) && e <= |p| && p[from + 4..e] == nals[0] && p[e..] == Join(nals[1..])
  {
    var n, e, rest := nals[0], from + 4 + |nals[0]|, Join(nals[1..]);
    var tail := p[from..];
    assert tail == START_CODE + (n + rest);
    assert p[e..] == tail[4 + |n|..] == rest;
    assert p[from + 4..e] == tail[4..4 + |n|] == n;
    assert tail[0] == p[from] && tail[1] == p[from + 1] && tail[2] == p[from + 2] && tail[3] == p[from + 3];
  }

  lemma {:induction false} JoinLayout(p: seq<byte>, from: nat, nals: seq<seq<byte>>)
    requires from <= |p| && p[from..] == Join(nals) && forall n | n in nals :: CodeFree(n)
    ensures Tiles(p, from, Layout(from, nals)) && NalsOf(p, Layout(from, nals)) == nals
    ensures from == |p| || CodeAt(p, from)
    decreases |nals|
  {
    hide CodeFree, Join, CodeAt;
    if nals == [] {
      JoinOfNone();
    } else {
      var e := from + 4 + |nals[0]|;
      JoinHead(p, from, nals);
      assert forall m | m in nals[1..] :: m in nals;
      JoinLayout(p, e, nals[1..]);
      assert nals[0] in nals;
      CutAt(p, from, e);
      assert nals == [nals[0]] + nals[1..];
      assert Layout(from, nals)[1..] == Layout(e, nals[1..]);
    }
  }

  lemma JoinOfNone()
    ensures Join([]) == []
  {
  }

  lemma CutAt(p: seq<byte>, from: nat, e: nat)
    requires CodeAt(p, from) && from + 4 <= e <= |p| && CodeFree(p[from + 4..e]) && (e == |p| || CodeAt(p, e))
    ensures WellCut(p, Seg(from, e))
  {
    forall j: nat | from < j < e ensures !CodeAt(p, j) {
      if from + 4 <= j {
        NoStraddle(p, from + 4, e, j);
      } else if CodeAt(p, j) {
        CodesApart(p, from, j);
      }
    }
  }

  /** Split inverts join: behind any code-free prefix, the very same NAL units come back, trailing zeros
      included, as long as none of them contains a start code. */
  lemma SplitOfJoin(prefix: seq<byte>, nals: seq<seq<byte>>)
    requires CodeFree(prefix) && forall n | n in nals :: CodeFree(n)
    ensures Split(prefix + Join(nals)) == nals
  {
    var p := prefix + Join(nals);
    assert p[|prefix|..] == Join(nals) && p[0..|prefix|] == prefix;
    JoinLayout(p, |prefix|, nals);
    forall j: nat | 0 <= j < |prefix| ensures !CodeAt(p, j) {
      NoStraddle(p, 0, |prefix|, j);
    }
    assert NextCode(p, 0) == |prefix|;
    TilingUnique(p, 0, Layout(|prefix|, nals));
  }

  /** And only then: what comes back is code-free, and starts at the first code of the whole. */
  lemma SplitOfJoinIff(prefix: seq<byte>, nals: seq<seq<byte>>)
    ensures Split(prefix + Join(nals)) == nals <==> CodeFree(prefix) && forall n | n in nals :: CodeFree(n)
  {
    var p := prefix + Join(nals);
    if CodeFree(prefix) && forall n | n in nals :: CodeFree(n) {
      SplitOfJoin(prefix, nals);
    }
    if Split(p) == nals {
      SegmentsTile(p, 0);
      NalsAreFree(p, NextCode(p, 0), Segments(p, 0));
      JoinOfSplit(p);
      assert |p| - NextCode(p, 0) == |Join(nals)|;
      forall i: nat ensures !CodeAt(prefix, i) {
        if CodeAt(prefix, i) {
          assert CodeAt(p, i);
        }
      }
    }
  }

  lemma FreeIff(n: seq<byte>)
    ensures CodeFree(n)
      <==> forall i | 0 <= i <= |n| - 4 :: !(n[i] == 0 && n[i + 1] == 0 && n[i + 2] == 0 && n[i + 3] == 1)
  {
    if CodeFree(n) {
      forall i | 0 <= i <= |n| - 4 ensures !(n[i] == 0 && n[i + 1] == 0 && n[i + 2] == 0 && n[i + 3] == 1) {
        assert !CodeAt(n, i);
      }
    } else {
      var i: nat :| CodeAt(n, i);
    }
  }

  /** One unit behind the four bytes 0, 0, 0, 1 comes back if and only if those four do not stand inside it. */
  lemma OneUnit(n: seq<byte>)
    ensures Split([0, 0, 0, 1] + n) == [n]
      <==> forall i | 0 <= i <= |n| - 4 :: !(n[i] == 0 && n[i + 1] == 0 && n[i + 2] == 0 && n[i + 3] == 1)
  {
    hide *;
    JoinOfNone();
    JoinOneMore([], n);
    assert [] + [n] == [n] && [] + Join([n]) == Join([n]) && [] + [0, 0, 0, 1] + n == [0, 0, 0, 1] + n;
    NoneFree();
    FreeIff(n);
    SplitOfJoinIff([], [n]);
    assert n in [n];
  }

  lemma NoneFree()
    ensures CodeFree([])
  {
  }

  /** One unit more on the stream: the four bytes, then its own. */
  lemma {:induction false} JoinOneMore(nals: seq<seq<byte>>, n: seq<byte>)
    ensures Join(nals + [n]) == Join(nals) + [0, 0, 0, 1] + n
    decreases |nals|
  {
    if nals == [] {
      assert [] + [n] == [n] && [n][1..] == [];
      assert START_CODE + (n + []) == [] + [0, 0, 0, 1] + n;
    } else {
      JoinOneMore(nals[1..], n);
      assert (nals + [n])[1..] == nals[1..] + [n];
      var x, y := nals[0], Join(nals[1..]);
      assert START_CODE + (x + (y + [0, 0, 0, 1] + n)) == START_CODE + (x + y) + [0, 0, 0, 1] + n;
    }
  }

  // ---------- the code ----------

  /** Where the next start code is: the first inner loop of the walk, and its second with the end as default. */
  method FindCode(p: seq<byte>, i: nat) returns (j: nat)
    ensures j == NextCode(p, i)
  {
    j := i;
    while j + 4 <= |p| && !(p[j] == 0 && p[j + 1] == 0 && p[j + 2] == 0 && p[j + 3] == 1)
      invariant NextCode(p, j) == NextCode(p, i)
      decreases |p| - j
    {
      j := j + 1;
    }
    if |p| < j + 4 {
      j := |p|;
    }
  }
}
