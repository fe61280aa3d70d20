/** Rings filled to the last byte, where a new record of the oldest one's size goes exactly where that one was: what a
    reader takes for a header there may be the old one, or half old and half new. */
module FullRing {
  import opened Words
  import opened Records
  import opened RingWriter
  import opened Tearing
  import opened Interference

  // ---------- filling a ring completely ----------

  ghost predicate Full(s: Sys) {
    && 0 < |s.mem| == s.valid && s.tail == 0 && s.head == 0 && s.w == Idle && s.p == Asleep
    && Tiled(s.mem, 0, s.valid, s.log) && s.written == s.log && s.newest == |s.log|
  }

  lemma LastReady(s: Sys, x: Record)
    requires Filled(s) && s.valid + |Bytes(x)| == |s.mem|
    ensures Ready(s.(w := MakeRoom(x)), x)
  {
    WrapBelowTwice(s.valid, |s.mem|);
    BlankMagic(s.mem, s.valid);
    hide LogBytes, Window, HeaderAt, MagicOk, Tiled, Blank, Wrap;
  }

  lemma LastAppended(s: Sys, x: Record)
    requires Filled(s) && x.Ok() && s.valid + |Bytes(x)| == |s.mem| && x.h.seqno == |s.log| + 1
    ensures Full(Appended(s.(w := MakeRoom(x)), x))
  {
    WrapBelowTwice(s.valid + |Bytes(x)|, |s.mem|);
    TiledAppend(s.mem, 0, s.log, x);
    LogBytesAppend(s.log, x);
    hide LogBytes, Window, Stored, Image, Tiled, Blank, Wrap;
  }

  lemma FillLast(s: Sys, x: Record) returns (run: seq<Sys>)
    requires Filled(s) && x.Ok() && s.valid + |Bytes(x)| == |s.mem|
    requires x.h.seqno == |s.log| + 1 && |s.log| + 1 < U32_MAX
    ensures Path(run, ALL) && run[0] == s
    ensures var t := run[|run| - 1]; Full(t) && t.log == s.log + [x] && |t.mem| == |s.mem|
  {
    hide *;
    FilledIdle(s, x);
    var a := s.(w := MakeRoom(x));
    StartStep(s, x, ALL);
    LastReady(s, x);
    LastAppended(s, x);
    AppendedLog(a, x);
    var rest := AppendRun(a, x, ALL);
    PathStep(s, rest, ALL);
    run := [s] + rest;
  }

  lemma FilledIdle(s: Sys, x: Record)
    requires Filled(s) && x.h.seqno == |s.log| + 1 && |s.log| + 1 < U32_MAX
    ensures s.w == Idle && Calm(s.p) && 0 < |s.mem| && x.h.seqno == NextSeq(s.newest) && 0 <= s.valid
  {
    hide LogBytes, Tiled, Blank;
  }

  /** A fresh ring filled to the last byte with any records numbered from 1. */
  lemma FullRun(size: nat, rs: seq<Record>) returns (run: seq<Sys>)
    requires 2 <= |rs| && |rs| < U32_MAX && |LogBytes(rs)| == size
    requires forall i | 0 <= i < |rs| :: rs[i].Ok() && rs[i].h.seqno == i + 1
    ensures Path(run, ALL) && Initial(run[0]) && |run[0].mem| == size
    ensures var t := run[|run| - 1]; Full(t) && t.log == rs && |t.mem| == size
  {
    var n := |rs| - 1;
    var front, x := rs[..n], rs[n];
    assert rs == front + [x];
    hide LogBytes, Filled, Full, Initial, Path;
    LogBytesAppend(front, x);
    var s := FreshFilled(size);
    EmptyLogBytes();
    var a := FillRun(s, front);
    var t := a[|a| - 1];
    assert [] + front == front;
    FilledValid(t);
    var b := FillLast(t, x);
    PathJoin(a, b, ALL);
    run := a + b[1..];
  }

  lemma FilledValid(s: Sys)
    requires Filled(s)
    ensures s.valid == |LogBytes(s.log)|
  {
    hide LogBytes, Tiled, Blank;
  }

  // ---------- dropping the oldest record and taking its place ----------

  /** The first record is dropped, r is numbered and about to be copied to where it was. */
  function Replaced(s: Sys, r: Record): Sys
    requires s.log != []
  {
    var n := |Bytes(s.log[0])|;
    s.(tail := n, log := s.log[1..], newest := r.h.seqno, head := n, w := CopyHeader(r, 0, 0))
  }

  lemma FullFirst(s: Sys)
    requires Full(s) && 2 <= |s.log|
    ensures var n := |Bytes(s.log[0])|;
      && n == HDR_LEN + HeaderAt(s.mem, 0).len == HDR_LEN + |s.log[0].payload| && HeaderAt(s.mem, 0) == s.log[0].h
      && 0 < n < |s.mem| && |s.mem| == n + |LogBytes(s.log[1..])| && Tiled(s.mem, n, |LogBytes(s.log[1..])|, s.log[1..])
      && Wrap(0 + n, |s.mem|) == n && Wrap(n + |LogBytes(s.log[1..])|, |s.mem|) == 0
  {
    TiledPop(s.mem, 0, s.log);
    LongEnough(s.log);
    assert s.log[0].Ok() by {
      assert s.log[0] in s.log;
    }
    var n := |Bytes(s.log[0])|;
    WrapBelowTwice(n, |s.mem|);
    WrapBelowTwice(|s.mem|, |s.mem|);
    hide LogBytes, Window, HeaderAt, Wrap;
  }

  lemma ReplaceRun(s: Sys, r: Record, c: Clauses) returns (run: seq<Sys>)
    requires Full(s) && 2 <= |s.log| && r.Ok() && r.h.seqno == |s.log| + 1 < U32_MAX
    requires |Bytes(r)| == |Bytes(s.log[0])| && (c.stale ==> !MagicOk(s.log[0].h.magic))
    ensures Path(run, c) && run[0] == s && run[|run| - 1] == Replaced(s, r)
  {
    FullIdle(s, r);
    FullFirst(s);
    hide *;
    var n := |Bytes(s.log[0])|;
    var a := PopRun(s, r, n, c);
    var t := a[|a| - 1];
    var b := PublishRun(t, r, c);
    ReplacedIs(s, r, t);
    PathJoin(a, b, c);
    run := a + b[1..];
  }

  lemma FullIdle(s: Sys, r: Record)
    requires Full(s) && r.h.seqno == |s.log| + 1 < U32_MAX
    ensures s.w == Idle && Calm(s.p) && !Polling(s.p) && 0 < |s.mem| == s.valid && r.h.seqno == NextSeq(s.newest)
    ensures s.tail == 0 && s.head == 0 && s.p == Asleep && s.written == s.log
  {
    hide Tiled;
  }

  lemma ReplacedIs(s: Sys, r: Record, t: Sys)
    requires s.log != [] && |s.mem| == s.valid && 0 < |s.mem| && s.head == 0 && |Bytes(r)| == |Bytes(s.log[0])|
    requires var n := |Bytes(s.log[0])|;
      && Wrap(0 + n, |s.mem|) == n && Wrap(n + |LogBytes(s.log[1..])|, |s.mem|) == 0
      && t == s.(valid := s.valid - n, tail := n, log := s.log[1..], w := MakeRoom(r))
    ensures Published(t, r) == Replaced(s, r) && Behind(t) == 0 == Behind(Replaced(s, r))
  {
    hide LogBytes, Wrap, Bytes;
  }

  // ---------- the reader walks past the other records ----------

  /** Records the walk goes past or delivers. */
  ghost predicate Passable(rest: seq<Record>, newest: u32) {
    forall r | r in rest :: MagicOk(r.h.magic) && r.h.len <= MAXPAY && r.h.seqno != newest
  }

  /** A header read and walked past. */
  lemma PassRun(s: Sys, h: Header, c: Clauses) returns (run: seq<Sys>)
    requires 0 < |s.mem| && s.p.Walking? && s.p.head == [] && HDR_LEN < s.p.left && (c.stale ==> StaleFails(s))
    requires HeaderAt(s.mem, s.p.off) == h && Accepted(h, s.p.left, s.p.newest)
    ensures Path(run, c) && run[0] == s
    ensures run[|run| - 1] == s.(p := Walking(s.p.newest, s.p.index + 1, Wrap(s.p.off + HDR_LEN + h.len, |s.mem|),
                                              s.p.left - (HDR_LEN + h.len), []))
  {
    hide *;
    var head := Window(s.mem, s.p.off, HDR_LEN);
    HeaderAtIs(s.mem, s.p.off);
    var u := s.(p := Walking(s.p.newest, s.p.index + 1, Wrap(s.p.off + HDR_LEN + h.len, |s.mem|),
                             s.p.left - (HDR_LEN + h.len), []));
    assert [] + head == head;
    DecideStep(s.(p := s.p.(head := head)), u);
    run := DecideRun(s, head, u, c);
  }

  lemma {:induction false} PassAll(s: Sys, rest: seq<Record>, left: nat, c: Clauses) returns (run: seq<Sys>)
    requires s.p.Walking? && s.p.head == [] && 0 < left && s.p.left == |LogBytes(rest)| + left
    requires Tiled(s.mem, s.p.off, |LogBytes(rest)|, rest) && Passable(rest, s.p.newest) && (c.stale ==> StaleFails(s))
    ensures Path(run, c) && run[0] == s
    ensures run[|run| - 1] == s.(p := Walking(s.p.newest, s.p.index + |rest|,
                                              Wrap(s.p.off + |LogBytes(rest)|, |s.mem|), left, []))
    decreases |rest|
  {
    hide *;
    if rest == [] {
      EmptyLogBytes();
      TiledInside(s.mem, s.p.off, rest);
      WrapBelowTwice(s.p.off, |s.mem|);
      PathOfOne(s, c);
      run := [s];
    } else {
      var h, off := rest[0].h, s.p.off;
      TiledInside(s.mem, off, rest);
      PassableFirst(rest, left, s.p.newest);
      TiledPop(s.mem, off, rest);
      var a := PassRun(s, h, c);
      var t := a[|a| - 1];
      StalePoll(s, t);
      var b := PassAll(t, rest[1..], left, c);
      HeadMoves(off, HDR_LEN + h.len, |LogBytes(rest[1..])|, |s.mem|);
      assert off + HDR_LEN + h.len == off + (HDR_LEN + h.len);
      PathJoin(a, b, c);
      run := a + b[1..];
    }
  }

  lemma TiledInside(mem: seq<byte>, off: nat, rest: seq<Record>)
    requires Tiled(mem, off, |LogBytes(rest)|, rest)
    ensures off < |mem| && (rest != [] ==> rest[0].Ok())
  {
    hide LogBytes, Window;
  }

  lemma PassableFirst(rest: seq<Record>, left: nat, newest: u32)
    requires rest != [] && Passable(rest, newest) && 0 < left && rest[0].Ok()
    ensures Accepted(rest[0].h, |LogBytes(rest)| + left, newest) && HDR_LEN < |LogBytes(rest)| + left
    ensures Passable(rest[1..], newest)
  {
    LongEnough(rest);
    assert rest[0] in rest;
    hide LogBytes, MagicOk;
  }

  /** From the load of the tail to the bytes of the dropped record. */
  lemma ReachDropped(s: Sys, r: Record, c: Clauses) returns (run: seq<Sys>)
    requires Full(s) && 2 <= |s.log| && Passable(s.log[1..], r.h.seqno) && |Bytes(r)| == |Bytes(s.log[0])|
    requires c.stale ==> !MagicOk(s.log[0].h.magic)
    ensures Path(run, c) && run[0] == Replaced(s, r)
    ensures run[|run| - 1]
      == Replaced(s, r).(p := Walking(r.h.seqno, |s.log| - 1, 0, |Bytes(s.log[0])|, []))
  {
    hide *;
    FullFirst(s);
    FullSize(s);
    ReplacedParts(s, r);
    ReplacedStale(s, r, c);
    var m, n := Replaced(s, r), |Bytes(s.log[0])|;
    var front := LoadRun(m, c);
    var t := front[|front| - 1];
    StalePoll(m, t);
    var rest := PassAll(t, s.log[1..], n, c);
    PathJoin(front, rest, c);
    run := front + rest[1..];
  }

  lemma FullSize(s: Sys)
    requires Full(s)
    ensures 0 < |s.mem| == s.valid
  {
    hide Tiled;
  }

  lemma ReplacedParts(s: Sys, r: Record)
    requires Full(s) && s.log != []
    ensures var m, n := Replaced(s, r), |Bytes(s.log[0])|;
      && m.mem == s.mem && m.valid == |s.mem| && m.tail == n && m.log == s.log[1..] && m.newest == r.h.seqno
      && m.w == CopyHeader(r, 0, 0) && SeqPublished(m.w) && m.p == Asleep && m.written == s.log
  {
    hide Tiled, Bytes;
  }

  lemma ReplacedStale(s: Sys, r: Record, c: Clauses)
    requires Full(s) && 2 <= |s.log| && (c.stale ==> !MagicOk(s.log[0].h.magic))
    ensures Behind(Replaced(s, r)) == 0 && (c.stale ==> StaleFails(Replaced(s, r)))
  {
    FullFirst(s);
    hide Full, LogBytes, Wrap, HeaderAt, Bytes, MagicOk, Tiled;
  }

  // ---------- what is delivered ----------

  /** The ring once r stands where the first record was. */
  lemma Covered(mem: seq<byte>, r: Record)
    requires |Bytes(r)| <= |mem| && r.Ok()
    ensures 0 < |mem| && HDR_LEN <= |mem|
    ensures var end := Stored(Stored(mem, 0, Image(r.h)), Wrap(0 + HDR_LEN, |mem|), r.payload);
      Window(end, 0 + 8, HDR_LEN - 8) == Image(r.h)[8..] && Window(end, 0 + HDR_LEN, r.h.len) == r.payload
  {
    var a, b := Image(r.h), r.payload;
    WrapBelowTwice(0, |mem|);
    TwoStoresWindow(mem, 0, 0, a, b);
    EmptyWindow(mem, 0);
    var end := TwoStores(mem, 0, 0, a, b);
    hide Window, Image, Wrap, Stored;
    assert [] + a + b == a + b;
    hide TwoStores;
    WindowPart(end, 0, |a| + |b|, 8, HDR_LEN);
    WindowPart(end, 0, |a| + |b|, HDR_LEN, |a| + |b|);
    WindowWrapped(end, 0 + 8, HDR_LEN - 8);
    WindowWrapped(end, 0 + HDR_LEN, |b|);
    assert (a + b)[8..HDR_LEN] == a[8..] && (a + b)[HDR_LEN..|a| + |b|] == b;
  }

  lemma WindowWrapped(mem: seq<byte>, off: nat, n: nat)
    requires 0 < |mem|
    ensures Window(mem, Wrap(off, |mem|), n) == Window(mem, off, n)
  {
    var w, v := Window(mem, Wrap(off, |mem|), n), Window(mem, off, n);
    forall i | 0 <= i < n ensures w[i] == v[i] {
      WrapShift(off, i, |mem|);
    }
  }

  /** The first 8 bytes of one header and the rest of another: length and number of the one, all else of the other. */
  lemma Mixed(g: Header, h: Header)
    ensures Decode(Image(g)[..8] + Image(h)[8..]) == h.(len := g.len, seqno := g.seqno)
  {
    var b, x := Image(g)[..8] + Image(h)[8..], h.(len := g.len, seqno := g.seqno);
    forall i | 0 <= i < HDR_LEN ensures b[i] == Image(x)[i] {
    }
    ImageIffDecode(b, x);
    hide Image, Decode;
    assert b == Image(x);
  }

  /** The reader has walked past the other records and stands at the dropped one. */
  function AtDropped(s: Sys, r: Record): Sys
    requires s.log != []
  {
    Replaced(s, r).(p := Walking(r.h.seqno, |s.log| - 1, 0, |Bytes(s.log[0])|, []))
  }

  lemma AtDroppedParts(s: Sys, r: Record)
    requires Full(s) && 2 <= |s.log| && r.Ok() && |Bytes(r)| == |Bytes(s.log[0])|
    ensures var m, x := AtDropped(s, r), s.log[0];
      && m.mem == s.mem && m.w == CopyHeader(r, 0, 0) && Behind(m) == 0 && m.written == s.log && m.newest == r.h.seqno
      && m.p == Walking(r.h.seqno, |s.log| - 1, 0, |Bytes(x)|, []) && HeaderAt(s.mem, 0) == x.h
      && |Bytes(x)| == HDR_LEN + x.h.len && x.h.len == r.h.len && |Bytes(r)| <= |s.mem| && 0 < |s.mem|
      && HDR_LEN <= |s.mem|
    ensures !MagicOk(s.log[0].h.magic) ==> StaleFails(AtDropped(s, r))
  {
    FullFirst(s);
    ReplacedParts(s, r);
    ReplacedStale(s, r, ALL.(stale := false));
    assert s.log[0].Ok() by {
      assert s.log[0] in s.log;
    }
    hide Full, LogBytes, Wrap, HeaderAt, MagicOk, Tiled;
  }

  /** The reader reads 8 bytes of the old header, the writer copies its record, the reader reads on. */
  lemma MixRun(s: Sys, r: Record, c: Clauses) returns (run: seq<Sys>)
    requires Full(s) && 2 <= |s.log| && r.Ok() && |Bytes(r)| == |Bytes(s.log[0])| && 0 < r.h.len
    requires !c.header && !MagicOk(s.log[0].h.magic)
    requires MagicOk(r.h.magic) && r.h.len <= MAXPAY && s.log[0].h.seqno != r.h.seqno
    ensures Path(run, c) && run[0] == AtDropped(s, r)
    ensures var t := run[|run| - 1];
      t.p == Finished(Some(Record(r.h.(seqno := s.log[0].h.seqno), r.payload))) && t.written == s.log + [r]
  {
    hide *;
    var x, m := s.log[0], AtDropped(s, r);
    AtDroppedParts(s, r);
    Lengths(r);
    ImageOfHeader(s.mem, 0, x.h);
    WindowFront(s.mem, 0, 8, HDR_LEN);
    var a := HeadRun(m, 8, c);
    var m8 := m.(p := m.p.(head := Image(x.h)[..8]));
    assert [] + Image(x.h)[..8] == Image(x.h)[..8];
    BehindKept(m, m8);
    var b := RecordRun(m8, r, 0, c);
    var e := b[|b| - 1];
    Covered(s.mem, r);
    IdleFails(e);
    Mixed(x.h, r.h);
    var head, h := Image(x.h)[..8] + Image(r.h)[8..], r.h.(seqno := x.h.seqno);
    AcceptedIs(h, |Bytes(x)|, r.h.seqno);
    var d := TakeRun(e, head, c);
    var f := d[|d| - 1];
    IdleFails(f);
    EmptyWindow(f.mem, 0 + HDR_LEN);
    var g := ReadRun(f, c);
    PathJoin(a, b, c);
    PathJoin(a + b[1..], d, c);
    PathJoin(a + b[1..] + d[1..], g, c);
    run := a + b[1..] + d[1..] + g[1..];
  }

  lemma Lengths(r: Record)
    requires r.Ok()
    ensures HDR_LEN == 26 && r.h.len == |r.payload| && |Bytes(r)| == HDR_LEN + |r.payload|
  {
  }

  lemma BehindKept(s: Sys, t: Sys)
    requires 0 < |s.mem| && t == s.(p := t.p)
    ensures Behind(t) == Behind(s)
  {
    hide LogBytes, Wrap;
  }

  lemma IdleFails(s: Sys)
    requires 0 < |s.mem| && s.w == Idle
    ensures StaleFails(s)
  {
  }

  lemma AcceptedIs(h: Header, left: int, newest: u32)
    requires MagicOk(h.magic) && HDR_LEN + h.len <= left && h.len <= MAXPAY && h.seqno != newest
    ensures Accepted(h, left, newest)
  {
    hide MagicOk;
  }

  /** The reader takes the old header, the writer copies its record, the reader copies that record's payload. */
  lemma StaleRun(s: Sys, r: Record, c: Clauses) returns (run: seq<Sys>)
    requires Full(s) && 2 <= |s.log| && r.Ok() && |Bytes(r)| == |Bytes(s.log[0])| && 0 < r.h.len
    requires !c.stale && MagicOk(s.log[0].h.magic) && r.h.len <= MAXPAY && s.log[0].h.seqno != r.h.seqno
    ensures Path(run, c) && run[0] == AtDropped(s, r)
    ensures var t := run[|run| - 1];
      t.p == Finished(Some(Record(s.log[0].h, r.payload))) && t.written == s.log + [r]
  {
    hide *;
    var x, m := s.log[0], AtDropped(s, r);
    AtDroppedParts(s, r);
    Lengths(r);
    ImageOfHeader(s.mem, 0, x.h);
    ImageIffDecode(Image(x.h), x.h);
    assert [] + Image(x.h) == Image(x.h);
    AcceptedIs(x.h, |Bytes(x)|, r.h.seqno);
    var a := TakeRun(m, Image(x.h), c);
    var m2 := a[|a| - 1];
    CalmCopying(m2.p);
    BehindKept(m, m2);
    var b := RecordRun(m2, r, 0, c);
    var e := b[|b| - 1];
    Covered(s.mem, r);
    EmptyWindow(e.mem, 0 + HDR_LEN);
    var g := ReadRun(e, c);
    PathJoin(a, b, c);
    PathJoin(a + b[1..], g, c);
    run := a + b[1..] + g[1..];
  }

  /** The records of the first filling, of which all but the first are acceptable, and one more of the first's size. */
  ghost predicate Lapped(size: nat, rs: seq<Record>, r: Record) {
    && 2 <= |rs| && |rs| + 1 < U32_MAX && |LogBytes(rs)| == size
    && (forall i | 0 <= i < |rs| :: rs[i].Ok() && rs[i].h.seqno == i + 1)
    && (forall i | 1 <= i < |rs| :: MagicOk(rs[i].h.magic) && rs[i].h.len <= MAXPAY)
    && r.Ok() && r.h.seqno == |rs| + 1 && |r.payload| == |rs[0].payload| && 0 < |r.payload| <= MAXPAY
  }

  /** From a fresh ring to the reader in front of the dropped record. */
  lemma LapRun(size: nat, rs: seq<Record>, r: Record, c: Clauses) returns (run: seq<Sys>, s: Sys)
    requires Lapped(size, rs, r) && (c.stale ==> !MagicOk(rs[0].h.magic))
    ensures Path(run, c) && Initial(run[0]) && |run[0].mem| == size
    ensures Full(s) && s.log == rs && run[|run| - 1] == AtDropped(s, r)
  {
    LapParts(size, rs, r);
    hide *;
    var a := FullRun(size, rs);
    s := a[|a| - 1];
    PathWeaken(a, c);
    var b := ReplaceRun(s, r, c);
    var d := ReachDropped(s, r, c);
    AtDroppedIs(s, r);
    PathJoin(a, b, c);
    PathJoin(a + b[1..], d, c);
    run := a + b[1..] + d[1..];
  }

  lemma LapParts(size: nat, rs: seq<Record>, r: Record)
    requires Lapped(size, rs, r)
    ensures 2 <= |rs| < U32_MAX && |rs| + 1 < U32_MAX && |LogBytes(rs)| == size && r.Ok() && r.h.seqno == |rs| + 1
    ensures forall i | 0 <= i < |rs| :: rs[i].Ok() && rs[i].h.seqno == i + 1
    ensures |Bytes(r)| == |Bytes(rs[0])| && Passable(rs[1..], r.h.seqno)
    ensures 0 < r.h.len <= MAXPAY && rs[0].h.seqno == 1 != r.h.seqno
  {
    hide LogBytes, MagicOk;
    forall x | x in rs[1..] ensures MagicOk(x.h.magic) && x.h.len <= MAXPAY && x.h.seqno != r.h.seqno {
      var i :| 0 <= i < |rs[1..]| && rs[1..][i] == x;
      assert rs[i + 1] == x;
    }
  }

  lemma AtDroppedIs(s: Sys, r: Record)
    requires s.log != []
    ensures AtDropped(s, r) == Replaced(s, r).(p := Walking(r.h.seqno, |s.log| - 1, 0, |Bytes(s.log[0])|, []))
  {
  }

  /** Without the stale clause the claim fails, the other three kept at every step, in a ring of any size: fill a fresh
      ring to the last byte, let the writer drop the oldest record and number one of its size, and let a poll that
      starts then reach the old header before the new one is copied over it. What is delivered is the old header with
      the new payload. Nobody wrote it. */
  lemma TearWithoutStaleClause(size: nat, rs: seq<Record>, r: Record) returns (run: seq<Sys>)
    requires Lapped(size, rs, r) && MagicOk(rs[0].h.magic) && r.payload != rs[0].payload
    ensures Path(run, ALL.(stale := false)) && Initial(run[0]) && |run[0].mem| == size
    ensures var x, t := Record(rs[0].h, r.payload), run[|run| - 1]; t.p == Finished(Some(x)) && x !in t.written
  {
    LapParts(size, rs, r);
    hide Lapped, MagicOk, LogBytes, Path, Initial, Full, AtDropped;
    var c := ALL.(stale := false);
    var a, s := LapRun(size, rs, r, c);
    var b := StaleRun(s, r, c);
    PathJoin(a, b, c);
    run := a + b[1..];
    forall y | y in rs + [r] ensures y != Record(rs[0].h, r.payload) {
      if y.h.seqno == 1 {
        assert y == rs[0];
      }
    }
  }

  /** Without the header clause it fails too, the other three kept: the old header fails the magic test, but a poll
      that has read its length and number when the new header is copied reads the new magic behind them. What is
      delivered is the new record under the dropped one's number. Nobody wrote it. */
  lemma TearWithoutHeaderClause(size: nat, rs: seq<Record>, r: Record) returns (run: seq<Sys>)
    requires Lapped(size, rs, r) && !MagicOk(rs[0].h.magic) && MagicOk(r.h.magic)
    ensures Path(run, ALL.(header := false)) && Initial(run[0]) && |run[0].mem| == size
    ensures var x, t := Record(r.h.(seqno := 1), r.payload), run[|run| - 1];
      t.p == Finished(Some(x)) && x !in t.written
  {
    LapParts(size, rs, r);
    hide Lapped, MagicOk, LogBytes, Path, Initial, Full, AtDropped;
    var c := ALL.(header := false);
    var a, s := LapRun(size, rs, r, c);
    var b := MixRun(s, r, c);
    PathJoin(a, b, c);
    run := a + b[1..];
    forall y | y in rs + [r] ensures y != Record(r.h.(seqno := 1), r.payload) {
      if y.h.seqno == 1 {
        assert y == rs[0];
      }
    }
  }
}
