/** The step system against the programs it splits up: one side running alone does what the ring's write and the
    reader's walk do in one go. */
module StepsAlone {
  import opened Words
  import opened Records
  import opened RingWriter
  import opened RingReader
  import opened Tearing
  import opened Interference

  const FREE: Clauses := Clauses(false, false, false, false)

  lemma FreeIs()
    ensures !FREE.tail && !FREE.stale && !FREE.newest && !FREE.header
  {
  }

  // ---------- the writer ----------

  lemma FullRingHasOne(s: Sys, r: Record)
    requires WriterInv(s) && s.w == MakeRoom(r) && |s.mem| < s.valid + |Bytes(r)|
    ensures s.log != [] && s.valid == |LogBytes(s.log)| && HDR_LEN + HeaderAt(s.mem, s.tail).len == |Bytes(s.log[0])|
    ensures FewestDrop(s.log, |s.mem| - |Bytes(r)|) == 1 + FewestDrop(s.log[1..], |s.mem| - |Bytes(r)|)
  {
    hide LogBytes, Window, HeaderAt, Wrap, Bytes;
    if s.log == [] {
      EmptyLogBytes();
    } else {
      BytesPop(s.mem, s.tail, s.log);
    }
  }

  lemma Fits(s: Sys, r: Record)
    requires WriterInv(s) && s.w == MakeRoom(r) && s.valid + |Bytes(r)| <= |s.mem|
    ensures s.valid == |LogBytes(s.log)| && FewestDrop(s.log, |s.mem| - |Bytes(r)|) == 0
    ensures s.head == Behind(s) == Wrap(s.tail + |LogBytes(s.log)|, |s.mem|) && s.head < |s.mem|
  {
    hide LogBytes, Window, HeaderAt, Wrap, Bytes;
  }

  /** What making room leaves alone. */
  ghost predicate Roomier(s: Sys, t: Sys) {
    t == s.(valid := t.valid, tail := t.tail, log := t.log)
  }

  /** Making room drops the fewest oldest records. */
  lemma {:induction false} RoomRun(s: Sys, r: Record) returns (run: seq<Sys>)
    requires WriterInv(s) && s.w == MakeRoom(r) && Calm(s.p) && |Bytes(r)| <= |s.mem|
    ensures Path(run, FREE) && run[0] == s
    ensures var t := run[|run| - 1];
      && WriterInv(t) && Roomier(s, t) && t.valid + |Bytes(r)| <= |s.mem|
      && t.log == s.log[FewestDrop(s.log, |s.mem| - |Bytes(r)|)..]
    decreases |s.log|
  {
    hide *;
    FreeIs();
    InvNonempty(s);
    if s.valid + |Bytes(r)| <= |s.mem| {
      Fits(s, r);
      assert s.log[0..] == s.log;
      run := [s];
      PathOfOne(s, FREE);
      StaysRoomy(s);
    } else {
      FullRingHasOne(s, r);
      var n := HDR_LEN + HeaderAt(s.mem, s.tail).len;
      var a := s.(valid := s.valid - n, w := StoreTail(r, n));
      var b := a.(tail := Wrap(a.tail + n, |a.mem|), log := a.log[1..], w := MakeRoom(r));
      PopStep(s, r, n, FREE);
      TailStep(a, r, n, FREE);
      PopSteps(s, r, n);
      var rest := RoomRun(b, r);
      PathStep(a, rest, FREE);
      PathStep(s, [a] + rest, FREE);
      run := [s] + ([a] + rest);
      Roomiest(s, b, rest[|rest| - 1]);
      var k := FewestDrop(b.log, |s.mem| - |Bytes(r)|);
      assert s.log[1..][k..] == s.log[1 + k..];
    }
  }

  lemma InvNonempty(s: Sys)
    requires WriterInv(s)
    ensures 0 < |s.mem|
  {
    hide BytesInv, FieldInv;
  }

  lemma StaysRoomy(s: Sys)
    ensures Roomier(s, s)
  {
  }

  lemma Roomiest(s: Sys, b: Sys, t: Sys)
    requires b == s.(valid := b.valid, tail := b.tail, log := b.log) && Roomier(b, t)
    ensures Roomier(s, t)
  {
  }

  lemma PopSteps(s: Sys, r: Record, n: nat)
    requires WriterInv(s) && s.w == MakeRoom(r) && |s.mem| < s.valid + |Bytes(r)| && s.log != []
    requires n == HDR_LEN + HeaderAt(s.mem, s.tail).len
    ensures var a := s.(valid := s.valid - n, w := StoreTail(r, n));
      WriterInv(a) && WriterInv(a.(tail := Wrap(a.tail + n, |a.mem|), log := a.log[1..], w := MakeRoom(r)))
  {
    var a := s.(valid := s.valid - n, w := StoreTail(r, n));
    var b := a.(tail := Wrap(a.tail + n, |a.mem|), log := a.log[1..], w := MakeRoom(r));
    assert WriterStep(s, a) && WriterStep(a, b) by {
      hide HeaderAt, WriterInv, Bytes, Wrap;
    }
    hide WriterStep, WriterInv, HeaderAt, Bytes, Wrap;
    WriterKeepsWriterInv(s, a);
    WriterKeepsWriterInv(a, b);
  }

  /** The stores and the copies, from a ring with room. */
  lemma StoreRun(s: Sys, r: Record) returns (run: seq<Sys>)
    requires WriterInv(s) && s.w == MakeRoom(r) && Calm(s.p) && s.valid + |Bytes(r)| <= |s.mem|
    ensures 0 < |s.mem| && Path(run, FREE) && run[0] == s && run[|run| - 1] == Appended(s, r)
  {
    hide *;
    FreeIs();
    InvNonempty(s);
    Fits(s, r);
    CalmIdle(s.p);
    var at, n, size := s.head, |LogBytes(s.log)|, |s.mem|;
    var a := PublishRun(s, r, FREE);
    PublishedParts(s, r);
    var b := RecordRun(a[|a| - 1], r, at, FREE);
    HeadMoves(s.tail, n, HDR_LEN, size);
    AppendedIs(s, r, at, Wrap(at + HDR_LEN, size));
    PathJoin(a, b, FREE);
    run := a + b[1..];
  }

  lemma CalmIdle(p: Poll)
    requires Calm(p)
    ensures !p.HasValid?
  {
  }

  /** A write alone: from any state between writes the writer's steps come to the ring that Ring.Write computes. The
      log loses the fewest oldest records and gains the new one, the bytes are stored right behind what survives, and
      head, newest and valid are as the contract of Ring.Write has them. */
  lemma WriteAlone(s: Sys, r: Record) returns (run: seq<Sys>)
    requires WriterInv(s) && s.w == Idle && Calm(s.p)
    requires r.Ok() && |Bytes(r)| <= |s.mem| && r.h.seqno == NextSeq(s.newest)
    ensures Path(run, FREE) && run[0] == s && 0 < |s.mem|
    ensures var t, entry := run[|run| - 1], |Bytes(r)|;
      var kept := s.log[FewestDrop(s.log, |s.mem| - entry)..];
      && t.w == Idle && t.p == s.p && t.log == kept + [r] && t.written == s.written + [r]
      && t.newest == NextSeq(s.newest) && t.head == Wrap(s.head + entry, |s.mem|)
      && t.valid == |LogBytes(kept)| + entry
      && t.mem == TwoStores(s.mem, t.tail, |LogBytes(kept)|, Image(r.h), r.payload)
  {
    hide *;
    FreeIs();
    InvNonempty(s);
    var m := s.(w := MakeRoom(r));
    StartStep(s, r, FREE);
    StartInv(s, r);
    var a := RoomRun(m, r);
    var u := a[|a| - 1];
    StillRoom(m, u, r);
    var b := StoreRun(u, r);
    PathJoin(a, b, FREE);
    var rest := a + b[1..];
    PathStep(s, rest, FREE);
    run := [s] + rest;
    AppendedParts(u, r);
  }

  lemma StartInv(s: Sys, r: Record)
    requires WriterInv(s) && s.w == Idle && r.Ok() && |Bytes(r)| <= |s.mem| && r.h.seqno == NextSeq(s.newest)
    ensures WriterInv(s.(w := MakeRoom(r)))
  {
    var t := s.(w := MakeRoom(r));
    assert WriterStep(s, t) by {
      hide WriterInv, Bytes, NextSeq;
    }
    hide WriterStep, WriterInv, Bytes;
    WriterKeepsWriterInv(s, t);
  }

  lemma StillRoom(m: Sys, u: Sys, r: Record)
    requires WriterInv(u) && Roomier(m, u) && m.w == MakeRoom(r) && u.valid + |Bytes(r)| <= |m.mem|
    ensures u.w == MakeRoom(r) && u.p == m.p && u.mem == m.mem && u.head == m.head && u.newest == m.newest
    ensures u.written == m.written && u.valid == |LogBytes(u.log)| && 0 < |u.mem|
  {
    hide BytesInv, LogBytes, Bytes, Wrap;
  }

  lemma AppendedParts(u: Sys, r: Record)
    requires 0 < |u.mem|
    ensures var t := Appended(u, r);
      && t.w == Idle && t.p == u.p && t.log == u.log + [r] && t.written == u.written + [r] && t.tail == u.tail
      && t.newest == r.h.seqno && t.head == Wrap(u.head + |Bytes(r)|, |u.mem|) && t.valid == u.valid + |Bytes(r)|
      && t.mem == TwoStores(u.mem, u.tail, |LogBytes(u.log)|, Image(r.h), r.payload)
  {
    hide Wrap, TwoStores, LogBytes, Bytes;
  }

  // ---------- the reader ----------

  /** With a header read, the step system stops exactly where the walk does. */
  lemma StopsAlike(s: Sys, t: Sys)
    requires 0 < |s.mem| && s.p.Walking? && |s.p.head| == HDR_LEN < s.p.left < 0x1_0000_0000 && ReaderStep(s, t)
    ensures t.p == Finished(None) <==> Stops(Decode(s.p.head), s.p.left, s.p.newest)
    ensures t == s.(p := t.p)
  {
    assert s.p.head[..HDR_LEN] == s.p.head;
    hide Decode, MagicOk, Wrap;
  }

  lemma GoesOn(s: Sys, h: Header, t: Sys)
    requires 0 < |s.mem| && s.p.Walking? && |s.p.head| == HDR_LEN < s.p.left < 0x1_0000_0000 && h == Decode(s.p.head)
    requires !Stops(h, s.p.left, s.p.newest) && t == s.(p := t.p)
    requires || t.p == Copying(h, s.p.index, s.p.off, [])
             || t.p == Walking(s.p.newest, s.p.index, s.p.off, s.p.left, [])
             || t.p == Walking(s.p.newest, s.p.index + 1, Wrap(s.p.off + HDR_LEN + h.len, |s.mem|),
                               s.p.left - (HDR_LEN + h.len), [])
    ensures ReaderStep(s, t)
  {
    assert s.p.head[..HDR_LEN] == s.p.head;
    hide Decode, MagicOk, Wrap;
  }

  lemma Ends(s: Sys)
    requires 0 < |s.mem| && s.p.Walking?
    requires s.p.left <= HDR_LEN || (|s.p.head| == HDR_LEN && s.p.left < 0x1_0000_0000
                                     && Stops(Decode(s.p.head), s.p.left, s.p.newest))
    ensures ReaderStep(s, s.(p := Finished(None)))
  {
    if HDR_LEN < s.p.left {
      assert s.p.head[..HDR_LEN] == s.p.head;
    }
    hide Decode, MagicOk, Wrap;
  }

  lemma PollStep(s: Sys, t: Sys)
    requires 0 < |s.mem| && ReaderStep(s, t) && t == s.(p := t.p)
    ensures Linked(s, t, FREE)
  {
    hide ReaderStep, WriterStep, HeaderAt, LogBytes, MagicOk;
  }

  /** One step, and what follows it. */
  lemma StepThen(s: Sys, t: Sys, rest: seq<Sys>) returns (run: seq<Sys>)
    requires 0 < |s.mem| && ReaderStep(s, t) && t == s.(p := t.p) && Path(rest, FREE) && rest[0] == t
    ensures Path(run, FREE) && run[0] == s && run[|run| - 1] == rest[|rest| - 1]
  {
    hide *;
    PollStep(s, t);
    PathStep(s, rest, FREE);
    run := [s] + rest;
  }

  /** Where the walk stands when it meets the header at off. */
  function AtHeader(s: Sys, i: nat, off: nat, left: u32, newest: u32): Sys {
    s.(p := Walking(newest, i, off, left, []))
  }

  /** The header read, byte by byte. */
  lemma ReadHeaderRun(s: Sys, i: nat, off: nat, left: u32, newest: u32) returns (run: seq<Sys>)
    requires 0 < |s.mem| && HDR_LEN < left
    ensures Path(run, FREE) && run[0] == AtHeader(s, i, off, left, newest)
    ensures run[|run| - 1] == s.(p := Walking(newest, i, off, left, Window(s.mem, off, HDR_LEN)))
  {
    FreeIs();
    var t := AtHeader(s, i, off, left, newest);
    hide Window, Path, FREE;
    assert [] + Window(s.mem, off + 0, HDR_LEN - 0) == Window(s.mem, off, HDR_LEN);
    run := HeadRun(t, HDR_LEN, FREE);
  }

  /** The payload read, byte by byte. */
  lemma DeliverRun(s: Sys, h: Header, i: nat, off: nat) returns (run: seq<Sys>)
    requires 0 < |s.mem|
    ensures Path(run, FREE) && run[0] == s.(p := Copying(h, i, off, []))
    ensures run[|run| - 1]
         == s.(p := Finished(Some(Record(h, Window(s.mem, Wrap(off + HDR_LEN, |s.mem|), h.len)))))
  {
    FreeIs();
    WindowNormal(s.mem, off + HDR_LEN, h.len);
    EmptyWindow(s.mem, off + HDR_LEN);
    hide Window, Path, FREE, Wrap;
    run := ReadRun(s.(p := Copying(h, i, off, [])), FREE);
  }

  /** From a header on, the steps come to what the walk comes to. */
  lemma {:induction false} WalkRun(s: Sys, i: nat, off: nat, left: u32, newest: u32, cursor: u32, filter: u16)
    returns (run: seq<Sys>)
    requires 0 < |s.mem|
    ensures Path(run, FREE) && run[0] == AtHeader(s, i, off, left, newest)
    ensures run[|run| - 1] == s.(p := Finished(Walk(s.mem, off, left, newest, cursor, filter).hit))
    decreases left, Jumps(s.mem, off, cursor)
  {
    hide *;
    var h := HeaderAt(s.mem, off);
    WalkBranches(s.mem, off, left, newest, cursor, filter);
    WalkTest(h, left, newest);
    var t := AtHeader(s, i, off, left, newest);
    AtHeaderIs(s, i, off, left, newest);
    HeaderBytes();
    if left <= HDR_LEN {
      run := EndRun(t);
    } else {
      var front := ReadHeaderRun(s, i, off, left, newest);
      var u := s.(p := Walking(newest, i, off, left, Window(s.mem, off, HDR_LEN)));
      HeaderWindow(s.mem, off);
      var rest: seq<Sys>;
      if Stops(h, left, newest) {
        rest := EndRun(u);
      } else if !Wanted(cursor, filter, h) {
        var n := HDR_LEN + h.len;
        var next := WalkRun(s, i + 1, Wrap(off + n, |s.mem|), left - n, newest, cursor, filter);
        AtHeaderIs(s, i + 1, Wrap(off + n, |s.mem|), left - n, newest);
        assert off + HDR_LEN + h.len == off + n;
        GoesOn(u, h, next[0]);
        rest := StepThen(u, next[0], next);
      } else if JUMP_GAP < Gap(h.seqno, cursor) {
        var next := WalkRun(s, i, off, left, newest, Low32(h.seqno - 1), filter);
        GoesOn(u, h, t);
        rest := StepThen(u, t, next);
      } else {
        var next := DeliverRun(s, h, i, off);
        GoesOn(u, h, next[0]);
        rest := StepThen(u, next[0], next);
      }
      PathJoin(front, rest, FREE);
      run := front + rest[1..];
    }
  }

  lemma HeaderBytes()
    ensures HDR_LEN == 26
  {
  }

  lemma HeaderWindow(mem: seq<byte>, off: nat)
    requires 0 < |mem|
    ensures Decode(Window(mem, off, HDR_LEN)) == HeaderAt(mem, off)
  {
  }

  lemma WalkTest(h: Header, left: u32, newest: u32)
    ensures Stops(h, left, newest)
      <==> !MagicOk(h.magic) || left < Low32(HDR_LEN + h.len) || MAXPAY < h.len || h.seqno == newest
  {
  }

  lemma AtHeaderIs(s: Sys, i: nat, off: nat, left: u32, newest: u32)
    ensures AtHeader(s, i, off, left, newest) == s.(p := Walking(newest, i, off, left, []))
  {
  }

  lemma EndRun(s: Sys) returns (run: seq<Sys>)
    requires 0 < |s.mem| && s.p.Walking?
    requires s.p.left <= HDR_LEN || (|s.p.head| == HDR_LEN && s.p.left < 0x1_0000_0000
                                     && Stops(Decode(s.p.head), s.p.left, s.p.newest))
    ensures Path(run, FREE) && run[0] == s && run[|run| - 1] == s.(p := Finished(None))
  {
    hide *;
    var t := s.(p := Finished(None));
    Ends(s);
    PathOfOne(t, FREE);
    run := StepThen(s, t, [t]);
  }

  /** A poll alone: on any memory, for any cursor and filter, the reader's steps can come to what the walk comes to. */
  lemma PollAlone(s: Sys, cursor: u32, filter: u16) returns (run: seq<Sys>)
    requires 0 < |s.mem| && s.p == Asleep && 0 <= s.valid < 0x1_0000_0000
    ensures Path(run, FREE) && run[0] == s
    ensures run[|run| - 1] == s.(p := Finished(Walk(s.mem, s.tail, s.valid, s.newest, cursor, filter).hit))
  {
    var s1 := s.(p := HasTail(s.tail));
    var s2 := s.(p := HasValid(s.tail, s.valid));
    var s3 := AtHeader(s, 0, s.tail, s.valid, s.newest);
    assert ReaderStep(s, s1) && ReaderStep(s1, s2) && ReaderStep(s2, s3);
    AtHeaderIs(s, 0, s.tail, s.valid, s.newest);
    hide *;
    run := WalkRun(s, 0, s.tail, s.valid, s.newest, cursor, filter);
    run := StepThen(s2, s3, run);
    run := StepThen(s1, s2, run);
    run := StepThen(s, s1, run);
  }
}
