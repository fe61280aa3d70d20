/** The lock-free reader: one poll of the ring, its meaning on raw memory, and its meaning on a log. */
module RingReader {
  import opened Words
  import opened Records
  import opened RingWriter

  const JUMP_GAP: u32 := 100
  const ERA_GAP: u32 := 10000

  /** What one walk from the tail comes to: the record copied out, if any, and the cursor it leaves. */
  datatype Outcome = Outcome(hit: Option<Record>, cursor: u32)

  /** The walk's distance measure for the live-edge jump. */
  function Gap(seqno: u32, cursor: u32): u32 {
    Low32(seqno - Low32(cursor + 1))
  }

  lemma JumpCloses(seqno: u32)
    ensures Gap(seqno, Low32(seqno - 1)) == 0
    ensures Fresh(Low32(seqno - 1), seqno) <==> seqno != 0
  {
    if seqno == 0 {
      assert Low32(seqno - 1) == U32_MAX && Low32(U32_MAX + 1) == 0;
    } else {
      assert Low32(seqno - 1) == seqno - 1 && Low32(seqno) == seqno;
    }
  }

  /** Is the record at off further ahead of the cursor than the jump threshold? */
  predicate Jumps(mem: seq<byte>, off: nat, cursor: u32)
    requires 0 < |mem|
  {
    JUMP_GAP < Gap(HeaderAt(mem, off).seqno, cursor)
  }

  predicate Stops(h: Header, left: u32, newest: u32) {
    !MagicOk(h.magic) || left < Low32(HDR_LEN + h.len) || MAXPAY < h.len || h.seqno == newest
  }

  /** The walk on arbitrary memory, live-edge jump included. */
  function Walk(mem: seq<byte>, off: nat, left: u32, newest: u32, cursor: u32, filter: u16): Outcome
    requires 0 < |mem|
    decreases left, Jumps(mem, off, cursor)
  {
    var h := HeaderAt(mem, off);
    if left <= HDR_LEN || Stops(h, left, newest) then
      Outcome(None, cursor)
    else if Wanted(cursor, filter, h) then
      if Jumps(mem, off, cursor) then
        JumpCloses(h.seqno);
        Walk(mem, off, left, newest, Low32(h.seqno - 1), filter)
      else
        Outcome(Some(Record(h, Window(mem, Wrap(off + HDR_LEN, |mem|), h.len))), h.seqno)
    else
      Walk(mem, Wrap(off + HDR_LEN + h.len, |mem|), left - (HDR_LEN + h.len), newest, cursor, filter)
  }

  /** The same walk with the jump branch removed. */
  function PlainWalk(mem: seq<byte>, off: nat, left: u32, newest: u32, cursor: u32, filter: u16): Outcome
    requires 0 < |mem|
    decreases left
  {
    var h := HeaderAt(mem, off);
    if left <= HDR_LEN || Stops(h, left, newest) then
      Outcome(None, cursor)
    else if Wanted(cursor, filter, h) then
      Outcome(Some(Record(h, Window(mem, Wrap(off + HDR_LEN, |mem|), h.len))), h.seqno)
    else
      PlainWalk(mem, Wrap(off + HDR_LEN + h.len, |mem|), left - (HDR_LEN + h.len), newest, cursor, filter)
  }

  /** One step of the walk, by cases. */
  lemma WalkStep(mem: seq<byte>, off: nat, left: u32, newest: u32, cursor: u32, filter: u16)
    requires 0 < |mem| && HDR_LEN < left && !Stops(HeaderAt(mem, off), left, newest)
    ensures var h := HeaderAt(mem, off);
      && (!Wanted(cursor, filter, h) ==>
        && HDR_LEN + h.len <= left
        && Walk(mem, off, left, newest, cursor, filter)
           == Walk(mem, Wrap(off + HDR_LEN + h.len, |mem|), left - (HDR_LEN + h.len), newest, cursor, filter)
        && PlainWalk(mem, off, left, newest, cursor, filter)
           == PlainWalk(mem, Wrap(off + HDR_LEN + h.len, |mem|), left - (HDR_LEN + h.len), newest, cursor, filter))
      && (Wanted(cursor, filter, h) ==>
        && PlainWalk(mem, off, left, newest, cursor, filter)
           == Outcome(Some(Record(h, Window(mem, Wrap(off + HDR_LEN, |mem|), h.len))), h.seqno)
        && Walk(mem, off, left, newest, cursor, filter)
           == if Jumps(mem, off, cursor) then Walk(mem, off, left, newest, Low32(h.seqno - 1), filter)
              else PlainWalk(mem, off, left, newest, cursor, filter))
  {
    hide HeaderAt, Window, Wanted, Jumps;
  }

  /** The walk's branches, in the order the loop tests them. */
  lemma WalkBranches(mem: seq<byte>, off: nat, left: u32, newest: u32, cursor: u32, filter: u16)
    requires 0 < |mem|
    ensures var h, w := HeaderAt(mem, off), Walk(mem, off, left, newest, cursor, filter);
      var n := HDR_LEN + h.len;
      && 0 < n
      && (if left <= HDR_LEN || !MagicOk(h.magic) || left < Low32(n) || MAXPAY < h.len || h.seqno == newest then
            w == Outcome(None, cursor)
          else if !Wanted(cursor, filter, h) then
            n <= left && w == Walk(mem, Wrap(off + n, |mem|), left - n, newest, cursor, filter)
          else if JUMP_GAP < Gap(h.seqno, cursor) then
            && Jumps(mem, off, cursor) && !Jumps(mem, off, Low32(h.seqno - 1))
            && w == Walk(mem, off, left, newest, Low32(h.seqno - 1), filter)
          else
            w == Outcome(Some(Record(h, Window(mem, Wrap(off + HDR_LEN, |mem|), h.len))), h.seqno))
  {
    hide HeaderAt, Window, Wanted, Gap;
    var h := HeaderAt(mem, off);
    if HDR_LEN < left && !Stops(h, left, newest) {
      WalkStep(mem, off, left, newest, cursor, filter);
      JumpedOnce(mem, off, h.seqno);
      assert off + (HDR_LEN + h.len) == off + HDR_LEN + h.len;
    }
  }

  lemma JumpedOnce(mem: seq<byte>, off: nat, seqno: u32)
    requires 0 < |mem| && HeaderAt(mem, off).seqno == seqno
    ensures !Jumps(mem, off, Low32(seqno - 1))
  {
    hide HeaderAt;
    JumpCloses(seqno);
  }

  /** Once the cursor is 0xFFFFFFFF the walk cannot end on cursor 0. */
  lemma {:induction false} NeverZeroAfterMax(mem: seq<byte>, off: nat, left: u32, newest: u32, filter: u16)
    requires 0 < |mem|
    ensures Walk(mem, off, left, newest, U32_MAX, filter).cursor != 0
    decreases left
  {
    hide HeaderAt, Window, Jumps, SubtypeMatch, ClassMatch;
    var h := HeaderAt(mem, off);
    if HDR_LEN < left && !Stops(h, left, newest) {
      WalkStep(mem, off, left, newest, U32_MAX, filter);
      if !Wanted(U32_MAX, filter, h) {
        NeverZeroAfterMax(mem, Wrap(off + HDR_LEN + h.len, |mem|), left - (HDR_LEN + h.len), newest, filter);
      } else {
        assert h.seqno != 0;
        DeliversAfterJump(mem, off, left, newest, U32_MAX, filter);
      }
    }
  }

  /** A wanted record with a nonzero sequence number is delivered, jump or not. */
  lemma DeliversAfterJump(mem: seq<byte>, off: nat, left: u32, newest: u32, cursor: u32, filter: u16)
    requires 0 < |mem| && HDR_LEN < left
    requires var h := HeaderAt(mem, off);
      !Stops(h, left, newest) && Wanted(cursor, filter, h) && h.seqno != 0
    ensures Walk(mem, off, left, newest, cursor, filter) == PlainWalk(mem, off, left, newest, cursor, filter)
    ensures Walk(mem, off, left, newest, cursor, filter).cursor == HeaderAt(mem, off).seqno
  {
    hide HeaderAt, Window, SubtypeMatch, ClassMatch, Fresh, Gap;
    var h := HeaderAt(mem, off);
    JumpCloses(h.seqno);
    WalkStep(mem, off, left, newest, cursor, filter);
    WalkStep(mem, off, left, newest, Low32(h.seqno - 1), filter);
  }

  /** A record numbered 0 is more than 100 ahead of every cursor but the last hundred or so. */
  lemma GapOfZero(cursor: u32)
    ensures JUMP_GAP < Gap(0, cursor) <==> cursor < 0xFFFF_FF9B
  {
  }

  /** On arbitrary memory and for every cursor, the jump changes nothing, except when the record
      to deliver carries sequence number 0, which the writer never uses. */
  lemma {:induction false} JumpIsInert(mem: seq<byte>, off: nat, left: u32, newest: u32, cursor: u32, filter: u16)
    requires 0 < |mem|
    ensures var plain := PlainWalk(mem, off, left, newest, cursor, filter);
      Walk(mem, off, left, newest, cursor, filter) == plain
      <==> !(plain.hit.Some? && plain.hit.value.h.seqno == 0 && cursor < 0xFFFF_FF9B)
    decreases left
  {
    GapOfZero(cursor);
    hide HeaderAt, Window, SubtypeMatch, ClassMatch, Fresh, Gap;
    var h := HeaderAt(mem, off);
    if HDR_LEN < left && !Stops(h, left, newest) {
      WalkStep(mem, off, left, newest, cursor, filter);
      if !Wanted(cursor, filter, h) {
        JumpIsInert(mem, Wrap(off + HDR_LEN + h.len, |mem|), left - (HDR_LEN + h.len), newest, cursor, filter);
      } else if h.seqno != 0 {
        DeliversAfterJump(mem, off, left, newest, cursor, filter);
      } else if Jumps(mem, off, cursor) {
        assert Low32(h.seqno - 1) == U32_MAX;
        NeverZeroAfterMax(mem, off, left, newest, filter);
      }
    }
  }

  // ---------- the walk on a log ----------

  /** All records but the newest, which may still be mid-copy. */
  function Older(log: seq<Record>): seq<Record> {
    if log == [] then [] else log[..|log| - 1]
  }

  /** The oldest record of log that a slot with this cursor and filter wants. */
  function FirstWanted(log: seq<Record>, cursor: u32, filter: u16): (r: Option<nat>)
    ensures r.Some? ==> r.value < |log| && Wanted(cursor, filter, log[r.value].h)
    ensures r.Some? ==> forall i | 0 <= i < r.value :: !Wanted(cursor, filter, log[i].h)
    ensures r.None? ==> forall x | x in log :: !Wanted(cursor, filter, x.h)
  {
    if log == [] then None
    else if Wanted(cursor, filter, log[0].h) then Some(0)
    else match FirstWanted(log[1..], cursor, filter)
      case Some(i) => Some(i + 1)
      case None => None
  }

  function LogWalk(log: seq<Record>, cursor: u32, filter: u16): Outcome {
    match FirstWanted(Older(log), cursor, filter)
    case Some(i) => Outcome(Some(Older(log)[i]), Older(log)[i].h.seqno)
    case None => Outcome(None, cursor)
  }

  /** A record the walk goes past: stored byte 11 is 0x6a, and there are at most 512 KiB of payload. */
  predicate Sound(r: Record) {
    Image(r.h)[11] == 0x6a && r.h.len <= 0x8_0000
  }

  ghost predicate Acceptable(log: seq<Record>) {
    forall r | r in log :: Sound(r)
  }

  lemma AcceptableFirst(log: seq<Record>)
    requires Acceptable(log) && log != []
    ensures Sound(log[0]) && Acceptable(log[1..])
  {
    hide Sound;
  }

  lemma SoundTests(r: Record)
    ensures Sound(r) <==> MagicOk(r.h.magic) && r.h.len <= MAXPAY
  {
    MagicOfImage(r.h);
    hide Image;
  }

  /** The records the walk can get to: older than the newest, with nothing unsound in front. */
  function Front(log: seq<Record>): seq<Record> {
    if |log| <= 1 || !Sound(log[0]) then [] else [log[0]] + Front(log[1..])
  }

  function FrontWalk(log: seq<Record>, cursor: u32, filter: u16): Outcome {
    match FirstWanted(Front(log), cursor, filter)
    case Some(i) => Outcome(Some(Front(log)[i]), Front(log)[i].h.seqno)
    case None => Outcome(None, cursor)
  }

  lemma FrontWalkStep(log: seq<Record>, cursor: u32, filter: u16)
    ensures |log| <= 1 || !Sound(log[0]) ==> FrontWalk(log, cursor, filter) == Outcome(None, cursor)
    ensures 1 < |log| && Sound(log[0]) ==>
      FrontWalk(log, cursor, filter)
      == if Wanted(cursor, filter, log[0].h) then Outcome(Some(log[0]), log[0].h.seqno)
         else FrontWalk(log[1..], cursor, filter)
  {
    hide Sound, Wanted;
    if 1 < |log| && Sound(log[0]) {
      var front, rest := Front(log), Front(log[1..]);
      assert front[0] == log[0] && front[1..] == rest;
    }
  }

  /** Which is all of them but the newest, where none is unsound. */
  lemma {:induction false} FrontOfSound(log: seq<Record>)
    requires forall r | r in Older(log) :: Sound(r)
    ensures Front(log) == Older(log)
  {
    if |log| <= 1 {
      hide Sound;
    } else {
      hide *;
      OlderFirst(log);
      FrontOfSound(log[1..]);
      OneOlder(log);
    }
  }

  lemma OneOlder(log: seq<Record>)
    requires 1 < |log|
    ensures Older(log) == [log[0]] + Older(log[1..])
    ensures Sound(log[0]) ==> Front(log) == [log[0]] + Front(log[1..])
  {
    hide Sound;
  }

  /** Sequence number of the record i places after one numbered s. */
  function SeqPlus(s: u32, i: nat): u32
    requires s != 0
  {
    1 + (s - 1 + i) % U32_MAX
  }

  lemma {:induction false} ChainedSeq(log: seq<Record>, newest: u32, i: nat)
    requires Chained(log, newest) && i < |log|
    ensures log[0].h.seqno != 0 && log[i].h.seqno == SeqPlus(log[0].h.seqno, i)
  {
    assert log[0] in log;
    if i != 0 {
      ChainedSeq(log, newest, i - 1);
    }
  }

  lemma NewestIsLast(log: seq<Record>, newest: u32)
    requires Chained(log, newest) && |log| < U32_MAX
    ensures forall r | r in Older(log) :: r.h.seqno != newest
  {
    forall r | r in Older(log) ensures r.h.seqno != newest {
      var i :| 0 <= i < |log| - 1 && log[i] == r;
      ChainedSeq(log, newest, i);
      ChainedSeq(log, newest, |log| - 1);
    }
  }

  lemma {:induction false} PlainWalkOnRing(mem: seq<byte>, off: nat, left: u32, log: seq<Record>, newest: u32,
                                           cursor: u32, filter: u16)
    requires Tiled(mem, off, left, log)
    requires log != [] ==> log[|log| - 1].h.seqno == newest
    requires forall r | r in Older(log) :: r.h.seqno != newest
    ensures PlainWalk(mem, off, left, newest, cursor, filter) == FrontWalk(log, cursor, filter)
    decreases |log|
  {
    hide *;
    FrontWalkStep(log, cursor, filter);
    if |log| <= 1 || !Sound(log[0]) {
      WalkEnds(mem, off, left, log, newest, cursor, filter);
    } else {
      var r := log[0];
      WalkMeetsFirst(mem, off, left, log, newest);
      WalkStep(mem, off, left, newest, cursor, filter);
      if !Wanted(cursor, filter, r.h) {
        PlainWalkOnRing(mem, Wrap(off + HDR_LEN + r.h.len, |mem|), left - (HDR_LEN + r.h.len), log[1..],
                        newest, cursor, filter);
      }
    }
  }

  /** At the newest record, and at an unsound one. */
  lemma WalkEnds(mem: seq<byte>, off: nat, left: u32, log: seq<Record>, newest: u32, cursor: u32, filter: u16)
    requires Tiled(mem, off, left, log) && (|log| <= 1 || !Sound(log[0]))
    requires log != [] ==> log[|log| - 1].h.seqno == newest
    ensures PlainWalk(mem, off, left, newest, cursor, filter) == Outcome(None, cursor)
  {
    if log != [] {
      SoundTests(log[0]);
      TiledPop(mem, off, log);
    }
    hide HeaderAt, Window, Wanted, Sound, MagicOk;
  }

  /** With at least two records left, the walk does not stop at the first. */
  lemma WalkMeetsFirst(mem: seq<byte>, off: nat, left: u32, log: seq<Record>, newest: u32)
    requires Tiled(mem, off, left, log) && 1 < |log| && Sound(log[0])
    requires log[|log| - 1].h.seqno == newest && forall r | r in Older(log) :: r.h.seqno != newest
    ensures var r := log[0];
      && 0 < |mem| && HDR_LEN < left && HeaderAt(mem, off) == r.h && !Stops(r.h, left, newest)
      && Window(mem, Wrap(off + HDR_LEN, |mem|), r.h.len) == r.payload
      && HDR_LEN + r.h.len <= left
      && Tiled(mem, Wrap(off + HDR_LEN + r.h.len, |mem|), left - (HDR_LEN + r.h.len), log[1..])
      && log[1..][|log| - 2].h.seqno == newest
      && (forall x | x in Older(log[1..]) :: x.h.seqno != newest)
  {
    hide *;
    TiledFirst(mem, off, left, log);
    OlderFirst(log);
    GoesPast(log[0], left, newest);
  }

  lemma TiledFirst(mem: seq<byte>, off: nat, left: u32, log: seq<Record>)
    requires Tiled(mem, off, left, log) && 1 < |log|
    ensures var r := log[0];
      && 0 < |mem| && r.h.len == |r.payload| && HeaderAt(mem, off) == r.h && HDR_LEN + r.h.len < left
      && Window(mem, Wrap(off + HDR_LEN, |mem|), r.h.len) == r.payload
      && Tiled(mem, Wrap(off + HDR_LEN + r.h.len, |mem|), left - (HDR_LEN + r.h.len), log[1..])
  {
    assert log[0] in log;
    TiledPop(mem, off, log);
    LogFirst(mem, off, log);
    LogLength(log[1..]);
    hide HeaderAt, Window, LogBytes, Wrap;
  }

  lemma OlderFirst(log: seq<Record>)
    requires 1 < |log|
    ensures log[0] in Older(log) && forall x | x in Older(log[1..]) :: x in Older(log)
    ensures log[1..][|log| - 2] == log[|log| - 1]
  {
    assert Older(log)[0] == log[0] && Older(log)[1..] == Older(log[1..]);
  }

  lemma GoesPast(r: Record, left: u32, newest: u32)
    requires Sound(r) && HDR_LEN + r.h.len < left && r.h.seqno != newest
    ensures !Stops(r.h, left, newest) && HDR_LEN < left
  {
    SoundTests(r);
    hide Sound, MagicOk;
  }

  /** Poll refinement: on every well-formed ring, whatever its records hold, the walk delivers exactly the oldest
      wanted record other than the newest with nothing unsound in front of it, or nothing and an unchanged cursor. */
  lemma WalkOnRing(mem: seq<byte>, tail: nat, valid: u32, log: seq<Record>, newest: u32, cursor: u32, filter: u16)
    requires Tiled(mem, tail, valid, log) && Chained(log, newest)
    ensures Walk(mem, tail, valid, newest, cursor, filter) == FrontWalk(log, cursor, filter)
    ensures PlainWalk(mem, tail, valid, newest, cursor, filter) == FrontWalk(log, cursor, filter)
  {
    LogLength(log);
    NewestIsLast(log, newest);
    PlainWalkOnRing(mem, tail, valid, log, newest, cursor, filter);
    JumpIsInert(mem, tail, valid, newest, cursor, filter);
    FrontIsChained(log, newest, cursor, filter);
    hide Walk, PlainWalk, FrontWalk;
  }

  lemma {:induction false} FrontIsChained(log: seq<Record>, newest: u32, cursor: u32, filter: u16)
    requires Chained(log, newest)
    ensures var w := FrontWalk(log, cursor, filter); w.hit.Some? ==> w.hit.value.h.seqno != 0
    decreases |log|
  {
    hide Sound, Wanted, FrontWalk;
    FrontWalkStep(log, cursor, filter);
    if 1 < |log| && Sound(log[0]) {
      assert log[0] in log;
      ChainedPop(log, newest);
      FrontIsChained(log[1..], newest, cursor, filter);
    }
  }

  /** So where no record is unsound, that is the oldest wanted record other than the newest. */
  lemma WalkOnLog(mem: seq<byte>, tail: nat, valid: u32, log: seq<Record>, newest: u32, cursor: u32, filter: u16)
    requires Tiled(mem, tail, valid, log) && Chained(log, newest) && Acceptable(log)
    ensures Walk(mem, tail, valid, newest, cursor, filter) == LogWalk(log, cursor, filter)
    ensures PlainWalk(mem, tail, valid, newest, cursor, filter) == LogWalk(log, cursor, filter)
  {
    hide Walk, PlainWalk, Sound, Tiled, Chained;
    WalkOnRing(mem, tail, valid, log, newest, cursor, filter);
    FrontOfSound(log);
  }

  // ---------- reading the shared bytes ----------

  /** The wrapping copy out of the ring, as two straight copies. */
  method RingCopy(ring: Ring, off: nat, n: nat) returns (dst: seq<byte>)
    requires ring.Valid() && n <= ring.size
    ensures dst == Window(ring.data[..], off, n)
  {
    var at := if ring.size <= off then Wrap(off, ring.size) else off;
    var first := if n < ring.size - at then n else ring.size - at;
    dst := ring.data[at..at + first] + ring.data[..n - first];
    WindowNormal(ring.data[..], off, n);
    WrapBelowTwice(Wrap(off, ring.size), ring.size);
    if off < ring.size {
      WrapBelowTwice(off, ring.size);
    }
    forall i | 0 <= i < n ensures dst[i] == Window(ring.data[..], at, n)[i] {
      WrapBelowTwice(at + i, ring.size);
    }
  }

  method ReadHeader(ring: Ring, off: nat) returns (h: Header)
    requires ring.Valid() && MAXPAY <= ring.size
    ensures h == HeaderAt(ring.data[..], off)
  {
    var raw := RingCopy(ring, off, HDR_LEN);
    h := Decode(raw);
  }

  method ReadPayload(ring: Ring, off: nat, n: nat) returns (p: seq<byte>)
    requires ring.Valid() && n <= MAXPAY <= ring.size
    ensures p == Window(ring.data[..], Wrap(off + HDR_LEN, ring.size), n)
  {
    p := RingCopy(ring, off + HDR_LEN, n);
    WindowNormal(ring.data[..], off + HDR_LEN, n);
  }

  // ---------- one poll ----------

  /** The reader's private cursor and its slot after a poll. */
  datatype Polled = Polled(got: bool, cursor: u32, slot: Slot)

  /** What the code after the walk makes of its outcome. */
  function Settle(w: Outcome, newest: u32, slot: Slot): Polled {
    match w.hit
    case Some(r) =>
      Polled(true, r.h.seqno,
             slot.(cursor := r.h.seqno, pending := if Low32(r.h.seqno + 1) == newest then 0 else slot.pending))
    case None =>
      if newest < w.cursor && ERA_GAP < w.cursor - newest then
        Polled(false, newest, slot.(cursor := newest, pending := 0))
      else
        Polled(false, w.cursor, slot.(pending := 0))
  }

  class Reader {
    const ring: Ring
    var k: nat
    var cursor: u32
    var filter: u16
    var payload: seq<byte>
    var kind: u16

    ghost predicate Valid()
      reads this, ring, ring.data
    {
      ring.Valid() && k < |ring.slots| && MAXPAY <= ring.size
    }

    constructor (ring: Ring, k: nat, cursor: u32, filter: u16)
      ensures this.ring == ring && this.k == k && this.cursor == cursor && this.filter == filter
    {
      this.ring, this.k, this.cursor, this.filter := ring, k, cursor, filter;
      payload, kind := [], 0;
    }

    /** The inner walk of one poll, from the published tail. */
    method Scan() returns (got: bool)
      requires ring.Valid() && MAXPAY <= ring.size && 0 < ring.size == ring.data.Length
      modifies this`cursor, this`payload, this`kind
      ensures var w := Walk(ring.data[..], ring.tail, ring.valid, ring.newest, old(cursor), filter);
        && got == w.hit.Some? && cursor == w.cursor
        && (got ==> payload == w.hit.value.payload && kind == w.hit.value.h.kind && cursor == w.hit.value.h.seqno)
    {
      hide *;
      var off, left, newest := ring.tail, ring.valid, ring.newest;
      ghost var mem := ring.data[..];
      ghost var w := Walk(mem, off, left, newest, cursor, filter);
      got := false;
      while HDR_LEN < left
        invariant 0 <= off && 0 <= left <= ring.valid
        invariant !got && ring.Valid() && MAXPAY <= ring.size && mem == ring.data[..] && |mem| == ring.size
        invariant w == Walk(mem, off, left, newest, cursor, filter)
        decreases left, Jumps(mem, off, cursor)
      {
        var h := ReadHeader(ring, off);
        WalkBranches(mem, off, left, newest, cursor, filter);
        if !MagicOk(h.magic) {
          break;
        }
        if left < Low32(HDR_LEN + h.len) || MAXPAY < h.len {
          break;
        }
        if h.seqno == newest {
          break;
        }
        if Wanted(cursor, filter, h) {
          if JUMP_GAP < Gap(h.seqno, cursor) {
            cursor := Low32(h.seqno - 1);
            continue;
          }
          payload := ReadPayload(ring, off, h.len);
          kind := h.kind;
          got := true;
          cursor := h.seqno;
          break;
        }
        off := Wrap(off + (HDR_LEN + h.len), ring.size);
        left := left - (HDR_LEN + h.len);
      }
      if !got {
        WalkBranches(mem, off, left, newest, cursor, filter);
      }
    }

    /** One pass of the poll loop over a stable ring. */
    method Poll() returns (got: bool)
      requires Valid()
      modifies this`cursor, this`payload, this`kind, ring`slots
      ensures Valid()
      ensures old(ring.slots[k].pending) == 0 ==> !got && cursor == old(cursor) && ring.slots == old(ring.slots)
      ensures old(ring.slots[k].pending) != 0 ==>
        var w := Walk(ring.data[..], ring.tail, ring.valid, ring.newest, old(cursor), filter);
        var newest, slot := ring.newest, old(ring.slots[k]);
        var era := newest < w.cursor && 10000 < w.cursor - newest;
        && got == w.hit.Some?
        && (got ==>
          && payload == w.hit.value.payload && kind == w.hit.value.h.kind && cursor == w.hit.value.h.seqno
          && var pending := if Low32(cursor + 1) == newest then 0 else slot.pending;
             ring.slots == old(ring.slots)[k := slot.(cursor := cursor, pending := pending)])
        && Polled(got, cursor, ring.slots[k]) == Settle(w, newest, slot)
        && (!got ==>
          && cursor == (if era then newest else w.cursor)
          && ring.slots == old(ring.slots)[k := slot.(cursor := if era then newest else slot.cursor, pending := 0)])
      ensures old(ring.slots[k].pending) != 0 ==>
        var w := FrontWalk(ring.log, old(cursor), filter);
        && got == w.hit.Some? && (got ==> w.hit.value.payload == payload && w.hit.value.h.kind == kind)
    {
      hide Window, Wanted, Tiled, Chained, Walk, PlainWalk, FrontWalk;
      got := false;
      if ring.slots[k].pending == 0 {
        return;
      }
      var newest := ring.newest;
      WalkOnRing(ring.data[..], ring.tail, ring.valid, ring.log, newest, cursor, filter);
      got := Scan();
      if got {
        ring.slots := ring.slots[k := ring.slots[k].(cursor := cursor)];
        if Low32(cursor + 1) == newest {
          ring.slots := ring.slots[k := ring.slots[k].(pending := 0)];
        }
      } else {
        if newest < cursor && ERA_GAP < cursor - newest {
          cursor := newest;
          ring.slots := ring.slots[k := ring.slots[k].(cursor := newest)];
        }
        ring.slots := ring.slots[k := ring.slots[k].(pending := 0)];
      }
    }
  }
}
