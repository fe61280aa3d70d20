/** Claiming a reader slot and choosing the record the stream starts with. */
module Join {
  import opened Words
  import opened Records
  import opened RingWriter
  import opened RingReader

  const CHAIN_START: u16 := 0x0422
  const FIRST_SLOT: nat := 10
  const LAST_SLOT: nat := 14

  predicate StartsChain(h: Header, newest: u32) {
    h.kind == CHAIN_START && h.seqno < Low32(newest - 4)
  }

  /** The join scan on memory: the sequence number of the last chain start it meets, else best. */
  function BestWalk(mem: seq<byte>, off: nat, left: u32, newest: u32, best: u32): u32
    requires 0 < |mem|
    decreases left
  {
    var h := HeaderAt(mem, off);
    if left <= HDR_LEN || Stops(h, left, newest) then best
    else BestWalk(mem, Wrap(off + (HDR_LEN + h.len), |mem|), left - (HDR_LEN + h.len), newest,
                  if StartsChain(h, newest) then h.seqno else best)
  }

  /** The join scan on a log. */
  function LastStart(log: seq<Record>, newest: u32, best: u32): u32 {
    if |log| <= 1 then best
    else LastStart(log[1..], newest, if StartsChain(log[0].h, newest) then log[0].h.seqno else best)
  }

  function Seed(best: u32, newest: u32): u32 {
    if 1 < best then best - 1 else newest
  }

  lemma BestWalkBranches(mem: seq<byte>, off: nat, left: u32, newest: u32, best: u32)
    requires 0 < |mem|
    ensures var h, w := HeaderAt(mem, off), BestWalk(mem, off, left, newest, best);
      var n := HDR_LEN + h.len;
      && 0 < n
      && (if left <= HDR_LEN || !MagicOk(h.magic) || left < Low32(n) || MAXPAY < h.len || h.seqno == newest then
            w == best
          else
            n <= left && w == BestWalk(mem, Wrap(off + n, |mem|), left - n, newest,
                                       if StartsChain(h, newest) then h.seqno else best))
  {
    hide HeaderAt, Wrap, StartsChain;
  }

  lemma {:induction false} BestWalkOnLog(mem: seq<byte>, off: nat, left: u32, log: seq<Record>, newest: u32, best: u32)
    requires Tiled(mem, off, left, log) && Acceptable(log)
    requires log != [] ==> log[|log| - 1].h.seqno == newest
    requires forall r | r in Older(log) :: r.h.seqno != newest
    ensures BestWalk(mem, off, left, newest, best) == LastStart(log, newest, best)
    decreases |log|
  {
    if |log| <= 1 {
      hide Window, LogBytes, HeaderAt;
      if log != [] {
        TiledPop(mem, off, log);
      } else {
        TiledBytes(mem, off, left, log);
      }
    } else {
      hide Window, LogBytes, HeaderAt, Tiled, Acceptable, Stops, Sound;
      var r := log[0];
      AcceptableFirst(log);
      WalkMeetsFirst(mem, off, left, log, newest);
      assert off + (HDR_LEN + r.h.len) == off + HDR_LEN + r.h.len;
      BestWalkOnLog(mem, Wrap(off + HDR_LEN + r.h.len, |mem|), left - (HDR_LEN + r.h.len), log[1..], newest,
                    if StartsChain(r.h, newest) then r.h.seqno else best);
    }
  }

  /** LastStart finds the last chain start among all records but the newest. */
  lemma {:induction false} LastStartIsLast(log: seq<Record>, newest: u32, best: u32, i: nat)
    requires i < |log| - 1 && StartsChain(log[i].h, newest)
    requires forall j | i < j < |log| - 1 :: !StartsChain(log[j].h, newest)
    ensures LastStart(log, newest, best) == log[i].h.seqno
  {
    var rest := log[1..];
    if i == 0 {
      forall j | 0 <= j < |rest| - 1 ensures !StartsChain(rest[j].h, newest) {
        assert rest[j] == log[j + 1];
      }
      LastStartKeeps(rest, newest, log[0].h.seqno);
    } else {
      forall j | i - 1 < j < |rest| - 1 ensures !StartsChain(rest[j].h, newest) {
        assert rest[j] == log[j + 1];
      }
      LastStartIsLast(rest, newest, if StartsChain(log[0].h, newest) then log[0].h.seqno else best, i - 1);
    }
  }

  lemma {:induction false} LastStartKeeps(log: seq<Record>, newest: u32, best: u32)
    requires forall j | 0 <= j < |log| - 1 :: !StartsChain(log[j].h, newest)
    ensures LastStart(log, newest, best) == best
  {
    if 1 < |log| {
      var rest := log[1..];
      forall j | 0 <= j < |rest| - 1 ensures !StartsChain(rest[j].h, newest) {
        assert rest[j] == log[j + 1];
      }
      LastStartKeeps(rest, newest, best);
    }
  }

  /** The join scan over the shared ring. */
  method ScanForStart(ring: Ring) returns (best: u32)
    requires ring.Valid() && MAXPAY <= ring.size && 0 < ring.size == ring.data.Length
    ensures best == BestWalk(ring.data[..], ring.tail, ring.valid, ring.newest, 0)
  {
    hide *;
    var off, left, newest := ring.tail, ring.valid, ring.newest;
    ghost var mem := ring.data[..];
    ghost var w := BestWalk(mem, off, left, newest, 0);
    best := 0;
    while HDR_LEN < left
      invariant 0 <= off && 0 <= left <= ring.valid && 0 <= best < 0x1_0000_0000
      invariant w == BestWalk(mem, off, left, newest, best)
      decreases left
    {
      var h := ReadHeader(ring, off);
      BestWalkBranches(mem, off, left, newest, best);
      if !MagicOk(h.magic) {
        break;
      }
      if left < Low32(HDR_LEN + h.len) || MAXPAY < h.len {
        break;
      }
      if h.seqno == newest {
        break;
      }
      if StartsChain(h, newest) {
        best := h.seqno;
      }
      off := Wrap(off + (HDR_LEN + h.len), ring.size);
      left := left - (HDR_LEN + h.len);
    }
    BestWalkBranches(mem, off, left, newest, best);
  }

  /** Claim the lowest admissible slot; want < 0 means the default range 10..14. */
  method ClaimSlot(ring: Ring, want: int, audio: bool, filter: u16) returns (claimed: Option<nat>, cursor: u32)
    requires ring.Valid() && MAXPAY <= ring.size
    requires want < |ring.slots| && LAST_SLOT < |ring.slots|
    modifies ring`slots
    ensures ring.Valid()
    ensures forall j | 0 <= j < |ring.slots| && old(ring.slots[j]).filter !in {0, filter} ::
              ring.slots[j] == old(ring.slots[j])
    ensures var first, last := if 0 <= want then want else 10, if 0 <= want then want else 14;
      match claimed
      case None =>
        ring.slots == old(ring.slots) && forall j | first <= j <= last :: ring.slots[j].filter !in {0, filter}
      case Some(k) =>
        && first <= k <= last && old(ring.slots[k]).filter in {0, filter}
        && (forall j | first <= j < k :: ring.slots[j].filter !in {0, filter})
        && ring.slots == old(ring.slots)[k := Slot(1, old(ring.slots[k].waiting), cursor, filter)]
        && cursor == (if audio then 0
                      else Seed(BestWalk(ring.data[..], ring.tail, ring.valid, ring.newest, 0), ring.newest))
  {
    hide BestWalk, Tiled, Chained, Window;
    cursor := 0;
    var k, last := if 0 <= want then want else FIRST_SLOT, if 0 <= want then want else LAST_SLOT;
    ghost var first := k;
    while k <= last
      invariant first <= k <= last + 1
      invariant forall j | first <= j < k :: ring.slots[j].filter !in {0, filter}
      invariant ring.slots == old(ring.slots)
    {
      if ring.slots[k].filter != 0 && ring.slots[k].filter != filter {
        k := k + 1;
        continue;
      }
      var best := 0;
      if !audio {
        best := ScanForStart(ring);
        if best != 0 {
          best := best - 1;
        }
      }
      cursor := if best != 0 then best else if audio then 0 else ring.newest;
      ring.slots := ring.slots[k := ring.slots[k].(cursor := cursor)];
      ring.slots := ring.slots[k := ring.slots[k].(pending := 1)];
      ring.slots := ring.slots[k := ring.slots[k].(filter := filter)];
      return Some(k), cursor;
    }
    claimed := None;
  }

  /** Give slot k back; below 0 there is none to give. */
  method ReleaseSlot(ring: Ring, k: int) returns (held: int)
    requires ring.Valid() && k < |ring.slots|
    modifies ring`slots
    ensures ring.Valid() && held == -1
    ensures ring.slots == if k < 0 then old(ring.slots) else old(ring.slots)[k := Slot(0, 0, 0, 0)]
  {
    held := -1;
    if k < 0 {
      return;
    }
    ring.slots := ring.slots[k := ring.slots[k].(filter := 0)];
    ring.slots := ring.slots[k := ring.slots[k].(pending := 0)];
    ring.slots := ring.slots[k := ring.slots[k].(waiting := 0)];
    ring.slots := ring.slots[k := ring.slots[k].(cursor := 0)];
  }

  /** A record the join may start from: numbered at least 2, with at least five records after it. */
  predicate JoinPoint(log: seq<Record>, i: nat)
    requires i < |log|
  {
    log[i].h.kind == 0x0422 && 2 <= log[i].h.seqno && i + 5 < |log|
  }

  lemma JoinPointIffStart(log: seq<Record>, i: nat)
    requires Counting(log) && i < |log| && 4 <= log[|log| - 1].h.seqno
    ensures JoinPoint(log, i) <==> StartsChain(log[i].h, log[|log| - 1].h.seqno) && 2 <= log[i].h.seqno
    ensures JoinPoint(log, i) <==> log[i].h.kind == 0x0422 && 2 <= log[i].h.seqno && i + 5 < |log|
  {
    CountingFrom(log, i);
    CountingFrom(log, |log| - 1);
  }

  /** The cursor a video claim seeds: just below the newest join point, or the newest number if there is none. */
  lemma SeedOfJoin(mem: seq<byte>, tail: nat, valid: u32, log: seq<Record>, newest: u32)
    requires Tiled(mem, tail, valid, log) && Acceptable(log) && Counting(log) && log != [] && log[0].h.seqno != 0
    requires log[|log| - 1].h.seqno == newest && 4 <= newest
    ensures var seed := Seed(BestWalk(mem, tail, valid, newest, 0), newest);
      && ((forall i | 0 <= i < |log| :: !JoinPoint(log, i)) ==> seed == newest)
      && (forall i | 0 <= i < |log| ::
            JoinPoint(log, i) && (forall j | i < j < |log| :: !JoinPoint(log, j)) ==> seed == log[i].h.seqno - 1)
  {
    hide Tiled, BestWalk, Acceptable, StartsChain, Window;
    forall r | r in Older(log) ensures r.h.seqno != newest {
      var i :| 0 <= i < |log| - 1 && log[i] == r;
      CountingFrom(log, i);
      CountingFrom(log, |log| - 1);
    }
    BestWalkOnLog(mem, tail, valid, log, newest, 0);
    SeedOnLog(log, newest);
  }

  lemma SeedOnLog(log: seq<Record>, newest: u32)
    requires Counting(log) && log != [] && log[|log| - 1].h.seqno == newest && 4 <= newest && log[0].h.seqno != 0
    ensures var seed := Seed(LastStart(log, newest, 0), newest);
      && ((forall i | 0 <= i < |log| :: !JoinPoint(log, i)) ==> seed == newest)
      && (forall i | 0 <= i < |log| ::
            JoinPoint(log, i) && (forall j | i < j < |log| :: !JoinPoint(log, j)) ==> seed == log[i].h.seqno - 1)
  {
    hide StartsChain, JoinPoint, LastStart;
    forall i | 0 <= i < |log| && JoinPoint(log, i) && (forall j | i < j < |log| :: !JoinPoint(log, j))
      ensures Seed(LastStart(log, newest, 0), newest) == log[i].h.seqno - 1
    {
      NewestJoinPoint(log, newest, i);
    }
    if forall i | 0 <= i < |log| :: !JoinPoint(log, i) {
      NoJoinPoint(log, newest);
    }
  }

  lemma NoJoinPoint(log: seq<Record>, newest: u32)
    requires Counting(log) && log != [] && log[|log| - 1].h.seqno == newest && 4 <= newest && log[0].h.seqno != 0
    requires forall i | 0 <= i < |log| :: !JoinPoint(log, i)
    ensures LastStart(log, newest, 0) <= 1
  {
    hide StartsChain, JoinPoint, LastStart;
    forall j | 0 < j < |log| ensures !StartsChain(log[j].h, newest) {
      JoinPointIffStart(log, j);
      CountingFrom(log, j);
    }
    if 1 < |log| && StartsChain(log[0].h, newest) {
      JoinPointIffStart(log, 0);
      LastStartIsLast(log, newest, 0, 0);
    } else {
      LastStartKeeps(log, newest, 0);
    }
  }

  lemma NewestJoinPoint(log: seq<Record>, newest: u32, i: nat)
    requires Counting(log) && i < |log| && log[|log| - 1].h.seqno == newest && 4 <= newest
    requires JoinPoint(log, i) && (forall j | i < j < |log| :: !JoinPoint(log, j))
    ensures LastStart(log, newest, 0) == log[i].h.seqno && 1 < log[i].h.seqno
  {
    JoinPointIffStart(log, i);
    forall j | i < j < |log| - 1 ensures !StartsChain(log[j].h, newest) {
      JoinPointIffStart(log, j);
      CountingFrom(log, i);
      CountingFrom(log, j);
    }
    LastStartIsLast(log, newest, 0, i);
  }

  /** Join: if record i is the newest join point when the slot is claimed and it survives to the first
      poll, that poll delivers exactly record i, whatever was appended or dropped in between. */
  lemma FirstDelivery(log: seq<Record>, i: nat, later: seq<Record>, lo: nat)
    requires Counting(log) && Counting(later) && i < |log| && JoinPoint(log, i)
    requires lo <= i && |log| - lo <= |later| && log[lo..] == later[..|log| - lo]
    requires |later| < 0x7FFF_FFFF
    ensures LogWalk(later, log[i].h.seqno - 1, 0x0400) == Outcome(Some(log[i]), log[i].h.seqno)
  {
    var seed, past := log[i].h.seqno - 1, Older(later);
    var m := i - lo;
    assert later[m] == later[..|log| - lo][m] == log[i];
    assert past[m] == log[i];
    HiresWantsChain();
    CountingFrom(later, m);
    forall j | 0 <= j < m ensures !Wanted(seed, 0x0400, past[j].h) {
      CountingFrom(later, j);
    }
    var f := FirstWanted(past, seed, 0x0400);
    assert past[m] in past;
    assert f.Some?;
  }

  /** The whole join on bytes: a video claim on one state of the ring, then any later state in which the newest join
      point survives. The first walk with the seeded cursor delivers exactly that record. */
  lemma JoinDelivers(mem: seq<byte>, tail: nat, valid: u32, log: seq<Record>, newest: u32, i: nat,
                     mem': seq<byte>, tail': nat, valid': u32, later: seq<Record>, newest': u32, lo: nat)
    requires Tiled(mem, tail, valid, log) && Acceptable(log) && Counting(log) && log != [] && log[0].h.seqno != 0
    requires log[|log| - 1].h.seqno == newest && 4 <= newest
    requires i < |log| && JoinPoint(log, i) && forall j | i < j < |log| :: !JoinPoint(log, j)
    requires Tiled(mem', tail', valid', later) && Acceptable(later) && Counting(later) && Chained(later, newest')
    requires lo <= i && |log| - lo <= |later| < 0x7FFF_FFFF && log[lo..] == later[..|log| - lo]
    ensures var seed := Seed(BestWalk(mem, tail, valid, newest, 0), newest);
      Walk(mem', tail', valid', newest', seed, 0x0400) == Outcome(Some(log[i]), log[i].h.seqno)
  {
    hide *;
    TiledNonempty(mem, tail, valid, log);
    TiledNonempty(mem', tail', valid', later);
    SeedAt(mem, tail, valid, log, newest, i);
    FirstDelivery(log, i, later, lo);
    WalkOnLog(mem', tail', valid', later, newest', log[i].h.seqno - 1, 0x0400);
  }

  lemma SeedAt(mem: seq<byte>, tail: nat, valid: u32, log: seq<Record>, newest: u32, i: nat)
    requires 0 < |mem| && Tiled(mem, tail, valid, log) && Acceptable(log) && Counting(log) && log != []
    requires log[0].h.seqno != 0 && log[|log| - 1].h.seqno == newest && 4 <= newest
    requires i < |log| && JoinPoint(log, i) && forall j | i < j < |log| :: !JoinPoint(log, j)
    ensures 0 < log[i].h.seqno && Seed(BestWalk(mem, tail, valid, newest, 0), newest) == log[i].h.seqno - 1
  {
    assert 0 < log[i].h.seqno;
    hide *;
    SeedOfJoin(mem, tail, valid, log, newest);
  }

  lemma TiledNonempty(mem: seq<byte>, tail: nat, valid: nat, log: seq<Record>)
    requires Tiled(mem, tail, valid, log)
    ensures 0 < |mem|
  {
  }

  lemma HiresWantsChain()
    ensures ClassMatch(CHAIN_START, 0x0400) && SubtypeMatch(CHAIN_START, 0x0400)
  {
    assert Bit(CHAIN_START, 10) && Bit(0x0400, 10);
  }
}
