/** Whole runs of the writer against a polling reader: what is delivered, in which order,
    what can be missed, and how far the reader can lag. */
module Delivery {
  import opened Words
  import opened Records
  import opened RingWriter
  import opened RingReader

  // ---------- the freshness test against the writer's order ----------

  /** Sequence number of the n-th record ever written (n from 0): 1, 2, ..., 2^32 - 1, 1, ... */
  function SeqOf(n: nat): (s: u32)
    ensures s != 0
  {
    1 + n % U32_MAX
  }

  lemma SeqOfCounts(n: nat)
    ensures SeqOf(n + 1) == NextSeq(SeqOf(n))
  {
    var q, r := n / U32_MAX, n % U32_MAX;
    if r + 1 < U32_MAX {
      assert n + 1 == q * U32_MAX + (r + 1);
    } else {
      assert n + 1 == (q + 1) * U32_MAX;
    }
  }

  /** Across any number of wraps, the freshness test agrees with the writer's order for every two
      records less than 2^31 - 1 writes apart. */
  lemma FreshIsLater(c: nat, n: nat)
    requires -0x7FFF_FFFF < n - c < 0x7FFF_FFFF
    ensures Fresh(SeqOf(c), SeqOf(n)) <==> c < n
  {
    var lap: int, pos: int := c / U32_MAX, c % U32_MAX;
    var d := n - c;
    assert c == lap * U32_MAX + pos && n == lap * U32_MAX + (pos + d);
    if pos + d < 0 {
      assert n == (lap - 1) * U32_MAX + (pos + d + U32_MAX);
      assert n % U32_MAX == pos + d + U32_MAX;
    } else if pos + d < U32_MAX {
      assert n % U32_MAX == pos + d;
    } else {
      assert n == (lap + 1) * U32_MAX + (pos + d - U32_MAX);
      assert n % U32_MAX == pos + d - U32_MAX;
    }
  }

  predicate Matches(h: Header, filter: u16) {
    SubtypeMatch(h.kind, filter) && ClassMatch(h.kind, filter)
  }

  // ---------- the era test at a counter wrap ----------

  /** How many times the counter has started over when the n-th record is written. */
  function Lap(n: nat): nat {
    n / U32_MAX
  }

  lemma SeqOfLap(n: nat)
    ensures n == Lap(n) * U32_MAX + (SeqOf(n) - 1)
  {
  }

  /** Two numbers less than 2^31 - 1 writes apart: the later one is smaller exactly across a wrap, and then by far. */
  lemma WrapDrops(c: nat, n: nat)
    requires c <= n < c + 0x7FFF_FFFF
    ensures Lap(n) == Lap(c) || Lap(n) == Lap(c) + 1
    ensures Lap(n) != Lap(c) <==> SeqOf(n) < SeqOf(c)
    ensures SeqOf(n) < SeqOf(c) ==> ERA_GAP < SeqOf(c) - SeqOf(n)
  {
    SeqOfLap(c);
    SeqOfLap(n);
    var d: int := Lap(n) - Lap(c);
    assert n - c == d * U32_MAX + (SeqOf(n) - SeqOf(c));
  }

  /** Exactly how far ahead a record may be and still count as fresh, anywhere in the writer's order: 2^31 - 1 writes,
      or one less if the counter wrapped in between, since it skips 0 and the test does not, unless the cursor holds
      2^32 - 1 itself. */
  lemma FreshIff(c: nat, n: nat)
    requires c < n < c + U32_MAX
    ensures Fresh(SeqOf(c), SeqOf(n))
      <==> n - c + (if Lap(n) != Lap(c) && SeqOf(c) != U32_MAX then 1 else 0) <= 0x7FFF_FFFF
  {
    SeqOfLap(c);
    SeqOfLap(n);
    var d: int := Lap(n) - Lap(c);
    assert n - c == d * U32_MAX + (SeqOf(n) - SeqOf(c));
    assert d == 0 || d == 1;
    hide Lap, SeqOf;
  }

  /** The era test never fires on a counter that only counts on, except across a wrap, and there always: a poll that
      finds nothing while the cursor holds record c and the newest is record n re-anchors if and only if the counter
      started over in between. */
  lemma EraFiresIffWrapped(log: seq<Record>, c: nat, n: nat, filter: u16, slot: Slot)
    requires c <= n < c + 0x7FFF_FFFF && LogWalk(log, SeqOf(c), filter).hit.None?
    ensures Settle(LogWalk(log, SeqOf(c), filter), SeqOf(n), slot).cursor != SeqOf(c) <==> Lap(n) != Lap(c)
  {
    WrapDrops(c, n);
    hide FirstWanted, Older;
  }

  /** What that costs: such a poll makes the newest record unwanted for good if and only if it matches and the
      counter started over since the cursor's record. */
  lemma LostIffWrapped(log: seq<Record>, c: nat, n: nat, filter: u16, slot: Slot)
    requires c < n < c + 0x7FFF_FFFF && LogWalk(log, SeqOf(c), filter).hit.None?
    requires log != [] && log[|log| - 1].h.seqno == SeqOf(n)
    ensures var h, p := log[|log| - 1].h, Settle(LogWalk(log, SeqOf(c), filter), SeqOf(n), slot);
      Wanted(SeqOf(c), filter, h) && !Wanted(p.cursor, filter, h)
      <==> Matches(h, filter) && Lap(n) != Lap(c)
  {
    WrapDrops(c, n);
    FreshIsLater(c, n);
    FreshIsLater(n, n);
    EraFiresIffWrapped(log, c, n, filter, slot);
    hide SubtypeMatch, ClassMatch, LogWalk, SeqOf, Lap, Fresh;
  }

  // ---------- the era test at a counter restart ----------

  /** What the test is for: the writer starts over while records of the old era are still in the ring. A poll that
      finds nothing with the cursor at c, the newest record being numbered n below c, makes a record the cursor had
      passed wanted again if and only if the test fires and the record is numbered within 2^31 - 1 above n. */
  lemma RestartRewinds(log: seq<Record>, c: u32, n: u32, filter: u16, slot: Slot, i: nat)
    requires 0 < n < c && LogWalk(log, c, filter).hit.None? && i < |log| - 1
    requires Matches(log[i].h, filter) && n < log[i].h.seqno <= c
    ensures !Wanted(c, filter, log[i].h)
    ensures Wanted(Settle(LogWalk(log, c, filter), n, slot).cursor, filter, log[i].h)
      <==> 10000 < c - n && log[i].h.seqno - n <= 0x7FFF_FFFF
  {
    NoHit(log, c, filter, i);
    hide SubtypeMatch, ClassMatch, FirstWanted, Older;
  }

  lemma NoHit(log: seq<Record>, cursor: u32, filter: u16, i: nat)
    requires LogWalk(log, cursor, filter).hit.None? && i < |log| - 1
    ensures !Wanted(cursor, filter, log[i].h)
  {
    hide Wanted;
    var past := Older(log);
    assert past[i] == log[i];
    assert past[i] in past;
  }

  /** And it is delivered again, before anything new: with one more record in the ring the walk from n finds the
      first such record. If the gap is 10000 or less the test does not fire, and the record numbered next, n + 1, is
      not wanted. */
  lemma RestartRedelivers(log: seq<Record>, r: Record, c: u32, n: u32, filter: u16, slot: Slot, i: nat)
    requires 0 < n < c && LogWalk(log, c, filter).hit.None? && i < |log| - 1 && r.h.seqno == n + 1
    requires Matches(log[i].h, filter) && n < log[i].h.seqno <= c && log[i].h.seqno - n <= 0x7FFF_FFFF
    requires forall j | 0 <= j < i :: !Wanted(n, filter, log[j].h)
    ensures var p := Settle(LogWalk(log, c, filter), n, slot);
      if 10000 < c - n then LogWalk(log + [r], p.cursor, filter) == Outcome(Some(log[i]), log[i].h.seqno)
      else p.cursor == c && !Wanted(c, filter, r.h)
  {
    hide *;
    RestartRewinds(log, c, n, filter, slot, i);
    SettleMissed(log, c, n, filter, slot);
    if 10000 < c - n {
      FirstWantedIs(log + [r], n, filter, i);
    } else {
      NotBehind(c, filter, r.h);
    }
  }

  lemma SettleMissed(log: seq<Record>, c: u32, n: u32, filter: u16, slot: Slot)
    requires LogWalk(log, c, filter).hit.None? && n < c
    ensures Settle(LogWalk(log, c, filter), n, slot).cursor == if 10000 < c - n then n else c
  {
    hide FirstWanted, Older;
  }

  lemma NotBehind(c: u32, filter: u16, h: Header)
    requires 0 < h.seqno <= c <= h.seqno + 10000
    ensures !Wanted(c, filter, h)
  {
    hide SubtypeMatch, ClassMatch;
  }

  /** A log whose last records are numbered ..., 2^32 - 2, 2^32 - 1, 1: the counter has just started over. */
  ghost predicate JustWrapped(log: seq<Record>) {
    Chained(log, 1) && 2 <= |log| < 0x7FFF_FFFF
  }

  lemma NumbersBeforeWrap(log: seq<Record>, i: nat)
    requires JustWrapped(log) && i < |log| - 1
    ensures log[i].h.seqno == SeqOf(U32_MAX + i + 1 - |log|)
    decreases |log| - i
  {
    var m := U32_MAX + i + 1 - |log|;
    assert log[i] in log && log[i + 1].h.seqno == NextSeq(log[i].h.seqno);
    if i < |log| - 2 {
      NumbersBeforeWrap(log, i + 1);
      SeqOfCounts(m);
    }
  }

  lemma FirstWantedIs(log: seq<Record>, cursor: u32, filter: u16, k: nat)
    requires k < |log| - 1 && Wanted(cursor, filter, log[k].h)
    requires forall i | 0 <= i < k :: !Wanted(cursor, filter, log[i].h)
    ensures LogWalk(log, cursor, filter) == Outcome(Some(log[k]), log[k].h.seqno)
  {
    hide Wanted;
    var past := Older(log);
    forall i | 0 <= i <= k ensures past[i] == log[i] {
    }
    var f := FirstWanted(past, cursor, filter);
    assert past[k] in past;
  }

  lemma NothingWanted(log: seq<Record>, cursor: u32, filter: u16)
    requires forall i | 0 <= i < |log| - 1 :: !Wanted(cursor, filter, log[i].h)
    ensures LogWalk(log, cursor, filter) == Outcome(None, cursor)
  {
    hide Wanted;
    var past := Older(log);
    forall r | r in past ensures !Wanted(cursor, filter, r.h) {
      var i :| 0 <= i < |past| && past[i] == r;
      assert past[i] == log[i];
    }
  }

  lemma WrapOnLog(log: seq<Record>, filter: u16)
    requires JustWrapped(log)
    requires forall k | |log| - 2 <= k < |log| :: Matches(log[k].h, filter)
    ensures LogWalk(log, U32_MAX - 1, filter) == Outcome(Some(log[|log| - 2]), U32_MAX)
    ensures LogWalk(log, U32_MAX, filter) == Outcome(None, U32_MAX)
    ensures Wanted(U32_MAX, filter, log[|log| - 1].h) && !Wanted(1, filter, log[|log| - 1].h)
  {
    hide SubtypeMatch, ClassMatch, LogWalk;
    var n := |log|;
    forall i | 0 <= i < n - 1 ensures log[i].h.seqno == U32_MAX + i + 2 - n {
      NumbersBeforeWrap(log, i);
    }
    FirstWantedIs(log, U32_MAX - 1, filter, n - 2);
    NothingWanted(log, U32_MAX, filter);
  }

  /** It happens to every reader that keeps up: on any ring whose counter has just started over, the poll that
      delivers record 2^32 - 1 leaves the flag up, and the next one, finding nothing yet, jumps over record 1. Record
      1 was wanted, it is not delivered, and no later poll with that cursor wants it. */
  lemma WrapLosesRecord(mem: seq<byte>, tail: nat, valid: u32, log: seq<Record>, filter: u16, slot: Slot)
    requires Tiled(mem, tail, valid, log) && Acceptable(log) && JustWrapped(log) && slot.pending != 0
    requires forall k | |log| - 2 <= k < |log| :: Matches(log[k].h, filter)
    ensures var n := |log|;
      var w := Walk(mem, tail, valid, 1, U32_MAX - 1, filter);
      var p := Settle(w, 1, slot);
      var v := Walk(mem, tail, valid, 1, p.cursor, filter);
      var q := Settle(v, 1, p.slot);
      && w.hit == Some(log[n - 2]) && p.slot.pending != 0 && Wanted(p.cursor, filter, log[n - 1].h)
      && !q.got && q.slot.pending == 0 && !Wanted(q.cursor, filter, log[n - 1].h)
  {
    hide Walk, Tiled, Acceptable, SubtypeMatch, ClassMatch, LogWalk, Wanted;
    WalkOnLog(mem, tail, valid, log, 1, U32_MAX - 1, filter);
    WalkOnLog(mem, tail, valid, log, 1, U32_MAX, filter);
    WrapOnLog(log, filter);
  }

  // ---------- runs within one era ----------

  /** All records ever written in this era, the oldest still in the ring, the reader's private cursor,
      its slot, and the delivered records by index into written. */
  datatype State = State(written: seq<Record>, lo: nat, cursor: u32, slot: Slot, out: seq<nat>)

  function Newest(written: seq<Record>): u32 {
    if written == [] then 0 else written[|written| - 1].h.seqno
  }

  /** An era without a wrap that starts at sequence number base, and fewer than 2^31 - 1 writes. */
  ghost predicate Era(written: seq<Record>, base: u32) {
    base != 0 && |written| < 0x7FFF_FFFF && base + |written| <= U32_MAX
    && (forall i | 0 <= i < |written| :: written[i].h.seqno == base + i)
  }

  ghost predicate Joined(s: State, base: u32) {
    Era(s.written, base) && s.lo <= |s.written| && s.out == []
    && (s.cursor == 0 || base - 1 <= s.cursor <= Newest(s.written))
    && s.slot.pending != 0
  }

  /** The writer appends one record, drops any number of older ones, and flags the slot on a class match. */
  ghost predicate WriteStep(s: State, t: State, filter: u16) {
    && |t.written| == |s.written| + 1 && t.written[..|s.written|] == s.written
    && s.lo <= t.lo <= |s.written|
    && t.cursor == s.cursor && t.out == s.out
    && t.slot == if ClassMatch(t.written[|s.written|].h.kind, filter) then s.slot.(pending := 1) else s.slot
  }

  function Log(s: State): seq<Record>
    requires s.lo <= |s.written|
  {
    s.written[s.lo..]
  }

  /** The reader polls: the walk and the code after it, exactly as Reader.Poll runs them. */
  function Poll(s: State, filter: u16): State
    requires s.lo <= |s.written|
  {
    if s.slot.pending == 0 then s
    else
      var w := LogWalk(Log(s), s.cursor, filter);
      var p := Settle(w, Newest(s.written), s.slot);
      var hit := FirstWanted(Older(Log(s)), s.cursor, filter);
      State(s.written, s.lo, p.cursor, p.slot, if hit.Some? then s.out + [s.lo + hit.value] else s.out)
  }

  ghost predicate Step(s: State, t: State, filter: u16) {
    WriteStep(s, t, filter) || (s.lo <= |s.written| && t == Poll(s, filter))
  }

  ghost predicate Run(run: seq<State>, base: u32, filter: u16) {
    run != [] && Joined(run[0], base)
    && (forall k | 0 <= k < |run| - 1 :: Step(run[k], run[k + 1], filter))
    && (forall k | 0 <= k < |run| :: Era(run[k].written, base))
  }

  /** What Ring.Write does to a ring whose log is the surviving part of the run is a step of the run. */
  lemma WriteRefines(s: State, d: nat, r: Record, slots: seq<Slot>, k: nat, filter: u16) returns (t: State)
    requires s.lo <= |s.written| && d <= |Log(s)| && k < |slots| && slots[k] == s.slot && s.slot.filter == filter
    ensures WriteStep(s, t, filter)
    ensures Log(t) == Log(s)[d..] + [r] && t.slot == Signalled(slots, r.h.kind)[k]
  {
    hide ClassMatch;
    t := State(s.written + [r], s.lo + d, s.cursor, Signalled(slots, r.h.kind)[k], s.out);
  }

  /** What Reader.Poll does to the bytes of such a ring is the polling step of the run: same cursor and slot, and
      the record delivered is the one the run delivers. */
  lemma PollRefines(s: State, mem: seq<byte>, tail: nat, valid: u32, filter: u16)
    requires s.lo < |s.written| && s.slot.pending != 0
    requires Tiled(mem, tail, valid, Log(s)) && Acceptable(Log(s)) && Chained(Log(s), Newest(s.written))
    ensures var w := Walk(mem, tail, valid, Newest(s.written), s.cursor, filter);
      var p, t := Settle(w, Newest(s.written), s.slot), Poll(s, filter);
      && t.cursor == p.cursor && t.slot == p.slot && t.written == s.written
      && (if p.got then
            |t.out| == |s.out| + 1 && t.out[|s.out|] < |s.written| && s.written[t.out[|s.out|]] == w.hit.value
          else t.out == s.out)
  {
    hide Walk, Tiled, Chained, Acceptable, Wanted;
    WalkOnLog(mem, tail, valid, Log(s), Newest(s.written), s.cursor, filter);
    var hit := FirstWanted(Older(Log(s)), s.cursor, filter);
    if hit.Some? {
      assert Older(Log(s))[hit.value] == s.written[s.lo + hit.value];
    }
  }

  /** Was record i popped before some poll that moved the cursor past it? */
  ghost predicate PoppedUnseen(run: seq<State>, i: nat) {
    exists k | 0 <= k < |run| - 1 :: PassedOver(run[k], run[k + 1], i)
  }

  ghost predicate PassedOver(s: State, t: State, i: nat) {
    && i < s.lo && i < |s.written|
    && s.cursor < s.written[i].h.seqno < t.cursor
  }

  /** What holds after every step: deliveries are increasing, match, lie after the join cursor and
      before the current one; the cursor stays inside the era. */
  ghost predicate Good(s: State, base: u32, start: u32, filter: u16) {
    && s.lo <= |s.written|
    && (s.cursor == 0 || base - 1 <= s.cursor <= Newest(s.written))
    && start <= s.cursor
    && (forall j | 0 <= j < |s.out| :: s.out[j] < |s.written| && Matches(s.written[s.out[j]].h, filter)
                                       && start < s.written[s.out[j]].h.seqno <= s.cursor)
    && (forall j, l | 0 <= j < l < |s.out| :: s.out[j] < s.out[l])
  }

  /** Within an era, fresh means numbered above the cursor. */
  lemma FreshInEra(s: State, base: u32, i: nat)
    requires Era(s.written, base) && (s.cursor == 0 || base - 1 <= s.cursor <= Newest(s.written)) && i < |s.written|
    ensures Fresh(s.cursor, s.written[i].h.seqno) <==> s.cursor < s.written[i].h.seqno
  {
  }

  /** A poll that finds nothing clears the flag and leaves the cursor: the era test does not fire. */
  lemma PollMiss(s: State, base: u32, filter: u16)
    requires Era(s.written, base) && s.lo <= |s.written| && s.slot.pending != 0
    requires s.cursor == 0 || base - 1 <= s.cursor <= Newest(s.written)
    requires FirstWanted(Older(Log(s)), s.cursor, filter).None?
    ensures Poll(s, filter) == s.(slot := s.slot.(pending := 0))
    ensures forall i | s.lo <= i < |s.written| - 1 :: !Wanted(s.cursor, filter, s.written[i].h)
  {
    hide Wanted;
    var past := Older(Log(s));
    forall i | s.lo <= i < |s.written| - 1 ensures !Wanted(s.cursor, filter, s.written[i].h) {
      assert past[i - s.lo] in past && past[i - s.lo] == s.written[i];
    }
  }

  /** A poll that finds record m delivers it, and clears the flag exactly if just one record follows. */
  lemma PollHit(s: State, base: u32, filter: u16) returns (m: nat)
    requires Era(s.written, base) && s.lo <= |s.written| && s.slot.pending != 0
    requires s.cursor == 0 || base - 1 <= s.cursor <= Newest(s.written)
    requires FirstWanted(Older(Log(s)), s.cursor, filter).Some?
    ensures s.lo <= m < |s.written| - 1 && Wanted(s.cursor, filter, s.written[m].h)
    ensures s.cursor < s.written[m].h.seqno
    ensures forall j | s.lo <= j < m :: !Wanted(s.cursor, filter, s.written[j].h)
    ensures var t := Poll(s, filter);
      && t.written == s.written && t.lo == s.lo && t.out == s.out + [m] && t.cursor == s.written[m].h.seqno
      && (t.slot.pending == 0 <==> m == |s.written| - 2)
  {
    hide *;
    m := HitIndex(s, filter);
    WantedAbove(s, base, filter, m);
    PollOfHit(s, filter, m);
    NextIsNewest(s.written, base, m);
  }

  lemma WantedAbove(s: State, base: u32, filter: u16, m: nat)
    requires Era(s.written, base) && (s.cursor == 0 || base - 1 <= s.cursor <= Newest(s.written)) && m < |s.written|
    requires Wanted(s.cursor, filter, s.written[m].h)
    ensures s.cursor < s.written[m].h.seqno
  {
    FreshInEra(s, base, m);
    hide Era, Newest, Fresh, ClassMatch, SubtypeMatch;
  }

  lemma PollOfHit(s: State, filter: u16, m: nat)
    requires s.lo <= m < |s.written| - 1 && s.slot.pending != 0
    requires FirstWanted(Older(Log(s)), s.cursor, filter) == Some(m - s.lo)
    requires LogWalk(Log(s), s.cursor, filter) == Outcome(Some(s.written[m]), s.written[m].h.seqno)
    ensures var t := Poll(s, filter);
      && t.written == s.written && t.lo == s.lo && t.out == s.out + [m] && t.cursor == s.written[m].h.seqno
      && (t.slot.pending == 0 <==> Low32(s.written[m].h.seqno + 1) == Newest(s.written))
  {
    hide LogWalk, FirstWanted, Older, Log, Low32, Newest;
  }

  /** The record the walk of a poll stops at, by its index in the run. */
  lemma HitIndex(s: State, filter: u16) returns (m: nat)
    requires s.lo <= |s.written| && FirstWanted(Older(Log(s)), s.cursor, filter).Some?
    ensures s.lo <= m < |s.written| - 1 && Wanted(s.cursor, filter, s.written[m].h)
    ensures forall j | s.lo <= j < m :: !Wanted(s.cursor, filter, s.written[j].h)
    ensures FirstWanted(Older(Log(s)), s.cursor, filter) == Some(m - s.lo)
    ensures LogWalk(Log(s), s.cursor, filter) == Outcome(Some(s.written[m]), s.written[m].h.seqno)
  {
    var past := Older(Log(s));
    var n := FirstWanted(past, s.cursor, filter).value;
    m := s.lo + n;
    assert past[n] == s.written[m];
    hide Wanted;
    forall j | s.lo <= j < m ensures !Wanted(s.cursor, filter, s.written[j].h) {
      assert past[j - s.lo] == s.written[j];
    }
  }

  /** Just one record follows m exactly if its number is one below the newest. */
  lemma NextIsNewest(written: seq<Record>, base: u32, m: nat)
    requires Era(written, base) && m < |written| - 1
    ensures Low32(written[m].h.seqno + 1) == Newest(written) <==> m == |written| - 2
  {
  }

  ghost predicate Delivers(s: State, t: State, filter: u16, m: nat) {
    && t.written == s.written && t.lo == s.lo && s.lo <= m < |s.written| - 1
    && t.out == s.out + [m] && s.cursor < t.cursor == s.written[m].h.seqno
    && (forall j | s.lo <= j < m :: !Wanted(s.cursor, filter, s.written[j].h))
    && (t.slot.pending == 0 <==> m == |s.written| - 2)
  }

  lemma GoodAfterHit(s: State, t: State, base: u32, start: u32, filter: u16, m: nat)
    requires Era(s.written, base) && Good(s, base, start, filter) && Delivers(s, t, filter, m)
    requires Matches(s.written[m].h, filter)
    ensures Good(t, base, start, filter)
  {
    hide Wanted, Matches;
    forall j | 0 <= j < |s.out| ensures s.out[j] < m {
      assert s.written[s.out[j]].h.seqno <= s.cursor;
    }
  }

  lemma WantedMatches(cursor: u32, filter: u16, h: Header)
    requires Wanted(cursor, filter, h)
    ensures Matches(h, filter)
  {
  }

  lemma GoodBounds(s: State, base: u32, start: u32, filter: u16)
    requires Good(s, base, start, filter)
    ensures s.lo <= |s.written| && (s.cursor == 0 || base - 1 <= s.cursor <= Newest(s.written))
    ensures Good(s.(slot := s.slot.(pending := 0)), base, start, filter)
  {
    hide Matches;
  }

  /** One poll in an era: it delivers the oldest surviving match past the cursor, other than the newest
      record, or it clears the flag; the era test never fires. */
  lemma PollInEra(s: State, base: u32, start: u32, filter: u16)
    requires Era(s.written, base) && Good(s, base, start, filter) && s.slot.pending != 0
    ensures var t := Poll(s, filter);
      && Good(t, base, start, filter)
      && ((t == s.(slot := s.slot.(pending := 0))
           && forall i | s.lo <= i < |s.written| - 1 :: !Wanted(s.cursor, filter, s.written[i].h))
          || exists m :: Delivers(s, t, filter, m))
  {
    GoodBounds(s, base, start, filter);
    hide Good, Poll, Wanted, Log, Older, Era, FirstWanted;
    if FirstWanted(Older(Log(s)), s.cursor, filter).None? {
      PollMiss(s, base, filter);
    } else {
      var m := PollHit(s, base, filter);
      assert Delivers(s, Poll(s, filter), filter, m);
      WantedMatches(s.cursor, filter, s.written[m].h);
      GoodAfterHit(s, Poll(s, filter), base, start, filter, m);
    }
  }

  lemma StepKeepsGood(s: State, t: State, base: u32, start: u32, filter: u16)
    requires Era(s.written, base) && Era(t.written, base) && Good(s, base, start, filter) && Step(s, t, filter)
    ensures Good(t, base, start, filter)
    ensures s.cursor <= t.cursor
    ensures s.written <= t.written && s.out <= t.out
  {
    if WriteStep(s, t, filter) {
      assert forall i | 0 <= i < |s.written| :: t.written[i] == s.written[i];
    } else if s.slot.pending != 0 {
      PollInEra(s, base, start, filter);
    }
  }

  lemma {:induction false} RunKeepsGood(run: seq<State>, base: u32, filter: u16, n: nat)
    requires Run(run, base, filter) && n < |run|
    ensures Good(run[n], base, run[0].cursor, filter)
    ensures run[0].written <= run[n].written
  {
    if n != 0 {
      RunKeepsGood(run, base, filter, n - 1);
      assert Step(run[n - 1], run[n], filter);
      StepKeepsGood(run[n - 1], run[n], base, run[0].cursor, filter);
    }
  }

  /** Safety of delivery: in every run the delivered records are an in-order, duplicate-free
      selection of the filter-matching writes after the join cursor. */
  lemma DeliveredInOrder(run: seq<State>, base: u32, filter: u16)
    requires Run(run, base, filter)
    ensures var s, start := run[|run| - 1], run[0].cursor;
      && (forall j | 0 <= j < |s.out| :: s.out[j] < |s.written| && Matches(s.written[s.out[j]].h, filter)
                                         && start < s.written[s.out[j]].h.seqno)
      && (forall j, l | 0 <= j < l < |s.out| :: s.out[j] < s.out[l])
  {
    RunKeepsGood(run, base, filter, |run| - 1);
  }

  /** Nothing is missed silently: every match between the join cursor and the present cursor was
      delivered, or had been popped before the poll that passed it. */
  lemma {:induction false} MissedWerePopped(run: seq<State>, base: u32, filter: u16, n: nat, i: nat)
    requires Run(run, base, filter) && n < |run|
    requires i < |run[n].written| && Matches(run[n].written[i].h, filter)
    requires run[0].cursor < run[n].written[i].h.seqno <= run[n].cursor
    ensures i in run[n].out || PoppedUnseen(run, i)
  {
    hide Good, Poll, WriteStep, PassedOver, Matches, Era, Joined, Step;
    if n != 0 {
      var s, t := run[n - 1], run[n];
      var start := run[0].cursor;
      RunKeepsGood(run, base, filter, n - 1);
      assert Step(s, t, filter);
      StepKeepsGood(s, t, base, start, filter);
      if i < |s.written| && t.written[i].h.seqno <= s.cursor {
        assert t.written[i] == s.written[i];
        MissedWerePopped(run, base, filter, n - 1, i);
      } else {
        CrossedByPoll(s, t, base, start, filter, i);
        if i !in t.out {
          assert PassedOver(run[n - 1], run[n - 1 + 1], i);
        }
      }
    }
  }

  lemma CrossedByPoll(s: State, t: State, base: u32, start: u32, filter: u16, i: nat)
    requires Era(s.written, base) && Era(t.written, base) && Good(s, base, start, filter) && Step(s, t, filter)
    requires i < |t.written| && Matches(t.written[i].h, filter)
    requires t.written[i].h.seqno <= t.cursor && !(i < |s.written| && t.written[i].h.seqno <= s.cursor)
    ensures i in t.out || PassedOver(s, t, i)
  {
    if WriteStep(s, t, filter) {
    } else {
      PollInEra(s, base, start, filter);
      var m :| Delivers(s, t, filter, m);
      assert i <= m;
      if i == m {
        assert t.out[|s.out|] == m;
      } else if s.lo <= i {
        FreshInEra(s, base, i);
      }
    }
  }

  // ---------- lag ----------

  /** At most one surviving wanted record is undelivered. */
  ghost predicate CaughtUp(s: State, filter: u16) {
    forall i, j | s.lo <= i < j < |s.written| ::
      !(Wanted(s.cursor, filter, s.written[i].h) && Wanted(s.cursor, filter, s.written[j].h))
  }

  lemma StepKeepsLag(s: State, t: State, base: u32, start: u32, filter: u16)
    requires Era(s.written, base) && Era(t.written, base) && Good(s, base, start, filter) && Step(s, t, filter)
    requires s.slot.pending == 0 ==> CaughtUp(s, filter)
    ensures t.slot.pending == 0 ==> CaughtUp(t, filter)
  {
    if t.slot.pending == 0 {
      if WriteStep(s, t, filter) {
        WriteKeepsLag(s, t, filter);
      } else if s.slot.pending != 0 {
        PollKeepsLag(s, base, start, filter);
      } else {
        hide Era, Good, Wanted;
      }
    }
  }

  /** A write that leaves the flag clear is unwanted itself. */
  lemma WriteKeepsLag(s: State, t: State, filter: u16)
    requires WriteStep(s, t, filter) && t.slot.pending == 0 && CaughtUp(s, filter)
    ensures CaughtUp(t, filter)
  {
    hide ClassMatch, SubtypeMatch, Fresh;
    assert forall i | 0 <= i < |s.written| :: t.written[i] == s.written[i];
  }

  /** A poll that clears the flag has passed everything older than the newest record. */
  lemma PollKeepsLag(s: State, base: u32, start: u32, filter: u16)
    requires Era(s.written, base) && Good(s, base, start, filter) && s.slot.pending != 0
    requires Poll(s, filter).slot.pending == 0
    ensures CaughtUp(Poll(s, filter), filter)
  {
    GoodBounds(s, base, start, filter);
    PollInEra(s, base, start, filter);
    var t := Poll(s, filter);
    hide Poll, Good;
    if t.out != s.out {
      forall i | t.lo <= i < |t.written| - 1 ensures !Wanted(t.cursor, filter, t.written[i].h) {
        WantedAboveOnly(t, base, filter, i);
      }
    }
  }

  lemma WantedAboveOnly(t: State, base: u32, filter: u16, i: nat)
    requires Era(t.written, base) && 2 <= |t.written| && i < |t.written| - 1
    requires t.cursor == t.written[|t.written| - 2].h.seqno
    ensures !Wanted(t.cursor, filter, t.written[i].h)
  {
    FreshInEra(t, base, i);
    hide ClassMatch, SubtypeMatch;
  }

  lemma RunParts(run: seq<State>, base: u32, filter: u16, n: nat)
    requires Run(run, base, filter) && n < |run|
    ensures Era(run[n].written, base) && (n == 0 ==> run[0].slot.pending != 0)
    ensures n != 0 ==> Step(run[n - 1], run[n], filter)
  {
    hide Era, Step;
    assert n != 0 ==> Step(run[n - 1], run[n - 1 + 1], filter);
  }

  /** Lag bound: in every run, a cleared flag means at most one surviving wanted record is undelivered. */
  lemma {:induction false} LagBound(run: seq<State>, base: u32, filter: u16, n: nat)
    requires Run(run, base, filter) && n < |run|
    ensures run[n].slot.pending == 0 ==> CaughtUp(run[n], filter)
  {
    hide *;
    RunParts(run, base, filter, n);
    if n != 0 {
      LagBound(run, base, filter, n - 1);
      RunParts(run, base, filter, n - 1);
      RunKeepsGood(run, base, filter, n - 1);
      StepKeepsLag(run[n - 1], run[n], base, run[0].cursor, filter);
    }
  }

  lemma StepKeepsSlot(s: State, t: State, filter: u16)
    requires Step(s, t, filter) && s.slot.cursor == s.cursor
    ensures t.slot.cursor == t.cursor && t.slot.filter == s.slot.filter && t.slot.waiting == s.slot.waiting
  {
    hide Wanted, ClassMatch, FirstWanted, Older, Log;
  }

  /** What others can see of the reader: over every run the slot's cursor follows the private one, and of the other
      two fields nothing changes. */
  lemma {:induction false} SlotFollows(run: seq<State>, base: u32, filter: u16, n: nat)
    requires Run(run, base, filter) && n < |run| && run[0].slot.cursor == run[0].cursor
    ensures run[n].slot.cursor == run[n].cursor
    ensures run[n].slot.filter == run[0].slot.filter && run[n].slot.waiting == run[0].slot.waiting
  {
    hide *;
    if n != 0 {
      RunParts(run, base, filter, n);
      SlotFollows(run, base, filter, n - 1);
      StepKeepsSlot(run[n - 1], run[n], filter);
    }
  }

  function Polls(s: State, filter: u16, n: nat): (t: State)
    requires s.lo <= |s.written|
    ensures t.lo == s.lo && t.written == s.written
    decreases n
  {
    if n == 0 then s else Polls(Poll(s, filter), filter, n - 1)
  }

  /** Draining: polls alone clear the flag after at most one poll per surviving record. */
  lemma {:induction false} DrainEnds(s: State, base: u32, start: u32, filter: u16, n: nat)
    requires Era(s.written, base) && Good(s, base, start, filter)
    requires s.cursor < base ==> |s.written| <= n
    requires base <= s.cursor ==> |s.written| - 1 - (s.cursor - base) <= n
    requires s.written != [] && 0 < n
    ensures Polls(s, filter, n).slot.pending == 0
    decreases n
  {
    hide Poll, Wanted;
    if s.slot.pending == 0 {
      PollsIdle(s, filter, n);
    } else {
      var t := Poll(s, filter);
      PollInEra(s, base, start, filter);
      if t.slot.pending == 0 {
        PollsIdle(t, filter, n - 1);
      } else {
        var m :| Delivers(s, t, filter, m);
        DrainEnds(t, base, start, filter, n - 1);
      }
    }
  }

  lemma {:induction false} PollsIdle(s: State, filter: u16, n: nat)
    requires s.lo <= |s.written| && s.slot.pending == 0
    ensures Polls(s, filter, n) == s
  {
    if n != 0 {
      PollsIdle(s, filter, n - 1);
    }
  }

  lemma {:induction false} PollsKeepOut(s: State, filter: u16, n: nat)
    requires s.lo <= |s.written|
    ensures s.out <= Polls(s, filter, n).out
    decreases n
  {
    if n != 0 {
      PollsKeepOut(Poll(s, filter), filter, n - 1);
    }
  }

  /** How many of the era's records are numbered up to the cursor. */
  function Passed(cursor: u32, base: u32): nat {
    if cursor < base then 0 else cursor - base + 1
  }

  /** One poll delivers record i, or leaves it wanted with the flag up and gets closer. */
  lemma DrainStep(s: State, base: u32, start: u32, filter: u16, i: nat)
    requires Era(s.written, base) && Good(s, base, start, filter) && s.slot.pending != 0
    requires s.lo <= i < |s.written| - 1 && Wanted(s.cursor, filter, s.written[i].h)
    ensures var t := Poll(s, filter);
      && Good(t, base, start, filter) && t.written == s.written && t.lo == s.lo
      && Passed(s.cursor, base) < Passed(t.cursor, base)
      && (i in t.out || (t.slot.pending != 0 && Wanted(t.cursor, filter, s.written[i].h)))
  {
    GoodBounds(s, base, start, filter);
    PollInEra(s, base, start, filter);
    hide Poll, Wanted, Good;
    var t := Poll(s, filter);
    var m :| Delivers(s, t, filter, m);
    if m == i {
      assert t.out[|s.out|] == i;
    } else {
      StillWanted(s, t, base, filter, m, i);
    }
  }

  lemma StillWanted(s: State, t: State, base: u32, filter: u16, m: nat, i: nat)
    requires Era(s.written, base) && Delivers(s, t, filter, m)
    requires s.lo <= i < |s.written| - 1 && Wanted(s.cursor, filter, s.written[i].h) && m != i
    ensures Wanted(t.cursor, filter, s.written[i].h) && t.slot.pending != 0
  {
    hide SubtypeMatch, ClassMatch;
    assert m < i;
  }

  /** And nothing is left behind: polls alone deliver every surviving wanted record other than the newest. */
  lemma {:induction false} DrainDelivers(s: State, base: u32, start: u32, filter: u16, n: nat, i: nat)
    requires Era(s.written, base) && Good(s, base, start, filter) && s.slot.pending != 0
    requires s.lo <= i < |s.written| - 1 && Wanted(s.cursor, filter, s.written[i].h)
    requires i < n + Passed(s.cursor, base)
    ensures i in Polls(s, filter, n).out
    decreases n
  {
    hide *;
    GoodBounds(s, base, start, filter);
    PassedBelow(s, base, filter, i);
    PollsOnce(s, filter, n);
    DrainStep(s, base, start, filter, i);
    var t := Poll(s, filter);
    if i in t.out {
      PollsKeepOut(t, filter, n - 1);
    } else {
      DrainDelivers(t, base, start, filter, n - 1, i);
    }
  }

  lemma PollsOnce(s: State, filter: u16, n: nat)
    requires s.lo <= |s.written| && n != 0
    ensures Polls(s, filter, n) == Polls(Poll(s, filter), filter, n - 1)
  {
    hide Poll;
  }

  lemma PassedBelow(s: State, base: u32, filter: u16, i: nat)
    requires Era(s.written, base) && i < |s.written| && Wanted(s.cursor, filter, s.written[i].h)
    requires s.cursor == 0 || base - 1 <= s.cursor <= Newest(s.written)
    ensures Passed(s.cursor, base) <= i
  {
    FreshInEra(s, base, i);
    hide SubtypeMatch, ClassMatch;
  }

  lemma WriteRestarts(s: State, t: State, filter: u16)
    requires WriteStep(s, t, filter) && Wanted(s.cursor, filter, t.written[|s.written|].h)
    ensures t.slot.pending != 0
  {
  }

  /** A wanted write always restarts the drain, whatever the flag said before: once one more record is behind it,
      polls alone deliver it, unless it was popped by then. */
  lemma WriteIsDelivered(s: State, t: State, u: State, base: u32, start: u32, filter: u16)
    requires Era(u.written, base) && Good(s, base, start, filter) && WriteStep(s, t, filter) && WriteStep(t, u, filter)
    requires Wanted(s.cursor, filter, t.written[|s.written|].h) && u.lo <= |s.written|
    ensures |s.written| in Polls(u, filter, |u.written|).out
  {
    var i := |s.written|;
    WriteRestarts(s, t, filter);
    assert forall k | 0 <= k < |t.written| :: u.written[k] == t.written[k];
    assert forall k | 0 <= k < |s.written| :: t.written[k] == s.written[k];
    EraPrefix(u.written, base, |t.written|);
    EraPrefix(u.written, base, |s.written|);
    StepKeepsGood(s, t, base, start, filter);
    StepKeepsGood(t, u, base, start, filter);
    hide Wanted, Good;
    GoodBounds(u, base, start, filter);
    DrainDelivers(u, base, start, filter, |u.written|, i);
  }

  lemma EraPrefix(written: seq<Record>, base: u32, n: nat)
    requires Era(written, base) && n <= |written|
    ensures Era(written[..n], base)
  {
  }
}
