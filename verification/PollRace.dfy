/** A poll with writes between its walk and its stores: the clear of the pending flag can fall behind the writer's set.
    What the lost set costs, and what brings the reader back. */
module PollRace {
  import opened Words
  import opened Records
  import opened RingWriter
  import opened RingReader
  import opened Delivery

  /** One write after the other. */
  ghost predicate Writes(run: seq<State>, base: u32, filter: u16) {
    && run != []
    && (forall k | 0 <= k < |run| - 1 :: WriteStep(run[k], run[k + 1], filter))
    && (forall k | 0 <= k < |run| :: Era(run[k].written, base))
  }

  /** The poll walks the ring as it is at s; its stores reach the slot as it is at t. */
  function LatePoll(s: State, t: State, filter: u16): State
    requires s.lo <= |s.written|
  {
    var p := Settle(LogWalk(Log(s), s.cursor, filter), Newest(s.written), t.slot);
    State(t.written, t.lo, p.cursor, p.slot, Poll(s, filter).out)
  }

  lemma {:induction false} WritesKeep(run: seq<State>, base: u32, filter: u16, n: nat)
    requires Writes(run, base, filter) && n < |run| && run[0].lo <= |run[0].written|
    ensures var s, t := run[0], run[n];
      && s.written <= t.written && |t.written| == |s.written| + n && s.lo <= t.lo <= |t.written|
      && t.cursor == s.cursor && t.out == s.out && (s.slot.pending != 0 ==> t.slot.pending != 0)
  {
    hide ClassMatch, Era;
    if n != 0 {
      WritesKeep(run, base, filter, n - 1);
      assert WriteStep(run[n - 1], run[n - 1 + 1], filter);
    }
  }

  /** What the poll delivers and where its cursor goes are those of a poll with nothing in between. */
  lemma LateFields(s: State, t: State, filter: u16)
    requires s.lo <= |s.written| && s.slot.pending != 0
    ensures var u, v := LatePoll(s, t, filter), Poll(s, filter);
      && u.cursor == v.cursor && u.out == v.out && u.written == t.written && u.lo == t.lo
      && u.slot.pending == if v.slot.pending == 0 then 0 else t.slot.pending
  {
    hide LogWalk, Log, FirstWanted, Older;
  }

  /** Safety is not at stake: deliveries stay in order, match, and lie behind the cursor. */
  lemma LateGood(run: seq<State>, base: u32, start: u32, filter: u16)
    requires Writes(run, base, filter) && Good(run[0], base, start, filter) && run[0].slot.pending != 0
    ensures var u := LatePoll(run[0], run[|run| - 1], filter);
      Good(u, base, start, filter) && run[0].cursor <= u.cursor && run[0].out <= u.out
  {
    var s, t := run[0], run[|run| - 1];
    GoodBounds(s, base, start, filter);
    WritesKeep(run, base, filter, |run| - 1);
    LateFields(s, t, filter);
    assert Era(s.written, base) && Era(t.written, base);
    PollInEra(s, base, start, filter);
    GoodMoves(Poll(s, filter), LatePoll(s, t, filter), base, start, filter);
    hide LatePoll, Wanted, Good;
    StepKeepsGood(s, Poll(s, filter), base, start, filter);
  }

  lemma GoodMoves(v: State, u: State, base: u32, start: u32, filter: u16)
    requires Good(v, base, start, filter) && Era(u.written, base) && v.written <= u.written && u.lo <= |u.written|
    requires u.cursor == v.cursor && u.out == v.out
    ensures Good(u, base, start, filter)
  {
    hide Matches;
    assert forall k | 0 <= k < |v.written| :: u.written[k] == v.written[k];
  }

  /** The bound: with the flag clear, at most one of the records the walk could see is surviving and wanted, the
      newest one then; everything else wanted was written since. */
  lemma LateLag(run: seq<State>, base: u32, start: u32, filter: u16, i: nat)
    requires Writes(run, base, filter) && Good(run[0], base, start, filter) && run[0].slot.pending != 0
    requires var u := LatePoll(run[0], run[|run| - 1], filter);
      u.slot.pending == 0 && u.lo <= i < |u.written| && Wanted(u.cursor, filter, u.written[i].h)
    ensures |run[0].written| - 1 <= i
  {
    var s, t := run[0], run[|run| - 1];
    GoodBounds(s, base, start, filter);
    WritesKeep(run, base, filter, |run| - 1);
    LateFields(s, t, filter);
    assert Era(s.written, base);
    PollInEra(s, base, start, filter);
    var v := Poll(s, filter);
    if i < |s.written| - 1 {
      assert t.written[i] == s.written[i];
      if v.out != s.out {
        StepKeepsGood(s, v, base, start, filter);
        GoodBounds(v, base, start, filter);
        FreshInEra(v, base, i);
      }
    }
  }

  /** The flag is lost: whenever a poll that finds nothing is overtaken by two wanted writes, it clears the flag with
      both of them surviving, undelivered and wanted; more polls change nothing. */
  lemma FlagLost(run: seq<State>, base: u32, start: u32, filter: u16, i: nat, j: nat, n: nat)
    requires Writes(run, base, filter) && Good(run[0], base, start, filter) && run[0].slot.pending != 0
    requires FirstWanted(Older(Log(run[0])), run[0].cursor, filter).None?
    requires var s, t := run[0], run[|run| - 1];
      && |s.written| <= i < j < |t.written| && t.lo <= i
      && Wanted(s.cursor, filter, t.written[i].h) && Wanted(s.cursor, filter, t.written[j].h)
    ensures var t, u := run[|run| - 1], LatePoll(run[0], run[|run| - 1], filter);
      && t.slot.pending != 0 && u.slot.pending == 0 && !CaughtUp(u, filter)
      && i !in u.out && j !in u.out && u.lo <= |u.written| && Polls(u, filter, n) == u
  {
    var s, t := run[0], run[|run| - 1];
    GoodBounds(s, base, start, filter);
    WritesKeep(run, base, filter, |run| - 1);
    LateFields(s, t, filter);
    assert Era(s.written, base);
    PollMiss(s, base, filter);
    OutInside(s, base, start, filter);
    var u := LatePoll(s, t, filter);
    hide Wanted, LatePoll, Good;
    PollsIdle(u, filter, n);
  }

  lemma OutInside(s: State, base: u32, start: u32, filter: u16)
    requires Good(s, base, start, filter)
    ensures forall j | 0 <= j < |s.out| :: s.out[j] < |s.written|
  {
    hide Matches;
  }

  /** And nothing but the flag is lost: the next write of the reader's class sets it again, and from then on polls
      alone deliver every surviving wanted record other than the newest, those of the race included. */
  lemma NextWriteRestarts(run: seq<State>, v: State, base: u32, start: u32, filter: u16, i: nat)
    requires Writes(run, base, filter) && Good(run[0], base, start, filter) && run[0].slot.pending != 0
    requires var u := LatePoll(run[0], run[|run| - 1], filter);
      WriteStep(u, v, filter) && ClassMatch(v.written[|u.written|].h.kind, filter)
    requires Era(v.written, base) && v.lo <= i < |v.written| - 1 && Wanted(v.cursor, filter, v.written[i].h)
    ensures v.lo <= |v.written| && i in Polls(v, filter, |v.written|).out
  {
    var u := LatePoll(run[0], run[|run| - 1], filter);
    LateGood(run, base, start, filter);
    EraPrefix(v.written, base, |u.written|);
    StepKeepsGood(u, v, base, start, filter);
    hide LatePoll, Wanted, Good;
    DrainDelivers(v, base, start, filter, |v.written|, i);
  }
}
