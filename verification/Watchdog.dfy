/** The stall watchdog of the reader loop: when the ring's fill level moves but nothing has been consumed for a
    while, move the cursor to the newest record; give up when that keeps bringing nothing back. */
module Watchdog {
  import opened Words
  import opened Records
  import opened RingWriter
  import opened RingReader
  import Delivery

  const STALL_SECS: nat := 15
  const MAX_REANCHOR: nat := 4

  /** One turn of the loop behind the poll: what the poll left in the private cursor and in the slot's, the header
      fields, and the clock at the test, at the re-anchor and at the end of the turn. */
  datatype Turn = Turn(got: bool, cursor: u32, slot: u32, valid: u32, newest: u32, test: nat, anchor: nat, end: nat)

  /** lastEmit 0 means that nothing was consumed yet; slot is the cursor field of the reader's slot. */
  datatype Dog = Dog(lastEmit: nat, lastValid: u32, anchors: nat, cursor: u32, slot: u32)

  datatype Act = Rest | Reanchor | Exit

  const START: Dog := Dog(0, 0, 0, 0, 0)

  function ActOf(s: Dog, e: Turn): Act {
    if s.lastEmit == 0 || e.valid == s.lastValid || e.test - s.lastEmit < STALL_SECS then Rest
    else if MAX_REANCHOR <= s.anchors + 1 then Exit else Reanchor
  }

  function Next(s: Dog, e: Turn): Dog {
    var fires := ActOf(s, e) != Rest;
    Dog(if e.got && ActOf(s, e) != Exit then e.end else if fires then e.anchor else s.lastEmit,
        if s.lastEmit != 0 && ActOf(s, e) != Exit then e.valid else s.lastValid,
        if e.got && ActOf(s, e) != Exit then 0 else if fires then s.anchors + 1 else s.anchors,
        if fires then e.newest else e.cursor,
        if fires then e.newest else e.slot)
  }

  /** The variables of the loop. */
  class Loop {
    var lastEmit: nat
    var lastValid: u32
    var anchors: nat
    var cursor: u32
    var slot: u32

    constructor ()
      ensures Abstract() == START
    {
      lastEmit, lastValid, anchors, cursor, slot := 0, 0, 0, 0, 0;
    }

    ghost function Abstract(): Dog
      reads this
    {
      Dog(lastEmit, lastValid, anchors, cursor, slot)
    }

    /** The watchdog first, then the record of a consumption. */
    method EndTurn(e: Turn) returns (stop: bool)
      modifies this
      ensures Abstract() == Next(old(Abstract()), e) && stop == (ActOf(old(Abstract()), e) == Exit)
    {
      cursor, slot := e.cursor, e.slot;
      if lastEmit != 0 {
        var v := e.valid;
        if v != lastValid {
          if e.test - lastEmit >= STALL_SECS {
            cursor := e.newest;
            slot := cursor;
            lastEmit := e.anchor;
            anchors := anchors + 1;
            if anchors >= MAX_REANCHOR {
              return true;
            }
          }
          lastValid := v;
        }
      }
      if e.got {
        lastEmit := e.end;
        anchors := 0;
      }
      stop := false;
    }
  }

  // ---------- runs ----------

  function Run(es: seq<Turn>): Dog {
    if es == [] then START else Next(Run(es[..|es| - 1]), es[|es| - 1])
  }

  /** What the watchdog does in turn i. */
  function ActAt(es: seq<Turn>, i: nat): Act
    requires i < |es|
  {
    ActOf(Run(es[..i]), es[i])
  }

  /** The loop is left at the first Exit. */
  predicate Alive(es: seq<Turn>) {
    forall i | 0 <= i < |es| :: ActAt(es, i) != Exit
  }

  /** The clock shows positive times and never goes back. */
  predicate Clocked(es: seq<Turn>) {
    && (forall i | 0 <= i < |es| :: 0 < es[i].test <= es[i].anchor <= es[i].end)
    && (forall i, j | 0 <= i < j < |es| :: es[i].end <= es[j].test)
  }

  /** Turn i recorded a consumption, or re-anchored. */
  predicate Marked(es: seq<Turn>, i: nat)
    requires i < |es|
  {
    es[i].got || ActAt(es, i) != Rest
  }

  function MarkTime(e: Turn): nat {
    if e.got then e.end else e.anchor
  }

  predicate Consumed(es: seq<Turn>) {
    exists i :: 0 <= i < |es| && es[i].got
  }

  lemma Prefix(es: seq<Turn>, n: nat)
    requires n <= |es|
    ensures Clocked(es) ==> Clocked(es[..n])
    ensures forall i | 0 <= i < n :: ActAt(es[..n], i) == ActAt(es, i)
    ensures Alive(es) ==> Alive(es[..n])
  {
    hide ActOf, Run;
    var p := es[..n];
    forall i | 0 <= i < n ensures ActAt(p, i) == ActAt(es, i) {
      assert p[..i] == es[..i];
    }
    if Alive(es) {
      forall i | 0 <= i < n ensures ActAt(p, i) != Exit {
        assert ActAt(es, i) != Exit;
      }
    }
  }

  lemma LastTurn(es: seq<Turn>)
    requires es != []
    ensures var n := |es| - 1; Run(es) == Next(Run(es[..n]), es[n]) && ActAt(es, n) == ActOf(Run(es[..n]), es[n])
    ensures var n := |es| - 1; Consumed(es) == (Consumed(es[..n]) || es[n].got)
  {
    var n := |es| - 1;
    if i :| 0 <= i < |es[..n]| && es[..n][i].got {
      assert es[i].got;
    }
    hide Next, ActOf;
  }

  /** lastEmit is 0 exactly before the first consumption, and no earlier than any mark. */
  lemma {:induction false} EmitIsLatest(es: seq<Turn>)
    requires Clocked(es) && Alive(es)
    ensures (Run(es).lastEmit != 0) == Consumed(es)
    ensures forall i | 0 <= i < |es| && Marked(es, i) :: MarkTime(es[i]) <= Run(es).lastEmit
    ensures es != [] ==> Run(es).lastEmit <= es[|es| - 1].end
    decreases |es|
  {
    hide Marked, ActAt, Consumed;
    if es == [] {
      NoneConsumed();
    } else {
      var n := |es| - 1;
      Prefix(es, n);
      EmitIsLatest(es[..n]);
      LastTurn(es);
      assert ActAt(es, n) != Exit;
      forall i | 0 <= i < |es| && Marked(es, i) ensures MarkTime(es[i]) <= Run(es).lastEmit {
        MarkedPrefix(es, n, i);
        LatestMark(es, i);
      }
    }
  }

  lemma NoneConsumed()
    ensures !Consumed([]) && Run([]) == START
  {
  }

  lemma MarkedPrefix(es: seq<Turn>, n: nat, i: nat)
    requires n <= |es| && i < |es|
    ensures i < n ==> Marked(es[..n], i) == Marked(es, i) && es[..n][i] == es[i]
    ensures Marked(es, i) == (es[i].got || ActAt(es, i) != Rest)
  {
    hide ActAt, Alive, Clocked;
    Prefix(es, n);
  }

  lemma LatestMark(es: seq<Turn>, i: nat)
    requires es != [] && i < |es| && Clocked(es) && ActAt(es, |es| - 1) != Exit
    requires es[i].got || ActAt(es, i) != Rest
    requires i < |es| - 1 ==> MarkTime(es[i]) <= Run(es[..|es| - 1]).lastEmit
    requires 1 < |es| ==> Run(es[..|es| - 1]).lastEmit <= es[|es| - 2].end
    ensures MarkTime(es[i]) <= Run(es).lastEmit
  {
    LastTurn(es);
    hide Run;
  }

  /** No re-anchor before something was consumed, none unless the fill level differs from the one last recorded,
      and none within 15 seconds of a recorded consumption or of another re-anchor. */
  lemma ReanchorSpaced(es: seq<Turn>, i: nat)
    requires Clocked(es) && Alive(es) && i < |es| && ActAt(es, i) == Reanchor
    ensures Consumed(es[..i]) && es[i].valid != Run(es[..i]).lastValid
    ensures forall j | 0 <= j < i && Marked(es, j) :: MarkTime(es[j]) + 15 <= es[i].test
  {
    Prefix(es, i);
    EmitIsLatest(es[..i]);
    hide Marked, Consumed, Run;
    forall j | 0 <= j < i && Marked(es, j) ensures MarkTime(es[j]) + 15 <= es[i].test {
      MarkedPrefix(es, i, j);
    }
  }

  function PrefixClock(es: seq<Turn>, i: nat): (p: seq<Turn>)
    requires Clocked(es) && i <= |es|
    ensures p == es[..i] && Clocked(p)
  {
    es[..i]
  }

  /** lastEmit is the time of some mark. */
  lemma {:induction false} EmitIsMark(es: seq<Turn>) returns (j: nat)
    requires Clocked(es) && Alive(es) && Run(es).lastEmit != 0
    ensures j < |es| && Marked(es, j) && MarkTime(es[j]) == Run(es).lastEmit
    decreases |es|
  {
    var n := |es| - 1;
    Prefix(es, n);
    LastTurn(es);
    assert ActAt(es, n) != Exit;
    hide Alive, Clocked, Consumed, ActAt, Run;
    if es[n].got || ActAt(es, n) != Rest {
      j := n;
    } else {
      j := EmitIsMark(es[..n]);
      MarkedPrefix(es, n, j);
    }
  }

  /** The watchdog fires exactly when something was consumed before, the level differs from the recorded one, and
      every consumption and re-anchor before this turn is at least 15 s old. Whether this very turn consumed a record
      plays no part. */
  lemma FiresIff(es: seq<Turn>, i: nat)
    requires Clocked(es) && i < |es| && Alive(es[..i])
    ensures ActAt(es, i) != Rest <==>
      && Consumed(es[..i]) && es[i].valid != Run(es[..i]).lastValid
      && forall j | 0 <= j < i && Marked(es[..i], j) :: MarkTime(es[j]) + 15 <= es[i].test
  {
    var p := PrefixClock(es, i);
    EmitIsLatest(p);
    if Run(p).lastEmit != 0 {
      var j := EmitIsMark(p);
      assert p[j] == es[j];
    }
    hide Marked, Consumed, Run, Alive, Clocked;
  }

  /** The level last recorded is the one of the turn before, once a consumption came before that turn. */
  lemma LevelIsLast(es: seq<Turn>)
    requires es != [] && Clocked(es) && Alive(es)
    ensures var n := |es| - 1; Run(es).lastValid == if Consumed(es[..n]) then es[n].valid else 0
    decreases |es|
  {
    var n := |es| - 1;
    Prefix(es, n);
    EmitIsLatest(es[..n]);
    LastTurn(es);
    assert ActAt(es, n) != Exit;
    hide Consumed, ActAt;
    if Run(es[..n]).lastEmit == 0 {
      if n != 0 {
        LastTurn(es[..n]);
        LevelIsLast(es[..n]);
      } else {
        NoneConsumed();
      }
    }
  }

  // ---------- what a re-anchor does ----------

  /** Over every run: a turn that fires leaves both cursors at its newest number, any other turn leaves them as the
      poll did. */
  lemma {:induction false} CursorAfter(es: seq<Turn>)
    requires es != []
    ensures var n := |es| - 1; var d := Run(es);
      if ActAt(es, n) != Rest then d.cursor == d.slot == es[n].newest
      else d.cursor == es[n].cursor && d.slot == es[n].slot
  {
    LastTurn(es);
    hide Run, ActOf;
  }

  /** So with the cursor a turn that fires leaves behind, no record in the ring is wanted, across any wrap, and the
      next one written is wanted if and only if it matches. */
  lemma {:induction false} ReanchorSkips(es: seq<Turn>, log: seq<Record>, filter: u16, r: Record)
    requires es != [] && ActAt(es, |es| - 1) != Rest
    requires Chained(log, es[|es| - 1].newest) && |log| < 0x7FFF_FFFF && r.h.seqno == NextSeq(es[|es| - 1].newest)
    ensures forall x | x in log :: !Wanted(Run(es).cursor, filter, x.h)
    ensures Wanted(Run(es).cursor, filter, r.h) <==> Delivery.Matches(r.h, filter)
  {
    CursorAfter(es);
    var newest := es[|es| - 1].newest;
    NextIsFresh(newest);
    hide ClassMatch, SubtypeMatch, Run, Fresh, NextSeq, Chained;
    forall x | x in log ensures !Fresh(newest, x.h.seqno) {
      NothingFresh(log, newest, x);
    }
  }

  lemma NextIsFresh(newest: u32)
    ensures Fresh(newest, NextSeq(newest))
  {
  }

  lemma NothingFresh(log: seq<Record>, newest: u32, x: Record)
    requires Chained(log, newest) && |log| < 0x7FFF_FFFF && x in log
    ensures !Fresh(newest, x.h.seqno)
  {
    var i :| 0 <= i < |log| && log[i] == x;
    var m := |log| - 1;
    ChainedSeq(log, newest, i);
    ChainedSeq(log, newest, m);
    var c := log[0].h.seqno - 1;
    Delivery.FreshIsLater(c + m, c + i);
    hide Fresh, Chained;
  }

  /** And once one more record follows it, such a match is what the next walk delivers. */
  lemma {:induction false} ReanchorDelivers(es: seq<Turn>, log: seq<Record>, filter: u16, r: Record, last: Record)
    requires es != [] && ActAt(es, |es| - 1) != Rest
    requires Chained(log, es[|es| - 1].newest) && |log| < 0x7FFF_FFFF && r.h.seqno == NextSeq(es[|es| - 1].newest)
    requires Delivery.Matches(r.h, filter)
    ensures LogWalk(log + [r, last], Run(es).cursor, filter) == Outcome(Some(r), r.h.seqno)
  {
    ReanchorSkips(es, log, filter, r);
    hide *;
    var more := log + [r, last];
    assert forall i | 0 <= i < |log| :: more[i] == log[i];
    Delivery.FirstWantedIs(more, Run(es).cursor, filter, |log|);
  }

  // ---------- giving up ----------

  /** Re-anchors since the last recorded consumption. */
  function Fruitless(es: seq<Turn>): nat {
    if es == [] || es[|es| - 1].got then 0
    else Fruitless(es[..|es| - 1]) + if ActAt(es, |es| - 1) != Rest then 1 else 0
  }

  /** When the last consumption was recorded. */
  function LastGot(es: seq<Turn>): nat {
    if es == [] then 0 else if es[|es| - 1].got then es[|es| - 1].end else LastGot(es[..|es| - 1])
  }

  lemma {:induction false} AnchorsCount(es: seq<Turn>)
    requires Clocked(es) && Alive(es)
    ensures Run(es).anchors == Fruitless(es)
    ensures LastGot(es) + 15 * Fruitless(es) <= Run(es).lastEmit
    decreases |es|
  {
    if es != [] {
      var n := |es| - 1;
      Prefix(es, n);
      AnchorsCount(es[..n]);
      LastTurn(es);
      assert ActAt(es, n) != Exit;
      hide Alive, Consumed, ActAt, Run;
      assert es[n].test <= es[n].anchor;
    }
  }

  /** The loop gives up exactly on the fourth re-anchor without a recorded consumption in between. */
  lemma ExitIffFourth(es: seq<Turn>, i: nat)
    requires Clocked(es) && i < |es| && Alive(es[..i])
    ensures ActAt(es, i) == Exit <==> ActAt(es, i) != Rest && Fruitless(es[..i]) >= 3
  {
    AnchorsCount(PrefixClock(es, i));
    hide Run, Fruitless, Alive;
  }

  /** So at least a minute passes between the last consumption and giving up. */
  lemma ExitAfterMinute(es: seq<Turn>, i: nat)
    requires Clocked(es) && i < |es| && Alive(es[..i]) && ActAt(es, i) == Exit
    ensures Consumed(es[..i]) && LastGot(es[..i]) + 60 <= es[i].test
  {
    var p := PrefixClock(es, i);
    AnchorsCount(p);
    EmitIsLatest(p);
    hide Run, Fruitless, Alive, Consumed, LastGot;
  }
}
