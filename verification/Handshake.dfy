/** The two views of a write's last act are one: the loop over the slots in the ring's memory, and the writer's steps
    between taking and posting write_lock. So the wakeup guarantee proved of the steps holds of the ring. */
module Handshake {
  import opened Words
  import opened Records
  import opened RingWriter
  import L = Locking

  /** The slots and semaphores in memory are those of the step system. */
  ghost predicate Shows(s: L.Sys, slots: seq<Slot>, notify: seq<nat>) {
    && |s.readers| == |slots| == |notify|
    && forall i | 0 <= i < |slots| ::
         && (s.readers[i].pending <==> slots[i].pending != 0)
         && (s.readers[i].waiting <==> slots[i].waiting != 0)
         && s.readers[i].notify == notify[i]
  }

  /** The writer alone: the readers' places, the count and read_lock stay. */
  ghost predicate WriterOnly(s: L.Sys, t: L.Sys) {
    && t.readLock == s.readLock && t.count == s.count && |t.readers| == |s.readers|
    && forall i | 0 <= i < |s.readers| :: t.readers[i].pc == s.readers[i].pc
  }

  predicate Hit(slots: seq<Slot>, kind: u16, i: nat)
    requires i < |slots|
  {
    And(kind, And(slots[i].filter, 0xFF00)) != 0
  }

  function ByWriter(matches: bool): L.Event {
    L.ByWriter(L.Choice(L.Wait, false, matches))
  }

  /** What the loop has made of the slots and the semaphores after i rounds. */
  ghost predicate After(slots: seq<Slot>, notify: seq<nat>, kind: u16, i: nat, slots': seq<Slot>, notify': seq<nat>) {
    && i <= |slots| == |notify| == |slots'| == |notify'|
    && forall j | 0 <= j < |slots| ::
         var hit := j < i && Hit(slots, kind, j);
         && slots'[j] == (if hit then slots[j].(pending := 1) else slots[j])
         && notify'[j] == notify[j] + if hit && slots[j].waiting != 0 then 1 else 0
  }

  lemma AfterNone(slots: seq<Slot>, notify: seq<nat>, kind: u16)
    requires |slots| == |notify|
    ensures After(slots, notify, kind, 0, slots, notify)
  {
  }

  lemma AfterAll(slots: seq<Slot>, notify: seq<nat>, kind: u16, slots': seq<Slot>, notify': seq<nat>)
    requires After(slots, notify, kind, |slots|, slots', notify')
    ensures slots' == Signalled(slots, kind) && notify' == Posted(notify, slots, kind)
  {
    hide And, ClassMatch;
    forall j | 0 <= j < |slots| ensures ClassMatch(kind, slots[j].filter) <==> Hit(slots, kind, j) {
      ClassMatchIff(kind, slots[j].filter);
    }
  }

  /** One round: one step past a slot of another class, two past a matching one. */
  lemma Round(s: L.Sys, slots: seq<Slot>, notify: seq<nat>, kind: u16, i: nat, slots': seq<Slot>, notify': seq<nat>)
    returns (run: seq<L.Event>, t: L.Sys, slots'': seq<Slot>, notify'': seq<nat>)
    requires i < |slots| && s.writer == L.Scan(i)
    requires After(slots, notify, kind, i, slots', notify') && Shows(s, slots', notify')
    ensures After(slots, notify, kind, i + 1, slots'', notify'') && Shows(t, slots'', notify'')
    ensures t == L.Run(s, run) && t.writer == L.Scan(i + 1) && t.writeLock == s.writeLock && WriterOnly(s, t)
    ensures forall e | e in run :: e.ByWriter?
  {
    hide And;
    var e := ByWriter(Hit(slots, kind, i));
    var u := L.Step(s, e);
    if Hit(slots, kind, i) {
      run, t := [e, e], L.Step(u, e);
      OneStep(s, e);
      OneStep(u, e);
      RunJoin(s, [e], [e]);
      assert run == [e] + [e];
      slots'' := slots'[i := slots'[i].(pending := 1)];
      notify'' := if slots[i].waiting != 0 then notify'[i := notify'[i] + 1] else notify';
    } else {
      run, t, slots'', notify'' := [e], u, slots', notify';
      OneStep(s, e);
    }
  }

  lemma OneStep(s: L.Sys, e: L.Event)
    ensures L.Run(s, [e]) == L.Step(s, e)
  {
    hide L.Step;
    assert [e][1..] == [];
  }

  lemma {:induction false} RunJoin(s: L.Sys, a: seq<L.Event>, b: seq<L.Event>)
    ensures L.Run(s, a + b) == L.Run(L.Run(s, a), b)
    decreases |a|
  {
    hide L.Step;
    if a == [] {
      assert a + b == b;
    } else {
      assert (a + b)[1..] == a[1..] + b;
      RunJoin(L.Step(s, a[0]), a[1..], b);
    }
  }

  lemma {:induction false} Rounds(s: L.Sys, slots: seq<Slot>, notify: seq<nat>, kind: u16, i: nat, slots': seq<Slot>,
                                  notify': seq<nat>)
    returns (run: seq<L.Event>)
    requires i <= |slots| && s.writer == L.Scan(i)
    requires After(slots, notify, kind, i, slots', notify') && Shows(s, slots', notify')
    ensures var t := L.Run(s, run);
      && Shows(t, Signalled(slots, kind), Posted(notify, slots, kind))
      && t.writer == L.Quiet && t.writeLock == s.writeLock + 1 && WriterOnly(s, t)
    ensures forall e | e in run :: e.ByWriter?
    decreases |slots| - i
  {
    if i < |slots| {
      hide Shows, After, L.Run, Signalled, Posted;
      var front, t, next, posts := Round(s, slots, notify, kind, i, slots', notify');
      var rest := Rounds(t, slots, notify, kind, i + 1, next, posts);
      run := front + rest;
      RunJoin(s, front, rest);
    } else {
      AfterAll(slots, notify, kind, slots', notify');
      hide After, Signalled, Posted;
      run := [ByWriter(false)];
      OneStep(s, run[0]);
    }
  }

  /** What the loop over the slots stores and posts is what the writer's steps under the lock, from the first slot to
      the release of write_lock, make of the same fields. */
  lemma SignalIsScan(s: L.Sys, slots: seq<Slot>, notify: seq<nat>, kind: u16) returns (run: seq<L.Event>)
    requires Shows(s, slots, notify) && s.writer == L.Scan(0)
    ensures var t := L.Run(s, run);
      && Shows(t, Signalled(slots, kind), Posted(notify, slots, kind))
      && t.writer == L.Quiet && t.writeLock == s.writeLock + 1 && WriterOnly(s, t)
    ensures forall e | e in run :: e.ByWriter?
  {
    AfterNone(slots, notify, kind);
    hide *;
    run := Rounds(s, slots, notify, kind, 0, slots, notify);
  }

  /** No lost wakeup, in the ring's own fields: after a write, every reader that sleeps or is on its way to sleep with
      its flag up has a post to consume. */
  lemma WriteWakes(s: L.Sys, slots: seq<Slot>, notify: seq<nat>, kind: u16, k: nat)
    requires L.Inv(s) && Shows(s, slots, notify) && s.writer == L.Scan(0)
    requires k < |slots| && L.Sleeping(s.readers[k].pc) && Signalled(slots, kind)[k].pending != 0
    ensures 0 < Posted(notify, slots, kind)[k]
  {
    var run := SignalIsScan(s, slots, notify, kind);
    L.RunInv(s, run);
    hide L.Run, L.Locks, Signalled, Posted;
    assert L.Wakeable(L.Run(s, run), k);
  }
}
