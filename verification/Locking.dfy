/** The stock readers-writer lock and the wait/notify handshake as a step system: any number of readers, each with
    its own slot, against the one writer. Semaphores are counters; a wait on a zero counter cannot move. */
module Locking {
  import opened Words

  /** What a reader takes the lock for. */
  datatype Op = Wait | Fetch | Register

  datatype Pc =
    | Idle
    | Lock(op: Op)       // wait for read_lock
    | Inc(op: Op)        // count the reader in
    | Gate(op: Op)       // first in: wait for write_lock
    | Enter(op: Op)      // post read_lock
    | Inside(op: Op)
    | Found              // pending was set: clear waiting
    | Empty              // pending was clear: set waiting
    | Unlock(sleep: bool)
    | Dec(sleep: bool)
    | Leave(sleep: bool) // last out: post write_lock
    | Exit(sleep: bool)  // post read_lock
    | Parked             // wait for notify

  datatype Reader = Reader(pc: Pc, pending: bool, waiting: bool, notify: nat)

  datatype WriterPc = Quiet | Ask | Scan(i: nat) | Post(i: nat)

  datatype Sys = Sys(readLock: nat, writeLock: nat, count: int, readers: seq<Reader>, writer: WriterPc)

  /** The nondeterminism of a step: the operation begun, whether a fetch found nothing more, whether a record's
      class matches a slot's filter. */
  datatype Choice = Choice(op: Op, drained: bool, matches: bool)

  // ---------- steps ----------

  function ReaderStep(s: Sys, k: nat, c: Choice): Option<Sys>
    requires k < |s.readers|
  {
    var r := s.readers[k];
    match r.pc
    case Idle => Some(Move(s, k, Lock(c.op)))
    case Lock(op) => if s.readLock == 0 then None else Some(Move(s.(readLock := s.readLock - 1), k, Inc(op)))
    case Inc(op) =>
      var n := s.count + 1;
      Some(Move(s.(count := n), k, if n == 1 then Gate(op) else Enter(op)))
    case Gate(op) => if s.writeLock == 0 then None else Some(Move(s.(writeLock := s.writeLock - 1), k, Enter(op)))
    case Enter(op) => Some(Move(s.(readLock := s.readLock + 1), k, Inside(op)))
    case Inside(op) => Some(Put(s, k, Section(r, op, c)))
    case Found => Some(Put(s, k, r.(pc := Unlock(false), waiting := false)))
    case Empty => Some(Put(s, k, r.(pc := Unlock(true), waiting := true)))
    case Unlock(z) => if s.readLock == 0 then None else Some(Move(s.(readLock := s.readLock - 1), k, Dec(z)))
    case Dec(z) =>
      var n := s.count - 1;
      Some(Move(s.(count := n), k, if n == 0 then Leave(z) else Exit(z)))
    case Leave(z) => Some(Move(s.(writeLock := s.writeLock + 1), k, Exit(z)))
    case Exit(z) => Some(Move(s.(readLock := s.readLock + 1), k, if z then Parked else Idle))
    case Parked => if r.notify == 0 then None else Some(Put(s, k, r.(pc := Lock(Wait), notify := r.notify - 1)))
  }

  /** The work under the lock: test the predicate, or fetch and perhaps mark the slot drained, or register. */
  function Section(r: Reader, op: Op, c: Choice): Reader {
    match op
    case Wait => r.(pc := if r.pending then Found else Empty)
    case Fetch => r.(pc := Unlock(false), pending := r.pending && !c.drained)
    case Register => r.(pc := Unlock(false), pending := true)
  }

  function Put(s: Sys, k: nat, r: Reader): Sys
    requires k < |s.readers|
  {
    s.(readers := s.readers[k := r])
  }

  function Move(s: Sys, k: nat, pc: Pc): Sys
    requires k < |s.readers|
  {
    Put(s, k, s.readers[k].(pc := pc))
  }

  /** The writer stores its record under the lock and then visits every slot in turn. */
  function WriterStep(s: Sys, c: Choice): Option<Sys> {
    match s.writer
    case Quiet => Some(s.(writer := Ask))
    case Ask => if s.writeLock == 0 then None else Some(s.(writeLock := s.writeLock - 1, writer := Scan(0)))
    case Scan(i) =>
      if |s.readers| <= i then Some(s.(writeLock := s.writeLock + 1, writer := Quiet))
      else if !c.matches then Some(s.(writer := Scan(i + 1)))
      else Some(Put(s, i, s.readers[i].(pending := true)).(writer := Post(i)))
    case Post(i) =>
      if |s.readers| <= i then None
      else
        var r := s.readers[i];
        Some(Put(s, i, if r.waiting then r.(notify := r.notify + 1) else r).(writer := Scan(i + 1)))
  }

  datatype Event = ByReader(k: nat, c: Choice) | ByWriter(c: Choice)

  /** A blocked or absent actor leaves the state alone. */
  function Step(s: Sys, e: Event): Sys {
    var t := match e {
      case ByReader(k, c) => if k < |s.readers| then ReaderStep(s, k, c) else None
      case ByWriter(c) => WriterStep(s, c)
    };
    if t.Some? then t.value else s
  }

  function Run(s: Sys, run: seq<Event>): Sys
    decreases |run|
  {
    if run == [] then s else Run(Step(s, run[0]), run[1..])
  }

  /** Both locks free, nobody counted; the slots as the mapping was created. */
  predicate Start(s: Sys) {
    && s.readLock == 1 && s.writeLock == 1 && s.count == 0 && s.writer == Quiet
    && forall k | 0 <= k < |s.readers| :: s.readers[k] == Reader(Idle, false, false, 0)
  }

  // ---------- counting readers by where they are ----------

  datatype Region = Counted | AtMid | AtGate | AtLeave

  predicate At(pc: Pc, g: Region) {
    match g
    case Counted => pc.Gate? || pc.Enter? || pc.Inside? || pc.Found? || pc.Empty? || pc.Unlock? || pc.Dec?
    case AtMid => pc.Inc? || pc.Enter? || pc.Dec? || pc.Exit?
    case AtGate => pc.Gate?
    case AtLeave => pc.Leave?
  }

  function One(b: bool): nat {
    if b then 1 else 0
  }

  function Tally(rs: seq<Reader>, g: Region): nat {
    if rs == [] then 0 else Tally(rs[..|rs| - 1], g) + One(At(rs[|rs| - 1].pc, g))
  }

  lemma {:induction false} TallyPut(rs: seq<Reader>, k: nat, r: Reader, g: Region)
    requires k < |rs|
    ensures Tally(rs[k := r], g) == Tally(rs, g) - One(At(rs[k].pc, g)) + One(At(r.pc, g))
    ensures One(At(rs[k].pc, g)) <= Tally(rs, g)
    decreases |rs|
  {
    var n := |rs| - 1;
    var t := rs[k := r];
    if k == n {
      assert t[..n] == rs[..n];
    } else {
      TallyPut(rs[..n], k, r, g);
      assert t[..n] == rs[..n][k := r];
    }
  }

  lemma {:induction false} TallyTwo(rs: seq<Reader>, j: nat, k: nat, g: Region)
    requires j < k < |rs| && At(rs[j].pc, g) && At(rs[k].pc, g)
    ensures 2 <= Tally(rs, g)
    decreases |rs|
  {
    var n := |rs| - 1;
    if k == n {
      TallyPut(rs[..n], j, rs[j], g);
    } else {
      TallyTwo(rs[..n], j, k, g);
    }
  }

  lemma {:induction false} SomeoneAt(rs: seq<Reader>, g: Region) returns (k: nat)
    requires 0 < Tally(rs, g)
    ensures k < |rs| && At(rs[k].pc, g)
  {
    var n := |rs| - 1;
    if At(rs[n].pc, g) {
      k := n;
    } else {
      k := SomeoneAt(rs[..n], g);
    }
  }

  lemma {:induction false} NobodyAt(rs: seq<Reader>, g: Region)
    requires forall k | 0 <= k < |rs| :: !At(rs[k].pc, g)
    ensures Tally(rs, g) == 0
  {
    if rs != [] {
      NobodyAt(rs[..|rs| - 1], g);
    }
  }

  // ---------- the invariant ----------

  /** The readers hold write_lock together: from the first one's entry to the last one's post. */
  predicate Held(s: Sys) {
    (0 < s.count && Tally(s.readers, AtGate) == 0) || 0 < Tally(s.readers, AtLeave)
  }

  predicate Writing(s: Sys) {
    s.writer.Scan? || s.writer.Post?
  }

  predicate Locks(s: Sys) {
    && s.readLock + Tally(s.readers, AtMid) + Tally(s.readers, AtGate) + Tally(s.readers, AtLeave) == 1
    && s.count == Tally(s.readers, Counted)
    && (0 < Tally(s.readers, AtGate) ==> s.count == 1)
    && (0 < Tally(s.readers, AtLeave) ==> s.count == 0)
    && s.writeLock + One(Writing(s)) + One(Held(s)) == 1
  }

  /** Committed to sleep, or asleep. */
  predicate Sleeping(pc: Pc) {
    pc.Parked? || ((pc.Unlock? || pc.Dec? || pc.Leave? || pc.Exit?) && pc.sleep)
  }

  /** A sleeper has told the writer so; and work for it means a post is there, or coming. */
  predicate Wakeable(s: Sys, k: nat)
    requires k < |s.readers|
  {
    var r := s.readers[k];
    && (r.pc.Empty? ==> !r.pending)
    && (Sleeping(r.pc) ==> r.waiting && (r.pending ==> 0 < r.notify || s.writer == Post(k)))
  }

  predicate Inv(s: Sys) {
    && Locks(s)
    && (s.writer.Post? ==> s.writer.i < |s.readers|)
    && forall k | 0 <= k < |s.readers| :: Wakeable(s, k)
  }

  lemma StartInv(s: Sys)
    requires Start(s)
    ensures Inv(s)
  {
    NobodyAt(s.readers, Counted);
    NobodyAt(s.readers, AtMid);
    NobodyAt(s.readers, AtGate);
    NobodyAt(s.readers, AtLeave);
    hide Tally;
  }

  /** A reader inside its section keeps the writer out of its own. */
  lemma Exclusion(s: Sys, k: nat)
    requires Inv(s) && k < |s.readers| && (s.readers[k].pc.Inside? || s.readers[k].pc.Found? || s.readers[k].pc.Empty?)
    ensures !Writing(s) && Held(s) && s.writeLock == 0
  {
    hide Wakeable, Tally;
    TallyPut(s.readers, k, s.readers[k], Counted);
    if 0 < Tally(s.readers, AtGate) {
      var j := SomeoneAt(s.readers, AtGate);
      if j < k {
        TallyTwo(s.readers, j, k, Counted);
      } else {
        TallyTwo(s.readers, k, j, Counted);
      }
    }
  }

  lemma TalliesPut(rs: seq<Reader>, k: nat, r: Reader)
    requires k < |rs|
    ensures forall g :: Tally(rs[k := r], g) == Tally(rs, g) - One(At(rs[k].pc, g)) + One(At(r.pc, g))
    ensures forall g :: One(At(rs[k].pc, g)) <= Tally(rs, g)
  {
    hide *;
    forall g ensures Tally(rs[k := r], g) == Tally(rs, g) - One(At(rs[k].pc, g)) + One(At(r.pc, g)) {
      TallyPut(rs, k, r, g);
    }
    forall g ensures One(At(rs[k].pc, g)) <= Tally(rs, g) {
      TallyPut(rs, k, r, g);
    }
  }

  lemma EntryLocks(s: Sys, k: nat, c: Choice)
    requires Locks(s) && k < |s.readers| && ReaderStep(s, k, c).Some?
    requires var pc := s.readers[k].pc; pc.Lock? || pc.Inc? || pc.Gate? || pc.Enter?
    ensures Locks(ReaderStep(s, k, c).value)
  {
    var r := ReaderStep(s, k, c).value.readers[k];
    TalliesPut(s.readers, k, r);
    hide Tally, Section;
  }

  lemma DepartureLocks(s: Sys, k: nat, c: Choice)
    requires Locks(s) && k < |s.readers| && ReaderStep(s, k, c).Some?
    requires var pc := s.readers[k].pc; pc.Unlock? || pc.Dec? || pc.Leave? || pc.Exit?
    ensures Locks(ReaderStep(s, k, c).value)
  {
    var r := ReaderStep(s, k, c).value.readers[k];
    TalliesPut(s.readers, k, r);
    hide Tally, Section;
  }

  /** Steps that leave the semaphores and the count alone move nobody between regions. */
  lemma SectionSame(s: Sys, k: nat, c: Choice)
    requires k < |s.readers| && ReaderStep(s, k, c).Some?
    requires var pc := s.readers[k].pc; pc.Idle? || pc.Inside? || pc.Found? || pc.Empty? || pc.Parked?
    ensures var t := ReaderStep(s, k, c).value;
      t == s.(readers := s.readers[k := t.readers[k]]) && forall g :: At(t.readers[k].pc, g) == At(s.readers[k].pc, g)
  {
    var t := ReaderStep(s, k, c).value;
    forall g ensures At(t.readers[k].pc, g) == At(s.readers[k].pc, g) {
      match g
      case Counted =>
      case AtMid =>
      case AtGate =>
      case AtLeave =>
    }
  }

  lemma SectionLocks(s: Sys, k: nat, c: Choice)
    requires Locks(s) && k < |s.readers| && ReaderStep(s, k, c).Some?
    requires var pc := s.readers[k].pc; pc.Idle? || pc.Inside? || pc.Found? || pc.Empty? || pc.Parked?
    ensures Locks(ReaderStep(s, k, c).value)
  {
    SectionSame(s, k, c);
    var r := ReaderStep(s, k, c).value.readers[k];
    hide ReaderStep, Tally, At;
    TalliesPut(s.readers, k, r);
  }

  lemma ReaderLocks(s: Sys, k: nat, c: Choice)
    requires Locks(s) && k < |s.readers| && ReaderStep(s, k, c).Some?
    ensures Locks(ReaderStep(s, k, c).value)
  {
    var pc := s.readers[k].pc;
    hide *;
    if pc.Lock? || pc.Inc? || pc.Gate? || pc.Enter? {
      EntryLocks(s, k, c);
    } else if pc.Unlock? || pc.Dec? || pc.Leave? || pc.Exit? {
      DepartureLocks(s, k, c);
    } else {
      SectionLocks(s, k, c);
    }
  }

  lemma WriterLocks(s: Sys, c: Choice)
    requires Locks(s) && WriterStep(s, c).Some?
    ensures Locks(WriterStep(s, c).value)
  {
    hide Tally;
    var rs := s.readers;
    if (s.writer.Scan? || s.writer.Post?) && s.writer.i < |rs| {
      var i := s.writer.i;
      var r := WriterStep(s, c).value.readers[i];
      TallyPut(rs, i, r, Counted);
      TallyPut(rs, i, r, AtMid);
      TallyPut(rs, i, r, AtGate);
      TallyPut(rs, i, r, AtLeave);
    }
  }

  /** A reader's step touches its own slot only. */
  lemma OwnSlotOnly(s: Sys, k: nat, c: Choice)
    requires k < |s.readers| && ReaderStep(s, k, c).Some?
    ensures var t := ReaderStep(s, k, c).value; t.writer == s.writer && t.readers == s.readers[k := t.readers[k]]
  {
    hide Section;
  }

  /** On the way in, and once awake, a reader is not about to sleep. */
  lemma AwakeStays(s: Sys, k: nat, c: Choice)
    requires k < |s.readers| && ReaderStep(s, k, c).Some?
    requires var pc := s.readers[k].pc;
      pc.Idle? || pc.Lock? || pc.Inc? || pc.Gate? || pc.Enter? || pc.Found? || pc.Parked?
    ensures var pc := ReaderStep(s, k, c).value.readers[k].pc; !Sleeping(pc) && !pc.Empty?
  {
    hide Section;
  }

  /** The way out changes nothing in the slot. */
  lemma WayOut(s: Sys, k: nat, c: Choice)
    requires k < |s.readers| && ReaderStep(s, k, c).Some?
    requires var pc := s.readers[k].pc; pc.Unlock? || pc.Dec? || pc.Leave? || pc.Exit?
    ensures var r, q := s.readers[k], ReaderStep(s, k, c).value.readers[k];
      q == r.(pc := q.pc) && !q.pc.Empty? && (Sleeping(q.pc) ==> Sleeping(r.pc))
  {
    hide Section;
  }

  /** The decision to sleep is taken with pending clear, and announced. */
  lemma Decision(s: Sys, k: nat, c: Choice)
    requires k < |s.readers| && ReaderStep(s, k, c).Some? && (s.readers[k].pc.Inside? || s.readers[k].pc.Empty?)
    ensures var r, q := s.readers[k], ReaderStep(s, k, c).value.readers[k];
      && (q.pc.Empty? ==> !q.pending)
      && (Sleeping(q.pc) ==> r.pc.Empty? && q.waiting && q.pending == r.pending)
  {
  }

  lemma OwnSlotWakeable(s: Sys, k: nat, c: Choice)
    requires k < |s.readers| && ReaderStep(s, k, c).Some? && Wakeable(s, k)
    ensures Wakeable(ReaderStep(s, k, c).value, k)
  {
    hide ReaderStep, Sleeping;
    OwnSlotOnly(s, k, c);
    var pc := s.readers[k].pc;
    if pc.Inside? || pc.Empty? {
      Decision(s, k, c);
    } else if pc.Unlock? || pc.Dec? || pc.Leave? || pc.Exit? {
      WayOut(s, k, c);
    } else {
      AwakeStays(s, k, c);
    }
  }

  lemma ReaderWakeable(s: Sys, k: nat, c: Choice)
    requires Inv(s) && k < |s.readers| && ReaderStep(s, k, c).Some?
    ensures var t := ReaderStep(s, k, c).value; forall j | 0 <= j < |t.readers| :: Wakeable(t, j)
  {
    hide Tally, Locks, ReaderStep;
    OwnSlotOnly(s, k, c);
    OwnSlotWakeable(s, k, c);
    var t := ReaderStep(s, k, c).value;
    forall j | 0 <= j < |t.readers| ensures Wakeable(t, j) {
      assert Wakeable(s, j);
    }
  }

  lemma WriterWakeable(s: Sys, c: Choice)
    requires Inv(s) && WriterStep(s, c).Some?
    ensures var t := WriterStep(s, c).value; forall j | 0 <= j < |t.readers| :: Wakeable(t, j)
  {
    hide Tally, Locks, Held;
    var t := WriterStep(s, c).value;
    forall j | 0 <= j < |t.readers| ensures Wakeable(t, j) {
      assert Wakeable(s, j);
      if s.readers[j].pc.Empty? {
        Exclusion(s, j);
      }
    }
  }

  lemma StepInv(s: Sys, e: Event)
    requires Inv(s)
    ensures Inv(Step(s, e))
  {
    hide Locks, Wakeable;
    match e
    case ByReader(k, c) =>
      if k < |s.readers| && ReaderStep(s, k, c).Some? {
        KeepLocks(s);
        ReaderLocks(s, k, c);
        ReaderWakeable(s, k, c);
      }
    case ByWriter(c) =>
      if WriterStep(s, c).Some? {
        KeepLocks(s);
        WriterLocks(s, c);
        WriterWakeable(s, c);
      }
  }

  lemma KeepLocks(s: Sys)
    requires Inv(s)
    ensures Locks(s)
  {
    hide Locks;
  }

  /** Exclusion, the count, the collective hold and the wakeup guarantee hold in every reachable state. */
  lemma {:induction false} RunInv(s: Sys, run: seq<Event>)
    requires Inv(s)
    ensures Inv(Run(s, run))
    decreases |run|
  {
    hide Inv, Step;
    if run != [] {
      StepInv(s, run[0]);
      RunInv(Step(s, run[0]), run[1..]);
    }
  }

  /** In the wait loop: on the way to the test, or past it and not yet told to go. */
  predicate InWait(pc: Pc) {
    || Sleeping(pc) || pc.Found? || pc.Empty?
    || ((pc.Lock? || pc.Inc? || pc.Gate? || pc.Enter? || pc.Inside?) && pc.op == Wait)
  }

  predicate WaitersMarked(s: Sys) {
    forall k | 0 <= k < |s.readers| && s.readers[k].waiting :: InWait(s.readers[k].pc)
  }

  lemma StepMarked(s: Sys, e: Event)
    requires WaitersMarked(s)
    ensures WaitersMarked(Step(s, e))
  {
    match e
    case ByReader(k, c) =>
      if k < |s.readers| && ReaderStep(s, k, c).Some? {
        OwnSlotOnly(s, k, c);
      }
    case ByWriter(c) =>
  }

  /** Over every run only readers in the wait loop are marked as waiting, so the writer posts to no other. */
  lemma {:induction false} OnlyWaitersMarked(s: Sys, run: seq<Event>)
    requires WaitersMarked(s)
    ensures WaitersMarked(Run(s, run))
    decreases |run|
  {
    hide WaitersMarked, Step;
    if run != [] {
      StepMarked(s, run[0]);
      OnlyWaitersMarked(Step(s, run[0]), run[1..]);
    }
  }

  /** A reader's flag goes up when it registers or when the writer meets its slot with a matching record, and goes down
      only in its own fetch that finds no more; no other step of anybody touches it. */
  lemma PendingIff(s: Sys, e: Event, k: nat)
    requires k < |s.readers|
    ensures k < |Step(s, e).readers|
    ensures var r := s.readers[k];
      Step(s, e).readers[k].pending <==>
        || (e.ByReader? && e.k == k && r.pc == Inside(Register))
        || (e.ByWriter? && s.writer == Scan(k) && e.c.matches)
        || (r.pending && !(e.ByReader? && e.k == k && r.pc == Inside(Fetch) && e.c.drained))
  {
  }

  // ---------- the promises ----------

  function Where(rs: seq<Reader>, g: Region): set<nat> {
    set k: nat | k < |rs| && At(rs[k].pc, g)
  }

  /** Readers between counting themselves in and counting themselves out. */
  function CountedIn(s: Sys): set<nat> {
    Where(s.readers, Counted)
  }

  lemma {:induction false} TallyIsCard(rs: seq<Reader>, g: Region)
    ensures Tally(rs, g) == |Where(rs, g)|
    decreases |rs|
  {
    hide At;
    if rs == [] {
      assert Where(rs, g) == {};
    } else {
      var n := |rs| - 1;
      TallyIsCard(rs[..n], g);
      assert Where(rs[..n], g) == Where(rs, g) - {n};
    }
  }

  /** In every reachable state: the writer is out while any reader is in, hdr[0] counts the readers, and a sleeper
      with work has a post waiting for it or about to be made. */
  lemma Safety(s: Sys, run: seq<Event>)
    requires Start(s)
    ensures var t := Run(s, run);
      && t.count == |CountedIn(t)|
      && (forall k | 0 <= k < |t.readers| ::
            t.readers[k].pc.Inside? || t.readers[k].pc.Found? || t.readers[k].pc.Empty? ==>
              !Writing(t) && t.writeLock == 0)
      && (forall k | 0 <= k < |t.readers| ::
            Sleeping(t.readers[k].pc) && t.readers[k].pending ==> 0 < t.readers[k].notify || t.writer == Post(k))
  {
    StartInv(s);
    RunInv(s, run);
    Promises(Run(s, run));
  }

  lemma Promises(t: Sys)
    requires Inv(t)
    ensures t.count == |CountedIn(t)|
    ensures forall k | 0 <= k < |t.readers| ::
              t.readers[k].pc.Inside? || t.readers[k].pc.Found? || t.readers[k].pc.Empty? ==>
                !Writing(t) && t.writeLock == 0
    ensures forall k | 0 <= k < |t.readers| ::
              Sleeping(t.readers[k].pc) && t.readers[k].pending ==> 0 < t.readers[k].notify || t.writer == Post(k)
  {
    TallyIsCard(t.readers, Counted);
    forall k | 0 <= k < |t.readers| && (t.readers[k].pc.Inside? || t.readers[k].pc.Found? || t.readers[k].pc.Empty?)
      ensures !Writing(t) && t.writeLock == 0
    {
      Exclusion(t, k);
    }
    hide Tally, Held;
    forall k | 0 <= k < |t.readers| && Sleeping(t.readers[k].pc) && t.readers[k].pending
      ensures 0 < t.readers[k].notify || t.writer == Post(k)
    {
      assert Wakeable(t, k);
    }
  }

  /** In the middle of an operation: not idle, and not parked. */
  predicate Busy(s: Sys, e: Event) {
    match e
    case ByReader(k, _) => k < |s.readers| && !s.readers[k].pc.Idle? && !s.readers[k].pc.Parked?
    case ByWriter(_) => !s.writer.Quiet?
  }

  predicate Enabled(s: Sys, e: Event) {
    match e
    case ByReader(k, c) => k < |s.readers| && ReaderStep(s, k, c).Some?
    case ByWriter(c) => WriterStep(s, c).Some?
  }

  /** Deadlock freedom: as long as anybody is in the middle of something, somebody in the middle can move. */
  lemma SomeoneMoves(s: Sys, e: Event) returns (f: Event)
    requires Inv(s) && Busy(s, e)
    ensures Busy(s, f) && Enabled(s, f)
  {
    hide Tally, Wakeable;
    if s.readLock == 0 {
      var g := if 0 < Tally(s.readers, AtMid) then AtMid else if 0 < Tally(s.readers, AtGate) then AtGate else AtLeave;
      var h := SomeoneAt(s.readers, g);
      f := ByReader(h, e.c);
      if s.readers[h].pc.Gate? && s.writeLock == 0 {
        TallyPut(s.readers, h, s.readers[h], AtGate);
        f := ByWriter(e.c);
      }
    } else if e.ByReader? {
      f := e;
      if s.readers[e.k].pc.Gate? {
        TallyPut(s.readers, e.k, s.readers[e.k], AtGate);
      }
    } else {
      f := e;
      if s.writer.Ask? && s.writeLock == 0 {
        var j := HolderOutside(s);
        f := ByReader(j, e.c);
      }
    }
  }

  /** If the writer waits for readers while read_lock is free, some counted reader can go on. */
  lemma HolderOutside(s: Sys) returns (j: nat)
    requires Locks(s) && s.readLock == 1 && s.writeLock == 0 && !Writing(s)
    ensures j < |s.readers| && At(s.readers[j].pc, Counted) && !s.readers[j].pc.Gate?
  {
    hide Tally;
    j := SomeoneAt(s.readers, Counted);
    if s.readers[j].pc.Gate? {
      TallyPut(s.readers, j, s.readers[j], AtGate);
    }
  }

  /** And a parked reader with work is itself able to move, or the writer's next step makes it so. */
  lemma SleeperWakes(s: Sys, k: nat, c: Choice)
    requires Inv(s) && k < |s.readers| && s.readers[k].pc.Parked? && s.readers[k].pending
    ensures Enabled(s, ByReader(k, c)) || (Enabled(s, ByWriter(c)) && Enabled(Step(s, ByWriter(c)), ByReader(k, c)))
  {
    hide Tally, Locks;
    assert Wakeable(s, k);
  }
}
