/** What each clause of the interference hypothesis is for. The one about the newest number is needed only until the
    first record is complete; without it before that, and without any of the others, there are runs that tear. */
module Interference {
  import opened Words
  import opened Records
  import opened RingWriter
  import opened Tearing

  // ---------- three clauses suffice once a record is complete ----------

  /** The writer's record is one the reader accepts by size. */
  predicate SmallRecord(w: Writer) {
    !w.Idle? ==> |w.r.payload| <= MAXPAY
  }

  /** Before the first record is complete there is nothing to pop; afterwards there always is something left. */
  ghost predicate Settled(s: Sys) {
    && Inv(s) && 2 * (HDR_LEN + MAXPAY) <= |s.mem| && SmallRecord(s.w)
    && if s.written == [] then s.log == [] && !s.w.StoreTail? else Roomy(s)
  }

  lemma FirstRecord(s: Sys, t: Sys)
    requires Settled(s) && s.written == [] && Step(s, t) && SmallRecord(t.w)
    ensures |t.mem| == |s.mem|
    ensures if t.written == [] then t.log == [] && !t.w.StoreTail? else Roomy(t)
  {
    EmptyLogBytes();
    hide BytesInv, LogBytes, Window, HeaderAt, Wrap, Stored, Image, ReaderInv, ReaderStep;
    if ReaderStep(s, t) {
      ReaderOnly(s, t);
    }
  }

  lemma RoomyStep(s: Sys, t: Sys)
    requires Settled(s) && s.written != [] && Step(s, t) && SmallRecord(t.w)
    ensures Roomy(t) && t.written != []
  {
    hide *;
    SettledParts(s);
    SmallIs(t.w);
    NeverEmpties(s, t);
    WrittenGrows(s, t);
  }

  lemma SettledParts(s: Sys)
    requires Settled(s)
    ensures Inv(s) && 0 < |s.mem| && (s.written != [] ==> Roomy(s))
  {
    hide BytesInv, FieldInv, ReaderInv, Roomy;
  }

  lemma SmallIs(w: Writer)
    requires SmallRecord(w)
    ensures w.MakeRoom? ==> |w.r.payload| <= MAXPAY
  {
  }

  lemma WrittenGrows(s: Sys, t: Sys)
    requires 0 < |s.mem| && Step(s, t)
    ensures s.written <= t.written
  {
    hide Image, HeaderAt, Wrap, Stored, LogBytes, ReaderStep;
    if ReaderStep(s, t) {
      ReaderOnly(s, t);
    }
  }

  lemma SettledStep(s: Sys, t: Sys)
    requires Settled(s) && Step(s, t) && SmallRecord(t.w)
    requires TailStays(s, t) && StaleFails(s) && HeaderStays(s, t) && (s.written == [] ==> NewestKnown(s))
    ensures Settled(t)
  {
    hide Inv, Step, TailStays, StaleFails, HeaderStays;
    if s.written == [] {
      FirstRecord(s, t);
    } else {
      RoomyStep(s, t);
      assert NewestKnown(s);
    }
    StepKeepsInv(s, t);
  }

  /** Tear-freedom from three clauses. In a ring that holds two of the largest records the newest number needs care
      only until the first record is complete. */
  lemma {:induction false} SettledRun(run: seq<Sys>, n: nat)
    requires Path(run, ALL.(newest := false)) && Initial(run[0]) && n < |run|
    requires 2 * (HDR_LEN + MAXPAY) <= |run[0].mem| && forall k | 0 <= k < |run| :: SmallRecord(run[k].w)
    requires forall k | 0 <= k < |run| && run[k].written == [] :: NewestKnown(run[k])
    ensures Settled(run[n])
  {
    hide Inv, Step, TailStays, StaleFails, NewestKnown, HeaderStays, Initial, SmallRecord, Settled;
    if n == 0 {
      SettledAtStart(run[0]);
    } else {
      SettledRun(run, n - 1);
      assert Linked(run[n - 1], run[n - 1 + 1], ALL.(newest := false));
      SettledStep(run[n - 1], run[n]);
    }
  }

  lemma SettledAtStart(s: Sys)
    requires Initial(s) && 2 * (HDR_LEN + MAXPAY) <= |s.mem| && SmallRecord(s.w)
    ensures Settled(s)
  {
    InitialInv(s);
    hide Inv;
  }

  lemma NoTearOnceWritten(run: seq<Sys>, n: nat)
    requires Path(run, ALL.(newest := false)) && Initial(run[0]) && n < |run|
    requires 2 * (HDR_LEN + MAXPAY) <= |run[0].mem| && forall k | 0 <= k < |run| :: SmallRecord(run[k].w)
    requires forall k | 0 <= k < |run| && run[k].written == [] :: NewestKnown(run[k])
    requires run[n].p.Finished? && run[n].p.delivered.Some?
    ensures run[n].p.delivered.value in run[n].written
  {
    SettledRun(run, n);
    hide WriterInv, Roomy;
  }

  // ---------- building runs ----------

  lemma PathJoin(a: seq<Sys>, b: seq<Sys>, c: Clauses)
    requires Path(a, c) && Path(b, c) && a[|a| - 1] == b[0]
    ensures var e := a + b[1..]; Path(e, c) && e[0] == a[0] && e[|e| - 1] == b[|b| - 1]
  {
    hide Linked;
    var e := a + b[1..];
    forall k | 0 <= k < |e| ensures |e[k].mem| == |e[0].mem| {
      assert e[k] == if k < |a| then a[k] else b[k - |a| + 1];
    }
    forall k | 0 <= k < |e| - 1 ensures Linked(e[k], e[k + 1], c) {
      if k < |a| - 1 {
        assert Linked(a[k], a[k + 1], c);
      } else {
        var j := k - (|a| - 1);
        assert Linked(b[j], b[j + 1], c);
        assert e[k] == b[j] && e[k + 1] == b[j + 1];
      }
    }
  }

  /** One more step in front. */
  lemma PathStep(s: Sys, a: seq<Sys>, c: Clauses)
    requires Path(a, c) && |s.mem| == |a[0].mem| && Linked(s, a[0], c)
    ensures Path([s] + a, c)
  {
    hide Linked;
    var e := [s] + a;
    forall k | 0 <= k < |e| - 1 ensures Linked(e[k], e[k + 1], c) {
      if k != 0 {
        assert Linked(a[k - 1], a[k - 1 + 1], c);
      }
    }
  }

  lemma PathOfOne(s: Sys, c: Clauses)
    requires 0 < |s.mem|
    ensures Path([s], c)
  {
  }

  // ---------- steps of one side ----------

  /** The reader moves, and not from loading the newest number. */
  lemma PollLinked(s: Sys, t: Sys, c: Clauses)
    requires 0 < |s.mem| && ReaderStep(s, t) && t == s.(p := t.p) && !s.p.HasValid? && (c.stale ==> StaleFails(s))
    ensures Linked(s, t, c) && (c.stale ==> StaleFails(t))
  {
    hide ReaderStep, WriterStep, HeaderAt, LogBytes, MagicOk;
  }

  /** The writer moves, with the reader neither about to load the newest number nor inside the header in progress. */
  lemma WriteLinked(s: Sys, t: Sys, c: Clauses)
    requires 0 < |s.mem| && WriterStep(s, t) && Calm(s.p) && (c.stale ==> StaleFails(s))
    requires c.tail && s.w.StoreTail? ==> !Polling(s.p)
    ensures Linked(s, t, c)
  {
    hide ReaderStep, WriterStep, StaleFails;
  }

  predicate Calm(p: Poll) {
    !p.HasValid? && (p.Walking? ==> p.head == [])
  }

  /** The reader copies the rest of a payload while the writer pauses, and finishes. */
  lemma {:induction false} ReadRun(s: Sys, c: Clauses) returns (run: seq<Sys>)
    requires 0 < |s.mem| && s.p.Copying? && (c.stale ==> StaleFails(s))
    requires |s.p.buf| <= s.p.h.len && s.p.buf == Window(s.mem, s.p.off + HDR_LEN, |s.p.buf|)
    ensures Path(run, c) && run[0] == s
    ensures run[|run| - 1] == s.(p := Finished(Some(Record(s.p.h, Window(s.mem, s.p.off + HDR_LEN, s.p.h.len)))))
    decreases s.p.h.len - |s.p.buf|
  {
    var h, i, off, buf := s.p.h, s.p.index, s.p.off, s.p.buf;
    hide Window, Wrap, HeaderAt, StaleFails, Linked, Path;
    if |buf| < h.len {
      var t := s.(p := Copying(h, i, off, buf + [s.mem[Wrap(off + HDR_LEN + |buf|, |s.mem|)]]));
      WindowMore(s.mem, off + HDR_LEN, |buf|);
      assert ReaderStep(s, t);
      hide ReaderStep;
      PollLinked(s, t, c);
      var rest := ReadRun(t, c);
      PathStep(s, rest, c);
      run := [s] + rest;
    } else {
      var t := s.(p := Finished(Some(Record(h, buf))));
      assert ReaderStep(s, t);
      hide ReaderStep;
      PollLinked(s, t, c);
      PathOfOne(t, c);
      PathStep(s, [t], c);
      run := [s] + [t];
    }
  }

  /** The reader reads a header up to byte n while the writer pauses. */
  lemma {:induction false} HeadRun(s: Sys, n: nat, c: Clauses) returns (run: seq<Sys>)
    requires 0 < |s.mem| && s.p.Walking? && HDR_LEN < s.p.left && |s.p.head| <= n <= HDR_LEN
    requires c.stale ==> StaleFails(s)
    ensures Path(run, c) && run[0] == s
    ensures var head := s.p.head;
      run[|run| - 1] == s.(p := s.p.(head := head + Window(s.mem, s.p.off + |head|, n - |head|)))
    decreases n - |s.p.head|
  {
    var off, head := s.p.off, s.p.head;
    hide Window, Wrap, HeaderAt, StaleFails, Linked, Path;
    if |head| == n {
      PathOfOne(s, c);
      EmptyWindow(s.mem, off + |head|);
      assert head + [] == head;
      run := [s];
    } else {
      var b := s.mem[Wrap(off + |head|, |s.mem|)];
      var t := s.(p := s.p.(head := head + [b]));
      assert ReaderStep(s, t);
      hide ReaderStep;
      PollLinked(s, t, c);
      var rest := HeadRun(t, n, c);
      PathStep(s, rest, c);
      WindowNext(s.mem, off + |head|, n - |head|);
      assert head + [b] + Window(s.mem, off + |head| + 1, n - |head| - 1)
        == head + Window(s.mem, off + |head|, n - |head|);
      run := [s] + rest;
    }
  }

  lemma WindowNext(mem: seq<byte>, off: nat, n: nat)
    requires 0 < |mem| && 0 < n
    ensures Window(mem, off, n) == [mem[Wrap(off, |mem|)]] + Window(mem, off + 1, n - 1)
  {
    var w, v := Window(mem, off, n), Window(mem, off + 1, n - 1);
    forall i | 0 <= i < n ensures w[i] == ([mem[Wrap(off, |mem|)]] + v)[i] {
      if 0 < i {
        assert v[i - 1] == mem[Wrap(off + 1 + (i - 1), |mem|)];
      }
    }
  }

  /** A header the walk accepts: it may be delivered or passed. */
  predicate Accepted(h: Header, left: int, newest: u32) {
    MagicOk(h.magic) && HDR_LEN + h.len <= left && h.len <= MAXPAY && h.seqno != newest
  }

  lemma DecideStep(s: Sys, t: Sys)
    requires 0 < |s.mem| && s.p.Walking? && |s.p.head| == HDR_LEN < s.p.left
    requires Accepted(Decode(s.p.head), s.p.left, s.p.newest)
    requires var h := Decode(s.p.head);
      || t == s.(p := Copying(h, s.p.index, s.p.off, []))
      || t == s.(p := Walking(s.p.newest, s.p.index + 1, Wrap(s.p.off + HDR_LEN + h.len, |s.mem|),
                              s.p.left - (HDR_LEN + h.len), []))
    ensures ReaderStep(s, t)
  {
    assert s.p.head[..HDR_LEN] == s.p.head;
    hide Decode, MagicOk, Wrap;
  }

  /** The reader reads the rest of a header and decides. */
  lemma DecideRun(s: Sys, head: seq<byte>, u: Sys, c: Clauses) returns (run: seq<Sys>)
    requires 0 < |s.mem| && s.p.Walking? && HDR_LEN < s.p.left && |s.p.head| <= HDR_LEN && (c.stale ==> StaleFails(s))
    requires head == s.p.head + Window(s.mem, s.p.off + |s.p.head|, HDR_LEN - |s.p.head|)
    requires Accepted(Decode(head), s.p.left, s.p.newest) && u == s.(p := u.p)
    requires ReaderStep(s.(p := s.p.(head := head)), u)
    ensures Path(run, c) && run[0] == s && run[|run| - 1] == u
  {
    hide *;
    WalkingIdle(s);
    var front := HeadRun(s, HDR_LEN, c);
    var t := s.(p := s.p.(head := head));
    StalePoll(s, t);
    WalkingIdle(t);
    PollLinked(t, u, c);
    PathOfOne(u, c);
    PathStep(t, [u], c);
    PathJoin(front, [t] + [u], c);
    run := front + ([t] + [u])[1..];
  }

  lemma WalkingIdle(s: Sys)
    requires s.p.Walking?
    ensures !s.p.HasValid?
  {
  }

  /** A header read from where it stands, and taken. */
  lemma TakeRun(s: Sys, head: seq<byte>, c: Clauses) returns (run: seq<Sys>)
    requires 0 < |s.mem| && s.p.Walking? && HDR_LEN < s.p.left && |s.p.head| <= HDR_LEN && (c.stale ==> StaleFails(s))
    requires head == s.p.head + Window(s.mem, s.p.off + |s.p.head|, HDR_LEN - |s.p.head|)
    requires Accepted(Decode(head), s.p.left, s.p.newest)
    ensures Path(run, c) && run[0] == s
    ensures run[|run| - 1] == s.(p := Copying(Decode(head), s.p.index, s.p.off, []))
  {
    var u := s.(p := Copying(Decode(head), s.p.index, s.p.off, []));
    hide ReaderStep, Window, Wrap, StaleFails, Path, Decode, MagicOk, Accepted;
    DecideStep(s.(p := s.p.(head := head)), u);
    run := DecideRun(s, head, u, c);
  }

  lemma StalePoll(s: Sys, t: Sys)
    requires 0 < |s.mem| && t == s.(p := t.p)
    ensures StaleFails(t) == StaleFails(s)
  {
    hide HeaderAt, LogBytes, MagicOk;
  }

  /** The writer copies a payload byte by byte and goes idle; base is the ring before the payload. */
  lemma {:induction false} CopyRun(s: Sys, base: seq<byte>, r: Record, at: nat, k: nat, c: Clauses)
    returns (run: seq<Sys>)
    requires 0 < |base| && k <= |r.payload| <= |base| && s.w == CopyPayload(r, at, k) && !s.p.HasValid?
    requires s.mem == Stored(base, Wrap(at + HDR_LEN, |base|), r.payload[..k])
    ensures Path(run, c) && run[0] == s
    ensures run[|run| - 1] == s.(mem := Stored(base, Wrap(at + HDR_LEN, |base|), r.payload), w := Idle,
                                 log := s.log + [r], written := s.written + [r])
    decreases |r.payload| - k
  {
    hide Stored, Wrap;
    if k < |r.payload| {
      var t := s.(mem := Stored(s.mem, Wrap(at + HDR_LEN + k, |s.mem|), [r.payload[k]]),
                  w := CopyPayload(r, at, k + 1));
      assert WriterStep(s, t);
      hide ReaderStep, WriterStep;
      StoredMore(base, at + HDR_LEN, r.payload, k);
      var rest := CopyRun(t, base, r, at, k + 1, c);
      PathStep(s, rest, c);
      run := [s] + rest;
    } else {
      var t := s.(w := Idle, log := s.log + [r], written := s.written + [r]);
      assert WriterStep(s, t);
      hide ReaderStep, WriterStep;
      assert r.payload[..k] == r.payload;
      PathOfOne(t, c);
      PathStep(s, [t], c);
      run := [s] + [t];
    }
  }

  /** Before byte 8 of a header is stored, the magic there is the old one. */
  lemma MagicKept(base: seq<byte>, at: nat, b: seq<byte>, k: nat)
    requires at < |base| && HDR_LEN <= |base| && k <= |b| && k <= 8
    ensures HeaderAt(Stored(base, at, b[..k]), at).magic == HeaderAt(base, at).magic
  {
    var x, y := Window(Stored(base, at, b[..k]), at, HDR_LEN), Window(base, at, HDR_LEN);
    forall i | 8 <= i < 12 ensures x[i] == y[i] {
      AheadOf(at, i, |base|);
    }
    hide Window;
  }

  lemma AheadOf(at: nat, i: nat, size: nat)
    requires at < size && i < size
    ensures Ahead(Wrap(at + i, size), at, size) == i
  {
    WrapBelowTwice(at + i, size);
  }

  lemma HeaderSize(h: Header)
    ensures HDR_LEN == 26 == |Image(h)|
  {
  }

  lemma ImageStep(s: Sys, t: Sys, base: seq<byte>, r: Record, at: nat, k: nat, c: Clauses)
    requires HDR_LEN <= |base| && at < |base| && k < HDR_LEN && s.w == CopyHeader(r, at, k)
    requires s.mem == Stored(base, at, Image(r.h)[..k]) && at == Behind(s) && !s.p.HasValid? && (c.header ==> Calm(s.p))
    requires c.stale ==> !MagicOk(HeaderAt(base, at).magic)
    requires t == s.(mem := Stored(s.mem, Wrap(at + k, |s.mem|), [Image(r.h)[k]]),
                     w := if k + 1 < HDR_LEN then CopyHeader(r, at, k + 1) else CopyPayload(r, at, 0))
    ensures Linked(s, t, c) && |t.mem| == |s.mem| && Behind(t) == Behind(s)
  {
    hide Stored, Wrap, Image, HeaderAt, MagicOk, LogBytes;
    assert WriterStep(s, t);
    hide WriterStep, ReaderStep;
    if k <= 8 {
      MagicKept(base, at, Image(r.h), k);
    }
  }

  /** The writer copies a header byte by byte; base is the ring before it. */
  lemma {:induction false} ImageRun(s: Sys, base: seq<byte>, r: Record, at: nat, k: nat, c: Clauses)
    returns (run: seq<Sys>)
    requires HDR_LEN <= |base| && at < |base| && k < HDR_LEN && s.w == CopyHeader(r, at, k)
    requires s.mem == Stored(base, at, Image(r.h)[..k]) && at == Behind(s) && !s.p.HasValid? && (c.header ==> Calm(s.p))
    requires c.stale ==> !MagicOk(HeaderAt(base, at).magic)
    ensures Path(run, c) && run[0] == s
    ensures run[|run| - 1] == s.(mem := Stored(base, at, Image(r.h)), w := CopyPayload(r, at, 0))
    decreases HDR_LEN - k
  {
    var t := s.(mem := Stored(s.mem, Wrap(at + k, |s.mem|), [Image(r.h)[k]]),
                w := if k + 1 < HDR_LEN then CopyHeader(r, at, k + 1) else CopyPayload(r, at, 0));
    hide *;
    HeaderSize(r.h);
    ImageStep(s, t, base, r, at, k, c);
    WrapBelowTwice(at, |base|);
    StoredMore(base, at, Image(r.h), k);
    if k + 1 < HDR_LEN {
      var rest := ImageRun(t, base, r, at, k + 1, c);
      PathStep(s, rest, c);
      run := [s] + rest;
    } else {
      assert Image(r.h)[..k + 1] == Image(r.h);
      PathOfOne(t, c);
      PathStep(s, [t], c);
      run := [s] + [t];
    }
  }

  /** Header and payload. */
  lemma RecordRun(s: Sys, r: Record, at: nat, c: Clauses) returns (run: seq<Sys>)
    requires |Bytes(r)| <= |s.mem| && at < |s.mem| && s.w == CopyHeader(r, at, 0) && at == Behind(s)
    requires !s.p.HasValid? && (c.header ==> Calm(s.p)) && (c.stale ==> !MagicOk(HeaderAt(s.mem, at).magic))
    ensures Path(run, c) && run[0] == s
    ensures run[|run| - 1] == s.(mem := Stored(Stored(s.mem, at, Image(r.h)), Wrap(at + HDR_LEN, |s.mem|), r.payload),
                                 w := Idle, log := s.log + [r], written := s.written + [r])
  {
    hide Stored, Wrap, Image, HeaderAt, MagicOk, Linked, Path, Behind;
    StoredNothing(s.mem, at);
    assert Image(r.h)[..0] == [] && r.payload[..0] == [];
    var a := ImageRun(s, s.mem, r, at, 0, c);
    var t := a[|a| - 1];
    StoredNothing(t.mem, Wrap(at + HDR_LEN, |s.mem|));
    var b := CopyRun(t, t.mem, r, at, 0, c);
    PathJoin(a, b, c);
    run := a + b[1..];
  }

  lemma StoredMore(mem: seq<byte>, off: nat, b: seq<byte>, k: nat)
    requires k < |b| <= |mem|
    ensures Stored(Stored(mem, Wrap(off, |mem|), b[..k]), Wrap(off + k, |mem|), [b[k]])
      == Stored(mem, Wrap(off, |mem|), b[..k + 1])
  {
    var at, q := Wrap(off, |mem|), Wrap(off + k, |mem|);
    WrapShift(off, k, |mem|);
    WrapBelowTwice(at + k, |mem|);
    hide Wrap;
    var x, y := Stored(Stored(mem, at, b[..k]), q, [b[k]]), Stored(mem, at, b[..k + 1]);
    forall p | 0 <= p < |mem| ensures x[p] == y[p] {
      assert Ahead(p, q, |mem|) == 0 <==> Ahead(p, at, |mem|) == k;
    }
  }

  /** The state after r is appended behind the log. */
  function Appended(s: Sys, r: Record): Sys
    requires 0 < |s.mem|
  {
    s.(mem := TwoStores(s.mem, s.tail, |LogBytes(s.log)|, Image(r.h), r.payload), valid := s.valid + |Bytes(r)|,
       newest := r.h.seqno, head := Wrap(s.head + |Bytes(r)|, |s.mem|), w := Idle,
       log := s.log + [r], written := s.written + [r])
  }

  /** The ring is ready to take r: it fits, and what lies where it goes fails the magic test. */
  ghost predicate Ready(s: Sys, r: Record) {
    && 0 < |s.mem| && s.w == MakeRoom(r) && s.valid + |Bytes(r)| <= |s.mem| && 0 <= s.valid && Calm(s.p)
    && s.head == Behind(s) && s.head < |s.mem| && !MagicOk(HeaderAt(s.mem, s.head).magic)
  }

  /** The stores before the copies. */
  function Published(s: Sys, r: Record): Sys
    requires 0 < |s.mem|
  {
    s.(valid := s.valid + |Bytes(r)|, newest := r.h.seqno, head := Wrap(s.head + |Bytes(r)|, |s.mem|),
       w := CopyHeader(r, s.head, 0))
  }

  lemma PublishRun(s: Sys, r: Record, c: Clauses) returns (run: seq<Sys>)
    requires 0 < |s.mem| && s.w == MakeRoom(r) && s.valid + |Bytes(r)| <= |s.mem| && Calm(s.p)
    requires c.stale ==> !MagicOk(HeaderAt(s.mem, Behind(s)).magic)
    ensures Path(run, c) && run[0] == s && run[|run| - 1] == Published(s, r)
  {
    hide HeaderAt, MagicOk, LogBytes, Wrap, Bytes;
    var a1 := s.(valid := s.valid + |Bytes(r)|, w := PublishSeq(r));
    var a2 := a1.(newest := r.h.seqno, w := PublishHead(r));
    var a3 := Published(s, r);
    assert WriterStep(s, a1) && WriterStep(a1, a2) && WriterStep(a2, a3);
    hide WriterStep, ReaderStep;
    WriteLinked(s, a1, c);
    WriteLinked(a1, a2, c);
    WriteLinked(a2, a3, c);
    hide Linked;
    run := [s, a1, a2, a3];
  }

  /** The writer publishes and copies a record. */
  lemma AppendRun(s: Sys, r: Record, c: Clauses) returns (run: seq<Sys>)
    requires Ready(s, r)
    ensures Path(run, c) && run[0] == s && run[|run| - 1] == Appended(s, r)
  {
    hide *;
    ReadyFacts(s, r);
    var at, n, size := s.head, |LogBytes(s.log)|, |s.mem|;
    var q := Wrap(at + HDR_LEN, size);
    var a := PublishRun(s, r, c);
    var t := a[|a| - 1];
    PublishedParts(s, r);
    var b := RecordRun(t, r, at, c);
    HeadMoves(s.tail, n, HDR_LEN, size);
    AppendedIs(s, r, at, q);
    PathJoin(a, b, c);
    run := a + b[1..];
  }

  lemma PublishedParts(s: Sys, r: Record)
    requires 0 < |s.mem|
    ensures var t := Published(s, r);
      && t == s.(valid := s.valid + |Bytes(r)|, newest := r.h.seqno, head := Wrap(s.head + |Bytes(r)|, |s.mem|),
                 w := CopyHeader(r, s.head, 0))
      && Behind(t) == Behind(s)
  {
    hide Bytes, LogBytes, Wrap;
  }

  lemma ReadyFacts(s: Sys, r: Record)
    requires Ready(s, r)
    ensures 0 < |s.mem| && |r.payload| <= |s.mem| && !s.p.HasValid? && Calm(s.p) && s.w == MakeRoom(r)
    ensures |Bytes(r)| <= |s.mem| && s.valid + |Bytes(r)| <= |s.mem|
    ensures s.head == Behind(s) == Wrap(s.tail + |LogBytes(s.log)|, |s.mem|) && s.head < |s.mem|
    ensures !MagicOk(HeaderAt(s.mem, s.head).magic)
  {
    hide LogBytes, HeaderAt, Wrap, MagicOk;
  }

  lemma AppendedIs(s: Sys, r: Record, at: nat, q: nat)
    requires 0 < |s.mem| && at == Behind(s) && q == Wrap(s.tail + (|LogBytes(s.log)| + HDR_LEN), |s.mem|)
    ensures at < |s.mem| && q < |s.mem|
    ensures Appended(s, r) == s.(valid := s.valid + |Bytes(r)|, newest := r.h.seqno,
                                 head := Wrap(s.head + |Bytes(r)|, |s.mem|), w := Idle, log := s.log + [r],
                                 mem := Stored(Stored(s.mem, at, Image(r.h)), q, r.payload), written := s.written + [r])
  {
    hide LogBytes, Stored, Wrap, Bytes;
    assert s.tail + (|LogBytes(s.log)| + HDR_LEN) == s.tail + |LogBytes(s.log)| + |Image(r.h)|;
  }

  lemma StoredNothing(mem: seq<byte>, off: nat)
    requires off < |mem|
    ensures Stored(mem, off, []) == mem
  {
  }

  // ---------- filling a fresh ring ----------

  /** Nothing was ever stored from n on. */
  predicate Blank(mem: seq<byte>, n: nat) {
    forall i | n <= i < |mem| :: mem[i] == 0
  }

  /** A fresh ring that has taken the records of log without dropping any; room for a magic is still blank. */
  ghost predicate Filled(s: Sys) {
    && s.tail == 0 && s.w == Idle && s.p == Asleep && s.valid == |LogBytes(s.log)| == s.head
    && Tiled(s.mem, 0, s.valid, s.log) && Blank(s.mem, s.valid) && s.valid + 12 <= |s.mem|
    && s.written == s.log && s.newest == |s.log|
  }

  lemma BlankMagic(mem: seq<byte>, off: nat)
    requires off + 12 <= |mem| && Blank(mem, off)
    ensures !MagicOk(HeaderAt(mem, off).magic)
  {
    var w := Window(mem, off, HDR_LEN);
    forall i | 8 <= i < 12 ensures w[i] == 0 {
      WrapBelowTwice(off + i, |mem|);
    }
    hide Window;
    assert U32At(w, 8) == 0;
  }

  lemma BlankKept(mem: seq<byte>, v: nat, a: seq<byte>, b: seq<byte>)
    requires v + |a| + |b| < |mem| && Blank(mem, v)
    ensures Blank(TwoStores(mem, 0, v, a, b), v + |a| + |b|)
  {
    WrapBelowTwice(v, |mem|);
    WrapBelowTwice(v + |a|, |mem|);
  }

  lemma FilledReady(s: Sys, r: Record)
    requires Filled(s) && s.valid + |Bytes(r)| + 12 <= |s.mem|
    ensures Ready(s.(w := MakeRoom(r)), r)
  {
    WrapBelowTwice(s.valid, |s.mem|);
    BlankMagic(s.mem, s.valid);
    hide LogBytes, Window, HeaderAt, MagicOk, Tiled, Blank, Wrap;
  }

  lemma FilledAppended(s: Sys, r: Record)
    requires Filled(s) && r.Ok() && s.valid + |Bytes(r)| + 12 <= |s.mem| && r.h.seqno == |s.log| + 1
    ensures Filled(Appended(s.(w := MakeRoom(r)), r))
  {
    WrapBelowTwice(s.valid + |Bytes(r)|, |s.mem|);
    TiledAppend(s.mem, 0, s.log, r);
    BlankKept(s.mem, s.valid, Image(r.h), r.payload);
    LogBytesAppend(s.log, r);
    hide LogBytes, Window, Stored, Image, Tiled, Blank, Wrap;
  }

  lemma FillOne(s: Sys, r: Record) returns (run: seq<Sys>)
    requires Filled(s) && r.Ok() && s.valid + |Bytes(r)| + 12 <= |s.mem|
    requires r.h.seqno == |s.log| + 1 && |s.log| + 1 < U32_MAX
    ensures Path(run, ALL) && run[0] == s
    ensures var t := run[|run| - 1]; Filled(t) && t.log == s.log + [r] && |t.mem| == |s.mem|
  {
    var a := s.(w := MakeRoom(r));
    assert Linked(s, a, ALL) by {
      hide LogBytes, Window, Stored, HeaderAt, MagicOk, Tiled, Blank, Wrap, ReaderStep;
      assert WriterStep(s, a);
    }
    assert |s.mem| != 0;
    hide *;
    FilledReady(s, r);
    FilledAppended(s, r);
    AppendedLog(a, r);
    var rest := AppendRun(a, r, ALL);
    PathStep(s, rest, ALL);
    run := [s] + rest;
  }

  lemma AppendedLog(s: Sys, r: Record)
    requires 0 < |s.mem|
    ensures Appended(s, r).log == s.log + [r] && |Appended(s, r).mem| == |s.mem| && Appended(s, r).p == s.p
    ensures Appended(s, r).written == s.written + [r]
  {
  }

  lemma {:induction false} FillRun(s: Sys, rs: seq<Record>) returns (run: seq<Sys>)
    requires Filled(s) && |LogBytes(s.log)| + |LogBytes(rs)| + 12 <= |s.mem|
    requires |s.log| + |rs| < U32_MAX
    requires forall i | 0 <= i < |rs| :: rs[i].Ok() && rs[i].h.seqno == |s.log| + i + 1
    ensures Path(run, ALL) && run[0] == s
    ensures var t := run[|run| - 1]; Filled(t) && t.log == s.log + rs && |t.mem| == |s.mem|
    decreases |rs|
  {
    if rs == [] {
      PathOfOne(s, ALL);
      run := [s];
      assert s.log + rs == s.log;
    } else {
      LogBytesParts(rs);
      LogBytesAppend(s.log, rs[0]);
      hide LogBytes, Tiled, Blank, Path;
      var a := FillOne(s, rs[0]);
      var t := a[|a| - 1];
      var b := FillRun(t, rs[1..]);
      PathJoin(a, b, ALL);
      run := a + b[1..];
      assert s.log + rs == t.log + rs[1..];
    }
  }

  lemma FreshFilled(size: nat) returns (s: Sys)
    requires 12 <= size
    ensures Initial(s) && Filled(s) && |s.mem| == size && s.log == []
  {
    EmptyLogBytes();
    s := Sys(seq(size, _ => 0), 0, 0, 0, 0, Idle, [], [], Asleep);
    assert Window(s.mem, 0, 0) == [];
    hide LogBytes;
  }

  // ---------- the tail clause ----------

  /** The three loads at the start of a poll. */
  lemma LoadRun(s: Sys, c: Clauses) returns (run: seq<Sys>)
    requires 0 < |s.mem| && s.p == Asleep && (s.log != [] || SeqPublished(s.w)) && (c.stale ==> StaleFails(s))
    ensures Path(run, c) && run[0] == s && run[|run| - 1] == s.(p := Walking(s.newest, 0, s.tail, s.valid, []))
  {
    var s1 := s.(p := HasTail(s.tail));
    var s2 := s.(p := HasValid(s.tail, s.valid));
    var s3 := s.(p := Walking(s.newest, 0, s.tail, s.valid, []));
    assert ReaderStep(s, s1) && ReaderStep(s1, s2) && ReaderStep(s2, s3);
    hide ReaderStep, WriterStep, HeaderAt, LogBytes, MagicOk;
    run := [s, s1, s2, s3];
  }

  /** A reader at the front of a filled ring gets as far as copying the first record's payload. */
  lemma ReachFirst(s: Sys) returns (run: seq<Sys>)
    requires Filled(s) && 2 <= |s.log| && s.log[0].h.seqno == 1
    requires MagicOk(s.log[0].h.magic) && s.log[0].h.len <= MAXPAY
    ensures Path(run, ALL.(tail := false)) && run[0] == s
    ensures run[|run| - 1] == s.(p := Copying(s.log[0].h, 0, 0, []))
  {
    hide *;
    var c := ALL.(tail := false);
    FilledFront(s);
    HeaderAtIs(s.mem, 0);
    var a := LoadRun(s, c);
    var t := a[|a| - 1];
    StalePoll(s, t);
    var head := Window(s.mem, 0, HDR_LEN);
    assert [] + head == head;
    var b := TakeRun(t, head, c);
    PathJoin(a, b, c);
    run := a + b[1..];
  }

  lemma FilledFront(s: Sys)
    requires Filled(s) && 2 <= |s.log| && s.log[0].h.seqno == 1
    requires MagicOk(s.log[0].h.magic) && s.log[0].h.len <= MAXPAY
    ensures 0 < |s.mem| && s.tail == 0 && s.p == Asleep && StaleFails(s) && HDR_LEN < s.valid
    ensures HeaderAt(s.mem, 0) == s.log[0].h && Accepted(s.log[0].h, s.valid, s.newest)
  {
    TiledPop(s.mem, 0, s.log);
    LongEnough(s.log);
    hide LogBytes, Window, HeaderAt, Wrap, Blank, MagicOk;
    assert s.log[0] in s.log;
  }

  lemma HeaderAtIs(mem: seq<byte>, off: nat)
    requires 0 < |mem|
    ensures HeaderAt(mem, off) == Decode(Window(mem, off, HDR_LEN))
  {
  }

  lemma LongEnough(log: seq<Record>)
    requires log != []
    ensures HDR_LEN + |log[0].payload| <= |LogBytes(log)|
    ensures 2 <= |log| ==> 2 * HDR_LEN + |log[0].payload| <= |LogBytes(log)|
  {
    LogBytesParts(log);
    if 2 <= |log| {
      LogBytesParts(log[1..]);
    }
  }

  /** What dropping the first record of a filled ring comes to. */
  lemma FirstDropped(s: Sys, r: Record)
    requires Filled(s) && s.log != [] && r.Ok() && |s.mem| < s.valid + |Bytes(r)|
    ensures var n := |Bytes(s.log[0])|;
      && 0 < |s.mem| && n == HDR_LEN + HeaderAt(s.mem, 0).len && s.valid == n + |LogBytes(s.log[1..])| && n < |s.mem|
      && Wrap(0 + n, |s.mem|) == n && Wrap(n + |LogBytes(s.log[1..])|, |s.mem|) == s.valid < |s.mem|
      && s.head == s.valid && !MagicOk(HeaderAt(s.mem, s.valid).magic)
      && s.tail == 0 && s.w == Idle && s.newest == |s.log|
  {
    var n := |Bytes(s.log[0])|;
    TiledPop(s.mem, 0, s.log);
    LogBytesParts(s.log);
    WrapBelowTwice(n, |s.mem|);
    WrapBelowTwice(s.valid, |s.mem|);
    BlankMagic(s.mem, s.valid);
    assert s.log[0].Ok() by {
      assert s.log[0] in s.log;
    }
    hide LogBytes, Window, HeaderAt, Wrap, Tiled, Blank, MagicOk;
  }

  function Dropped(s: Sys, p: Poll, r: Record): Sys
    requires s.log != []
  {
    var n := |Bytes(s.log[0])|;
    s.(p := p, valid := s.valid - n, tail := n, log := s.log[1..], w := MakeRoom(r))
  }

  lemma DroppedReady(s: Sys, p: Poll, r: Record)
    requires Filled(s) && s.log != [] && r.Ok() && Calm(p)
    requires |s.mem| < s.valid + |Bytes(r)| <= |s.mem| + |Bytes(s.log[0])|
    ensures Ready(Dropped(s, p, r), r)
  {
    FirstDropped(s, r);
    hide LogBytes, Window, HeaderAt, Wrap, MagicOk, Filled, Bytes;
  }

  lemma StartStep(s: Sys, r: Record, c: Clauses)
    requires 0 < |s.mem| && s.w == Idle && r.Ok() && |Bytes(r)| <= |s.mem| && r.h.seqno == NextSeq(s.newest)
    requires Calm(s.p)
    ensures Linked(s, s.(w := MakeRoom(r)), c)
  {
    hide HeaderAt, ReaderStep, NextSeq, Bytes;
    assert WriterStep(s, s.(w := MakeRoom(r)));
  }

  lemma PopStep(s: Sys, r: Record, n: nat, c: Clauses)
    requires 0 < |s.mem| && s.w == MakeRoom(r) && |s.mem| < s.valid + |Bytes(r)| && Calm(s.p)
    requires n == HDR_LEN + HeaderAt(s.mem, s.tail).len
    ensures Linked(s, s.(valid := s.valid - n, w := StoreTail(r, n)), c)
  {
    hide HeaderAt, ReaderStep, Bytes;
    assert WriterStep(s, s.(valid := s.valid - n, w := StoreTail(r, n)));
  }

  lemma TailStep(s: Sys, r: Record, n: nat, c: Clauses)
    requires 0 < |s.mem| && s.w == StoreTail(r, n) && s.log != [] && Calm(s.p) && (c.tail ==> !Polling(s.p))
    ensures Linked(s, s.(tail := Wrap(s.tail + n, |s.mem|), log := s.log[1..], w := MakeRoom(r)), c)
  {
    hide HeaderAt, ReaderStep, Bytes, Wrap;
    assert WriterStep(s, s.(tail := Wrap(s.tail + n, |s.mem|), log := s.log[1..], w := MakeRoom(r)));
  }

  /** The writer makes room by dropping the first record. */
  lemma PopRun(s: Sys, r: Record, n: nat, c: Clauses) returns (run: seq<Sys>)
    requires 0 < |s.mem| && s.w == Idle && r.Ok() && |Bytes(r)| <= |s.mem| && r.h.seqno == NextSeq(s.newest)
    requires |s.mem| < s.valid + |Bytes(r)| && n == HDR_LEN + HeaderAt(s.mem, s.tail).len && s.log != []
    requires Calm(s.p) && (c.tail ==> !Polling(s.p))
    ensures Path(run, c) && run[0] == s
    ensures run[|run| - 1] == s.(valid := s.valid - n, tail := Wrap(s.tail + n, |s.mem|), log := s.log[1..],
                                 w := MakeRoom(r))
  {
    hide *;
    var a1 := s.(w := MakeRoom(r));
    var a2 := a1.(valid := s.valid - n, w := StoreTail(r, n));
    var a3 := a2.(tail := Wrap(s.tail + n, |s.mem|), log := s.log[1..], w := MakeRoom(r));
    StartStep(s, r, c);
    PopStep(a1, r, n, c);
    TailStep(a2, r, n, c);
    PathOfOne(a3, c);
    PathStep(a2, [a3], c);
    PathStep(a1, [a2] + [a3], c);
    run := [s] + ([a1] + ([a2] + [a3]));
    PathStep(s, [a1] + ([a2] + [a3]), c);
  }

  /** The writer drops the first record of a filled ring while the reader is at p. */
  lemma PopFirst(s: Sys, p: Poll, r: Record, c: Clauses) returns (run: seq<Sys>)
    requires Filled(s) && s.log != [] && r.Ok() && r.h.seqno == |s.log| + 1 < U32_MAX && Calm(p)
    requires |s.mem| < s.valid + |Bytes(r)| && |Bytes(r)| <= |s.mem| && !c.tail
    ensures Path(run, c) && run[0] == s.(p := p) && run[|run| - 1] == Dropped(s, p, r)
  {
    hide *;
    FirstDropped(s, r);
    var n := |Bytes(s.log[0])|;
    NextNumber(|s.log|, s.newest);
    run := PopRun(s.(p := p), r, n, c);
    DroppedIs(s, p, r, run[|run| - 1]);
  }

  lemma NextNumber(n: nat, newest: u32)
    requires newest == n && n + 1 < U32_MAX
    ensures NextSeq(newest) == n + 1
  {
  }

  lemma DroppedIs(s: Sys, p: Poll, r: Record, t: Sys)
    requires s.log != []
    requires var n := |Bytes(s.log[0])|;
      t == s.(p := p, valid := s.valid - n, tail := n, log := s.log[1..], w := MakeRoom(r))
    ensures t == Dropped(s, p, r)
  {
  }

  /** Behind v live bytes at t the new record goes round the end, and its payload from byte g on covers the bytes
      behind the first header. */
  lemma Overrun(mem: seq<byte>, t: nat, v: nat, a: seq<byte>, b: seq<byte>, n: nat, g: nat)
    requires |a| == HDR_LEN && t + v + g == |mem| && t == HDR_LEN + n && g < |b| <= g + n && |b| <= |mem|
    ensures Window(TwoStores(mem, t, v, a, b), HDR_LEN, n) == b[g..] + Window(mem, HDR_LEN, n)[|b| - g..]
  {
    var size := |mem|;
    WrapBelowTwice(t + v, size);
    WrapBelowTwice(t + v + HDR_LEN, size);
    var end := TwoStores(mem, t, v, a, b);
    var x, y := Window(end, HDR_LEN, n), b[g..] + Window(mem, HDR_LEN, n)[|b| - g..];
    forall j | 0 <= j < n ensures x[j] == y[j] {
      WrapBelowTwice(HDR_LEN + j, size);
      hide Wrap;
      var p := HDR_LEN + j;
      assert Ahead(p, Wrap(t + v, size), size) == p + g;
      assert Ahead(p, Wrap(t + v + HDR_LEN, size), size) == j + g;
    }
  }

  lemma TearRun(s: Sys, r: Record, g: nat) returns (run: seq<Sys>)
    requires Filled(s) && 2 <= |s.log| && s.log[0].h.seqno == 1 && |s.log| + 1 < U32_MAX
    requires MagicOk(s.log[0].h.magic) && s.log[0].h.len <= MAXPAY && |LogBytes(s.log)| + g == |s.mem|
    requires r.Ok() && r.h.seqno == |s.log| + 1 && g < |r.payload| <= g + |s.log[0].payload|
    ensures Path(run, ALL.(tail := false)) && run[0] == s
    ensures var n, x := |r.payload|, s.log[0];
      run[|run| - 1].p == Finished(Some(Record(x.h, r.payload[g..] + x.payload[n - g..])))
      && run[|run| - 1].written == s.written + [r]
  {
    var x, c := s.log[0], ALL.(tail := false);
    FrontOf(s, r, g);
    hide *;
    var a := ReachFirst(s);
    var p := Copying(x.h, 0, 0, []);
    CalmCopying(p);
    var b := PopFirst(s, p, r, c);
    var m := Dropped(s, p, r);
    DroppedReady(s, p, r);
    DroppedFields(s, p, r);
    var d := AppendRun(m, r, c);
    AppendedLog(m, r);
    var e := d[|d| - 1];
    Overrun(s.mem, m.tail, |LogBytes(m.log)|, Image(r.h), r.payload, |x.payload|, g);
    AppendedMem(m, r);
    EmptyWindow(e.mem, 0 + HDR_LEN);
    var f := ReadRun(e, c);
    PathJoin(a, b, c);
    PathJoin(a + b[1..], d, c);
    PathJoin(a + b[1..] + d[1..], f, c);
    run := a + b[1..] + d[1..] + f[1..];
  }

  lemma CalmCopying(p: Poll)
    requires p.Copying?
    ensures Calm(p) && !p.HasValid?
  {
  }

  lemma DroppedFields(s: Sys, p: Poll, r: Record)
    requires Filled(s) && s.log != [] && r.Ok() && |s.mem| < s.valid + |Bytes(r)|
    ensures var m, n := Dropped(s, p, r), |Bytes(s.log[0])|;
      && m.p == p && m.written == s.written && |m.mem| == |s.mem| && m.mem == s.mem && m.tail == n
      && n + |LogBytes(m.log)| == s.valid
  {
    FirstDropped(s, r);
    hide LogBytes, Bytes, Filled;
  }

  lemma AppendedMem(s: Sys, r: Record)
    requires 0 < |s.mem|
    ensures var t := Appended(s, r);
      t.mem == TwoStores(s.mem, s.tail, |LogBytes(s.log)|, Image(r.h), r.payload) && t.w == Idle && StaleFails(t)
  {
  }

  lemma EmptyWindow(mem: seq<byte>, off: nat)
    requires 0 < |mem|
    ensures Window(mem, off, 0) == []
  {
  }

  /** Keeping every clause keeps any of them. */
  lemma PathWeaken(run: seq<Sys>, c: Clauses)
    requires Path(run, ALL)
    ensures Path(run, c)
  {
    hide Step, TailStays, StaleFails, NewestKnown, HeaderStays;
    forall k | 0 <= k < |run| - 1 ensures Linked(run[k], run[k + 1], c) {
      assert Linked(run[k], run[k + 1], ALL);
    }
  }

  /** Sizes and bytes at the front of a filled ring. */
  lemma FrontOf(s: Sys, r: Record, g: nat)
    requires Filled(s) && 2 <= |s.log| && |LogBytes(s.log)| + g == |s.mem|
    requires g < |r.payload| <= g + |s.log[0].payload| && r.Ok()
    ensures var x := s.log[0];
      && 0 < |s.mem| && s.valid + g == |s.mem| && |Bytes(x)| == HDR_LEN + |x.payload| && x.h.len == |x.payload|
      && |Bytes(r)| == HDR_LEN + |r.payload| <= |s.mem| && Window(s.mem, HDR_LEN, |x.payload|) == x.payload
  {
    LongEnough(s.log);
    assert s.log[0].Ok() by {
      assert s.log[0] in s.log;
    }
    LogFirst(s.mem, 0, s.log);
    WrapBelowTwice(0 + HDR_LEN, |s.mem|);
    hide Window, LogBytes, Blank, Wrap;
  }

  /** Without the tail clause the claim fails, the other three clauses kept at every step, in a ring of any size: fill a
      fresh ring with any records so that g >= 12 bytes stay blank, let the reader start copying the first, and let
      the writer add one that needs its space and has between g + 1 and g + (the first payload's size) payload bytes.
      What is delivered is the first header with the new record's bytes in front of the old ones. Nobody wrote it. */
  lemma TearWithoutTailClause(size: nat, rs: seq<Record>, r: Record, g: nat) returns (run: seq<Sys>)
    requires 2 <= |rs| && |rs| + 1 < U32_MAX && 12 <= g && |LogBytes(rs)| + g == size
    requires forall i | 0 <= i < |rs| :: rs[i].Ok() && rs[i].h.seqno == i + 1
    requires MagicOk(rs[0].h.magic) && rs[0].h.len <= MAXPAY
    requires r.Ok() && r.h.seqno == |rs| + 1 && g < |r.payload| <= g + |rs[0].payload|
    requires r.payload[g..] != rs[0].payload[..|r.payload| - g]
    ensures Path(run, ALL.(tail := false)) && Initial(run[0]) && |run[0].mem| == size
    ensures var x, t := Record(rs[0].h, r.payload[g..] + rs[0].payload[|r.payload| - g..]), run[|run| - 1];
      t.p == Finished(Some(x)) && x !in t.written
  {
    hide Filled, LogBytes, Linked, MagicOk, Initial;
    var s := FreshFilled(size);
    EmptyLogBytes();
    var a := FillRun(s, rs);
    PathWeaken(a, ALL.(tail := false));
    var t := a[|a| - 1];
    assert [] + rs == rs;
    WrittenIsLog(t);
    var b := TearRun(t, r, g);
    PathJoin(a, b, ALL.(tail := false));
    run := a + b[1..];
    var x := Record(rs[0].h, r.payload[g..] + rs[0].payload[|r.payload| - g..]);
    assert x.payload[..|r.payload| - g] == r.payload[g..];
    forall y | y in rs + [r] ensures y != x {
      if y.h.seqno == 1 {
        assert y == rs[0];
      }
    }
  }

  lemma WrittenIsLog(s: Sys)
    requires Filled(s)
    ensures s.written == s.log
  {
    hide LogBytes, Tiled, Blank;
  }

  // ---------- the newest number ----------

  lemma ReservedRun(s: Sys, r: Record) returns (run: seq<Sys>)
    requires Initial(s) && |Bytes(r)| <= |s.mem| && r.Ok() && r.h.seqno == 1
    ensures Path(run, ALL.(newest := false)) && run[0] == s
    ensures run[|run| - 1] == s.(valid := |Bytes(r)|, w := PublishSeq(r), p := Walking(0, 0, 0, |Bytes(r)|, []))
  {
    EmptyLogBytes();
    WrapBelowTwice(0, |s.mem|);
    hide LogBytes, Window, HeaderAt, Wrap, MagicOk, Bytes;
    var e := |Bytes(r)|;
    var a1 := s.(p := HasTail(0));
    var a2 := a1.(w := MakeRoom(r));
    var a3 := a2.(valid := e, w := PublishSeq(r));
    var a4 := a3.(p := HasValid(0, e));
    var a5 := a4.(p := Walking(0, 0, 0, e, []));
    assert ReaderStep(s, a1) && WriterStep(a1, a2) && WriterStep(a2, a3) && ReaderStep(a3, a4) && ReaderStep(a4, a5);
    hide ReaderStep, WriterStep;
    run := [s, a1, a2, a3, a4, a5];
  }

  /** The first record's header is in place, its payload is not. */
  function HalfWritten(s: Sys, r: Record): Sys
    requires 0 < |s.mem|
  {
    s.(newest := 1, head := Wrap(0 + |Bytes(r)|, |s.mem|), mem := Stored(s.mem, 0, Image(r.h)),
       w := CopyPayload(r, 0, 0))
  }

  lemma HeaderStored(mem: seq<byte>, r: Record)
    requires |Bytes(r)| <= |mem| && 0 < |mem|
    ensures Window(Stored(mem, 0, Image(r.h)), 0, HDR_LEN) == Image(r.h) && Decode(Image(r.h)) == r.h
  {
    StoredWindow(mem, 0, Image(r.h));
    hide Image, Decode;
    ImageIffDecode(Image(r.h), r.h);
  }

  /** The writer numbers the reserved record and copies its header, the reader waiting in front of it. */
  lemma NumberRun(s: Sys, r: Record, c: Clauses) returns (run: seq<Sys>)
    requires |Bytes(r)| <= |s.mem| && s.tail == s.head == 0 && s.log == [] && s.w == PublishSeq(r)
    requires Calm(s.p) && r.h.seqno == 1 && !MagicOk(HeaderAt(s.mem, 0).magic)
    ensures Path(run, c) && run[0] == s && run[|run| - 1] == HalfWritten(s, r)
  {
    EmptyLogBytes();
    WrapBelowTwice(0, |s.mem|);
    StoredNothing(s.mem, 0);
    hide LogBytes, Window, HeaderAt, Wrap, MagicOk, Image, Stored;
    var a1 := s.(newest := 1, w := PublishHead(r));
    var a2 := a1.(head := Wrap(0 + |Bytes(r)|, |s.mem|), w := CopyHeader(r, 0, 0));
    assert WriterStep(s, a1) && WriterStep(a1, a2);
    hide ReaderStep, WriterStep;
    WriteLinked(s, a1, c);
    WriteLinked(a1, a2, c);
    assert Image(r.h)[..0] == [];
    var b := ImageRun(a2, s.mem, r, 0, 0, c);
    hide Linked;
    PathStep(a1, b, c);
    PathStep(s, [a1] + b, c);
    run := [s] + ([a1] + b);
  }

  lemma FirstTaken(s: Sys, r: Record, c: Clauses) returns (run: seq<Sys>)
    requires |Bytes(r)| <= |s.mem| && s.p == Walking(0, 0, 0, |Bytes(r)|, []) && s.w.CopyPayload?
    requires r.Ok() && 0 < r.h.len <= MAXPAY && MagicOk(r.h.magic) && r.h.seqno == 1
    requires Window(s.mem, 0, HDR_LEN) == Image(r.h) && Decode(Image(r.h)) == r.h
    ensures Path(run, c) && run[0] == s
    ensures run[|run| - 1] == s.(p := Finished(Some(Record(r.h, Window(s.mem, HDR_LEN, r.h.len)))))
  {
    hide Window, Image, Decode, Path, HeaderAt, LogBytes, MagicOk;
    assert [] + Image(r.h) == Image(r.h);
    var a := TakeRun(s, Image(r.h), c);
    var t := a[|a| - 1];
    EmptyWindow(t.mem, 0 + HDR_LEN);
    var b := ReadRun(t, c);
    PathJoin(a, b, c);
    run := a + b[1..];
  }

  /** Without the clause about the newest number: a reader that loads tail and newest before the first record is
      numbered, and valid after its space is reserved, delivers that record with whatever lay in the ring before. */
  lemma TearOnFirstRecord(s: Sys, r: Record) returns (run: seq<Sys>)
    requires Initial(s) && |Bytes(r)| <= |s.mem| && r.Ok() && r.h.seqno == 1 && 0 < r.h.len <= MAXPAY
    requires MagicOk(r.h.magic) && !MagicOk(HeaderAt(s.mem, 0).magic)
    ensures Path(run, ALL.(newest := false)) && run[0] == s
    ensures var t := run[|run| - 1];
      t.p == Finished(Some(Record(r.h, Window(s.mem, HDR_LEN, r.h.len)))) && t.written == []
  {
    assert s.tail == s.head == 0 && s.log == [] && s.written == [] && 0 < |s.mem|;
    BehindHeader(s.mem, r);
    HeaderStored(s.mem, r);
    hide Window, Initial, Path, Stored, Image, Wrap, HeaderAt, MagicOk, Decode;
    var c := ALL.(newest := false);
    var a := ReservedRun(s, r);
    var b := NumberRun(a[|a| - 1], r, c);
    PathJoin(a, b, c);
    var front := a + b[1..];
    var rest := FirstTaken(front[|front| - 1], r, c);
    PathJoin(front, rest, c);
    run := front + rest[1..];
  }

  lemma BehindHeader(mem: seq<byte>, r: Record)
    requires r.Ok() && |Bytes(r)| <= |mem| && 0 < |mem|
    ensures Window(Stored(mem, 0, Image(r.h)), HDR_LEN, r.h.len) == Window(mem, HDR_LEN, r.h.len)
  {
    var n := r.h.len;
    var x, y := Window(Stored(mem, 0, Image(r.h)), HDR_LEN, n), Window(mem, HDR_LEN, n);
    forall i | 0 <= i < n ensures x[i] == y[i] {
      WrapBelowTwice(HDR_LEN + i, |mem|);
    }
  }
}
