/** Reader and writer interleaved step by step, without locks. The writer publishes the header fields one
    store at a time and only then copies the record, byte by byte; the reader loads the fields one at a time and
    reads record headers and payload byte by byte. */
module Tearing {
  import opened Words
  import opened Records
  import opened RingWriter
  import opened RingReader

  datatype Writer =
    | Idle
    | MakeRoom(r: Record)
    | StoreTail(r: Record, popped: nat)   // valid is already reduced
    | PublishSeq(r: Record)               // valid is already raised
    | PublishHead(r: Record)
    | CopyHeader(r: Record, at: nat, done: nat)
    | CopyPayload(r: Record, at: nat, done: nat)

  datatype Poll =
    | Asleep
    | HasTail(tail: nat)
    | HasValid(tail: nat, valid: int)
    | Walking(newest: u32, index: nat, off: nat, left: int, head: seq<byte>)   // part of a header read
    | Copying(h: Header, index: nat, off: nat, buf: seq<byte>)
    | Finished(delivered: Option<Record>)

  /** index and log only name things for the proof: log lists the records complete behind tail,
      written every record completed so far. */
  datatype Sys = Sys(mem: seq<byte>, valid: int, tail: nat, newest: u32, head: nat, w: Writer,
                     log: seq<Record>, written: seq<Record>, p: Poll)

  // ---------- steps ----------

  ghost predicate WriterStep(s: Sys, t: Sys)
    requires 0 < |s.mem|
  {
    match s.w
    case Idle =>
      t.w.MakeRoom? && t == s.(w := t.w) && t.w.r.Ok() && |Bytes(t.w.r)| <= |s.mem|
      && t.w.r.h.seqno == NextSeq(s.newest)
    case MakeRoom(r) =>
      if |s.mem| < s.valid + |Bytes(r)| then
        var n := HDR_LEN + HeaderAt(s.mem, s.tail).len;
        t == s.(valid := s.valid - n, w := StoreTail(r, n))
      else
        t == s.(valid := s.valid + |Bytes(r)|, w := PublishSeq(r))
    case StoreTail(r, n) =>
      s.log != [] && t == s.(tail := Wrap(s.tail + n, |s.mem|), log := s.log[1..], w := MakeRoom(r))
    case PublishSeq(r) =>
      t == s.(newest := r.h.seqno, w := PublishHead(r))
    case PublishHead(r) =>
      t == s.(head := Wrap(s.head + |Bytes(r)|, |s.mem|), w := CopyHeader(r, s.head, 0))
    case CopyHeader(r, at, k) =>
      k < HDR_LEN
      && t == s.(mem := Stored(s.mem, Wrap(at + k, |s.mem|), [Image(r.h)[k]]),
                 w := if k + 1 < HDR_LEN then CopyHeader(r, at, k + 1) else CopyPayload(r, at, 0))
    case CopyPayload(r, at, k) =>
      if k < |r.payload| then
        t == s.(mem := Stored(s.mem, Wrap(at + HDR_LEN + k, |s.mem|), [r.payload[k]]), w := CopyPayload(r, at, k + 1))
      else
        t == s.(log := s.log + [r], written := s.written + [r], w := Idle)
  }

  /** Whether an acceptable record is wanted is left open, so every cursor and filter is covered. */
  ghost predicate ReaderStep(s: Sys, t: Sys)
    requires 0 < |s.mem|
  {
    match s.p
    case Asleep => t == s.(p := HasTail(s.tail))
    case HasTail(tail) => t == s.(p := HasValid(tail, s.valid))
    case HasValid(tail, valid) => t == s.(p := Walking(s.newest, 0, tail, valid, []))
    case Walking(newest, i, off, left, head) =>
      if left <= HDR_LEN then
        t == s.(p := Finished(None))
      else if |head| < HDR_LEN then
        t == s.(p := Walking(newest, i, off, left, head + [s.mem[Wrap(off + |head|, |s.mem|)]]))
      else
        var h := Decode(head[..HDR_LEN]);
        if !MagicOk(h.magic) || left < HDR_LEN + h.len || MAXPAY < h.len || h.seqno == newest then
          t == s.(p := Finished(None))
        else
          || t == s.(p := Copying(h, i, off, []))
          || t == s.(p := Walking(newest, i + 1, Wrap(off + HDR_LEN + h.len, |s.mem|), left - (HDR_LEN + h.len), []))
          || t == s.(p := Walking(newest, i, off, left, []))   // the jump reads this header again
    case Copying(h, i, off, buf) =>
      if |buf| < h.len then
        t == s.(p := Copying(h, i, off, buf + [s.mem[Wrap(off + HDR_LEN + |buf|, |s.mem|)]]))
      else
        t == s.(p := Finished(Some(Record(h, buf))))
    case Finished(_) => t == s.(p := Asleep)
  }

  // ---------- the interference hypothesis ----------

  predicate Polling(p: Poll) {
    !p.Asleep? && !p.Finished?
  }

  /** The record being written, once its space is reserved. */
  predicate Reserved(w: Writer) {
    w.PublishSeq? || w.PublishHead? || w.CopyHeader? || w.CopyPayload?
  }

  predicate SeqPublished(w: Writer) {
    w.PublishHead? || w.CopyHeader? || w.CopyPayload?
  }

  /** The record is numbered, but its header does not yet say so: the number is its bytes 4 to 7. */
  predicate Unwritten(w: Writer) {
    w.PublishHead? || (w.CopyHeader? && w.done < 8)
  }

  function Behind(s: Sys): nat
    requires 0 < |s.mem|
  {
    Wrap(s.tail + |LogBytes(s.log)|, |s.mem|)
  }

  /** No tail store inside a poll. */
  ghost predicate TailStays(s: Sys, t: Sys) {
    Polling(s.p) && s.w.StoreTail? ==> t.w.StoreTail?
  }

  /** While the record in progress lacks its number, the bytes where its header goes fail the magic test. */
  ghost predicate StaleFails(s: Sys)
    requires 0 < |s.mem|
  {
    Unwritten(s.w) ==> !MagicOk(HeaderAt(s.mem, Behind(s)).magic)
  }

  /** When the reader loads the newest number, that number belongs to a record in the ring or being written. */
  ghost predicate NewestKnown(s: Sys) {
    s.p.HasValid? ==> s.log != [] || SeqPublished(s.w)
  }

  /** The reader is in the middle of the header behind the complete records. */
  predicate InHeader(s: Sys) {
    s.p.Walking? && s.p.index == |s.log| && 0 < |s.p.head| < HDR_LEN
  }

  /** No header byte is stored while the reader is in the middle of that header. */
  predicate HeaderStays(s: Sys, t: Sys) {
    InHeader(s) && s.w.CopyHeader? ==> t.w == s.w
  }

  /** Which clauses of the interference hypothesis are kept. */
  datatype Clauses = Clauses(tail: bool, stale: bool, newest: bool, header: bool)

  const ALL: Clauses := Clauses(true, true, true, true)

  /** The clauses, for one step. */
  ghost predicate Undisturbed(s: Sys, t: Sys)
    requires 0 < |s.mem|
  {
    TailStays(s, t) && StaleFails(s) && NewestKnown(s) && HeaderStays(s, t)
  }

  ghost predicate Step(s: Sys, t: Sys)
    requires 0 < |s.mem|
  {
    WriterStep(s, t) || ReaderStep(s, t)
  }

  // ---------- invariants ----------

  /** The bytes of the record in progress that are already in place. */
  function InPlace(w: Writer): seq<byte> {
    if w.CopyHeader? && w.done <= HDR_LEN then Image(w.r.h)[..w.done]
    else if w.CopyPayload? && w.done <= |w.r.payload| then Image(w.r.h) + w.r.payload[..w.done]
    else []
  }

  /** Behind tail lie the complete records of log, then part of one more. */
  ghost predicate BytesInv(mem: seq<byte>, tail: nat, log: seq<Record>, part: seq<byte>) {
    var n := |LogBytes(log)|;
    && tail < |mem| && n + |part| <= |mem|
    && (forall r | r in log :: r.Ok())
    && Window(mem, tail, n + |part|) == LogBytes(log) + part
  }

  /** How the header fields stand at each of the writer's program points. */
  ghost predicate FieldInv(s: Sys)
    requires 0 < |s.mem|
  {
    var n := |LogBytes(s.log)|;
    && (s.log != [] && !SeqPublished(s.w) ==> s.log[|s.log| - 1].h.seqno == s.newest)
    && (SeqPublished(s.w) ==> s.w.r.h.seqno == s.newest)
    && (!s.w.Idle? ==> s.w.r.Ok() && |Bytes(s.w.r)| <= |s.mem|)
    && s.valid == (if Reserved(s.w) then n + |Bytes(s.w.r)| else if s.w.StoreTail? then n - s.w.popped else n)
    && (Reserved(s.w) ==> s.valid <= |s.mem|)
    && (s.w.StoreTail? ==> s.log != [] && s.w.popped == |Bytes(s.log[0])|)
    && (if s.w.CopyHeader? || s.w.CopyPayload?
        then s.w.at == Behind(s) && s.head == Wrap(s.tail + n + |Bytes(s.w.r)|, |s.mem|)
        else s.head == Behind(s))
    && (s.w.CopyHeader? ==> s.w.done < HDR_LEN)
    && (s.w.CopyPayload? ==> s.w.done <= |s.w.r.payload|)
  }

  ghost predicate WriterInv(s: Sys) {
    && 0 < |s.mem|
    && BytesInv(s.mem, s.tail, s.log, InPlace(s.w))
    && FieldInv(s)
    && (forall r | r in s.log :: r in s.written)
  }

  function Offset(s: Sys, i: nat): nat
    requires 0 < |s.mem| && i <= |s.log|
  {
    Wrap(s.tail + |LogBytes(s.log[..i])|, |s.mem|)
  }

  /** The record numbered newest lies at or after place i, complete or in progress. */
  ghost predicate NewestAhead(s: Sys, newest: u32, i: nat) {
    || (exists k | i <= k < |s.log| :: s.log[k].h.seqno == newest)
    || (i <= |s.log| && SeqPublished(s.w) && s.w.r.h.seqno == newest)
  }

  /** A header the walk does not go past. */
  predicate Rejected(head: seq<byte>, newest: u32)
    requires |head| == HDR_LEN
  {
    !MagicOk(Decode(head).magic) || Decode(head).seqno == newest
  }

  /** What was read of a header is what stands there, or it was overwritten since and will be rejected. */
  ghost predicate HeadInv(mem: seq<byte>, off: nat, head: seq<byte>, newest: u32)
    requires 0 < |mem|
  {
    |head| <= HDR_LEN && (head == Window(mem, off, |head|) || (|head| == HDR_LEN && Rejected(head, newest)))
  }

  /** Where the reader stands, relative to the records behind an unmoved tail. */
  ghost predicate ReaderInv(s: Sys) {
    0 < |s.mem| &&
    match s.p
    case Asleep => true
    case HasTail(tail) => tail == s.tail
    case HasValid(tail, _) => tail == s.tail
    case Walking(newest, i, off, _, head) =>
      i <= |s.log| && off == Offset(s, i) && NewestAhead(s, newest, i) && HeadInv(s.mem, off, head, newest)
    case Copying(h, i, off, buf) =>
      i < |s.log| && off == Offset(s, i) && h == s.log[i].h && buf <= s.log[i].payload
    case Finished(d) => d.Some? ==> d.value in s.written
  }

  ghost predicate Inv(s: Sys) {
    WriterInv(s) && ReaderInv(s)
  }

  // ---------- what each store does to the bytes ----------

  lemma BytesPop(mem: seq<byte>, tail: nat, log: seq<Record>)
    requires BytesInv(mem, tail, log, []) && log != []
    ensures var n := |Bytes(log[0])|;
      && HeaderAt(mem, tail) == log[0].h && n == HDR_LEN + log[0].h.len
      && |LogBytes(log)| == n + |LogBytes(log[1..])|
      && Wrap(tail + |LogBytes(log)|, |mem|) == Wrap(Wrap(tail + n, |mem|) + |LogBytes(log[1..])|, |mem|)
      && BytesInv(mem, Wrap(tail + n, |mem|), log[1..], [])
  {
    hide Window, Image, HeaderAt, LogBytes, Wrap;
    assert log[0] in log;
    assert LogBytes(log) + [] == LogBytes(log) && LogBytes(log[1..]) + [] == LogBytes(log[1..]);
    LogFirst(mem, tail, log);
    HeadMoves(tail, |Bytes(log[0])|, |LogBytes(log[1..])|, |mem|);
    assert tail + HDR_LEN + |log[0].payload| == tail + |Bytes(log[0])|;
  }

  lemma BytesStore(mem: seq<byte>, tail: nat, log: seq<Record>, part: seq<byte>, b: seq<byte>)
    requires BytesInv(mem, tail, log, part) && |LogBytes(log)| + |part| + |b| <= |mem|
    ensures BytesInv(Stored(mem, Wrap(tail + (|LogBytes(log)| + |part|), |mem|), b), tail, log, part + b)
  {
    hide Window, LogBytes, Stored, Wrap;
    StoredAppend(mem, tail, |LogBytes(log)| + |part|, b);
    var x := LogBytes(log);
    assert x + (part + b) == x + part + b;
  }

  lemma BytesClose(mem: seq<byte>, tail: nat, log: seq<Record>, r: Record)
    requires BytesInv(mem, tail, log, Image(r.h) + r.payload) && r.Ok()
    ensures BytesInv(mem, tail, log + [r], [])
    ensures |LogBytes(log + [r])| == |LogBytes(log)| + |Bytes(r)|
  {
    LogBytesAppend(log, r);
    hide Window, LogBytes, Image;
    var x, y, z := LogBytes(log), Image(r.h), r.payload;
    assert x + (y + z) == x + y + z;
    assert LogBytes(log + [r]) + [] == LogBytes(log + [r]);
  }

  lemma BytesHeader(mem: seq<byte>, tail: nat, log: seq<Record>, h: Header, rest: seq<byte>)
    requires BytesInv(mem, tail, log, Image(h) + rest)
    ensures HeaderAt(mem, Wrap(tail + |LogBytes(log)|, |mem|)) == h
  {
    hide LogBytes, Image, Decode, Window, Wrap, HeaderAt;
    var at := Wrap(tail + |LogBytes(log)|, |mem|);
    PartWindow(mem, tail, log, Image(h) + rest, HDR_LEN);
    assert (Image(h) + rest)[..HDR_LEN] == Image(h);
    HeaderOfImage(mem, at, h);
  }

  lemma PartWindow(mem: seq<byte>, tail: nat, log: seq<Record>, part: seq<byte>, k: nat)
    requires BytesInv(mem, tail, log, part) && k <= |part|
    ensures 0 < |mem| && Window(mem, Wrap(tail + |LogBytes(log)|, |mem|), k) == part[..k]
  {
    hide LogBytes, Window, Wrap;
    var n := |LogBytes(log)|;
    WindowPart(mem, tail, n + |part|, n, n + k);
    assert (LogBytes(log) + part)[n..n + k] == part[..k];
  }

  lemma HeaderOfImage(mem: seq<byte>, at: nat, h: Header)
    requires 0 < |mem| && Window(mem, at, HDR_LEN) == Image(h)
    ensures HeaderAt(mem, at) == h
  {
    hide Image, Decode;
    ImageIffDecode(Image(h), h);
  }

  /** Record i of the log, found at its offset in the ring. */
  lemma BytesAt(mem: seq<byte>, tail: nat, log: seq<Record>, part: seq<byte>, i: nat)
    requires BytesInv(mem, tail, log, part) && i < |log|
    ensures var at := Wrap(tail + |LogBytes(log[..i])|, |mem|); var r := log[i];
      && r.Ok() && HeaderAt(mem, at) == r.h
      && Window(mem, Wrap(at + HDR_LEN, |mem|), |r.payload|) == r.payload
      && Wrap(tail + |LogBytes(log[..i + 1])|, |mem|) == Wrap(at + HDR_LEN + r.h.len, |mem|)
  {
    hide Image, Decode, Window, HeaderAt, Wrap, LogBytes;
    var front, rest := log[..i], log[i..];
    var m := |LogBytes(front)|;
    assert log[i] in log && log[i].Ok();
    hide BytesInv;
    assert log == front + rest && rest[0] == log[i];
    LogBytesConcat(front, rest);
    assert log[..i + 1] == front + [log[i]];
    LogBytesAppend(front, log[i]);
    SuffixWindow(mem, tail, log, part, front, rest);
    LogFirst(mem, Wrap(tail + m, |mem|), rest);
    HeadMoves(tail, m, HDR_LEN + log[i].h.len, |mem|);
    assert m + (HDR_LEN + log[i].h.len) == |LogBytes(log[..i + 1])|;
    assert Wrap(tail + m, |mem|) + (HDR_LEN + log[i].h.len) == Wrap(tail + m, |mem|) + HDR_LEN + log[i].h.len;
  }

  lemma SuffixWindow(mem: seq<byte>, tail: nat, log: seq<Record>, part: seq<byte>,
                     front: seq<Record>, rest: seq<Record>)
    requires BytesInv(mem, tail, log, part) && LogBytes(log) == LogBytes(front) + LogBytes(rest)
    ensures 0 < |mem|
      && Window(mem, Wrap(tail + |LogBytes(front)|, |mem|), |LogBytes(rest)|) == LogBytes(rest)
  {
    hide Window, LogBytes, Wrap;
    var n, m := |LogBytes(log)|, |LogBytes(front)|;
    WindowPart(mem, tail, n + |part|, m, n);
    assert (LogBytes(log) + part)[m..n] == LogBytes(rest);
  }

  // ---------- the writer keeps its invariant ----------

  lemma PopKeepsInv(s: Sys, t: Sys)
    requires WriterInv(s) && WriterStep(s, t) && (s.w.MakeRoom? || s.w.StoreTail?)
    ensures WriterInv(t)
  {
    hide BytesInv, LogBytes, HeaderAt, Wrap;
    assert InPlace(s.w) == [] && InPlace(t.w) == [];
    if s.log == [] {
      assert LogBytes(s.log) == [] by {
        EmptyLogBytes();
      }
    } else {
      BytesPop(s.mem, s.tail, s.log);
    }
  }

  lemma PublishKeepsInv(s: Sys, t: Sys)
    requires WriterInv(s) && WriterStep(s, t) && (s.w.Idle? || s.w.PublishSeq? || s.w.PublishHead?)
    ensures WriterInv(t)
  {
    hide BytesInv, LogBytes, Wrap, Bytes;
    if s.w.PublishHead? {
      var n, m := |LogBytes(s.log)|, |Bytes(s.w.r)|;
      HeadMoves(s.tail, n, m, |s.mem|);
      assert s.tail + (n + m) == s.tail + n + m;
    }
  }

  lemma CopyKeepsInv(s: Sys, t: Sys)
    requires WriterInv(s) && WriterStep(s, t) && (s.w.CopyHeader? || s.w.CopyPayload?)
    ensures WriterInv(t)
  {
    hide BytesInv, LogBytes, Wrap, Image, Stored;
    var r, n := s.w.r, |LogBytes(s.log)|;
    if s.w.CopyHeader? {
      var k, b := s.w.done, [Image(r.h)[s.w.done]];
      BytesStore(s.mem, s.tail, s.log, InPlace(s.w), b);
      assert InPlace(t.w) == InPlace(s.w) + b;
      HeadMoves(s.tail, n, k, |s.mem|);
    } else if s.w.done < |r.payload| {
      var k, b := s.w.done, [r.payload[s.w.done]];
      BytesStore(s.mem, s.tail, s.log, InPlace(s.w), b);
      assert InPlace(t.w) == InPlace(s.w) + b;
      HeadMoves(s.tail, n, HDR_LEN + k, |s.mem|);
      assert Behind(s) + HDR_LEN + k == Behind(s) + (HDR_LEN + k);
    } else {
      assert InPlace(s.w) == Image(r.h) + r.payload;
      BytesClose(s.mem, s.tail, s.log, r);
      assert s.tail + |LogBytes(t.log)| == s.tail + n + |Bytes(r)|;
    }
  }

  lemma WriterKeepsWriterInv(s: Sys, t: Sys)
    requires WriterInv(s) && WriterStep(s, t)
    ensures WriterInv(t)
  {
    hide WriterInv, WriterStep;
    if s.w.MakeRoom? || s.w.StoreTail? {
      PopKeepsInv(s, t);
    } else if s.w.CopyHeader? || s.w.CopyPayload? {
      CopyKeepsInv(s, t);
    } else {
      PublishKeepsInv(s, t);
    }
  }

  // ---------- the reader keeps its place ----------

  lemma WriterKeepsReaderInv(s: Sys, t: Sys)
    requires Inv(s) && WriterStep(s, t) && Undisturbed(s, t)
    ensures ReaderInv(t)
  {
    hide BytesInv, LogBytes, Wrap, Image, Stored, HeaderAt, FieldInv, HeadInv, StaleFails;
    if !s.w.StoreTail? {
      LogGrows(s, t);
      if s.p.Walking? || s.p.Copying? {
        assert t.log[..s.p.index] == s.log[..s.p.index];
      }
      if s.p.Walking? {
        WriterKeepsHead(s, t);
      }
    }
  }

  /** A store either leaves alone what was read of a header, or the reader has read all of it and rejects it. */
  lemma WriterKeepsHead(s: Sys, t: Sys)
    requires Inv(s) && WriterStep(s, t) && Undisturbed(s, t) && s.p.Walking? && !s.w.StoreTail?
    ensures |t.mem| == |s.mem| && HeadInv(t.mem, s.p.off, s.p.head, s.p.newest)
  {
    hide *;
    var i, off, head, newest := s.p.index, s.p.off, s.p.head, s.p.newest;
    WalkingParts(s);
    StoreSizes(s, t);
    if t.mem != s.mem {
      WriterKeepsWriterInv(s, t);
      LogGrows(s, t);
      HeaderStore(s, t);
      if i < |s.log| || s.w.CopyPayload? {
        SameHeader(s, t, i);
        HeadKept(s.mem, t.mem, off, head, newest);
      } else if head == [] {
        EmptyHead(t.mem, off, newest);
      } else {
        NewestInProgress(s, newest);
        HeadStale(s);
        HeadOver(s.mem, t.mem, off, head, newest);
      }
    }
  }

  lemma WalkingParts(s: Sys)
    requires Inv(s) && s.p.Walking?
    ensures WriterInv(s) && 0 < |s.mem| && s.p.index <= |s.log| && s.p.off == Offset(s, s.p.index)
    ensures NewestAhead(s, s.p.newest, s.p.index) && HeadInv(s.mem, s.p.off, s.p.head, s.p.newest)
    ensures |s.p.head| <= HDR_LEN
  {
    hide WriterInv, Offset, NewestAhead, LogBytes, Wrap;
  }

  lemma StoreSizes(s: Sys, t: Sys)
    requires 0 < |s.mem| && WriterStep(s, t)
    ensures |t.mem| == |s.mem|
    ensures t.mem != s.mem ==>
      t.log == s.log && (s.w.CopyHeader? || (s.w.CopyPayload? && t.w.CopyPayload? && t.w.r == s.w.r))
  {
    hide LogBytes, Wrap, Image, HeaderAt;
  }

  /** What the hypothesis says of a header store behind the complete records. */
  lemma HeaderStore(s: Sys, t: Sys)
    requires 0 < |s.mem| && WriterStep(s, t) && Undisturbed(s, t) && s.p.Walking?
    ensures t.mem != s.mem && s.p.index == |s.log| && s.w.CopyHeader? ==> s.p.head == [] || HDR_LEN <= |s.p.head|
    ensures StaleFails(s)
  {
    hide LogBytes, Wrap, Image, HeaderAt, StaleFails, Stored;
  }

  /** The header of a complete record, and that of one whose payload is being copied, stand as they are. */
  lemma HeaderStands(s: Sys, i: nat)
    requires WriterInv(s) && i <= |s.log| && (i == |s.log| ==> s.w.CopyPayload?)
    ensures Window(s.mem, Offset(s, i), HDR_LEN) == Image(if i < |s.log| then s.log[i].h else s.w.r.h)
  {
    hide BytesInv, LogBytes, Window, Image, HeaderAt, Decode, Wrap;
    var h := if i < |s.log| then s.log[i].h else s.w.r.h;
    if i < |s.log| {
      BytesAt(s.mem, s.tail, s.log, InPlace(s.w), i);
    } else {
      assert s.log[..i] == s.log;
      HeaderInPlace(s);
    }
    ImageOfHeader(s.mem, Offset(s, i), h);
  }

  lemma ImageOfHeader(mem: seq<byte>, at: nat, h: Header)
    requires 0 < |mem| && HeaderAt(mem, at) == h
    ensures Window(mem, at, HDR_LEN) == Image(h)
  {
    hide Image, Decode, Window;
    ImageIffDecode(Window(mem, at, HDR_LEN), h);
  }

  lemma OffsetKept(s: Sys, t: Sys, i: nat)
    requires 0 < |s.mem| == |t.mem| && t.tail == s.tail && i <= |s.log| <= |t.log|
    requires forall k | 0 <= k < |s.log| :: t.log[k] == s.log[k]
    ensures Offset(t, i) == Offset(s, i)
  {
    assert t.log[..i] == s.log[..i];
    hide LogBytes, Wrap;
  }

  lemma SameHeader(s: Sys, t: Sys, i: nat)
    requires WriterInv(s) && WriterInv(t) && 0 < |s.mem| == |t.mem| && t.tail == s.tail && i <= |s.log| <= |t.log|
    requires forall k | 0 <= k < |s.log| :: t.log[k] == s.log[k]
    requires i == |s.log| ==> s.w.CopyPayload? && t.w.CopyPayload? && t.w.r == s.w.r && |t.log| == |s.log|
    ensures Window(t.mem, Offset(s, i), HDR_LEN) == Window(s.mem, Offset(s, i), HDR_LEN)
  {
    hide WriterInv, Offset, Window, Image;
    OffsetKept(s, t, i);
    HeaderStands(s, i);
    HeaderStands(t, i);
  }

  lemma WindowFront(mem: seq<byte>, off: nat, n: nat, m: nat)
    requires 0 < |mem| && n <= m
    ensures Window(mem, off, m)[..n] == Window(mem, off, n)
  {
  }

  lemma HeadKept(mem: seq<byte>, mem': seq<byte>, off: nat, head: seq<byte>, newest: u32)
    requires 0 < |mem| == |mem'| && HeadInv(mem, off, head, newest)
    requires Window(mem', off, HDR_LEN) == Window(mem, off, HDR_LEN)
    ensures HeadInv(mem', off, head, newest)
  {
    hide Window, Rejected;
    WindowFront(mem, off, |head|, HDR_LEN);
    WindowFront(mem', off, |head|, HDR_LEN);
  }

  lemma EmptyHead(mem: seq<byte>, off: nat, newest: u32)
    requires 0 < |mem|
    ensures HeadInv(mem, off, [], newest)
  {
  }

  lemma HeadOver(mem: seq<byte>, mem': seq<byte>, off: nat, head: seq<byte>, newest: u32)
    requires 0 < |mem| == |mem'| && HeadInv(mem, off, head, newest) && HDR_LEN <= |head|
    requires head == Window(mem, off, HDR_LEN) ==> Rejected(head, newest)
    ensures HeadInv(mem', off, head, newest)
  {
    hide Window, Rejected;
  }

  lemma NumberOfPrefix(b: seq<byte>, h: Header)
    requires |b| == HDR_LEN && b[..8] == Image(h)[..8]
    ensures Decode(b).seqno == h.seqno
  {
    ImageIffDecode(Image(h), h);
    hide Image;
    assert forall i | 4 <= i < 8 :: b[i] == b[..8][i] && Image(h)[i] == Image(h)[..8][i];
  }

  /** A header read whole behind the complete records, while the record there has its number but not all of its
      header: stale, and failing the magic test, or with that number, which is the newest. */
  lemma HeadStale(s: Sys)
    requires WriterInv(s) && StaleFails(s) && (s.w.PublishHead? || s.w.CopyHeader?)
    ensures Rejected(Window(s.mem, Behind(s), HDR_LEN), s.w.r.h.seqno)
  {
    var head := Window(s.mem, Behind(s), HDR_LEN);
    hide BytesInv, LogBytes, Window, Image, Decode, Wrap;
    if !Unwritten(s.w) {
      var k := s.w.done;
      PartWindow(s.mem, s.tail, s.log, InPlace(s.w), k);
      WindowFront(s.mem, Behind(s), k, HDR_LEN);
      assert head[..8] == head[..k][..8] && Image(s.w.r.h)[..8] == Image(s.w.r.h)[..k][..8];
      NumberOfPrefix(head, s.w.r.h);
    }
  }

  /** Past the complete records the newest number can only be that of the record in progress. */
  lemma NewestInProgress(s: Sys, newest: u32)
    requires 0 < |s.mem| && NewestAhead(s, newest, |s.log|)
    ensures SeqPublished(s.w) && s.w.r.h.seqno == newest && Offset(s, |s.log|) == Behind(s)
  {
    assert s.log[..|s.log|] == s.log;
    hide LogBytes, Wrap;
  }

  lemma LogGrows(s: Sys, t: Sys)
    requires 0 < |s.mem| && WriterStep(s, t) && !s.w.StoreTail?
    ensures t.tail == s.tail && |t.mem| == |s.mem| && t.p == s.p && s.written <= t.written
    ensures |s.log| <= |t.log| && forall k | 0 <= k < |s.log| :: t.log[k] == s.log[k]
    ensures SeqPublished(s.w) ==>
      (SeqPublished(t.w) && t.w.r == s.w.r) || (t.log == s.log + [s.w.r] && t.log[|s.log|] == s.w.r)
  {
    hide LogBytes, Wrap, Image, HeaderAt;
  }

  lemma ReaderKeepsInv(s: Sys, t: Sys)
    requires Inv(s) && ReaderStep(s, t) && Undisturbed(s, t)
    ensures Inv(t)
  {
    hide BytesInv, LogBytes, Image, HeaderAt, Wrap, Window, HeadInv, StaleFails;
    if s.p.HasValid? {
      EmptyLogBytes();
      assert s.log[..0] == [];
      OffsetOfTail(s);
      EmptyHead(s.mem, s.tail, s.newest);
    } else if s.p.Walking? {
      WalkKeepsInv(s, t);
    } else if s.p.Copying? {
      CopyKeepsPlace(s, t);
    }
  }

  lemma OffsetOfTail(s: Sys)
    requires BytesInv(s.mem, s.tail, s.log, InPlace(s.w))
    ensures 0 < |s.mem| && Wrap(s.tail + 0, |s.mem|) == s.tail
  {
    WrapBelowTwice(s.tail, |s.mem|);
  }

  lemma CopyKeepsPlace(s: Sys, t: Sys)
    requires Inv(s) && s.p.Copying? && ReaderStep(s, t)
    ensures Inv(t)
  {
    hide BytesInv, LogBytes, Image, HeaderAt, Wrap;
    var h, i, off, buf := s.p.h, s.p.index, s.p.off, s.p.buf;
    assert s.log[i] in s.log;
    BytesAt(s.mem, s.tail, s.log, InPlace(s.w), i);
    if |buf| < h.len {
      var w := Window(s.mem, Wrap(off + HDR_LEN, |s.mem|), h.len);
      WrapShift(off + HDR_LEN, |buf|, |s.mem|);
      assert w[|buf|] == s.mem[Wrap(off + HDR_LEN + |buf|, |s.mem|)];
      assert w == s.log[i].payload;
    } else {
      assert buf == s.log[i].payload;
    }
  }

  /** The walk never accepts a record that is not complete. */
  lemma WalkKeepsInv(s: Sys, t: Sys)
    requires Inv(s) && s.p.Walking? && ReaderStep(s, t) && Undisturbed(s, t)
    ensures Inv(t)
  {
    hide *;
    WalkingParts(s);
    if t.p == Finished(None) {
      GaveUp(s, t);
    } else if |s.p.head| < HDR_LEN {
      HeadGrows(s, t);
    } else {
      StaleOf(s, t);
      HeadAccepted(s, t);
      AcceptedStep(s, t);
    }
  }

  lemma StaleOf(s: Sys, t: Sys)
    requires 0 < |s.mem| && Undisturbed(s, t)
    ensures StaleFails(s)
  {
    hide StaleFails;
  }

  lemma GaveUp(s: Sys, t: Sys)
    requires Inv(s) && s.p.Walking? && ReaderStep(s, t) && t.p == Finished(None)
    ensures Inv(t)
  {
    hide BytesInv, LogBytes, Wrap, HeadInv, InPlace, MagicOk, Decode;
  }

  /** One byte more of a header. */
  lemma HeadGrows(s: Sys, t: Sys)
    requires Inv(s) && s.p.Walking? && ReaderStep(s, t) && t.p != Finished(None) && |s.p.head| < HDR_LEN
    ensures Inv(t)
  {
    WalkingParts(s);
    WindowMore(s.mem, s.p.off, |s.p.head|);
    hide WriterInv, LogBytes, Wrap, NewestAhead, Offset, Window;
    MoreRead(s, t);
    hide Wrap, ReaderStep;
    WalkingIs(s, t, s.p.index);
  }

  lemma MoreRead(s: Sys, t: Sys)
    requires 0 < |s.mem| && s.p.Walking? && ReaderStep(s, t) && t.p != Finished(None) && |s.p.head| < HDR_LEN
    ensures t == s.(p := s.p.(head := s.p.head + [s.mem[Wrap(s.p.off + |s.p.head|, |s.mem|)]]))
  {
    hide Wrap, Decode, MagicOk;
  }

  /** A header that passes the tests is that of a complete record. */
  lemma HeadAccepted(s: Sys, t: Sys)
    requires Inv(s) && s.p.Walking? && ReaderStep(s, t) && StaleFails(s) && HDR_LEN <= |s.p.head|
    requires t.p != Finished(None)
    ensures s.p.index < |s.log| && Decode(s.p.head) == s.log[s.p.index].h
  {
    var i, head, newest := s.p.index, s.p.head, s.p.newest;
    NotRejected(s, t);
    hide *;
    WalkingParts(s);
    HeadReal(s.mem, s.p.off, head, newest);
    if i == |s.log| {
      NewestInProgress(s, newest);
      if s.w.CopyPayload? {
        HeaderStands(s, i);
        ImageRejected(s.w.r.h);
      } else {
        SeqPublishedIs(s.w);
        HeadStale(s);
      }
    } else {
      HeaderStands(s, i);
      ImageIffDecode(head, s.log[i].h);
    }
  }

  lemma SeqPublishedIs(w: Writer)
    requires SeqPublished(w)
    ensures w.PublishHead? || w.CopyHeader? || w.CopyPayload?
  {
  }

  lemma NotRejected(s: Sys, t: Sys)
    requires 0 < |s.mem| && s.p.Walking? && ReaderStep(s, t) && |s.p.head| == HDR_LEN && t.p != Finished(None)
    ensures !Rejected(s.p.head, s.p.newest)
  {
    assert s.p.head[..HDR_LEN] == s.p.head;
    hide Decode, MagicOk;
  }

  lemma HeadReal(mem: seq<byte>, off: nat, head: seq<byte>, newest: u32)
    requires 0 < |mem| && HeadInv(mem, off, head, newest) && HDR_LEN <= |head| && !Rejected(head, newest)
    ensures |head| == HDR_LEN && head == Window(mem, off, HDR_LEN)
  {
    hide Window, Rejected;
  }

  lemma ImageRejected(h: Header)
    ensures Rejected(Image(h), h.seqno)
  {
    ImageIffDecode(Image(h), h);
    hide Image, Decode;
  }

  lemma AcceptedStep(s: Sys, t: Sys)
    requires Inv(s) && s.p.Walking? && ReaderStep(s, t) && s.p.index < |s.log| && |s.p.head| == HDR_LEN
    requires Decode(s.p.head) == s.log[s.p.index].h && t.p != Finished(None)
    ensures Inv(t)
  {
    var i, newest := s.p.index, s.p.newest;
    hide *;
    WalkingParts(s);
    AcceptedInto(s, t);
    NextOffset(s, i);
    if t.p.Walking? {
      StillAhead(s, newest, i);
      EmptyHead(t.mem, t.p.off, newest);
      WalkingIs(s, t, t.p.index);
    } else {
      CopyingIs(s, t, i);
    }
  }

  lemma AcceptedInto(s: Sys, t: Sys)
    requires 0 < |s.mem| && s.p.Walking? && ReaderStep(s, t) && s.p.index < |s.log| && |s.p.head| == HDR_LEN
    requires Decode(s.p.head) == s.log[s.p.index].h && t.p != Finished(None)
    ensures var h := s.log[s.p.index].h;
      && t == s.(p := t.p) && h.seqno != s.p.newest
      && (t.p == Copying(h, s.p.index, s.p.off, [])
          || t.p == Walking(s.p.newest, s.p.index, s.p.off, s.p.left, [])
          || (t.p.Walking? && t.p == Walking(s.p.newest, s.p.index + 1, Wrap(s.p.off + HDR_LEN + h.len, |s.mem|),
                                             t.p.left, [])))
  {
    assert s.p.head[..HDR_LEN] == s.p.head;
    hide Decode, MagicOk, Wrap;
  }

  lemma NextOffset(s: Sys, i: nat)
    requires WriterInv(s) && i < |s.log|
    ensures Offset(s, i + 1) == Wrap(Offset(s, i) + HDR_LEN + s.log[i].h.len, |s.mem|)
  {
    hide BytesInv, LogBytes, Window, HeaderAt, Wrap;
    BytesAt(s.mem, s.tail, s.log, InPlace(s.w), i);
  }

  lemma WalkingIs(s: Sys, t: Sys, i: nat)
    requires WriterInv(s) && t == s.(p := t.p) && t.p.Walking? && i == t.p.index <= |s.log| && t.p.off == Offset(s, i)
    requires NewestAhead(s, t.p.newest, i) && HeadInv(s.mem, t.p.off, t.p.head, t.p.newest)
    ensures Inv(t)
  {
    hide BytesInv, LogBytes, Wrap, HeadInv, InPlace;
  }

  lemma CopyingIs(s: Sys, t: Sys, i: nat)
    requires WriterInv(s) && i < |s.log| && t == s.(p := Copying(s.log[i].h, i, Offset(s, i), []))
    ensures Inv(t)
  {
    hide BytesInv, LogBytes, Wrap, HeadInv, InPlace;
  }

  lemma WindowMore(mem: seq<byte>, off: nat, n: nat)
    requires 0 < |mem|
    ensures Window(mem, off, n + 1) == Window(mem, off, n) + [mem[Wrap(off + n, |mem|)]]
  {
  }

  lemma StillAhead(s: Sys, newest: u32, i: nat)
    requires NewestAhead(s, newest, i) && i < |s.log| && s.log[i].h.seqno != newest
    ensures NewestAhead(s, newest, i + 1)
  {
  }

  lemma HeaderInPlace(s: Sys)
    requires WriterInv(s) && s.w.CopyPayload?
    ensures HeaderAt(s.mem, Behind(s)) == s.w.r.h
  {
    hide BytesInv, LogBytes, Window, Image, HeaderAt, Wrap;
    BytesHeader(s.mem, s.tail, s.log, s.w.r.h, s.w.r.payload[..s.w.done]);
  }

  // ---------- runs ----------

  ghost predicate Initial(s: Sys) {
    0 < |s.mem| && s.w == Idle && s.p == Asleep && s.valid == 0 && s.tail == 0 && s.head == 0
    && s.newest == 0 && s.log == [] && s.written == []
  }

  /** Steps that keep the chosen clauses of the hypothesis. */
  ghost predicate Path(run: seq<Sys>, c: Clauses): (r: bool)
    ensures r ==> run != [] && 0 < |run[0].mem|
  {
    && run != [] && 0 < |run[0].mem|
    && (forall k | 0 <= k < |run| :: |run[k].mem| == |run[0].mem|)
    && (forall k | 0 <= k < |run| - 1 :: Linked(run[k], run[k + 1], c))
  }

  ghost predicate Linked(s: Sys, t: Sys, c: Clauses) {
    && 0 < |s.mem| && Step(s, t)
    && (c.tail ==> TailStays(s, t)) && (c.stale ==> StaleFails(s)) && (c.newest ==> NewestKnown(s))
    && (c.header ==> HeaderStays(s, t))
  }

  ghost predicate Run(run: seq<Sys>) {
    Path(run, ALL) && Initial(run[0])
  }

  lemma StepKeepsInv(s: Sys, t: Sys)
    requires Inv(s) && Step(s, t) && Undisturbed(s, t)
    ensures Inv(t)
  {
    assert 0 < |s.mem|;
    hide WriterInv, ReaderInv, WriterStep, ReaderStep, Undisturbed;
    if WriterStep(s, t) {
      WriterKeepsWriterInv(s, t);
      WriterKeepsReaderInv(s, t);
    } else {
      ReaderKeepsInv(s, t);
    }
  }

  lemma {:induction false} RunKeepsInv(run: seq<Sys>, n: nat)
    requires Run(run) && n < |run|
    ensures Inv(run[n])
  {
    hide Inv, Step, TailStays, StaleFails, NewestKnown, HeaderStays, Initial;
    if n == 0 {
      InitialInv(run[0]);
    } else {
      RunKeepsInv(run, n - 1);
      assert Linked(run[n - 1], run[n - 1 + 1], ALL);
      StepKeepsInv(run[n - 1], run[n]);
    }
  }

  lemma InitialInv(s: Sys)
    requires Initial(s)
    ensures Inv(s)
  {
    EmptyLogBytes();
    WrapBelowTwice(0, |s.mem|);
    hide LogBytes, Image;
    assert Window(s.mem, 0, 0) == [];
  }

  /** Tear-freedom: over every interleaving that meets the hypothesis, whatever a poll delivers is,
      header and payload, a record the writer completed. */
  lemma NoTear(run: seq<Sys>, n: nat)
    requires Run(run) && n < |run| && run[n].p.Finished? && run[n].p.delivered.Some?
    ensures run[n].p.delivered.value in run[n].written
  {
    RunKeepsInv(run, n);
  }

  /** Records the reader accepts by size, in a ring that holds two of them. */
  ghost predicate Roomy(s: Sys) {
    && 2 * (HDR_LEN + MAXPAY) <= |s.mem|
    && (forall r | r in s.log :: |r.payload| <= MAXPAY)
    && (!s.w.Idle? ==> |s.w.r.payload| <= MAXPAY)
    && s.log != [] && (s.w.StoreTail? ==> 1 < |s.log|)
  }

  lemma ReaderOnly(s: Sys, t: Sys)
    requires 0 < |s.mem| && ReaderStep(s, t)
    ensures t == s.(p := t.p)
  {
    hide MagicOk, Decode, Wrap;
  }

  lemma RoomyPop(s: Sys, t: Sys)
    requires Inv(s) && WriterStep(s, t) && Roomy(s) && s.w.MakeRoom?
    ensures Roomy(t)
  {
    hide BytesInv, LogBytes, Window, Image, HeaderAt, Wrap, Stored, ReaderInv;
    EmptyLogBytes();
    BytesPop(s.mem, s.tail, s.log);
    assert s.log[0] in s.log;
    if |s.log| == 1 {
      assert s.log[1..] == [];
    }
  }

  /** With records of at most MAXPAY bytes, a ring that once held a record never empties, so the third
      clause of the hypothesis takes care of itself after the first write. */
  lemma NeverEmpties(s: Sys, t: Sys)
    requires Inv(s) && Step(s, t) && Roomy(s)
    requires t.w.MakeRoom? ==> |t.w.r.payload| <= MAXPAY
    ensures Roomy(t)
  {
    hide Inv, ReaderStep, LogBytes, Window, Image, HeaderAt, Wrap, Stored;
    if ReaderStep(s, t) {
      ReaderOnly(s, t);
    } else if s.w.MakeRoom? {
      RoomyPop(s, t);
    }
  }
}
