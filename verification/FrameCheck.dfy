/** The offline framing checker: it walks a snapshot from the tail for exactly the advertised bytes. */
module FrameCheck {
  import opened Words
  import opened Records
  import opened RingWriter

  const DATA_SIZE: nat := 0x1B4000
  const ENTRY_CAP: nat := 200000

  datatype Report = Report(entries: nat, remaining: int, seqOk: bool, tsOk: bool, first: Option<u32>, last: Option<u32>)

  /** The checker's verdict of a complete framing proof. */
  predicate Clean(r: Report, newest: u32) {
    r.remaining == 0 && r.seqOk && r.last == Some(newest)
  }

  /** log is a reading of the valid bytes as consecutive records that end at the published newest. */
  ghost predicate Framing(mem: seq<byte>, off: nat, budget: nat, newest: u32, log: seq<Record>) {
    Tiled(mem, off, budget, log) && Counting(log) && log != [] && log[|log| - 1].h.seqno == newest
  }

  ghost predicate TimesNeverDrop(log: seq<Record>) {
    forall i | 0 < i < |log| :: log[i - 1].h.ts <= log[i].h.ts
  }

  lemma SameFirst(a: seq<Record>, b: seq<Record>)
    requires a != [] && a[0].Ok() && (b != [] ==> b[0].Ok()) && LogBytes(a) <= LogBytes(b)
    ensures b != [] && a[0] == b[0] && LogBytes(a[1..]) <= LogBytes(b[1..])
  {
    hide Image, Decode, LogBytes;
    LogBytesParts(a);
    var s, t := LogBytes(a), LogBytes(b);
    if b == [] {
      EmptyLogBytes();
    } else {
      LogBytesParts(b);
      assert s[0..HDR_LEN] == t[0..HDR_LEN];
      ImageIffDecode(Image(a[0].h), a[0].h);
      ImageIffDecode(Image(b[0].h), b[0].h);
      var stride := HDR_LEN + |a[0].payload|;
      assert s[HDR_LEN..stride] == t[HDR_LEN..stride];
      assert s[stride..|s|] <= t[stride..|t|];
    }
  }

  /** A byte prefix of a log that is itself a log is a prefix of records. */
  lemma {:induction false} LogPrefix(a: seq<Record>, b: seq<Record>)
    requires forall r | r in a :: r.Ok()
    requires forall r | r in b :: r.Ok()
    requires LogBytes(a) <= LogBytes(b)
    ensures a <= b
  {
    hide LogBytes;
    if a != [] {
      assert a[0] in a;
      if b != [] {
        assert b[0] in b;
      }
      SameFirst(a, b);
      LogPrefix(a[1..], b[1..]);
      assert a == [a[0]] + a[1..] && b == [b[0]] + b[1..];
    }
  }

  /** What the walk has read so far: records back to back, each begun inside the budget. */
  ghost predicate ReadSoFar(mem: seq<byte>, off: nat, budget: nat, consumed: nat, parsed: seq<Record>) {
    && 0 < |mem|
    && (forall r | r in parsed :: r.Ok())
    && consumed == |LogBytes(parsed)|
    && Window(mem, off, consumed) == LogBytes(parsed)
    && (forall j | 0 <= j < |parsed| :: |LogBytes(parsed[..j])| < budget)
  }

  lemma ReadOneMore(mem: seq<byte>, off: nat, budget: nat, consumed: nat, parsed: seq<Record>, h: Header)
    returns (r: Record)
    requires ReadSoFar(mem, off, budget, consumed, parsed) && consumed < budget
    requires h == HeaderAt(mem, Wrap(off + consumed, |mem|))
    ensures r.h == h && ReadSoFar(mem, off, budget, consumed + HDR_LEN + h.len, parsed + [r])
  {
    hide Image, Decode;
    var at := Wrap(off + consumed, |mem|);
    r := Record(h, Window(mem, Wrap(at + HDR_LEN, |mem|), h.len));
    HeaderWindow(mem, at);
    WindowSplit(mem, at, HDR_LEN, h.len);
    WindowSplit(mem, off, consumed, HDR_LEN + h.len);
    LogBytesAppend(parsed, r);
    var x, y, z := LogBytes(parsed), Image(h), r.payload;
    assert x + (y + z) == x + y + z;
    forall j | 0 <= j < |parsed + [r]| ensures |LogBytes((parsed + [r])[..j])| < budget {
      if j < |parsed| {
        assert (parsed + [r])[..j] == parsed[..j];
      } else {
        assert (parsed + [r])[..j] == parsed;
      }
    }
  }

  lemma HeaderWindow(mem: seq<byte>, at: nat)
    requires 0 < |mem|
    ensures Window(mem, at, HDR_LEN) == Image(HeaderAt(mem, at))
  {
    hide Image;
    ImageIffDecode(Window(mem, at, HDR_LEN), HeaderAt(mem, at));
  }

  /** If the budget can be read as a log at all, the walk cannot run past it. */
  lemma NeverOverruns(mem: seq<byte>, off: nat, budget: nat, consumed: nat, parsed: seq<Record>, log: seq<Record>)
    requires ReadSoFar(mem, off, budget, consumed, parsed) && Tiled(mem, off, budget, log)
    ensures consumed <= budget && parsed <= log
    ensures consumed < budget ==> |parsed| < |log| && HeaderAt(mem, Wrap(off + consumed, |mem|)).len <= budget
    ensures consumed == budget ==> parsed == log
  {
    if budget < consumed {
      WindowSplit(mem, off, budget, consumed - budget);
      LogPrefix(log, parsed);
      BegunInside(log, parsed, budget);
    } else {
      WindowSplit(mem, off, consumed, budget - consumed);
      LogPrefix(parsed, log);
      RestOfLog(mem, off, consumed, budget, parsed, log);
    }
  }

  lemma BegunInside(log: seq<Record>, parsed: seq<Record>, budget: nat)
    requires log <= parsed && forall j | 0 <= j < |parsed| :: |LogBytes(parsed[..j])| < budget
    ensures log == parsed || |LogBytes(log)| < budget
  {
    assert log == parsed[..|log|];
  }

  lemma RestOfLog(mem: seq<byte>, off: nat, consumed: nat, budget: nat, parsed: seq<Record>, log: seq<Record>)
    requires Tiled(mem, off, budget, log) && parsed <= log && consumed == |LogBytes(parsed)| <= budget
    ensures consumed == budget ==> parsed == log
    ensures consumed < budget ==> |parsed| < |log| && HeaderAt(mem, Wrap(off + consumed, |mem|)).len <= budget
  {
    var rest := log[|parsed|..];
    assert log == parsed + rest;
    LogBytesConcat(parsed, rest);
    WindowPart(mem, off, budget, consumed, budget);
    assert LogBytes(log)[consumed..budget] == LogBytes(rest);
    if rest == [] {
      assert parsed == log;
    } else {
      LogBytesParts(rest);
      assert rest[0] in log;
      LogFirst(mem, Wrap(off + consumed, |mem|), rest);
    }
  }

  /** Reading n bytes at ring offset o of a snapshot, in at most two slices. */
  function Rd(mem: seq<byte>, o: nat, n: nat): (b: seq<byte>)
    requires |mem| == DATA_SIZE && n <= DATA_SIZE
    ensures b == Window(mem, o, n)
  {
    var at := o % DATA_SIZE;
    WindowNormal(mem, o, n);
    RdIsWindow(mem, at, n);
    if at + n <= DATA_SIZE then mem[at..at + n]
    else mem[at..] + mem[..n - (DATA_SIZE - at)]
  }

  lemma RdIsWindow(mem: seq<byte>, at: nat, n: nat)
    requires |mem| == DATA_SIZE && n <= DATA_SIZE && at < DATA_SIZE
    ensures Window(mem, at, n)
      == if at + n <= DATA_SIZE then mem[at..at + n] else mem[at..] + mem[..n - (DATA_SIZE - at)]
  {
    var w := Window(mem, at, n);
    forall i | 0 <= i < n ensures w[i] == if at + i < DATA_SIZE then mem[at + i] else mem[at + i - DATA_SIZE] {
      WrapBelowTwice(at + i, DATA_SIZE);
    }
  }

  /** The checker. It skips a snapshot whose tail or valid count is out of range; otherwise its clean
      verdict is sound and complete, the reading it certifies is unique, and the entry cap never bites. */
  method Check(mem: seq<byte>, tail: u32, valid: u32, newest: u32) returns (r: Option<Report>)
    requires |mem| == DATA_SIZE
    ensures r.None? <==> 0x1B4000 <= tail || valid == 0 || 0x1B4000 < valid
    ensures r.Some? ==> (Clean(r.value, newest) <==> exists log :: Framing(mem, tail, valid, newest, log))
    ensures r.Some? ==> forall log: seq<Record> | Framing(mem, tail, valid, newest, log) ::
      && r.value.entries == |log|
      && (r.value.tsOk <==> forall i | 0 < i < |log| :: log[i - 1].h.ts <= log[i].h.ts)
      && r.value.first == Some(log[0].h.seqno)
    ensures r.Some? ==> r.value.entries < 200000
  {
    if DATA_SIZE <= tail || valid == 0 || DATA_SIZE < valid {
      return None;
    }
    hide ReadSoFar, TimesNeverDrop, Counting, Tiled;
    ghost var parsed;
    var report;
    report, parsed := ReadEntries(mem, tail, valid);
    CapNeverBites(mem, tail, valid, valid - report.remaining, parsed);
    if 0 < report.remaining {
      AbsurdLength(mem, tail, valid, valid - report.remaining, parsed, newest);
    }
    Verdict(mem, tail, valid, newest, valid - report.remaining, parsed, report);
    r := Some(report);
  }

  /** The checker's loop over the entries. */
  method ReadEntries(mem: seq<byte>, tail: nat, valid: nat) returns (r: Report, ghost parsed: seq<Record>)
    requires |mem| == DATA_SIZE && tail < DATA_SIZE && 0 < valid <= DATA_SIZE
    ensures r.entries == |parsed| && r.remaining <= valid
    ensures ReadSoFar(mem, tail, valid, valid - r.remaining, parsed)
    ensures (r.seqOk <==> Counting(parsed)) && (r.tsOk <==> TimesNeverDrop(parsed))
    ensures r.last == if parsed == [] then None else Some(parsed[|parsed| - 1].h.seqno)
    ensures r.first == if parsed == [] then None else Some(parsed[0].h.seqno)
    ensures 0 < r.remaining ==> DATA_SIZE < HeaderAt(mem, Wrap(tail + (valid - r.remaining), |mem|)).len
  {
    hide LogBytes, Window, HeaderAt, ReadSoFar, TimesNeverDrop, Counting, Wrap, Rd, Decode;
    var off: nat, remaining: int, n: nat := tail, valid, 0;
    var seqOk, tsOk, prev, first := true, true, None, None;
    parsed := [];
    StartReading(mem, tail, valid);
    while 0 < remaining && n < ENTRY_CAP
      invariant n == |parsed| && remaining <= valid
      invariant ReadSoFar(mem, tail, valid, valid - remaining, parsed)
      invariant off == Wrap(tail + (valid - remaining), |mem|)
      invariant seqOk <==> Counting(parsed)
      invariant tsOk <==> TimesNeverDrop(parsed)
      invariant prev == if parsed == [] then None else Some(parsed[n - 1].h)
      invariant first == if parsed == [] then None else Some(parsed[0].h.seqno)
      decreases remaining
    {
      var raw := Rd(mem, off, HDR_LEN);
      var h := Decode(raw);
      HeaderAtIs(mem, off, raw);
      if DATA_SIZE < h.len {
        break;
      }
      if first == None {
        first := Some(h.seqno);
      }
      if prev.Some? && h.seqno != prev.value.seqno + 1 {
        seqOk := false;
      }
      if prev.Some? && h.ts < prev.value.ts {
        tsOk := false;
      }
      ghost var rec := ReadOneMore(mem, tail, valid, valid - remaining, parsed, h);
      WrapShift(tail + (valid - remaining), HDR_LEN + h.len, |mem|);
      assert tail + (valid - remaining) + (HDR_LEN + h.len) == tail + (valid - (remaining - (HDR_LEN + h.len)));
      off := Wrap(off + (HDR_LEN + h.len), |mem|);
      remaining := remaining - (HDR_LEN + h.len);
      n := n + 1;
      prev := Some(h);
      ExtendRuns(parsed, rec);
      parsed := parsed + [rec];
    }
    CapNeverBites(mem, tail, valid, valid - remaining, parsed);
    var last := if prev.Some? then Some(prev.value.seqno) else None;
    r := Report(n, remaining, seqOk, tsOk, first, last);
  }

  lemma HeaderAtIs(mem: seq<byte>, off: nat, raw: seq<byte>)
    requires 0 < |mem| && raw == Window(mem, off, HDR_LEN)
    ensures HeaderAt(mem, off) == Decode(raw)
  {
  }

  lemma StartReading(mem: seq<byte>, off: nat, budget: nat)
    requires off < |mem|
    ensures ReadSoFar(mem, off, budget, 0, []) && off == Wrap(off + 0, |mem|)
    ensures Counting([]) && TimesNeverDrop([])
  {
    WrapBelowTwice(off, |mem|);
  }

  lemma ExtendRuns(parsed: seq<Record>, r: Record)
    ensures Counting(parsed + [r])
      <==> Counting(parsed) && (parsed != [] ==> r.h.seqno == parsed[|parsed| - 1].h.seqno + 1)
    ensures TimesNeverDrop(parsed + [r])
      <==> TimesNeverDrop(parsed) && (parsed != [] ==> parsed[|parsed| - 1].h.ts <= r.h.ts)
  {
    var all := parsed + [r];
    if Counting(all) {
      forall i | 0 < i < |parsed| ensures parsed[i].h.seqno == parsed[i - 1].h.seqno + 1 {
        assert all[i] == parsed[i] && all[i - 1] == parsed[i - 1];
      }
      if parsed != [] {
        assert all[|parsed|] == r && all[|parsed| - 1] == parsed[|parsed| - 1];
      }
    }
    if TimesNeverDrop(all) {
      forall i | 0 < i < |parsed| ensures parsed[i - 1].h.ts <= parsed[i].h.ts {
        assert all[i] == parsed[i] && all[i - 1] == parsed[i - 1];
      }
      if parsed != [] {
        assert all[|parsed| - 1].h.ts <= all[|parsed|].h.ts;
      }
    }
  }

  lemma AbsurdLength(mem: seq<byte>, tail: nat, valid: nat, consumed: nat, parsed: seq<Record>, newest: u32)
    requires |mem| == DATA_SIZE && valid <= DATA_SIZE && consumed < valid
    requires ReadSoFar(mem, tail, valid, consumed, parsed)
    requires DATA_SIZE < HeaderAt(mem, Wrap(tail + consumed, |mem|)).len
    ensures !exists log :: Framing(mem, tail, valid, newest, log)
  {
    hide HeaderAt, ReadSoFar;
    forall log | Framing(mem, tail, valid, newest, log) ensures false {
      NeverOverruns(mem, tail, valid, consumed, parsed, log);
    }
  }

  lemma CapNeverBites(mem: seq<byte>, tail: nat, valid: nat, consumed: nat, parsed: seq<Record>)
    requires ReadSoFar(mem, tail, valid, consumed, parsed) && valid <= DATA_SIZE
    ensures |parsed| < ENTRY_CAP
  {
    if parsed != [] {
      LogLength(parsed[..|parsed| - 1]);
    }
  }

  lemma Verdict(mem: seq<byte>, tail: nat, valid: nat, newest: u32, consumed: nat, parsed: seq<Record>, r: Report)
    requires |mem| == DATA_SIZE && tail < DATA_SIZE && 0 < valid <= DATA_SIZE
    requires ReadSoFar(mem, tail, valid, consumed, parsed)
    requires r.remaining == valid - consumed && (r.seqOk <==> Counting(parsed))
    requires r.last == if parsed == [] then None else Some(parsed[|parsed| - 1].h.seqno)
    requires consumed < valid ==> !exists log :: Framing(mem, tail, valid, newest, log)
    ensures Clean(r, newest) <==> exists log :: Framing(mem, tail, valid, newest, log)
    ensures forall log | Framing(mem, tail, valid, newest, log) :: log == parsed
  {
    forall log | Framing(mem, tail, valid, newest, log) ensures log == parsed && Clean(r, newest) {
      hide ReadSoFar, Tiled;
      NeverOverruns(mem, tail, valid, consumed, parsed, log);
    }
    if Clean(r, newest) {
      assert Framing(mem, tail, valid, newest, parsed);
    }
  }
}
