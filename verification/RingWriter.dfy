/** The shared mapping and its one writer: pop from the tail until the new record fits,
    publish the header fields, copy the bytes, then flag the matching reader slots. */
module RingWriter {
  import opened Words
  import opened Records

  datatype Slot = Slot(pending: u32, waiting: u32, cursor: u32, filter: u16)

  /** The valid bytes behind tail are exactly the records of log, back to back. */
  ghost predicate Tiled(mem: seq<byte>, tail: nat, valid: nat, log: seq<Record>) {
    tail < |mem| && valid <= |mem|
    && (forall r | r in log :: r.Ok())
    && valid == |LogBytes(log)|
    && Window(mem, tail, valid) == LogBytes(log)
  }

  /** Sequence numbers follow the writer's counter, and 0 is never used. */
  ghost predicate Chained(log: seq<Record>, newest: u32) {
    (forall r | r in log :: r.h.seqno != 0)
    && (forall i | 0 < i < |log| :: log[i].h.seqno == NextSeq(log[i - 1].h.seqno))
    && (log != [] ==> log[|log| - 1].h.seqno == newest)
  }

  /** Numbers that grow by one per record, without a wrap. */
  ghost predicate Counting(log: seq<Record>) {
    forall i | 0 < i < |log| :: log[i].h.seqno == log[i - 1].h.seqno + 1
  }

  lemma {:induction false} CountingFrom(log: seq<Record>, i: nat)
    requires Counting(log) && i < |log|
    ensures log[i].h.seqno == log[0].h.seqno + i
  {
    if i != 0 {
      CountingFrom(log, i - 1);
    }
  }

  /** How many of the oldest records must go before at most room bytes are left. */
  ghost function FewestDrop(log: seq<Record>, room: nat): (k: nat)
    ensures k <= |log|
  {
    if |LogBytes(log)| <= room then 0 else 1 + FewestDrop(log[1..], room)
  }

  lemma {:induction false} FewestDropIsLeast(log: seq<Record>, room: nat)
    ensures |LogBytes(log[FewestDrop(log, room)..])| <= room
    ensures forall j | 0 <= j < FewestDrop(log, room) :: room < |LogBytes(log[j..])|
  {
    var k := FewestDrop(log, room);
    if room < |LogBytes(log)| {
      FewestDropIsLeast(log[1..], room);
      assert log[k..] == log[1..][k - 1..];
      forall j | 0 <= j < k ensures room < |LogBytes(log[j..])| {
        if j == 0 {
          assert log[0..] == log;
        } else {
          assert log[j..] == log[1..][j - 1..];
        }
      }
    } else {
      assert log[0..] == log;
    }
  }

  function Signalled(slots: seq<Slot>, kind: u16): seq<Slot> {
    seq(|slots|, i requires 0 <= i < |slots| =>
      if ClassMatch(kind, slots[i].filter) then slots[i].(pending := 1) else slots[i])
  }

  function Posted(notify: seq<nat>, slots: seq<Slot>, kind: u16): seq<nat>
    requires |notify| == |slots|
  {
    seq(|slots|, i requires 0 <= i < |slots| =>
      if ClassMatch(kind, slots[i].filter) && slots[i].waiting != 0 then notify[i] + 1 else notify[i])
  }

  predicate IsBlob(kind: u16) {
    Bit(kind, 9)
  }

  lemma IsBlobIff(kind: u16)
    ensures IsBlob(kind) <==> And(kind, 0x200) != 0
  {
    Blocks();
    hide And, Bit, Block;
    var z := And(kind, 0x200);
    if z != 0 {
      var j := SomeBit(z);
      AndBit(kind, 0x200, j);
      BlockBit(9, 10, j);
    }
    AndBit(kind, 0x200, 9);
    BlockBit(9, 10, 9);
    ZeroBit(9);
  }

  /** log is the young end of everything written, now and maxBlob are the largest time and payload in it. */
  ghost predicate Recalls(all: seq<Record>, log: seq<Record>, now: u32, maxBlob: u32) {
    && |log| <= |all| && log == all[|all| - |log|..]
    && (forall r | r in all && And(r.h.kind, 0x200) == 0 :: r.h.ts <= now)
    && (now != 0 ==> exists r :: r in all && And(r.h.kind, 0x200) == 0 && r.h.ts == now)
    && (forall r | r in all && And(r.h.kind, 0x200) != 0 :: r.h.len <= maxBlob)
    && (maxBlob != 0 ==> exists r :: r in all && And(r.h.kind, 0x200) != 0 && r.h.len == maxBlob)
  }

  lemma RecallsOneMore(all: seq<Record>, log: seq<Record>, now: u32, maxBlob: u32, k: nat, r: Record)
    requires Recalls(all, log, now, maxBlob) && k <= |log|
    ensures var blob := And(r.h.kind, 0x200) != 0;
      Recalls(all + [r], log[k..] + [r], if blob || r.h.ts <= now then now else r.h.ts,
              if blob && maxBlob < r.h.len then r.h.len else maxBlob)
  {
    hide And;
    var more, blob := all + [r], And(r.h.kind, 0x200) != 0;
    assert r in more && forall x | x in all :: x in more;
    assert all[|all| - |log|..][k..] + [r] == more[|all| - |log| + k..];
    var now' := if blob || r.h.ts <= now then now else r.h.ts;
    var max' := if blob && maxBlob < r.h.len then r.h.len else maxBlob;
    if now' == now && now != 0 {
      var x :| x in all && And(x.h.kind, 0x200) == 0 && x.h.ts == now;
      assert x in more;
    }
    if max' == maxBlob && maxBlob != 0 {
      var x :| x in all && And(x.h.kind, 0x200) != 0 && x.h.len == maxBlob;
      assert x in more;
    }
  }

  /** The ring after a header and a payload are copied in behind v live bytes. */
  function TwoStores(mem: seq<byte>, tail: nat, v: nat, a: seq<byte>, b: seq<byte>): (r: seq<byte>)
    requires 0 < |mem|
    ensures |r| == |mem|
  {
    Stored(Stored(mem, Wrap(tail + v, |mem|), a), Wrap(tail + v + |a|, |mem|), b)
  }

  lemma TwoStoresWindow(mem: seq<byte>, tail: nat, v: nat, a: seq<byte>, b: seq<byte>)
    requires tail < |mem| && v + |a| + |b| <= |mem|
    ensures var end := TwoStores(mem, tail, v, a, b);
      Window(end, tail, v + |a| + |b|) == Window(mem, tail, v) + a + b
      && Window(end, tail, v) == Window(mem, tail, v)
  {
    var mid := Stored(mem, Wrap(tail + v, |mem|), a);
    StoredAppend(mem, tail, v, a);
    StoredAppend(mid, tail, v + |a|, b);
    var end := TwoStores(mem, tail, v, a, b);
    WindowPart(end, tail, v + |a| + |b|, 0, v);
    WindowNormal(end, tail, v);
  }

  lemma TiledAppend(mem: seq<byte>, tail: nat, log: seq<Record>, r: Record)
    requires Tiled(mem, tail, |LogBytes(log)|, log) && r.Ok()
    requires |LogBytes(log)| + |Bytes(r)| <= |mem|
    ensures var v := |LogBytes(log)|; var end := TwoStores(mem, tail, v, Image(r.h), r.payload);
      Tiled(end, tail, v + |Bytes(r)|, log + [r]) && Window(end, tail, v) == Window(mem, tail, v)
  {
    var v := |LogBytes(log)|;
    TwoStoresWindow(mem, tail, v, Image(r.h), r.payload);
    LogBytesAppend(log, r);
  }

  lemma LogBytesAppend(log: seq<Record>, r: Record)
    ensures LogBytes(log + [r]) == LogBytes(log) + Image(r.h) + r.payload
  {
    LogBytesConcat(log, [r]);
    assert LogBytes([r]) == Bytes(r) + [];
    var x, y, z := LogBytes(log), Image(r.h), r.payload;
    assert Bytes(r) == y + z;
    assert x + (y + z) == x + y + z;
  }

  lemma StoredAppend(mem: seq<byte>, t: nat, v: nat, b: seq<byte>)
    requires t < |mem| && v + |b| <= |mem|
    ensures Window(Stored(mem, Wrap(t + v, |mem|), b), t, v + |b|) == Window(mem, t, v) + b
  {
    var off := Wrap(t + v, |mem|);
    StoredFrame(mem, t, v, b);
    StoredWindow(mem, off, b);
    WindowSplit(Stored(mem, off, b), t, v, |b|);
  }

  lemma TiledBytes(mem: seq<byte>, tail: nat, valid: nat, log: seq<Record>)
    requires Tiled(mem, tail, valid, log)
    ensures 0 < |mem| && valid == |LogBytes(log)| && (valid == 0 <==> log == [])
  {
  }

  lemma TiledPop(mem: seq<byte>, tail: nat, log: seq<Record>)
    requires Tiled(mem, tail, |LogBytes(log)|, log) && log != []
    ensures HeaderAt(mem, tail) == log[0].h
    ensures |LogBytes(log)| == HDR_LEN + log[0].h.len + |LogBytes(log[1..])|
    ensures Tiled(mem, Wrap(tail + HDR_LEN + log[0].h.len, |mem|), |LogBytes(log[1..])|, log[1..])
  {
    hide HeaderAt, Window, LogBytes, Image, Wrap;
    assert log[0] in log;
    LogFirst(mem, tail, log);
  }

  lemma HeadMoves(tail: nat, valid: nat, n: nat, size: nat)
    requires 0 < size
    ensures Wrap(tail + valid, size) < size
    ensures Wrap(Wrap(tail + valid, size) + n, size) == Wrap(tail + (valid + n), size)
  {
    hide *;
    WrapShift(tail + valid, n, size);
    assert tail + valid + n == tail + (valid + n);
  }

  lemma ChainedPop(log: seq<Record>, newest: u32)
    requires Chained(log, newest) && log != []
    ensures Chained(log[1..], newest)
  {
    var rest := log[1..];
    forall i | 0 < i < |rest| ensures rest[i].h.seqno == NextSeq(rest[i - 1].h.seqno) {
      assert rest[i] == log[i + 1] && rest[i - 1] == log[i];
    }
  }

  lemma ChainedAppend(log: seq<Record>, newest: u32, r: Record)
    requires Chained(log, newest) && r.h.seqno == NextSeq(newest)
    ensures Chained(log + [r], r.h.seqno)
  {
  }

  /** What dropping the oldest record does to the tiling, the head and the numbering. */
  lemma PopFacts(mem: seq<byte>, tail: nat, valid: nat, log: seq<Record>, newest: u32)
    requires Tiled(mem, tail, valid, log) && valid != 0 && Chained(log, newest)
    ensures var stride := HDR_LEN + HeaderAt(mem, tail).len;
      && log != [] && stride <= valid && Wrap(tail + stride, |mem|) < |mem|
      && Tiled(mem, Wrap(tail + stride, |mem|), valid - stride, log[1..])
      && Wrap(tail + valid, |mem|) == Wrap(Wrap(tail + stride, |mem|) + (valid - stride), |mem|)
      && Chained(log[1..], newest)
  {
    TiledBytes(mem, tail, valid, log);
    hide *;
    TiledPop(mem, tail, log);
    ChainedPop(log, newest);
    var stride := HDR_LEN + HeaderAt(mem, tail).len;
    HeadMoves(tail, stride, valid - stride, |mem|);
    assert tail + HDR_LEN + log[0].h.len == tail + stride && stride + (valid - stride) == valid;
  }

  class Ring {
    const size: nat
    const data: array<byte>
    var valid: u32
    var maxBlob: u32
    var head: u32
    var tail: u32
    var now: u32
    var newest: u32
    var slots: seq<Slot>
    var notify: seq<nat>
    ghost var log: seq<Record>
    ghost var all: seq<Record>

    ghost predicate Valid()
      reads this, data
    {
      0 < size < 0x8000_0000 && data.Length == size
      && |notify| == |slots|
      && Tiled(data[..], tail, valid, log)
      && head == Wrap(tail + valid, size)
      && Chained(log, newest)
    }

    ghost predicate History()
      reads this`all, this`log, this`now, this`maxBlob
    {
      Recalls(all, log, now, maxBlob)
    }

    constructor (size: nat, nslots: nat)
      requires 0 < size < 0x8000_0000
      ensures Valid() && History() && fresh(data)
      ensures this.size == size && |slots| == nslots && log == [] && newest == 0
    {
      this.size := size;
      data := new byte[size](_ => 0);
      valid, maxBlob, head, tail, now, newest := 0, 0, 0, 0, 0, 0;
      slots := seq(nslots, _ => Slot(0, 0, 0, 0));
      notify := seq(nslots, _ => 0);
      log, all := [], [];
      new;
      WrapBelowTwice(0, size);
    }

    /** The wrapping copy into the ring: up to its end, then on from its start. */
    method Store(off: nat, b: seq<byte>)
      requires off < data.Length && |b| <= data.Length
      modifies data
      ensures data[..] == Stored(old(data[..]), off, b)
    {
      var first := if |b| <= data.Length - off then |b| else data.Length - off;
      forall i | 0 <= i < first {
        data[off + i] := b[i];
      }
      forall i | first <= i < |b| {
        data[i - first] := b[i];
      }
    }

    /** Drop the oldest record: only valid and tail move. */
    method Pop()
      requires Valid() && valid != 0
      modifies this`valid, this`tail, this`log
      ensures Valid() && old(log) != [] && log == old(log)[1..]
    {
      hide Window, LogBytes, HeaderAt, Chained, Tiled;
      PopFacts(data[..], tail, valid, log, newest);
      var stride := HDR_LEN + HeaderAt(data[..], tail).len;
      valid := valid - stride;
      tail := Wrap(tail + stride, size);
      log := log[1..];
    }

    method Signal(kind: u16)
      requires |notify| == |slots|
      modifies this`slots, this`notify
      ensures slots == Signalled(old(slots), kind)
      ensures notify == Posted(old(notify), old(slots), kind)
      ensures |slots| == |old(slots)| == |notify|
      ensures forall i | 0 <= i < |slots| ::
                var s, hit := old(slots[i]), And(kind, And(old(slots[i].filter), 0xFF00)) != 0;
                && slots[i] == Slot(if hit then 1 else s.pending, s.waiting, s.cursor, s.filter)
                && notify[i] == old(notify[i]) + if hit && s.waiting != 0 then 1 else 0
    {
      hide ClassMatch, And;
      var i := 0;
      while i < |slots|
        invariant i <= |slots| == |old(slots)| == |notify|
        invariant forall j | 0 <= j < |slots| ::
                    slots[j] == if j < i then Signalled(old(slots), kind)[j] else old(slots)[j]
        invariant forall j | 0 <= j < |slots| ::
                    notify[j] == if j < i then Posted(old(notify), old(slots), kind)[j] else old(notify)[j]
      {
        if ClassMatch(kind, slots[i].filter) {
          slots := slots[i := slots[i].(pending := 1)];
          if slots[i].waiting != 0 {
            notify := notify[i := notify[i] + 1];
          }
        }
        i := i + 1;
      }
      forall j | 0 <= j < |slots|
        ensures ClassMatch(kind, old(slots[j].filter)) <==> And(kind, And(old(slots[j].filter), 0xFF00)) != 0
      {
        ClassMatchIff(kind, old(slots[j].filter));
      }
    }

    method MakeRoom(entry: nat)
      requires Valid() && entry <= size
      modifies this`valid, this`tail, this`log
      ensures Valid() && valid + entry <= size
      ensures log == old(log)[FewestDrop(old(log), size - entry)..]
    {
      ghost var k := 0;
      assert log[0..] == log;
      while size < valid + entry
        invariant Valid()
        invariant k <= |old(log)| && log == old(log)[k..]
        invariant FewestDrop(old(log), size - entry) == k + FewestDrop(log, size - entry)
        decreases valid
      {
        Pop();
        k := k + 1;
      }
    }

    /** Publish the header fields first, then copy the record's bytes. */
    method Append(h: Header, payload: seq<byte>)
      requires Valid() && h.len == |payload| && h.seqno == NextSeq(newest)
      requires valid + HDR_LEN + |payload| <= size
      modifies this`valid, this`newest, this`head, this`log, data
      ensures Valid() && log == old(log) + [Record(h, payload)] && newest == h.seqno
      ensures valid == old(valid) + HDR_LEN + |payload|
      ensures head == Wrap(old(head) + HDR_LEN + |payload|, size)
      ensures Window(data[..], tail, old(valid)) == Window(old(data[..]), tail, old(valid))
    {
      hide Window, LogBytes, Stored, Image, Chained;
      ghost var end := TwoStores(data[..], tail, valid, Image(h), payload);
      TiledAppend(data[..], tail, log, Record(h, payload));
      ChainedAppend(log, newest, Record(h, payload));
      HeadMoves(tail, valid, HDR_LEN, size);
      HeadMoves(tail, valid, HDR_LEN + |payload|, size);
      var at := head;
      valid := valid + (HDR_LEN + |payload|);
      newest := h.seqno;
      head := Wrap(head + HDR_LEN + |payload|, size);
      CopyIn(at, h, payload);
      assert data[..] == end;
      log := log + [Record(h, payload)];
    }

    method CopyIn(at: nat, h: Header, payload: seq<byte>)
      requires at < data.Length == size && HDR_LEN + |payload| <= size
      modifies data
      ensures data[..] == Stored(Stored(old(data[..]), at, Image(h)), Wrap(at + HDR_LEN, size), payload)
    {
      Store(at, Image(h));
      Store(Wrap(at + HDR_LEN, size), payload);
    }

    /** A write up to the slots: room, the record, and the largest values seen. */
    method Enter(h: Header, payload: seq<byte>)
      requires Valid() && HDR_LEN + |payload| <= size && h.len == |payload| && h.seqno == NextSeq(newest)
      modifies this`valid, this`tail, this`newest, this`head, this`log, this`all, this`now, this`maxBlob, data
      ensures Valid() && newest == h.seqno
      ensures log == old(log)[FewestDrop(old(log), size - (HDR_LEN + |payload|))..] + [Record(h, payload)]
      ensures all == old(all) + [Record(h, payload)] && (old(History()) ==> History())
      ensures HDR_LEN + |payload| <= valid
      ensures Window(data[..], tail, valid - HDR_LEN - |payload|)
           == Window(old(data[..]), tail, valid - HDR_LEN - |payload|)
      ensures head == Wrap(old(head) + HDR_LEN + |payload|, size)
      ensures now == if And(h.kind, 0x200) != 0 || h.ts <= old(now) then old(now) else h.ts
      ensures maxBlob == if And(h.kind, 0x200) != 0 && old(maxBlob) < h.len then h.len else old(maxBlob)
    {
      hide FewestDrop, Tiled, Chained, Window, Record.Ok, And, Recalls, IsBlob;
      ghost var k := FewestDrop(log, size - (HDR_LEN + |payload|));
      IsBlobIff(h.kind);
      MakeRoom(HDR_LEN + |payload|);
      Append(h, payload);
      if IsBlob(h.kind) {
        maxBlob := if maxBlob < h.len then h.len else maxBlob;
      } else {
        now := if now < h.ts then h.ts else now;
      }
      all := all + [Record(h, payload)];
      if old(History()) {
        RecallsOneMore(old(all), old(log), old(now), old(maxBlob), k, Record(h, payload));
      }
    }

    /** One write: the log loses the fewest oldest records that make room and gains the new one. */
    method Write(magic: u32, cookie: u32, ts: u32, kind: u16, chain: u16, extra: u16, payload: seq<byte>)
      returns (ok: bool)
      requires Valid()
      modifies this, data
      ensures Valid()
      ensures ok <==> HDR_LEN + |payload| <= size
      ensures !ok ==> unchanged(this) && unchanged(data)
      ensures ok ==>
        var entry := HDR_LEN + |payload|;
        && newest == NextSeq(old(newest))
        && log == old(log)[FewestDrop(old(log), size - entry)..]
                  + [Record(Header(|payload|, newest, magic, cookie, ts, kind, chain, extra), payload)]
        && entry <= valid
        && Window(data[..], tail, valid - entry) == Window(old(data[..]), tail, valid - entry)
        && head == Wrap(old(head) + entry, size)
        && now == (if And(kind, 0x200) != 0 || ts <= old(now) then old(now) else ts)
        && maxBlob == (if And(kind, 0x200) != 0 && old(maxBlob) < |payload| then |payload| else old(maxBlob))
        && slots == Signalled(old(slots), kind)
        && notify == Posted(old(notify), old(slots), kind)
        && |slots| == |old(slots)| == |notify|
        && (forall i | 0 <= i < |slots| ::
              var s, hit := old(slots[i]), And(kind, And(old(slots[i].filter), 0xFF00)) != 0;
              && slots[i] == Slot(if hit then 1 else s.pending, s.waiting, s.cursor, s.filter)
              && notify[i] == old(notify[i]) + if hit && s.waiting != 0 then 1 else 0)
        && all == old(all) + [log[|log| - 1]]
      ensures old(History()) ==> History()
    {
      hide FewestDrop, Tiled, Chained, Window, And, Recalls, Signalled, Posted;
      if size < HDR_LEN + |payload| {
        return false;
      }
      Enter(Header(|payload|, NextSeq(newest), magic, cookie, ts, kind, chain, extra), payload);
      Signal(kind);
      ok := true;
    }
  }
}
