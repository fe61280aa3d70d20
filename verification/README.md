# Verified model of fshare2fifo and the fshare ring protocol

`fshare2fifo` reads video records from a camera's shared-memory ring without taking the camera's locks, routes the
NAL units they carry through a gate, and rebuilds each sequence parameter set on the way. This project models that
program, the ring writer and lock protocol it depends on, and the repository's two independent checkers, and proves
what they keep. The ring size, the number of slots and the number of readers are parameters; machine words and their
wrap-around are explicit.

`dafny verify dfyconfig.toml` checks everything. The layers, from the bytes up:

- **Ring as a log.** `Words`, `Records`: little-endian fields, the 26-byte header, wrapping copies, the filter tests.
  `RingWriter`: the writer's pop-then-append on a wrapping array refines "drop the fewest oldest records, add one".
  `RingReader`: the reader's walk over that array, in place, refines "the oldest wanted record but the newest".
- **Reader against writer.** `Delivery`: whole runs of writes and polls. `PollRace`: a poll whose stores come behind
  later writes. `Join`: slot claim, join scan, release. `Tearing`: every interleaving of the writer's stores with the
  reader's loads, headers and payloads byte by byte. `StepsAlone`: one side's steps alone do what the ring's write and
  the reader's walk do. `Interference`, `FullRing`: which of the clauses assumed there can be dropped, and what
  happens without each of the others. `Watchdog`: the stall watchdog over whole runs. `Locking`: the stock
  readers-writer lock and the notify handshake; `Handshake`: its writer is the ring's.
- **Sequence parameter sets.** `Bits`: bit strings and Exp-Golomb codes (ITU-T H.264 section 9.1). `SpsParse`,
  `SpsTail`: the parser and what it ignores. `SpsBuild`: the bit writer and the builder. `SpsRoundTrip`, `SpsCanon`,
  `SpsEscape`: the round trip, emulation freedom, and exactly which writable sets come back. `SpsHigh`, `SpsHighEnd`,
  `SpsLoop`, `SpsHighCrop`: exactly which profiles do, within the standard's ranges. `SpsHighOutside`: not so outside
  them. `SpsScan`, `SpsScanBuilt`: the second parser, and when it finds a size.
- **Output.** `AnnexB`: cutting and joining byte streams (section B.1). `ChainGate`, `Emitter`, `ChainOutput`: the
  gate, the record walk as it runs, and what arrives on the output. `GateSets`: parameter sets through the gate.
- **Framing checker.** `FrameCheck`: sound and complete.

Each method that updates state is proved against a function of the old state; the lemmas are about those functions.

Where comments and code disagree, the model follows the code. What that shows:

- The header comment says no tear is possible. The reader takes no lock and never looks at the tail again:
  `Tearing.NoTear` names four kinds of interference that must be absent: a tail store inside a poll, old bytes that pass
  for the header not yet copied, a newest number that is nobody's, and a header copied under the reader's eyes.
  `Interference.NoTearOnceWritten` needs the third only until the first record is written. None can be left out: with
  just one of the four present, `Interference.TearWithoutTailClause`, `FullRing.TearWithoutStaleClause`,
  `Interference.TearOnFirstRecord` and `FullRing.TearWithoutHeaderClause` run from an empty ring into the delivery of a
  record nobody had written.
- The same comment calls the race on the pending flag benign. A write that lands between the end of the walk and the
  reader's clear loses its flag (`PollRace.FlagLost`): its records wait, whatever the reader polls, until the next write
  of the class, which brings those still in the ring (`PollRace.NextWriteRestarts`).
- The live-edge jump re-reads the same record and then delivers it. `RingReader.JumpIsInert`: it changes no delivery
  unless a record is numbered 0, which the writer never does.
- One unacceptable record hides everything behind it until the writer drops it (`RingReader.WalkOnRing`).
- While the counter counts on, the era test fires on its wrap and on nothing else (`Delivery.EraFiresIffWrapped`). It
  then loses the newest record if that one was wanted (`Delivery.LostIffWrapped`); `Delivery.WrapLosesRecord` shows the
  loss on the ring that has just wrapped. Where the counter restarts, as the test expects, the lowered cursor makes
  delivered records of the old era wanted again (`Delivery.RestartRewinds`), and they are delivered a second time
  (`Delivery.RestartRedelivers`).
- The join comment asks for four records behind the chain start, the code for five (`Join.JoinPointIffStart`).
- The gate never re-arms (`ChainGate.NeverRearms`). Its PPS test never rejects a body behind the usual header byte
  (`ChainGate.PpsTestInert`), and its test on the read position rejects nothing at all (`GateSets.PassesIff`).
- The scanning tool misses every set whose NAL unit is shorter than nine bytes (`SpsScanBuilt.BuiltScanned`).
- The emulation strip differs from section 7.4.1 on exactly the inputs with a doubled escape (`SpsScan.StripsAgree`).
- The builder omits the high profiles' fields: within the standard's ranges a set comes back from the bytes built for
  it if and only if its profile is not one of them (`SpsHighCrop.ReadsBackIffPlain`). The ranges are needed: under
  every high profile some set outside them comes back (`SpsHighOutside.TinyReadsBack`).
- The builder writes no escapes: outside those ranges a set the builder can write comes back if and only if its bytes
  hold no 00 00 03 (`SpsEscape.ReadsBackIffClean`).
- The watchdog decides before the current turn's consumption is recorded: exactly when it fires depends on earlier
  turns and this turn's level and clock alone (`Watchdog.FiresIff`).

## Model

| member | source | states |
|---|---|---|
| Records.ImageIffDecode | src/fshare2fifo/fshare2fifo.c:190-193 | 26 bytes are the stored image of a header if and only if they decode to it |
| Records.FieldsOfBytes | docs/fshare-protocol.md:168-191 | which of the 26 bytes hold which field, little-endian |
| Records.MagicIff | src/fshare2fifo/fshare2fifo.c:198-213 | the magic test takes a header if and only if its byte 11 is 0x6a |
| Records.ClassMatchIff | docs/fshare-protocol.md:555-563 | the class test is a nonzero bitwise and of type, filter and 0xFF00 |
| Records.SubtypeMatchIff | src/fshare2fifo/fshare2fifo.c:218-219 | the subtype test in bitwise ands: no low nibble in the filter, or the record's |
| Records.LogUnique | docs/fshare-protocol.md:168-191 | a byte string is the layout of at most one list of records |
| RingWriter.FewestDropIsLeast | docs/fshare-protocol.md:599-607 | the number of records popped is the least that makes the new one fit |
| RingWriter.Ring.Pop | docs/fshare-protocol.md:599-607 | drops exactly the oldest record, moves only valid and tail, keeps the ring well formed |
| RingWriter.Ring.Append | docs/fshare-protocol.md:109-135 | publishes the fields, then copies: the log gains the record at its end and no surviving byte changes |
| RingWriter.RecallsOneMore | docs/fshare-protocol.md:609-619 | the log stays the young end of everything ever written, now the largest time of the records without bit 0x0200, maxBlob the largest payload of those with it |
| RingWriter.Ring.Write | docs/fshare-protocol.md:599-619 | head = tail + valid mod size, exact tiling and consecutive numbers kept; the log becomes "drop the fewest oldest, add one", survivors' bytes untouched; flags and posts slot by slot; the maxima of the whole history; too large a record is refused and changes nothing |
| RingWriter.Ring.Signal | docs/fshare-protocol.md:555-564 | slot by slot: pending becomes 1 if and only if type, filter and 0xFF00 share a bit, and a post is added if and only if waiting is nonzero as well |
| Handshake.SignalIsScan | docs/fshare-protocol.md:548-584 | one pass over the slots is the writer's run from the first slot to the release of write_lock in the lock model, on the same flags and semaphores |
| Handshake.WriteWakes | docs/fshare-protocol.md:580-584 | no lost wakeup in the ring's fields: after a write every reader asleep or on its way there with its flag up has a post |
| RingReader.RingCopy | src/fshare2fifo/fshare2fifo.c:175-187 | two straight copies give the wrapped window of the ring |
| RingReader.JumpIsInert | src/fshare2fifo/fshare2fifo.c:774-792 | on any memory and for every cursor, the jump changes delivery or cursor if and only if the record to deliver is numbered 0 and the cursor is below 2^32 - 101 |
| RingReader.WalkOnRing | src/fshare2fifo/fshare2fifo.c:760-809 | on every well-formed ring, whatever its records hold, the walk delivers the oldest wanted record other than the newest in front of the first one whose stored byte 11 is not 0x6a or whose payload exceeds 512 KiB, or nothing and an unchanged cursor; the same without the jump |
| RingReader.WalkOnLog | src/fshare2fifo/fshare2fifo.c:760-809 | so where there is no such record, the oldest wanted one other than the newest |
| RingReader.Reader.Scan | src/fshare2fifo/fshare2fifo.c:765-809 | the inner loop terminates for every cursor, jumps included, and computes the specified walk |
| RingReader.Reader.Poll | src/fshare2fifo/fshare2fifo.c:760-825 | one poll on any ring: delivery, private cursor and every field of the slot, with the era test at 10000; only the reader's own slot changes |
| Delivery.SeqOfCounts | docs/fshare-protocol.md:617 | the n-th record's number follows the writer's rule: one more, skipping 0 at every wrap |
| Delivery.FreshIsLater | src/fshare2fifo/fshare2fifo.c:222-227 | across any number of counter wraps, fresh means later, for records less than 2^31 - 1 writes apart |
| Delivery.FreshIff | src/fshare2fifo/fshare2fifo.c:222-227 | exactly how far ahead a record is still fresh: 2^31 - 1 writes, one less if the counter wrapped in between, unless the cursor holds 2^32 - 1 |
| Delivery.EraFiresIffWrapped | src/fshare2fifo/fshare2fifo.c:811-822 | on every log, a poll that finds nothing to deliver moves the cursor if and only if the counter wrapped between cursor and newest record |
| Delivery.LostIffWrapped | src/fshare2fifo/fshare2fifo.c:811-822 | and such a poll loses the newest record, wanted before and not after, if and only if it matches the filter and the counter wrapped |
| Delivery.WrapLosesRecord | src/fshare2fifo/fshare2fifo.c:811-822 | on every ring of at least two records the last of which are numbered 2^32 - 1 and 1, the first poll delivers 2^32 - 1 and keeps the flag, the second delivers nothing, clears it, and record 1 is no longer wanted |
| Delivery.RestartRewinds | src/fshare2fifo/fshare2fifo.c:811-822 | where the counter restarted below the cursor, a poll that finds nothing makes a passed record wanted again if and only if the gap exceeds 10000 and the record is numbered within 2^31 - 1 above the new newest |
| Delivery.RestartRedelivers | src/fshare2fifo/fshare2fifo.c:811-822 | after one more write the next walk then delivers the first such record again; without the gap the new record is not wanted |
| Delivery.WriteRefines | docs/fshare-protocol.md:599-619 | what a ring write does to the log and the slot is a write step of the run model |
| Delivery.PollRefines | src/fshare2fifo/fshare2fifo.c:760-825 | what a poll computes from the ring's bytes is the poll step of the run model, down to the record delivered |
| Delivery.PollInEra | src/fshare2fifo/fshare2fifo.c:760-825 | a poll delivers the oldest surviving match past the cursor or clears the flag; the era test does not fire |
| Delivery.DeliveredInOrder | src/fshare2fifo/fshare2fifo.c:765-808 | over every run, what is delivered is an in-order, duplicate-free selection of the matching writes after the join |
| Delivery.MissedWerePopped | src/fshare2fifo/fshare2fifo.c:765-808 | over every run, a match the cursor passed was delivered, or popped before the poll that passed it |
| Delivery.SlotFollows | src/fshare2fifo/fshare2fifo.c:801-818 | over every run the cursor in the slot is the private one, and waiting and filter stay |
| Delivery.LagBound | src/fshare2fifo/fshare2fifo.c:803-824 | over every run, a clear flag means at most one surviving wanted record is undelivered |
| Delivery.DrainEnds | src/fshare2fifo/fshare2fifo.c:760-824 | polls alone clear the flag after at most one poll per record past the cursor |
| Delivery.DrainDelivers | src/fshare2fifo/fshare2fifo.c:760-824 | and those polls deliver every surviving wanted record but the newest, each within one poll per record up to it |
| Delivery.WriteIsDelivered | docs/fshare-protocol.md:555-564 | a wanted write is delivered by polls alone once one more record is written, unless popped first |
| PollRace.LateLag | src/fshare2fifo/fshare2fifo.c:168-170 | when writes land between a poll's walk and its stores, a clear flag still means that every surviving wanted record is the newest one the walk saw, or was written since |
| PollRace.FlagLost | src/fshare2fifo/fshare2fifo.c:823 | whenever a poll that finds nothing is overtaken by two wanted writes, its clear loses their flag, and no number of polls delivers either |
| PollRace.NextWriteRestarts | src/fshare2fifo/fshare2fifo.c:803-824 | after any such race the next write of the reader's class sets the flag, and polls alone then deliver every surviving wanted record but the newest |
| Join.ScanForStart | src/fshare2fifo/fshare2fifo.c:931-951 | the scan loop computes the number of the last chain start the walk meets |
| Join.ClaimSlot | src/fshare2fifo/fshare2fifo.c:918-974 | claims the lowest slot of 10 to 14, or the one asked for, that is free or left by the same mode, or none; a live slot of the other mode is never touched |
| Join.ReleaseSlot | src/fshare2fifo/fshare2fifo.c:977-988 | zeroes the four fields of the reader's own slot; nothing without one |
| Join.JoinPointIffStart | src/fshare2fifo/fshare2fifo.c:928-946 | the code's test selects chain starts with at least five records behind them |
| Join.SeedOfJoin | src/fshare2fifo/fshare2fifo.c:931-966 | the seed is one below the newest join point, or the newest number if there is none |
| Join.FirstDelivery | src/fshare2fifo/fshare2fifo.c:952-966 | if that record survives to the first poll, it is the first delivery, whatever was appended or popped meanwhile |
| Join.JoinDelivers | src/fshare2fifo/fshare2fifo.c:918-974 | from the bytes scanned at the claim to the bytes of a later ring: as long as the newest join point survives, the first walk delivers it |
| Tearing.NoTear | src/fshare2fifo/fshare2fifo.c:160-168 | over all interleavings of single stores and loads with no tail store inside a poll, old bytes failing the magic test until the new record's number is in place, the newest number that of a completed or reserved record whenever the reader loads it, and no header byte stored while the reader is inside that header: whatever is delivered is, header and payload, a record the writer completed |
| Tearing.RunKeepsInv | docs/fshare-protocol.md:109-135 | at every program point of both sides the published fields describe the bytes in place |
| StepsAlone.WriteAlone | docs/fshare-protocol.md:109-135 | the writer's steps alone come to exactly the log, bytes and fields that Ring.Write computes |
| StepsAlone.PollAlone | src/fshare2fifo/fshare2fifo.c:760-809 | on any memory, for any cursor and filter, the reader's steps alone can deliver what the walk delivers |
| StepsAlone.StopsAlike | src/fshare2fifo/fshare2fifo.c:765-773 | with a header read they stop exactly where the walk does |
| Tearing.NeverEmpties | docs/fshare-protocol.md:599-607 | once it holds a record, a ring with room for two largest ones never empties again |
| Interference.NoTearOnceWritten | src/fshare2fifo/fshare2fifo.c:160-168 | so from the empty ring on, with the other three clauses, the one about the newest number is only needed until the first record is complete |
| Interference.TearWithoutTailClause | src/fshare2fifo/fshare2fifo.c:9-14 | any ring, any first records leaving a slack of 12 bytes or more, any next record longer than the slack: an interleaving that breaks the tail clause alone delivers the first header with the new record's bytes |
| Interference.TearOnFirstRecord | docs/fshare-protocol.md:109-135 | breaking the newest-number clause alone, the first record is delivered before its payload is written |
| FullRing.TearWithoutStaleClause | src/fshare2fifo/fshare2fifo.c:166-167 | breaking the magic clause alone: in a ring filled to the last byte, the dropped record's old header is delivered with the payload of the record written over it |
| FullRing.TearWithoutHeaderClause | src/fshare2fifo/fshare2fifo.c:765-769 | breaking the header clause alone, though the old header fails the magic test: its number and length, read before the new header is copied, go with the new magic, read after, and the new record is delivered under the dropped one's number |
| Locking.RunInv | docs/fshare-protocol.md:322-339 | lock accounting and wakeup guarantee are kept by every step of any number of readers and the writer |
| Locking.Safety | docs/fshare-protocol.md:406-426 | in every reachable state: the writer is out while a reader is in, the count is the number of readers between counting in and out, and a reader committed to sleep with work has a post, or the writer is about to make it |
| Locking.PendingIff | docs/fshare-protocol.md:443-465 | a reader's flag is set by its registration and by the writer at its slot, cleared only by its own fetch that finds no more, and touched by nothing else |
| Locking.OnlyWaitersMarked | docs/fshare-protocol.md:548-584 | over every run only readers in the wait loop are marked as waiting, so no other gets a post |
| Locking.SomeoneMoves | docs/fshare-protocol.md:322-339 | deadlock freedom: while anybody is in the middle of an operation, somebody in the middle can move |
| Locking.SleeperWakes | docs/fshare-protocol.md:548-584 | a parked reader with work can move, or can after the writer's next step |
| Bits.UeInverts | src/fshare2fifo/fshare2fifo.c:284-292 | the Exp-Golomb reader gives back every written value below 2^25 - 1 at any offset of any string, and stops behind the code |
| Bits.UeTooLong | src/fshare2fifo/fshare2fifo.c:291 | from 2^25 - 1 on it returns 0xFFFF instead, and 2^32 - 1 is written as a single zero bit, since adding one wraps |
| Bits.UeInvertsIff | src/fshare2fifo/fshare2fifo.c:284-292 | so a 32-bit value is read back from its code if and only if it is below 2^25 - 1 |
| SpsHigh.UeOnly | src/fshare2fifo/fshare2fifo.c:284-292 | conversely, a value below 0xFFFF read within the string stands there as its one code |
| SpsParse.BitReader.Ue | src/fshare2fifo/fshare2fifo.c:274-292 | the reader's loops compute the specified value and position |
| SpsParse.ParseSpsFull | src/fshare2fifo/fshare2fifo.c:322-403 | strip and parse, in the code's loops and order, equal to the parse function |
| SpsParse.StripIdentity | src/fshare2fifo/fshare2fifo.c:333-338 | the strip leaves bytes without 00 00 03 alone |
| SpsTail.TailIgnored | src/fshare2fifo/fshare2fifo.c:305-312 | two NALs equal up to the last bit read give the same result, whatever follows |
| SpsBuild.BitWriter.PutBit | src/fshare2fifo/fshare2fifo.c:421-428 | or-ing one bit into the buffer appends it to the bits written |
| SpsBuild.BitWriter.PutUe | src/fshare2fifo/fshare2fifo.c:430-440 | appends the code of any 32-bit value, at most 63 bits |
| SpsBuild.Build | src/fshare2fifo/fshare2fifo.c:444-479 | writes the specified bytes and never more than 256, for any field values |
| SpsRoundTrip.NalByte | src/fshare2fifo/fshare2fifo.c:449 | whatever the fields, the first byte built is 0x67 |
| SpsRoundTrip.SilentBits | src/fshare2fifo/fshare2fifo.c:459-477 | where the parser does not look: no gaps, no VUI right where the parse ends, the stop bit, and fewer than eight zeros |
| SpsRoundTrip.RoundTripRaw | src/fshare2fifo/fshare2fifo.c:322-479 | before any strip, every writable set is read back field by field, and the parse ends exactly behind it |
| SpsCanon.NoReservedBytes | src/fshare2fifo/fshare2fifo.c:444-479 | within the standard's ranges, high profiles included, no 00 00 followed by 00 to 03 occurs in the built bytes |
| SpsEscape.ReadsBackIffClean | src/fshare2fifo/fshare2fifo.c:322-479 | every set the builder can write is parsed back from its bytes if and only if they hold no 00 00 03 |
| SpsCanon.RoundTrip | src/fshare2fifo/fshare2fifo.c:322-479 | print then parse returns every field of every set in range outside the high profiles |
| SpsCanon.ParsedIsWritable | src/fshare2fifo/fshare2fifo.c:322-403 | whatever NAL came in, an accepted set outside the high profiles is one the builder can write back |
| SpsCanon.RebuildStable | src/fshare2fifo/fshare2fifo.c:305-312 | rebuilding a rebuilt set gives the same bytes |
| SpsCanon.StripLeavesNone | src/fshare2fifo/fshare2fifo.c:333-338 | the strip's output never holds 00 00 03 |
| SpsCanon.ZeroHeadLost | src/fshare2fifo/fshare2fifo.c:333-346 | so no NAL parses to profile 0, constraints 0, level 3, and such a set cannot round trip |
| SpsHigh.HighMisread | src/fshare2fifo/fshare2fifo.c:350-375 | a built high-profile set in range is not read back within its bytes: a field is wrong, or the parse runs off the end |
| SpsHighEnd.Budget | src/fshare2fifo/fshare2fifo.c:284-292 | where a late parse runs off the end and still gives the set, the skipped bits hold at most one more one than codes ran over |
| SpsHighCrop.LateIsTwin | src/fshare2fifo/fshare2fifo.c:384-401 | with crops, such a parse makes the string repeat from the references to its end, but for the gaps bit |
| SpsHighCrop.HighNeverBack | src/fshare2fifo/fshare2fifo.c:350-375 | so a built high-profile set in range is never given back, wherever the parse stops |
| SpsHighCrop.ReadsBackIffPlain | src/fshare2fifo/fshare2fifo.c:322-479 | on the wire: a set in range is parsed back from the bytes built for it if and only if its profile is not high |
| SpsHighOutside.TinyReadsBack | src/fshare2fifo/fshare2fifo.c:350-375 | outside the ranges the claim fails: under every high profile, constraints and level, a set with an order count size of 31 is parsed back from its bytes |
| SpsScan.StripEscapes | tools/sps-scan.py:14-22 | the zero-counting loop drops every 3 behind two zero bytes and nothing else |
| SpsScan.StripsAgree | src/fshare2fifo/fshare2fifo.c:333-338 | the reader's strip equals the standard's if and only if no escape is followed by 03 or 00 03 |
| SpsScan.ScanSps | tools/sps-scan.py:10-84 | the tool's parse, exceptions included, equals its specification |
| SpsScan.ParsersAgree | tools/sps-scan.py:10-84 | on any SPS NAL of at most 256 bytes without a doubled escape, a size the tool finds is the reader's, or the reader's is 0 x 0 above 301 macroblocks |
| SpsScanBuilt.TakenIff | tools/sps-scan.py:33-42 | the tool's code read raises if and only if the reader's runs off the end or meets more than 24 zeros; otherwise value and position are the same |
| SpsScanBuilt.BuiltScanned | tools/sps-scan.py:10-84 | from the bytes built for a legal set, whatever follows, the tool finds its size if and only if at least eight bytes stand behind the header byte |
| SpsScan.AgreeIffWithinLimit | src/fshare2fifo/fshare2fifo.c:384-393 | there the two sizes are equal if and only if the stored dimensions are within the limit |
| AnnexB.SegmentsTile | src/fshare2fifo/fshare2fifo.c:537-565 | the segments tile the payload from its first start code to its last byte, and no start code begins inside one |
| AnnexB.TilingUnique | src/fshare2fifo/fshare2fifo.c:537-565 | that tiling is the only one |
| AnnexB.JoinOfSplit | src/fshare2fifo/fshare2fifo.c:537-565 | joining what the splitter found gives the payload back from its first start code |
| AnnexB.SplitOfJoin | src/fshare2fifo/fshare2fifo.c:548-565 | behind a code-free prefix, code-free NAL units come back exactly, trailing zeros included |
| AnnexB.SplitOfJoinIff | src/fshare2fifo/fshare2fifo.c:537-565 | and only then |
| AnnexB.OneUnit | src/fshare2fifo/fshare2fifo.c:537-565 | one unit behind 0, 0, 0, 1 comes back if and only if those four bytes do not stand in it |
| AnnexB.FindCode | src/fshare2fifo/fshare2fifo.c:543-564 | the scan loops find the first start code at or behind a position, else the end |
| ChainGate.RunTracks | src/fshare2fifo/fshare2fifo.c:513-520 | over every run of records stage and chain_open are determined by the writes chosen so far, across calls and whatever the writes answered |
| ChainGate.RunIsOrdered | src/fshare2fifo/fshare2fifo.c:513-520 | from start-up: the first NAL chosen is an SPS, each IDR has a PPS behind the most recent SPS and both behind the IDR before, no slice precedes the first IDR |
| ChainGate.IdrHasChain | src/fshare2fifo/fshare2fifo.c:613-656 | the SPS and PPS of an IDR, with no SPS or IDR in between |
| ChainGate.ChosenIff | src/fshare2fifo/fshare2fifo.c:567-674 | a NAL unit is chosen if and only if it is presentable and its kind may follow what was chosen before |
| ChainGate.NeverRearms | src/fshare2fifo/fshare2fifo.c:649-663 | after the first IDR every slice is chosen in every later state |
| ChainGate.PpsTestInert | src/fshare2fifo/fshare2fifo.c:629-645 | behind header byte 0x68 the degenerate-PPS test passes every body of two bytes or more |
| GateSets.SetRebuilt | src/fshare2fifo/fshare2fifo.c:572-605 | for a legal set of order count type 0 and any glued bytes within 256, the gate puts exactly the set's own bytes; so it takes its own output back |
| GateSets.SameSetSameBytes | src/fshare2fifo/fshare2fifo.c:572-605 | two set units that agree up to the last bit read put the same bytes |
| GateSets.RebuiltHolds | src/fshare2fifo/fshare2fifo.c:572-605 | what is put for a legal set parses to the fields that were read |
| GateSets.OtherSetKept | src/fshare2fifo/fshare2fifo.c:607-611 | a set that does not parse, or of another order count type, goes out as it came |
| GateSets.RebuiltGoesOn | src/fshare2fifo/fshare2fifo.c:589-605 | the write of a rebuilt set never ends the walk of its record |
| GateSets.FailureEnds | src/fshare2fifo/fshare2fifo.c:692-700 | any other write that fails hard is the last one tried, and the walk returns -2 |
| GateSets.CutTypes | src/fshare2fifo/fshare2fifo.c:567-674 | over every run whose rebuilt sets are in range, each unit cut from the output has the NAL type of the kind it was sent as |
| GateSets.OtherIff | src/fshare2fifo/fshare2fifo.c:657-670 | in every reachable state a unit of any other type, delimiters apart, is chosen if and only if anything was chosen before |
| GateSets.FullOutput | src/fshare2fifo/fshare2fifo.c:679-700 | without space a slice is refused, counted and leaves no byte on the stream; anything else goes out whole |
| GateSets.PassesIff | src/fshare2fifo/fshare2fifo.c:629-645 | the PPS test passes if and only if there are two bytes and neither code reads as 0xFFFF; the read never passes the end |
| GateSets.ZerosRejected | src/fshare2fifo/fshare2fifo.c:617-645 | and it does reject a body of header byte 0x28 and three zero bytes |
| Emitter.Emitter.Emit | src/fshare2fifo/fshare2fifo.c:531-702 | the walk with its index arithmetic, early returns and PPS trimming does exactly what feeding the split NAL units to the gate does |
| Emitter.Emitter.RoutePps | src/fshare2fifo/fshare2fifo.c:613-648 | trims, tests and writes a PPS as the gate specifies |
| ChainOutput.RunAccounted | src/fshare2fifo/fshare2fifo.c:684-699 | over every run the counters equal the writes sent, their bytes and the refusals; only slices are refused |
| ChainOutput.CountsAddUp | src/fshare2fifo/fshare2fifo.c:692-699 | every write tried was sent, refused or failed |
| ChainOutput.CountersAreStream | src/fshare2fifo/fshare2fifo.c:684-699 | over every run the byte counter is the length of the output stream, the unit counter its units, the drop counter the refusals |
| ChainOutput.ReturnIsLast | src/fshare2fifo/fshare2fifo.c:681-702 | a record's walk returns 0, -1 or -2 as its last write was sent, refused or failed |
| ChainOutput.SentIsOrdered | src/fshare2fifo/fshare2fifo.c:681-699 | unless a write fails hard, what was sent keeps the chain order: refused slices break no chain |
| ChainOutput.OutputResplitsIff | src/fshare2fifo/fshare2fifo.c:531-702 | over every run, cutting the output stream at start codes recovers exactly the NAL units sent if and only if no start code begins inside a parameter set that was sent |
| ChainOutput.OutputResplits | src/fshare2fifo/fshare2fifo.c:531-702 | which holds whenever the rebuilt sets are in range |
| FrameCheck.Check | tools/verify_fshare_map.py:50-104 | clean if and only if some list of consecutive records tiles exactly the valid bytes and ends at the newest number; entry count and timestamp verdict are that list's; the cap of 200000 never bites |
| FrameCheck.Verdict | tools/verify_fshare_map.py:66-99 | the list a clean verdict certifies is unique |
| FrameCheck.Rd | tools/verify_fshare_map.py:59-64 | two slices give the wrapped window of the snapshot |
| Watchdog.Loop.EndTurn | src/fshare2fifo/fshare2fifo.c:848-877 | the variables after one turn, and whether the loop is left |
| Watchdog.CursorAfter | src/fshare2fifo/fshare2fifo.c:858-859 | over every run: a turn that fires leaves both cursors at its newest number, any other leaves them as the poll did |
| Watchdog.ReanchorSkips | src/fshare2fifo/fshare2fifo.c:840-847 | after a re-anchor no record in the ring is wanted, across any wrap, and the next one written is wanted if and only if it matches |
| Watchdog.ReanchorDelivers | src/fshare2fifo/fshare2fifo.c:840-847 | and once one more follows it, the next walk delivers that match |
| Watchdog.EmitIsLatest | src/fshare2fifo/fshare2fifo.c:745-749 | last_emit is set exactly since the first consumption and is no older than any consumption or re-anchor |
| Watchdog.ReanchorSpaced | src/fshare2fifo/fshare2fifo.c:848-872 | no re-anchor before a consumption, none unless the level differs from the recorded one, none within 15 s of a consumption or re-anchor |
| Watchdog.LevelIsLast | src/fshare2fifo/fshare2fifo.c:848-872 | the recorded level is the one of the turn before, once armed |
| Watchdog.ExitIffFourth | src/fshare2fifo/fshare2fifo.c:861-869 | the loop gives up exactly on the fourth re-anchor without a recorded consumption |
| Watchdog.ExitAfterMinute | src/fshare2fifo/fshare2fifo.c:861-869 | and then at least 60 s after the last recorded consumption |
| Watchdog.FiresIff | src/fshare2fifo/fshare2fifo.c:848-877 | a turn re-anchors or gives up if and only if something was consumed before, the level differs from the recorded one, and every earlier consumption and re-anchor is 15 s old; this turn's own consumption plays no part |

## Left out

- SpsHighCrop.ReadsBackIffPlain: covers the standard's ranges, with crops below 1024; of the high-profile sets outside
  them some come back (`SpsHighOutside.TinyReadsBack`), and which ones is not classified.
- Interference.NoTearOnceWritten: asks for room for two largest records, which the real ring has many times over; in a
  smaller ring all four clauses are needed throughout.
- SpsScan.ParsersAgree: assumes at most 255 picture order cycle offsets, where the reader stops reading them and the
  tool does not.
- Tearing.NoTear: bytes are copied in ascending order on both sides and become visible in the order they are stored, and
  the walk is followed for every possible filter decision.
- Delivery.LagBound: treats a poll as one step on a stable ring of acceptable records; writes between its walk and its
  stores are `PollRace`'s subject, bytes that change during the walk `Tearing`'s.
- Emitter.Emitter.Emit: writes to an all-or-nothing sink; the real `write` may leave a partial slice in the pipe, and an
  SPS goes out as two writes.
- Watchdog.ReanchorSpaced: takes the clock readings and header fields of each turn as inputs.
- Locking: `fshare_set_filter`, which holds write_lock like a writer, and the real semaphores' memory words.
- The stock `fshare_read_latest`, the age test of `fshare_register`, and the timestamps of the writer beyond their
  maxima.
- Audio passthrough, option parsing, mmap, fifo opening and reopening, the purger thread, signals, traces, and the
  one-shot mode.
- `sps_read_se`, which is never called, and the largest-picture variables of the record walk, which are only written.
- The slot listing and the type histogram of the framing checker; the start-code scan of the SPS tool.
- `onvif`, `ptz`, the ring capture tools, shell scripts and the web page.
