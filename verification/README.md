# Toroni: protocol model and proofs

Toroni is a brokerless broadcast between processes on one machine. Writers take a
robust lock and lay records (message, padding, or a headerless blank) onto a
circular buffer in shared memory; readers walk the records without a lock and
rely on comparing their position with the published stream end. A table of reader
slots lets writers wait for readers they would otherwise overwrite. On top of this
message protocol (RMP) the topic protocol (TP) serializes topic messages, queues
them for one drainer, and fans them out to channel readers.

The project models both layers and examines what the README of the repository
promises for them: total order, exactly once, detection of loss, safety when a process
dies, wait-free reading, and delivery by topic. Where a promise does not hold as
stated, the project says under which condition it does and gives a run on which it
fails; these cases are listed under "Where code and promises differ".

## How the model is laid out

| file | content |
|---|---|
| Arithmetic, Bytes | remainders; little-endian bytes and back |
| Positions | unbounded stream positions, and the 64-bit comparisons and masks that refine them |
| Records | header, records, the append-only log, and `Holds`: what the buffer's bytes mean |
| Slots, ReaderInfo | reader slots as values, and the table updated in place |
| QuiescentRead | one read as a function of the bytes; refinement to the log |
| Protocol | the state machine, byte by byte |
| ProtocolInvariants, ProtocolRuns, ProtocolBackpressure | what steps keep, and theorems about whole runs |
| Reachability | completing a write; exactly when a write overtakes a reader |
| ReaderProgress, EndlessRead | a bound on a reader's own steps; a reader left alone finishes; a read that never ends |
| TimelyEntry | exactly when activation comes in time |
| Stalls | what readers that no longer move do to writers |
| Scenarios | runs on which promises fail |
| TornReads | how far a torn read can lead a reader astray, in any run |
| Answers | what the copy handler answers and what becomes of the messages, answer by answer |
| Ring, RingReader | buffer, writer and readers as classes over an array, proved against the log |
| Drainer, AsyncWriter | the start-drainer token step by step; queue and writer procedure in place |
| Delivery, ComesToRest | processes, drainers and ring in one state machine, from post to confirmation; from every state all that living processes posted can still arrive |
| Topics, JavaTopics, TopicReader | topic messages, matcher, filter, the Java codec, fan-out and life cycle |
| Subscriptions, Reception | a topic reader over time: which messages can reach a channel reader, which it misses, in what order |
| StationRuns | who is in the list when, which passes are scheduled, where every message is |
| SplitPasses | Subscriptions and Reception with passes read record by record and everything else going on in between |

The same meaning ties all of it together. A ghost log lists the records published
so far. A ghost high-water mark `dirty` bounds every position stored to, published
or not, and is kept when a writer dies. The invariant `Records.Holds` says that
every record within a lap of `dirty` is still in place byte for byte. Every step of
the state machine and every method of the classes keeps it, with no side condition.

What readers get is then stated for three kinds of runs:

- all runs: `RingOverRun`, `LogAppendOnly`, `CrashSafety`, `BoundedLag`, `AnswersDecide`;
- clean runs, in which every deciding check sees a record that was stored over as
  expired: `TotalOrder`, `ReadersAgree`, `SuccessMissesNothing`, `ConfirmedExactly`. Runs whose writes
  are atomic to readers are clean, forced writes included (`AtomicWritesAreClean`);
- honoured runs, in which the backpressure handler only ever says "wait" and readers
  set their slots in time: `NothingLost`, `ExpiryOnlyAtUnreadable`, and `FinishesAlone`
  (a reader left alone finishes its read). They are clean too (`HonouredIsClean`), with
  messages of every size the buffer takes, stores byte by byte in any order, and writer
  deaths anywhere. `EntryExactly` says when a slot is set in time.

Forced writes interleaved byte by byte with a reader are not safe. `TornReadExists`
gives a run that confirms another payload than the one written, `TornHeaderAborts` one
in which a torn header passes the expiry check and fails the bounds assertion, and
`OvertakesExactly` says for every writer past its scan, whatever it or dead writers
before it have stored, and every unexpired reader position whether this can happen. In
all runs, these included, a reader never gets past the stream end, and once in the
stream end's lap of the buffer it is at a record boundary (`NeverPastStreamEnd`).

## Where code and promises differ

The model follows the code.

- cpp/src/include/toroni/rmp/reader.hpp:107-113 calls the check after the copy
  reliable and pessimistic because the stream end moves last. A stream end that
  moves last makes the check optimistic: stores in flight are not seen
  (`TornReadExists`, `OvertakesExactly`).
- A read reports expiry at a record with zero length although nothing was
  overwritten: an empty message, or the padding that is laid when exactly five
  bytes are left before the end of the buffer (msgHeader.hpp:19, writer.hpp:150).
  `WriteUnreadableExactly` says when a write lays such a record, `FillerExpires` gives
  a run for every buffer size from twelve bytes on, `ExpiryOnlyAtUnreadable` says that
  nothing else makes a read fail when backpressure is honoured, and
  `OddPayloadsNeverExpire` gives a sufficient condition on payloads.
- The largest message allowed is B-5 bytes, but exactly those of which two records fit
  into the buffer are never held up by readers that have read everything
  (`ProgressExactly`). `CaughtUpBlocks` gives, for every other message, a run that ends
  with it blocked by a reader at the stream end.
- The repository's README says topic readers receive only messages created after
  them. A channel reader can be called for a message created before it was added iff
  one its filter accepts was created and not yet logged, or was logged and is still in
  front of the ring reader, which other channel readers keep active, with no pass
  scheduled before (`EarlierCreatedExactly`; `EarlierLoggedExactly` for logged messages
  alone). `EarlierMessagesArrive` gives runs for both. The generation that could tell
  the messages apart is never incremented in the library. What does hold: no call comes
  from a message logged while there was no channel reader (`NothingFromGaps`), as long
  as the list is not emptied while a pass is inside a read (`SessionsSurvive`). The loop
  at cpp/src/include/toroni/rmp/reader.hpp:74 never looks at the slot again, so a pass
  under way goes on when the list is emptied, and calls the removed channel readers for
  what is logged then (`GapServed` gives a run for every buffer, message and reader). If
  a channel reader is added before that pass ends, the new activation also overwrites
  the position the loop works on (readerWithBackpressure.hpp:85), and the addition that
  follows can take it off the record boundaries.
- A channel reader in the list can miss a message for it that was created and logged
  after its addition: passes read with the list they were scheduled with, and one
  scheduled before the addition takes the ring reader past the message
  (`MessageMissed` gives a run for every buffer, message and reader). It is called for
  exactly those messages that no such pass has read (`CalledExactly`), so for all of
  them if no pass was scheduled when it was added (`NothingMissed`, `MissableExactly`,
  whatever is still in front of the ring reader), as is so for the first one ever
  (`FirstMissesNothing`). With passes read
  record by record the same holds of the records read by a pass that lacks the reader
  (`SplitPasses.CalledExactly`). Likewise a removed channel reader can still be called iff a pass
  scheduled with it has not read yet (`RemovedCalledExactly`). Calls are always made in
  log order, once per channel reader and message (`InOrderOnce`).
- The repository's README calls readers' access wait-free. A reader's own steps are
  bounded for every position it moves on, whatever others do and on every path
  (`OwnStepsBounded`), so every record is wait-free. A whole read is not: a reader that
  writers keep feeding stays in one read for any number of messages
  (`ReadsWithoutEnd`).
- It also says the crash of any process is harmless. A writer's is: the log stays what it
  was (`CrashSafety`), each process, dead ones included, has in it exactly what it wrote
  (`EverythingDelivered`), and from every state, without posts, deaths or forced writes,
  all living processes can go on until everything they posted is in the ring, provided
  readers go on too (`EverybodyComesToRest`). A
  reader that dies with its slot active, or stands at a record with zero length, holds
  up writers that honour backpressure as soon as they would get a lap past it, until
  the slot is given up or allocated anew (`SilentReaderBlocksExactly`,
  `SilentReaderStopsWriter`, `UnreadableStopsWriters`). With forced writes it costs at
  most one (`FrozenReadersCost`).
- The topic space is called hierarchical, but a topic counts as below another as soon as
  its name extends the other's, with or without a separator in between
  (`Descendants` and `CalledForExactly` hold for every extension).
- A NUL inside a topic name shortens the name on the way and shifts the payload. Java
  lets one through (`JavaRoundTripExactly`). In C++ it takes a direct call of the
  serializer with a std::string (`RoundTripExactly`): names that come through
  `CreateMessage` are C strings.

## Assumptions

- Sequential consistency: steps on shared memory interleave in one order.
- A robust mutex excludes others while its owner lives and is free once it died. A
  dead writer leaves its stores behind.
- Buffer sizes from 5 to 2^32 bytes. The library needs a power of two for masking;
  the proofs only need `pos % B`, and `IndexRefines` connects the two.
- Header and payload bytes are loaded in ascending order; a writer's stores to one
  record come in any order, but all before the stream end moves. The runs in Scenarios
  store in ascending order.
- Setting a slot, inspecting one, and a reader's comparison with the stream end plus
  the update of its own slot are one step each. Every other access is a step.
- A reader activates and deactivates between reads only. Activating loads the stream
  end and sets the slot in two steps; honoured runs require that at the second nothing
  was stored over the loaded position and no writer past the slot can still lap it.
  `EntryExactly` shows that this is needed and enough, `ImmediateEntryExactly` that
  entering at once always meets it iff two of the largest records fit into the buffer,
  `LateEntryExpires` gives a run without it.

## Model

| member | source | states |
|---|---|---|
| Bytes.FromToBytes | java/toroni/src/main/java/com/vmware/toroni/tp/detail/Util.java:17-49 | decoding an encoded number gives it back, for every width that holds it |
| Bytes.ToFromBytes | java/toroni/src/main/java/com/vmware/toroni/tp/detail/Util.java:17-49 | encoding a decoded byte string gives it back |
| Positions.SignedDifference | cpp/src/include/toroni/rmp/detail/util.hpp:22-25 | the signed 64-bit difference of two wrapped positions is their true difference when they are less than 2^63 apart |
| Positions.ComparisonsRefine | cpp/src/include/toroni/rmp/detail/util.hpp:22-25 | both wrapped comparisons agree with the unbounded ones, in either order |
| Positions.ExpiryRefines | cpp/src/include/toroni/rmp/detail/util.hpp:26-28 | the wrapped expiry check agrees with `freePos >= pos + B`, also across the wrap of the counters |
| Positions.PublishTestRefines | cpp/src/include/toroni/rmp/reader.hpp:122 | the raw comparison `pos >= bpos + lag` is right iff both sides are in the same lap of the 64-bit counter |
| Positions.MaskedByPredecessor | cpp/src/include/toroni/rmp/detail/util.hpp:29 | for positive x, x & (x - 1) is zero iff x is a power of two |
| Positions.SizeTest | cpp/src/include/toroni/rmp/detail/util.hpp:29 | the 64-bit size test passes exactly for zero and the powers of two |
| Positions.IndexRefines | cpp/src/include/toroni/rmp/detail/util.hpp:19-34 | for every size that passes the test, masking the wrapped position gives the true position modulo the size |
| Records.DecodeEncodeHeader | cpp/src/include/toroni/rmp/detail/msgHeader.hpp:12-20 | the packed five-byte header round-trips for every 32-bit length |
| Records.NextRecord | cpp/src/include/toroni/rmp/writer.hpp:116-150 | the record laid at the stream end fits there: messages do not wrap, filler ends exactly at the end of the buffer |
| Records.LaidExactly | cpp/src/include/toroni/rmp/writer.hpp:116-132 | the message itself is laid iff it fits before the end of the buffer, and a blank iff not even a header does |
| Records.AfterFiller | cpp/src/include/toroni/rmp/writer.hpp:143-168 | after padding or blank the stream end is at index zero and the message itself comes next |
| Records.FillerFits | cpp/src/include/toroni/rmp/writer.hpp:116-132 | if two records of a message's size fit into the buffer, filler and message together take less than one lap |
| Records.AlwaysFitsExactly | cpp/src/include/toroni/rmp/writer.hpp:116-132 | a message takes less than one lap at every stream position iff two records of its size fit into the buffer |
| Records.StoreKeepsHolds | cpp/src/include/toroni/rmp/writer.hpp:143-166 | a byte stored at or past the stream end disturbs no logged record within a lap of the raised high-water mark |
| Records.PublishKeepsHolds | cpp/src/include/toroni/rmp/writer.hpp:152-168 | moving the stream end past a completely stored record appends it to the log and keeps the buffer invariant |
| Slots.Unpack | cpp/src/include/toroni/rmp/readerInfo.hpp:174-177 | packing minimum and maximum into 16/16 bits and unpacking gives minimum and maximum plus one |
| Slots.RangeExact | cpp/src/include/toroni/rmp/readerInfo.hpp:174-231 | the unpacked range is empty iff no slot is active, otherwise exactly from the least active slot to one past the greatest |
| Slots.DetectExact | cpp/src/include/toroni/rmp/writer.hpp:181-216 | a position is returned iff an active slot is live now, expired after the write and past the position to skip; it is the first such slot's |
| Slots.SkipExact | cpp/src/include/toroni/rmp/writer.hpp:173-213 | with a position to skip, the scan goes as if every slot up to that position were inactive |
| Slots.CaughtUpBlocksExactly | cpp/src/include/toroni/rmp/writer.hpp:192-213 | with somebody active and everybody caught up, a write of n bytes goes through iff n < B |
| Slots.BlockedWriteKills | cpp/src/include/toroni/rmp/writer.hpp:192-213 | moving the stream end never revives a slot, and expires at least one live slot if the write was seen to block |
| Slots.FrozenReadersCost | cpp/src/include/toroni/rmp/writer.hpp:78-86 | if slots never change and every write is forced, at most as many writes meet backpressure as slots are active, however many writes |
| Slots.CountExact | cpp/src/include/toroni/rmp/writer.hpp:192-213 | the counts of active and of live slots in that bound are the sizes of those sets |
| Slots.SlotKept | cpp/src/include/toroni/rmp/readerInfo.hpp:97-128 | over every history of allocations, frees, activations and deaths, a slot stays with its live owner until that owner frees it |
| Slots.DistinctSlots | cpp/src/include/toroni/rmp/readerInfo.hpp:97-111 | two allocations never give the same slot while the first owner lives and holds it |
| Slots.OccurExactly | cpp/src/include/toroni/rmp/readerInfo.hpp:97-164 | what each event leaves behind: a freed slot is available and inactive, after a death exactly the slots of the dead process become available besides, an allocation takes only available slots, and slots not concerned stay |
| Slots.SlotReusable | cpp/src/include/toroni/rmp/readerInfo.hpp:97-128 | over every history a slot that was freed or whose owner died stays available until an allocation gets it, and until then every allocation succeeds |
| ReaderInfoTable.ReaderInfo.constructor | cpp/src/include/toroni/rmp/readerInfo.hpp:84-90 | a new table has free, inactive slots and a valid range |
| ReaderInfoTable.ReaderInfo.Alloc | cpp/src/include/toroni/rmp/readerInfo.hpp:97-111 | takes the lowest slot without a live owner and leaves it inactive, everything else unchanged; -1 iff there is none; the effect is that of the event in `Slots.Occur` |
| ReaderInfoTable.ReaderInfo.Free | cpp/src/include/toroni/rmp/readerInfo.hpp:120-128 | the slot is inactive and unowned, others unchanged, the range current; nothing happens for -1; the owner's call has the effect of the event in `Slots.Occur` |
| ReaderInfoTable.ReaderInfo.Activate | cpp/src/include/toroni/rmp/readerInfo.hpp:138-147 | the slot is active at the given position, others unchanged, the range current; nothing happens for -1; the owner's call has the effect of the event in `Slots.Occur` |
| ReaderInfoTable.ReaderInfo.Deactivate | cpp/src/include/toroni/rmp/readerInfo.hpp:156-164 | the slot is inactive, others unchanged, the range current; nothing happens for -1; the owner's call has the effect of the event in `Slots.Occur` |
| ReaderInfoTable.ReaderInfo.UpdateActiveRange | cpp/src/include/toroni/rmp/readerInfo.hpp:207-231 | after any number of failed swaps the word is the packed hull of the active slots |
| ReaderInfoTable.ReaderInfo.GetActiveRange | cpp/src/include/toroni/rmp/readerInfo.hpp:174-177 | every active slot lies in the range, its two ends are active, and it is empty iff none is active |
| QuiescentRead.RecordBytes | cpp/src/include/toroni/rmp/reader.hpp:90-105 | the bytes of an intact record decode to its header and payload and pass the bounds assertion |
| QuiescentRead.ReadFollowsLog | cpp/src/include/toroni/rmp/reader.hpp:65-131 | reading the bytes from any record boundary gives exactly the messages logged from there on, and ends where the log says, across wrap, padding and blanks; no bounds assertion fails |
| QuiescentRead.ReadOutcome | cpp/src/include/toroni/rmp/reader.hpp:68-131 | either the first record past a blank is a lap behind and nothing is delivered, or the read stops at the first unreadable record, or it delivers everything |
| QuiescentRead.SuccessExactly | cpp/src/include/toroni/rmp/reader.hpp:68-131 | a read reaches the stream end iff the first record past a blank is not expired and no record ahead is unreadable |
| Protocol.Apply | cpp/src/include/toroni/rmp/writer.hpp:71-171 | every enabled step leads to a well-shaped state: indices of loads and stores stay inside the buffer |
| Protocol.ReaderStep | cpp/src/include/toroni/rmp/reader.hpp:74-128 | no reader step moves a load outside the buffer, whatever bytes were loaded |
| ProtocolInvariants.StoreByteKeepsRing | cpp/src/include/toroni/rmp/writer.hpp:143-166 | storing any one byte of the current record keeps the ring invariant |
| ProtocolInvariants.PublishKeepsRing | cpp/src/include/toroni/rmp/writer.hpp:152-168 | moving the stream end once all bytes are stored keeps the ring invariant |
| ProtocolInvariants.StepKeepsRing | cpp/src/include/toroni/rmp/writer.hpp:71-171 | every step of anybody, crash included, keeps the ring invariant, only extends the log and never lowers the high-water mark |
| ProtocolInvariants.DecisionKeepsInv | cpp/src/include/toroni/rmp/reader.hpp:92-120 | a check that sees the record as expired, or meets it untouched, confirms only the logged payload and lands on the next boundary |
| ProtocolInvariants.AnswerKeepsInv | cpp/src/include/toroni/rmp/reader.hpp:106-120 | a declined message is skipped to the next boundary and counted as declined |
| ProtocolInvariants.StepKeepsReader | cpp/src/include/toroni/rmp/reader.hpp:65-131 | every step of anybody keeps each reader on a boundary, its outcomes equal to the messages passed, its assertions true |
| ProtocolInvariants.StepKeepsReaders | cpp/src/include/toroni/rmp/reader.hpp:65-131 | the same for all readers at once, together with the ring invariant |
| ProtocolRuns.RingOverRun | cpp/src/include/toroni/rmp/writer.hpp:71-171 | the ring invariant holds in every state of every run |
| ProtocolRuns.LogAppendOnly | README.md:18 | the log of a later state extends that of an earlier one |
| ProtocolRuns.CrashSafety | cpp/unit_tests/rmp/readerWriterTest.cpp:153-176 | wherever writers died, the bytes read from any boundary that stores are not a lap past parse to exactly the messages completed after it; partial messages never show |
| ProtocolRuns.ReadersOverRun | cpp/src/include/toroni/rmp/reader.hpp:65-131 | all reader invariants hold in every state of every clean run |
| ProtocolRuns.TotalOrder | README.md:18-22 | what a reader got past since activation is a contiguous part of the one message log, each message confirmed unchanged once or declined |
| ProtocolRuns.ConfirmedAsLogged | README.md:18-22 | the k-th message a reader confirmed is the one the end of the run logs under its number |
| ProtocolRuns.ReadersAgree | README.md:18 | two readers that confirmed the message of the same number, at any moments, confirmed the same payload |
| ProtocolRuns.SuccessMissesNothing | README.md:19 | when a read returns success the reader is at the stream end and its outcomes account for every message logged since activation |
| ProtocolRuns.AtomicWritesAreClean | cpp/src/include/toroni/rmp/reader.hpp:85-118 | if writes are atomic to readers, every check is clean, so reads are sound even under forced writes |
| ProtocolRuns.BoundedLag | cpp/src/include/toroni/rmp/reader.hpp:120-128 | in every run an active reader's published position trails its own by less than B/2 + 4, and equals it after success |
| ProtocolRuns.PublishedSparingly | cpp/src/include/toroni/rmp/reader.hpp:120-128 | inside a read a step leaves the published position alone, or moves it on by half the buffer at least, or ends the read |
| Answers.AnswersDecide | cpp/src/include/toroni/rmp/reader.hpp:106-118 | in every run, torn and forced writes included, a reader has confirmed or declined one message since its activation for each answer of its handler, as answered and in that order; only the last accepted one can be unconfirmed, while it is checked or because the reader has expired |
| Answers.AllOrNothing | cpp/src/include/toroni/rmp/copyConfirmHandler.hpp:28-34 | in every run, a handler that never declines has every message its reader got past confirmed, and one that never accepts has none |
| Answers.ConfirmedExactly | README.md:18-22 | in every state of a clean run, with a handler that never declines, what a reader confirmed since its activation is exactly the messages logged between there and its position, in log order, once each |
| Answers.SinceActivation | cpp/src/include/toroni/rmp/readerWithBackpressure.hpp:83-87 | what counts as activation is the end of the log when the reader last loaded its position |
| ProtocolBackpressure.StoringKeepsClear | cpp/src/include/toroni/rmp/writer.hpp:143-168 | storing and publishing never reach past what the scan allowed, for messages of every size |
| ProtocolBackpressure.ScanKeepsClear | cpp/src/include/toroni/rmp/writer.hpp:192-213 | what a writer may reach rises for a slot only when that slot is inspected and does not block |
| ProtocolBackpressure.WriterStepProtects | cpp/src/include/toroni/rmp/writer.hpp:71-171 | no writer step but a forced write takes an active reader's protection away: nothing stored over its published position, no stream end a lap past it without a look at its slot |
| ProtocolBackpressure.ReaderStepProtects | cpp/src/include/toroni/rmp/readerWithBackpressure.hpp:83-142 | no reader step gives up this protection, activation included |
| ProtocolBackpressure.ProtectedOverRun | cpp/src/include/toroni/rmp/writer.hpp:135-168 | in every state of an honoured run every active reader is protected |
| ProtocolBackpressure.NothingLost | README.md:19 | in an honoured run no byte an active reader has yet to read was ever stored over, and its position is not expired |
| ProtocolBackpressure.HonouredIsClean | cpp/src/include/toroni/rmp/reader.hpp:85-118 | honoured runs are clean, with byte-level stores and crashes |
| ProtocolBackpressure.ExpiryOnlyAtUnreadable | cpp/src/include/toroni/rmp/detail/msgHeader.hpp:19 | in an honoured run a read ends in expiry only at an empty message or zero-length padding |
| ProtocolBackpressure.EvenRecord | cpp/src/include/toroni/rmp/writer.hpp:116-150 | with even buffer size and stream end and a payload of odd length, the next record is readable and of even size |
| ProtocolBackpressure.OddPayloadsNeverExpire | cpp/src/include/toroni/rmp/writer.hpp:128-150 | in an honoured run whose payloads have odd length, no read ever ends in expiry |
| ReaderProgress.OwnStepsBounded | README.md:25 | on every path, with any interference, torn and forced writes and deaths included, a reader's own steps inside one read plus its phase are at most (B + 11) times the positions moved plus the phase at the beginning |
| ReaderProgress.OwnStepsCounted | README.md:25 | the own steps in that bound are counted one for one |
| ReaderProgress.FinishesAlone | cpp/src/include/toroni/rmp/reader.hpp:65-131 | in a state of an honoured run a reader inside a read, left alone, gets to its end: at the stream end with every record passed, or at an intact record of zero length |
| EndlessRead.ReadsWithoutEnd | cpp/src/include/toroni/rmp/reader.hpp:74-126 | in every even buffer from thirty-two bytes on and for every n, a run with backpressure honoured in which a reader gets past n messages without returning from one read |
| EndlessRead.OneRead | cpp/src/include/toroni/rmp/reader.hpp:74-126 | a reader that does not start a read on a path and is inside one at its end was inside that one all the time |
| Stalls.SilentReaderHolds | README.md:20 | without forced writes the stream end stays less than a lap ahead of what a reader published that takes no step any more |
| Stalls.SilentReaderBlocksExactly | README.md:20 | a writer that looks at the slot of such a reader is blocked iff its write would reach a lap past the published position |
| Stalls.NeverPast | cpp/src/include/toroni/rmp/reader.hpp:92-96 | a reader at a record with zero length stays there, read after read, until it activates anew |
| Stalls.UnreadableStopsWriters | cpp/src/include/toroni/rmp/reader.hpp:92-96 | in an honoured run, until that reader gives up its slot, the stream end never gets a lap past the record |
| TimelyEntry.EntryExactly | cpp/src/include/toroni/rmp/readerWithBackpressure.hpp:83-87 | setting the slot comes in time, that is all continuations without forced writes leave the reader unexpired and untouched where it entered, iff nothing was stored over the loaded position and no writer past the slot can lap it |
| TimelyEntry.HonouredStates | cpp/src/include/toroni/rmp/readerWithBackpressure.hpp:83-87 | every state of an honoured run meets what EntryExactly asks of states |
| TimelyEntry.ImmediateEntryExactly | cpp/src/include/toroni/rmp/readerWithBackpressure.hpp:83-87 | in honoured runs with messages up to a size, setting the slot right after loading the stream end always comes in time iff two records of that size fit into the buffer |
| Reachability.StoresLead | cpp/src/include/toroni/rmp/writer.hpp:143-166 | whatever was stored before, the first n bytes of a record can be stored in ascending order, leaving the rest of the buffer as it was |
| Reachability.WriteCompletes | cpp/src/include/toroni/rmp/writer.hpp:143-171 | a writer past its scan, with any bytes stored and any residue around, can finish alone, having appended exactly one write's records and released the lock |
| Reachability.OvertakesExactly | cpp/src/include/toroni/rmp/reader.hpp:107-114 | a writer past its scan can come to have stored over the record at an unexpired position, with the check still passing, iff residue is past it already or the bytes of one of its records reach past that position plus B while the stream end is short of it |
| Reachability.UnblockedNeverOvertakes | cpp/src/include/toroni/rmp/writer.hpp:207-212 | a write the scan let through at a position cannot overtake it |
| Scenarios.TornReadExists | cpp/src/include/toroni/rmp/reader.hpp:107-116 | a run with one forced write, stored byte by byte in ascending order, in which a reader confirms a payload other than the one logged |
| Scenarios.TornHeaderAborts | cpp/src/include/toroni/rmp/reader.hpp:90-99 | a run with one forced write in which a reader loads a header never written as one, the checks of validity and expiry pass, and the bounds assertion fails |
| TornReads.LapStartsRecord | cpp/src/include/toroni/rmp/writer.hpp:116-150 | every multiple of the buffer size between a record and the stream end is a record boundary |
| TornReads.NeverPastStreamEnd | cpp/src/include/toroni/rmp/reader.hpp:65-131 | in every run, torn reads, forced writes and deaths included, no reader is past the stream end or told it is, and once in the stream end's lap it is at a record boundary |
| Scenarios.LateEntryExpires | cpp/src/include/toroni/rmp/readerWithBackpressure.hpp:83-87 | a run without forced writes or unreadable records in which a reader lapped between loading the stream end and setting its slot is told it has expired |
| Scenarios.CaughtUpBlocks | cpp/src/include/toroni/rmp/writer.hpp:78-86 | for every message of which two records do not fit, a run that ends with it blocked by a reader at the stream end; waiting and looking again leads back to the same state |
| Scenarios.FillerExpires | cpp/src/include/toroni/rmp/detail/msgHeader.hpp:19 | for every buffer from twelve bytes on, a run without forced writes or empty messages in which a read ends in expiry although its position is unexpired and nothing there was stored over |
| Scenarios.SilentReaderStopsWriter | README.md:20 | a run that ends with a writer blocked by a reader that takes no more steps; however it goes on without forced writes, the stream end never reaches where the message would take it |
| Ring.ByteRingBuffer.constructor | cpp/src/include/toroni/rmp/byteRingBuffer.hpp:50-51 | a new buffer is valid with stream end zero and an empty log |
| Ring.ByteRingBuffer.Store | cpp/src/include/toroni/rmp/byteRingBuffer.hpp:60-65 | stores bytes in place, raises the high-water mark to them, keeps the buffer invariant |
| Ring.ByteRingBuffer.Publish | cpp/src/include/toroni/rmp/writer.hpp:152-168 | moves the stream end past a stored record and appends exactly it to the log |
| Ring.WriteEntriesMessages | README.md:22 | what one write appends holds its payload once and otherwise only filler |
| Ring.WriteUnreadableExactly | cpp/src/include/toroni/rmp/detail/msgHeader.hpp:19 | a write lays a record readers reject iff its payload is empty or exactly five bytes are left before the end of the buffer |
| Ring.ForcedExactly | cpp/src/include/toroni/rmp/writer.hpp:78-86 | a write is forced iff it was blocked at every look at the slots while the handler said wait |
| Ring.WaitsExactly | cpp/src/include/toroni/rmp/writer.hpp:78-86 | a write meets backpressure k times iff the first k looks at the slots find a reader in the way and the next does not |
| Ring.ProgressExactly | cpp/src/include/toroni/rmp/writer.hpp:116-141 | readers that have read everything never hold up a message iff two records of its size fit into the buffer |
| Ring.Writer.GetMaxMessageSize | cpp/src/include/toroni/rmp/writer.hpp:95-97 | a payload is within the limit iff header and payload fit into the buffer |
| Ring.Writer.DetectReaderBackpressure | cpp/src/include/toroni/rmp/writer.hpp:181-216 | scanning only the packed range gives the first blocking slot among all slots |
| Ring.Writer.Write | cpp/src/include/toroni/rmp/writer.hpp:110-171 | with backpressure nothing changes and the blocking position is returned; otherwise exactly one write's records are appended |
| Ring.Writer.WriteFiller | cpp/src/include/toroni/rmp/writer.hpp:143-158 | appends padding or a blank that ends at the end of the buffer |
| Ring.Writer.WriteMessage | cpp/src/include/toroni/rmp/writer.hpp:160-168 | appends exactly the message, stored before it is published |
| Ring.Writer.WriteEx | cpp/src/include/toroni/rmp/writer.hpp:71-87 | appends the message exactly once whatever the handler answers; the backpressure counter grows by the number of blocked looks |
| RingReader.UndeclinedAll | cpp/src/include/toroni/rmp/copyConfirmHandler.hpp:28-34 | a handler that declines nothing keeps every message |
| RingReader.UndeclinedExactly | cpp/src/include/toroni/rmp/reader.hpp:104-118 | a handler keeps each message as often as it came, or not at all if it declines it |
| RingReader.Reader.Deliver | cpp/src/include/toroni/rmp/reader.hpp:103-118 | the payload is confirmed unless declined or expired; nothing else is |
| RingReader.Reader.ReadRecord | cpp/src/include/toroni/rmp/reader.hpp:84-120 | one turn at a record with a header agrees with reading the bytes functionally and goes exactly one record on |
| RingReader.Reader.ReadEx | cpp/src/include/toroni/rmp/reader.hpp:65-131 | result, final position and confirmed messages are those of the functional read; the published position keeps its bounded lag and catches up on success; invalid iff past the stream end |
| RingReader.ReaderWithBackpressure.Create | cpp/src/include/toroni/rmp/readerWithBackpressure.hpp:52-66 | a reader gets a slot of its own, inactive; it fails iff live processes hold all slots |
| RingReader.ReaderWithBackpressure.Activate | cpp/src/include/toroni/rmp/readerWithBackpressure.hpp:83-87 | private position and slot both at the stream end, slot active, other slots unchanged |
| RingReader.ReaderWithBackpressure.Deactivate | cpp/src/include/toroni/rmp/readerWithBackpressure.hpp:94-96 | the slot is inactive, other slots unchanged |
| RingReader.ReaderWithBackpressure.ReadEx | cpp/src/include/toroni/rmp/readerWithBackpressure.hpp:127-142 | confirms exactly the accepted messages logged since the last read, up to the first unreadable or expired record; never invalid; counts expiries; touches its own slot only |
| Drainer.StepKeepsInv | cpp/src/include/toroni/traits/concurrent/mpscMessageQueue.hpp:31-62 | every step keeps exactly one token and written + batch + queue equal to what was posted, in order |
| Drainer.InvOverRun | cpp/src/include/toroni/tp/asyncWriter.hpp:137-174 | the token invariant holds in every state of every interleaving |
| Drainer.HandOff | cpp/src/include/toroni/tp/asyncWriter.hpp:145-174 | written messages are a prefix of posted ones, at most one drainer works, and a non-empty queue has exactly one drainer on its way |
| Drainer.PostedExactly | cpp/src/include/toroni/tp/asyncWriter.hpp:137-174 | over every run, what counts as posted is every message enqueued, in that order, and every write and every notification, blocked or last, is one event |
| Drainer.StepsRunOut | cpp/src/include/toroni/tp/asyncWriter.hpp:160-173 | every step but a new post or a notification while blocked strictly lowers what is left to do |
| Drainer.Settled | cpp/src/include/toroni/tp/asyncWriter.hpp:163-168 | with no drainer pending or running everything posted is written and the last notification came after the last write |
| Drainer.StuckIsSettled | cpp/src/include/toroni/tp/asyncWriter.hpp:160-173 | if nothing but a new post can happen, no drainer is pending or running |
| AsyncWriting.MpscMessageQueue.Enqueue | cpp/src/include/toroni/traits/concurrent/mpscMessageQueue.hpp:31-37 | appends the message, tells whether a drainer must start, lowers the flag |
| AsyncWriting.MpscMessageQueue.Drain | cpp/src/include/toroni/traits/concurrent/mpscMessageQueue.hpp:52-62 | takes everything queued; the flag is raised iff there was nothing |
| AsyncWriting.MessagesAfterWrite | cpp/src/include/toroni/tp/asyncWriter.hpp:169-172 | one write adds exactly its payload to the messages of the log |
| AsyncWriting.AsyncWriter.Post | cpp/src/include/toroni/tp/asyncWriter.hpp:137-143 | queues the message and asks for a drainer iff the flag was up |
| AsyncWriting.AsyncWriter.WriteBatch | cpp/src/include/toroni/tp/asyncWriter.hpp:169-172 | the log's messages grow by exactly the batch, in order, with one notification each time backpressure is met; with a handler that never waits and frozen readers that is at most once per live slot |
| AsyncWriting.AsyncWriter.ProcWriter | cpp/src/include/toroni/tp/asyncWriter.hpp:151-174 | writes everything queued, and everything arriving before the first empty drain, in order; then the queue is empty and the flag up; notifications are one more than backpressure was met |
| AsyncWriting.EndsSomewhere | cpp/src/include/toroni/tp/asyncWriter.hpp:160-168 | some drain finds nothing, so the procedure ends |
| AsyncWriting.DrainedExactly | cpp/src/include/toroni/tp/asyncWriter.hpp:160-173 | what the procedure writes is what was queued followed by everything that arrived before the first drain that finds nothing |
| AsyncWriting.NothingLeftBehind | cpp/src/include/toroni/tp/asyncWriter.hpp:160-173 | if something arrives before every drain, everything queued and arriving is written |
| Delivery.InvOverRun | cpp/src/include/toroni/tp/asyncWriter.hpp:137-174 | with any number of processes, drainers, writers and readers interleaved, each process finds what it wrote in the log in order, and a busy writer is a drainer with that message in hand |
| Delivery.PostedToConfirmed | README.md:16-22 | in every clean run, what a reader got past is a contiguous part of the log's messages, and for each process the log holds the first messages it posted, in order and once each |
| Delivery.PostedExactly | cpp/src/include/toroni/tp/asyncWriter.hpp:137-143 | over every run, what counts as posted by a process is every message it enqueued, in that order |
| Delivery.DeadExactly | README.md:20 | a process counts as dead iff it died with the lock in hand |
| Delivery.DeathIsFinal | README.md:20 | a process that died does nothing any more: its queue and posts stay, no message logged later is its own, and the lock is free at once |
| Delivery.PublishIsFinish | cpp/src/include/toroni/tp/asyncWriter.hpp:169-172 | a drainer that has stored its message can always publish it |
| Delivery.HonouredIsClean | cpp/src/include/toroni/tp/asyncWriter.hpp:151-174 | runs of processes, drainers and readers without forced writes and with slots set in time are clean |
| Delivery.AtomicIsClean | cpp/src/include/toroni/tp/asyncWriter.hpp:151-174 | runs of processes, drainers and readers whose writes are atomic to readers are clean, forced writes included |
| Delivery.EverythingDelivered | README.md:16-22 | in a clean run, when a reader's read has succeeded and nothing was logged since, its outcomes account for every message logged since its activation; behind those logged before they are, for each process, dead ones included, exactly what it wrote, and for each at rest all it posted |
| Delivery.EverythingConfirmed | README.md:16-22 | in a clean run of all processes, with a handler that never declines, when a read has succeeded and nothing was logged since, the reader has confirmed exactly the messages logged since its activation, in log order, once each |
| ComesToRest.AllAside | cpp/src/include/toroni/rmp/readerWithBackpressure.hpp:94-96 | from every state in which readers are protected they can all end their reads and give up their slots, whatever a writer is doing, with the log and everything else unchanged |
| ComesToRest.WriteFinishes | cpp/src/include/toroni/tp/asyncWriter.hpp:169-172 | a write under way anywhere, waiting, scanning or half stored, can be brought to its end, which takes that message from its drainer's batch |
| ComesToRest.LessToDo | cpp/src/include/toroni/tp/asyncWriter.hpp:137-174 | if some living process is not at rest, some continuation leaves the living processes with less to do |
| ComesToRest.GoodOverRun | cpp/src/include/toroni/tp/asyncWriter.hpp:137-174 | in every state of a run that honours backpressure all readers are protected, a busy writer is a drainer with that message in hand, and everything still queued fits |
| ComesToRest.EverybodyComesToRest | README.md:16-22 | from every state of a run without forced writes, with slots set in time and messages that fit, some continuation without posts, deaths, forced writes and slots being set ends with all living processes at rest and everything they posted in the ring, in posted order |
| Topics.Serialize | cpp/src/include/toroni/tp/detail/topicMsgBinarySerializer.hpp:54-72 | the destination holds generation, flag, NUL-terminated name and data, and is unchanged behind them |
| Topics.TopicMatches | cpp/src/include/toroni/tp/detail/topicMsgBinaryDeserializer.hpp:78-101 | the common-prefix loop decides: equal, or writer name a prefix with post-to-descendants, or reader name a prefix with handle-descendants |
| Topics.Descendants | README.md:32 | a post to descendants reaches its topic and every topic below it, a reader with descendants gets posts to its topic and every topic below it, and without the flag neither reaches a topic it is not equal to |
| Topics.Unrelated | cpp/src/include/toroni/tp/detail/topicMsgBinaryDeserializer.hpp:78-101 | topics that part after a common prefix never match, under any flags |
| Topics.DeserializeAndFilter | cpp/src/include/toroni/tp/detail/topicMsgBinaryDeserializer.hpp:38-66 | scanning for the NUL and filtering gives the specified verdict and payload |
| Topics.LayoutFields | cpp/src/include/toroni/tp/detail/topicMsgBinarySerializer.hpp:17-22 | the fields of a serialized message can be read back where the layout says, with anything behind it |
| Topics.RoundTrip | cpp/src/include/toroni/tp/detail/topicMsgBinaryDeserializer.hpp:38-66 | a serialized message is accepted iff its generation is not below the reader's and the topics match, with exactly the payload |
| Topics.RoundTripExactly | cpp/src/include/toroni/tp/detail/topicMsgBinarySerializer.hpp:67-69 | for a std::string name given to the serializer, a reader of the name as it arrives gets the payload sent iff the name holds no NUL |
| Topics.CreateMessage | cpp/src/include/toroni/tp/asyncWriter.hpp:110-128 | gives the serialized message, or nothing iff it exceeds the largest message size; every filter accepts it iff generation and topic match, with exactly the payload |
| JavaTopics.ReadLongValue | java/toroni/src/main/java/com/vmware/toroni/tp/detail/Util.java:40-49 | the loop over signed bytes computes the little-endian value wrapped to a signed long |
| JavaTopics.SameBytes | java/toroni/src/main/java/com/vmware/toroni/tp/detail/Util.java:17-28 | the bytes Java stores for a long, negative ones included, are the little-endian bytes of its two's complement |
| JavaTopics.LongRoundTrip | java/toroni/src/main/java/com/vmware/toroni/tp/detail/Util.java:17-49 | reading back a stored long gives it back |
| JavaTopics.Serialize | java/toroni/src/main/java/com/vmware/toroni/tp/detail/TopicMsgSerializer.java:41-62 | the destination holds generation, flag, the whole name with a NUL behind it, and the data, and is unchanged behind them |
| JavaTopics.LayoutsAgree | java/toroni/src/main/java/com/vmware/toroni/tp/detail/TopicMsgSerializer.java:54-58 | Java and C++ lay a message out alike iff behind the first NUL of the name only NULs follow |
| JavaTopics.JavaRoundTripExactly | java/toroni/src/main/java/com/vmware/toroni/tp/detail/TopicMsgSerializer.java:54-58 | a reader of the name as it arrives gets the payload Java sent iff the name holds no NUL |
| JavaTopics.GenerationTestAgrees | java/toroni/src/main/java/com/vmware/toroni/tp/detail/TopicMsgDeserializer.java:41-44 | Java's signed and C++'s unsigned generation test agree iff both generations lie in the same half of the range |
| JavaTopics.CopyConfirmHandler.Copy | java/toroni/src/main/java/com/vmware/toroni/rmp/CopyConfirmHandler.java:19-28 | the message is at the front of the buffer; the buffer is replaced iff it was too small, otherwise its tail is unchanged |
| JavaTopics.StaleTailIgnored | java/toroni/src/main/java/com/vmware/toroni/rmp/CopyConfirmHandler.java:30-32 | whatever stale tail the reused buffer carries, the filter's verdict and payload are those of the message alone |
| TopicReading.DeliveriesAreAddressed | cpp/src/include/toroni/tp/reader.hpp:168-180 | one serialized message leads to calls for exactly the channel readers it is for, in their order, each with the whole payload |
| TopicReading.FanOutIsSubscription | cpp/src/include/toroni/tp/reader.hpp:168-180 | fanning out serialized posts is exactly the subscription: post by post, reader by reader, nothing else |
| TopicReading.CalledForExactly | README.md:32 | a channel reader is called for a serialized post, with its payload, iff the post is not too old and the reader's topic is the post's, or extends it and it was posted to descendants, or the post's topic extends the reader's and the reader handles descendants |
| TopicReading.PostedIsDelivered | cpp/src/include/toroni/tp/reader.hpp:157-187 | when the ring's messages grew by what senders posted, fanning out what lies behind a reader's position with a given list is exactly the subscription of that list |
| TopicReading.EraseAt | cpp/src/include/toroni/tp/reader.hpp:219-225 | erasing by identity removes exactly the first entry of that identity |
| TopicReading.TopicReader.AddChannelReader | cpp/src/include/toroni/tp/reader.hpp:200-208 | appends the reader; the first one activates at the stream end and raises one event; keeps active iff non-empty and the alternation of events |
| TopicReading.TopicReader.RemoveChannelReader | cpp/src/include/toroni/tp/reader.hpp:217-230 | removes the reader, or nothing if unknown; removing the last deactivates and raises one event; keeps the same invariant |
| TopicReading.TopicReader.Run | cpp/src/include/toroni/tp/reader.hpp:139-147 | a notification schedules a pass with the whole list, unless that is empty |
| TopicReading.TopicReader.Dispatch | cpp/src/include/toroni/tp/reader.hpp:168-180 | hands one message to every channel reader it is for, each parsing the whole message |
| TopicReading.TopicReader.ReadRmp | cpp/src/include/toroni/tp/reader.hpp:157-187 | handlers are called for exactly the messages logged since the last read, in log order and then in reader order; an event iff the read did not reach the stream end; nothing when inactive |
| Subscriptions.ServedIsFanOut | cpp/src/include/toroni/tp/reader.hpp:157-187 | the calls of a pass, each with the log record it comes from, are the fan-out of the messages read |
| Subscriptions.ServedExactly | cpp/src/include/toroni/tp/reader.hpp:168-180 | a channel reader is called for a record of a pass iff it accepts the record's message |
| Subscriptions.NothingFromGaps | cpp/src/include/toroni/tp/reader.hpp:200-230 | over every sequence of additions, removals, writes and scheduled passes, no call comes from a message logged while there was no channel reader, and calls since the last activation come from messages logged since |
| Subscriptions.OnlyPendingOrAwaited | README.md:33 | whatever follows its addition, a channel reader is called for a message logged or created before only if it was pending or queued then |
| Subscriptions.EarlierLoggedExactly | README.md:33 | a channel reader can be called for a message logged before its addition iff the list was not empty, no pass was scheduled, and the ring reader still had a message in front of it that the new one accepts |
| Subscriptions.EarlierCreatedExactly | README.md:33 | a channel reader can be called for a message created before its addition iff that holds or a message it accepts was created and not yet logged |
| Subscriptions.EarlierMessagesArrive | README.md:33 | for every post and every channel reader it is for: runs in which the reader is called for the post although it was created, or logged, before the reader was added |
| Reception.InOrderOnce | cpp/src/include/toroni/tp/reader.hpp:157-187 | over every sequence of steps, calls are made in log order, for one message in the order of addition, and at most once per channel reader and message |
| Reception.CalledExactly | cpp/src/include/toroni/tp/reader.hpp:139-187 | as long as a channel reader stays in the list, it was called for a record read past iff it accepts the message and no pass scheduled before its addition has read it |
| Reception.NothingMissed | cpp/src/include/toroni/tp/reader.hpp:139-187 | with no pass scheduled when it was added, a channel reader in the list was called for every message it accepts among those logged since and read past |
| Reception.MissableExactly | cpp/src/include/toroni/tp/reader.hpp:139-187 | a channel reader can miss a message created and logged after its addition, if it accepts one that would be read back next, iff a pass was scheduled before |
| Reception.MessageMissed | cpp/src/include/toroni/tp/reader.hpp:139-187 | for every buffer, every message that fits and every channel reader that accepts it, a run in which the reader misses it |
| Reception.RemovedCalledExactly | cpp/src/include/toroni/tp/reader.hpp:217-230 | a removed channel reader that accepts some message that fits can still be called iff a pass scheduled with it has not read yet |
| StationRuns.RemovedExactly | cpp/src/include/toroni/tp/reader.hpp:217-225 | in a list in order of addition a removal takes out the reader named and nobody else |
| StationRuns.ListedExactly | cpp/src/include/toroni/tp/reader.hpp:200-230 | over every run a channel reader is in the list from its addition until its own removal, whatever others come and go, and not otherwise |
| StationRuns.PassesAreScheduled | cpp/src/include/toroni/tp/reader.hpp:139-147 | over every run the passes still to run are those scheduled, each with the list of its notification, in order, without those that have run |
| StationRuns.NoEmptyPass | cpp/src/include/toroni/tp/reader.hpp:142-144 | no pass is ever scheduled for an empty list |
| StationRuns.FirstMissesNothing | cpp/src/include/toroni/tp/reader.hpp:139-147 | however many notifications came before, the first channel reader ever added is called for every message it accepts among those logged since and read past |
| StationRuns.LoggedOrQueued | cpp/src/include/toroni/tp/asyncWriter.hpp:137-174 | over every run each message created is still queued or in the log, once, under the number it was created with |
| StationRuns.GapsExactly | cpp/src/include/toroni/tp/reader.hpp:200-230 | the records `NothingFromGaps` excludes are exactly those logged while there was no channel reader |
| StationRuns.SinceOpening | cpp/src/include/toroni/tp/reader.hpp:200-208 | what `NothingFromGaps` calls the last activation is the last addition to an empty list |
| SplitPasses.WholePass | cpp/src/include/toroni/tp/reader.hpp:157-187 | a pass read record by record that nothing comes between comes to the one step it is in Subscriptions |
| SplitPasses.SessionsSurvive | cpp/src/include/toroni/tp/reader.hpp:157-187 | with passes read record by record, as long as the list is not emptied inside a pass: no call comes from a message logged while there was no channel reader, and calls are in log order, once per channel reader and message |
| SplitPasses.GapServed | cpp/src/include/toroni/rmp/reader.hpp:74-127 | for every buffer, message that fits and channel reader accepting it, a run in which the list is emptied inside a pass and the removed reader is called for the message logged after that |
| SplitPasses.CalledExactly | cpp/src/include/toroni/tp/reader.hpp:157-187 | as long as a channel reader stays in the list and the list is not emptied inside a pass, it was called for a record read past iff it accepts the message and the record comes after the last one read by a pass that lacks it |

## Left out

- Shared memory mapping, JNA and Unsafe addressing, structure offsets: operating system and foreign calls; the memory is an array plus fields.
- Pthread mutex internals (cpp/src/include/toroni/traits/posix/robustProcMutex.hpp): taken as the lock contract under Assumptions.
- UDP multicast notification: input and output; a notification is an event.
- SerialWorkItemQueue: work items are assumed to run one at a time, in order; timing and stop flags are not modelled.
- Counters other than backpressure, expired readers and notifications; test agents, benchmarks, build files.
- Weak memory: steps are sequentially consistent.
- Java deviations: the publishing lag of B instead of B/2, the flag test against one, the live list of channel readers, a last-closed event on an empty list and the order of stores on activation follow C++.
- ReaderInfoTable.ReaderInfo.UpdateActiveRange: does not model overlapping calls of several processes, because a swap can then succeed on an unchanged word after the slots changed; failed swaps are modelled by a count.
- Protocol.Apply: the writer inspects all slots and not the packed range, because range updates that overlap are not modelled; `Slots.RangeExact` and `Writer.DetectReaderBackpressure` show that the range loses no slot when updates complete. Setting and inspecting a slot, two accesses each, are one step.
- Protocol.ReaderStep: does not model a reader deactivated or reactivated in the middle of a read, which the two work queues of the library would allow; SplitPasses has the deactivation, on the log. The comparison with the stream end and the update of the reader's slot are one step, and bytes are loaded in ascending order.
- SplitPasses.SessionsSurvive: does not model the bytes, nor where the ring reader gets to when an activation overwrites its position inside a read; the condition excludes that, because the list must have been emptied inside the pass before.
- TornReads.NeverPastStreamEnd: a failed bounds assertion ends the reader; builds without assertions are not modelled.
- ComesToRest.EverybodyComesToRest: says that such a continuation exists; how steps are scheduled is not modelled, and handlers that wait forever are not excluded.
- ProtocolRuns.ReadersOverRun: is stated for clean runs, because it is false for byte-level stores with forced writes (`TornReadExists`); atomic and honoured runs are clean.
- ProtocolRuns.TotalOrder: is stated for clean runs, for the same reason.
- ProtocolRuns.ConfirmedAsLogged: is stated for clean runs, for the same reason.
- ProtocolRuns.ReadersAgree: is stated for clean runs, for the same reason.
- ProtocolRuns.SuccessMissesNothing: is stated for clean runs, for the same reason.
- Delivery.InvOverRun: is stated for clean runs, for the same reason; `Delivery.HonouredIsClean` and `Delivery.AtomicIsClean` give them.
- Delivery.PostedToConfirmed: is stated for clean runs, as `Delivery.InvOverRun`.
- ReaderProgress.FinishesAlone: how soon a reader or writer is scheduled is not modelled; a reader that is not left alone can have more and more to read.
- Ring.BackPressureHandler.Call: stands for the application's handler by a finite script of waits, then "write anyhow"; handlers that wait forever occur in the state machine only.
- Ring.Writer.WriteEx: lock acquisition is not modelled in the class; the state machine has it.
- RingReader.Reader.ReadEx: no writer moves during the call in the class; reads interleaved with writers are the business of the state machine.
- RingReader.ReaderWithBackpressure.ReadEx: no writer moves during the call, as for `Reader.ReadEx`.
- TopicReading.TopicReader.ReadRmp: no writer moves during the call. It calls the handlers after the read instead of inside each confirmation, in the same order.
- Subscriptions.EarlierCreatedExactly: additions, removals, writes and passes are one step each; an activation or a write in the middle of a pass is not modelled there.
- Subscriptions.EarlierLoggedExactly: a pass is one step, so messages logged in the middle of one are not modelled.
- Subscriptions.NothingFromGaps: a pass is one step; `SplitPasses.SessionsSurvive` has the same for passes read record by record, and `SplitPasses.GapServed` the condition it needs.
- Reception.CalledExactly: a pass is one step; `SplitPasses.CalledExactly` has the same for passes read record by record.
- Reception.InOrderOnce: a pass is one step; `SplitPasses.SessionsSurvive` has the same for passes read record by record.
- StationRuns.FirstMissesNothing: a pass is one step, as in Reception.
- TopicReading.PostedIsDelivered: the list is given; which list a pass has is the subject of `Reception.CalledExactly`.
- JavaTopics.Serialize: names are bytes, so the size computed from the number of characters is right for ASCII names only, as in the Java code.
- Topics.DeserializeAndFilter: a name without NUL inside the message gives the verdict `Unterminated`; the C++ scan would run on past the message.
- Topics.Serialize: the wrap-around of 32-bit sizes is not modelled, because messages are limited by the buffer.
- Channel reader generations: never incremented in the library; in Subscriptions they are part of the filter and nothing else rests on them.
