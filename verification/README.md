# A model of the Trajectory collector and its lake readers

Trajectory captures agent telemetry at least once and lands it in an object-store lake from which
trajectories and outcome labels are read back. This project models its stateful cores in Dafny and
proves what they keep over whole runs.

| files | part of the system |
|---|---|
| `Basics`, `Dedup` | options, filters, stable sorting, first-wins deduplication |
| `Frame`, `Damage`, `SegmentLog`, `Queue`, `Evict`, `Evicted`, `Buffer` | the disk buffer: record frames, damage and recovery, the segmented log and its refinement of a FIFO queue, eviction and what it costs, the class with its loops |
| `AtLeastOnce`, `Exposure`, `Resume`, `LostPlace`, `Sizing`, `SizingReopened`, `Delivery` | runs of append, delivery, crash and reopen; what a dead letter exposes; when a reader finds its place; the byte bound; the deliverer |
| `Episode`, `Close`, `Assembler`, `Lifecycle`, `Conserve`, `AssemblerImpl` | the assembler: absorbing envelopes, canonical steps, the bounded state machine, why episodes come out, conservation of spans, the class |
| `LakeSink`, `Publication`, `Ledger`, `TimeRange`, `SinkImpl`, `Payload`, `LakeWrite` | the lake sink: interleaved writes and flushes, manifest-last publication, row accounting, the time range, the class, payload externalisation, and both together |
| `LakeRead`, `LateRuns`, `Load`, `LoadImpl` | the reader: step deduplication, late arrival, from assembler runs to the reader, loading a lake |
| `Join`, `Identity`, `Attribution`, `Labels`, `JoinImpl` | the as-of outcome join: deduplication, attribution, what a label says, the loops |
| `Redact`, `Sample` | merge and splice of detected entities; hash sampling |

State that the program updates in place is a class whose methods are proved against a function of
the old state; the properties are proved about that function, or about every run of a step system
that the class follows. Checksums, digests, FNV, time stamps, clocks, fresh ids and the answers of
the sink, the store and the file system are parameters, so each theorem holds for all of them.

## What does not hold as documented

Where a promise fails, the code is modelled as it is, and the exact condition is proved.

- A payload over 512 MiB is accepted by `Append` but cannot be read back (`Frame.DecodeEncode`,
  `Queue.WriteAppends`); if its length modulo 2^32 is over 512 MiB, it also hides every record stored
  behind it in its segment (`Queue.TooLongHides`).
- The segment left unsealed by a reopening is never deleted until something seals it. If a
  dead-letter acknowledgement deletes a later segment and an earlier record of the batch is then
  acknowledged, the cursor points into the deleted segment, and reads return nothing although
  undelivered records are pending: exactly when a segment before the deleted one stays
  (`Resume.PlaceLost`, and for one acknowledgement `Resume.AckLoses`; a run that does it:
  `LostPlace.PlaceLostInRun`). It cannot happen while every segment but the last is sealed and
  deletions succeed, nor without a permanent error (`Resume.RunTight`, `Resume.Redelivered`).
- A dead-letter acknowledgement happens before the batch commits, so records of the batch accepted
  before it are passed without a commit: these and no others (`Exposure.PassedExactly`).
- Segment ids are used again after an eviction that drops the last segment, also when an unsealed
  leftover remains below it; the next records are then below the cursor and invisible
  (`Evicted.RecordAfterExpiry`, `Evicted.ExpiryBlinds`, `Evicted.RecordAfterOldest`). Evictions
  do not save the cursor, so an id can also be used again under the persisted one. Age eviction can
  skip surviving records (`Evict.ExpiryKeepsQueue`, `Evicted.ExpiryReads`).
- After a restart an append may be refused although the sizing rule holds, because dropping one
  small segment does not make enough room, or there is none to drop
  (`SizingReopened.RestartRefuses`); with room for two full segments and a record, repeating it
  succeeds (`SizingReopened.ReopenedBound`).
- Assembly is order-independent only while earliest sightings are unique and first-wins fields agree
  (`Episode.OrderIndependence`, `Episode.FieldIndependence`, `Episode.RawIndependence`).
- Late steps collide with originals once an episode has more than 2^20 steps
  (`LakeRead.NoStepLost`).
- A failed put abandons every row of the flush outside the failing unit, and a failed manifest put
  abandons the batch (`Ledger.AbandonedExactly`, `Ledger.NothingAbandoned`).
- The time range of a manifest takes a least time of 0 for "none yet" and starts its greatest time
  from 0 (`TimeRange.RangeExact`).
- A "final" label can change when an outcome inside the horizon is observed late
  (`Attribution.FinalLabelChanges`, `Join.FinalStaysIff`, `Attribution.FinalNeverChanges`).
- Outcomes without an id whose fields contain NUL can be taken for one another, and one is dropped
  (`Identity.SeparatorMixesUp`; otherwise `Identity.IdentityExact`). A changed payload with the same
  checksum is not noticed (`Damage.DamageSeen`).
- With attribution "all", an episode that lists a key twice gets the outcome twice
  (`Attribution.AllTouch`).

## Model

| member | source | states |
|---|---|---|
| `Frame.DecodeEncode` | collector/buffer/frame.go:36-76 | A frame placed anywhere in a file reads back as the payload, time and end offset written, if and only if the payload is at most 512 MiB; `Append` itself sets no limit. |
| `Frame.EncodedFields` | collector/buffer/io.go:57-63 | All four header fields and the payload of a frame can be recovered at any offset, the length modulo 2^32. |
| `Frame.DecodeLocal` | collector/buffer/frame.go:36-76 | Decoding looks at no byte past the end of the record it returns. |
| `Frame.DecodeTorn` | collector/buffer/frame.go:36-76 | A file cut inside a record reports an unexpected end there, never a record. |
| `Frame.ParseAppend` | collector/buffer/io.go:57-73 | Appending a frame to a whole segment appends exactly that record to what a reader gets from any boundary, if and only if the payload can be read back. |
| `Frame.ParseCut` | collector/buffer/frame.go:90-121 | Cutting a segment at any byte keeps exactly the records that end at or before the cut, and the scan stops at the end of the last of them. |
| `Frame.ParseTruncated` | collector/buffer/frame.go:90-121 | Truncating where the scan stops loses no readable record and leaves only whole ones. |
| `Frame.CorruptHides` | collector/buffer/frame.go:36-121 | Once the scan has stopped at a record that is not merely incomplete, whatever is written behind it in the segment is never read and does not move the scan. |
| `Frame.TooLongStops` | collector/buffer/frame.go:36-76 | A payload whose length field exceeds the limit leaves the scan of a whole segment at its own header. |
| `Frame.TruncateTorn` | collector/buffer/frame.go:90-121 | The scanning loop cuts the file at the first unreadable record; what a reader could reach is unchanged and nothing else is left. |
| `Frame.ParseSegment` | collector/buffer/frame.go:36-76 | Decoding inverts framing for a whole segment of any records of readable length. |
| `Frame.TornRecovery` | collector/buffer/frame.go:90-121 | For any records and any cut, recovery keeps, byte for byte, the longest prefix of whole records that fits. |
| `Damage.DecodeExact` | collector/buffer/frame.go:36-76 | A record is returned if and only if the bytes at the offset are exactly its frame and it is at most 512 MiB long: magic, length, checksum and time are all looked at. |
| `Damage.ChangedPayload` | collector/buffer/frame.go:66-69 | A payload that became one of the same length with another checksum is refused as corrupt, anywhere in a file. |
| `Damage.ChangedHeader` | collector/buffer/frame.go:46-69 | So is a frame with any one byte of the magic or of the checksum changed. |
| `Damage.DamageCuts` | collector/buffer/frame.go:90-121 | A segment with a damaged record k is read as exactly the k records before it, and truncating where the scan stops leaves exactly their bytes, whatever follows. |
| `Damage.DamageSeen` | collector/buffer/frame.go:90-121 | For any segment, record and new payload of the same length: if the checksum changed, recovery keeps exactly the records before it, byte for byte; if not, every record is read, the damaged one as it now is. |
| `SegmentLog.ReadsReturn` | collector/buffer/io.go:458-511 | Reading from an aligned position returns exactly the records beyond it, in order and across segment hops, when the position resolves to a segment, and nothing at all when it does not. |
| `SegmentLog.ReadBytes` | collector/buffer/io.go:372-385 | The bytes of a whole segment beyond a boundary are its remaining records, framed. |
| `Queue.WriteAppends` | collector/buffer/io.go:53-79 | A write puts its record and nothing else at the end of the log if and only if the payload is at most 512 MiB; no cursor, even one past a truncated end, has already passed the new record. |
| `Queue.WriteEnqueues` | collector/buffer/io.go:53-79 | The undelivered queue after a write is the queue before it with the new record at the back. |
| `Queue.WriteKeepsWf` | collector/buffer/io.go:102-140 | Opening, growing and sealing segments keeps the log well formed and a findable place findable. |
| `Queue.EnsureActiveKeeps` | collector/buffer/io.go:102-122 | Opening a fresh segment changes nothing a reader sees. |
| `Queue.StuckHides` | collector/buffer/io.go:57-79 | Behind such a record in the open segment every further append is stored and never read, until the segment is full. |
| `Queue.TooLongHides` | collector/buffer/io.go:57-79 | A payload over 512 MiB (its length taken modulo 2^32) is stored, is unreadable, and hides every record stored behind it in its segment, however short. |
| `Queue.ReclaimKeeps` | collector/buffer/io.go:247-260 | Reclaiming loses no undelivered record and no findable place, whichever files the system lets go of. |
| `Queue.AckDrops` | collector/buffer/io.go:232-260 | Acknowledging the k-th record returned drops exactly the records through it, however many segments are reclaimed, and the reader still finds its place. |
| `Queue.PendingIsFramed` | collector/buffer/io.go:372-385 | PendingBytes is the framed size of the undelivered records. |
| `Queue.PendingBytesExact` | collector/buffer/io.go:372-385 | PendingBytes is the framed size of exactly what later reads return if and only if the cursor resolves or nothing is left. |
| `Queue.OpenRecovers` | collector/buffer/buffer.go:172-244 | After a crash at any byte beyond the synced ones, reopening gives a well-formed log with exactly the records inside the surviving bytes, and the cursor resolves exactly when the persisted one did. |
| `Evict.AppendEnqueues` | collector/buffer/io.go:36-80 | An append that needs no eviction is stored, enqueues its record and changes nothing else. |
| `Evict.AppendAfterEmptied` | collector/buffer/io.go:102-110 | With no segment left, the next record is read back if and only if the cursor had not moved beyond the start of segment 1. |
| `Evict.EmptiedListHidesRecord` | collector/buffer/io.go:297-322 | A concrete family: a sealed segment expires, the list empties, and a record accepted afterwards is never returned and never counted as pending. |
| `Evict.PushedPastIs` | collector/buffer/io.go:297-322 | Age eviction leaves the cursor just behind the last dropped segment at or beyond it. |
| `Evict.ExpiryKeepsQueue` | collector/buffer/io.go:297-322 | Age eviction keeps every surviving undelivered record in the queue if and only if no dropped segment at or beyond the cursor lies above a surviving one that still holds such a record; what reads then return is in the next rows. |
| `Evicted.NextSeen` | collector/buffer/io.go:102-122 | From any position, reads return the next record stored if and only if the position lies before every segment, names one of them, or is the very start of the segment about to be opened. |
| `Evicted.ExpiryWf` | collector/buffer/io.go:297-322 | Age eviction keeps the log well formed, its cursors within reach, if and only if the last segment stays. |
| `Evicted.ExpiryReads` | collector/buffer/io.go:297-322 | As long as it stays, the queue left is exactly the undelivered records of the segments left that are not below a dropped one at or beyond the cursor, and reads return all of it, in order, or nothing, as the pushed cursor finds its place or not. |
| `Evicted.RecordAfterExpiry` | collector/buffer/io.go:297-322 | The record stored after an age eviction is read back if and only if the last segment stayed and the pushed cursor finds its place; with no gap in the ids, if and only if the last segment stayed; from the persisted cursor, which eviction does not move, exactly when that finds it. |
| `Evicted.ExpiryBlinds` | collector/buffer/io.go:297-322 | If the last segment goes, nothing that remains and nothing stored next is read or counted as pending. |
| `Evicted.OldestWf` | collector/buffer/io.go:269-294 | Exactly when byte eviction keeps the log well formed: the persisted cursor is not beyond the last segment left, or nothing was ever delivered if none is. |
| `Evicted.OldestQueue` | collector/buffer/io.go:269-294 | Byte eviction costs the undelivered records of the segment dropped and no others; a cursor at or before it goes back to the oldest segment left, and what is left is read in order. |
| `Evicted.RecordAfterOldest` | collector/buffer/io.go:269-294 | The record stored after a byte eviction is read back if and only if segments are left and the cursor went back to them or finds its place, or none are left and it had not moved beyond the start of segment 1; likewise for the persisted cursor. |
| `Evicted.AppendSeen` | collector/buffer/io.go:21-81 | Append as a whole: a record it stores is read back, now or by the next process, exactly when the live or the persisted cursor finds it among the segments that making room has left. |
| `Evicted.IntactReopen` | collector/buffer/buffer.go:172-244 | Reopening an intact directory changes nothing that reads return from any position. |
| `BufferImpl.Buffer.Recover` | collector/buffer/buffer.go:172-272 | Opening a directory scans and truncates every segment, reports exactly the bytes lost, leaves only the last one unsealed, and takes the cursor from the saved state, or from the very beginning if that is missing or cannot be parsed. |
| `BufferImpl.Buffer.ReadFrom` | collector/buffer/io.go:458-511 | Returns the first of the records that reads from this position return, hopping over exhausted segments, and moves nothing. |
| `BufferImpl.Buffer.PeekAfter` | collector/buffer/io.go:445-454 | After a batch already peeked, returns the record of that position in the queue. |
| `BufferImpl.Buffer.Next` | collector/buffer/io.go:157-211 | Returns the first undelivered record, moves the cursor over exhausted segments only, and changes nothing that reads return. |
| `BufferImpl.Buffer.PendingBytes` | collector/buffer/io.go:372-385 | Returns the framed size of the undelivered records, which is that of what reads return when the cursor resolves. |
| `BufferImpl.Buffer.ReclaimLocked` | collector/buffer/io.go:247-260 | The in-place loop deletes exactly the sealed segments behind the cursor and keeps the byte count. |
| `BufferImpl.Buffer.Ack` | collector/buffer/io.go:232-244 | Moves and persists the cursor and reclaims: the whole new state. |
| `BufferImpl.Buffer.EvictOldestLocked` | collector/buffer/io.go:269-294 | Drops the oldest sealed segment, repairs the cursor, reports exactly the bytes dropped, and takes no undelivered record out of the queue but those of that segment. |
| `BufferImpl.Buffer.EvictExpired` | collector/buffer/io.go:297-322 | Drops expired sealed segments in one pass, pushes the cursor past them and accounts for the bytes. |
| `BufferImpl.Buffer.EnsureActiveLocked` | collector/buffer/io.go:102-122 | Opens segment last+1, or 1, unless the last one can be appended to. |
| `BufferImpl.Buffer.WriteLocked` | collector/buffer/io.go:53-79 | Writes one frame and seals the segment once it is full. |
| `BufferImpl.Buffer.Append` | collector/buffer/io.go:21-81 | Reclaims, then evicts once, then refuses with nothing written, or writes; reports the bytes evicted. |
| `AtLeastOnce.StepInv` | collector/buffer/delivery.go:127-268 | Every step of append, sync, peek, send, dead-letter, commit, ack, give up, crash and reopen keeps the delivery invariant. |
| `AtLeastOnce.RunInv` | collector/buffer/delivery.go:127-268 | Hence every state of every run satisfies it. |
| `AtLeastOnce.AppendInRun` | collector/buffer/io.go:28-79 | The appends of these runs are exactly those of readable records that are stored without an eviction. |
| `AtLeastOnce.PoisonInv` | collector/buffer/delivery.go:257-267 | Dead-lettering acknowledges a record while the records of its batch accepted before it are uncommitted; exactly these become exposed, and the invariant is kept. |
| `AtLeastOnce.DeliveredAtLeastOnce` | collector/buffer/delivery.go:180-268 | In every run, a record that was ever synced is passed by the persisted cursor only if it was dead-lettered, committed, or exposed by a dead letter behind it in its batch, and without a permanent error in its batch only if Commit returned; otherwise, after a crash at that moment with any surviving bytes, it is on disk beyond the cursor and is read again if and only if the cursor resolves. |
| `Exposure.PassedExactly` | collector/buffer/delivery.go:185-205 | In every run, a synced record that is neither committed nor dead-lettered has been passed by the persisted cursor if and only if it was accepted and then exposed by a dead letter behind it in its batch. |
| `Resume.EveryPlaceFound` | collector/buffer/io.go:458-511 | Every position within reach resolves if and only if the segment ids have no gap. |
| `Resume.AckLoses` | collector/buffer/io.go:232-260 | In any well-formed log an acknowledgement loses the place if and only if its record's segment is gone and an older segment is unsealed or cannot be deleted. |
| `Resume.PlaceLost` | collector/buffer/io.go:232-260 | Acknowledging a dead letter and then an earlier record loses the place if and only if the earlier record's segment was sealed and could be deleted and a segment before it is unsealed or could not; then reads return nothing, whatever is pending. |
| `LostPlace.PlaceLostInRun` | collector/buffer/delivery.go:185-205 | A run from an empty directory - one reopening, one dead letter - after which a synced record that nobody delivered is pending, and reads return nothing, now and after every crash and reopening. |
| `Resume.AckTight` | collector/buffer/io.go:232-260 | If every segment but the last is sealed, the ids have no gap and deletions succeed, an acknowledgement keeps it so. |
| `Resume.RunTight` | collector/buffer/delivery.go:127-268 | In every run, dead letters and crashes included, whose deletions succeed and that appends nothing behind an unsealed leftover, the directory has no gap. |
| `Resume.GapFreeResolves` | collector/buffer/io.go:458-511 | A well-formed log without a gap is always resumed from where it was left. |
| `Resume.RunInPlace` | collector/buffer/delivery.go:127-212 | In runs without a permanent error the cursor always resolves, whatever gaps there are. |
| `Resume.Redelivered` | collector/buffer/buffer.go:172-297 | In every run, dead letters and any number of crashes included, if the ids on disk have no gap or nothing was dead-lettered, every synced record is delivered or is returned again after reopening; with no dead letter, committed or returned again. |
| `Resume.SmoothRedelivered` | collector/buffer/buffer.go:172-297 | The same from a condition on the steps alone: deletions succeed and nothing is appended behind an unsealed leftover. |
| `Resume.StateLost` | collector/buffer/buffer.go:252-272 | A state file that is missing or cannot be parsed costs only repetition: everything on disk is read again. |
| `Sizing.RoomFor` | collector/buffer/io.go:37-51 | With the sizing rule the room an append makes suffices and never costs the last segment. |
| `Sizing.SizingBound` | collector/buffer/io.go:37-80 | In every run from an empty directory with SegmentBytes >= F and MaxBytes >= SegmentBytes + 2F, the byte count is the sum of the segments and within MaxBytes, the next append is stored, and byte eviction never empties the list. |
| `SizingReopened.RefusedDrops` | collector/buffer/io.go:37-51 | With MaxBytes >= 2 SegmentBytes + F and restarts at any moment, an append is stored or has dropped a sealed segment. |
| `SizingReopened.ReopenedBound` | collector/buffer/io.go:37-80 | In every run with restarts and any surviving bytes the byte count is the sum of the segments and within MaxBytes, and the next record is stored after at most as many refusals as there are sealed segments. |
| `SizingReopened.RestartRefuses` | collector/buffer/io.go:37-51 | A run under the sizing rule with one restart after which an append is refused: nothing is sealed, so nothing can be dropped. |
| `Delivery.PathInv` | collector/buffer/delivery.go:127-268 | What the deliverer does is a path of the step system, so the invariant of runs holds in each of its states. |
| `Delivery.PassedShrinks` | collector/buffer/io.go:372-385 | Moving the cursor to the end of an undelivered record strictly decreases PendingBytes. |
| `Delivery.BatchShrinks` | collector/buffer/delivery.go:180-212 | A batch whose last acknowledgement was of one of its records strictly decreases PendingBytes, reclaimed segments or not. |
| `Delivery.StaysTruthful` | collector/buffer/delivery.go:218-305 | No event enters the history of deliveries that the answers of the sink do not back: accepted, dead, and committed only by a commit after the acceptance. |
| `Delivery.Deliverer.NextBatch` | collector/buffer/delivery.go:158-172 | Peeks a prefix of what reads return, shorter than BatchSize only when that is all there is, and moves nothing. |
| `Delivery.Deliverer.SendOne` | collector/buffer/delivery.go:218-268 | The last answer of the sink decides, and it was asked again only while it failed transiently: accepted if and only if it accepted; stalled if and only if MaxAttempts calls all failed transiently; dead-lettered and acknowledged at once if and only if it refused for good and the dead letter was stored. |
| `Delivery.Deliverer.CommitWithRetry` | collector/buffer/delivery.go:270-305 | Returns nil only after a commit that succeeded, and stalls only after MaxAttempts that did not; retries are counted exactly. |
| `Delivery.Deliverer.SendAll` | collector/buffer/delivery.go:185-193 | Every record of the batch was accepted in this call and waits for the commit, or was refused for good and is dead-lettered; without a dead letter nothing is acknowledged. |
| `Delivery.Deliverer.AckAll` | collector/buffer/delivery.go:201-205 | Acknowledges the committed records in order; the cursor ends at the last of them, and still resolves if it did and they were the next in the queue. |
| `Delivery.Deliverer.Settle` | collector/buffer/delivery.go:195-205 | Nothing is acknowledged unless a commit made in this call succeeded first; then the cursor is at the last record. |
| `Delivery.Deliverer.DeliverBatch` | collector/buffer/delivery.go:180-212 | A nil return strictly shrinks PendingBytes, and every record of the batch was, in this call, refused for good or accepted and afterwards committed; on a failure nothing but dead letters is acknowledged. |
| `Delivery.Deliverer.DrainOnce` | collector/buffer/delivery.go:127-155 | Terminates; an error-free return that did not stall reports what was delivered or dead-lettered and leaves nothing to read; and nothing is pending either if nothing was dead-lettered and the cursor resolved before, as it does after a restart, or, dead letters or not, if before the call every segment but the last was sealed, the ids had no gap and files could be deleted, or if the ids have no gap now. It stalls only after a call that failed transiently, and fails only when cancelled or when a dead letter could not be stored. |
| `Episode.AbsorbSummarises` | collector/assemble/assemble.go:230-302 | Absorbing any envelopes keeps, for each span key, an earliest sighting and nothing else, the least positive start and the greatest end. |
| `Episode.SpansKept` | collector/assemble/assemble.go:230-268 | Of every span that was sent, told apart by span id or else by content, one sighting is kept, no later than any other, and no span twice. |
| `Episode.OrderIndependence` | collector/assemble/assemble.go:230-302 | The span map is the same for every order and multiplicity of the same envelopes if and only if no span has two different earliest sightings. |
| `Episode.TimesIndependent` | collector/assemble/assemble.go:288-301 | Start and end never depend on order or repetition. |
| `Episode.MetaFirstWins` | collector/assemble/assemble.go:264-287 | The four metadata fields and the error of an episode are the first that came, the raw metadata are the last per key, and source and id stay those it was opened with. |
| `Episode.FieldIndependence` | collector/assemble/assemble.go:264-287 | A first-wins field is the same in every order if and only if the envelopes that carry a value agree. |
| `Episode.RawIndependence` | collector/assemble/assemble.go:278-283 | The raw metadata are the same in every order if and only if the envelopes agree on every key they carry. |
| `Close.CanonicalUnique` | collector/assemble/close.go:77-95 | There is one list of the spans in (start, key) order: the sort leaves no trace of the map order. |
| `Close.ParentLinks` | collector/assemble/close.go:96-120 | With no preset link, a step has a parent exactly when its envelope names another span of the episode, and then the index is that span's. |
| `Close.OrderedIds` | collector/assemble/close.go:77-95 | Collecting and sorting the ids gives the canonical list. |
| `Close.Positions` | collector/assemble/close.go:96-100 | Maps every id to its position and nothing else. |
| `Close.LinkedIs` | collector/assemble/close.go:102-118 | A step linked through the positions is the canonical step. |
| `Close.OrderedSteps` | collector/assemble/close.go:77-120 | Returns the canonical, numbered and linked steps. |
| `Close.FidelityOf` | collector/assemble/close.go:129-171 | A flag is set exactly when some step could carry the field and every such step does. |
| `Close.StepsIndependent` | collector/assemble/close.go:77-120 | Contents, order, numbers and parent links of an episode's steps are identical for any two arrival orders of the same envelopes. |
| `Assembling.RememberBounded` | collector/assemble/patch.go:90-105 | Remembering one more session forgets at most the oldest and nothing else. |
| `Assembling.CloseOneBounded` | collector/assemble/close.go:16-24 | Closing one episode removes exactly it from the open set and the order and keeps every bound. |
| `Assembling.ExpireBounded` | collector/assemble/assemble.go:349-369 | After expiring, every open episode was seen within the window and is not settled after a terminal marker; those that left came out once each, as they were: complete if settled, else timed out after a whole window. |
| `Assembling.FlushBounded` | collector/assemble/assemble.go:304-328 | Stopping closes every episode once, as it was: complete if its terminal marker had come, else with the status given. |
| `Assembling.RunBounded` | collector/assemble/assemble.go:158-227 | In every reachable state: at most MaxInFlight open, at most PatchMemory remembered, never both, the lists duplicate-free enumerations, and span and patch bookkeeping only for remembered sessions. |
| `Lifecycle.ArrivalTimes` | collector/assemble/assemble.go:226-302 | An episode was last seen when its last span came, and has been terminal since the first terminal marker did. |
| `Lifecycle.ArrivedFor` | collector/assemble/assemble.go:159-167 | An arrival counts for the session its envelope names, and one that names none for a session of its own. |
| `Lifecycle.OpenAbsorbed` | collector/assemble/assemble.go:157-224 | After any run every open episode has absorbed exactly the arrivals of its session since the event that opened it, in order. |
| `Lifecycle.RunExplained` | collector/assemble/assemble.go:157-370 | Everything a run emits has one of five reasons, seen in the state before one event: late span, eviction of the oldest at capacity, settled, idle, stopped; and a closed episode holds exactly the arrivals of its session from its opening to that event. |
| `Lifecycle.StatusMeans` | collector/assemble/assemble.go:304-370 | Over whole runs: complete only the settle time after the first terminal marker, timed out only a window after the last arrival, and on a stop complete if and only if a terminal marker came. |
| `Conserve.SpanConservation` | collector/assemble/assemble.go:158-227 | In every run ending in a flush each added span is emitted at least once, and exactly once if the sessions closed never exceed PatchMemory. |
| `Conserve.ForgottenComesTwice` | collector/assemble/patch.go:90-105 | Once a session is forgotten, its span sent again is emitted again. |
| `Conserve.PatchesNumbered` | collector/assemble/patch.go:70-82 | While no session is forgotten, the patches of an episode are numbered consecutively from 2^20. |
| `AssemblerImpl.Render` | collector/assemble/close.go:26-67 | The emitted episode carries the canonical steps, their count, all fidelity flags and the first-wins fields. |
| `AssemblerImpl.Assembler.RememberEmitted` | collector/assemble/patch.go:90-105 | The eviction loop trims the FIFO and every map keyed by it. |
| `AssemblerImpl.Assembler.MarkAll` | collector/assemble/close.go:20-24 | Marks every span of a closed episode, in any order. |
| `AssemblerImpl.Assembler.CloseLocked` | collector/assemble/close.go:16-67 | Closes in place: the new state is the close step and the result renders the closed episode. |
| `AssemblerImpl.Assembler.ExpireLocked` | collector/assemble/assemble.go:349-369 | The scan closes exactly the episodes that reached a deadline, with its status, and hands them on rendered. |
| `AssemblerImpl.Assembler.FlushAll` | collector/assemble/assemble.go:309-325 | Closes everything oldest first, complete if the terminal marker had come, else with the status given. |
| `AssemblerImpl.Assembler.PatchFor` | collector/assemble/patch.go:24-66 | Emits a one-step patch of the remembered episode, with the envelope's source, start and metadata but not its raw map, and marks the span. |
| `AssemblerImpl.Assembler.OpenLocked` | collector/assemble/assemble.go:192-216 | Makes room by closing the oldest episode when full, then opens the session. |
| `AssemblerImpl.Assembler.Ingest` | collector/assemble/assemble.go:158-227 | One envelope: dropped as seen, turned into a patch, or absorbed, followed by expiry; hands on exactly what was emitted. |
| `Dedup.Compact` | pkg/lakeread/lakeread.go:177-184 | In-place compaction with a seen set leaves exactly the first row of each key, in order. |
| `LakeRead.DedupeSteps` | pkg/lakeread/lakeread.go:168-185 | Sorts by time and index and drops repeated indices in place. |
| `LakeRead.DedupedFacts` | pkg/lakeread/lakeread.go:168-185 | What is left is sorted, has distinct indices, comes from the rows and has one row per index present. |
| `LakeRead.RedeliveryInvisible` | pkg/lakeread/lakeread.go:168-185 | Whatever copies of the rows are delivered in whatever order, the reader gets each row once in time order. |
| `LakeRead.PatchesAreLateRows` | collector/assemble/patch.go:24-82 | In a run that forgot no session, the j-th patch of an episode is the row with index 2^20 + j. |
| `LakeRead.IndicesDistinct` | collector/assemble/patch.go:24-82 | Original and patch indices never collide if and only if at most 2^20 spans were on time or none was late. |
| `LakeRead.NoStepLost` | pkg/lakeread/lakeread.go:168-185 | The reader loses no step, whatever copies arrive, if and only if that holds. |
| `LakeRead.ReadContents` | pkg/lakeread/lakeread.go:168-185 | From any copies of an episode's rows the reader gets the content of every span kept, on time or late, once each and in time order. |
| `LakeRead.LateArrivalInvisible` | pkg/lakeread/lakeread.go:168-185 | For any split of a session's spans into on time and late and any copies, the reader gets the same steps in time order as if all had been on time, up to index, parent and tie order. |
| `LateRuns.RunReadBack` | collector/assemble/patch.go:24-85 | In every run that forgot no session, any copies of exactly the rows emitted for an episode, as the episode and as patches, are read as every span the assembler kept, once each and in time order. |
| `Load.LoadedFacts` | pkg/lakeread/lakeread.go:70-134 | The loaded trajectories are exactly the original rows, each once, with their deduplicated steps and patch mark, in (start, id) order. |
| `Load.LoadedMeans` | pkg/lakeread/lakeread.go:66-134 | The whole lake, row by row and for any files: every episode with an original row exactly once, by start and then id; marked exactly when a patch row names it; of its step rows one for each index, by time and then index. |
| `Load.RedeliveredLake` | pkg/lakeread/lakeread.go:59-134 | Two lakes with the same rows, however often, in whatever files and order, load as the same trajectories. |
| `LoadImpl.AddEpisodes` | pkg/lakeread/lakeread.go:73-92 | One pass separates patches and keeps the first copy of each id. |
| `LoadImpl.AddSteps` | pkg/lakeread/lakeread.go:93-100 | One pass files every step under its episode, in order. |
| `LoadImpl.Gather` | pkg/lakeread/lakeread.go:67-113 | The pass over all files gathers exactly the first copies, the patches, each episode's steps, the outcomes and the rewards, and fails exactly when a file is unreadable. |
| `LoadImpl.StepsFor` | pkg/lakeread/lakeread.go:116-122 | An episode's steps are its rows deduplicated. |
| `LoadImpl.MarkPatched` | pkg/lakeread/lakeread.go:123-127 | An episode is marked exactly when a patch names it. |
| `LoadImpl.LoadFiles` | pkg/lakeread/lakeread.go:59-134 | The imperative reader computes the specified lake with its outcomes and rewards, or fails exactly when a listed file is unreadable. |
| `LakeSink.UnitsAreHeld` | collector/sink/lake/lake.go:241-319 | The objects a flush writes hold exactly the rows it took. |
| `LakeSink.ReturnedHeld` | collector/sink/lake/lake.go:342-353 | What a failed put gives back is part of what that flush held. |
| `Publication.PathsDistinct` | collector/sink/lake/lake.go:241-319 | A flush writes each of its objects under its own name. |
| `Publication.AddedTo` | collector/sink/lake/lake.go:162-176 | An episode is added behind the rows of its partition, whose size grows by it and whose age stays that of its first row; a missing one is opened now; no other is touched. |
| `Publication.RestoredTo` | collector/sink/lake/lake.go:342-353 | Rows given back go behind what their partition has collected since, sizes added, or are its first. |
| `Publication.StepPub` | collector/sink/lake/lake.go:150-353 | Every write, start, put, failed put and manifest of any interleaving keeps the publication invariant. |
| `Ledger.RowAccounting` | collector/sink/lake/lake.go:150-353 | In every reachable state the bag of rows written is visible + pending + held by running flushes + abandoned, so no row is visible more often than written. |
| `Ledger.AllOrNothing` | collector/sink/lake/lake.go:207-339 | Every manifest lists only existing objects with matching counts and totals, shows episodes and steps of each partition together, and belongs to no flush that failed a data put. |
| `Ledger.AbandonedExactly` | collector/sink/lake/lake.go:241-319 | A failed data put abandons nothing if and only if the flush held nothing but the failing unit. |
| `Ledger.NothingAbandoned` | collector/sink/lake/lake.go:207-353 | Nothing has been abandoned in a run if and only if every failure in it was of that kind. |
| `SinkImpl.Sink.Write` | collector/sink/lake/lake.go:162-176 | Buffers every episode and its steps under its partition; the rows written grow by exactly those. |
| `SinkImpl.Sink.WriteOutcomes` | collector/sink/lake/lake.go:180-188 | Appends outcomes and starts the roll clock with the first of them. |
| `SinkImpl.Sink.TakeDue` | collector/sink/lake/lake.go:211-217 | Splits the pending partitions, losing none: due exactly when forced, at the target size, or at the roll interval since the first row. |
| `SinkImpl.Sink.Take` | collector/sink/lake/lake.go:207-236 | Takes the due partitions sorted by key; outcomes when forced, 50000 or a roll interval old; rewards only when forced; and leaves nothing due behind. |
| `SinkImpl.Sink.RestoreLocked` | collector/sink/lake/lake.go:342-353 | Returns a partition's rows, joined to those that arrived meanwhile. |
| `SinkImpl.Sink.PutOne` | collector/sink/lake/lake.go:241-250 | Writes a flush's next object, whatever other flushes are in progress; a failure gives back its unit, ends the flush and publishes nothing. |
| `SinkImpl.Sink.PutParts` | collector/sink/lake/lake.go:241-276 | Writes every due partition's episodes and then its steps, listing exactly the objects written and widening the time range by the episodes. |
| `SinkImpl.Sink.PutTail` | collector/sink/lake/lake.go:278-319 | Writes the outcomes and then the rewards, when there are any, and completes the time range. |
| `SinkImpl.Sink.WriteManifest` | collector/sink/lake/write.go:293-322 | Publishes the manifest of exactly the objects written, with their totals and time range, and abandons nothing on success. |
| `SinkImpl.Sink.Flush` | collector/sink/lake/lake.go:207-339 | With any other flushes in progress: success publishes at most one batch, abandons nothing and leaves only partitions and outcomes below their size and age limits; failure publishes nothing unless the manifest was stored although an error came back. |
| `SinkImpl.CountRows` | collector/sink/lake/lake.go:241-319 | The manifest totals are the sums of the row counts per table. |
| `SinkImpl.Span` | collector/sink/lake/lake.go:257-264 | The loop widens the range by the times of rows. |
| `TimeRange.RangeExact` | collector/sink/lake/lake.go:241-300 | The range of a batch without rewards is from the least to the greatest time of its episodes and outcomes if and only if the greatest is not negative, and the least is not 0 or is that of the last row looked at. |
| `TimeRange.RewardsRange` | collector/sink/lake/lake.go:302-319 | Rewards set the range only when no time, or a least time of 0, was found. |
| `Payload.PayloadRoundTrip` | collector/sink/lake/write.go:65-119 | With a collision-free hash a step that came without a reference reads back as its payload cut at the limit, carries at most one of inline and reference, the reference exactly when the cut payload exceeds the threshold, and Truncated exactly when cut or already set. |
| `Payload.DigestKept` | pkg/lakeread/lakeread.go:147-163 | With no assumption on the hash, what comes back has the digest of what went in. |
| `Payload.CollisionMixesUp` | collector/sink/lake/write.go:135-169 | Two payloads with the same digest cannot both read back. |
| `Payload.ResolveStable` | collector/sink/lake/write.go:130-134 | Blobs added by other collectors change nothing that a reference resolves to. |
| `Payload.RetryConverges` | collector/sink/lake/write.go:65-119 | An attempt after a failed one ends where a single successful attempt would have. |
| `Payload.Externaliser.PutBlob` | collector/sink/lake/write.go:135-169 | The cache answers first, then the store, then the put: it fails exactly when the one asked does, stores and counts exactly a blob that was missing, never overwrites one, and caches only what is stored. |
| `Payload.Externaliser.SettleStep` | collector/sink/lake/write.go:70-114 | One step ends settled with its reference resolvable, or marked and not moved on an error. |
| `Payload.Externaliser.SettleSteps` | collector/sink/lake/write.go:70-114 | An episode's steps, in place. |
| `Payload.Externaliser.Externalise` | collector/sink/lake/write.go:65-119 | All episodes in place; new blobs are listed once each, in digest order, with their sizes. |
| `Payload.Externaliser.Write` | collector/sink/lake/lake.go:150-160 | Fails only when the store did, or for new blobs whose table could not be written; buffers nothing on an error and exactly the settled rows on success; of every row ever buffered the reference resolves if it was made here, and otherwise is the one the row came with. |
| `Payload.Externaliser.BufferRows` | collector/sink/lake/lake.go:162-176 | Hands on every row of every episode, in order, and nothing else. |
| `Payload.FinishedBacked` | collector/sink/lake/write.go:65-119 | A reference resolves in the end if it was made here or resolved when the step came; otherwise it is left as it came. |
| `LakeWrite.AlivePayloads` | collector/sink/lake/lake.go:150-353 | Under any interleaving of writes and flushes with failing puts, with a collision-free hash and payloads settled before rows are written, every step row pending, held or visible is that of a step which resolves to the payload it came with, cut at the limit. |
| `LakeWrite.EstimateBytes` | collector/sink/lake/lake.go:385-394 | The loop adds 512, and 256 and the inline payload for each step. |
| `LakeWrite.Lake.Write` | collector/sink/lake/lake.go:150-177 | The whole of Write: on any error nothing reaches the pending partitions; on success exactly the rows of the settled steps do, each as often as it was settled. |
| `LakeWrite.Lake.Flush` | collector/sink/lake/lake.go:207-339 | Flushing moves rows and adds none. |
| `LakeWrite.StepsResolve` | collector/sink/lake/lake.go:150-353 | In every state these methods lead to, every step row pending, held or visible is the row of a settled step and resolves to the payload that step came with, cut at the limit. |
| `Join.DedupedMeaning` | pkg/join/join.go:250-276 | Of every identity one outcome is kept, and it is an earliest observation. |
| `Identity.IdentityExact` | pkg/join/join.go:256-266 | Two outcomes get the same key if and only if they have the same id, or no ids and the same entity, kind, value and time - as long as no field contains NUL and times are rendered apart. |
| `Identity.DedupedFacts` | pkg/join/join.go:250-276 | No fact is kept twice, and every fact is represented by one that is the same fact, observed no later. |
| `Identity.SeparatorMixesUp` | pkg/join/join.go:256-266 | With NUL inside a field two different outcomes share a key and one is dropped. |
| `Join.SurvivorsKnown` | pkg/join/join.go:187-191 | Filtering by as_of commutes with stable-sorted first-wins deduplication. |
| `Join.NonInterference` | pkg/join/join.go:120-245 | Two lakes that agree on what was observed by as_of give the same labels and attribution counts at as_of. |
| `Join.LateFactInvisible` | pkg/join/join.go:187-191 | Adding or removing an outcome observed after as_of, anywhere in the lake, changes no label. |
| `Join.LabelsGrow` | pkg/join/join.go:187-217 | From a to a later time each label grows by exactly the outcomes observed in between. |
| `Join.LabelSameIff` | pkg/join/join.go:187-217 | A label is the same at two times if and only if no outcome observed in between goes to it. |
| `Join.FinalStaysIff` | pkg/join/join.go:36-46 | A label never changes after as_of if and only if no surviving outcome observed later goes to it. |
| `Attribution.FinalNeverChanges` | pkg/join/join.go:36-46 | A final label never changes when every outcome eligible for it is observed by the end of its horizon. |
| `Attribution.FinalLabelChanges` | pkg/join/join.go:36-46 | Otherwise it can: a concrete final label that a later join changes. |
| `Attribution.RankedFacts` | pkg/join/join.go:175-185 | The index of a key lists exactly the episodes that carry it, newest first. |
| `Attribution.LastTouch` | pkg/join/join.go:197-211 | An outcome goes to one eligible episode of maximal StartedAt, or to none if and only if none is eligible. |
| `Attribution.AllTouch` | pkg/join/join.go:197-211 | With "all", an eligible episode gets an outcome once for every time it lists the key. |
| `Attribution.OnLabelsExact` | pkg/join/join.go:197-217 | The outcomes on all labels together are exactly those placed. |
| `Attribution.LastTouchOnce` | pkg/join/join.go:197-217 | Under last touch every attributed outcome is on exactly one label. |
| `Attribution.LatestMaximal` | pkg/join/join.go:219-229 | Latest of a kind exists exactly when the kind occurs and is the value of a maximal (OccurredAt, ObservedAt) outcome. |
| `Labels.OnLabelFor` | pkg/join/join.go:186-218 | Every outcome on a label shows, field for field, a fact of the lake observed by then, about a key of the episode, between its start and its horizon; under last touch no other such episode started later. |
| `Labels.OnLabelIf` | pkg/join/join.go:186-218 | Conversely no such fact is missing: it is on every episode it touches under "all", and on the latest one under last touch. |
| `Labels.LabelOrder` | pkg/join/join.go:220-232 | Outcomes are listed by the time they happened, then observed; the latest value of a kind is that of a last outcome of it. |
| `Labels.StatusMeans` | pkg/join/join.go:128-172 | Unjoinable exactly without keys; final exactly when the horizon, thirty days by default, has passed since both the start and the end. |
| `JoinImpl.Prepare` | pkg/join/join.go:137-179 | Builds one label per episode and the index by key in lake order. |
| `JoinImpl.RankIndex` | pkg/join/join.go:181-185 | Sorts every key's episodes newest first. |
| `JoinImpl.Dedupe` | pkg/join/join.go:250-276 | Sorts by observation and compacts in place, counting the duplicates. |
| `JoinImpl.Place` | pkg/join/join.go:197-211 | Appends an outcome to exactly the labels it goes to and to no other. |
| `JoinImpl.Attribute` | pkg/join/join.go:187-217 | One pass puts on every label exactly what the survivors put there and counts attributed, unattributed and future outcomes. |
| `JoinImpl.Latest` | pkg/join/join.go:227-229 | Last wins over the sorted outcomes. |
| `JoinImpl.Finish` | pkg/join/join.go:219-243 | Sorts the labels' outcomes in place, takes the latest values and counts the label statuses. |
| `JoinImpl.Run` | pkg/join/join.go:120-245 | Every label is the specified one, and Attributed + Unattributed + FutureObserved + Duplicates is the number of outcomes in the lake; under last touch the labels together hold exactly the attributed ones. |
| `Redact.MergedApart` | collector/redact/detector.go:118-131 | Merged ranges are in order, disjoint and inside the text. |
| `Redact.MergedExactly` | collector/redact/detector.go:118-131 | They cover exactly what the findings cover and join two neighbouring bytes exactly when one finding covers both. |
| `Redact.RangesMeaning` | collector/redact/detector.go:118-131 | The same in terms of whatever the detector returned; each range is named after a usable finding that starts where it does. |
| `Redact.RangeShows` | collector/redact/detector.go:133-160 | The rewritten text is the text before a range rewritten, the token of exactly the original bytes there or the mask with its entity, and the text behind it rewritten. |
| `Redact.UncoveredKept` | collector/redact/detector.go:133-149 | Rewriting keeps every uncovered byte, in order. |
| `Redact.MaskingLeaksNothing` | collector/redact/detector.go:133-149 | Two texts that differ only inside usable findings are masked to the same text. |
| `Redact.HalfwayStep` | collector/redact/detector.go:135-148 | Rewriting from the end finds the original text in every range it has yet to rewrite. |
| `Redact.Redactor.KeepUsable` | collector/redact/detector.go:86-92 | Keeps exactly the findings that are sure enough, non-empty and inside the text. |
| `Redact.Redactor.MergeSorted` | collector/redact/detector.go:118-131 | The loop that extends the last range computes the merge. |
| `Redact.Redactor.Rewrite` | collector/redact/detector.go:133-149 | Back-to-front rewriting equals the left-to-right splice computed from the original text, counts every range under its entity, and fails without a key when tokenizing. |
| `Redact.Redactor.Report` | collector/redact/detector.go:151-157 | One manifest line per entity counted, in order, with its count, and the statistics grow by the counts. |
| `Redact.Redactor.ApplyDetector` | collector/redact/detector.go:105-159 | A failed detector is an error and returns no text; otherwise the splice over the merged usable findings, with one manifest line per kind of entity and as many matches as it had ranges. |
| `Sample.MixBijective` | collector/sample/sample.go:201-208 | mix64 and the explicit inverse undo each other on every 64-bit word. |
| `Sample.MixInjective` | collector/sample/sample.go:201-208 | Different hashes mix to different words and every word is reached. |
| `Sample.KnownValues` | collector/sample/sample.go:199-208 | Two known values of the splitmix64 finaliser. |
| `Sample.HashUnitOnGrid` | collector/sample/sample.go:189-197 | hashUnit lies in [0, 1) on the grid of 2^53 points. |
| `Sample.GridEven` | collector/sample/sample.go:189-197 | Every grid point is the value of equally many 64-bit hashes: one for each setting of the eleven bits cut off. |
| `Sample.HashUnitEven` | collector/sample/sample.go:189-197 | The value of a key is at a grid point if and only if its hash is one of the 2^11 words that mix to it. |
| `Sample.KeepMonotone` | collector/sample/sample.go:156-180 | What is kept at one rate is kept at every higher one, and at every rate the decision is the plain comparison. |
| `Sample.Sampler.Decide` | collector/sample/sample.go:156-180 | The decision and its counters. |
| `Sample.Sampler.HeadKeepFrom` | collector/sample/sample.go:138-154 | One answer per session and source, at the source's own rate when it has one. |
| `Sample.Sampler.TailKeep` | collector/sample/sample.go:216-268 | An episode is dropped only when every rule was evaluated, none held and its hash is not below the rate; a rule that fails keeps it. |

## Left out

- Operating system files: partial writes, failed fsync, rename, flock and read handles are abstracted to a disk whose active segment may lose any bytes past the last sync, and whose sealed segments and saved state survive.
- Encryption of records, CRC-32, SHA-256, HMAC and FNV: uninterpreted functions; collision freedom is assumed only where a statement says so.
- Commit is an oracle whose nil return means durable; the sink that is wired to it does not promise that. A deliverer configured without Commit acknowledges what was accepted; only the configured case is modelled.
- Backoff timing, jitter, contexts beyond a cancellation flag, metrics, logging and tracing.
- Runs in `AtLeastOnce` and `Resume` contain no eviction, because eviction discards records by design; what each eviction does to the queue, to reads and to the next record is proved step by step in `Evict` and `Evicted`, and the byte bound over runs with evictions in `Sizing` and `SizingReopened`.
- Integer widths: byte counts, times and indices are unbounded, except the 32- and 64-bit fields of a frame and the 64-bit words of the sampler. int32 wrap-around of step indices is not modelled.
- Floating point: rates and scores are reals; the hash value is on a grid that a double holds exactly.
- Strings are sequences of characters standing for bytes.
- ReceivedAt and the counters of the assembler.
- Pending partitions are a list with one entry per key, standing for a map; segments, open episodes and partitions are values held by the classes, not heap objects, so aliasing between them is not modelled.
- Unstable sorts are modelled by a stable one; statements about ties say only that some maximal or minimal element is chosen.
- SinkImpl.Sink.Flush: other flushes may be in progress but take no step during the call; interleaving at every step is covered by the step system in `LakeSink`, whose steps it takes.
- SinkImpl.Sink.WriteManifest: does not model the blob counters, schema version and build fields of the manifest, which are copied and never read back.
- LoadImpl.Gather: the count of files that no manifest lists is not modelled.
- Object keys are structured names; partition path strings, sanitising, Parquet, JSON and protobuf encoding are not modelled.
- Regular-expression, JSONPath and CEL rules: a tail rule is a parameter that holds, fails or cannot be evaluated.
- Sources, importers, SDKs, the command line, configuration, conformance checks, normalisation tables, scoring and training export: plumbing or easy per-branch facts.
