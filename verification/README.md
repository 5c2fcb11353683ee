# influx-sync: a Dafny model of its delivery, storage and reading paths

influx-sync copies an InfluxDB one way across an isolation device: a poller (and a fast path fed by
subscriptions) turns points into frames, a segmented write-ahead log keeps the frames, a sender moves
them over TCP, a receiver writes them to the target and answers one byte per frame. This project models
those parts and proves what they promise each other. `dafny verify dfyconfig.toml` checks all of it.

## What is modelled

**Delivery.** `Delivery.dfy` is a transition system in which every lock-protected or atomic operation of
the sender loop, the connections, the server's read and ACK loops, the frame handlers and both crashes is
one action, so every interleaving is a run. A commit is not one action for crashes: removing segments and
saving the checkpoint are actions of their own. `SafeConfig` runs never commit an undelivered frame
(`DeliverySafety`), reference counts of frames in flight are exact (`DeliveryInflight`), and for the other
configurations there is a losing run (`DeliveryLimits`). `AtLeastOnceIff` joins the two halves. The
sender's loops (`SenderCode`), the receiver's handler (`ReceiverCode`) and the loops of a server connection
(`AckPipeline`) are also written as the code has them, with steps of everything else in between, and proved
to perform only actions of this system and to take every step that is due; `SenderWire` is what the sender
has put on its connections and read off them in a whole run. `CommitCrash` ties the crashes it allows to the WAL. `SeqTracking`
is the receiver's prefix tracker, `Backoff` the retry delay.

**WAL.** `WalScan` is the byte format of a segment and the scan that rebuilds the index, `WalIndex` the
index over several segments, `Wal` the class that appends, peeks, commits, removes segments, saves
checkpoints and reopens any directory, refining the plain queue of `WalQueue`. `SegmentSizes` says when a
segment begins and how large it gets. `FrameCodec` is the frame format.

**Reading the source.** `Query` is the pagination loop, `Merge` the overlapping parallel queries,
`Batching` the splitting of windows into frames, `Poller` the cursor, window and prefetch logic. `FastPath`
and `FastDedup` are the forwarding of pushed lines and the set that remembers them. `LineProtocol`
prints points, `LineParse` extracts series and timestamp from lines. `TagSection` and `QuoteScan` say what
the parser makes of printed names and of printed quotes, and `LineRoundTrip` joins them into the exact
condition for a printed point to be read back. `FieldReader` is a reader of the field section, which the
code does not have, for the condition under which the fields are read back too. `SeriesKeys` builds the keys both paths compare; `TagCounts`
counts chars to show that misread tags never form the right key by accident. `FieldLoss` is what the
target holds when the poller skips pushed points.

## What the proofs found

Each of these is a lemma with a concrete run or input, beside the exact condition under which the promise
holds.

* Delivery is at-least-once exactly if no crash falls inside a commit where the WAL cannot be recovered, and
  the sender is stop-and-wait, or go-back-N with gzip frames, no send that fails after the first frame of a
  window and no completed seq that makes the tracker jump (`DeliveryLimits.AtLeastOnceIff`). A crash between
  the removal of a segment and the saving of the checkpoint gives a seq out again; the receiver takes the
  next frame for a duplicate, and it is committed undelivered, even with stop-and-wait
  (`DeliveryLimits.CommitCrashLoses`; `Wal.ReusesSeq` is the same run of the WAL). The
  server counts only gzip data frames, so each zstd frame looks like the first one of its connection and
  may close a gap over a frame that is about to be resent. The comment at
  internal/transport/tcp_server.go:212 describes the count as the arrival number of data frames.
* A torn record is cut off exactly if fewer than 24 of its bytes were written
  (`WalScan.TornTailIff`). From then on the scan indexes it although its end lies past the end of the file.
  Reading the entry fails until enough is appended behind the torn part; from then on it returns the start of
  one frame followed by the record of another (`Wal.ReadsPhantom`).
* A commit removes the segment before it saves the checkpoint. A crash in between continues the numbering
  exactly under the condition of `Wal.Wal.Retire`; otherwise a seq is given out twice (`Wal.ReusesSeq`), or
  a stale acknowledged offset hides frames of a recreated segment, which are then never sent
  (`Wal.LosesFrame`): exactly those whose record ends at or before that offset (`WalScan.LostIff`).
* Pagination drops the measurement filter for a timestamp that fills a whole page
  (`Query.PaginationExactIff`).
* A printed point is read back with its measurement, tags and timestamp if and only if none of them is empty
  or negative, there is no backslash in the measurement or a tag key and none in a tag value but directly
  before an equals sign, and the unescaped double quotes of measurement, tags and field keys are even in
  number (`LineRoundTrip.RoundTripIff`). The fast path and the poller use the same dedup key for it if and only
  if this holds: a misread line never has the key of its point (`LineRoundTrip.SameKeyOnBothPaths`). Two lines that
  fail: with the tag value `a\b` the line does not yield the key of its point
  (`LineRoundTrip.BackslashIsLost`), and with a tag value of one quote it is refused (`LineRoundTrip.QuoteIsRefused`). The comment at
  internal/model/lineparse.go:200-202 promises the same key for all points.
* The poller skips a row if a line with its series and timestamp was pushed, whatever fields that line had. Of
  rows with distinct series and timestamps this loses nothing if and only if the pushed points hold every
  field of each skipped row with the same value (`FieldLoss.SkippedRowsRepeatIff`; `FieldLoss.NothingLostIff`
  for any rows). If a client writes a second field at the same timestamp and only its first write is pushed, the
  second field never arrives (`FieldLoss.LosesField`). The comment at internal/sender/fastpath.go:237-238
  promises that nothing is lost.
* After a dense window the next one, unless the watermark cuts it, has the base length if and only if it was not
  queried ahead, or the window before the dense one was not sparse, or the base window is an hour long
  (`Poller.Poller.BaseAgainIff`):
  the next window is queried ahead before the dense one is counted, with the doubled length. The comment at
  internal/sender/poller.go:102-104 promises the base length right after dense data.
* The fields of a printed point are read back with their keys and values if and only if each backslash in a key of
  a finite field stands directly before a comma or a space (`FieldReader.FieldsReadBackIff`).
* A window whose points have only NaN or infinite fields yields a frame with an empty payload
  (`Batching.EmptyPayloadIff`). It decompresses to no text (`ReceiverCode.EmptyPayloadHasNoText`), so the handler
  never acknowledges it (`ReceiverCode.ReceiverState.HandleFrame`), and in a safe configuration neither this
  frame nor any after it is ever committed (`DeliverySafety.NoTextIsStuck`).
* Before 1970 the offset within a second is negative and its upper bits hide the series id in a packed entry of
  the dedup set (`FastDedup.PackedApartIff`); only the range check of the caller keeps such points out.
* The first retry waits for the base delay even if that exceeds the maximum (`Backoff.RetryDelay`).

## Model

| member | source | states |
|---|---|---|
| `DeliveryLimits.AtLeastOnceIff` | internal/sender/sender.go:61-293 | over all runs with disconnects, stale handlers and crashes of both sides, everything ever committed was delivered, if and only if no crash hits a commit between segment removal and checkpoint where the WAL cannot be recovered, and the window is 1, or frames are gzip, no send fails inside a window and no seq jumps |
| `DeliveryLimits.CommitCrashLoses` | internal/wal/wal.go:586-619 | with such a crash there is a run, at every window size, that commits a frame which never reached target or DLQ: its seq was given out before and the receiver answers it as a duplicate |
| `DeliveryLimits.ZstdLoses` | internal/transport/tcp_server.go:236-241 | with zstd and a window above 1 there is a run that commits a frame which never reached target or DLQ |
| `DeliveryLimits.LateSendFailureLoses` | internal/sender/sender.go:221-231 | so there is when a send may fail after the first frame of a window, since the next connection opens past the WAL head |
| `DeliveryLimits.JumpLoses` | internal/receiver/receiver.go:437-442 | so there is when the tracker may jump over a failed frame |
| `CommitCrash.RecoverableIff` | internal/wal/wal.go:79-138 | the crashes that the transition system always allows are exactly those after which the WAL continues its log |
| `CommitCrash.CrashAllowedIff` | internal/wal/wal.go:586-619 | between segment removal and checkpoint, the transition system allows a crash exactly if the WAL is safe against it |
| `DeliverySafety.SafeConfigDelivers` | internal/sender/sender.go:75-171 | in a safe configuration, which excludes the crashes inside a commit that the WAL cannot recover from, every reachable state is safe |
| `DeliverySafety.InvAlong` | internal/receiver/receiver.go:88-252 | the inductive invariant that links WAL, wire, handlers, tracker and target holds along every run |
| `DeliverySafety.InvStep` | internal/receiver/receiver.go:303-319 | every single action keeps that invariant, gap closing, jumps, restarts and stale handlers included |
| `DeliverySafety.PrefixDelivered` | internal/receiver/receiver.go:103-107 | every seq up to last_seq, in memory or in its file, and every pending seq was delivered, so the duplicate branch swallows nothing |
| `DeliverySafety.AckMeansDelivered` | internal/sender/sender.go:247-255 | a success byte read for a seq implies that this seq was delivered |
| `DeliverySafety.AckAnswersFrame` | internal/transport/tcp_client.go:58-110 | in every configuration the ACK byte consumed for a seq stands at the position of that seq's frame on the same connection, so no stale ACK is used |
| `DeliverySafety.WireAlong` | internal/transport/tcp_server.go:182-250 | along every run the ACKs of each connection are the handler results in arrival order, at most MaxInflight frames lack one, and the unread part of the live connection is what the sender waits for |
| `DeliverySafety.OrderedStep` | internal/transport/tcp_server.go:117-180 | no action breaks the order or the bound of the ACKs |
| `DeliverySafety.AlignedStep` | internal/sender/sender.go:189-292 | no action breaks the alignment of ACKs and frames |
| `DeliverySafety.OpensAtHead` | internal/sender/sender.go:182-196 | in the safe case the first data frame of a connection is preceded only by delivered seqs |
| `DeliverySafety.NoTextIsStuck` | internal/receiver/receiver.go:145-153 | in the safe case a frame without text and all frames after it stay uncommitted in every reachable state, and last_seq stays below it |
| `DeliveryInflight.ExactStep` | internal/receiver/receiver.go:257-271 | every action keeps the reference count of each seq equal to the number of live handlers that registered it |
| `DeliveryInflight.ExactAlong` | internal/receiver/receiver.go:257-271 | hence the counts are exact along every run |
| `DeliveryInflight.GapCloseSparesHandlers` | internal/receiver/receiver.go:309-319 | a gap is closed exactly when no live handler has registered a seq inside it |
| `SenderCode.Sender.Run` | internal/sender/sender.go:61-171 | the main loop, with arbitrary steps of the other parts in between, only performs actions of the system, and each of its turns does what `Turn` states; it ends early only inside a window that was not confirmed in the given rounds. Over the whole run what was sent before stays a prefix of what was sent, and the WAL head moves by exactly the number of successes read, unless a send may fail inside a window, and then by no more. In a safe configuration nothing undelivered is committed |
| `SenderCode.Sender.Turn` | internal/sender/sender.go:75-170 | one turn: with nothing pending, a heartbeat is sent exactly if it is due and there is a connection; a pending head is the next frame on the wire once the connection stands and its send succeeds; with one frame at a time nothing else is sent and every ACK that arrived in time is read; the head moves with the successes read; without a connection nothing is sent and the retry count grows |
| `SenderCode.TurnsAdd` | internal/sender/sender.go:66-171 | over any number of turns the wire only grows and the head has moved by the successes read in all of them |
| `SenderWire.WireStep` | internal/transport/tcp_client.go:58-110 | in every configuration an action of the system appends to the wire exactly the frame it sends, and exactly the reading of a success for a data frame adds one to the successes |
| `SenderWire.AwaitsData` | internal/transport/tcp_client.go:78-110 | the next ACK byte answers a data frame exactly if the sender waits for the ACKs of a window, so the reply to a heartbeat is never counted |
| `SenderCode.Sender.RunPipeline` | internal/sender/sender.go:182-293 | the go-back-N loop performs actions of the system; the window is the pending frames up to its size, or the head alone if the others cannot be read; its first frame is the next on the wire if its send succeeds; its end stays over all rounds, and unless a send fails inside a window, the WAL head moves by the successes read, is always right before the frame it resumes at, and is at the end of the window once all of it is acknowledged |
| `SenderCode.Sender.SendWindow` | internal/sender/sender.go:190-232 | all frames of the window are sent in order on the connection, or those before the failed one are and the window now starts there; the first is sent if there is a connection and its send succeeds; the end of the window and the WAL head stay |
| `SenderCode.Sender.ReadAcks` | internal/sender/sender.go:233-280 | all ACKs are successes, or the window now starts at the first other one and keeps its end; as many successes are read as frames lie before that; they are committed if the window began at the WAL head, and none otherwise |
| `SenderCode.Sender.SendOne` | internal/sender/sender.go:133-170 | stop-and-wait: the head frame and nothing else is put on the wire, unless its send fails without a trace; an ACK that has arrived is read; the WAL head moves by one exactly if the retry count is reset, which is if a success was read; otherwise the frame stays at the head |
| `SenderCode.Sender.SendHeartbeat` | internal/sender/sender.go:297-315 | with a connection one heartbeat is put on the wire; it and its reply leave the sender idle and the WAL head where it is, whatever fails |
| `SenderCode.Sender.EnsureConnected` | internal/transport/tcp_client.go:38-55 | connected afterwards exactly if it was or the dial succeeds; nothing else of the sender changes |
| `SenderCode.Sender.SendFrame` | internal/transport/tcp_client.go:58-75 | success puts the frame at the window position on the newest connection and advances the position; failure closes the connection, makes the position the retry point, and leaves the frame on the wire or not |
| `SenderCode.Sender.WaitAck` | internal/transport/tcp_client.go:78-96 | a success commits the frame and moves to the next one, anything else moves to the retry point; a lost read, and any failure in a pipeline, closes the connection; in time, a read is lost only if no byte has arrived |
| `ReceiverCode.ReceiverState.HandleFrame` | internal/receiver/receiver.go:88-241 | a call, with steps of other calls and of everything else between any two of its own, performs a run of the system and ends with its result; it succeeds exactly for a heartbeat, a duplicate, or a payload that decompresses to some text and was stored or isolated in the DLQ; a new frame that succeeds is delivered; undisturbed, it leaves the reference counts as they were, a duplicate changes nothing, and a new frame that succeeds closes the gap before it if it may, completes its seq, and after a closed gap last_seq reaches that seq |
| `ReceiverCode.GapIsPassed` | internal/receiver/receiver.go:117-131 | after a first frame that succeeds behind a gap in which nothing is being handled, last_seq is at least the seq of that frame |
| `ReceiverCode.ReceiverState.TryCloseGap` | internal/receiver/receiver.go:303-319 | its steps are steps of the system, whatever happens in between; undisturbed, it closes exactly if there is a gap and none of its seqs is being handled, and then moves tracker, last_seq and file |
| `ReceiverCode.ReceiverState.ScanGap` | internal/receiver/receiver.go:308-317 | with the counts locked the tracker skips the gap exactly if none of its seqs is counted |
| `ReceiverCode.ReceiverState.MarkDone` | internal/receiver/receiver.go:247-252 | its steps are steps of the system, whatever happens in between; undisturbed, it completes the seq in the tracker and raises last_seq only if the prefix moved |
| `ReceiverCode.ReceiverState.Elapse` | internal/receiver/receiver.go:84-88 | other calls and other parts of the system may take any steps they can; the call stays where it is, last_seq only grows and nothing delivered disappears |
| `ReceiverCode.ReceiverState.AdvanceSeq` | internal/receiver/receiver.go:324-345 | last_seq only grows; the file gets the value passed in |
| `ReceiverCode.ReceiverState.Register` | internal/receiver/receiver.go:257-261 | adds one copy of the seq to those in flight |
| `ReceiverCode.ReceiverState.Unregister` | internal/receiver/receiver.go:263-271 | removes one copy |
| `ReceiverCode.EmptyPayloadHasNoText` | internal/receiver/receiver.go:145-153 | a frame encoded from an empty payload, stamped with any seq, decodes and decompresses, but to no text |
| `ReceiverCode.RegisteredAndReleased` | internal/receiver/receiver.go:110-114 | registering and releasing a seq restores the counts |
| `ReceiverCode.ReceiverState.constructor` | internal/receiver/receiver.go:64-82 | a restarted receiver knows what its file says and nothing more |
| `SeqTracking.SeqTracker.Done` | internal/receiver/receiver.go:431-461 | the draining loop computes the specified tracker and reports whether the prefix moved |
| `SeqTracking.SeqTracker.CloseGap` | internal/receiver/receiver.go:417-428 | raises the prefix and forgets covered seqs |
| `SeqTracking.SeqTracker.Init` | internal/receiver/receiver.go:408-413 | starts from the restored value |
| `SeqTracking.AfterExact` | internal/receiver/receiver.go:407-461 | without jump and overflow the prefix end is exactly where the contiguous run of completed seqs ends, for calls in any order with repeats |
| `SeqTracking.AfterWithin` | internal/receiver/receiver.go:453-458 | an overflow can only leave the prefix end short of that |
| `SeqTracking.CompletedSoundIff` | internal/receiver/receiver.go:437-442 | completing a seq claims an unfinished one if and only if it jumps over one |
| `SeqTracking.GapClosedSound` | internal/receiver/receiver.go:415-428 | closing a finished gap claims nothing unfinished |
| `SeqTracking.GapClosedKnows` | internal/receiver/receiver.go:415-428 | closing a gap takes exactly the seqs of the gap for done in addition, and forgets none that was completed behind it |
| `SeqTracking.CompletedReaches` | internal/receiver/receiver.go:431-461 | completing the next seq moves the prefix end to it or further |
| `AckPipeline.Connection.ReadFrame` | internal/transport/tcp_server.go:211-250 | launches exactly while fewer than MaxInflight frames await their ACK, which is an action of the system; the handler of a data frame gets an index that is 0 exactly when the system says so |
| `AckPipeline.Connection.SetResult` | internal/transport/tcp_server.go:131-136 | the result is that of the finished handler and waits until the writer takes it; results may come in any order without disturbing the written bytes |
| `AckPipeline.Connection.NextResult` | internal/transport/tcp_server.go:139-152 | takes the result of the next frame in arrival order exactly if its handler has returned |
| `AckPipeline.Connection.WriteAck` | internal/transport/tcp_server.go:195-205 | the next byte on the wire is the result of the next frame in arrival order, which is an action of the system; a failed write closes the pipeline |
| `AckPipeline.Connection.Advance` | internal/transport/tcp_server.go:162-167 | frees one place of the window after the byte was written |
| `AckPipeline.Connection.WriteResults` | internal/transport/tcp_server.go:192-207 | the writer's loop puts the results of the first frames on the wire, each once and in arrival order, and stops only at a frame whose handler has not returned or at a failed write, which closes the pipeline |
| `AckPipeline.Connection.Elapse` | internal/transport/tcp_server.go:182-250 | whatever the rest of the system does, frames that arrived and results that were returned stay |
| `AckPipeline.Connection.Run` | internal/transport/tcp_server.go:182-250 | any interleaving of the read loop, the returning handlers, the writer, the closing of the pipeline and the rest of the system is a run of the system in which every step that can be taken is taken; the bytes written never change, and nothing more is read after closing |
| `AckPipeline.FrameIndexZeroIff` | internal/transport/tcp_server.go:236-241 | the index passed to the handler is 0 for all zstd frames and, with gzip, exactly for the first data frame of a connection |
| `Backoff.RetryDelay` | internal/sender/sender.go:318-330 | doubles per retry up to the maximum; exceeds it exactly at the first retry with a larger base |
| `FrameCodec.DecodeIff` | internal/protocol/codec.go:119-167 | Decode accepts exactly the encodings of frames in range with a matching checksum, and returns the frame encoded |
| `FrameCodec.EncodeDecode` | internal/protocol/codec.go:47-75 | an encoded data frame, stamped with any seq, decodes and decompresses to its text |
| `FrameCodec.EncodedWith` | internal/protocol/codec.go:47-75 | type 1 is compressed with gzip, type 4 with zstd, type 2 has no payload, and no other type is encoded; a frame is refused exactly for its type or its size; the checksum is that of the compressed payload |
| `FrameCodec.DecompressedWith` | internal/protocol/codec.go:170-193 | the payload is decompressed with the codec of its type, and refused exactly for another type, by the codec, or for its size |
| `FrameCodec.DecodeStamped` | internal/wal/wal.go:442-446 | overwriting the seq field changes the seq of the decoded frame and nothing else |
| `FrameCodec.HeaderOfStamped` | internal/wal/wal.go:442-446 | the header of a stamped frame differs in its seq only |
| `FrameCodec.PutHeader` | internal/protocol/codec.go:109-116 | writes the 20 header bytes big-endian and leaves the rest of the buffer |
| `FrameCodec.WireLayout` | internal/protocol/codec.go:109-116 | the bytes are P, W, version 1, type, then seq, length and checksum as numbers with the most significant byte first, then the payload |
| `Bytes.MostSignificantFirst` | internal/protocol/codec.go:109-116 | a number is read with its first byte as the most significant |
| `FrameCodec.EncodeRaw` | internal/protocol/codec.go:92-106 | a header followed by the payload |
| `FrameCodec.RawHeaderOfBytes` | internal/protocol/codec.go:119-129 | reading back the header bytes gives the header |
| `FrameCodec.BytesOfRawHeader` | internal/protocol/codec.go:109-129 | writing a header that was read gives its bytes |
| `WalScan.TornTailIff` | internal/wal/wal.go:229-319 | a segment that ends in the first bytes of a record is recovered to its whole records if and only if fewer than 24 bytes of the record are there |
| `WalScan.ScanExact` | internal/wal/wal.go:229-319 | whole records followed by up to 23 bytes of anything: the index is exactly the records ending after the acknowledged offset, in order, and the file is cut to the last record |
| `WalScan.ScanResumes` | internal/wal/wal.go:241-262 | at a damaged record the scan goes on exactly at the next whole record within the search limit |
| `WalScan.ScanGivesUp` | internal/wal/wal.go:241-262 | with no whole record behind it the rest is cut off, or the scan refuses to cut what is acknowledged |
| `WalScan.MiddleLost` | internal/wal/wal.go:229-319 | a damaged record amid whole ones costs that record only; those before and behind it are indexed and the file stays |
| `WalScan.LostIff` | internal/wal/wal.go:309-316 | whatever offset the checkpoint calls acknowledged, a scan leaves out exactly the frames whose record ends at or before it |
| `WalScan.ScanPhantom` | internal/wal/wal.go:287-316 | with both headers present a torn record is indexed although the file ends inside it |
| `WalScan.IndexSegment` | internal/wal/wal.go:229-319 | the scanning loop computes the specified scan |
| `WalScan.Examine` | internal/wal/wal.go:264-317 | one turn of the loop: stop, cut, refuse, skip or index |
| `WalScan.ResyncRecord` | internal/wal/wal.go:325-356 | finds the least later record start that is whole and consistent within the search limit, or reports that there is none |
| `WalScan.StepProgress` | internal/wal/wal.go:264-317 | every turn moves the scan forward |
| `WalIndex.ReadsFrame` | internal/wal/wal.go:547-566 | entry j of the index points at the bytes of frame j, over any number of segments |
| `WalIndex.AppendFrame` | internal/wal/wal.go:447-456 | a record added to the newest segment adds one entry at the end of the index |
| `WalIndex.AppendToRescan` | internal/wal/wal.go:202-214 | and one entry at the end of what a rescan from the checkpoint finds |
| `WalIndex.RescanSuffix` | internal/wal/wal.go:202-214 | a rescan finds a suffix of all entries |
| `WalIndex.UnackedAfter` | internal/wal/wal.go:309-316 | acknowledging up to the end of a record leaves exactly the records after it |
| `WalIndex.RemoveOldest` | internal/wal/wal.go:591-597 | forgetting the oldest segment leaves frames and entries of the others |
| `Wal.Wal.Open` | internal/wal/wal.go:79-138 | any directory: it is refused exactly if the scan refuses a segment; otherwise stale segments are dropped, all entries of the others indexed, the newest is open, and the next seq is behind neither the checkpoint nor any entry. A directory left by a crash, torn by at most a record head, reopens with every frame that was pending, in order; the log is continued correctly if and only if the directory holds a segment or the checkpoint skips nothing, and the last seq is known from a frame or the checkpoint |
| `Wal.Wal.LoadSegments` | internal/wal/wal.go:156-217 | of any directory, the segments the checkpoint has not passed are scanned in order, from the acknowledged offset if its segment is still there, or the directory is refused |
| `Wal.LoadedDurable` | internal/wal/wal.go:156-217 | of a directory that a crash left, exactly the unacknowledged records are found and what is torn is cut |
| `Wal.Wal.RestoreNextSeq` | internal/wal/wal.go:106-119 | the next seq exceeds the greatest seq found, is at least the checkpoint's and at least 1 |
| `Wal.Wal.AppendBatch` | internal/wal/wal.go:425-464 | appends the frames before the first one that is too short, stamped with consecutive next seqs, each as a record and an index entry behind the last one, and returns these seqs unless one was too short; if the frames are encodings the queue grows by them, now and after any crash |
| `Wal.Wal.AppendEncoded` | internal/wal/wal.go:386-417 | appends any bytes with the next seq as one record and one index entry with the given seq and type, and refuses any other seq; if the bytes are an encoding with this seq and type, the queue grows by it |
| `Wal.Wal.Write` | internal/wal/wal.go:445-457 | one record and one index entry are added, and offset and next seq follow; if the frame is an encoding the queue grows by it |
| `Wal.Wal.WriteHead` | internal/wal/wal.go:445-449 | a crash after the first of the two writes loses nothing and continues the log |
| `Wal.Wal.EnsureSpace` | internal/wal/wal.go:495-523 | a new segment, with the next number, is begun exactly if none is open or the record would pass the limit in the open one; otherwise nothing changes; the queue stays |
| `SegmentSizes.NewSegmentIff` | internal/wal/wal.go:495-523 | an append begins a new segment number exactly if none was open or the record would have passed the limit in the newest one, and then writes the record there alone |
| `SegmentSizes.AllSized` | internal/wal/wal.go:425-464 | any appends keep every segment within the limit or at a single record, and every segment begun only because its first record did not fit into the one before |
| `SegmentSizes.AppendToEmpty` | internal/wal/wal.go:425-523 | so after any appends to an empty WAL each segment file is at most the limit long or holds a single record |
| `Wal.Wal.PeekBatch` | internal/wal/wal.go:535-568 | reads the entries of the first min(n, pending) uncommitted frames, or fails if a file ends inside one, or reports that there is none; a valid WAL returns these frames of the queue byte for byte with their seqs |
| `Wal.ReadAllIff` | internal/wal/wal.go:547-566 | reading entries succeeds exactly if the files hold all their bytes, and returns them in order |
| `Wal.Wal.Commit` | internal/wal/wal.go:577-619 | removes exactly the head of the queue, refuses any other seq, and panics exactly on an empty queue; afterwards the oldest segment holds the oldest pending frame; the checkpoint is saved exactly if a segment was removed or the interval is over |
| `Wal.Wal.Retire` | internal/wal/wal.go:581-616 | between removing segments and saving the checkpoint a crash is harmless exactly under a condition on the state before the commit |
| `Wal.Wal.Acknowledge` | internal/wal/wal.go:581-583 | the acknowledged offset separates committed from pending frames of the oldest segment |
| `Wal.Wal.RemoveSegment` | internal/wal/wal.go:591-608 | removes a segment without pending frames; what is pending stays on disk and indexed |
| `Wal.Wal.RemoveCommitted` | internal/wal/wal.go:586-612 | removes oldest segments until one holds a pending frame |
| `Wal.Wal.SetCursor` | internal/wal/wal.go:640-648 | moves the cursor forward only, saves it with the position, and leaves the queue |
| `Wal.Wal.ApplyBackfillPolicy` | internal/wal/wal.go:662-681 | rewinds the cursor exactly on a changed policy with an older boundary, never on an upgrade, and records the policy |
| `Wal.Wal.Restart` | internal/wal/wal.go:79-138 | whatever a crash leaves, half-written record included, reopens to the same log with the next seq following it |
| `Wal.Wal.ValidIsCrashSafe` | internal/wal/wal.go:586-619 | after every completed operation a crash is harmless |
| `Wal.Wal.QueueIsValid` | internal/wal/wal.go:577-619 | the saved position never passes the committed one |
| `Wal.ReusesSeq` | internal/wal/wal.go:586-619 | a run: a frame with seq 1 is appended and committed, the process dies between segment removal and checkpoint, the directory is reopened, and the next frame gets seq 1 again |
| `Wal.LosesFrame` | internal/wal/wal.go:189-213 | a run: two frames are committed, the second without a saved checkpoint, before a crash; the reopened WAL appends a frame as long as the first and dies; reopened again it has no entry for that frame, which was never committed, and gives its seq away |
| `Wal.ReadsPhantom` | internal/wal/wal.go:287-316 | a run: the process dies behind both headers of the first record; the reopened WAL has an entry that cannot be read; after the next append the entry reads the torn bytes followed by those of the new record as soon as the file is long enough, and fails before |
| `Wal.ReadsPending` | internal/wal/wal.go:547-566 | the i-th pending entry reads the i-th frame after the committed ones |
| `Wal.CommitRemoves` | internal/wal/wal.go:586-599 | a removed segment holds committed frames only |
| `Wal.ScanSegments` | internal/wal/wal.go:202-214 | the loop over the segments computes the specified scan of all of them |
| `Query.PaginationExactIff` | internal/influx/client.go:211-301 | pagination yields the selected rows of the range in order and once each if and only if no timestamp that fills a page has a row outside the filter |
| `Query.ExactWithoutFilter` | internal/influx/client.go:254-291 | without a filter it is exact for every page size, more rows than a page in one nanosecond included |
| `Query.QueryRange` | internal/influx/client.go:211-301 | the loop terminates and returns the specified rows, or fails because a query failed, because there are at least as many rows as pages, or because a timestamp has more than ten million rows |
| `Query.FetchDense` | internal/influx/client.go:257-288 | offset paging returns every row of one timestamp that was not returned before, once |
| `Query.AppendNew` | internal/influx/client.go:235-243 | appends exactly the rows the previous page has not returned |
| `Query.CarryOver` | internal/influx/client.go:244-250 | remembers exactly the rows at the last timestamp of a page |
| `Query.NextPage` | internal/influx/client.go:292-298 | after a full page the loop resumes at its last timestamp without losing or repeating a row |
| `Query.DenseTimestamp` | internal/influx/client.go:254-291 | after a dense timestamp everything up to it is fetched |
| `Query.LastPage` | internal/influx/client.go:251-253 | a page that is not full completes the range |
| `Rows.PageSplit` | internal/influx/client.go:233-250 | a page is the whole of its earlier timestamps and a part of the last one |
| `PointSets.PointSet.Contains` | internal/influx/client.go:193-204 | membership is exact among points with distinct keys, across the switch from list to map |
| `PointSets.PointSet.Add` | internal/sender/poller.go:614-627 | adds one point, moving the list into the map when it is full |
| `PointSets.PointSet.Reset` | internal/influx/client.go:304-307 | empties the set |
| `PointSets.PointsEqualIff` | internal/model/point.go:294-315 | comparing sizes and one direction of the maps decides equality |
| `Merge.QueryParallel` | internal/sender/poller.go:523-603 | for every number of segments the merged result equals one query over the window; it fails only if a query fails or there are too many rows for the pages or in one timestamp |
| `Merge.JoinSegments` | internal/sender/poller.go:567-597 | joins two segments, dropping from the right one what the left one has at the boundary |
| `Merge.JoinedIsWhole` | internal/sender/poller.go:538-545 | two segments that overlap in one nanosecond join to the whole range |
| `Batching.Conserved` | internal/sender/poller.go:670-773 | for any size limit the sent points are the window in order with some points left out, and every point that fits alone is among them as often as in the window |
| `Batching.SentExactly` | internal/sender/poller.go:670-773 | for a monotone limit they hold exactly the points that are not too large alone |
| `Batching.SentAllFit` | internal/sender/poller.go:732-768 | every frame appended fits and has at most the batch size |
| `Batching.FullFrames` | internal/sender/poller.go:688-751 | if the parts of the batch size fit, they are the frames, all of them full but the last; a batch that fits is one frame |
| `Batching.TooLargeHalved` | internal/sender/poller.go:752-768 | a part that does not fit goes out in frames of half the size if these fit |
| `Batching.SentOrTooLarge` | internal/sender/poller.go:758-764 | a point of the window is in a frame, or too large alone, or cannot be printed |
| `Batching.SentIsCarried` | internal/sender/poller.go:688-768 | each point that is sent belongs to a frame that fits, with its line in the payload unless it has no finite field |
| `Batching.FrameLog.AppendBatch` | internal/sender/poller.go:670-773 | on success the log grows by exactly the specified frames in order and every point could be printed; it fails only if the WAL refuses frames or a point cannot be printed |
| `Batching.FrameLog.AppendFrame` | internal/sender/poller.go:731-767 | a frame joins those waiting, or these are appended first and its points are split |
| `Batching.LineInFrame` | internal/model/point.go:186-205 | each point of a frame has its line in the payload unless it has no finite field |
| `Batching.PayloadLines` | internal/model/point.go:186-205 | a payload split at its newlines is exactly the lines of its points that have a finite field, each once and in order, if no line has a newline inside |
| `Batching.EmptyPayloadIff` | internal/model/point.go:191-204 | the payload is empty exactly if no point has a finite field |
| `Poller.Poller.Run` | internal/sender/poller.go:188-280 | after any run of polls, steps of concurrent pushes (also within a poll) and restarts with any failures, every selected point from the first cursor up to the cursor is carried by an appended frame, too large alone, or named by a line the fast path appended; every step is taken: a poll reads its window as soon as there is one and, unless a query, an append or a save fails, moves the cursor to the end of what it read; a restart goes back to the saved cursor with an empty count |
| `Poller.Poller.PollOnce` | internal/sender/poller.go:304-400 | keeps that coverage and the count of sparse readings; reads the window of the length for that count, cut at the watermark, or in slices if that is too long for one query, or the one queried ahead; the cursor only grows, never passes the watermark, and advances to the end of what was read unless there is no stable window or a query, an append or the saving of the cursor failed; reports that the window was cut exactly if it was |
| `Poller.Poller.NextLength` | internal/sender/poller.go:109-121 | over the whole run: after k sparse readings in a row the next window is min(base * 2^k, an hour) long as far as the watermark and, for the base window itself, the largest window allow; one that was queried ahead has the length by the readings before the last one; dense windows, dense slices, failed queries and restarts begin the count anew |
| `Poller.Poller.BaseAgainIff` | internal/sender/poller.go:361-370 | after a dense window the next one, if the watermark does not cut it and the base window is within the largest one, has the base length if and only if it was not queried ahead, or the window before was not sparse, or the base window is an hour |
| `Poller.UnderfilledIs` | internal/sender/poller.go:366-370 | the count is the number of sparse readings since the last dense one, failed query or restart |
| `Poller.GrownIff` | internal/sender/poller.go:112-121 | a counted window is longer than the base window exactly if that is shorter than an hour |
| `Poller.Poller.PollSliced` | internal/sender/poller.go:438-505 | the same for a grown window: consecutive slices of the largest normal window, each with the rows of its range, up to the first dense one, the end of the window, or a failure; an empty slice counts at once, a sparse one when it is done, and a dense one or a failed query ends the count |
| `Poller.Poller.LaunchPrefetch` | internal/sender/poller.go:406-429 | unless one is under way, the next window is queried ahead exactly if it needs no slices and part of it is stable; it starts at the next cursor, has the length for the count so far or ends at the watermark, and holds the rows of that window |
| `Poller.Poller.FilterForwarded` | internal/sender/poller.go:371-381 | keeps exactly the points not in the dedup set when they are looked up, whatever handlers of pushes append and register meanwhile; each entry found is named by an appended line; without pushes it is the set as it was, less what lies before the window by more than the retention |
| `Poller.Poller.AppendFrames` | internal/sender/poller.go:655-664 | on success the points are appended in frames of the batch size, halved exactly while the disk is nearly full and the half is not zero |
| `Poller.Poller.TakeWindow` | internal/sender/poller.go:331-359 | a prefetched result is used exactly if it is for a window that starts at the cursor; otherwise the window asked for is queried |
| `Poller.Poller.Deliver` | internal/sender/poller.go:384-394 | the cursor moves to the end of a window exactly if its points were appended; it stays saved behind only if saving failed |
| `Poller.Poller.Restart` | internal/wal/wal.go:96-101 | a restart resumes from the saved cursor with coverage intact |
| `Poller.WindowCovered` | internal/sender/fastpath.go:237-253 | a window that was fetched, filtered and appended leaves no selected point uncovered |
| `FieldLoss.NothingLostIff` | internal/sender/fastpath.go:239-253 | skipping rows that were pushed leaves the target as if all rows were written, if and only if each value that a skipped row would have set for good is held already when the row is looked at |
| `FieldLoss.SkippedRowsRepeatIff` | internal/sender/fastpath.go:237-253 | for rows with distinct series and timestamps: if and only if the pushed points hold every finite field of each skipped row with the same value |
| `FieldLoss.PushThenPoll` | internal/sender/fastpath.go:256-334 | once the line of a point that can be read back is pushed, the filter drops every row with its series and timestamp, whatever its fields |
| `FieldLoss.LosesField` | internal/sender/fastpath.go:244-248 | a run: a line with one field is pushed, the row with two fields is dropped, and the second field does not reach the target |
| `Poller.WindowSize` | internal/sender/poller.go:112-121 | the base window doubled once per underfilled window, at most an hour |
| `Poller.WithDefaults` | internal/sender/poller.go:133-160 | every limit the loop divides or steps by is positive, what is set is kept, and without a growth target the frame size is it |
| `FastPath.FastPath.AppendLines` | internal/sender/fastpath.go:256-328 | the wanted lines of a body are appended as one frame or not at all, and only then wait to be registered |
| `FastPath.FastPath.RegisterAt` | internal/sender/fastpath.go:329-331 | one waiting entry is registered, evicting what is old by the clock of that moment and using a new id only for a series without entries |
| `FastPath.FastPath.Concurrently` | internal/sender/fastpath.go:256-334 | any interleaving of such steps of any number of pushes keeps the set within what was appended, and lines, waiting entries and set are what the steps make of them one after the other |
| `FastPath.FastPath.Serve` | internal/sender/fastpath.go:256-334 | uninterrupted, the wanted lines of a body are appended as one frame and then all registered, or neither happens |
| `FastPath.FastPath.RegisterFrom` | internal/sender/fastpath.go:329-331 | the entries of a push are registered one by one in order |
| `FastPath.FastPath.Filter` | internal/sender/fastpath.go:239-253 | compacts, in place and in order, the points that the set does not hold when it is asked, with pushes going on between the questions; what it held is what these pushes had made of it, and all of it was appended before |
| `FastPath.FastPath.LookUp` | internal/sender/fastpath.go:244-248 | exact at the moment of the question |
| `FastPath.FastPath.Collect` | internal/sender/fastpath.go:286-308 | keeps exactly the lines that parse, are in nanoseconds and are wanted, each ended by a newline, with the key and timestamp of each |
| `FastPath.LinesOfBody` | internal/sender/fastpath.go:288-291 | no line of a body holds a newline, and joined by single newlines the lines are the body |
| `FastPath.OnlyLines` | internal/sender/fastpath.go:288-291 | there is only one way to split a body into such lines |
| `FastPath.TerminatedLines` | internal/sender/fastpath.go:288-291 | lines that are each ended by a newline are read back, with an empty line behind them |
| `FastPath.ForwardedIff` | internal/sender/fastpath.go:286-308 | a line is forwarded exactly if it is one of the body and is wanted |
| `FastPath.ForwardedConcat` | internal/sender/fastpath.go:286-308 | the lines of two bodies are forwarded in order, as often as they come |
| `FastPath.AllForwarded` | internal/sender/fastpath.go:286-308 | if all lines are wanted, all are forwarded, in order |
| `FastPath.FastPath.ServeLines` | internal/sender/fastpath.go:256-334 | of a pushed body of n terminated lines all wanted ones are appended in order and then registered, all n if all are wanted; nothing happens exactly if the path is off, the body is empty or too long, the disk is nearly full, no line is wanted, or encoding or append fails |
| `FieldLoss.ForwardedIffSelected` | internal/sender/fastpath.go:341-352 | the line of a point that can be read back is forwarded exactly if the poller selects the point too and its timestamp is in the range of nanoseconds |
| `FastPath.ForwardedOf` | internal/sender/fastpath.go:286-308 | only non-empty forwardable lines of the body are kept |
| `FastDedup.Dedup.Contains` | internal/sender/fastpath.go:159-173 | true exactly for the points in the set, for every key and timestamp, unless the timestamp is negative and there are entries within the first second of 1970 |
| `FastDedup.Dedup.Add` | internal/sender/fastpath.go:123-156 | the set becomes what is recent plus the point, unless the series is new and all ids are used |
| `FastDedup.Dedup.Evict` | internal/sender/fastpath.go:93-114 | removes exactly the entries whose second lies before the cut; names, ids and reference counts stay exact |
| `FastDedup.KeptBounds` | internal/sender/fastpath.go:93-114 | no entry at the cut or after it is forgotten, and one that is a second older than the cut, or two across 1970, always is |
| `FastDedup.Dedup.SetCursor` | internal/sender/fastpath.go:82-87 | evicts what lies before the cursor by more than the retention |
| `FastDedup.Dedup.SeriesAreLive` | internal/sender/fastpath.go:99-110 | the tables hold exactly the series that have an entry |
| `FastDedup.PackUnpack` | internal/sender/fastpath.go:146 | id and offset can be read back from a packed entry |
| `FastDedup.PackedApartIff` | internal/sender/fastpath.go:146 | two series of the same second are packed apart exactly if the offset is not negative |
| `FastDedup.DropOne` | internal/sender/fastpath.go:99-103 | evicting an entry that is not the last of its series lowers its count and keeps the tables consistent |
| `FastDedup.DropLast` | internal/sender/fastpath.go:103-110 | evicting the last entry forgets name, id and count together |
| `FastDedup.InsertNew` | internal/sender/fastpath.go:127-139 | registering a new series keeps names and ids inverse and counts exact |
| `FastDedup.InsertOld` | internal/sender/fastpath.go:140-155 | registering a known series counts an entry once, also when it is repeated |
| `LineRoundTrip.RoundTripIff` | internal/model/lineparse.go:25-152 | the line of any printable point parses to its measurement, sorted tags and timestamp if and only if nothing is empty or negative, no backslash is lost and the quotes of names and field keys come in pairs; an odd quote or a negative timestamp is always refused, and a line that loses no backslash is read back or refused |
| `LineRoundTrip.ParsePrinted` | internal/model/lineparse.go:33-65 | string values never disturb the search for the timestamp; an odd quote in names or field keys always does |
| `LineRoundTrip.SameKeyOnBothPaths` | internal/model/lineparse.go:200-225 | for every printable point, the fast path derives from the line the dedup key that the poller derives from the point if and only if the line is read back |
| `TagCounts.CountsKeepAll` | internal/model/lineparse.go:119-147 | if what the parser reads of printed tags has the same number of pairs, the same total length of keys and the same chars as the tags, no backslash was lost |
| `TagCounts.ReadChars` | internal/model/lineparse.go:119-147 | splitting tags neither loses nor makes up a char but commas with nothing between them, and each unescaped comma ends a pair or is one of these |
| `TagCounts.TagsReadBound` | internal/model/lineparse.go:177-198 | of printed tags at most their own backslashes are read, and all of them only if each stands before a char that is escaped |
| `TagCounts.TagsBareBound` | internal/model/lineparse.go:119-147 | printed tags show an extra delimiter exactly if a backslash stands before one |
| `TagCounts.KeysBound` | internal/model/lineparse.go:155-174 | the keys read are no longer than the printed ones together, and as long only if no key has a backslash |
| `TagCounts.SameSeriesSameCounts` | internal/model/lineparse.go:214-225 | pairs in any order that make up the series of the tags have the counts of the printed pairs |
| `LineRoundTrip.BackslashIsLost` | internal/model/lineparse.go:177-198 | a whole line with the tag value `a\b` yields another key than its point |
| `LineRoundTrip.QuoteIsRefused` | internal/model/lineparse.go:33-65 | the line of a point with a tag value of one double quote is refused |
| `TagSection.SeriesOfPrinted` | internal/model/lineparse.go:67-151 | measurement and tags are read back exactly if none is empty and no backslash is lost; if only something is empty the line is refused |
| `TagSection.SplitPrintedTags` | internal/model/lineparse.go:119-147 | the same for the tag section |
| `TagSection.TakenBack` | internal/model/lineparse.go:69-86 | for any text: what the parser reads of the escaped text up to the next delimiter is the text exactly if each backslash stands before a char that is escaped and does not end the search |
| `TagSection.BackslashesDrop` | internal/model/lineparse.go:177-198 | a pair of backslashes is read as one, and nothing behind it can make up for that |
| `TagSection.TakenIs` | internal/model/lineparse.go:69-85 | cutting at the first unescaped delimiter and unescaping is one pass over the text |
| `TagSection.Cut` | internal/model/lineparse.go:88-147 | cutting at spaces, then commas, then equals signs finds the first unescaped of all of them |
| `QuoteScan.SeparatorOf` | internal/model/lineparse.go:33-53 | the last separating space is the one before the timestamp exactly if no string is open there |
| `QuoteScan.ScanFields` | internal/model/point.go:138-157 | printed fields leave nothing escaped and toggle by the quotes of their keys alone, whatever string values contain |
| `QuoteScan.ScanQuoted` | internal/model/lineparse.go:36-47 | a string is open after any text exactly if its unescaped quotes are odd in number |
| `LineParse.ParseLine` | internal/model/lineparse.go:25-152 | the loops compute the specified parse |
| `LineParse.AcceptedEndsInTimestamp` | internal/model/lineparse.go:48-65 | only a line that ends in a space and a decimal timestamp of 64 bits is accepted, with that timestamp and a measurement |
| `LineParse.TrailingCRIgnored` | internal/model/lineparse.go:26-29 | carriage returns at the end of a line change nothing |
| `LineParse.SplitSection` | internal/model/lineparse.go:119-147 | the splitting loop computes the specified pairs |
| `LineParse.SplitTagKV` | internal/model/lineparse.go:155-174 | splits at the first unescaped equals sign and refuses an empty side |
| `LineParse.Unescape` | internal/model/lineparse.go:177-198 | drops each backslash that precedes a char |
| `LineParse.LastSeparator` | internal/model/lineparse.go:33-52 | finds the last space outside strings and escapes |
| `LineProtocol.LineOf` | internal/model/point.go:118-166 | a line, a skipped point, a point without fields or an unsupported value |
| `LineProtocol.AppendFields` | internal/model/point.go:138-161 | writes exactly the finite fields, comma-separated, and reports whether there was one; `FieldReader.FieldsReadBackIff` says what can be read of them |
| `FieldReader.FieldsReadBackIff` | internal/model/point.go:138-161 | for every printable point the field section is read back as exactly its finite fields with their values, if and only if each backslash in their keys stands directly before a comma or a space |
| `FieldReader.LineReadBackIff` | internal/model/point.go:118-166 | a line from which measurement, tags and timestamp are read back gives back every finite field with its value, under exactly that condition |
| `FieldReader.ValueReadBack` | internal/model/point.go:262-290 | every finite value is read back from its text, whatever follows: an integer with its sign, a string with any chars, a boolean, a float as its text |
| `FieldReader.StringReadBack` | internal/model/point.go:276-281 | a quoted string with any chars ends at its own closing quote and is read back |
| `FieldReader.FiniteFieldsAre` | internal/model/point.go:142-157 | the fields that are read back are exactly those with a finite value |
| `LineProtocol.LinesToProtocolBytes` | internal/model/point.go:186-205 | one line per printable point, or the first failure |
| `LineProtocol.AppendEsc` | internal/model/point.go:225-259 | appends the escaped text |
| `SeriesKeys.PointKeyInjective` | internal/model/point.go:79-96 | two points have the same key exactly if measurement, tags and timestamp agree, for arbitrary bytes |
| `SeriesKeys.SeriesKeyInjective` | internal/model/lineparse.go:203-211 | two series have the same key exactly if measurement and tags agree |
| `SeriesKeys.PairsAgreeIff` | internal/model/lineparse.go:214-225 | the key from parsed pairs, in any order, equals the key from the tag map exactly if no tag key is repeated |
| `SeriesKeys.KeyTextInjective` | internal/model/lineparse.go:227-242 | the key text determines measurement, keys and values |
| `SeriesKeys.LenPrefixInjective` | internal/model/point.go:99-103 | a length-prefixed component can be told apart from what follows |
| `SeriesKeys.AppendSeriesKey` | internal/model/lineparse.go:227-242 | the appending loop builds the specified key text |
| `SeriesKeys.SeriesKeyOf` | internal/model/lineparse.go:203-211 | the key over the sorted tag keys |
| `SeriesKeys.SeriesKeyFromPairs` | internal/model/lineparse.go:214-225 | the key over the sorted keys of the pairs, a later pair winning |
| `SeriesKeys.KeyOf` | internal/model/point.go:79-96 | the key of the series followed by the timestamp |
| `SeriesKeys.SortKeys` | internal/model/point.go:47-58 | the map's keys in byte order, whatever order the map yields them in |

## Left out

- Power loss: completed writes survive a crash; fsync, its batching and the atomicity of rename are taken for granted.
- Failing file operations of the WAL: a write error in the middle of a batch leaves the code's offset behind the file; only crashes are modelled.
- Sockets, HTTP, goroutine scheduling and locks: they are atomic steps, nondeterministic outcomes and byte sequences.
- gzip, zstd and CRC-32: parameters, with the inverse law where it is needed. Float formatting and JSON decoding: a finite float is its text.
- Acknowledgement bytes other than success and failure: treated like a failure, as the sender does. The failure byte that the server writes on an unreadable frame header, past the ACKs still due, is not modelled.
- Heartbeats never carry data; a heartbeat whose send fails is a heartbeat whose reply is lost.
- Wrap-around of 64-bit seqs, cursors and durations.
- Rewriting the seq inside the caller's frame buffer, and sharing of slices: frames are values.
- The cached key order of a point: keys are sorted each time, which is what the cache must equal.
- NaN compared with NaN in PointsEqual: field values are compared as values.
- Order in which parallel workers finish: results are collected by index before they are used.
- Late-arriving rows and LIMIT per series: the source is fixed and a query returns rows in time order.
- The relay WAL, the DLQ's files and limits, MoveToDLQ, ProbeOldestData, ensureSchema, backpressure states, metrics, configuration: they add no harder property.
- The poller and the fast path append to logs of their own here, where the code shares one WAL; no property depends on the order between them. A poller without a fast path is one whose fast path is disabled.
- Packing uses `id * 2^30 + offset` for the code's shift and bitwise or, which agree for an offset from 0 to 2^30 - 1 (`FastDedup.PackedBits`).
- Wal.Wal.Open: that the log is continued is promised for a directory that this WAL left behind, torn by at most the two writes of one record; of any other it says what is indexed. A directory that is refused may have been cut in part; the files are then not modelled.
- Wal.Wal.AppendBatch: for frames that are not encodings it promises records, index and seqs, but not that a reopened WAL finds them.
- ReceiverCode.ReceiverState.HandleFrame: other parts of the system, a crash of the receiver aside, act between its steps; a crash ends the call.
- ReceiverCode.EmptyPayloadHasNoText: text is a byte other than ASCII white space; the code also trims other Unicode white space.
- FastDedup.Dedup.Add: requires a timestamp that is not negative, as the only caller sees to; FastDedup.PackedApartIff says what would go wrong.
- Poller.Poller.FilterForwarded: pushes take steps before and during the filter; those during the append of the window touch nothing the poller uses and are taken with the next poll.
- SenderCode.Sender.RunPipeline: retries for a given number of rounds; the code retries until it succeeds or is cancelled.
- SeqTracking.AfterExact: assumes that no call jumps and the pending set never overflows; the other cases are SeqTracking.AfterWithin and SeqTracking.CompletedSoundIff.
