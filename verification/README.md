# Verified model of the stateful parts of libgo

libgo is a library of Go helpers. This project models the packages that hold state machines, protocols
and loops with arithmetic, and proves what they keep over every input, run or interleaving:

- `jsonl`: a log of JSON lines in one file a day. Its writer buffers, rotates at midnight, queues in the
  background and shuts down; its readers scan forward, tail backward in chunks, cross days and
  downsample; its cleaner deletes old days.
- `webssh`: a pool of SFTP connections that any number of goroutines share, and the input filter that takes
  resize frames out of a web terminal's byte stream.
- `etcd`: a client that shares an authentication token between callers, and its watch, which reconnects
  with exponential backoff.
- `upgrade`: replacing a running binary, with backup and rollback.
- `httpd`: the printer of server-sent events, against the parser of sections 9.2.5 and 9.2.6 of the WHATWG
  HTML standard.
- `websocket`: messages read as one stream of bytes.
- `ttlcache`: a cache whose values expire.

What the Go code changes in place is a class or a loop here, and each such method is tied by its `ensures`
to a function of the old state; the lemmas are about those functions. Concurrent code is a step relation:
a run is any sequence of steps, a step that is not possible leaves the state as it is, and so every
interleaving at lock boundaries is a run. System calls, servers, clocks and message readers are parameters
(an answer for each call, a reading for each look at the clock), and the theorems hold for all of them.
JSON, gjson, SHA-256, SSH, HTTP and the websocket library are unknown functions or answers; where a
property needs something of them it is a hypothesis: a marshalled record is one non-empty line without raw
control characters (section 7 of RFC 8259), authentication gives fresh tokens.

`dafny verify dfyconfig.toml` checks everything.

## Where the code falls short of its promise

Some promises hold only under a condition. The condition is proved to be exact, and an input that breaks
the promise is given:

- The forward scan drops a carriage return at the end of a line and stops at lines of 1 MB; the tail does
  neither (`JsonlReader.DirectionsAgree`; `JsonlReader.CarriageReturnDiffers`).
- A handler that answers false ends one file, not the scan (`JsonlScan.StopEndsOneFile`;
  `JsonlScan.StoppedHandlerCalledAgain`).
- Undecodable lines use up the quota of a tail (`JsonlReader.QuotaOfLines`, `JsonlTail.ReadsNewestExactly`,
  `JsonlTail.DecodeTailDaysExact`; `JsonlTail.OlderRecordMissed`).
- The comment on the sampler says that a bucket keeps its last record. The code keeps the record with the
  largest timestamp, the later line among equals; the model follows the code (`JsonlSampled.LastIsKept`,
  `JsonlSampled.SampleKeepsLast`; `JsonlSampled.LastRecordDropped`).
- Timestamps 2^63 seconds or more after the cutoff get a wrong bucket (`JsonlSampled.BucketExact`;
  `JsonlSampled.OverflowLosesLine`).
- Records appended after a torn line, as a crash with a half-flushed buffer leaves it, are not all read back
  (`JsonlRoundTrip.AppendedReadBack`; `JsonlRoundTrip.TornLineJoined`).
- A naming with a separator and no prefix is never cleaned (`JsonlRetain.TrimInvertsNaming`,
  `JsonlRetain.CleaningIsByDate`; `JsonlRetain.SeparatorWithoutPrefix`).
- In asynchronous mode an accepted line is dropped when its day's file cannot be opened, and Close returns
  all the same (`JsonlAsync.NoneDropped`; `JsonlAsync.LineDropped`).
- The pool's key changes between calls when an address names no port (`SftpPool.KeyStable`;
  `SftpPool.KeyChanges`), and different logins can share a key (`SftpPool.ConnKeyShared`;
  `SftpPool.ConnKeyCollision`).
- A getConn in flight can fill the pool again after Close (`SftpClose.CloseEmptiesForGood`;
  `SftpClose.RefilledAfterClose`).
- getConn can return a connection that has been closed meanwhile, after a good probe and after a lost publish
  (`SftpResults.StillPooled`, `SftpResults.ProbedConnStillPooled`, `SftpResults.WinnerStillPooled`;
  `SftpResults.GotClosedConn`, `SftpResults.LoserGotClosedConn`).
- Endpoint rotation stumbles when its counter wraps (`EtcdClient.WrapKeepsRotation`;
  `EtcdClient.WrapRepeatsEndpoint`).
- Committing a binary that already lies at the backup path, or at the target itself, breaks the promises of
  the result (`UpgradeCommit.SuccessMeansInstalled`, `UpgradeCommit.PlainErrorKeepsTarget`;
  `UpgradeCommit.NewBinaryLost`, `UpgradeCommit.TargetModeChanged`).
- Events whose type or data holds a line end, and texts with a lone carriage return, do not round-trip
  (`Sse.RoundTrip`, `Sse.CleanText`; `Sse.UncleanCallsDiffer`).
- A malformed resize frame sets the size 0 by 0, and a size that is not positive is not sent when the
  terminal is enabled (`ResizeReader.LastFrameDecides`, `ResizeReader.LatestIsShown`;
  `ResizeReader.MalformedFrameZeroes`).
- A `Get` that has seen an expired item can delete a value set after its check
  (`TtlCache.LostIfGetInFlight`; `TtlCache.FreshValueLost`).

## Model

| member | source | states |
|---|---|---|
| JsonlLines.PiecesSplit | jsonl/reader.go:216-221 | the lines of a file are newline-free and join back to the file |
| JsonlLines.PiecesUnique | jsonl/reader.go:216-221 | no other newline-free pieces join to the file, so the splitting is the only one |
| JsonlLines.PiecesOfFramed | jsonl/store.go:139 | records written with a newline after each split into those records and a final empty piece |
| JsonlReader.ScanChunk | jsonl/reader.go:215-234 | one chunk, from its end: moves lines to the result so that result and unread bytes still make up the reversed file, until the quota is met or no newline is left |
| JsonlReader.TailLines | jsonl/reader.go:175-249 | for every file, quota, filter and positive chunk size: the first n of the reversed kept lines, however long a line and whether or not the last one ends with a newline; it fails if and only if n is positive and the file cannot be opened, or some chunk cannot be read and fewer than n kept lines are complete in what lies after it |
| JsonlReader.TailChunk | jsonl/reader.go:197-247 | one round of the reading loop: a chunk, its lines, and at the start of the file the carry |
| JsonlReader.OffsetIs | jsonl/reader.go:199-205 | the k-th chunk from the end starts k chunk sizes before the end, or at the start of the file |
| JsonlReader.FoundGrows | jsonl/reader.go:197-247 | reading further back never loses lines, so no bad chunk beyond the one that meets the quota matters |
| JsonlReader.CutAtNewline | jsonl/reader.go:216-230 | cutting the unread bytes at their last newline moves exactly one line to the result |
| JsonlReader.CutAtStart | jsonl/reader.go:238-246 | at the start of the file what is carried over is one line |
| JsonlReader.ScanFile | jsonl/reader.go:15-41 | offers the handler the non-empty filtered lines in order until it answers false, with the error of an unopenable file, an over-long line or a read that fails part of the way, after the lines before it |
| JsonlReader.FirstPiece | jsonl/reader.go:25-29 | the scanner's next token is the first line of what is left |
| JsonlReader.DirectionsAgree | jsonl/reader.go:15-41 | the whole-file tail is the reversed forward scan if and only if no line is 1 MB long or ends with a carriage return |
| JsonlReader.CarriageReturnDiffers | jsonl/reader.go:28-29 | a file on which the two directions differ |
| JsonlReader.LineLimit | jsonl/reader.go:23-28 | a line is offered by the scan if and only if it is shorter than 1048576 bytes, and is an error otherwise |
| JsonlReader.RoundTrip | jsonl/store.go:134-150 | written records come back forward all and in order, backward the last n reversed |
| JsonlReader.DecodeAll | jsonl/reader.go:139-144 | the records of the lines that decode, in order |
| JsonlReader.DecodeTail | jsonl/reader.go:133-146 | the records among the newest n kept lines, newest first; an error exactly when the lines cannot be had, with its kind |
| JsonlReader.QuotaOfLines | jsonl/reader.go:138-145 | they are the newest n records if and only if those lines all decode or no older line does |
| JsonlFilter.AndPasses | jsonl/filter.go:16-38 | the combined filter keeps a line if and only if every filter does, and is nil if and only if all are |
| JsonlFilter.CombineFilters | jsonl/filter.go:16-29 | the collecting loop builds that combination |
| JsonlFilter.RunFilters | jsonl/filter.go:30-37 | the closure's loop answers whether all filters keep the line |
| JsonlNaming.FileNameInjective | jsonl/store.go:34-39 | two dates share a file if and only if they are equal |
| JsonlNaming.DaysBetween | jsonl/retain.go:56-60 | the loop over local midnights gives one name for each day, in order, and ends |
| JsonlNaming.DaysInRange | jsonl/retain.go:45-61 | the names of the days from the start's to the end's; a range that ends before it starts has its first day |
| JsonlNaming.RangeDays | jsonl/retain.go:49-51 | a range that ends before it starts has the first day only |
| JsonlNaming.DaysCover | jsonl/retain.go:45-61 | every instant of the range has its day in the list, at the place its distance from the start gives |
| JsonlNaming.NextName | jsonl/retain.go:57 | neighbours in the list are consecutive calendar days, so there is no gap |
| JsonlNaming.DaysIncrease | jsonl/retain.go:45-61 | the list increases strictly, as dates and as strings |
| Calendar.NextDayNumber | jsonl/retain.go:57 | the day after a date, with leap years and month lengths, has the next day number |
| Calendar.LocalDay | jsonl/retain.go:52-56 | an instant is on a day if and only if it lies between that day's midnight and the next in the zone, offset seconds before the same midnights in UTC |
| Calendar.UnixEpoch | jsonl/retain.go:52-53 | second 0 is the start of 1 January 1970 in UTC |
| Calendar.EastOfUtc | jsonl/retain.go:52-53 | eight hours east of UTC a day begins at 16:00 UTC of the day before |
| Calendar.LeapDays | jsonl/retain.go:57 | the leap days of 2000 and 2024, and none in 2100 |
| Calendar.CalendarOrder | jsonl/retain.go:34 | calendar order of dates is the order of their day numbers |
| Calendar.FormatOrder | jsonl/retain.go:34 | for four-digit years string order of YYYY-MM-DD is calendar order |
| Calendar.FormattedDate | jsonl/retain.go:13 | a date in that layout, character by character |
| JsonlScan.ScanSince | jsonl/reader.go:45-56 | scans the files of the cutoff's day to today's in turn with both filters; the first error ends it |
| JsonlScan.ScanVisitsAll | jsonl/reader.go:49-55 | a handler that always continues is given every line of every file, once, in order |
| JsonlScan.ScanStep | jsonl/reader.go:49-55 | a file read to its end, or whose handler stops, lets the scan go on; any other ends it with the error that file gives |
| JsonlScan.StopEndsOneFile | jsonl/reader.go:36-38 | when a handler stops in one file the scan goes on as if it started with the next; the handler is not called again if and only if the later files, up to the first that cannot be scanned to its end, have no line to offer |
| JsonlScan.StoppedHandlerCalledAgain | jsonl/reader.go:49-53 | a handler that answers false and is called again |
| JsonlScan.ScanSinceIsFullScan | jsonl/reader.go:45-56 | with records filed by their own date the scan gives exactly what filtering the whole log since any earlier first day gives |
| JsonlScan.SinceFilter | jsonl/filter.go:52-60 | a line passes if and only if its field is a number, or a text with an RFC 3339 reading, at or after the cutoff and it passes the extra filter |
| JsonlScan.DecodeSince | jsonl/reader.go:59-70 | the decodable records of that scan, in order, even when the scan ends with an error |
| JsonlTail.DecodeTailDays | jsonl/reader.go:150-171 | day by day from today, each with what is left of the quota; it fails if and only if a day of the range is reached before the limit is met and what is asked of it cannot be read |
| JsonlTail.TailFiles | jsonl/reader.go:156-169 | the loop over days, with its early end once the quota is met |
| JsonlTail.DayFileIs | jsonl/reader.go:157-159 | the file read for a day is named after the date that many days before today |
| JsonlTail.DecodeTailDaysNewest | jsonl/reader.go:150-171 | never more than the limit; when all kept lines decode, the first limit records of the newest-first log of the last days |
| JsonlTail.ReadsNewestExactly | jsonl/reader.go:150-171 | the lines its records come from are the newest ones that hold a record, up to the limit, if and only if on every day, for what the later days leave of the limit, the lines taken all decode or no older line of that day does |
| JsonlTail.PlacesOfRecords | jsonl/reader.go:163-168 | its records are, one by one, those of these lines |
| JsonlTail.DecodeTailDaysExact | jsonl/reader.go:150-171 | likewise for the records themselves, when none occurs on two days |
| JsonlTail.OlderRecordMissed | jsonl/reader.go:159-168 | a day on which an undecodable line hides an older record |
| JsonlTail.DayMeetsQuota | jsonl/reader.go:159-168 | a day gives the newest records asked of it if and only if the lines taken all decode or none of its older lines does |
| JsonlTail.CollectNewest | jsonl/reader.go:156-169 | days that each meet their quota together give the first limit records of the whole log |
| JsonlSampled.FillBuckets | jsonl/reader.go:94-113 | each bucket holds the line with the largest timestamp of its lines, the last of them among equals, and every stamped line has a bucket |
| JsonlSampled.ReadBuckets | jsonl/reader.go:118-128 | walks the buckets in order: the kept line of every non-empty bucket in range |
| JsonlSampled.Sample | jsonl/reader.go:94-129 | the decodable ones of those lines |
| JsonlSampled.DecodeSinceSampled | jsonl/reader.go:79-130 | refines grouping the scanned lines by bucket and keeping the newest of each; without a positive size it is DecodeSince |
| JsonlSampled.SampleMembers | jsonl/reader.go:96-113 | a line is in the sample if and only if its bucket keeps it, so the sample is determined by the lines |
| JsonlSampled.SampleBounded | jsonl/reader.go:118-128 | at most as many records as asked for |
| JsonlSampled.LastIsKept | jsonl/reader.go:78 | a bucket keeps its last line, as the comment says, if and only if no earlier line of it has a later timestamp |
| JsonlSampled.SampleKeepsLast | jsonl/reader.go:78-113 | for a whole sample every bucket keeps its last record if and only if in no bucket an earlier line has a later timestamp than the last |
| JsonlSampled.LastIsKeptInOrder | jsonl/reader.go:78 | so it does for a log in order of time |
| JsonlSampled.LastRecordDropped | jsonl/reader.go:105-108 | two lines of one bucket of which the first is kept |
| JsonlSampled.SampledPromise | jsonl/reader.go:79-130 | at most sampleSize records, and strictly increasing timestamps when their distances from the cutoff fit an int64 |
| JsonlSampled.SampledReaderPromise | jsonl/reader.go:79-130 | the same for a whole call over the files, where only a negative cutoff lets an int64 timestamp lie too far from it |
| JsonlSampled.BucketsSpanWindow | jsonl/reader.go:84-92 | for all int64 values: bucketSeconds times sampleSize covers the window if and only if window and rounding fit an int64, or one second for each bucket is enough |
| JsonlSampled.WindowTooLong | jsonl/reader.go:85-92 | a cutoff for which buckets of one second do not span the window, though a call with it would first have to list some 10^14 days |
| JsonlSampled.ClampingIsForTheFuture | jsonl/reader.go:101-104 | every timestamp before now has its own bucket, so that clamping only affects later ones, on exactly those windows |
| JsonlSampled.BucketMonotone | jsonl/reader.go:101-104 | later timestamps never fall in earlier buckets, and all fall in range |
| JsonlSampled.BucketExact | jsonl/reader.go:101-104 | in 64-bit arithmetic the bucket is the exact one if and only if the distance fits an int64, or there is one bucket and the wrapped distance stays in it |
| JsonlSampled.OverflowLosesLine | jsonl/reader.go:101-104 | a timestamp whose bucket comes out negative and is never read |
| JsonlRetain.Directory.CleanOlderThan | jsonl/retain.go:16-42 | a name is left if and only if it was there and is not both matching, dated at or before the cutoff and removable; what is left is unchanged, and what could not be removed is reported; nothing happens without a positive number of days |
| JsonlRetain.Directory.RemoveUpTo | jsonl/retain.go:27-40 | the loop over the matches |
| JsonlRetain.TrimInvertsNaming | jsonl/retain.go:21-33 | a day's file matches the pattern if and only if there is a prefix or no separator, and then trimming gives its date |
| JsonlRetain.CleaningIsByDate | jsonl/retain.go:20-39 | a day's file is deleted if and only if its date is at least retainDays before today and the naming is not a separator without prefix |
| JsonlRetain.LeftByDate | jsonl/retain.go:16-42 | so a day's file is left if and only if it was there and it is less than retainDays old, could not be removed, or has such a name |
| JsonlRetain.SeparatorWithoutPrefix | jsonl/retain.go:21 | such a naming is never cleaned |
| JsonlRetain.CleaningKeepsScans | jsonl/retain.go:16-42 | a scan with a cutoff in the retained days gives the same result before and after cleaning |
| JsonlStore.BufferWrite | jsonl/store.go:161-164 | what reaches the file and what stays buffered are together the old buffer and the line, and the rest fits the buffer |
| JsonlStore.BufferWriteIs | jsonl/store.go:161-164 | nothing is passed on while all fits; else the buffer is filled up and passed on, and what is left of the line is kept, or passed on if it would not fit |
| JsonlStore.Store.BufferedWrite | jsonl/store.go:161-164 | the buffered writer's loop does that |
| JsonlStore.Store.EnsureFileLocked | jsonl/store.go:170-197 | flushes and closes another day's file before opening today's; a failed open leaves no file open |
| JsonlStore.Store.WriteLocked | jsonl/store.go:153-167 | the line goes to today's file or its buffer, or nowhere when today's file cannot be opened |
| JsonlStore.Store.FlushBuffer | jsonl/store.go:200-207 | the buffer goes to the open file |
| JsonlStore.Store.CloseLocked | jsonl/store.go:220-236 | the buffer goes to the file, and the file is closed |
| JsonlStore.WriteLogs | jsonl/store.go:153-197 | a write adds its line to today's log and to no other day's, and takes nothing off the disk; it succeeds if and only if today's file is open already or can be opened |
| JsonlStore.BytesConserved | jsonl/store.go:153-237 | over every schedule of writes, flushes, date changes in either direction, closes and reopenings: disk and buffer of a date hold what was there and the lines written on it, and the disk holds a prefix |
| JsonlStore.ClosedIsOnDisk | jsonl/store.go:220-236 | after a Close the disk holds all of it |
| JsonlAsync.NothingLostOrReordered | jsonl/store.go:134-263 | in every interleaving: written lines, the line in hand and the queue are the accepted lines in order, and the queue stays within its capacity |
| JsonlAsync.AppendAccepted | jsonl/store.go:141-148 | a line is accepted if and only if the writer is not closed and the queue has room |
| JsonlAsync.BurstAccepted | jsonl/store.go:141-148 | as many lines in a row as the queue holds are accepted before the worker takes any |
| JsonlAsync.FlushedOnDisk | jsonl/store.go:200-263 | a caller's flush, and a tick that finds the worker waiting, put all that is logged on the disk |
| JsonlAsync.ClosedMeansWritten | jsonl/store.go:210-263 | once a Close has returned every accepted line has had its turn, in order, and each file holds what it held and the lines written on its day; when every attempt found its file openable, every accepted line was written on some day |
| JsonlAsync.OutcomesDated | jsonl/store.go:153-167 | a line is without a day only if some attempt found its file unopenable, and a line with one was written while the clock showed it |
| JsonlAsync.NoneDropped | jsonl/store.go:134-263 | no schedule drops an accepted line if and only if the file of every day can be opened |
| JsonlAsync.CloseCanReturn | jsonl/store.go:210-263 | no deadlock: from every reachable state with a Close under way some schedule without a new Append returns it, with every line accepted before written in order |
| JsonlAsync.LaterCloseReturns | jsonl/store.go:210-236 | after the first Close any other returns too, and leaves no file open |
| JsonlAsync.LineDropped | jsonl/store.go:153-167 | a run that accepts a line, drops it and closes |
| JsonlAsync.Exec | jsonl/store.go:134-263 | every run of producers, worker, ticker, flushing callers and Close calls keeps the queue, the handshake and the logs |
| JsonlAsync.QueueStep | jsonl/store.go:141-148 | every step keeps the order and the bound of the queue |
| JsonlAsync.CloseStep | jsonl/store.go:211-218 | every step keeps the close handshake: the worker stops only with the channel closed and drained and the buffer flushed, and no Close passes before |
| JsonlAsync.LogStep | jsonl/store.go:240-263 | every step keeps each date's log equal to what it was and the lines written on it |
| JsonlRoundTrip.WrittenIsFramed | jsonl/store.go:134-167 | what is written on a date is its records, each with one newline |
| JsonlRoundTrip.AppendedReadBack | jsonl/store.go:134-167 | records appended to what a file holds already are read back as lines of their own if and only if it was empty or ended with a newline; otherwise there is one line too few |
| JsonlRoundTrip.KeptAfterTorn | jsonl/store.go:187 | after a torn line the first record is joined to it, and the others are read back |
| JsonlRoundTrip.TornLineJoined | jsonl/store.go:187 | a record joined to a torn line |
| JsonlRoundTrip.ScannedAfterWhole | jsonl/reader.go:15-41 | after whole lines the forward scan offers what it did and then the records |
| JsonlRoundTrip.AppendsReadBack | jsonl/store.go:134-237 | after any appends, flushes, day changes and a Close, a day's file reads forward as what was logged for the day before and then exactly the records appended on it, and backward as the last n of the same list reversed, if and only if what was there did not end with a torn line |
| JsonlRoundTrip.EmptyReadsBack | jsonl/store.go:134-237 | in a file that was empty the records are all there is, in both directions |
| JsonlRoundTrip.AcceptedReadBack | jsonl/store.go:134-263 | in asynchronous mode, in every interleaving and over any number of days, after a Close each day's file reads back as what it held and then the accepted records written on that day, in order; all of them are on some day when every file could be opened |
| JsonlRoundTrip.OneDayReadBack | jsonl/store.go:134-263 | when the clock shows one day at every write and its file can be opened, that file has all accepted records |
| SftpPool.SFTPClient.constructor | webssh/sftp_client.go:46-57 | an empty pool; a timeout that is not positive becomes 30 seconds |
| SftpPool.SFTPClient.GetConn | webssh/sftp_client.go:527-572 | without other goroutines in between: a pooled connection that answers is returned, stays pooled and is used again now; one that does not is closed once and leaves; else the dialled one is pooled with the time of the call; no other entry changes |
| SftpPool.SFTPClient.TouchIfPooled | webssh/sftp_client.go:538-543 | the entry's time of use is now if it is still the pooled one; nothing else changes |
| SftpPool.SFTPClient.DropIfPooled | webssh/sftp_client.go:547-554 | removes the entry only while it is the pooled one; whoever removed it owes its close |
| SftpPool.SFTPClient.PublishIfAbsent | webssh/sftp_client.go:563-571 | pools the new connection unless the key has one, whose connection is then the result |
| SftpPool.SFTPClient.Invalidate | webssh/sftp_client.go:575-583 | removes and closes the key's connection, and no other |
| SftpPool.SFTPClient.EvictIdle | webssh/sftp_client.go:592-600 | takes out entries idle too long when the tick starts, keeps those not idle that long when it ends, and collects their connections |
| SftpPool.UseThenTick | webssh/sftp_client.go:527-600 | a connection getConn has returned is still pooled after a tick that ends no later than the timeout after the call, and gone after one that starts later |
| SftpPool.SFTPClient.TakeAll | webssh/sftp_client.go:60-69 | empties the pool and collects every connection |
| SftpPool.ConnKeyShared | webssh/sftp_client.go:506-508 | two logins share a key if and only if they are equal, or one's user name is the other's, an at sign and a piece that the other's address starts with |
| SftpPool.ConnKeyInjective | webssh/sftp_client.go:506-508 | so logins whose addresses hold no at sign share one only if they are equal |
| SftpPool.ConnKeyCollision | webssh/sftp_client.go:506-508 | two logins with one key |
| SftpPool.KeyStable | webssh/ssh_client.go:21-23 | the key stays the same across calls if and only if the address holds a colon |
| SftpPool.KeyChanges | webssh/ssh_client.go:21-23 | a login with two keys |
| SftpInterleavings.StepKeepsInv | webssh/sftp_client.go:527-609 | every step of any goroutine keeps each connection in exactly one place |
| SftpInterleavings.Run | webssh/sftp_client.go:527-609 | so does every run of any number of goroutines |
| SftpInterleavings.OnePlaceEach | webssh/sftp_client.go:527-609 | at every point of every run a dialled connection is held by its dialler, pooled under one key, owed a close by one goroutine, or closed, and none is closed twice |
| SftpInterleavings.IdleAccounting | webssh/sftp_client.go:527-609 | with all goroutines idle the dialled connections are the pooled and the closed ones, and no connection is both |
| SftpInterleavings.GotTheRightConn | webssh/sftp_client.go:527-572 | getConn only returns connections dialled for the key it was asked for |
| SftpCalls.ReusedConn | webssh/sftp_client.go:531-543 | among other goroutines' connections: an uninterrupted call that finds one that answers returns it, renews its time of use, and changes nothing else |
| SftpCalls.MissedConn | webssh/sftp_client.go:530-557 | a call that finds none goes on to dial, and has changed nothing |
| SftpCalls.DeadConn | webssh/sftp_client.go:545-554 | one that does not answer leaves the pool and is closed once, and the call goes on to dial |
| SftpCalls.DialledConn | webssh/sftp_client.go:557-571 | what was dialled is pooled with the time of the call and returned |
| SftpCalls.LostPublish | webssh/sftp_client.go:563-568 | a call that another goroutine forestalled closes its own connection and returns the other |
| SftpCalls.TickTakesOut | webssh/sftp_client.go:592-604 | the entries a tick chooses leave, and each of their connections is owed a close |
| SftpCalls.CloseTakesAll | webssh/sftp_client.go:60-73 | Close empties the pool and owes the close of every connection in it |
| SftpCalls.OwedIsClosed | webssh/sftp_client.go:602-604 | a connection owed a close is closed, one at a time |
| SftpCalls.InvalidateCloses | webssh/sftp_client.go:575-583 | invalidate takes out and closes the key's connection in one step |
| SftpCalls.PrivateConnClosed | webssh/sftp_client.go:159-178 | the connection of a Download never enters the pool, and is closed |
| SftpClose.EmptiedForGood | webssh/sftp_client.go:527-572 | an emptied pool can be filled again without a new getConn if and only if one that may still dial is in flight |
| SftpClose.CloseEmptiesForGood | webssh/sftp_client.go:60-73 | at any point of any run Close empties the pool for good if and only if no getConn that may still dial is in flight when it takes the lock |
| SftpClose.RefilledAfterClose | webssh/sftp_client.go:60-73 | a run that closes the client and fills its pool again |
| SftpResults.GotConnState | webssh/sftp_client.go:527-572 | in every run a connection getConn has returned is pooled under the key asked for, owed a close, or closed; it is never another key's or still its dialler's |
| SftpResults.StillPooled | webssh/sftp_client.go:527-609 | over any run a pooled connection is still pooled under its key if and only if no step has taken the key's entry out; it never comes back |
| SftpResults.ProbedConnStillPooled | webssh/sftp_client.go:531-545 | the connection returned after a good probe is still pooled if and only if no step since it was looked up has taken the key's entry out |
| SftpResults.WinnerStillPooled | webssh/sftp_client.go:563-568 | the connection returned after a lost publish is still pooled if and only if no step since it was found has taken the key's entry out |
| SftpResults.OwnConnPooled | webssh/sftp_client.go:569-571 | the connection returned after a publish of its own is pooled |
| SftpResults.GotClosedConn | webssh/sftp_client.go:537-545 | a run in which getConn returns a closed connection after a good probe |
| SftpResults.LoserGotClosedConn | webssh/sftp_client.go:563-568 | a run in which it returns one after a lost publish |
| EtcdClient.Client.EnsureToken | etcd/client.go:178-193 | asks the next endpoint only with a user name and no cached token, and caches its answer |
| EtcdClient.Client.ResetToken | etcd/client.go:196-202 | clears the token only if it is the one used |
| EtcdClient.Client.Endpoint | etcd/client.go:205-211 | the next endpoint in turn, or the default one |
| EtcdClient.Client.Do | etcd/client.go:97-122 | the first request carries the cached token, or a new one when none is cached; a second is sent if and only if the first is answered 401, there is a user name and the new authentication succeeds, and carries the new token; a rejected token is forgotten; the result is the last request's or the failed authentication's; every exchange uses the next endpoint |
| EtcdClient.RoundRobin | etcd/client.go:205-211 | until the counter wraps, of as many picks in a row as there are endpoints exactly one gives each endpoint |
| EtcdClient.WrapKeepsRotation | etcd/client.go:209 | across the wrap the rotation goes on if and only if the number of endpoints divides 2^64 |
| EtcdClient.WrapRepeatsEndpoint | etcd/client.go:209 | with three endpoints the wrap uses one twice in a row |
| EtcdTokens.TokenStep | etcd/client.go:178-202 | every step keeps issued tokens equal to the cleared ones and the cached one, in order |
| EtcdTokens.CallersStep | etcd/client.go:97-222 | every step keeps at most one caller authenticating, only while no token is cached, and at most two requests a call |
| EtcdTokens.Run | etcd/client.go:97-222 | so does every run of any number of callers |
| EtcdTokens.TokenAccounting | etcd/client.go:97-222 | in every interleaving: authentications are effective resets plus one if a token is cached; no token is cleared twice; tokens issued are at most one more than tokens rejected, however many 401 replies there were; no call sends more than two requests |
| EtcdTokens.OldRejectionHarmless | etcd/client.go:196-202 | a reset only takes away the very token that was used; for one cleared before it changes nothing |
| EtcdTokens.RejectedIsReplaced | etcd/client.go:106-117 | when the cached token is rejected it is cleared, and the second request carries the one the caller then gets |
| EtcdTokens.ReplacementIsUsed | etcd/client.go:106-117 | when another caller has replaced it already, that one is used without a new authentication |
| EtcdTokens.SecondRejectionEnds | etcd/client.go:106-117 | a second rejection ends the call and clears nothing |
| EtcdWatch.WatchOnce | etcd/watch.go:110-205 | a rejection is never connected and resets the token; the events delivered are the well-formed ones of the stream and the errors offered those of the server and of malformed events, in order, and all of them unless cancelled; it ends as cancelled if and only if the context was cancelled before a line, at a delivery or with an error of the transport or the scanner |
| EtcdWatch.ReadStream | etcd/watch.go:148-196 | the loop over the lines of the stream |
| EtcdWatch.SendEvents | etcd/watch.go:176-195 | the loop over the events of one message |
| EtcdWatch.EventsRecovered | etcd/watch.go:176-195 | the well-formed events a server sent can be told from those delivered |
| EtcdWatch.Reconnect | etcd/watch.go:49-103 | after each attempt the right pause: none after the first rejection in a row, else the backoff of the waits since the start or the last connected attempt; it ends only by cancellation, and no attempt or wait outlives that |
| EtcdWatch.AtOnce | etcd/watch.go:70-90 | a reconnect is immediate if and only if the attempt was rejected and the one before it was not |
| EtcdWatch.NextWait | etcd/watch.go:70-101 | from one wait to the next: a second after a connected attempt, else twice as long up to 30 seconds |
| EtcdWatch.BackoffDoubles | etcd/watch.go:96-101 | backoff stays between 1 and 30 seconds, and doubling with the cap gives min(2^j, 30) |
| EtcdWatch.ImmediatesApart | etcd/watch.go:85-95 | two immediate reconnects always have a wait between them |
| EtcdWatch.AttemptsBounded | etcd/watch.go:56-102 | attempts started are at most twice the waits plus two |
| EtcdWatch.DelayByStretches | etcd/watch.go:70-101 | in every run each stretch between connected attempts costs the closed form of its number of waits, and the stretches have all the waits among them |
| EtcdWatch.DelayClosedForm | etcd/watch.go:90-101 | without a connected attempt the total delay is a closed form of the number of waits |
| UpgradeCommit.FileSystem.CommitBinary | upgrade/helper.go:49-87 | makes the system calls in that order whatever each answers, with the resulting error and files, and every intermediate state recorded; it succeeds if and only if the new binary is there and is not the target, and chmod, stat, install and, with an old target, clearing the backup and moving aside do not fail |
| UpgradeCommit.FileSystem.MoveAside | upgrade/helper.go:58-71 | moves an existing target to the backup path, over an old backup, which need not be there |
| UpgradeCommit.FileSystem.Install | upgrade/helper.go:73-86 | puts the new binary in place, or the old one back |
| UpgradeCommit.CommitOutcome | upgrade/helper.go:49-87 | for all files and faults: exactly when a commit succeeds, when it ends in a failed rollback, and when with a missing file |
| UpgradeCommit.OrdinaryCommit | upgrade/helper.go:49-87 | without faults a new binary that lies neither at the target nor at the backup path ends up at the target with its mode, and its own path and the backup are gone, whether or not there was an old target or an old backup |
| UpgradeCommit.SuccessMeansInstalled | upgrade/helper.go:49-87 | success means the target holds the new bytes and mode, for all faults, if and only if the new binary is not at the backup path of an existing target (or equals the target) |
| UpgradeCommit.PlainErrorKeepsTarget | upgrade/helper.go:54-80 | a plain error leaves the target as it was, for all faults, if and only if the new binary is not the target itself (or its mode is right already) |
| UpgradeCommit.RollbackKeepsBackup | upgrade/helper.go:73-80 | on a failed rollback the old bytes are at the backup path |
| UpgradeCommit.AlwaysRecoverable | upgrade/helper.go:49-87 | after every single system call the old bytes are at the target or the backup path, until the new bytes are at the target |
| UpgradeCommit.NewBinaryLost | upgrade/helper.go:61-73 | a commit that succeeds with the old binary at the target |
| UpgradeCommit.TargetModeChanged | upgrade/helper.go:54-80 | a commit that fails with the mode of the target changed |
| UpgradeCommit.SuccessCleansUp | upgrade/helper.go:73-84 | success uses up the new binary's path, and a backup is left if and only if its removal failed or, without an old target, it was there before |
| UpgradeCommit.OthersUntouched | upgrade/helper.go:49-87 | no exit changes any other file |
| Updater.ChecksumRoundTrip | upgrade/helper.go:12-24 | every digest has a value that parses to it |
| Updater.ChecksumFormat | upgrade/helper.go:12-24 | a checksum is accepted if and only if it is empty or 64 hex digits in either case, and is what it spells |
| Updater.HexRoundTrip | upgrade/helper.go:16 | decoding inverts encoding |
| Updater.DecodableHex | upgrade/helper.go:16 | a text decodes if and only if it is pairs of hex digits |
| Updater.DecodedSpells | upgrade/helper.go:16 | a text decodes to the bytes it spells, in either case |
| Updater.BinaryUpdater.Init | upgrade/updater.go:16-46 | the defaults of versions, target, mode and new path; it fails only when the program's own path is needed and unknown |
| Updater.Updater.Prepare | upgrade/upgrade.go:126-143 | the updater for an offered package, with its checksum, paths and mode, or the error it ends with |
| Updater.DefaultPathsDistinct | upgrade/updater.go:41-43 | the default new path is never the target, and is the backup path if and only if the old version is the new one with the temporary suffix |
| Updater.Updater.VerifyAndCommit | upgrade/updater.go:49-56 | fails on its checksum if and only if one is given and the binary cannot be read or does not match; else it is committed, and applied exactly when the commit succeeds; with what each exit leaves |
| Updater.Updater.Apply | upgrade/upgrade.go:103-173 | each outcome, exactly: applied if and only if a package is offered over https with a well-formed checksum or none, the target is known, the download succeeds and matches, and the commit succeeds; nothing is touched before the download; success means the verified download is at the target, with the right mode; a failed commit leaves the old target in place or at the backup path |
| Sse.Writer.Write | httpd/sse.go:50-71 | succeeds if and only if every write does, and then sends the whole event; else it has sent the lines before the first failed write and the part of it that went through |
| Sse.Writer.WriteOneEvent | httpd/sse.go:73-82 | sends the event's lines in one write, or the part of it that went through |
| Sse.SentIsPrefix | httpd/sse.go:60-67 | what a failed call has sent is the beginning of what it meant to send |
| Sse.TrimRight | httpd/sse.go:53 | the text without its final line feeds, and no less |
| Sse.CallReadBack | httpd/sse.go:60-76 | the lines of a call are read back as printed, whatever follows in the stream |
| Sse.FieldReadBack | httpd/sse.go:60-76 | a printed field is parsed to its name and its value, leading blanks included |
| Sse.CleanCalls | httpd/sse.go:50-82 | any number of clean calls: one event for each that has something to say, in order, unchanged |
| Sse.LossyCall | httpd/sse.go:73-82 | event data with a line feed loses some of it |
| Sse.RoundTrip | httpd/sse.go:50-82 | parsing what was printed gives exactly the events the calls stand for, inner blank lines and leading blanks kept, if and only if every text is free of carriage returns once normalised and every event type and event data is one line |
| Sse.CleanText | httpd/sse.go:53 | a text is free of carriage returns once normalised if and only if each is followed by a line feed |
| SseParts.MixedNormalised | httpd/sse.go:53 | lines separated by CRLF and line feeds in any mix come out joined by line feeds |
| SseParts.CrlfOnly | httpd/sse.go:53 | a text is unchanged if and only if it holds no CRLF |
| SseParts.TrimmedLines | httpd/sse.go:53 | trimming drops the trailing empty lines and no other |
| SseParts.MixedEmitted | httpd/sse.go:50-71 | one data line is sent for each line of such a text but the trailing empty ones, and a blank line |
| SseParts.MixedReadBack | httpd/sse.go:50-71 | a client reads those lines joined by line feeds as one event, and nothing when all are empty |
| SseParts.CrlfOnTheWire | httpd/sse.go:50-71 | two lines with a CRLF between, as they are sent |
| SseParts.LineEndings | httpd/sse.go:60-76 | the client ends a line at a CRLF or a line feed (section 9.2.5) |
| SseParts.ReturnEndsLine | httpd/sse.go:53 | and at a lone carriage return |
| Sse.UncleanCallsDiffer | httpd/sse.go:50-82 | a text and an event that do not come back |
| WsConn.Conn.Read | websocket/conn.go:44-68 | takes bytes off the front of one message, as many as its reader gives, leaving used-up messages behind; it fails only when a reader fails, no message comes or nothing is left, and comes back empty for no other reason than a reader that gives nothing |
| WsConn.StepConserves | websocket/conn.go:44-68 | no read loses, repeats or reorders a byte |
| WsConn.StreamIsPrefix | websocket/conn.go:43-68 | the results of any run, put together, are a prefix of the payloads put together |
| WsConn.ResultsWithinMessages | websocket/conn.go:44-68 | no result spans two messages: the results of any run group, in order, into prefixes of the messages |
| ResizeReader.SizeFromFrame | webssh/session.go:175-197 | control frames are exactly what starts with the prefix, and a size comes out if and only if the frame is the prefix, two numbers of 10 to 1000 and 3 to 1000 and one colon between |
| ResizeReader.PrintedSize | webssh/session.go:175-197 | a printed size is read back, and one out of range is read as 0 by 0 |
| ResizeReader.SignedDecimal | webssh/session.go:184-191 | a decimal is read with or without a sign, as far as 64 bits reach |
| ResizeReader.OnlyDecimals | webssh/session.go:184-191 | and nothing else is |
| ResizeReader.TerminalResizeReader.Hand | webssh/session.go:131-135 | what fits is copied, and the rest stays pending |
| ResizeReader.TerminalResizeReader.Receive | webssh/session.go:137-141 | one read of the connection neither loses nor repeats a byte |
| ResizeReader.TerminalResizeReader.Read | webssh/session.go:129-153 | bytes given and pending are always the chunks that are not control frames, in order; one Resize call for each control frame; nothing of the connection's stream is lost |
| ResizeReader.TerminalResizeReader.Enable | webssh/session.go:155-162 | makes the terminal ready, and sends the size kept so far if it is positive |
| ResizeReader.TerminalResizeReader.Resize | webssh/session.go:164-173 | keeps the size, and sends it if the terminal is ready |
| ResizeReader.LatestIsShown | webssh/session.go:155-173 | for any order of calls the session never has an outdated size, and once enabled it has the latest one if and only if that is positive or some size came after enabling |
| ResizeReader.LastFrameDecides | webssh/session.go:129-197 | the last well-formed frame decides the size, wherever the terminal was enabled, if and only if no malformed frame follows |
| ResizeReader.MalformedFrameZeroes | webssh/session.go:155-197 | a frame that takes a size back, and one before enabling that is never sent |
| TtlCache.TimedCache.Set | ttlcache/timed.go:47-54 | the key's item is the value with the time of the call |
| TtlCache.TimedCache.Get | ttlcache/timed.go:57-75 | the value if it is younger than the interval; an older one is deleted |
| TtlCache.TimedCache.DeleteExpired | ttlcache/timed.go:78-86 | deletes only items that are older than the interval when it ends, and all that were so when it started; the others are unchanged |
| TtlCache.ItemsAreLatest | ttlcache/timed.go:47-86 | an item that is there is the latest set; one that is not was never set or has expired |
| TtlCache.GetIsLatest | ttlcache/timed.go:57-75 | over any history with a monotone clock Get returns a value if and only if the latest Set stored it less than the interval ago |
| TtlCache.GetAlone | ttlcache/timed.go:57-75 | a Get that nothing interrupts answers, and deletes, as the call in one piece does |
| TtlCache.LostIfGetInFlight | ttlcache/timed.go:57-86 | from any state and in every interleaving: a value just set can be missing before it expires if and only if a Get of its key is in flight that has found the old item expired or holds an item made before |
| TtlCache.NeverLostAlone | ttlcache/timed.go:57-86 | so a value set while no Get is in flight is never lost |
| TtlCache.ReturnedWasCurrent | ttlcache/timed.go:57-75 | in every interleaving a returned value was the latest set at the snapshot and not expired at the check |
| TtlCache.FreshValueLost | ttlcache/timed.go:66-71 | an interleaving in which a fresh value is deleted |

## Left out

- The SDK wrappers and the packages `request`, `dborm`, `psutil`, `gpu`, `logman`, `archive`, `filer`, `certify`, `secure`, `strutil`, `relay`: calls into systems and libraries that cannot be seen, or short members that would only add easy claims.
- SftpInterleavings.StepKeepsInv: a step is one critical section or one probe, dial or close, so data races inside a critical section are not modelled; a second Close, which panics, is a step that cannot be taken.
- SftpPool.SFTPClient.GetConn: is the call without other goroutines in between; with them it is the steps of `SftpInterleavings.Next`.
- JsonlStore.Store.WriteLocked: opening a file can fail, but a write to one that is open cannot, so a failed or partial write of the operating system is not modelled.
- JsonlStore.Store.BufferedWrite: for the same reason does not model the sticky error of the buffer.
- JsonlStore.Store.FlushBuffer: does not model the error of a flush.
- JsonlStore.Store.CloseLocked: does not model the errors of the last flush and of closing the file.
- JsonlAsync.ClosedMeansWritten: an Append after the channel has been closed, which panics in Go, is refused here; synchronous Appends beside the worker are covered by `JsonlStore.BytesConserved`.
- JsonlReader.TailLines: the result is allocated for n lines before any is read, so an n too large for memory, which panics in Go, is not modelled. A read that returns fewer bytes than asked for because the file was cut while being read is not modelled; the file does not change during a call.
- JsonlTail.DecodeTailDays: in the same way its result is allocated for the limit beforehand.
- JsonlTail.DecodeTailDaysExact: asks that no record occurs on two days, since a day that misses its quota can otherwise give the right records by coincidence; `JsonlTail.ReadsNewestExactly` says the same of where the records come from and needs no such condition.
- JsonlNaming.DaysInRange: zones have a fixed offset, so a midnight that a clock change skips is not modelled; dates and times are unbounded integers.
- JsonlRetain.Directory.CleanOlderThan: names hold no glob characters, so the glob's own error is not modelled.
- JsonlRetain.CleaningIsByDate: prefix, separator and suffix hold no glob characters, and the cleaner's local zone is the caller's notion of today.
- JsonlNaming.FileNameInjective: is about names; joining them to a directory is left out.
- JsonlFilter.AndPasses: filters are pure; `StrEq` is one of them and has no row of its own.
- EtcdTokens.TokenAccounting: authentication gives fresh, non-empty tokens; a server that answers with an empty or an old one is outside this count, though `EtcdClient.Client.EnsureToken` allows it.
- EtcdClient.Client.Do: request building, deadlines and reading the body are one answer.
- EtcdClient.RoundRobin: is about one caller's sequence of counter values, which other callers' calls interleave with.
- EtcdWatch.WatchOnce: whether the channel of errors has room for what is offered to it is left out; a line too long for the scanner ends the stream with an error.
- EtcdWatch.Reconnect: the error each failed attempt offers to that channel is left out.
- EtcdWatch.DelayClosedForm: counts the waits themselves, not the time attempts take.
- Updater.Updater.Apply: the download handler, the check request and the restart are parameters or left out; paths are compared as strings, so links and different spellings of one path are not modelled.
- UpgradeCommit.FileSystem.CommitBinary: a rename is atomic and directories are not modelled; a target that is a directory is outside the model.
- Sse.Writer.Write: text is a sequence of characters, so bytes that are not UTF-8 are not modelled.
- Sse.RoundTrip: the parser's `id` and `retry` fields set nothing that a dispatched event holds, so they are ignored.
- WsConn.Conn.Read: `ReadJSON` on the same connection, which abandons the current message, and deadlines are left out.
- ResizeReader.TerminalResizeReader.Read: is atomic with respect to `Enable`; an `Enable` in the middle of a Read is covered by `ResizeReader.LastFrameDecides`, which holds for every order of the calls. A control frame that the websocket library hands out in two pieces is input to the session, as in the code.
- TtlCache.LostIfGetInFlight: a sweep is one step, and its items are compared with one reading of the clock; `TtlCache.TimedCache.DeleteExpired` has a reading for each item.
- TtlCache.GetIsLatest: the wall clock is read through Go's monotone reading; stopping the cleaner is left out.
