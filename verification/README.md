# mini-SIEM: verified models

Dafny models of the protocols and algorithms inside mini-SIEM, with proofs of what they
promise. `dafny verify dfyconfig.toml` checks everything. Code that changes state step by step
is a class or a method with loops, proved equal to a function of the old state; the properties
are lemmas about those functions, over every input, every run or every interleaving.

| files | subject |
|---|---|
| `ExportLane`, `ExportSync`, `ExportProgress`, `ExportExpiry`, `ExportRevisions`, `ExportCapacity` | dashboard export: revisions, frozen snapshots, incremental pages, convergence of a reader, expiry of cursors, capacity |
| `SyslogFraming`, `SyslogStreams`, `SyslogRelay`, `SyslogSessions` | RFC 6587 (sections 3.4.1 and 3.4.2) framing of TCP syslog, the relay's encoder, and what whole connections deliver |
| `JobLeases`, `LeaseCalls` | job leases shared by processes, and what one call does |
| `ArchiveSegment`, `ArchiveLifecycle`, `ArchiveOwnership`, `ArchiveModes` | deduplicated archive segments, their life from hot rows to sealed files, how often a log is sealed, and what stays hot in either mode |
| `ThresholdRules`, `ThresholdWindows`, `ThresholdReplay`, `DetectionSharding` | sliding-window rules: live, declarative, replayed, and split over processes |
| `IngestQueues` | bounded keyed queues of the ingest pipeline |
| `FieldIndex`, `SqlLike`, `LogSql`, `LogQuery`, `LogQueryMeaning`, `LogQueryResults`, `LogQueryReading`, `LogQueryRequests` | the log search: two forms of the field index, LIKE patterns, SQL with positional holes, the compiler, its meaning, and what the texts of a request select |
| `PivotDiscovery` | bounded breadth-first discovery of related addresses |
| `SequenceCorrelation` | "A then B" correlation |
| `TelemetrySilence`, `TelemetryRuns`, `TelemetryOutages`, `TelemetryAlerts` | telemetry monitors over one shared state row |
| `DuplicateLinking`, `DuplicateIdentity` | linking repeated findings into one alert |
| `ScheduleWindows` | schedule windows and clock times |
| `Options` | the optional value |

Results that are not what one might expect of the code:

- A snapshot expires by a clock reading from before its rows are copied, a cursor into it by one
  from after the commit. A valid cursor is answered in every continuation exactly if it expires at
  most one second after its snapshot, so an opening of two seconds or more can end in a refusal
  (`ExportExpiry.ServedIff`, `ExportExpiry.ValidCursorRefused`). What a reader holds stays right all
  the same.
- A `hold` that asks for less time than its process still has lets a second process in, because
  the row is shortened before the local expiry is; with one fixed term per name exclusion holds
  (`JobLeases.ExclusionIffNotShortened`, `JobLeases.FixedTermsExclude`).
- Newline framing returns the relayed messages exactly when every line fits a frame, no non-blank
  message holds a line feed and the first one does not look like an octet count
  (`SyslogRelay.LineRoundTrip`).
- A lane goes quiet exactly when its source lists no external id twice with different contents;
  the assets lane can (`ExportSync.QuiescenceIff`).
- No log is in two sealed segments exactly as long as no commit seals a log that is catalogued
  already; two archivers that selected the same rows do that, one archiver never does
  (`ArchiveOwnership.LogsAreSealedOnceIff`). Nothing is lost either way.
- A tick reads its clock before its transaction. Outage alerts of a key stay separated by a newer
  receipt in every continuation exactly if no commit closes an outage on the receipt its alert told
  of, which takes a reading from before the silence; a run with two alerts on one receipt exists
  for every limit (`TelemetryOutages.SeparationIff`, `TelemetryOutages.OneReceiptAlertedTwice`).
- `_run_sequence` fails on an A row that is too old if the minimum count is below one. Every
  shipped playbook asks for three, five or ten, and no route changes it
  (`SequenceCorrelation.NeverFailsIff`).
- Configuration accepts dates without leading zeros, but windows compare texts: such a date never
  opens a window and such an exclusion excludes nothing, unless another entry covers the day
  (`ScheduleWindows.WindowsMeanWhatTheySayIff`).
- An event is listed exactly once if every joined filter fits exactly one of its field rows; two
  names that agree in their first sixty characters break that (`LogQueryResults.ListedOnceIff`,
  `LogQueryResults.CollidingNamesListTwice`).
- Blank hosts and addresses are stored as nulls. A negated filter does not list events whose column
  is null, so these are in neither answer unless an alias field confirms them
  (`LogQueryMeaning.LostToNegationIff`).
- An event stored under another spelling of a severity is found by the level's name, but `>=` and
  `>` never list it and `<` and `<=` always do (`LogQueryReading.VariantsFallBelow`).
- An event that is linked again while still referenced keeps its old place among the references of
  an alert; one that was trimmed comes back as the newest (`DuplicateLinking.LinkMeans`).

## Model

| member | source | states |
|---|---|---|
| ExportLanes.ExportLane.NextSequence | dashboard_connector.py:489-497 | Numbers are handed out one by one and never again. |
| ExportLanes.ExportLane.RefreshLane | dashboard_connector.py:500-535 | The loop leaves exactly the lane of the refresh law below: every changed candidate one revision on, or at its first, under a new sequence number, or, if one record is too large, nothing at all; sequences stay distinct and below the counter. |
| ExportLanes.Refresh | dashboard_connector.py:500-535 | Refreshing keeps the lane well-formed: sequences stay distinct and below the counter. |
| ExportLanes.ExportLane.NewSnapshot | dashboard_connector.py:538-581 | Refresh, then freeze all rows up to the watermark under a fresh name with an expiry from the first clock reading and a cursor from the second, unless the refresh fails or the snapshot count over all lanes, the record or the byte capacity is exhausted. |
| ExportLanes.ExportLane.FitPage | dashboard_connector.py:584-594 | The page is the specified prefix of the rows, and "more" is said exactly when it is shorter than they are. |
| ExportLanes.ExportLane.ResourcePage | dashboard_connector.py:631-667 | One page request, with its error replies, has exactly the specified effect on records, counter and snapshots and the specified reply. |
| ExportSync.PageIsLongestFit | dashboard_connector.py:584-594 | A page is the only prefix that uses the byte and row budget up; a first row goes out however large it is. |
| ExportSync.RowsAreOrdered | dashboard_connector.py:615-618 | Incremental rows come strictly ascending by sequence, all behind the checkpoint. |
| ExportSync.RowsAreStored | dashboard_connector.py:615-618 | They are exactly the stored records whose sequence lies behind the checkpoint: none invented, none skipped. |
| ExportSync.ServeAdvances | dashboard_connector.py:500-535 | In every request revisions and sequences only grow, and a record changes only under a higher sequence. |
| ExportSync.ServeKeepsSnapshots | dashboard_connector.py:538-581 | No request alters a snapshot, removes it before its own expiry, or gives its name again. |
| ExportSync.WholeSnapshotIsCurrent | dashboard_connector.py:560-581 | Reading all frozen rows leaves a reader current up to the watermark although records went on changing. |
| ExportSync.StepKeepsConsistent | dashboard_connector.py:489-628 | Every event (a change of the source, another reader, a page, a lost reply, time passing) keeps the reader's view consistent with the lane up to its checkpoint. |
| ExportSync.RunsAreConsistent | dashboard_connector.py:489-628 | So does every run from an empty lane. |
| ExportSync.Convergence | dashboard_connector.py:597-628 | In every run, when an incremental page says there is no more, the reader's folded view is exactly the latest record of every external id and shows what the source lists. |
| ExportExpiry.ServedMeansPage | dashboard_connector.py:597-603 | A reader with a valid cursor into a snapshot gets a page exactly if the snapshot is still there, and else is told to start again. |
| ExportExpiry.CursorsHandedOut | dashboard_connector.py:572-622 | A page of a snapshot hands on its cursor with the same expiry; an opening hands out one that outlives the snapshot by the time the opening took. |
| ExportExpiry.ServedIff | dashboard_connector.py:541-581 | In every continuation a valid cursor is answered with a page if and only if it expires at most one second after its snapshot. |
| ExportExpiry.OpeningServedIff | dashboard_connector.py:541-581 | For an opening this is so if and only if its two clock readings are at most a second apart. |
| ExportExpiry.PromptReadersAreServed | dashboard_connector.py:538-603 | In every run a reader whose own requests take at most a second is never refused with a valid cursor, however slow other readers are. |
| ExportExpiry.ValidCursorRefused | dashboard_connector.py:541-581 | For every slower opening there is a run from an empty lane in which a valid cursor is refused. |
| ExportSync.RefreshStoresSource | dashboard_connector.py:508-535 | After a refresh every candidate is stored with its content, if no id is listed with two contents. |
| ExportSync.RefreshIdleIff | dashboard_connector.py:508-514 | A refresh changes nothing exactly when every candidate is already stored unchanged. |
| ExportSync.QuiescenceIff | dashboard_connector.py:437-463 | A second refresh with the same source is idle exactly when no external id is listed twice with different contents. |
| ExportProgress.RowsBehindPage | dashboard_connector.py:615-622 | Moving the checkpoint to the end of a page leaves exactly the remaining rows. |
| ExportProgress.PollMakesProgress | dashboard_connector.py:597-628 | With a quiet source every delivered page, however long it took, strictly lowers the number of rows left, and "more" is said exactly while some are left. |
| ExportProgress.QuietSourceDrains | dashboard_connector.py:597-628 | After as many pages as rows remained the reader has everything. |
| ExportProgress.QuietSourceIsRead | dashboard_connector.py:538-628 | From its first request on, a reader has everything after at most two more pages than there are rows. |
| ExportRevisions.RevisionsAddUp | dashboard_connector.py:508-535 | In every run from an empty lane the revisions of all records add up to the sequence numbers given out: each stored version took exactly one, and none was skipped or used twice. |
| ExportRevisions.RefreshIsExact | dashboard_connector.py:508-535 | A refresh of distinct ids fails exactly if some changed record would exceed 262144 bytes or its provenance 65536; otherwise the k-th change gets the k-th next sequence number, one revision on if stored and the first if new, and everything else stays as it was. |
| ExportCapacity.OpeningGrantedIff | dashboard_connector.py:548-581 | An opening under a new name is granted exactly if the refresh succeeds, the unexpired snapshots of the caller, over all lanes, are fewer than allowed, and rows and bytes fit; then it freezes all rows. |
| ExportCapacity.SnapshotsStayWithinLimits | dashboard_connector.py:559-564 | In every run no snapshot holds more records or bytes than allowed. |
| ExportCapacity.ExpiredCursorsAreRefused | dashboard_connector.py:319-338 | From its expiry on a cursor is refused, and the request changes nothing. |
| ExportCapacity.LiveCursorsLastADay | dashboard_connector.py:619-629 | The cursor of an incremental page lasts a day from the last clock reading. |
| ExportCapacity.BytesAddUp | dashboard_connector.py:587-593 | The size of a page or snapshot is the sum of its rows, with the separator behind each row. |
| SyslogFraming.Framer.SelectMode | listener.py:960-974 | The mode is chosen once, by the octet-count prefix, and an undecided digit prefix waits. |
| SyslogFraming.Framer.FeedOctet | listener.py:982-1005 | The loop raises or yields frames exactly as scanning the whole buffer does, and keeps the unread rest. |
| SyslogFraming.Framer.FeedNewline | listener.py:1007-1019 | The loop raises or delivers as scanning the buffer line by line does, and at the end of the stream adds the non-blank rest behind the last line feed, which whole connections then show to be the unterminated message. |
| SyslogFraming.Framer.Feed | listener.py:976-1028 | One call raises exactly when the specified step does, and otherwise gives its frames and leaves its state; what a whole connection of such calls delivers is stated by `LineSession` and `OctetSession` on its bytes alone. |
| SyslogStreams.OctetScanResumes | listener.py:982-1005 | Scanning a stream equals scanning a beginning and going on from its residue, errors included. |
| SyslogStreams.LineScanResumes | listener.py:1007-1019 | The same for lines. |
| SyslogStreams.UndecidedTooLong | listener.py:1021-1024 | A prefix rejected while undecided is rejected under every continuation. |
| SyslogStreams.ChunkIndependence | listener.py:960-1028 | Feeding any chunks equals feeding their concatenation: same error or not, same frames, mode and buffer. |
| SyslogStreams.SameStreamSameOutcome | listener.py:960-1028 | Two splits of one stream cannot be told apart. |
| SyslogStreams.SessionIndependence | listener.py:1025-1028 | The end of the stream included. |
| SyslogStreams.StepSettles | listener.py:976-1028 | Between calls the buffer is a fixed point of the scan and bounded. |
| SyslogStreams.BufferBound | listener.py:1023-1024 | After any chunks at most max_frame_bytes + 11 bytes are held. |
| SyslogRelay.RuntimeForwarder.SendTcp | forwarder.py:177-191 | The wire grows by the encoding of the payload in the configured framing. |
| SyslogRelay.OctetRoundTrip | forwarder.py:184-188 | Octet-counted payloads of at most max_frame_bytes arrive exactly, in order, under every chunking (blank ones are dropped), and nothing is held back. |
| SyslogRelay.OctetAcceptsOnlyEncodings | listener.py:982-1005 | Conversely, what the receiver accepts is the encoding of what it delivers plus an unread rest: no frame is cut or merged. |
| SyslogRelay.BodiesWereSendable | listener.py:992-998 | Every accepted body is one the relay could have sent. |
| SyslogRelay.FrameIsEncoding | listener.py:984-998 | A count is read only from its own decimal rendering. |
| SyslogRelay.LineRoundTrip | forwarder.py:189-191 | For every list of messages, newline framing leaves the receiver in newline mode with exactly the non-blank ones and nothing held back, if and only if every line fits a frame, no non-blank message holds a line feed and the first does not look like an octet count. |
| SyslogRelay.BlankLinesVanish | listener.py:1008-1015 | Blank payloads leave no frame whatever line feeds they hold. |
| SyslogRelay.LongLinesAreRefused | listener.py:1008-1012 | Relayed messages are refused exactly if one has a line longer than a frame may be. |
| SyslogSessions.StreamIsLines | listener.py:1007-1019 | Every stream is lines with their line feeds and a rest without one, so the next two statements cover every connection. |
| SyslogSessions.BlankIff | listener.py:1003-1018 | A blank frame consists of ASCII blanks. |
| SyslogSessions.NonBlankKeeps | listener.py:1003-1018 | Of a list of frames exactly the blank ones are dropped, and the others are delivered as often as they are there. |
| SyslogSessions.LineSession | listener.py:976-1028 | A connection that does not start with an octet count raises exactly if a line, the unterminated last one included, is longer than a frame may be; otherwise it delivers the non-blank lines in order, with the last one although nothing terminates it, under every chunking. |
| SyslogSessions.UnterminatedMessage | listener.py:1016-1018 | A sender that writes one message without a line feed and closes has it delivered. |
| SyslogSessions.OctetSession | listener.py:976-1028 | A connection that starts with an octet count raises unless its bytes are exactly a concatenation of encodings of frames that fit, and then delivers the non-blank ones in order, under every chunking. |
| JobLeases.LeaseTable.Update | leases.py:54-65 | The conditional update wins exactly if the row is new, the owner's own at whatever expiry, or expired, and otherwise leaves it. |
| JobLeases.LeaseKeeper.Hold | leases.py:45-91 | The local entry is kept exactly after a confirmed win, renewals to any expiry included; a failed or unconfirmed commit drops it although the row may be taken. |
| JobLeases.LeaseKeeper.Release | leases.py:100-118 | The local entry goes first, whether or not the row is then freed. |
| JobLeases.TransactKeepsBacked | leases.py:57-63 | A transaction never takes the row from an expiry still in force. |
| JobLeases.RunsExclude | leases.py:45-98 | Over every interleaving in which no hold shortens its own lease, at most one process holds a name. |
| JobLeases.FixedTermsExclude | leases.py:45-98 | With one fixed term per name this is every interleaving of clock readings, updates, bookkeeping, releases, failed commits and crashes. |
| JobLeases.FixedTermsNeverShorten | leases.py:45-49 | A fixed term under a non-decreasing clock never shortens a lease. |
| JobLeases.ExclusionFromStart | leases.py:93-98 | From empty tables no two processes hold one name. |
| JobLeases.TakeoverAfterExpiry | leases.py:57-63 | A row passes to another owner only after every expiry the old owner kept, or is about to keep, has passed. |
| JobLeases.ShorteningBreaksExclusion | leases.py:48-63 | From any state in which a hold shortens its lease some continuation has two holders. |
| JobLeases.ExclusionIffNotShortened | leases.py:45-98 | With a rival about, exclusion survives a hold in every continuation if and only if it does not shorten the lease. |
| LeaseCalls.HoldWinsIff | leases.py:45-91 | From every state, an undisturbed hold, first claim or renewal, early or late, shorter or longer, ends with the process holding the name by its own row for the time asked for, at least a second, if and only if no other process has a row for the name whose expiry lies at or after the clock; a lost one changes no row. |
| LeaseCalls.UnconfirmedIsNotHeld | leases.py:66-91 | After an unconfirmed commit the process does not hold the name, whatever it held before; the row is as after a confirmed one if the commit came through, and untouched if it did not. |
| LeaseCalls.HoldStamps | leases.py:57-63 | A renewal keeps the time of the first claim, a new claim starts it, and both note the time of the call. |
| LeaseCalls.ReleaseExpiresOwnRow | leases.py:100-118 | A release drops the local entry and, if it reaches the table, expires the process's own row and no other. |
| LeaseCalls.ReleasedNameIsFree | leases.py:100-118 | After a delivered release another process gets the name at once. |
| ArchiveSegments.Segment.Find | archive.py:238-242 | The row of a fingerprint, or none if no row has it. |
| ArchiveSegments.Segment.InsertFields | archive.py:243-250 | A payload has its field pairs once, and other payloads keep theirs. |
| ArchiveSegments.Segment.InsertPayload | archive.py:219-237 | A payload is stored once per fingerprint; stored rows never change. |
| ArchiveSegments.Segment.InsertEvent | archive.py:215-252 | A new id reads back as its event through the views; everything readable before stays as it was. |
| ArchiveSegments.ReadSurvives | archive.py:130-143 | Later payloads never change what an archived id reads. |
| ArchiveSegments.BuildSegment | archive.py:471-508 | The segment reads back as its rows, and event_count = unique_payloads + duplicate_occurrences with one payload row per distinct payload. |
| ArchiveSegments.BuiltReadsBack | archive.py:130-143 | Every archived id returns its own time, columns, text and field pairs, although equal payloads share a row. |
| ArchiveSegments.BuiltOnlyRows | archive.py:130-143 | No other id is in the segment. |
| ArchiveSegments.CountFingerprints | archive.py:480-486 | The number of payload rows is the number of distinct payloads. |
| ArchiveLifecycle.ArchiveStore.CatalogSegment | archive.py:283-310 | The segment is sealed and every id without an owner gets it as owner; owners never change. |
| ArchiveLifecycle.ArchiveStore.RemoveHotCopies | archive.py:327-346 | Exactly the given ids leave the hot table, over all chunks, and the count says how many were there. |
| ArchiveLifecycle.ArchiveStore.SealSegment | archive.py:520-548 | In one commit the segment is catalogued and, in move mode alone, its hot copies go; the count is of the rows that were there. |
| ArchiveLifecycle.ArchiveStore.EvictVerifiedExisting | archive.py:368-404 | Duplicates are evicted exactly if every segment they are catalogued in verifies; otherwise nothing is. |
| ArchiveLifecycle.RunKeepsInvariant | archive.py:406-552 | Every interleaving of ingest, several archivers, both modes and crashes keeps catalogue, files and hot rows consistent. |
| ArchiveLifecycle.NothingIsLost | archive.py:436-548 | Every log ever inserted is in the hot table or readable, unchanged, in a sealed segment its catalogue entry names. |
| ArchiveLifecycle.NextExtends | archive.py:283-310 | No step forgets an event, a sealed segment or an owner. |
| ArchiveOwnership.SealOwnsOnceIff | archive.py:283-310 | Sealing a segment keeps every sealed log in one segment, its owner, if and only if none of its logs was catalogued before. |
| ArchiveOwnership.StepOwnsOnceIff | archive.py:406-552 | The same of every step of every archiver. |
| ArchiveOwnership.LogsAreSealedOnceIff | archive.py:442-548 | In every run no log is in two sealed segments if and only if no commit seals a log that is catalogued already. |
| ArchiveOwnership.OneArchiverSealsOnce | archive.py:442-451 | A single archiver, crashes included, never does. |
| ArchiveOwnership.TwoArchiversMaySealTwice | archive.py:436-548 | Two archivers that select the same row do: a run. |
| ArchiveModes.CommitByMode | archive.py:520-548 | A commit in copy mode leaves the hot table as it is; in move mode it takes out exactly the rows of the segment and changes no other. |
| ArchiveModes.MovedIsArchived | archive.py:520-548 | After a move commit each of its logs is out of the hot table and owned by a sealed segment that holds it. |
| ArchiveModes.CopyingKeepsEverythingHot | archive.py:523-527 | In every run without a move commit and without an eviction the hot table holds every event ever ingested, unchanged. |
| ArchiveModes.RecentEventsStayHot | archive.py:444-451 | In every run, in both modes, an event received at or after every cutoff used stays hot. |
| ArchiveModes.OldRowsAreWritten | archive.py:441-453 | Any hot rows before the cutoff that are catalogued nowhere can be selected and become the segment that is written. |
| ArchiveModes.VerifiesIffIntact | archive.py:349-365 | Duplicates verify exactly if each is catalogued in a sealed segment whose file is on disk as it was sealed and holds it. |
| ArchiveModes.DamageStopsEviction | archive.py:392-393 | One changed or missing segment, or one that lacks the log, and nothing is evicted. |
| ArchiveModes.IntactIsEvicted | archive.py:392-401 | With intact segments old, hot, catalogued rows are evicted, exactly these. |
| ArchiveModes.RowsReadBack | archive.py:130-143 | Every archived row reads back with its own time, columns, text and field pairs, stated on the row itself. |
| ThresholdRules.ThresholdRule.Evaluate | rules.py:54-76 | The alert of one evaluation is the one the specification adds for the events seen so far. |
| ThresholdRules.OneEventAlerts | rules.py:54-76 | The key of an event, by the alert that it raises alone: the first address in its message, else its sender, else "unknown". |
| ThresholdRules.EvaluateOneKey | rules.py:59-66 | One event touches the deque and the alerts of its own key only. |
| ThresholdRules.KeysAreIndependent | rules.py:52-76 | Per key, a rule over a mixed stream is the one-key rule on that key's hits. |
| ThresholdWindows.PoppingTwice | rules.py:67-69 | Popping old hits early, against earlier cutoffs, never changes a later window. |
| ThresholdWindows.PoppingIsFiltering | rules.py:67-69 | On ordered hits popping from the front leaves exactly the recent ones. |
| ThresholdWindows.ObserveKept | rules.py:66-75 | A hit fires exactly when its declarative window numbers the threshold, never more. |
| ThresholdWindows.RunMeaning | rules.py:54-76 | After any number of hits the deque and the alerts are the declarative ones and the deque is below the threshold. |
| ThresholdWindows.LiveAlertsAreExact | rules.py:54-76 | For every event stream the alerts of a key are exactly its full windows of unused hits, with exactly their ids. |
| ThresholdWindows.NoHitInTwoWindows | rules.py:71-75 | Windows of one key that fire have no hit in common. |
| ThresholdWindows.AlertsUseOnce | rules.py:54-76 | After any events, whatever the clock, no id is in two alerts, in an alert and a deque, or under two keys. |
| ThresholdWindows.NoIdInTwoAlerts | rules.py:71-75 | No log id appears in two alerts of a rule, whatever their keys. |
| ThresholdReplay.ReplayThresholdRules | rules.py:105-130 | The replay counts each rule by itself and skips rows without a readable time. |
| ThresholdReplay.ReplayAgreesWithLive | rules.py:92-130 | Per key the replay counts the fires and matches of the live rule, and its peak reaches the threshold exactly if the rule fired. |
| ThresholdReplay.PeakIsLargestWindow | rules.py:121-127 | On rows in time order the reported peak of a key is its largest window of unused matches, and last_at the time of its last match. |
| DetectionSharding.ProcessIngest.Submit | ingest_workers.py:122-142 | Accepted exactly if it parses and its key's queue has room; every refusal is counted once under its cause. |
| DetectionSharding.ProcessIngest.Take | ingest_workers.py:53-60 | A child takes the oldest event of its own queue. |
| DetectionSharding.ShardKeepsHits | ingest_workers.py:27-30 | All hits of a key go to one child, in order. |
| DetectionSharding.ShardingPreservesDetection | ingest_workers.py:131 | That child raises exactly the alerts of one engine over the whole stream, with the same ids and in order; no other child raises any for the key. |
| DetectionSharding.SameAlerts | ingest_workers.py:131 | Over all children every alert is raised as often as by one engine. |
| IngestQueues.IngestPipeline.Submit | listener.py:846-859 | Queued exactly if there is room, else dropped and counted under its transport; accepted = processed + failed + queued + in flight, and dropped = UDP drops + TCP drops, throughout. |
| IngestQueues.IngestPipeline.Get | listener.py:875-880 | A worker takes the oldest item of its queue. |
| IngestQueues.IngestPipeline.Finish | listener.py:881-889 | Each item is counted once, processed or failed. |
| IngestQueues.IngestPipeline.CheckExit | listener.py:875-876 | A worker leaves exactly when stopping with an empty queue, and then everything accepted for it is done. |
| IngestQueues.KeysKeepOrder | listener.py:846-848 | Messages of one routing key are finished in submission order: the finished ones are always a prefix. |
| IngestQueues.RoutedByKey | listener.py:846-848 | Messages with a routing key go by the key, whoever sent them, and others by their sender. |
| FieldIndex.NormalizedRows | normalize.py:85-88 | One row per field, cut to 60 and 300 characters, case-folded. |
| FieldIndex.RowsAreCut | normalize.py:85-88 | A row holds the longest beginnings of at most 60 characters of the name and 300 of the value, and the case-folded value. |
| FieldIndex.SearchFieldPayload | event_storage_v2.py:274-281 | The document contains an exact value exactly when some field row has it, cut and colliding keys included, each value once. |
| FieldIndex.FieldTable.WriteFields | normalize.py:91-111 | Batches of 128 store every row once and in order. |
| SqlLike.EscapesEach | dashboard.py:830-832 | Three successive replacements escape each character by itself once. |
| SqlLike.PrefixPatternExact | dashboard.py:869 | The prefix pattern matches exactly the texts that start with the needle, whatever wildcards or backslashes it holds. |
| SqlLike.ContainsPatternExact | dashboard.py:869 | The contains pattern matches exactly the texts in which the needle occurs. |
| LogSql.AndAllMeans | dashboard.py:1111 | Clauses joined by AND over one flat parameter list fill every hole with its own parameter and are true, in the three-valued logic of SQL, exactly if each clause is. |
| LogSql.OrAllMeans | dashboard.py:1261-1265 | The same for OR. |
| LogQuery.BuildLogQuery | dashboard.py:978-1127 | Fails exactly for malformed ports on PostgreSQL; otherwise clause list and parameter list are those of the base filters, in step. |
| LogQuery.TermClauses | dashboard.py:1009-1056 | One full-text expression for all terms if the SQLite index is there and some term includes a token, otherwise one clause and one parameter per term that says something. |
| LogQuery.ConceptClauses | dashboard.py:1058-1069 | The same for source, host and destination terms. |
| LogQuery.QueryLogs | dashboard.py:1151-1297 | The loop over the field filters, with the OR group and the exact document appended after it, builds the statement and parameters of the page query or of the sort query. |
| LogQueryMeaning.WritersStore | event_storage_v2.py:274-281 | What the two writers store satisfies the agreement that the search relies on. |
| LogQueryMeaning.ParsedNamesAreDistinct | dashboard.py:1128-1148 | Field filters hold each name once. |
| LogQueryMeaning.OfMembers | dashboard.py:1206-1255 | Splitting the filters by kind loses none and repeats none. |
| LogQueryMeaning.StampsPass | dashboard.py:1194-1204 | The time test on field rows never excludes a row of an event inside the window, so pruning partitions is harmless. |
| LogQueryMeaning.FieldFragmentMeans | dashboard.py:1206-1238 | An EXISTS clause holds exactly if some extracted field has the name and a fitting value, NOT EXISTS exactly if none has. |
| LogQueryMeaning.ExactMapEntries | dashboard.py:1240-1241 | The document that is searched for holds exactly the exact filters. |
| LogQueryMeaning.DocumentAgrees | dashboard.py:1256-1259 | Containment of that document holds exactly if the event's field rows match every exact filter. |
| LogQueryMeaning.DocumentFragmentMeans | dashboard.py:1256-1260 | The document branch and the row branch for unindexed events decide the same thing. |
| LogQueryMeaning.GroupFragmentMeans | dashboard.py:1261-1265 | The OR group holds exactly if some positive filter matches. |
| LogQueryMeaning.AliasFragmentMeans | dashboard.py:930-951 | The alias clause holds exactly if a field under any alias name fits. |
| LogQueryMeaning.IdentityFragmentMeans | dashboard.py:954-963 | An identity filter is true if the column or an alias field matches (the column alone for networks on PostgreSQL), false if the column is known not to and no alias does, and unknown otherwise. |
| LogQueryMeaning.LostToNegationIff | dashboard.py:954-963 | The events that neither a filter nor its negation selects are exactly those with a null column and no matching alias. |
| LogQueryMeaning.TermFragmentMeans | dashboard.py:1048-1056 | A text term, negated or not, means occurrence in a message that is not null. |
| LogQueryMeaning.MatchMeans | dashboard.py:815-827 | The full-text expression finds exactly the messages with every included and no excluded token, although its exclusions hang on the last included token. |
| LogQueryMeaning.TokensMean | dashboard.py:1022-1032 | Included and excluded tokens are exactly those of the terms, and the index is used exactly if some term includes one. |
| LogQueryMeaning.TermFragmentsMean | dashboard.py:1009-1056 | The text clauses together say what all terms say, on all three paths. |
| LogQueryMeaning.SeverityFragmentsMean | dashboard.py:1071-1088 | The severity clause, with its flipped rank comparison, holds exactly for the severities the request wants; null is neither equal nor unequal to anything, and unknown names filter nothing. |
| LogQueryMeaning.BaseFragmentsMean | dashboard.py:978-1127 | The base WHERE holds exactly for the events every base filter wants. |
| LogQueryResults.ListedIffWanted | dashboard.py:1174-1297 | An event is listed exactly if it satisfies the base filters, every exclusion, and all, or under fc_op=or any, positive field filters. |
| LogQueryResults.ListedOnceIff | dashboard.py:1251-1255 | It is listed exactly once if and only if it is wanted and every joined filter fits exactly one of its field rows. |
| LogQueryResults.ListedOnceIfNamesDiffer | dashboard.py:1251-1255 | Distinct field names, after cutting, suffice. |
| LogQueryResults.CollidingNamesRepeat | normalize.py:85-88 | A stored event with two fields whose names agree in sixty characters and whose values fit a joined filter is listed more than once. |
| LogQueryResults.CollidingNamesListTwice | normalize.py:85-111 | The failing input: two names of sixty-one characters, written with one value and asked for by their common beginning, list their event twice. |
| LogQueryResults.PartsGetTheirParams | dashboard.py:1267-1297 | Joins, outer join, WHERE and paging each see their own stretch of the parameter list. |
| LogQueryResults.PageQueryIsExact | dashboard.py:1267-1335 | The page query has one parameter per hole and answers with a page of exactly the wanted events. |
| LogQueryResults.SortQueryIsExact | dashboard.py:1282-1295 | The sort query pairs exactly those events with the values of the sort field, or with null. |
| LogQueryResults.AnswerIsWantedEvents | dashboard.py:1174-1335 | Before paging, an id is in the answer exactly if an event with it is wanted. |
| LogQueryResults.AnswersConcatenate | dashboard.py:1160-1335 | The answer lists events in the order of the database. |
| LogQueryRequests.PagesTile | dashboard.py:1165-1169 | A page is the stretch of at most its limit from its offset, and the next page continues it. |
| LogQueryRequests.IdsSelect | dashboard.py:998-1007 | Only the first 500 listed ids are looked for, and nothing behind the snapshot id is listed. |
| LogQueryReading.StripDropsBlanks | dashboard.py:1009-1056 | Blanks around a text do not count, and nothing else is dropped. |
| LogQueryReading.TextTermsSelect | dashboard.py:1009-1056 | A text term selects the messages it occurs in; after `!` or `!=`, with blanks behind it or not, those that are known and do not contain it. |
| LogQueryReading.TokenTermsSelect | dashboard.py:1009-1056 | On PostgreSQL the text search decides for every term that has a token, negated by a mark. |
| LogQueryReading.IndexTermsSelect | dashboard.py:1022-1032 | So does the SQLite index. |
| LogQueryReading.EmptyTextsSelectAll | dashboard.py:966-975 | Empty texts and bare marks ask for nothing. |
| LogQueryReading.FieldFiltersMatch | dashboard.py:844-852 | A field filter is the exact value without stars, a beginning with one behind, an occurrence with one at either end. |
| LogQueryReading.OtherStarsAreText | dashboard.py:844-852 | Stars around nothing and a star in front alone are text. |
| LogQueryReading.FieldExclusionsRead | dashboard.py:1128-1148 | A mark before the value excludes exactly the events that the value selects. |
| LogQueryReading.NameFiltersSelect | dashboard.py:875-907 | A name selects the events whose column or alias field starts with it; excluded, those whose column is known and that nothing matches. |
| LogQueryReading.PrefixFiltersSelect | dashboard.py:875-881 | With a star behind, any text is a beginning, addresses included. |
| LogQueryReading.OccurrenceFiltersSelect | dashboard.py:875-881 | Between stars any text is an occurrence. |
| LogQueryReading.AddressFiltersSelect | dashboard.py:882-904 | A source or destination address is that address on PostgreSQL and the exact text elsewhere, in the column or an alias field. |
| LogQueryReading.NetworkFiltersSelect | dashboard.py:882-904 | A network in slash notation selects the addresses within it on PostgreSQL; elsewhere it is text that occurs in the column or begins an alias field. |
| LogQueryReading.LevelsAreNamed | dashboard.py:1072 | The levels, most severe first. |
| LogQueryReading.RankedSeveritiesSelect | dashboard.py:1071-1088 | For every name of a level and every event: `>=` lists the events stored under the level or a more severe one, `>` the more severe ones alone, and `<` and `<=` exactly the events these leave, other spellings and null included. |
| LogQueryReading.NamedSeveritiesSelect | dashboard.py:1075-1083 | A bare name lists the events under any spelling of its level, `!=` those under any other text; events without a severity are in neither. |
| LogQueryReading.VariantsFallBelow | dashboard.py:1075-1088 | An event under another spelling of a level is found by the level's name, but every comparison takes it for less severe than all levels. |
| LogQueryReading.UnknownLevelsSelectAll | dashboard.py:1084-1088 | A comparison with a text that names no level asks for nothing. |
| LogQueryRequests.PortsAcceptedIff | dashboard.py:1096-1109 | A request is refused on PostgreSQL exactly if a port text is neither blank nor one port or an ordered range, each of one to five digits and at most 65535. |
| LogQueryRequests.PortTextsSelect | dashboard.py:1096-1109 | A port text selects the events whose port of that end lies in its range, bounds included, and a blank one all. |
| LogQueryRequests.LastFilterWins | dashboard.py:1128-1148 | The filters are those of the last entry of each name with a value; entries with a blank name or value do not count. |
| LogQueryResults.Search | dashboard.py:1151-1335 | Compiling and running a request gives a page of the wanted events, severities and all other texts read as below, or an error exactly for malformed ports. |
| PivotDiscovery.FirstProof | ai_soc.py:716-725 | The earliest later event of the child's own inside the window, or none exactly if there is none. |
| PivotDiscovery.EdgeIff | ai_soc.py:687-735 | What an edge is: inside the window, bounds included, the parent sends to a text that is the child's address, and later, or at the same time under a higher id, the child sends something itself. |
| PivotDiscovery.FirstSeen | ai_soc.py:692-711 | Each new valid destination once, with its earliest relation; all of them if the row limit hides none. |
| PivotDiscovery.EarliestDecides | ai_soc.py:703-727 | Looking for a proof after the earliest relation alone finds one whenever any relation has one. |
| PivotDiscovery.ExpandParent | ai_soc.py:689-739 | A parent admits distinct confirmed children only, and all of them if neither cap interferes. |
| PivotDiscovery.ExpandLevel | ai_soc.py:687-739 | A level misses no edge of its frontier below the caps. |
| PivotDiscovery.LevelIsExact | ai_soc.py:687-742 | Such a level makes the admitted set exactly the nodes one step farther and the frontier exactly the new ones. |
| PivotDiscovery.NothingFarther | ai_soc.py:740-742 | Stopping at an empty frontier loses nothing at any depth. |
| PivotDiscovery.Discover | ai_soc.py:656-744 | The result is the root and distinct addresses, each reached by a hop with the earliest relation and the earliest proof after it from a node one level up; with no row limit hit depths are shortest distances, and with the entity cap not reached either, exactly the nodes within the depth are found. |
| SequenceCorrelation.PruningIsHarmless | correlations.py:262-268 | Cutting the recent list early never changes what a later B row sees. |
| SequenceCorrelation.RunKey | correlations.py:255-279 | On time-ordered rows the one pass reports exactly what looking back over all rows since the last report gives. |
| SequenceCorrelation.ReportsAreExact | correlations.py:266-278 | Each report lists exactly the A rows since the last report within the gap, at least the minimum, plus its B row. |
| SequenceCorrelation.CausesAreNotShared | correlations.py:279 | No row is an A row of two reports, and no reported B row is an A row later. |
| SequenceCorrelation.SilentEffects | correlations.py:266-269 | A B row is not reported exactly if fewer A rows than the minimum lie in its window. |
| SequenceCorrelation.NeverFailsIff | correlations.py:268-274 | Runs are safe from the empty-window failure exactly if the minimum is positive. |
| SequenceCorrelation.TooOldFails | correlations.py:268-274 | Otherwise one A row older than the gap makes a run fail, for every gap. |
| SequenceCorrelation.GroupByKey | correlations.py:246-253 | Grouping keeps the rows of each key, all and in order, and the keys in order of appearance. |
| SequenceCorrelation.RunSequence | correlations.py:239-285 | The findings are those of each key judged on its own rows alone, sorted; one failing key fails the run. |
| SequenceCorrelation.RowsOfKey | correlations.py:239-262 | A key is judged on its own A rows and B rows, each as often as fetched; rows without a key are left out. |
| SequenceCorrelation.FindingsTell | correlations.py:263-283 | A finding lists the ids of its A rows and then of its B row, counts the A rows, and gives the time from the first of them to the B row. |
| SequenceCorrelation.SortingFalls | correlations.py:280 | Sorting keeps all findings and puts the largest counts first. |
| SequenceCorrelation.SpansAreWithinGap | correlations.py:275 | The reported time from the first A row to its B row lies within the gap. |
| TelemetrySilence.StateRow.Commit | detection_runtime.py:63-100 | The transaction merges the newest receipts, judges every expected key, raises the due alerts and forgets keys no longer expected. |
| TelemetryRuns.PutMeans | detection_runtime.py:38-44 | An observation is held under its key, and whatever was held is held on or superseded by it. |
| TelemetrySilence.TelemetryMonitor.Clear | detection_runtime.py:104-107 | Exactly the entries still equal to the snapshot go. |
| TelemetryRuns.ReceivedIsNewest | detection_runtime.py:61-72 | The merge takes the newest receipt among all observed names of a profile. |
| TelemetryOutages.CommitKeepsAlertsIff | detection_runtime.py:76-100 | A commit keeps all alerts followed by newer receipts once their outages close, and separated, if and only if it closes no outage on the receipt its alert told of. |
| TelemetryOutages.OutagesAreSeparated | detection_runtime.py:46-108 | Over every interleaving of several monitors in which no commit closes an outage early, two outage alerts of a key are separated by a strictly newer recorded receipt. |
| TelemetryOutages.SeparationIff | detection_runtime.py:46-108 | From any state with its alerts in order, a commit leaves them separated in every later run without early closing if and only if it closes none itself. |
| TelemetryOutages.InOrderIsNeverEarly | detection_runtime.py:47 | Commits in the order of their clock readings never close an outage early. |
| TelemetryOutages.OneReceiptAlertedTwice | detection_runtime.py:47-96 | For every limit two monitors have a run with two outage alerts on one receipt. |
| TelemetryOutages.ClosesWithoutReceiptIff | detection_runtime.py:86-96 | A commit closes an outage without a newer receipt exactly if its reading is within the limit after the recorded one. |
| TelemetryRuns.CommitRecords | detection_runtime.py:61-84 | Every receipt of the snapshot for an expected key is recorded, or a newer one is. |
| TelemetryAlerts.SilenceIsAlerted | detection_runtime.py:76-97 | For every expected key a commit raises one alert, telling of its newest receipt, exactly if no outage of the key is open and more time than its limit has passed since the newest receipt or, without any, since the key became expected; the outage is open afterwards exactly if it is too long silent, or was open and nothing was ever received. |
| TelemetryAlerts.NewestIsRecorded | detection_runtime.py:63-85 | The newest receipt of the snapshot, the first one among equals, is recorded if it is newer than the recorded one, which stays otherwise. |
| TelemetryAlerts.OnlyExpectedAreKept | detection_runtime.py:98 | Exactly the expected keys have an entry afterwards. |
| TelemetryAlerts.NewKeyIsAdded | detection_runtime.py:33-44 | Observing a new key adds it, in place of the first one when a thousand are pending. |
| TelemetryAlerts.KnownKeyIsReplaced | detection_runtime.py:33-44 | Observing a pending key replaces its receipt and nothing else. |
| TelemetryAlerts.ClearedKeepsOthers | detection_runtime.py:104-107 | Clearing keeps exactly the receipts that are not in the snapshot any more. |
| TelemetryRuns.ReceiptsAreKept | detection_runtime.py:33-108 | Over every interleaving with aborted ticks, a receipt for an expected key is pending, superseded by a newer one, or recorded, unless the cap or a crash dropped it. |
| TelemetryRuns.EvictsOnlyWhenFull | detection_runtime.py:43-44 | The cap drops a receipt only when a thousand are pending. |
| DuplicateLinking.AlertsTellOfTheirCalls | detection.py:505-554 | Over every run each alert tells of exactly the calls linked into it: their number, events and sources, and the times of the first and the last. |
| DuplicateLinking.TargetIff | detection.py:515-526 | A finding is linked exactly into the open alert of an identity seen within five minutes and, for a process, within two seconds of event time. |
| DuplicateIdentity.CallsLinkIff | detection.py:479-526 | After every run, the second of two calls goes into the alert of the first if and only if both report the same stream (rule, revision, host, source), or the same process (host, id, path, parent, command line, the first four known) within two seconds of event time, less than five minutes apart, if the clock did not go back before the first. |
| DuplicateIdentity.CallsLinkWhileOpen | detection.py:519-522 | With a change of status in between the same holds, except that a resolved or closed alert takes no more findings. |
| DuplicateIdentity.RunsKeepOneKey | detection.py:548-552 | In every run each alert is remembered under one identity. |
| DuplicateLinking.LinksOnlyIntoOpenAlerts | detection.py:523-540 | A finding never goes into a resolved or closed alert, counts one occurrence more, and touches no other alert. |
| DuplicateLinking.FindingsAreConserved | detection.py:505-554 | Over every run, with analysts changing statuses and other alerts in between, the occurrences of all alerts add up to the number of calls. |
| DuplicateLinking.AlertReferencesAreTheLast | detection.py:535 | In every run the references of an alert are the last 500 events linked into it, if none was linked twice. |
| DuplicateLinking.LinkMeans | detection.py:535 | Linking an event that is still referenced changes nothing; any other becomes the newest, in place of the oldest at 500. |
| DuplicateLinking.NewestIsReferenced | detection.py:535 | The newest event is always among them. |
| DuplicateLinking.RememberKeepsRecent | detection.py:549-551 | At most 512 identities, each once, oldest first. |
| DuplicateLinking.NewestKeptIff | detection.py:549-551 | The newest identity is kept unless the list is full of identities seen later than now, which takes a clock that went back. |
| ScheduleWindows.ClockReadsBack | detection.py:109-118 | Every minute of the day has a text that reads back as that minute. |
| ScheduleWindows.AcceptedTexts | detection.py:109-118 | An accepted text is a minute of the day, and its standard text exactly if all four places are digits. |
| ScheduleWindows.SingleDigitHours | detection.py:109-118 | A sign or a blank in place of an hour's first digit reads as that digit missing, and a minus is an error except before midnight's hour. |
| ScheduleWindows.WeekdaysCycle | detection.py:399 | Weekdays count from Monday as zero and repeat every seven days. |
| ScheduleWindows.AnchorIsUnique | detection.py:387-396 | The branches compute the only anchor day whose interval covers the minute. |
| ScheduleWindows.InWindowIsInterval | detection.py:383-399 | With dates spelled as they print, a minute is in the window exactly if an anchor day is listed, not excluded, and its interval, overnight or not, covers the minute on a day not excluded. |
| ScheduleWindows.NamesIffSpelled | detection.py:397-399 | Comparing date texts finds exactly the named days if and only if the days are spelled as they print. |
| ScheduleWindows.WindowsMeanWhatTheySayIff | detection.py:212-230 | For every valid schedule the code means what the schedule says at every minute if and only if each date text names a day that is listed or excluded anyway, and each exclusion text a day whose own text is excluded or that no window could reach. |
| ScheduleWindows.MisspelledExclusionIsIgnored | detection.py:397-399 | The failing input: with every weekday listed and "2026-1-5" excluded, the window opens on the fifth of January 2026. |

## Left out

Weaker than the source, or only under a condition:

- ExportProgress.QuietSourceDrains: assumes a source that no longer changes and lists no id twice, which the assets lane does not guarantee, and requests quick enough for the cursor to last through the snapshot.
- ExportLanes.ExportLane.ResourcePage: leaves out the replies to requests that are refused before any table is read (limit, signature, binding of the cursor) and the size check on the finished page.
- ExportExpiry.PromptReadersAreServed: a snapshot name is never given twice, as random names are.
- SyslogSessions.OctetSession: for frame limits of at most ten digits, as counts have.
- SyslogFraming.Framer.Feed: promises nothing about the state after a raised error, since the connection is dropped.
- JobLeases.LeaseKeeper.Hold: does not model the fallback for a missing table, which gives no exclusion on purpose.
- LeaseCalls.HoldWinsIff: for a call with no other step between its own.
- JobLeases.FixedTermsExclude: the clock is shared and never goes back, and a process has one call in flight per name.
- ArchiveSegments.Segment.InsertEvent: missing raw text and missing field values read back as empty text, as the source stores them, and field pairs as a multiset.
- ArchiveOwnership.LogsAreSealedOnceIff: segment ids do not repeat and log ids are not reused.
- ArchiveLifecycle.NothingIsLost: sealed files stay as they were written; damage to them is only what verification looks for.
- ThresholdWindows.LiveAlertsAreExact: needs a non-decreasing clock and a threshold of at least one, as configured rules have.
- DetectionSharding.ShardingPreservesDetection: for queues that drop nothing and children that are not restarted; an event has one time, whoever evaluates it.
- LogQueryResults.PageQueryIsExact: for events stored as the writers store them, whose field rows hold no nulls; the order of the logs is given.
- LogQueryResults.Search: returns ids, without the display columns.
- PivotDiscovery.Discover: says nothing about completeness or shortest depth when a row limit or the entity cap cuts the search, since the code then gives neither.
- SequenceCorrelation.RunSequence: without the samples of messages and the rounding of the time span.
- ScheduleWindows.AcceptedTexts: digits and blanks are the ASCII ones; Python reads other digits and blanks too.
- ScheduleWindows.InWindowIsInterval: takes the local day and minute as input; time zones and daylight saving are not modelled.

Not modelled:

- Hashes, CRC32, regular expressions, address parsing, JSON and compression are function parameters, or the content stands for its digest; different contents have different digests.
- Case folding happens before the model: column texts and needles are compared as folded text, and blanks are the ASCII ones.
- The SQL engines: tables are maps and sequences, a committed transaction is one step, and requests of one export lane are serialised.
- One tenant and one lane of the export; authentication, signatures and fields of cursors beyond position, checkpoint and expiry, and record schemas are not part of it.
- Waiting of TCP senders decides only when a submission happens; what a restarted ingest child loses is not modelled.
- What one full-text token or inet operator matches is left to the database.
- Sorting of pairs by extracted value in the process, the second fetch by id and the batch of displayed fields of the log search.
- The text form of alert evidence and its summaries, and the record of hosts without a profile.
- The manifest file, the status rows and retention of the archive, and full-text search inside segments.
- The sort and the top list of the threshold replay; rules with a fixed key.
- Web routes, settings, sessions, sockets, HTTP clients, language models, migrations, capacity planning and health pages.
