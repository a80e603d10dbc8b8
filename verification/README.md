# VaultScope: verified model

VaultScope analyses captures of IPsec traffic: it decodes IKE messages, rebuilds the security
associations, scores them against a rule table, stores each analysis behind a hash-chained audit
log, streams a live run to browser consoles, and exports findings to a SIEM.  This project models
the algorithmic parts of that program and proves what they are for.

`dafny verify dfyconfig.toml` checks everything.  One module per file; code that changes things
step by step is a class or a method with a loop, proved equal to a function on values, and the
properties are lemmas about that function.

| module | what it models |
|---|---|
| LiveStream, LiveRuns, LiveRows | the per-tick difference a live run publishes, the console's reducer, whole runs of both over first-in first-out channels, and which record each row shows |
| LiveLifecycle | the start lock, the global run and each run's loop, under every interleaving |
| AuditChain, JobStores | digests, the hash chain, and the job tables under save, delete and verify |
| IkeWire, WireMeaning, IkeBuild, IkeV1Wire | the byte-level decoder, what it reads in the protocol's numbers, and the independent encoder |
| Capture, CaptureMeaning, Ingestion, IngestionMeaning, SaCommon, SaAnalysis, SaMeaning, SaNames, SaOrder, SaAnalysisV1, SaRecoveryV1, AntiReplay, Pipeline | from packets to security associations, and on to a stored job; the Meaning modules say what each step answers in terms of its input alone |
| FlowBursts, FlowFeatures | the sliding-window burst scan and the flow's feature vector |
| Gateway, Rules, Cef | gateway reconciliation, rule scoring and compliance, and the CEF printer |
| Sorting, Wrappers | order, permutation, distinctness and the option type, shared by the others |

## Main results

- **Replication** (`LiveRuns.ConsoleShowsLatestAnalysis`, `LiveRows.ConsoleShowsLastMoved`): in
  every run, a console whose channel is drained shows no id the latest analysis lacks, always with
  the latest fingerprint and status; one that missed nothing shows every id, each with exactly the
  latest record whose fingerprint differs from the one before it, analyses that repeat an id included.
- **Status and rows** (`LiveRuns.ConsoleShowsLastStatus`, `LiveRows.ConsoleShowsAnnouncedAnomaly`,
  `LiveStream.ConsoleIsNewestFirst`): a drained console reads the state of the last settling, or the
  starting state, beside the last analysis's statistics; each anomaly has the document it was
  announced with; rows stand newest first.
- **Lifecycle** (`LiveLifecycle.StartIsAcceptedIff`, `AtMostOneRunning`, `LastAnalysisCoversFinalFile`,
  `ExitIsCoveredIff`, `SourceEndDecides`, `RunGoesOn`): a start is accepted if and only if no run is
  running; at most one is; a run goes on until stopped, finished or at its limit, ends as its source
  did, and is sure to have analysed its whole final file if and only if its last pass began stopped
  or with the source finished.
- **Audit** (`JobStores.VerifiesIffDistinct`, `AuditChain.AlterationBreaksIff`,
  `HeadFixesHistoryIff`, `JobStores.HistoryIsPinned`, `EditIsReported`): from the empty store,
  after any history, verification reports ok if and only if the last save of every live job has
  distinct ids.  The head hash fixes the whole history against every other log, and every rewriting
  of an entry is caught at that entry, if and only if no job id holds the separator; after any
  history of saves under such ids both hold.  A live job reads as tampered exactly when its rows or
  statistics differ from its last save.  The log holds one entry for each save that changed
  something, numbered from one, and nothing else (`JobStores.LogRecordsChanges`).
- **IKEv2 record** (`SaMeaning.OutcomeOnTheWire`, `SaAnalysis.SuiteComesFromLastProposal`,
  `AuthComesFromLast`, `AdditionalComeFromLast`): every field of the record, as a condition on the
  messages in the protocol's own numbers.
- **Ownership** (`IngestionMeaning.OwnersMean`): which SAs an ESP packet is given to, said of the
  capture's messages.
- **Order** (`SaOrder.SuiteForgetsOrderIff`, `GroupForgetsOrderIff`, `SaAnalysis.OutcomeForgetsOrder`):
  mode, PFS and completeness never depend on message order; each suite field, as the record names it,
  does unless settled, a condition on the set of messages that is exact.
- **Attribution** (`Ingestion.AttributionsMatchIff`, `OneSaMatchesIff`): when the parser and Stage 1
  give every ESP packet to the same SAs, for every capture, and for a capture of one SA.
- **End to end** (`Pipeline.SavedCaptureVerifiesIff`): a job saved from a capture verifies if and
  only if no two of its mid-session tunnels begin with the same SPI and no two anomalies share an id.
- **Codec** (`IkeBuild.ContentsRoundTrip`, `SealedContentsRoundTrip`, `SaRecoveryV1.QuickModeIsRecovered`,
  `IkeWire.CutMessageIsPrefix`, `TilingIsAccepted`, `FramersAgree`): decoding inverts encoding,
  truncation only loses a suffix and says so, and the two framers agree.
- **Bursts** (`FlowBursts.BurstsAreDenseRuns`, `BurstyIffInDenseWindow`): the two-pointer scan
  returns exactly the union of the dense windows, ordered and strictly separated.
- **Features** (`FlowFeatures.FeatureVectorMeans`, `FeatureVectorForgetsOrder`): each of the thirteen
  features is what its name says, in terms of the packets given, in whatever order.
- **Gateway** (`Gateway.MismatchesMean`, `CreditMeans`, `WireValuesStand`, `ImportIsIdempotent`): what
  an import fills, credits and notes, exactly; the wire's values stand.
- **Hiding** (`Rules.HidingIsNeverPunished`, `ScoreMeans`, `VerdictMeans`): a capture that reveals less
  is never scored worse; score and verdict are functions of the counts of scored findings.
- **Export** (`Cef.LineReadsBack`, `FeedSplitsIff`): a printed line decodes uniquely; the feed
  splits back into its lines if and only if no header field holds a line feed.

## Where the code does less than it says

Each of these is a lemma with the exact condition or a concrete input.

- A session id or anomaly id repeated inside one save makes verification report tampering, because
  the digest covers the documents before the tables replace duplicates (`JobStores.UntamperedIffDistinct`).
  The pipeline can produce this: two mid-session tunnels whose first packets carry the same SPI, or
  whose SPI could not be read, get the same session id (`Pipeline.SessionIdsDistinctIff`,
  `TwoTunnelsShareAnId`, `TwoTunnelsReadAsTampered`).
- A run that leaves its loop at the packet limit may leave the end of the file unanalysed: from
  every such state some continuation ends so, and from every other exit none does
  (`LiveLifecycle.ExitIsCoveredIff`; `LimitCanMissTheTail` is one schedule).
- A change outside the fingerprint (score, packet count, predicted type) is never sent to a
  console that already has the row.  Taking an id's records since it was last absent, analysis by
  analysis and in row order, a drained console shows the latest whose fingerprint differs from the
  one before it, and so the newest record exactly when that one is it (`LiveRows.ConsoleShowsLastMoved`).
  `StaleDocument` reaches an old row by two ticks.  `RepeatedRow` reaches one by a single tick whose
  analysis has two rows of one id, as the pipeline can produce: the console keeps the first and the
  job table the last.
- The `|` separator of the audit encoding is ambiguous for a job id that holds one: text moves from
  the id into the timestamp and the stored hash still fits.  The log is pinned if and only if no id
  does (`AuditChain.AlterationBreaksIff`, `HeadFixesHistoryIff`).  The ids the application makes,
  `uuid4` (api/main.py:382) and `live-` with hexadecimal digits (api/live.py:61), hold none.
- The parser's ESP attribution, commented as the same as Stage 1's, takes the first frame's
  addresses where Stage 1 takes the opening message's.  For one SA they match if and only if those
  are the same pair (`Ingestion.OneSaMatchesIff`; `AttributionsCanDiffer` is a capture where they do
  not).  With several SAs equal pairs suffice (`AttributionsAgree`) but are not needed
  (`PeersMayDifferWithSeveralSas`); exactly, the two match if and only if they agree on the packets
  among the addresses the SAs are known by and one stranger (`AttributionsMatchIff`).
- Cutting an "encrypted" IKEv1 message can make payloads appear that the full message did not have,
  exactly when the cut falls at the end of a readable chain (`IkeWire.EncryptedCutInventsIff`).
- A cipher suite, unlike mode, PFS and completeness, can depend on message order.  A recorded field
  does not if and only if the answers that carry it agree on its name, or answers came and nothing
  carries it, or none came and the requests that carry it agree (`SaOrder.SuiteForgetsOrderIff`, and
  `GroupForgetsOrderIff` with the KE fallback).  The answers to any two ciphers of different names,
  as bytes, make the record depend on their order (`TwoResponsesDependOnOrder`); to two ciphers of
  one name, such as 19 and 20, only the identifier does (`NamesHideOrder`).

## Assumptions

SHA-256 is an arbitrary function; where a lemma needs it, no two different inputs collide, no
input hashes to the genesis value and no hash holds `|`.  JSON encoding is an arbitrary function,
injective where needed.  `AuditChain.AssumptionsCanBeMet` shows these conditions consistent.
Timestamps and capture hashes hold no `|`.  A database transaction is one step.  Arithmetic on times
and sizes is exact.  IKEv2 suite names are modelled as recorded (SaNames); authentication methods,
and every IKEv1 field, are their numeric ids.  A live run's capture file only grows, and stopping
the source freezes it.

Two lemmas describe inputs the shipped code does not produce.  The CEF printer leaves line feeds in
a header field alone, so a description with one would split its event (`Cef.NewlineInNameSplitsTheEvent`,
`Cef.FeedSplitsIff`); no rule or detector has such a description.  A gateway record that offered a
hidden value would leave the field hidden for the next to fill (`Gateway.FirstDefiniteOfferWins`);
the shipped readers offer definite values only.

## Model

| member | source | states |
|---|---|---|
| LiveRuns.LiveRun.Tick | api/live.py:115-160 | the published batch is a tick batch of the old state and the new analysis, and the state becomes what the next tick compares against |
| LiveRuns.LiveRun.ScanSessions | api/live.py:129-138 | collects exactly the sessions whose fingerprint moved, in order, and remembers every fingerprint |
| LiveRuns.LiveRun.Forget | api/live.py:141-144 | every remembered id the analysis lacks is listed once and forgotten |
| LiveRuns.LiveRun.UnseenEvents | api/live.py:151-152 | keeps exactly the anomalies not yet announced |
| LiveRuns.Hub.Join | api/main.py:696-706 | a new subscriber is sent the current status first; nobody else is touched |
| LiveRuns.Hub.Send | api/main.py:631-635 | a socket receives the messages up to the one at which it fails |
| LiveRuns.Hub.Publish | api/main.py:625-636 | every live subscriber receives the whole batch in order; exactly the failing ones are dropped |
| LiveRuns.Hub.Leave | api/main.py:709-713 | a disconnecting socket is forgotten, also when a failed send dropped it before |
| LiveRuns.PublishIsAnEvent | api/main.py:625-636 | what a publication does to the sockets is a tick, or a settling, of the system the run theorems are about |
| LiveRuns.JoinIsAnEvent | api/main.py:696-706 | what a join does is the event that adds a console |
| LiveRuns.LeaveIsAnEvent | api/main.py:709-713 | what a disconnect does is the event that removes one |
| LiveRuns.DeliveryIsCarried | frontend/src/lib/useLive.ts:55-75 | taking a message keeps what each console has yet to receive the end of what its socket was sent |
| LiveRuns.RunIsCarried | api/main.py:625-713 | along every run, the hub's sockets are the system's consoles and each has yet to receive the end of what it was sent |
| LiveStream.OnMessageRefines | frontend/src/lib/useLive.ts:48-76 | the newest-first list reducer acts on the set of rows as a keyed map does, and never shows an id twice |
| LiveStream.OnMessagesRefines | frontend/src/lib/useLive.ts:55-75 | the same for any message sequence |
| LiveStream.TickRemembers | api/live.py:129-157 | after a tick the server remembers exactly the analysis's ids, each with its latest fingerprint |
| LiveStream.BatchInStages | api/live.py:145-160 | a batch removes the retracted rows, then replaces the changed ones, then adds the new ones, whatever order retractions are listed in |
| LiveStream.BatchKeepsAgreement | api/live.py:129-160 | a console in agreement with the server before a tick agrees with it after the batch; one that held a subset still does |
| LiveStream.FewerRowsStayFewer | frontend/src/lib/useLive.ts:88-91 | a console that forgot rows never holds a row one that did not forget would lack |
| LiveStream.RowIsCurrentIff | api/live.py:131-138 | after a tick a row shows its id's newest record exactly when that record's fingerprint differs from the one before it, in the analysis or remembered, or the row already showed it |
| LiveStream.RowAfterTick | api/live.py:131-138 | a tick takes a row through all the records its id has in the analysis, repeated or not, replacing it at each whose fingerprint differs from the one before |
| LiveStream.AnomalyAfterTick | api/live.py:150-157 | a tick gives a console the document of an anomaly not announced before and leaves the one it has of any other |
| LiveStream.ConsoleIsNewestFirst | frontend/src/lib/useLive.ts:31-70 | whatever messages a console folds, its sessions and anomalies stand in the order of their last arrival, newest first |
| LiveRuns.StepKeepsInv | api/live.py:115-160 | every step (tick, status, join, leave, clear, delivery) keeps every console in step with the server |
| LiveRuns.RunKeepsInv | api/live.py:85-110 | so does every run |
| LiveRuns.ConsoleShowsLatestAnalysis | api/live.py:129-160 | replica agreement for a drained console in every run |
| LiveRuns.ConsoleShowsLastStatus | api/live.py:103-127 | in every run a drained console reads the state of the last settling, or the starting one, and the statistics of the last analysis |
| LiveRuns.EmptyConsolesHaveNoForeignRows | frontend/src/lib/useLive.ts:38-41 | consoles that open empty show the latest ids and nothing else |
| LiveRuns.CompletenessStays | frontend/src/lib/useLive.ts:84-92 | a console that is not cleared, closed or opened meanwhile keeps having missed nothing |
| LiveRuns.OpeningAndClearing | api/main.py:696-706 | what a console holds and has missed when it opens and when it is cleared |
| LiveRows.ConsoleShowsLastMoved | api/live.py:129-138 | in every run, a drained console that missed nothing shows, for each session, the latest record since its id was last absent whose fingerprint differs from the one before it |
| LiveRows.SinceMeans | api/live.py:139-144 | those records are all of the id's in the longest run of newest analyses that hold it, in order |
| LiveRows.LastMovedMeans | api/live.py:131-138 | of such records, every later one has the same fingerprint as the one shown, and the one before it, if any, another |
| LiveRows.ConsoleShowsAnnouncedAnomaly | api/live.py:148-157 | in every run a drained console that missed nothing shows each anomaly with the document it was announced with |
| LiveRows.DrainDelivers | frontend/src/lib/useLive.ts:55-75 | a console can always be drained, and nothing else changes meanwhile |
| LiveRows.StaleDocument | api/live.py:131-138 | a run of two ticks after which a drained console shows the older of two records with one fingerprint |
| LiveRows.RepeatedRow | api/live.py:130-138 | a run of one tick after which it shows the first of two rows of one id where the table keeps the last |
| LiveLifecycle.AtMostOneRunning | api/main.py:656-665 | under any interleaving of starts, stops and ticks, two different runs are never both running |
| LiveLifecycle.StartIsAcceptedIff | api/main.py:656-666 | in every reachable registry with a free lock, a start adds a running current run if and only if none is running, it is not refused and the source comes up; else nothing changes |
| LiveLifecycle.StopReachesTheRunningRun | api/main.py:687-691 | a stop request reaches the running run and touches no other |
| LiveLifecycle.FinalStateIsFinal | api/live.py:103-110 | a run that left `running` keeps its final state, file length and analysed length for ever |
| LiveLifecycle.SourceEndDecides | api/live.py:103-109 | a source that ends while its run goes on decides the outcome: error if it failed, else stopped, unless an exception makes it error |
| LiveLifecycle.UnfailedEndsStopped | api/live.py:103-105 | a run whose source never failed ends stopped when it leaves its loop |
| LiveLifecycle.ExceptionMeans | api/live.py:106-109 | an exception in the loop ends the run in error with its source stopped, unless stopping it raises too |
| LiveLifecycle.RunGoesOn | api/live.py:85-102 | a run nobody stops, whose source lives and whose captures stay below 250,000 packets, never leaves its loop |
| LiveLifecycle.LimitEndsTheLoop | api/live.py:97-98 | at 250,000 packets it leaves it |
| LiveLifecycle.AnalysisReads | api/live.py:93-116 | how much of a growing file an analysis may have read |
| LiveLifecycle.PassCovers | api/live.py:93-96 | one pass of the loop analyses every byte there is, from 24 on |
| LiveLifecycle.HeaderAloneIsNotAnalysed | api/live.py:94-94 | a file shorter than its 24-byte header is never analysed |
| LiveLifecycle.LastAnalysisCoversFinalFile | api/live.py:89-105 | a run whose last iteration began stopped or finished has analysed the entire final file, in every continuation |
| LiveLifecycle.StopTakesEffect | api/live.py:80-110 | once asked to stop, or once its source has finished, the loop task is over within twelve of its own steps |
| LiveLifecycle.ExitIsCoveredIff | api/live.py:89-105 | a run leaving its loop ends with its whole final file analysed in every continuation if and only if its last pass began stopped or finished |
| LiveLifecycle.LimitCanMissTheTail | api/live.py:93-98 | a concrete schedule in which a run ends at the packet limit with unanalysed bytes |
| AuditChain.DigestForgetsOrder | api/store.py:134-136 | the digest does not depend on the order rows come back in |
| AuditChain.DigestCommits | api/store.py:134-136 | without collisions, equal digests mean equal multisets of documents and equal statistics |
| AuditChain.DigestOfAscending | api/store.py:134-136 | it is the hash of the session documents in ascending order, then the anomalies', then the statistics |
| AuditChain.LexMeans | api/store.py:136-136 | documents are ordered by first differing character, a prefix before its extensions |
| AuditChain.EntryText | api/store.py:139-140 | the text an entry's hash covers |
| AuditChain.DecimalInjective | api/store.py:139-140 | the printed sequence number determines the number |
| AuditChain.DecimalMeans | api/store.py:140-140 | the printed number reads back, digits only, without a leading zero |
| AuditChain.EncodingInjective | api/store.py:139-140 | the joined encoding determines every field, though a job id may contain the separator |
| AuditChain.EncodingPins | api/store.py:139-140 | an entry without the separator in its fields encodes unlike any other entry, whatever text that one holds |
| AuditChain.AssumptionsCanBeMet | api/store.py:130-140 | some hash and some encoder meet every condition the lemmas put on them, bar-free hashes included |
| AuditChain.HeadCommitsToHistory | api/store.py:191-202 | any log that passes the link check with the head of a sound log is that log, if its job ids hold no separator or the other stays in its alphabet |
| AuditChain.HeadFixesHistoryIff | api/store.py:191-202 | the head fixes the history against every other log if and only if no job id holds the separator |
| AuditChain.LinkedIffNoneBroken | api/store.py:194-202 | the scan finds no broken entry exactly when every link holds |
| AuditChain.BrokenAtMeans | api/store.py:193-202 | what is reported is the number of the first entry whose link fails, or nothing exactly when none does |
| AuditChain.HeadMeans | api/store.py:127-127 | the head is the last entry's hash, sixty-four zeros before any entry |
| AuditChain.AlterationBreaksThere | api/store.py:194-202 | rewriting committed fields of an entry whose job id holds no separator, with any text, breaks the check at that entry |
| AuditChain.AlterationBreaksIff | api/store.py:194-202 | every rewriting of an entry is caught there if and only if its job id holds no separator |
| AuditChain.OneAlteredFieldBreaksThere | api/store.py:194-202 | so does changing any single field, the stored hash and back link included |
| JobStores.JobStore.constructor | api/store.py:109-113 | a new store is empty |
| JobStores.JobStore.SaveAnalysis | api/store.py:230-283 | replaces all of the job's rows, leaves other jobs alone, and appends one entry with the digest of the documents given |
| JobStores.JobStore.AppendAudit | api/store.py:153-179 | appends a correctly linked entry unless the job's newest digest is the same |
| JobStores.JobStore.DeleteJob | api/store.py:393-402 | forgets the job and its rows, keeps the log, and says whether there was a job |
| JobStores.JobStore.CheckLinks | api/store.py:194-202 | reports the number of the first entry whose link fails |
| JobStores.JobStore.FindTampered | api/store.py:204-220 | reports exactly the live jobs whose rows no longer give their newest digest, in whatever order rows are read |
| JobStores.JobStore.VerifyAuditChain | api/store.py:191-227 | ok exactly when no link fails and no live job is tampered |
| JobStores.InsertOrReplace | api/store.py:259-280 | a repeated id keeps its last document |
| JobStores.Column | api/store.py:211-218 | reads each row of the job once, in some order |
| JobStores.ReadBack | api/store.py:211-218 | the documents read back are the documents saved, when ids are distinct, in any order |
| JobStores.HistoryMatches | api/store.py:230-283 | after any history every live job's rows and newest digest are those of its last save, and the chain is linked |
| JobStores.UntamperedIffDistinct | api/store.py:219-220 | a job reads as untampered if and only if its last save had distinct ids |
| JobStores.UntamperedIffSame | api/store.py:204-220 | whatever a live job's tables hold, they give a save's digest if and only if they are its documents and its statistics |
| JobStores.EditIsReported | api/store.py:191-227 | after any history, whatever is then done to the tables, a live job is reported exactly when its rows or statistics differ from its last save |
| JobStores.LogRecordsChanges | api/store.py:153-179 | after any history, the log has one entry per save that changed what was last saved under its job id, numbered from one, with that save's timestamp, capture hash and digest, linked; nothing else |
| JobStores.SaveAddsOneEntryIff | api/store.py:158-159 | a save adds one entry, or none when it repeats what was last saved |
| JobStores.EntriesDiffer | api/store.py:153-159 | no entry of a job has the digest of that job's entry before it |
| JobStores.NoRowOutlivesItsJob | api/store.py:393-402 | after any history every row belongs to a job saved and not deleted since |
| JobStores.VerifiesIffDistinct | api/store.py:191-227 | from the empty store, after any history, verification is ok if and only if every live job's last save had distinct ids |
| JobStores.HistoryIsPinned | api/store.py:153-202 | after any history of saves without separators, the head admits no other log and no rewritten entry survives the check |
| IkeWire.ParseTransformAttributes | core/ike_parser/_wire.py:160-174 | terminates in bounds and collects the fixed-length attributes, later ones winning |
| IkeWire.ParseTransforms | core/ike_parser/_wire.py:189-202 | reads the proposal's transforms up to the one marked last, or fails on a bad length |
| IkeWire.ParseSa | core/ike_parser/_wire.py:177-212 | terminates in bounds on every body and gives its proposals, or a format error |
| IkeWire.FramePayloads | core/ike_parser/_wire.py:259-281 | the strict framer, in bounds on every buffer |
| IkeWire.DecodeChain | core/ike_parser/_wire.py:337-368 | the lenient decoder's chain, in bounds on every buffer |
| IkeWire.DecodeMessage | core/ike_parser/_wire.py:298-370 | terminates in bounds on every byte string, and only one shorter than the header is an error |
| WireMeaning.HeaderMeans | core/ike_parser/_wire.py:298-318 | the fixed header, byte by byte |
| WireMeaning.TruncationMeans | core/ike_parser/_wire.py:320-322 | a message declared longer than its bytes is flagged; under the IKEv1 encryption bit nothing else flags it |
| WireMeaning.EncryptedMeans | core/ike_parser/_wire.py:329-336 | a message is left encrypted exactly under that bit when its body does not frame |
| WireMeaning.PayloadMeans | core/ike_parser/_wire.py:339-368 | type, critical bit, length and body of a payload, and where the chain goes on |
| WireMeaning.NotifyBodyMeans | core/ike_parser/_wire.py:215-256 | a notify body (41): protocol, type, SPI and data |
| WireMeaning.AuthBodyMeans | core/ike_parser/_wire.py:215-256 | an AUTH body (39): its method |
| WireMeaning.TransformMeans | core/ike_parser/_wire.py:160-202 | type, identifier and key length (attribute 14) of a transform |
| WireMeaning.TransformListMeans | core/ike_parser/_wire.py:189-202 | where a list of transforms ends and when it is an error |
| WireMeaning.ProposalListMeans | core/ike_parser/_wire.py:177-212 | the same of proposals |
| WireMeaning.ProposalMeans | core/ike_parser/_wire.py:177-212 | number, protocol, SPI and transforms of a proposal |
| IkeWire.StrictFramerTiles | core/ike_parser/_wire.py:259-281 | an accepted buffer is exactly its payloads end to end |
| IkeWire.TilingIsAccepted | core/ike_parser/_wire.py:259-281 | conversely, any well-formed tiling is accepted and returned |
| IkeWire.FramersAgree | core/ike_parser/_wire.py:298-370 | on every accepted chain without SK the lenient decoder returns the same list, not truncated |
| IkeWire.LenientCut | core/ike_parser/_wire.py:337-368 | cutting a chain yields a prefix of its payloads and a truncation flag when any is lost |
| IkeWire.CutMessageIsPrefix | core/ike_parser/_wire.py:320-370 | cutting a message after its header yields a prefix, flagged, with every other field unchanged |
| IkeWire.EncryptedCutInventsIff | core/ike_parser/_wire.py:329-338 | for encrypted IKEv1 a cut shows payloads the full message lacks exactly when it falls at the end of a readable chain |
| IkeWire.EncryptedCutCanInvent | core/ike_parser/_wire.py:329-338 | one such message |
| IkeBuild.TransformsRoundTrip | tests/ike_parser/_build.py:165-168 | any transforms, with or without key length, decode to themselves |
| IkeBuild.SaRoundTrip | tests/ike_parser/_build.py:171-196 | any proposals, with SPIs and transforms, decode to themselves |
| IkeBuild.ContentReadsBack | tests/ike_parser/_build.py:222-239 | SA, KE, notify, AUTH and ID contents decode to the fields they were built from |
| IkeBuild.LenientChainRoundTrip | tests/ike_parser/_build.py:85-91 | the lenient decoder inverts the chain encoder |
| IkeBuild.FrameChainRoundTrip | tests/ike_parser/_build.py:85-91 | the strict framer inverts it exactly when every body is well formed |
| IkeBuild.MessageRoundTrip | tests/ike_parser/_build.py:112-133 | header fields and payload chain come back |
| IkeBuild.SkMessageRoundTrip | tests/ike_parser/_build.py:136-159 | a clear chain inside an SK envelope comes back exactly when its bodies are well formed, else the envelope stays opaque |
| IkeBuild.EncryptedV1RoundTrip | core/ike_parser/_wire.py:329-338 | the readable body of an encrypted IKEv1 message comes back on the same terms |
| IkeBuild.ContentsRoundTrip | tests/ike_parser/_build.py:112-133 | whatever contents are put in a message, decoding its bytes gives them back |
| IkeBuild.SealedContentsRoundTrip | tests/ike_parser/_build.py:136-159 | the same inside an SK envelope left in the clear |
| IkeV1Wire.ParseV1Attributes | core/ike_parser/ikev1.py:100-118 | terminates in bounds and collects both encodings of an attribute |
| IkeV1Wire.AttributesRoundTrip | core/ike_parser/ikev1.py:100-118 | any list of TV and TLV attributes decodes to what it says |
| IkeV1Wire.V1SaRoundTrip | core/ike_parser/ikev1.py:121-148 | the first transform of an encoded SA body comes back with protocol, id and attributes |
| IkeV1Wire.FirstTransformErrors | core/ike_parser/ikev1.py:121-148 | which lengths in an SA body are errors |
| IkeV1Wire.FirstTransformReads | core/ike_parser/ikev1.py:121-148 | where protocol, identifier and attributes stand in one that is read |
| IkeV1Wire.AttributeMeans | core/ike_parser/ikev1.py:100-118 | what one attribute of either encoding says, and where the next one starts |
| IkeV1Wire.Phase1RoundTrip | tests/ike_parser/_build.py:465-490 | a phase-1 body with or without key length and lifetime decodes to those values |
| SaRecoveryV1.Phase2RoundTrip | tests/ike_parser/_build.py:558-585 | so does a Quick Mode body, with its optional group |
| SaRecoveryV1.Phase1IsRecovered | core/ike_parser/ikev1.py:167-189 | the record of a main-mode exchange holds the negotiated parameters |
| SaRecoveryV1.QuickModeIsRecovered | core/ike_parser/ikev1.py:205-234 | with a Quick Mode the data plane's parameters are the record's, and PFS and mode follow from the offer |
| SaAnalysisV1.FindFirst | core/ike_parser/ikev1.py:154-164 | the search loop returns the first message that satisfies the condition, or none |
| SaAnalysisV1.AggressiveMeans | core/ike_parser/ikev1.py:256-263 | aggressive mode is read off the first opening message, or without one off any exchange type |
| SaAnalysisV1.FlagsMean | core/ike_parser/ikev1.py:290-296 | completeness and the NAT flag as conditions on the set of messages |
| SaAnalysisV1.CookieMeans | core/ike_parser/ikev1.py:239-243 | the responder cookie is the first that is not zero |
| SaAnalysisV1.Phase1IsRead | core/ike_parser/ikev1.py:265-282 | which message phase 1 is read from |
| SaAnalysisV1.Phase1Means | core/ike_parser/ikev1.py:167-189 | what each phase-1 attribute number sets |
| SaAnalysisV1.QuickModeIsRead | core/ike_parser/ikev1.py:192-202 | which message Quick Mode is read from, and that its KE payload counts |
| SaAnalysisV1.QuickModeMeans | core/ike_parser/ikev1.py:205-234 | what each Quick Mode attribute number changes |
| SaAnalysisV1.Analyse | core/ike_parser/ikev1.py:237-308 | the searches, assembled field by field, give the record the lemmas below are about |
| SaAnalysisV1.FirstIgnoresCopies | core/ike_parser/ikev1.py:154-164 | the first message of any kind is the same with later copies left out |
| SaAnalysisV1.AnalysisIgnoresCopies | core/ike_parser/ikev1.py:237-308 | the record depends on first occurrences alone |
| SaAnalysisV1.RetransmissionChangesNothing | core/ike_parser/ikev1.py:237-308 | inserting a copy of a message after its first occurrence changes neither aggressive mode, parameters, PFS, NAT flag, completeness nor id |
| SaAnalysis.Analyse | core/ike_parser/ikev2.py:277-371 | the record of an IKEv2 SA |
| SaAnalysis.OutcomeMeans | core/ike_parser/ikev2.py:295-371 | mode, PFS and completeness are what the documentation says, as conditions on the set of messages |
| SaMeaning.OutcomeOnTheWire | core/ike_parser/ikev2.py:295-371 | the same with nothing but exchange, payload, protocol, notify and transform numbers |
| SaMeaning.SuiteMeans | core/ike_parser/ikev2.py:169-185 | which transform of a proposal each suite field is |
| SaMeaning.InitMeans | core/ike_parser/ikev2.py:299-310 | which payloads of an SA_INIT message count |
| SaAnalysis.MoreMessagesKnowMore | core/ike_parser/ikev2.py:277-371 | with more messages PFS and mode only rise and completeness never reverts |
| SaAnalysis.OutcomeForgetsOrder | core/ike_parser/ikev2.py:277-371 | order and repetition do not matter to them |
| SaAnalysis.IdentityChangesOnce | core/ike_parser/ikev2.py:278-279 | the responder half of an id changes only from zero |
| SaAnalysis.SuiteComesFromLastProposal | core/ike_parser/ikev2.py:169-189 | cipher, integrity, PRF and group are those of the last proposal that counts and carries them |
| SaAnalysis.UnseenStaysUnknown | core/ike_parser/ikev2.py:311-313 | a field no such proposal carries stays unknown, the group then being the first KE payload's |
| SaAnalysis.AuthComesFromLast | core/ike_parser/ikev2.py:316-321 | the authentication method is that of the last IKE_AUTH message that shows one, EAP winning |
| SaAnalysis.UnseenAuthStaysUnknown | core/ike_parser/ikev2.py:316-321 | none is recorded when no message shows one |
| SaAnalysis.AdditionalComeFromLast | core/ike_parser/ikev2.py:186-189 | the additional key exchanges are those of the last proposal that counts, each once, in order |
| SaAnalysis.NoProposalNoAdditional | core/ike_parser/ikev2.py:186-189 | none when no proposal counts |
| SaAnalysis.IdentityMeans | core/ike_parser/ikev2.py:278-279 | the id's halves are the first message's initiator half and the first responder half that is not zero |
| SaNames.GroupNameInjective | core/ike_parser/_transforms.py:157-193 | a group's recorded name determines the group |
| SaNames.SizedCiphers | core/ike_parser/_transforms.py:103-112 | the names of the ciphers with a key length, 128 when it is left out or zero |
| SaNames.GroupNames | core/ike_parser/_transforms.py:154-193 | the names of the groups |
| SaOrder.RecordForgetsOrderIff | core/ike_parser/ikev2.py:169-189 | under any naming, a recorded field is independent of message order and repetition if and only if it is settled as to names |
| SaOrder.SuiteForgetsOrderIff | core/ike_parser/ikev2.py:295-313 | the recorded cipher, integrity and PRF names are each so if and only if settled |
| SaOrder.GroupForgetsOrderIff | core/ike_parser/ikev2.py:169-189 | likewise the recorded group, with the fallback to a KE payload |
| SaOrder.AnswerIsRead | tests/ike_parser/_build.py:171-196 | the bytes of a response accepting one cipher decode to an answer carrying exactly that cipher |
| SaOrder.TwoResponsesDependOnOrder | core/ike_parser/ikev2.py:302-310 | two such answers, for any two ciphers of different names: the record names the one seen last |
| SaOrder.NamesHideOrder | core/ike_parser/_transforms.py:88-114 | for any two ciphers of one name the identifier depends on their order and the recorded name does not |
| AntiReplay.GroupBySpi | core/ike_parser/ikev2.py:210-212 | each SPI's sequence numbers in capture order |
| AntiReplay.AntiReplayFromEsp | core/ike_parser/ikev2.py:206-219 | off exactly when some SA of four or more packets reuses one number; on exactly when none does and one advances |
| AntiReplay.VerdictMeans | core/ike_parser/ikev2.py:206-219 | the verdict in terms of the packets: how many an SA has, and whether its number ever moves |
| AntiReplay.VerdictForgetsOrder | core/ike_parser/ikev2.py:206-219 | the verdict does not depend on packet order |
| AntiReplay.DecidedStaysDecided | core/ike_parser/ikev2.py:206-219 | as a capture grows a verdict is never withdrawn |
| Capture.ReadCapture | core/capture.py:90-147 | one pass gives the IKE frames, the ESP frames and the packet count |
| CaptureMeaning.PacketMeans | core/capture.py:110-127 | which protocol numbers make a packet ESP, AH, UDP or nothing |
| CaptureMeaning.UdpMeans | core/capture.py:126-143 | what a UDP payload is, by port, marker and length |
| CaptureMeaning.SpiSeqMeans | core/capture.py:81-87 | where SPI and sequence number stand, and what a short body leaves out |
| Capture.FramesAreNumbered | core/capture.py:101-146 | both lists carry strictly increasing frame numbers within the capture |
| Capture.EveryPacketOnce | core/capture.py:101-146 | each packet is in exactly the list its kind says, or in none |
| Capture.CaptureEvidencePartitions | core/pipeline.py:140-157 | for every capture the sessions' evidence lists partition the IKE frame numbers |
| Capture.SentBytesAreReadIff | core/capture.py:134-146 | any bytes on port 500, or behind the marker on port 4500, are read as the message they decode to exactly when they hold a header of a known version, and are never taken for ESP |
| Capture.SentMessageIsRead | core/capture.py:134-146 | an encoded message, in the clear or as encrypted IKEv1, is read as sent |
| Capture.SentSkMessageIsRead | core/capture.py:134-146 | so is one inside an SK envelope |
| Capture.SentEspIsRead | core/capture.py:81-87 | native ESP and AH give the SPI and sequence number sent |
| Capture.NatEspIsReadIff | core/capture.py:134-139 | ESP in UDP is read as ESP exactly when its SPI is not zero |
| Ingestion.GroupFrames | core/ingestion/engine.py:116-132 | frames grouped by initiator SPI, in capture order |
| Ingestion.NatOwner | core/ingestion/engine.py:161-169 | the SAs of the only pair sharing an endpoint, or none |
| Ingestion.AttributeEsp | core/ingestion/engine.py:142-151 | each ESP packet goes to all its owners, or to the orphans |
| Ingestion.Bucket | core/ingestion/engine.py:114-158 | every SA with its frames, peers and ESP packets, and the orphans |
| Ingestion.EspHasOnePairOrNone | core/ingestion/engine.py:146-151 | an ESP packet's owners are all the SAs of exactly one peer pair, or none |
| IngestionMeaning.OwnersMean | core/ingestion/engine.py:139-169 | a packet is given to an SA if and only if its addresses are the SA's peers, or no SA's are and the SA is of the only pair sharing one with it |
| IngestionMeaning.PeersMean | core/ingestion/engine.py:129-136 | an SA's peers are the addresses of its first opening message, or without one of its first message |
| IngestionMeaning.EspStaysInOrder | core/ingestion/engine.py:145-151 | an SA's packets and the orphans stay in capture order |
| IngestionMeaning.SessionVerdictMeans | core/ingestion/engine.py:41-43 | the anti-replay verdict in terms of a session's packets, a number that could not be read counting as zero |
| IngestionMeaning.KeysInOrder | core/ingestion/engine.py:116-127 | SAs stand in the order of their first messages |
| Ingestion.EspGoesSomewhere | core/ingestion/engine.py:146-151 | an ESP packet is an orphan exactly when no SA has it |
| Ingestion.EvidencePartitionsFrames | core/ike_parser/ikev2.py:399-401 | each evidence list increases, no number is in two, and together they are all the numbers |
| Ingestion.AttributionsAgree | core/ike_parser/ikev2.py:129-143 | the parser's attribution equals Stage 1's when each SA's frames share one unordered address pair |
| Ingestion.AttributionsMatchIff | core/ike_parser/ikev2.py:129-143 | for every capture, the two attributions match if and only if they agree on the packets among the SAs' known addresses and one stranger |
| Ingestion.OneSaMatchesIff | core/ike_parser/ikev2.py:129-143 | for one SA they match if and only if its opening message and its first message name the same pair |
| Ingestion.PeersMayDifferWithSeveralSas | core/ike_parser/ikev2.py:129-143 | with several SAs the pairs may differ and every packet still have the same owners |
| Ingestion.AttributionsCanDiffer | core/ike_parser/ikev2.py:129-143 | a capture on which they differ |
| Ingestion.KeysGrow | core/ingestion/engine.py:116-127 | every SA persists as a capture is extended |
| Ingestion.GrowingCaptureOnlyLearns | core/ingestion/engine.py:117-137 | as a capture grows an SA's PFS and mode only rise and completeness never reverts |
| Pipeline.OrphanSessions | core/pipeline.py:116-137 | one record per peer pair, named after its first packet's SPI |
| Pipeline.FirstsMean | core/pipeline.py:122-126 | one group per address pair, in the order the pairs first appear |
| Pipeline.IdsMean | core/pipeline.py:130-130 | what the ids are made of |
| Pipeline.SessionIdsDistinctIff | core/pipeline.py:130-157 | an analysis's ids are distinct exactly when its mid-session tunnels begin with different SPIs |
| Pipeline.TwoTunnelsShareAnId | core/pipeline.py:122-130 | a capture of two packets that breaks it |
| Pipeline.TwoTunnelsReadAsTampered | api/store.py:204-220 | a job saved from that capture does not verify |
| Pipeline.SavedCaptureVerifiesIff | core/pipeline.py:140-157 | a job saved from a capture verifies exactly under that condition and distinct anomaly ids |
| FlowBursts.BurstIntervals | core/flow/features.py:65-83 | the two-pointer loop, whose inner pointer moves at most once per packet in all |
| FlowBursts.BurstsAreDenseRuns | core/flow/features.py:65-83 | the intervals cover exactly the runs of more than ten packets within 100 ms, are strictly separated, and number at most an eleventh of the packets |
| FlowBursts.BurstyIffInDenseWindow | core/flow/features.py:66-69 | a moment is in such a run exactly when it lies in the packet span of some dense 100 ms window |
| FlowFeatures.FeatureVectorForgetsOrder | core/flow/features.py:86-143 | the vector is the same for every order of the packets, simultaneous ones included |
| FlowFeatures.FeatureVectorMeans | core/flow/features.py:86-143 | each feature in terms of the packets given: direction ratio, sizes, times and bursts |
| FlowFeatures.DirRatioFrom | core/flow/features.py:105-113 | the ratio is bytes up over bytes down, the packet count when only upward bytes exist, zero without any |
| FlowFeatures.VarianceMeans | core/flow/features.py:98-102 | a variance is the mean squared distance from the mean, zero below two values |
| FlowFeatures.GapRatioMeans | core/flow/features.py:115-123 | time inside bursts over time between them, each per burst or gap |
| FlowFeatures.PercentileMeans | core/flow/features.py:51-62 | a percentile interpolates between the two order statistics around its position |
| FlowFeatures.GapsAddUp | core/flow/features.py:101-102 | the inter-arrival gaps add up to the duration |
| FlowFeatures.BytesAddUp | core/flow/features.py:105-106 | bytes up plus bytes down are all bytes |
| FlowFeatures.GapRatioIsRealRatio | core/flow/features.py:117-122 | with two or more bursts the mean gap is positive and the ratio is a real ratio |
| FlowFeatures.PercentileInRange | core/flow/features.py:51-62 | a percentile lies between the smallest and the largest value |
| FlowFeatures.PercentileIsMonotone | core/flow/features.py:51-62 | a percentile never falls as q rises |
| FlowFeatures.FeatureVectorIsConsistent | core/flow/features.py:86-143 | mean gap, duration, rate, burst count and percentiles are mutually consistent for every flow |
| Gateway.Session.Take | core/gateway_state.py:203-217 | one record's values applied in order to the session, with the counts |
| Gateway.Session.Reconcile | core/gateway_state.py:196-217 | all matching records applied in order |
| Gateway.ApplyGatewayState | core/gateway_state.py:190-228 | every session's new record, the fill counts and the matched ids |
| Gateway.SummaryIsGrowth | core/gateway_state.py:210-212 | the reported fill counts are the growth of the gateway field lists |
| Gateway.WireValuesStand | core/gateway_state.py:203-217 | a field the wire observed is never changed |
| Gateway.ProvenanceStaysClean | core/gateway_state.py:205-211 | gateway-filled and inferred fields stay disjoint and duplicate-free |
| Gateway.FirstDefiniteOfferWins | core/gateway_state.py:186-212 | a hidden field takes the first definite value a matching record offers and is credited, or stays hidden |
| Gateway.MatchMeans | core/gateway_state.py:180-183 | which sessions a record matches: by SPI prefix, or by both addresses in either order |
| Gateway.OffersMean | core/gateway_state.py:196-203 | a session is offered the values of the matching records and no others |
| Gateway.CreditMeans | core/gateway_state.py:205-212 | which fields are credited to the gateway |
| Gateway.InferredMeans | core/gateway_state.py:207-207 | which fields stay inferred |
| Gateway.ModeConfidenceMeans | core/gateway_state.py:208-209 | the mode's confidence is dropped exactly when a record fills the mode |
| Gateway.MismatchesMean | core/gateway_state.py:213-217 | the notes after an import are those before and every disagreement with the wire |
| Gateway.RecordedInOrder | core/gateway_state.py:210-216 | credited fields and notes are listed in the order of the records' values |
| Gateway.ImportIsIdempotent | core/gateway_state.py:190-228 | importing the same state again changes nothing and counts nothing |
| Rules.AssessCompliance | core/rules/compliance.py:30-59 | each baseline's violations, unassessed labels and status, in order |
| Rules.CheckRequirements | core/rules/compliance.py:38-43 | unmet and unassessed requirements, in order |
| Rules.ResultMeans | core/rules/compliance.py:35-49 | a baseline's violations, unassessed labels and status in terms of its rules, its requirements and the session |
| Rules.HoldsMeans | core/rules/engine.py:77-89 | the operators on a value, one by one |
| Rules.SearchMeans | core/rules/engine.py:71-72 | a search finds its word anywhere, an anchored one only at the start, in either case |
| Rules.TriggeredMeans | core/rules/engine.py:92-126 | a rule is triggered exactly when each of its clauses holds |
| Rules.ScoreMeans | core/rules/engine.py:131-135 | the score is a hundred less 40, 20, 10 and 5 for each scored finding, not below zero |
| Rules.VerdictMeans | core/rules/engine.py:137-140 | the verdict is the worst severity with a scored finding, safe without one |
| Rules.SingleValueRules | core/rules/rules.yaml:12-215 | when the rules on one value fire |
| Rules.ThresholdRules | core/rules/rules.yaml:12-215 | when the lifetime rules and the mismatch rule fire |
| Rules.PairedRules | core/rules/rules.yaml:12-215 | when the rules on IKEv1 and aggressive mode fire |
| Rules.BrokenCipherRule | core/rules/rules.yaml:12-215 | the first rule fires exactly on a cipher whose name starts with the whole word des or null |
| Rules.WordRules | core/rules/rules.yaml:12-215 | when the rules that look for one word fire |
| Rules.ShippedSeverities | core/rules/rules.yaml:12-215 | each shipped rule's severity, and the one that only advises |
| Rules.HiddenHoldsNothing | core/rules/engine.py:71-92 | no operator that rejects hidden values holds of one |
| Rules.ShippedTableIsHidingSafe | core/rules/rules.yaml:12-215 | every shipped clause on a hideable field rejects hidden values |
| Rules.HidingAddsNoFinding | core/rules/engine.py:95-126 | hiding fields never triggers a rule |
| Rules.HidingAddsNoPenalty | core/rules/engine.py:131-135 | hiding fields never raises the penalty |
| Rules.OverallIsWorst | core/rules/engine.py:137-140 | the verdict is the worst severity among the scored findings, safe without any |
| Rules.CriticalForcesVerdict | core/rules/engine.py:131-140 | a scored critical finding forces the verdict and caps the score |
| Rules.HidingFailsNoBaseline | core/rules/compliance.py:35-49 | a baseline that did not fail does not fail once fields are hidden |
| Rules.HidingIsNeverPunished | core/rules/engine.py:103-140 | for the shipped rules and baselines, hiding adds no finding, lowers no score, worsens no verdict and fails no baseline |
| Cef.ExtensionEscapeMeaning | reporting/export.py:32-35 | the five replacements in their order escape the value whose line breaks became spaces |
| Cef.SpacedKeeps | reporting/export.py:35-35 | a value without line breaks is unchanged by the normalisation |
| Cef.SpacedHasNoBreak | reporting/export.py:35-35 | no line break survives in a value |
| Cef.LineReadsBack | reporting/export.py:128-143 | splitting at the first seven unescaped bars and at unescaped equals signs recovers header and non-empty pairs |
| Cef.LinesDiffer | reporting/export.py:128-143 | equal lines mean equal signature, name, severity and pairs |
| Cef.ToCef | reporting/export.py:56-125 | the text is the lines of the sessions' and anomalies' records, in order |
| Cef.LevelMeans | reporting/export.py:22-22 | the five severities on the scale of zero to ten |
| Cef.HeaderMeans | reporting/export.py:128-139 | the seven header fields of every line |
| Cef.LabelsMean | reporting/export.py:68-86 | what each numbered key is called |
| Cef.FindingRecordMeans | reporting/export.py:66-110 | what a finding's record tells of its session |
| Cef.FindingRecordTells | reporting/export.py:96-103 | and of the finding itself |
| Cef.CleanRecordMeans | reporting/export.py:91-93 | the one record of a session without findings |
| Cef.AnomalyRecordMeans | reporting/export.py:112-124 | what an anomaly's record tells |
| Cef.PeersMean | reporting/export.py:63-63 | an anomaly's addresses are those of the last session with its id |
| Cef.LineCount | reporting/export.py:65-124 | one line per finding, one per clean session, one per anomaly |
| Cef.LineBreaksIff | reporting/export.py:24-35 | a line contains a line feed exactly when its signature or name does |
| Cef.FeedSplitsIff | reporting/export.py:56-125 | the feed splits back into its lines exactly when no header field holds a line feed |
| Cef.FeedReadsBack | reporting/export.py:56-125 | reading such a feed line by line recovers every record |
| Cef.NewlineInNameSplitsTheEvent | reporting/export.py:28-29 | a description with a line feed splits its event in two |

## Left out

- LiveRuns.LiveRun.Tick: the save to the store that a tick also performs is not in this method; it is
  JobStores.JobStore.SaveAnalysis, taken on its own.
- LiveRuns.Hub.Join: subscribing and greeting are one step here; in the code a batch can be
  published between them, so the greeting may carry an older status than the batch did.
- LiveRuns.Hub.Publish: one batch at a time; a start request's status message and a tick's batch
  may interleave socket by socket in the code.
- LiveRuns.ConsoleShowsLatestAnalysis: one run on the stream; rows of earlier runs and of uploads
  are the foreign rows the statement sets aside, and uploads during the run are not steps.
- LiveStream.BatchInStages: retractions may come in any order; the code lists sessions in insertion
  order and anomalies alphabetically.
- LiveLifecycle.ExitIsCoveredIff: a source whose stop fails twice leaves its loop task
  dead and its run marked running; the statement is about runs that ended.
- JobStores.JobStore.SaveAnalysis: the clock and the capture file's hash are inputs; SQL text,
  schema migration and the severity, score, source and capture columns are not modelled.
- SaAnalysis.Analyse: an authentication method the registry does not name, which leaves the field
  unset, is kept; names are added in SaNames; vendor, fragmentation, dead peer detection,
  certificates, message sizes and quantum status are not fields.
- SaAnalysisV1.Analyse: fields hold numeric ids, not names, an unnamed authentication method among
  them; vendor, fragmentation, dead peer
  detection, certificates and message sizes are not fields.
- Ingestion.Bucket: records are values, so the sharing of one mutable record between lists is not
  captured.
- Ingestion.AttributionsAgree: about captures with at least one SA; without one the parser has a
  separate case for ESP alone.
- Pipeline.OrphanSessions: the records' ids and their order; the other columns are not modelled.
- Pipeline.SavedCaptureVerifiesIff: which SAs the parser keeps is a parameter, since parameter
  validation can reject one; how the detectors make anomaly ids is not modelled.
- FlowFeatures.FeatureVectorForgetsOrder: standard deviations appear as variances, and nothing is
  rounded to four places.
- Gateway.ApplyGatewayState: the flat list of mismatch lines and the unmatched records are not
  returned; reading swanctl and xfrm text is not modelled.
- Rules.HiddenHoldsNothing: the search operator is modelled for the constructs the shipped tables
  use (anchor, boundary, letters, optional letter), on words, flags and missing values.
- Rules.HidingIsNeverPunished: the fields that may be hidden are those whose value a capture may not
  reveal; version, aggressive mode, IP version, fragmentation and gateway mismatches are always known.
- The machine-learning classifiers, X.509 parsing, packet capture and pcap decoding, HTTP routing,
  access control, report templates, remediation text and the other React components: libraries,
  input/output, or lookups with only easy claims.
- Structural inference of missing fields and of the tunnel mode (core/pipeline.py): both rest on
  classifier results.
- Busiest-flow selection and flow direction (core/flow/): lookups over values already modelled.
