# Delivery pipeline of the weighing data system: a Dafny model

The system moves weighing records from a scale's SQL Server database over a cloud relay to a
central database, without any distributed transaction:

- **A, the uploader** (`cmd/uploader`) reads pending rows, drops those its append-only
  confirmation log already names, posts the rest, and logs what C acknowledged.
- **C, the receiver** (`cmd/receiver`) upserts records by `entityType:key` in one transaction,
  in chunks, answers with accepted and failed keys, serves newest-first queries, and deletes
  only rows that are old enough. It guards signed requests with a nonce store.
- **B, the replicator** (`cmd/replicator`) writes a raw row, a typed row and a delete job in one
  transaction; a second worker drains the delete queue with backoff.
- **The Rust engines** (`src/sync`, `src/db`, `src/source`) upload a local SQLite cache or a SQL
  Server table with a retry loop and write the outcome back.

Its guarantees are properties of whole runs with lost and repeated messages, crashes and
interleaved workers, so the centre of the project is one step machine, `Pipeline`, whose steps
are built from the same functions that the imperative models of A, C and B are proved against.

| file | contents |
|---|---|
| `Text.dfy`, `Ordering.dfy` | string order, decimal digits; first-n answers of an ordered query, unique sorted listings |
| `Timestamps.dfy` | the calendar, Go's RFC3339Nano text and chrono's `to_rfc3339` text, and how each sorts |
| `Records.dfy`, `Receiver.dfy` | record keys; C's table, chunked upsert, reply, query, delete |
| `Nonces.dfy`, `CanonicalQuery.dfy` | replay protection; the signed query text |
| `Uploader.dfy`, `Replicator.dfy` | A's keys, acknowledgement and log; B's tables, fetch loop and delete queue |
| `Pipeline.dfy` | A, C and B together: invariant, no loss, retention and agreement over every run |
| `Steps.dfy` | what the steps of the machine check and leave, and what follows over runs |
| `Reach.dfy`, `Blocking.dfy` | reachability; when B catches up, exactly; what an unreadable document blocks |
| `Documents.dfy` | which document is held: where it comes from and exactly which steps lose one |
| `Losses.dfy`, `DeleteQueue.dfy` | runs that reach each losing step; what a `done` job says |
| `Retry.dfy`, `LocalCache.dfy`, `SqlServerSource.dfy`, `Numeric.dfy` | the Rust side |

## How the environment appears

- An instant is a number of nanoseconds since the start of year 0; texts exist for the years 0
  to 9999. Clock readings, database failures, where a transaction breaks off, how many writes a
  disk accepts, and replies are parameters; every theorem is for all their values.
- Messages form a set that only grows: a message in it may be delivered any number of times or
  never. A reply reaches the request it answers, as over one HTTP exchange. Requests carry the
  instant they were signed and a nonce, and `Setup.skew` says whether C checks them: without a
  skew it takes any copy at any time, so the safety results, proved for all setups, do not rest
  on the check; with one (of at least a second; with less C refuses nearly everything) it takes
  a request only fresh and a nonce only once, and the loss runs are proved for every such skew.
- B's tables compare keys by a case-insensitive collation (`cmd/replicator/main.go:598`, `:673`,
  `:696`, `:700`). `Setup.fold` is an arbitrary such comparison, given by a representative of each
  class of equal raw keys; "B has the key" means up to it.
- B and A read at most 1 MiB of an answer (`cmd/replicator/main.go:340`, `cmd/uploader/main.go:314`)
  and fail on a longer one; `Setup.querySize` and `Setup.replySize` are arbitrary.
- Whether a driver burns an AUTOINCREMENT id on a conflict or on a rollback is a parameter
  (`Config.skipOnConflict`, `Config.skipOnRollback`, and an arbitrary number in
  `Pipeline.CAbort`). No result depends on it.
- Parsing a source time is a parameter (`Config.parseTime`), and so is what C's query makes of a
  stored document (`Config.redecode`): it decodes numbers as 64-bit floats and encodes them again.
  Theorems hold for every such function.

## Where the code differs from what one would expect

- **Retention.** Ages are compared as RFC3339Nano text, whose fractions have no fixed width (the
  condition of section 5.1 of RFC 3339 for comparing as strings). A row can be deleted up to one second before the minimum
  age (`Receiver.RetentionOvershoots`); `Receiver.RetentionExact` says exactly when the guard is
  exact, `Receiver.RetentionBound` bounds the error.
- **Replay protection.** The freshness check and the nonce store read the clock separately. A
  replay that is fresh at the check and expired at the store is accepted
  (`Nonces.ReplaySlipsThrough`, exactly characterised by `Nonces.ReplayAcceptedIff`).
- **Reply ids.** The Rust engines mark whatever ids the reply names. A stray failed id takes a
  synced row back (`LocalCache.StrayFailureUnsyncs`, exactly when: `LocalCache.SyncedKeptIff`); a
  stray accepted one marks a row that was never sent (`LocalCache.StrayAcceptanceSyncs`,
  `SqlServerSource.StrayAcceptanceMarks`, exactly when: `LocalCache.SyncsOnlyBatchIff`,
  `SqlServerSource.MarksOnlyBatchIff`).
- **Documents.** No key is lost, but a document can be. `Documents.StepKeepsVersionIff` says, for
  every step, exactly when a held document stays held. Four kinds of step lose one, and a run
  reaches each: an upload of another version, for instance an older one that was delayed
  (`Losses.UploadLoses`), B's delete after such an upload (`Losses.DeleteLoses`), B's commit of an
  older version over a newer (`Losses.CommitLoses`), and an operator's delete.
- **Numbers.** C's query re-encodes numbers as 64-bit floats (`cmd/receiver/main.go:468-474`), so B
  can store another number than was posted (9007199254740993 becomes 9007199254740992).
  `Documents.SingleVersionNoLoss` says when a document that was posted in one version only is held
  verbatim; `Losses.RedecodingLoses` is a run in which it is not.
- **Unreadable documents.** A number no float can hold makes C answer the document as a string,
  which B refuses: its fetch stores the rows before it and stops (`Reach.FetchRound`). If it is the
  newest row, nothing at all reaches B while C's table stays as it is (`Blocking.BlockedForever`),
  and a run leads there for every such record (`Blocking.UnreadableBlocks`). B can catch up with a
  table within its window if and only if all documents are readable and no two keys fall together
  (`Reach.CatchUpIff`).
- **Keys that fall together.** Of two C keys that B's collation takes for equal, one can be stored
  on B, deleted from C and overwritten by the other (`Losses.FoldLoses`). If the posted keys stay
  apart, B's row for a key is its own (`Documents.OwnRow`).
- **Done jobs.** B marks a job by its queue id. If the key was queued again under a new C id since
  the job was loaded, the mark closes the new job although C was never asked to delete that id
  (`DeleteQueue.DoneButLive`, exactly characterised by `DeleteQueue.StepKeepsAnsweredIff`).
- **Delete by key.** C also offers it to operators. `Pipeline.OperatorDeleteLoses` says exactly
  when that loses a logged key, and `Losses.OperatorLoses` is such a run; the other run theorems
  assume operators delete only what B holds.

## Model

| member | source | states |
|---|---|---|
| `Pipeline.NoLoss` | cmd/uploader/main.go:194-239 | in every state of every run (lost, repeated and late messages, crashes and rollbacks anywhere, interleaved workers, foreign uploads) each key in A's log is live on C or stored on B, there up to B's collation |
| `Pipeline.HeldForever` | cmd/receiver/main.go:827-845 | a key once live on C or stored on B stays so in all later states, even if A's log loses it |
| `Pipeline.RunKeepsInvariant` | cmd/replicator/main.go:183-313 | the inductive invariant behind the run theorems holds in every reachable state |
| `Pipeline.StepKeeps` | cmd/replicator/main.go:215-281 | each of the 19 kinds of step preserves the invariant |
| `Pipeline.StepKeepsHeld` | cmd/receiver/main.go:556-607 | no step of anyone gives up a held key, logged or not |
| `Pipeline.StaleDeleteHarmless` | cmd/replicator/main.go:261-299 | whenever a delete is under way its id was issued to the key it was queued for, B has that key, and C can lose no row but the one of that id and key |
| `Pipeline.ReplicaSoundOverRuns` | cmd/replicator/main.go:215-241 | in every reachable state each raw row of B is in just the typed table its entity names, with equal C id and document; only such keys are queued, under distinct job ids; and every stored, queued, loaded or sent id was issued by C to that key, to which alone |
| `Pipeline.LoggedOnce` | cmd/uploader/main.go:396-424 | in every reachable state A's log names no row twice |
| `Pipeline.TakenOnce` | cmd/receiver/main.go:863-893 | in every run with the check on, C takes no nonce twice and no request whose signed second is further back than the skew |
| `Steps.NeverPostedAgain` | cmd/uploader/main.go:201-206 | in every run A posts complete rows only, none that its log names, and one batch at a time |
| `Steps.LogGrows` | cmd/uploader/main.go:396-424 | between crashes of A its log only grows |
| `Steps.LogsReply` | cmd/uploader/main.go:221-238 | A logs only on a reply to its request, of at most 1 MiB, and only rows of its batch that the reply confirms |
| `Steps.FetchIsAnswer` | cmd/replicator/main.go:183-195 | B fetches when the last fetch is done with, and gets C's answer, of at most 1 MiB |
| `Steps.CommitIsWhole` | cmd/replicator/main.go:215-241 | a record is committed only after the two or, with cleanup on, three statements of its transaction, and no table changes before |
| `Steps.WorkerChecks` | cmd/replicator/main.go:261-299 | the delete worker loads what is due, only with cleanup on and nothing left in hand, and marks done only on an answer to the id it sent |
| `Steps.DeleteChecks` | cmd/receiver/main.go:827-845 | a delete step needs a request under way and a cutoff at least the minimum age back, and takes only rows of its id from before the cutoff plus one second |
| `Steps.RefusalChecks` | cmd/receiver/main.go:841-845 | nothing but a negative answer comes of a refused delete |
| `Steps.AbortBurns` | cmd/receiver/main.go:556-561 | an aborted upload leaves every row and may burn any number of ids |
| `Steps.OperatorsMay` | cmd/receiver/main.go:546-554 | the run theorems ask of operators to delete by key only what B holds, and of nobody else anything; an operator's cutoff obeys the minimum age |
| `Steps.UploaderCrash` | cmd/uploader/main.go:359-424 | A can crash at any moment; it keeps any number of first log entries and forgets its request |
| `Steps.ReplicatorCrash` | cmd/replicator/main.go:215-281 | B can crash at any moment; its tables stay as last committed and its workers start afresh |
| `Steps.ClockForward` | cmd/receiver/main.go:831 | time never goes back in a run |
| `Documents.OnlyPostedDocuments` | cmd/receiver/main.go:468-474 | in every reachable state a document of C was posted under its key, and a document of B is C's re-decoding of one posted under its key or one that falls together with it |
| `Pipeline.RetentionOverRuns` | cmd/receiver/main.go:827-845 | a row that leaves C in any run is on B and older than the minimum age less one second |
| `Documents.SingleVersionNoLoss` | cmd/receiver/main.go:468-474 | a logged key that, with all that fall together with it, was posted with one document only has it on C, or re-decoded on B; verbatim if and only if C has the row or re-decoding changes nothing |
| `Documents.OwnRow` | cmd/replicator/main.go:598 | if the posted keys do not fall together, B's document for a key was posted under that very key |
| `Documents.StepKeepsVersionIff` | cmd/replicator/main.go:215-281 | for every step, a held version stays held if and only if the step is neither an upload of another document nor a delete of the old-enough row while B lacks the version, nor B's commit of another document while C lacks it |
| `Documents.HeldNextIff` | cmd/replicator/main.go:215-281 | the same at each step of a run |
| `Documents.HeldWithoutLoss` | cmd/replicator/main.go:215-281 | a version held at one state of a run is held at a later one if no such step lies between |
| `Documents.UploadedIsHeld` | cmd/receiver/main.go:556-607 | a document an upload stores is held, on C or re-decoded on B, until the first such step |
| `Losses.DeleteLoses` | cmd/replicator/main.go:183-281 | for every setup that stores documents and cleans up, with any skew, minimum age, time parser and collation, and any two versions that queries tell apart, small enough to be answered, the older readable and the newer's row able to expire, a careful run in which each request arrives once and in time ends with A having logged the newer one, no row on C, and the older one on B |
| `Losses.UploadLoses` | cmd/receiver/main.go:638-740 | likewise the delayed older upload arrives after the newer one and overwrites it before B has it |
| `Losses.CommitLoses` | cmd/replicator/main.go:215-241 | likewise B's commit of the older version replaces the newer one it had |
| `Losses.RedecodingLoses` | cmd/receiver/main.go:468-474 | a document that re-decoding changes, posted in one version and logged, is held verbatim nowhere |
| `Losses.OperatorLoses` | cmd/receiver/main.go:546-554 | for every genuine record whose row can expire a run with one operator's delete ends with its key logged and on neither C nor B |
| `Losses.FoldLoses` | cmd/replicator/main.go:598 | for any two readable records whose keys fall together on B a run ends with both logged, and only the second's row in the first's place on B and nothing of it on C |
| `Losses.LossesHappen` | cmd/replicator/main.go:183-281 | the hypotheses of the loss runs are met: under the least minimum age, five minutes of skew and faithful queries, the corrected version of a record is logged and then lost |
| `DeleteQueue.StepKeepsAnsweredIff` | cmd/replicator/main.go:261-313 | for every step, that each done job's id had its delete answered is kept if and only if the step marks no job queued anew under an unanswered id |
| `DeleteQueue.MarkReachesOwnKey` | cmd/replicator/main.go:300-313 | a mark by job id changes the entry of its own key only and keeps the C id queued there |
| `DeleteQueue.DoneButLive` | cmd/replicator/main.go:261-313 | for every genuine readable record whose row can expire a run, again with each request once and in time, ends with its job done, its row live on C under the job's id, and no delete of that id answered |
| `Pipeline.OperatorDeleteLoses` | cmd/receiver/main.go:546-554 | an operator's delete by key breaks no-loss if and only if the row is old enough, B lacks it and A logged it |
| `Reach.CatchUpIff` | cmd/replicator/main.go:183-213 | from every reachable state whose rows fit the window and one body, B can reach a state with every live key under C's id as C answers it, C's table unchanged, if and only if every document is readable and no two live keys fall together |
| `Reach.CatchesUp` | cmd/replicator/main.go:183-213 | in that case one fetch with its statement and commit steps does it, and changes nothing but B's tables |
| `Reach.CaughtUpOnlyIf` | cmd/receiver/main.go:468-474 | wherever B has caught up, every document is readable and no two live keys fall together |
| `Reach.RoundDelivers` | cmd/uploader/main.go:194-239 | from every reachable state, if the answers fit a body, the steps post, commit, log, fetch and store lead to one where every row of the batch is logged, live on C and on B as C answers it |
| `Reach.FetchRound` | cmd/replicator/main.go:183-241 | a fetch whose transactions all commit stores exactly the rows answered before the first unreadable one |
| `Reach.NotReached` | cmd/replicator/main.go:183-213 | it leaves B's row for every other key as it was |
| `Blocking.BlockedForever` | cmd/replicator/main.go:183-213 | if C's newest document is unreadable, no run in which C's table stays as it is changes any row of B |
| `Blocking.UnreadableBlocks` | cmd/receiver/main.go:468-474 | for every unreadable record and every other that sorts behind it a run ends with both logged and live, the other not on B, and B blocked so |
| `Reach.ReachableIsStorable` | cmd/replicator/main.go:196-203 | B's checks on identity and document refuse no reachable row that C answers as an object |
| `Receiver.Server.InsertPayload` | cmd/receiver/main.go:556-607 | for any chunk size a commit leaves the table and lists as one-by-one upserts do and records the counts: under each key all of the last record with that key, with the ingestion time of the row that was there or of the first such record, and every other row as it was; any refused statement leaves all rows unchanged |
| `Receiver.CommittedTime` | cmd/receiver/main.go:656-664 | the time by which a committed row is ordered and expires is the first readable of the seven time members of the last record under its key, or its ingestion time |
| `Receiver.CommittedRow` | cmd/receiver/main.go:709-740 | the committed row of a key: content, upload and update time of its last record, ingestion time kept or of the first |
| `Receiver.ClassifyIs` | cmd/receiver/main.go:646-701 | when a record is accepted, under which key, and which of its members and of the payload's origin are stored |
| `Receiver.SourceTimeIs` | cmd/receiver/main.go:656-664 | the source time is the first of `updateTime`, `secondTime`, `firstTime`, `tareTime`, `grossTime`, `measured_at`, `measuredAt` that can be read; none if and only if none can |
| `Receiver.ItemsAre` | cmd/receiver/main.go:123-135 | information rows first, `records` standing in for missing ones, then photos, each with table, origin or `unknown`, upload time and its own clock reading |
| `Receiver.OneAnswer` | cmd/receiver/main.go:646-703 | a record adds its key to the accepted or to the failed list |
| `Records.ExtractRecordKeyIs` | cmd/receiver/main.go:1119-1148 | photo: `id`, then serial number; else serial number, `id`, ticket number; the first not empty |
| `Records.ExtractStringIs` | cmd/receiver/main.go:1150-1168 | the first listed member that is a scalar, strings trimmed; empty if there is none |
| `Receiver.Server.InsertBatch` | cmd/receiver/main.go:580-593 | the chunk loop refines the one-by-one form on the staged table |
| `Receiver.Server.UpsertRecords` | cmd/receiver/main.go:638-707 | collecting rows and one multi-row INSERT refine the one-by-one form |
| `Receiver.ApplyAllRow` | cmd/receiver/main.go:709-740 | last content wins per key, an existing row keeps id and ingestion time, a new row gets a fresh id, other rows stay |
| `Receiver.ApplyAllConcat` | cmd/receiver/main.go:580-593 | applying two runs of records in turn is applying their concatenation |
| `Receiver.ApplyAllIds` | cmd/receiver/main.go:985 | ids stay below the counter and distinct; the counter never goes back |
| `Receiver.UpsertIdIs` | cmd/receiver/main.go:709-740 | a new row takes the next id; a conflicting one keeps its own, and burns one where the database does |
| `Receiver.RedeliveryIdempotent` | cmd/receiver/main.go:638-740 | the same records delivered any further number of times add and remove no row and leave id, content and ingestion time of each |
| `Receiver.OneMoreDelivery` | cmd/receiver/main.go:638-740 | further deliveries take effect one after the other |
| `Receiver.SamePayload` | cmd/receiver/main.go:556-607 | the same payload at other times, with another upload time, is the same records |
| `Receiver.AllAnswered` | cmd/receiver/main.go:646-693 | accepted plus failed equals the number of records |
| `Receiver.AcceptedIsStored` | cmd/receiver/main.go:646-693 | a key is accepted if and only if some record of the payload is stored under it |
| `Receiver.ReplyIsHonest` | cmd/receiver/main.go:397-415 | the reply names only stored keys, its serials are accepted keys, and it answers every record |
| `Receiver.SerialsAreAccepted` | cmd/receiver/main.go:137-153 | each accepted serial is the key of an accepted information record |
| `Receiver.SerialsListed` | cmd/receiver/main.go:137-153 | conversely the serial of every accepted information record is listed |
| `Receiver.SerialsConcat` | cmd/receiver/main.go:137-153 | serials are listed in the order of the records |
| `Receiver.ReplyLists` | cmd/receiver/main.go:397-415 | the reply lists the serial of every information record it accepts, and no failed serials |
| `Receiver.Server.DeleteRecord` | cmd/receiver/main.go:827-845 | only a row with the id goes, only if its time is before the cutoff plus one second, surely if its whole second is before the cutoff's; all other rows stay and the answer says whether one went |
| `Receiver.RetentionBound` | cmd/receiver/main.go:827-845 | a deleted row's second is at most the cutoff's, so its age exceeds the minimum less one second; every row of an earlier second is deleted |
| `Receiver.RetentionExact` | cmd/receiver/main.go:832-837 | the text comparison deletes just the rows before the cutoff if and only if, in the cutoff's second, neither fraction extends the other |
| `Receiver.RetentionOvershoots` | cmd/receiver/main.go:832-837 | with a cutoff on a whole second, later rows of that second are deleted too early |
| `Receiver.QueryOrder` | cmd/receiver/main.go:788-793 | an answer's effective-time texts never grow, equal ones come by key downwards, no row left out belongs before one answered, and whole seconds never grow |
| `Receiver.QueryDetermined` | cmd/receiver/main.go:754-825 | the newest-first query has only one answer |
| `Receiver.QueryAnswered` | cmd/receiver/main.go:754-825 | and it has one, for every table and limit |
| `Records.RecordKeyInjective` | cmd/receiver/main.go:648 | a key determines the entity and the raw key |
| `Records.FoldedIff` | cmd/replicator/main.go:598 | keys fall together on B if and only if their entities agree and their raw keys compare equal |
| `Timestamps.TimeStringOrder` | cmd/receiver/main.go:1236-1238 | how two RFC3339Nano texts compare, for all instants of the years 0 to 9999 |
| `Timestamps.StringOrderIsTimeOrder` | cmd/receiver/main.go:1236-1238 | text order is time order if and only if no fraction is a proper prefix of the other within one second |
| `Timestamps.WholeSecondSortsLast` | cmd/receiver/main.go:1236-1238 | a whole second sorts after every later instant of the second |
| `Timestamps.WholeSecondIs` | cmd/receiver/main.go:1236-1238 | the text of a second is its zero-padded year, month, day, hour, minute and second with `-`, `T` and `:` between |
| `Timestamps.TimeStringIs` | cmd/receiver/main.go:1236-1238 | then a point and the fraction, if there is one, and `Z` |
| `Timestamps.GoDigitsAre` | cmd/receiver/main.go:1236-1238 | the fraction is the nine digits of the nanoseconds without the zeros at their end |
| `Timestamps.ChronoStringIs` | src/db/mod.rs:48 | chrono prints the fewest of 0, 3, 6 and 9 digits that hold the fraction, and `+00:00` |
| `Timestamps.GregorianYears` | cmd/receiver/main.go:1236-1238 | the days before a year in closed form |
| `Timestamps.GregorianMonths` | cmd/receiver/main.go:1236-1238 | the lengths of the months, leap years by the rules for 4, 100 and 400 |
| `Timestamps.DateOfFields` | cmd/receiver/main.go:1236-1238 | year, month and day printed are the date of the day number |
| `Timestamps.ClockOfFields` | cmd/receiver/main.go:1236-1238 | hour, minute and second printed are the time of day |
| `Timestamps.FieldsOrder` | cmd/receiver/main.go:1236-1238 | calendar fields order and determine the second |
| `Timestamps.ChronoOrder` | src/db/mod.rs:48 | for 0, 3, 6 or 9 fraction digits and `+00:00`, text order is time order |
| `Nonces.NonceStore.Add` | cmd/receiver/main.go:931-945 | takes the nonce if and only if it is absent or expired, keeps just the unexpired others, and stores the expiry given |
| `Nonces.Verify` | cmd/receiver/main.go:863-893 | accepts if and only if the request is signed, its timestamp is within the skew on both sides, and its nonce is absent or expired; an unsigned or stale request leaves the store alone, an accepted nonce is kept until its timestamp plus the skew |
| `Nonces.SeparatedByExpiry` | cmd/receiver/main.go:931-945 | over every call sequence two accepted uses of a nonce are separated by the first's expiry |
| `Nonces.AcceptedIffExpired` | cmd/receiver/main.go:863-893 | a fresh request is accepted if and only if every accepted one with its nonce has expired |
| `Nonces.PairAcceptedOnce` | cmd/receiver/main.go:875-892 | if check and store read one instant, a (timestamp, nonce) pair is accepted at most once |
| `Nonces.ReplayAcceptedIff` | cmd/receiver/main.go:875-892 | a used pair is accepted again if and only if it is fresh at the check and expired at the store |
| `Nonces.ReplaySlipsThrough` | cmd/receiver/main.go:875-892 | such a replay exists for every skew, timestamp and nonce |
| `Nonces.StoredWithinWindow` | cmd/receiver/main.go:889-892 | after a request that read one instant every stored expiry is between it and two skews later |
| `CanonicalQuery.Canonicalize` | cmd/receiver/main.go:918-929 | the text encodes the pairs other than `signature` and `sign`, each as often as it occurs, sorted by key and then value |
| `CanonicalQuery.CloneSorted` | cmd/uploader/main.go:440-450 | the clone has every other key once, with its values sorted |
| `CanonicalQuery.FlatIsCanonical` | cmd/replicator/main.go:361-372 | listing the clone by sorted keys gives the canonical list |
| `CanonicalQuery.CanonicalTextIff` | cmd/receiver/main.go:918-929 | two canonical texts are equal if and only if the parameters are, as multisets per key, apart from the signature |
| `CanonicalQuery.CanonicalTwice` | cmd/receiver/main.go:918-929 | decoding a canonical text and canonicalising again is the identity |
| `CanonicalQuery.BothSidesSignTheSame` | cmd/uploader/main.go:440-450 | a client that sends its parameters in any order and C sign the same text |
| `CanonicalQuery.PairsRoundTrip` | cmd/receiver/main.go:918-929 | decoding an encoded list of pairs gives the list back |
| `CanonicalQuery.EscapeRoundTrip` | cmd/receiver/main.go:918-929 | unescaping undoes percent-encoding for every byte string |
| `CanonicalQuery.EscapeByteIs` | cmd/receiver/main.go:918-929 | unreserved bytes as they are, a space as `+`, any other as a percent sign and two upper-case hex digits |
| `CanonicalQuery.UnescapeIs` | cmd/receiver/main.go:918-929 | reading takes `+` for a space and hex digits of either case, and fails on a percent sign without two of them |
| `CanonicalQuery.SegmentIs` | cmd/receiver/main.go:918-929 | a segment without `=` has the empty value; one with a semicolon or unreadable is dropped |
| `Uploader.FetchEntity` | cmd/uploader/main.go:253-288 | all rows become records in order, each with every column, its entity, serial number, primary key and `entity:key`; or the read fails, exactly if some row lacks a primary key or serial number |
| `Uploader.WireRecordIs` | cmd/uploader/main.go:277-281 | the wire form has every column, texts as they are, integers in digits |
| `Uploader.SameText` | cmd/uploader/main.go:475-490 | A takes for a column's text just what C extracts from its wire form |
| `Uploader.DocumentIsWhole` | cmd/receiver/main.go:665-673 | the document C stores for a record A sends has every column of the source row |
| `Uploader.PayloadIs` | cmd/uploader/main.go:211-220 | the payload has A's origin and time, the rows of each entity in order, and nothing else |
| `Uploader.KeysAgree` | cmd/uploader/main.go:281-285 | C accepts every record A sends, under A's key |
| `Uploader.Acknowledged` | cmd/uploader/main.go:331-357 | an answer that names nobody confirms all records; any other just those whose key it names, or whose key is that of a named serial, in order |
| `Uploader.HonestAcknowledgement` | cmd/uploader/main.go:331-357 | for every batch C answers one verdict per record, the empty-reply fallback is not reached, and A acknowledges exactly the records C stored |
| `Uploader.StateKeyInjective` | cmd/uploader/main.go:426-431 | log keys of different rows differ |
| `Uploader.StateKeyDefault` | cmd/uploader/main.go:426-431 | an entry without entity type counts as an information row |
| `Uploader.StateStore.Load` | cmd/uploader/main.go:359-389 | the loaded set is the set the file decodes to; fails exactly on a line that does not decode or has an empty primary key |
| `Uploader.StateStore.Contains` | cmd/uploader/main.go:390-395 | answers whether the file confirms the row |
| `Uploader.StateStore.Append` | cmd/uploader/main.go:396-424 | however many writes succeed, set and file agree and no key is written twice |
| `Uploader.StateStore.SyncOnce` | cmd/uploader/main.go:194-239 | posts exactly the rows the log does not confirm, logs a prefix of what C confirmed, and all of it when the disk accepts the writes |
| `Uploader.AppendReplay` | cmd/uploader/main.go:396-424 | the log then decodes to the old keys and the new ones |
| `Uploader.AppendKeeps` | cmd/uploader/main.go:396-424 | the log only grows, by given entries, without repeats |
| `Uploader.PrefixReplay` | cmd/uploader/main.go:359-389 | a crash that keeps a prefix forgets confirmations and invents none |
| `Uploader.UnconfirmedMember` | cmd/uploader/main.go:201-206 | a row is posted if and only if it was read and is not in the log |
| `Uploader.UnconfirmedPicks` | cmd/uploader/main.go:201-206 | the rows posted come in the order read |
| `Replicator.Replica.StoreRecord` | cmd/replicator/main.go:215-241 | all three writes or none, wherever the transaction breaks off |
| `Replicator.Replica.FetchAndStore` | cmd/replicator/main.go:183-213 | stores exactly the records before the first unusable or failing one |
| `Replicator.Replica.DeletePending` | cmd/replicator/main.go:261-281 | of different jobs, each answered one becomes done, each failed one gets one failure more and a pause of 1, 2, 4, ... 128 s from its own time, up to the first mark that cannot be written; other entries and tables stay |
| `Replicator.MarkIs` | cmd/replicator/main.go:300-313 | what one mark does to each entry |
| `Replicator.DueAfterFailure` | cmd/replicator/main.go:282-299 | after a failure the entry is due from the end of its pause on and not before |
| `Replicator.NeverDueAfterDone` | cmd/replicator/main.go:282-299 | an answered job is not loaded again unless its key is queued anew |
| `Replicator.DueAnswerIs` | cmd/replicator/main.go:282-299 | the worker loads pending and failed entries whose time has come, oldest jobs first, as many as the limit allows |
| `Replicator.QueuedIs` | cmd/replicator/main.go:234-239 | a stored record's entry is pending, due at once, without failures, for its C id; an entry that was there keeps its job id |
| `Replicator.ReplicaOfIs` | cmd/replicator/main.go:215-232 | B keeps all C answered; a record without entity is an information record |
| `Replicator.RowRecordIs` | cmd/receiver/main.go:447-474 | an answer carries the row's id and all it holds, the document re-decoded |
| `Replicator.StorableIs` | cmd/replicator/main.go:196-203 | B stores a record with a positive id, a key that is not blank and a document |
| `Replicator.FirstFailureIs` | cmd/replicator/main.go:196-206 | every record before the stop can be stored and commits; the one at the stop does not |
| `Replicator.BoundedLimitIs` | cmd/receiver/main.go:1325-1340 | the limit is the one asked for, brought into the range from 1 to C's own |
| `Replicator.StoreKeepsAgreement` | cmd/replicator/main.go:528-563 | a stored record keeps the four tables in agreement |
| `Replicator.StoreAllKeepsAgreement` | cmd/replicator/main.go:183-241 | so does any sequence of stored records |
| `Replicator.MarkAllKeepsAgreement` | cmd/replicator/main.go:300-313 | and any sequence of marked jobs |
| `Replicator.AgreeDisjoint` | cmd/replicator/main.go:528-563 | agreement makes replicated keys the disjoint union of info and photo keys |
| `Replicator.StoreChangesOneKey` | cmd/replicator/main.go:225-240 | a stored record replaces the row and job of its own key only |
| `Replicator.StoreKeepsJobIds` | cmd/replicator/main.go:234-239 | storing keeps job ids distinct and never renames a queued job |
| `Replicator.CatchesUpWithinWindow` | cmd/replicator/main.go:183-213 | an answer that holds all of C's rows, with keys that stay apart, is stored whole and leaves every live key with its current id and its content as C answers it |
| `Replicator.RetryDelayDoubles` | cmd/replicator/main.go:390-395 | pauses start at 1 s and double up to 128 s |
| `Retry.RetryTransient` | src/sync/retry.rs:25-45 | sleeps and elapsed readings are a history of the policy; the last answer is returned, a transient one only when the budget is spent |
| `Retry.SleepsFollowPolicy` | src/sync/retry.rs:25-45 | sleep n is the first pause doubled n times, capped, and cut to the remaining budget |
| `Retry.SettingsAre` | src/sync/retry.rs:26-27 | the first pause is the configured one, at least 1 ms; the cap the configured one, at least the first pause |
| `Retry.ReadingsAddUp` | src/sync/retry.rs:25-45 | elapsed time counts attempts, sleeps and what they overran |
| `Retry.DoublingIsExact` | src/sync/retry.rs:42 | the checked doubling with its overflow fallback equals unbounded arithmetic |
| `Retry.BudgetBounds` | src/sync/retry.rs:35-42 | all sleeps together fit the budget, and the operation runs at most ceil(budget / first pause) + 1 times |
| `LocalCache.OldestFirst` | src/db/mod.rs:64-74 | the batch is the earliest unsynced rows in time order |
| `LocalCache.BatchIs` | src/db/mod.rs:64-74 | the batch is of pending and failed rows, as many as the limit allows |
| `LocalCache.AnswerMarks` | src/sync/engine.rs:116-133 | what an answer does to each row: rejected fails, accepted syncs, all of the batch if nobody is named, others stay |
| `LocalCache.RefusedFailsBatch` | src/sync/engine.rs:105-112 | an upload given up fails every row of its batch with its error |
| `LocalCache.FaultsLeave` | src/sync/engine.rs:122-133 | what a failing first or second update leaves |
| `LocalCache.Cache.MarkSynced` | src/db/mod.rs:80-96 | just the named rows become synced, lose their error and keep their retry count; every other row is unchanged |
| `LocalCache.Cache.MarkFailed` | src/db/mod.rs:101-118 | just the named rows become failed with the error and one retry more; every other row is unchanged |
| `LocalCache.Cache.SyncOnce` | src/sync/engine.rs:77-144 | one cycle with any reply and any failing update changes each row as read off the reply |
| `LocalCache.SyncedKeptIff` | src/sync/engine.rs:116-133 | a cycle keeps all synced rows synced if and only if it fails none of them |
| `LocalCache.StrayFailureUnsyncs` | src/sync/engine.rs:126-133 | a reply to a fetched batch that fails a row outside it takes a synced row back |
| `LocalCache.SyncsOnlyBatchIff` | src/sync/engine.rs:116-124 | a cycle syncs rows of its batch only, if and only if the reply accepts no other unsynced row without failing it |
| `LocalCache.StrayAcceptanceSyncs` | src/sync/engine.rs:116-124 | a reply to a fetched batch that accepts a row outside it syncs a row never sent |
| `LocalCache.SyncedIsAbsorbing` | src/sync/engine.rs:77-144 | with replies about the batch, a synced row never changes again in any run of cycles and inserts |
| `LocalCache.SyncedWasUploaded` | src/sync/engine.rs:77-144 | a row that is synced, and was not there or inserted as such, was in an answered batch |
| `LocalCache.OutsideBatchUnchanged` | src/sync/engine.rs:116-133 | rows outside the batch never change |
| `LocalCache.RetryCountExact` | src/db/mod.rs:101-118 | from any moment on, `retry_count` grows by the number of cycles that marked the row failed, in every run of cycles and inserts |
| `LocalCache.CacheDrains` | src/sync/engine.rs:77-144 | with whole batches accepted the cache is empty after exactly ceil(n / batch) cycles and not before |
| `SqlServerSource.Source.MarkUploaded` | src/source/sqlserver.rs:156-186 | the chunked write-back is one set update; a failure has marked whole chunks of a prefix |
| `SqlServerSource.Source.SyncOnce` | src/sync/sqlserver_engine.rs:66-144 | with any reply, write-back on or off or failing part-way, the table changes as the cycle is specified: accepted serials are marked as far as the write-back reaches |
| `SqlServerSource.BatchIs` | src/source/sqlserver.rs:127-150 | the batch is of rows neither marked nor deleted, oldest first, as many as the limit allows |
| `SqlServerSource.WrittenIs` | src/sync/sqlserver_engine.rs:107-126 | which serials a cycle marks: those accepted, all if nobody is named, none if it only rejects |
| `SqlServerSource.SourceDrains` | src/sync/sqlserver_engine.rs:66-144 | in every run of such cycles with write-back on and whole batches accepted, the backlog is gone after exactly ceil(n / batch) cycles and not before |
| `SqlServerSource.NothingDrains` | src/source/sqlserver.rs:156-159 | with write-back off no run changes the table |
| `SqlServerSource.MarksOnlyBatchIff` | src/sync/sqlserver_engine.rs:114-126 | a cycle marks rows of its batch only, if and only if it writes back no other row not marked already |
| `SqlServerSource.StrayAcceptanceMarks` | src/sync/sqlserver_engine.rs:114-126 | a reply that accepts a serial outside the batch marks a row never sent |
| `SqlServerSource.MarkedWasUploaded` | src/sync/sqlserver_engine.rs:66-144 | when replies accept only what was sent, a row that became marked was in an answered batch |
| `Numeric.FormatNumericExact` | src/source/sqlserver.rs:330-345 | for fewer than 38 fraction digits and 38 digits in all: exactly `scale` fraction digits, the right sign, and the digits read back give the raw value |
| `Text.IntTextIs` | src/source/sqlserver.rs:333-335 | an integer is printed with a minus sign if negative and without leading zeros |
| `Numeric.PowersFit` | src/source/sqlserver.rs:339 | 10^38 fits 128 bits, so no intermediate value overflows |

## Left out

- HTTP servers and clients, TLS, time-outs, body limits, connection pools and SQL drivers: only a reply, or its absence, appears.
- HMAC, SHA-256 and random nonces: whether a signature is right is a Boolean of the request.
- JSON text: records are maps of members, and C's re-decoding is an arbitrary function of them.
- Uploader.KeysAgree: primary keys are texts, integers or Booleans, as the default `serialNo` and `id` columns are; floating-point key columns are not part of this model.
- Query filters, `offset`, and the textual limit: the unfiltered newest-first query that B sends is modelled.
- MySQL as C's own database: C's text is compared as SQLite's BINARY collation does. B's collation is modelled as one that compares the raw keys of an entity.
- Crashes of A in `Pipeline` keep whole entries of the log; a log with a torn line is one A refuses to start with.
- The receive-batch table's payload copy; its counts are modelled.
- General liveness: A re-reads the same first rows and B asks for the newest rows without a cursor, so neither is claimed to progress past its window.
- That a `done` job's row is gone from C is not claimed: the replicator ignores the reply's `deleted` flag.
- Inserts into the local cache happen between cycles; one that comes during a cycle adds a row outside the batch.
- Rows carry the raw document as a whole; the per-column lists of B's typed tables and `select_columns` would add only easy members.
- Nonces.SeparatedByExpiry: the clock is assumed not to go back between calls.
- Timestamps.ChronoOrder: leap seconds, which chrono prints as second 60, are not part of this model.
- `Pipeline` lets C's delete run only when the current time is at least the minimum age after year 0, so that the cutoff has a text.
- Reach.CatchesUp: B's database is taken to accept every statement; a value too long for its column (a key of more than 191 characters) would break off the transaction.
- Configuration, migrations, `src/server.rs`, the WebSocket client, `src/sync/error.rs`, `src/db/models.rs`, gzip, `fetchAndPrint`, Windows service, scripts and logging: no deep property.
