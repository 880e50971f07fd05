# claude-meter: a verified model of the usage ledger and the launcher

claude-meter collects the OpenTelemetry log records that Claude Code exports, stores one row
per API request in SQLite, and reports usage by person, account and time window. On each
machine a wrapper starts the real Claude binary with the exporter switched on, and repairs
itself when an update replaces it. This project models both halves in Dafny and proves what
they promise; `dafny verify dfyconfig.toml` checks everything.

**The ledger.** `Otlp` decodes requests into events, `Wire` says which sent value fills which
field, total and column, `Timestamps` prints instants as Go's RFC3339Nano does, `Reading` reads
them back, `EventKey` studies the deduplication key, `Ledger` is the table on values,
`Storage` holds the class with the mutex, the transaction and the reports, `Query` the
clause builder, `Reports` the grouping laws, `Protocol` the interleaved steps of concurrent
calls, `Delivery` at-least-once posting, `Retention` pruning over whole runs, and `Cost` the
rounding of dollars.

**The launcher.** `Identity` writes resource attributes, `CommandLine` reads the launch options,
`Environment` updates the environment, `Versions` compares version names, `Resolver` picks a
binary, `Shim` is the machine that updaters change and the repair script heals, `Launching`
says which binary a launch executes, `Reentry` when some run leads to a launch that starts itself
again, `Hosts` holds the scripts as methods, and `Installing` says when an installation is safe.

`Seqs`, `Texts`, `Decimal`, `Sorting`, `Paths` and `Wrappers` supply sequences, byte strings,
int64 decimals, sorting, file paths and options.

## What the proofs found

- Byte order of printed times agrees with time order except inside one second, where it is
  reversed exactly when one trimmed fraction is a proper prefix of the other; a whole second
  sorts after every other instant of that second (`Timestamps.TextOrder`).
- The deduplication key determines its event exactly when neither request id contains `|` and
  no later part of the session id reads as a canonical integer (`EventKey.KeyDeterminesExactly`).
- A metered record that states no time gets a new key with every delivery and is counted once
  per delivery (`Delivery.UntimedRecordRecounted`).
- `cost_usd` sent as a JSON integer costs nothing, while the same number as text costs its
  value: the two events are equal exactly when the micros are stated or the cost is zero
  (`Otlp.EncodingMattersExactly`).
- A cost is rounded to the nearest micro exactly when it is at least minus half a micro or lies
  half a micro below a whole number of them (`Cost.CostRoundedExactly`).
- The retention arithmetic is exact up to 106751 days; from 106752 to 213503 days the product
  wraps around to a cutoff at least 23 hours ahead, and the next prune deletes every row whose
  time is not in the future (`Storage.OverlongRetentionDeletesPast`).
- A reader steps its rows after the mutex is released, on the writer's connection. It sees the
  committed table exactly when no insert has uncommitted rows, and otherwise rows that may
  never be committed (`Protocol.ReaderSeesCommittedExactly`, `Protocol.ReaderSeesUncommittedRow`).
- A blank stored person id filters nothing, and the group of the empty id shares its display
  name with the group of the id "unknown" (`Reports.GroupIsFilteredSelection`,
  `Reports.DisplayNamesDistinct`).
- A malformed decimal reads as 0, but saturates when the digits before its first other byte
  exceed 64 bits, because the parser leaves at the overflow (`Decimal.ParseIntStops`).
- The version comparator orders a directory exactly when no name that does not parse lies, as
  text, between two versions that compare the other way as numbers (`Versions.OrderExactly`).
- After a first installation no run of updates, deletions, repairs and configurations reaches a
  launch that starts itself again, exactly when /usr/local/bin/claude is no link (or one to a
  recovered copy that the installation replaces), the command is not itself the binary to wrap,
  and the wrapper's text is nowhere else, the installed meter included
  (`Installing.FreshInstallSafeExactly`; `Reentry.AlwaysSafeExactly` for any machine whose library
  holds no links). The runs make no library file and no recorded binary a link, and put the wrapper's text nowhere else.
  Otherwise: a command that is the binary is replaced by a link to the wrapper and lost
  (`Installing.InstallLosesBinary`); a linked wrapper path is written through into the binary
  (`Installing.BinarySurvivesExactly`, `Installing.InstallWritesThroughLink`); a wrapper left
  behind without its records is saved as claude-real and executes its own copy
  (`Installing.LeftoverWrapperReenters`).
- A first installation can record the meter as the binary, which is harmless for launches: it does
  so exactly when the meter is requested and the command leads to no other binary
  (`Installing.FreshInstallRecordsExactly`).
- When the wrapper's path is a link, no repair heals the command, and the second repair records
  the file behind the wrapper as the real binary (`Shim.CompletedRepairHeals`,
  `Shim.RepairIdempotentExactly`, `Shim.LinkedWrapperRecorded`).

## Model

| member | source | states |
|---|---|---|
| Timestamps.TextOrder | internal/store/store.go:116 | for years 0000-9999, printed byte order is time order, and is reversed exactly when both instants share a second and one trimmed fraction is a proper prefix of the other (section 5.1 of RFC 3339 promises less) |
| Timestamps.FormatInjective | internal/store/store.go:116 | different instants of years 0000-9999 print differently |
| Timestamps.TextBound | internal/store/types.go:62-65 | the text test "not below the bound" is the test on instants, turned around on reversed pairs |
| Timestamps.MisplacedOnlyWithinSecond | internal/store/query.go:100-103 | a text bound misplaces only instants in the bound's own second |
| Timestamps.WholeSecondPrintsLast | internal/store/store.go:116 | a whole second prints above every other instant of its second |
| Timestamps.FractionTrimmed | internal/store/store.go:116 | a printed fraction is missing exactly for whole seconds and never ends in a zero |
| Timestamps.UnixNanosInRange | internal/otel/otlp.go:253-261 | every int64 nanosecond time that is not negative is printable and falls in the calendar years 1970 to 2262 |
| Reading.FormatReadsBack | internal/store/store.go:116 | a reader by character positions, with a closed form of the Gregorian calendar, reads every printed instant of years 0000-9999 back, so the text names the right date, time and fraction |
| Reading.DateReadsBack | internal/store/store.go:116 | the printed date of every day has that day's number in the closed form |
| Reading.EpochIs1970 | internal/otel/otlp.go:259 | nanosecond times count from 1970-01-01 in that calendar |
| Decimal.ParseIntSaturates | internal/otel/otlp.go:226-227 | a signed digit string of any length parses to its exact value clamped to int64, with success exactly in range |
| Decimal.ParseFormat | internal/otel/otlp.go:208-209 | parsing inverts decimal printing on all of int64 |
| Decimal.ParseIntStops | internal/otel/otlp.go:226-227 | a string with a byte that is no digit parses to 0 without success, or saturates exactly when the digits before that byte exceed 64 bits |
| Otlp.AttrsToMap | internal/otel/otlp.go:149-155 | the loop builds the map that assigning the pairs in order leaves |
| Otlp.Overlay | internal/otel/otlp.go:101-104 | cloning and assigning in any order leaves the record's attributes over the resource's |
| Otlp.AttributesHoldLast | internal/otel/otlp.go:149-155 | a key is bound exactly when it occurs, and to the value of its last occurrence |
| Otlp.MergeFindsLast | internal/otel/otlp.go:98-104 | a merged attribute is the last occurrence in resource-then-record order |
| Otlp.DecodeRecord | internal/otel/otlp.go:101-142 | a record contributes its keyed event when its name is metered, nothing otherwise |
| Otlp.DecodeGroup | internal/otel/otlp.go:98-144 | the two inner loops emit the events of all records of all scopes in order |
| Otlp.Decode | internal/otel/otlp.go:91-147 | decoding emits the events of all metered records in delivery order |
| Wire.DecodedHolds | internal/otel/otlp.go:91-147 | the events of any request are those of its records named api_request or api_error, in delivery order, and every field holds the last value sent under its attribute, resource first; the time is the stated timestamp, else the record's nanosecond time, else the observed one, else that of receipt |
| Wire.IntegerHolds | internal/otel/otlp.go:157-231 | a last value that encodes n in any of the three ways reads as n and as its decimal text |
| Wire.SentValue | internal/otel/otlp.go:157-245 | text, number and dollars of a value are read off its wire fields in the source's order of precedence |
| Wire.PostedTotals | internal/store/query.go:8-20 | a payload with new keys adds to the totals of every window and person one request per matching record and exactly the numbers the records state, column by column |
| Otlp.DecodeConcatenates | internal/otel/otlp.go:97-145 | decoding concatenated resource groups concatenates the events |
| Otlp.SplittingScopes | internal/otel/otlp.go:99-100 | splitting a scope over two scopes or two posts changes no event |
| Otlp.ReceiveTimeIrrelevant | internal/otel/otlp.go:247-263 | the events, keys included, are independent of the receive time exactly when every metered record states a parseable timestamp or a positive nanosecond time |
| Otlp.IntEncodingsAgree | internal/otel/otlp.go:157-173 | an int64 sent as JSON integer, decimal intValue or canonical stringValue reads as the same text and number |
| Otlp.DecimalStringsSaturate | internal/otel/otlp.go:219-231 | out-of-range decimal strings read as the nearest int64 |
| Otlp.SameReadingsSameEvent | internal/otel/otlp.go:105-141 | attributes that read the same give the same event and key, cost aside |
| Otlp.SameReadingsSameCost | internal/otel/otlp.go:233-245 | records that read the same cost the same exactly when the micros are stated or the two cost_usd values count for the same |
| Otlp.ReencodedAttributesReadSame | internal/otel/otlp.go:149-231 | re-encoding integers attribute by attribute changes no reading under any key |
| Otlp.IntegerCostIsDropped | internal/otel/otlp.go:237-244 | an integer cost_usd counts for nothing and its text for its value; the costs agree exactly when the micros are stated or the integer is zero |
| Otlp.EventsDifferInCost | internal/otel/otlp.go:112-141 | records that read the same give the same event, key included, exactly when they cost the same |
| Otlp.EncodingMattersExactly | internal/otel/otlp.go:112-141 | two records that differ in the encoding of an int64 cost_usd give the same event exactly when the micros are stated or the integer is zero |
| EventKey.PreimageParts | internal/otel/otlp.go:278-286 | cutting the hashed text at its bars yields name, session parts, sequence, request parts, client request parts and time |
| EventKey.EqualKeysEqualTimeText | internal/otel/otlp.go:278-289 | equal keys carry equal printed times, whatever the ids contain |
| EventKey.KeyInjective | internal/otel/otlp.go:278-289 | without bars in session and request ids, equal keys are exactly equal key fields |
| EventKey.AmbiguousCollides | internal/otel/otlp.go:278-286 | every ambiguous event shares its key with an event of other fields |
| EventKey.KeyDeterminesExactly | internal/otel/otlp.go:278-289 | the key determines the event's key fields exactly when the event is unambiguous |
| EventKey.DecodedAreKeyed | internal/otel/otlp.go:112-142 | every decoded event is metered, has an int64 sequence and carries the key of its own fields |
| Ledger.InsertAllKeys | internal/store/store.go:111-132 | a batch adds exactly its keys |
| Ledger.InsertAllUnique | internal/store/store.go:45 | inserting keeps the event keys unique |
| Ledger.InsertAllExtends | internal/store/store.go:111-132 | inserting only appends offered rows |
| Ledger.InsertIdempotent | internal/store/store.go:99-132 | delivering a stored batch again changes nothing |
| Ledger.InsertConcatenation | internal/store/store.go:111-132 | inserting a concatenation is inserting its parts in turn |
| Ledger.BatchingDoesNotMatter | internal/store/store.go:109-132 | splitting a batch over two posts leaves the same rows up to their insertion times |
| Ledger.PruneTwice | internal/store/query.go:103 | pruning twice is pruning at the later cutoff |
| Ledger.RetentionConfluent | internal/store/query.go:96-116 | pruning after a batch gives the same rows whether or not an earlier cutoff was pruned before it, when equal keys fix the printed time |
| Ledger.NoOldRowSurvives | internal/store/query.go:103 | no row below the cutoff survives a prune, redelivered or not |
| Ledger.RetentionConfluentForDecoded | internal/store/query.go:96-116 | for decoded events the confluence needs no condition |
| Retention.ReplayForgetsPrunes | internal/store/query.go:96-116 | in every serial run a last prune leaves what it leaves when the earlier prunes are taken out |
| Retention.EarlierPrunesDoNotMatter | internal/store/query.go:96-116 | for every schedule of inserts and prunes, a last prune not below the earlier ones leaves exactly the rows, in order, that the successful inserts alone and that prune leave |
| Retention.OldRowsStayAway | internal/server/server.go:200-221 | after such a run a row is left exactly when the inserts alone would hold it and it is not below the last cutoff |
| Retention.ExactlyOnceRetained | internal/server/server.go:84-221 | posts and prunes interleaved and failing in any way: once every batch is acknowledged, a last prune not below the earlier ones leaves the totals it leaves of the rows that were there and one row per new key |
| Query.WhereClause | internal/store/types.go:56-74 | in all eight combinations the clause has as many holes as arguments and, its arguments consumed in order, selects exactly the wanted rows |
| Query.Conjoined | internal/store/types.go:62-69 | appending a condition with its arguments conjoins it |
| Query.SinceAgainstTime | internal/store/types.go:62-65 | the since filter misplaces exactly the reversed pairs, all within the bound's second |
| Storage.CutoffIsExact | internal/store/query.go:100 | the wrapped int64 offset is the exact retention if and only if it is at most 106751 days |
| Storage.OverlongRetentionDeletesPast | internal/store/query.go:100 | from 106752 to 213503 days the cutoff lies at least 23 hours ahead: every row of the past goes, and a row that states a later time stays exactly when it is not before that cutoff, reversed pairs aside |
| Storage.PruneAgainstTime | internal/store/query.go:100-103 | pruning misplaces exactly the reversed pairs, all within the cutoff's second |
| Storage.EngineContractHolds | internal/store/query.go:24-75 | the ordering contract asked of the SQL engine can be met |
| Storage.TotalsFromColumns | internal/store/query.go:10-19 | the seven result columns land in the fields they are meant for |
| Storage.LinesFromColumns | internal/store/query.go:24-61 | the columns of both grouped queries land in the fields they are meant for |
| Storage.WhereIsSelected | internal/store/query.go:73-75 | the clause selects the wanted rows also when the limit is bound after its arguments |
| Storage.CursorShape | internal/store/query.go:74-75 | the limit lands on its own placeholder: the cursor is the head of the rows in descending text order |
| Storage.Store.constructor | internal/store/store.go:41-79 | a new store is empty, unlocked and outside a transaction |
| Storage.Store.Transact | internal/store/store.go:95-136 | the transaction commits all rows or leaves the table, with the failing row's count |
| Storage.Store.Insert | internal/store/store.go:81-138 | a batch is stored whole or not at all, for every failure point, with the exact count returned in each case |
| Storage.Store.Prune | internal/store/query.go:96-116 | rows below the printed cutoff go and the others stay in order; nothing changes when disabled or failing |
| Storage.Store.Totals | internal/store/query.go:8-20 | the totals of exactly the wanted rows, or an error |
| Reports.TotalsCountRows | internal/store/query.go:8-20 | one row more changes the totals by its own token counts and cost, by one request, and by one session exactly when that is not empty and new |
| Reports.WantedRowCounts | internal/store/query.go:8-20 | in a report a row counts so when it is asked for, and not at all otherwise |
| Reports.NoRowsNoUsage | internal/store/query.go:10 | no rows give zeros |
| Storage.Store.ByPerson | internal/store/query.go:22-42 | one line per stored person id with the totals of its group, and no partial report on an error |
| Storage.PersonLinesMean | internal/store/query.go:22-42 | one line for each person id that occurs, under it or as "unknown", with the totals of the rows that carry it, dearest first |
| Storage.Store.ByAccount | internal/store/query.go:44-64 | one line per account with greatest e-mail and totals of its group, and no partial report on an error |
| Storage.AccountLinesMean | internal/store/query.go:44-64 | one line for each account id that occurs, with the totals and the greatest e-mail of the rows that carry it, dearest first |
| Storage.Store.History | internal/store/query.go:66-94 | the first min(clamped limit, matches) matching rows in descending text order with their parsed times, none left out being greater; no partial history on an error |
| Storage.HistoryAgainstTime | internal/store/query.go:75-91 | the history shows the times of the events, and no row left out or behind lies in a later second than one before it |
| Storage.ReadsBackHolds | internal/store/query.go:90 | some parser of times does read back what is printed |
| Wire.HistoryShowsSent | internal/store/query.go:75-91 | a history row shows the sent time, name, person (the empty one as "unknown"), device, session and account |
| Wire.HistoryShowsUsage | internal/store/query.go:91 | and the sent token counts, cost, duration and status |
| Wire.HistoryShowsModel | internal/store/query.go:91 | and the sent model, query source, effort and error |
| Storage.Store.StepAll | internal/store/query.go:30-41 | the stepping loop reads every row in order or gives up as a whole |
| Storage.ByPersonAddsUp | internal/store/query.go:22-42 | the lines of ByPerson add up to Totals without a person in every field; sessions as far as they do not span groups |
| Storage.ByAccountAddsUp | internal/store/query.go:44-64 | the lines of ByAccount add up to Totals with the same person and window |
| Reports.GroupingConserves | internal/store/query.go:8-64 | requests, tokens and cost summed over all groups are the totals, for any table |
| Reports.GroupingSessions | internal/store/query.go:8-64 | sessions are at most the sum over the groups, with equality exactly when no non-empty session spans two groups |
| Reports.GroupIsFilteredSelection | internal/store/query.go:24 | a person's group is the filtered selection exactly when the id is not blank or nobody else has rows |
| Reports.ReportConserves | internal/store/query.go:22-64 | a whole report adds up to the totals of its rows |
| Reports.MaxEmailIsGreatest | internal/store/query.go:46 | the e-mail of an account line occurs in the group and none is greater in byte order |
| Reports.DisplayNamesDistinct | internal/store/query.go:24 | lines show distinct names exactly unless both the empty id and "unknown" have rows |
| Reports.TotalsDependOnContentsOnly | internal/store/query.go:8-20 | totals ignore the order and the insertion times of the rows |
| Protocol.StepInsertEffect | internal/store/store.go:81-138 | every step of an insert keeps the invariant and changes the committed table only at its COMMIT, by its whole effect |
| Protocol.StepPruneEffect | internal/store/query.go:96-116 | the same for every step of a prune |
| Protocol.Serializable | internal/store/store.go:81-138 | for every interleaving of any number of inserts and prunes with failures anywhere, the committed table and the returned counts are those of a serial run of exactly the successful calls, and keys stay unique |
| Protocol.FailedCallWritesNothing | internal/store/store.go:94-98 | a call that fails, with whatever count, changes the committed table in none of its turns |
| Protocol.ReaderSeesCommittedExactly | internal/store/query.go:138-143 | in every reachable state a reader sees the committed table first, and nothing else exactly when no insert has uncommitted rows |
| Protocol.ReaderSeesUncommittedRow | internal/store/query.go:138-143 | states with uncommitted rows occur, and a reader can see a row that is never committed |
| Delivery.IngestLogs | internal/server/server.go:73-100 | a post is acknowledged exactly when it is authorized, readable, decodable and stored, and only then changes the table; 401, 400 and 500 tell the three kinds of failure apart |
| Delivery.AcknowledgedStoredSent | internal/server/server.go:84-98 | in every run from any store, acknowledged keys are stored and stored keys were there or were sent |
| Delivery.SplitPostsStoreAlike | internal/server/server.go:84-98 | a scope split over two posts leaves the rows of one post up to their insertion times, and the two counts add up, when both are received at one time or the second states its times |
| Delivery.ExactlyOnce | internal/server/server.go:84-98 | from any store, once every batch is acknowledged, every total is the total over the rows that were there and one row per new key, however often and in whatever order batches were posted and failed |
| Delivery.ReceiptDoesNotMatter | internal/server/server.go:84 | payloads that state their own times are offered to the store alike whenever they arrive |
| Delivery.PayloadsExactlyOnce | internal/server/server.go:73-100 | the whole pipeline from payloads to totals is exactly once for payloads that state their own times |
| Delivery.UntimedRecordRecounted | internal/otel/otlp.go:262 | a metered record without a time is stored once per receive time, in any table that does not hold those keys yet |
| Cost.RoundedToNearest | internal/otel/otlp.go:237-242 | a cost that is not negative, or meets the exact condition, is rounded by at most half a micro, and is exact exactly when whole |
| Cost.CostRoundedExactly | internal/otel/otlp.go:237-242 | a cost within int64 is rounded by at most half a micro exactly when it is at least minus half a micro or half a micro below a whole number, and is exact exactly for whole numbers that are not negative |
| Cost.NegativeCostMisses | internal/otel/otlp.go:239 | a witness below zero: 1.4 micros of credit count as none, more than half a micro off |
| Cost.SumRounded | internal/otel/otlp.go:233-245 | n rounded costs miss the true sum by at most n/2 micros |
| Cost.AccumulatedCost | internal/store/query.go:8-20 | n requests with new and distinct keys add to what any store holds their true cost within n/2 micros, and exactly for whole micros |
| Cost.DeliveredCost | internal/server/server.go:84-98 | the same for requests delivered at least once in any batches, whatever was repeated or failed in between |
| Identity.OtelEscape | internal/identity/tailscale.go:193-207 | the byte loop writes the escape of every byte in order |
| Identity.DecodeEscape | internal/identity/tailscale.go:193-207 | decoding the escaped text (section 2.1 of RFC 3986) is decoding the value, for every byte string |
| Identity.EscapeReadsBack | internal/identity/tailscale.go:193-207 | the value is read back exactly when it has no `%` followed by two hex digits |
| Identity.EscapeIsPlain | internal/identity/tailscale.go:198 | the output has no comma, equals sign, semicolon, quote, backslash, space, control or non-ASCII byte |
| Identity.PlainStays | internal/identity/tailscale.go:198 | a value of printable bytes that separate and quote nothing is written as it is |
| Identity.ResourceAttributes | internal/identity/tailscale.go:164-191 | the loop keeps the trimmed, non-empty, foreign entries and appends the meter's own |
| Identity.IdentityIsFound | internal/identity/tailscale.go:164-191 | a reader of the output finds the decoded person under meter.person and the device under meter.device, once each, the node id and the source address exactly when not empty, and a field unchanged exactly when it holds no escape |
| Identity.ForeignEntriesExactly | internal/identity/tailscale.go:165-178 | the other entries are the trimmed, non-empty ones of the input under keys that do not start with "meter.", in order |
| Identity.OutputEntries | internal/identity/tailscale.go:164-191 | splitting the output at commas yields the kept foreign entries in order and then the own entries |
| Identity.NestedLaunch | internal/identity/tailscale.go:164-191 | an inner launch leaves no trace of the outer identity, for all identities and all strings |
| Identity.OwnEntriesExactly | internal/identity/tailscale.go:175-189 | the entries under "meter." are exactly one person, one device and at most one node id and source address |
| Identity.EntryReadsBack | internal/identity/tailscale.go:180-189 | an own entry reads back its name, and its value unless that contains an escape |
| CommandLine.ParseLaunchArgs | cmd/claude-meter/main.go:127-163 | the loop returns the last value of each option read and what the options leave |
| CommandLine.NothingIsLost | cmd/claude-meter/main.go:130-162 | every input is the options read followed by what is left, so the arguments passed on are a suffix |
| CommandLine.ReadingStops | cmd/claude-meter/main.go:131-160 | reading stops only where no complete option starts |
| CommandLine.OptionsReadBack | cmd/claude-meter/main.go:131-160 | every list of options in any accepted spelling is read back exactly |
| CommandLine.Passthrough | cmd/claude-meter/main.go:127-163 | options, `--`, anything: the last values count and Claude gets exactly what follows |
| CommandLine.FirstArgumentEnds | cmd/claude-meter/main.go:157-159 | the first argument that is no option is passed on with everything after it |
| CommandLine.LoneOptionPassed | cmd/claude-meter/main.go:134-137 | an option without a value is passed on, and nothing when nothing is left |
| CommandLine.DefaultsStand | cmd/claude-meter/main.go:128-129 | without options the configuration is /etc/claude-meter/launcher.json and there is no fallback |
| CommandLine.WrapperCommandLine | scripts/install-launcher.sh:56 | the wrapper's own command line is read back as meant for every binary name and every user argument |
| Environment.SetEnv | cmd/claude-meter/main.go:190-213 | both loops leave the replaced entries followed by those for keys not mentioned, in iteration order |
| Environment.EachUpdatedOnce | cmd/claude-meter/main.go:190-213 | every updated key has exactly one entry, the new one, if and only if no update key contains `=` |
| Environment.ForeignUnchanged | cmd/claude-meter/main.go:193-206 | the subsequence of all other entries is unchanged exactly when every entry written is one of an updated key, so whenever no key contains `=` |
| Environment.UpdatesAreFound | cmd/claude-meter/main.go:190-213 | after an update every updated key is found with its new value and every other key as before, as long as no update key contains `=` |
| Environment.LaunchIsFound | cmd/claude-meter/main.go:103-115 | Claude finds every setting of the launcher, and its person and device in the resource attributes |
| Environment.ExporterSettings | cmd/claude-meter/main.go:103-115 | the endpoint, the token and the privacy switch under the names the exporter reads |
| Environment.UpdatesCompose | cmd/claude-meter/main.go:190-213 | two updates in a row are one update in which the later value wins per key |
| Environment.UpdateIdempotent | cmd/claude-meter/main.go:190-213 | updating again changes nothing, whatever the iteration order |
| Environment.OrderMattersOnlyAtTheEnd | cmd/claude-meter/main.go:207-211 | iteration orders differ only in the order of the appended entries |
| Environment.NestedEnvironment | cmd/claude-meter/main.go:103-115 | nested launches hand over exactly the environment of the inner launch alone |
| Versions.VersionParts | internal/claude/resolve.go:108-122 | the loop returns the numbers of a dotted name, or nothing when a field does not parse |
| Versions.CompareNames | internal/claude/resolve.go:83-100 | the comparator decides by zero-padded numbers when both names parse, otherwise and on ties by name |
| Versions.NumbersDecide | internal/claude/resolve.go:83-100 | of two names that parse the greater number at the first difference is newer; otherwise the greater name is |
| Versions.NewerTotal | internal/claude/resolve.go:83-100 | of two distinct names exactly one is newer |
| Versions.NewerTransitive | internal/claude/resolve.go:83-100 | on names that parse the comparator is transitive |
| Versions.OrderExactly | internal/claude/resolve.go:83-100 | the comparator orders a set of names exactly when no unparseable name is straddled |
| Versions.TiesBrokenByName | internal/claude/resolve.go:99 | 2.1 and 2.1.0 tie as numbers and the name decides |
| Versions.UnparseableNameCycles | internal/claude/resolve.go:83-100 | 9.0, 5x and 10.0 form a cycle |
| Resolver.IsValid | internal/claude/resolve.go:124-143 | a path is valid when it is not blank, resolves, is not blocked by target or cleaned path, and is executable |
| Resolver.VersionCandidates | internal/claude/resolve.go:65-106 | the valid entries of the directory in the sorter's order, as paths |
| Resolver.SorterExists | internal/claude/resolve.go:83-100 | the contract asked of the sorting algorithm can be met |
| Resolver.AddCandidate | internal/claude/resolve.go:44-51 | a trimmed path is appended once, blanks never |
| Resolver.Resolve | internal/claude/resolve.go:17-42 | Resolve picks the first offered path that is valid once trimmed and returns its target, or its cleaned spelling when following it a second time fails |
| Resolver.NoVersionsPreferred | internal/claude/resolve.go:27-42 | when no valid version lies beside either path, the choice is the target of the first valid one of configured path, fallback, claude-real and claude-recovered |
| Resolver.FallbackVersionWins | internal/claude/resolve.go:20-26 | when none lies beside the configured path, the newest beside the fallback comes before all of these |
| Resolver.OwnPathsAre | internal/claude/resolve.go:12-15 | the four paths that the launcher knows by name |
| Paths.NameAndParent | internal/claude/resolve.go:38 | cleaning takes a name followed by ".." away |
| Paths.ParentOfNothing | internal/claude/resolve.go:38 | above the root there is only the root, and a relative path keeps a leading ".." |
| Resolver.VersionDirMeans | internal/claude/resolve.go:53-63 | versions are looked for beside a path exactly when its directory is called versions |
| Resolver.SettledInSnapshot | internal/claude/resolve.go:34-38 | when nothing changes between the two calls, the result is the target of the picked path |
| Resolver.VanishedLinkNotBlocked | internal/claude/resolve.go:38 | when the picked link vanishes in between, the cleaned spelling returned never spells the wrapper or the meter |
| Resolver.RepetitionsDoNotMatter | internal/claude/resolve.go:44-51 | dropping blanks and repetitions does not change the choice |
| Resolver.ChoiceFails | internal/claude/resolve.go:32-41 | an error is returned exactly when no offered path is valid |
| Resolver.NeverBlocked | internal/claude/resolve.go:124-143 | what is chosen is executable and neither the wrapper nor the meter, by target or by path |
| Resolver.VersionListUnique | internal/claude/resolve.go:83-100 | for names that the comparator orders, the sorted list is the same for every directory order and every sorting algorithm |
| Resolver.NewestVersionWins | internal/claude/resolve.go:17-42 | when the comparator orders the valid names beside the configured path, Resolve returns the newest of them even if that path is gone, provided trimming leaves its path alone |
| Resolver.NewestNumberWins | internal/claude/resolve.go:17-42 | in a rooted directory whose valid names all parse the proviso holds |
| Shim.PreparedShape | scripts/repair-launcher.sh:9-30 | the recording half, stopped anywhere, changes only the records and the recovered copy, in this order |
| Shim.VersionedBinary | scripts/repair-launcher.sh:13-18 | for a binary in a directory called versions that directory is recorded too |
| Shim.UnversionedBinary | scripts/repair-launcher.sh:13-18 | in a directory of another name only the binary is |
| Shim.CompletedRepairHeals | scripts/repair-launcher.sh:32-40 | a completed repair leaves the command leading to the wrapper exactly when the wrapper's path is no link and not the command |
| Shim.RepairIdempotentExactly | scripts/repair-launcher.sh:32-34 | what a completed repair leaves is left alone by all later ones exactly unless, before it, the wrapper's path is a link to an executable other than the meter, the command leads elsewhere and the repair does not leave that executable recorded |
| Shim.LinkedWrapperRecorded | scripts/repair-launcher.sh:21-25 | in that case a second repair records the file behind the wrapper as the real binary |
| Shim.InterruptedRepairResumes | scripts/repair-launcher.sh:9-40 | a repair stopped before its last effect and then run to its end does what one run would have done |
| Shim.NothingForgotten | scripts/repair-launcher.sh:21-40 | wherever a repair stops, the genuine binary is still at the command or at the recorded path |
| Shim.RunKeepsGoodRecord | scripts/repair-launcher.sh:21-30 | in every run of updates, deletions, links anywhere and stopped repairs the record names neither wrapper, meter nor command |
| Shim.RunKeepsInv | scripts/repair-launcher.sh:21-30 | in every run that turns no own path and no recorded binary into a link and puts the wrapper's text nowhere else, the library holds no links, the record cannot lead to the wrapper, the text stays at the wrapper and an unlinked wrapper path stays unlinked |
| Shim.RunThenRepair | scripts/repair-launcher.sh:21-40 | after every run a completed repair heals the command exactly when the wrapper's path is no link, and records the genuine binary the command led to |
| Hosts.Host.WriteRecords | scripts/repair-launcher.sh:9-19 | write_real writes the record and, for a versions directory, that directory |
| Hosts.Host.Repair | scripts/repair-launcher.sh:1-40 | the script, stopped after any number of replacements, performs exactly that prefix of its plan |
| Hosts.Host.Install | scripts/install-launcher.sh:5-118 | the installation ends in the specified state, completely or at the first failing command |
| Hosts.Host.RunWrapper | scripts/install-launcher.sh:44-69 | the wrapper executes the meter when it is there, whatever its file holds, and tries the newest version, the record, the recovered copy and the saved binary in this order |
| Launching.ShellOrder | scripts/install-launcher.sh:55-69 | without the meter the wrapper tries exactly one of a newest version, the record, claude-recovered and claude-real, in this order of preference |
| Launching.BinaryOfWrapper | scripts/install-launcher.sh:46-57 | the binary tried, or handed to the meter, is an executable right inside the versions directory, and the recorded one when there is none |
| Launching.HasVersionsMeans | scripts/install-launcher.sh:49-54 | a version is found exactly when an executable file lies right inside the recorded directory |
| Hosts.Host.Launch | cmd/claude-meter/main.go:87-125 | launch tries the resolved binary and falls back to the fallback alone |
| Launching.MeterOrder | cmd/claude-meter/main.go:87-125 | without versions to be had, launch tries what the order configured, fallback, claude-real, claude-recovered gives, and falls back to the same without the configured path |
| Launching.TriedMeans | cmd/claude-meter/main.go:116-123 | the fallback alone is tried when nothing was resolved or the kernel refuses it |
| Launching.LaunchHarmless | scripts/install-launcher.sh:44-69 | where the invariant holds, no file a launch executes, the meter's included, holds the wrapper's text, and every binary it tries is executable and neither the wrapper nor the meter |
| Launching.LaunchNeverReenters | scripts/install-launcher.sh:44-69 | so in every state of every such run no launch starts itself again |
| Launching.RecoveredIsFound | internal/claude/resolve.go:29-41 | as long as the recovered copy is there, and is no target of an own path, a launch finds something to execute |
| Launching.SnapshotMeans | internal/claude/resolve.go:124-143 | the meter follows a path as its cleaned spelling, through links, to an executable file |
| Reentry.AlwaysSafeExactly | scripts/install-launcher.sh:44-69 | where the library holds no links, no such run reaches a launch that starts itself again exactly when the record is not the wrapper, not the command and no link that can be turned, and no executable but the wrapper holds its text |
| Reentry.UnsafeRecord | scripts/install-launcher.sh:58-60 | any other record can be made to lead to the wrapper and is executed once the meter and the versions are gone |
| Reentry.ScriptElsewhereUnsafe | internal/claude/resolve.go:17-42 | any other executable with the wrapper's text is executed in place of the meter, or once the configuration names a link to it |
| Installing.InstalledExactly | scripts/install-launcher.sh:2-23 | an installation gets to its end exactly when the links it follows end and there is a file to save when one is needed |
| Installing.InstalledShape | scripts/install-launcher.sh:5-118 | the state a whole installation leaves, its repair included |
| Installing.InstalledRecord | scripts/install-launcher.sh:16-38 | what is recorded in the end: what the final repair found or the binary asked for, its directory if that is called versions, and the command to watch |
| Installing.InstallInvExactly | scripts/install-launcher.sh:5-118 | an installation on any machine, a first or a later one, establishes the invariant exactly when, on the disk with the meter and the saved binary, the library is free of links, the record is safe or replaced by the repair, and the wrapper's text is written to its own place or into a recovered copy that is replaced, and is nowhere else |
| Installing.InstallSafeExactly | scripts/install-launcher.sh:5-118 | when it leaves no links in the library, the same condition decides whether some run reaches a launch that starts itself again |
| Installing.FreshInstallSafeExactly | scripts/install-launcher.sh:16-75 | after a first installation no run reaches such a launch exactly when the wrapper's path is no link (or one to a recovered copy that is replaced), the command is not the binary, and neither the meter nor the saved binary nor any executable that stays holds the wrapper's text |
| Installing.FreshInstallRecordsExactly | scripts/install-launcher.sh:16-27 | it records neither the wrapper nor the meter nor the command exactly when the command is not the binary, and the meter is not requested while the command leads to no other binary |
| Installing.ReinstallSafeExactly | scripts/install-launcher.sh:16-17 | installing again over the wrapper keeps the invariant, and launches safe in every run, exactly unless the command is the recorded binary and leads to nothing that could be recorded |
| Installing.InstalledStaysSafe | scripts/install-launcher.sh:44-117 | from a safe installation on, in every such run launches start nothing that holds the wrapper's text, the binaries they try are neither the wrapper nor the meter, and completed repairs heal if the wrapper's path was no link |
| Installing.BinarySurvivesExactly | scripts/install-launcher.sh:44-75 | the binary asked for survives at its path exactly when it is not the command, not a recovered copy replaced by something else, and the wrapper is not written through a link into it |
| Installing.InstallWritesThroughLink | scripts/install-launcher.sh:44 | a wrapper path that leads to the binary asked for is written through, and that binary is recorded unless the final repair finds another behind the command |
| Installing.InstallLosesBinary | scripts/install-launcher.sh:72-75 | a command that is the binary is replaced by a link to the wrapper and recorded; without the meter the wrapper executes itself exactly when no versions directory offers something else |
| Installing.LeftoverWrapperReenters | scripts/install-launcher.sh:18-22 | an installation over a wrapper without records saves the wrapper itself, records it unless the final repair finds another binary, and some run always leads to a launch that starts itself again; without the meter the recorded copy executes itself |

## Left out

- SHA-256 is taken to be injective: a key is represented by the text that is hashed.
- The SQLite binding (internal/store/sqlite.go): a table with a unique key, transactions,
  INSERT OR IGNORE counts and byte-wise text comparison stands for it; ROLLBACK always ends the
  transaction, and sums fit int64.
- The SQL text: the clause is a list of conditions with positional holes, and result columns are
  named; the positional binding of the 29 columns of the INSERT statement is not modelled.
- JSON parsing: decoding starts from parsed OTLP structures, and a payload that does not parse is an
  error. A JSON null `intValue` reads as the empty string, as the code does.
- IEEE floating point: costs are exact reals. Printing and parsing of floats and `time.Parse` are
  parameters of the decoder (`Storage.ReadsBackHolds` gives a parser of what is printed), and a float outside int64 converts to the least int64, as on amd64.
- Reports.DisplayNamesDistinct: texts without NUL bytes; the binding reads a column up to its first NUL,
  which would merge further display names (internal/store/sqlite.go).
- Clocks, the choices SQL leaves open in ORDER BY, and failures of library calls are parameters.
- Protocol.Serializable: says nothing of readers, which are not serializable
  (`Protocol.ReaderSeesUncommittedRow`).
- Cost.AccumulatedCost: asks for costs within the int64 range of micros that round to the nearest,
  by the exact condition of `Cost.CostRoundedExactly`.
- The ticker of the pruner and the computation of window starts (internal/server/server.go:200-246):
  prunes may come at any time in `Protocol`, and windows are arbitrary instants.
- Resolver.Resolve: checks all candidates in one snapshot of the file system; only the picked path is
  looked at again.
- File systems: paths name files or links and never directories, links in directory names are not
  followed, each replacement is atomic, and directory listings are an input of Resolve. Copies to
  claude-real and claude-recovered replace what is there, links included.
- Hosts.Host.RunWrapper: takes the order of `sort -V` as any choice among the version files, so what is
  proved of launches holds for every such choice.
- Resolver.VanishedLinkNotBlocked: paths that clean alike lead to the same file.
- Environment.UpdatesCompose: the first update has no key with `=`; the source's keys contain none.
- Environment.UpdateIdempotent: no update key contains `=`; the source's keys contain none.
- Reentry.AlwaysSafeExactly: files that hold the wrapper's text have clean path names, and the library
  holds no links.
- Shim.RunKeepsInv: own paths and the recorded binary are not turned into links, and the wrapper's text
  is put into no other executable; `Shim.RunKeepsGoodRecord` and `Shim.RunThenRepair` need neither.
- Loading and writing the launcher's configuration, systemd units, Tailscale and tmux lookups,
  routing, headers, tokens, templates and display helpers.
