# graudit: a verified model of the hash-chained audit log

graudit is an append-only log kept per chain (usually per tenant). `Record` reads the tail of its
chain, hashes its own fields together with the previous hash, and appends. `Verify` walks the chain
again with two checks per entry. Three backends (in memory, Postgres, MongoDB) present the same log.
This project models that core in Dafny 4.11 and proves what it is for: what passing `Verify` means
for a chain that was altered, shortened or spliced; that every interleaving of writers keeps every
chain well formed; that the hashed text of a payload is canonical and survives storage; and that
recorded diffs are complete and reversible.

    dafny verify dfyconfig.toml

## Layout

| file | content |
|---|---|
| `Text.dfy` | numerals, `sort.Strings`, cancellation for concatenation without delimiters |
| `Json.dfy`, `Decoding.dfy` | JSON printer and decoder, and single steps of the decoder |
| `Grammar.dfy`, `Spellings.dfy` | RFC 8259 as syntax trees of the text, independent of the decoder; the decoder reads exactly these |
| `JsonRoundTrip.dfy` | printed and re-spaced documents are spellings, so the decoder inverts the printer |
| `Canonical.dfy` | normalised values, the sorted-key encoder over a buffer, its inverse and injectivity |
| `Calendar.dfy` | the RFC 3339 timestamp text of any instant, and what it determines |
| `Rfc3339.dfy` | an independent reader of that text, over a closed formula for days |
| `Chain.dfy` | the two checks over rows, and the theorems about altered chains |
| `Hash.dfy` | entries, `ComputeHash`, what its preimage determines |
| `Verify.dfy` | the check loop over entries, honest chains, what `Record` appends |
| `Log.dfy` | row selections, isolation of chains, the abstract log |
| `Memory.dfy` | the in-memory backend as a class |
| `Table.dfy` | a table keyed by (chain, position), shared by the two durable backends |
| `Postgres.dfy`, `Mongo.dfy` | the two append protocols as interleaved steps |
| `Storage.dfy` | storing a payload and a timestamp and reading them back |
| `Backends.dfy` | SQL selection against the in-memory scan; agreement of the backends |
| `Isolation.dfy` | what happens to other chains does not show, over Postgres and Mongo runs with tampering |
| `Tampering.dfy` | the report of Verify after rows were replaced or deleted, in tables and in memory |
| `Diff.dfy` | the diff engine, its runs, patching, recorded changes |

## How to read the statements

SHA-256 is a parameter `sha: string -> HexDigest`, any function to 64 lower-case hex characters. It
is never assumed injective. Each chain theorem has the form "the claim holds, or `Cracked(sha, S)`",
where `S` is the finite set of texts that the rows at hand were hashed from: two different texts of
`S` share a digest, or one of them hashes to the genesis constant.

Where the code and its documentation differ, the code is modelled and the difference is proved:

- `Verify` is documented to compare an entry's PrevHash with the entry immediately before it
  (audit.go:84-86), but all three loops compare the first fetched row with the genesis constant
  (memory.go:199-202). For every stored chain, tampered or not, `Chain.RangeAccepted` says exactly
  which ranges the loops accept and `Chain.RangeMeetsContract` exactly when that agrees with the
  documentation. Both kinds of disagreement occur: a later range of an honest chain is rejected
  (`Chain.LaterRangeIsReportedBroken`), and a chain rooted anew in the middle is accepted
  (`Chain.RerootedRangeIsAccepted`). Seeding the loop with the preceding hash would meet the
  documentation on every range (`Chain.SeededRangeMeetsContract`).
- hash.go:27-37 says an entry cannot be re-labelled with another chain without breaking SHA-256. That
  holds at the same position (`Hash.ChainIsCovered`). When the position changes too it holds exactly
  when the two labels, written without a delimiter, differ (`Hash.RelabelKeepsPreimage`);
  `Hash.LabelsCanCoincide` gives an input where they do not. For `Verify` this matters on partial
  ranges only (`Verify.MovedRowIsAcceptedAlone`): verified from entry 1, a re-labelled entry of an
  honest chain is accepted nowhere but in its own place, or the digest is cracked
  (`Verify.RelabelledRowWasNotMoved`).
- docs.go:14-22 promises that nothing in the recorded range is altered without `Verify` detecting it.
  An in-place edit that keeps the stored hashes is detected except when the edited fields still run
  together to the same text, or two texts collide (`Verify.RewrittenEntryAccepted`); moving text
  across a field boundary is such an edit (`Verify.ShiftedFieldsAreNotSeen`).
- With every row of a chain deleted, Postgres reports Empty, while MongoDB, whose tail document
  survives, reports a valid chain that is not empty (`Tampering.PostgresDeletedRows`,
  `Tampering.MongoDeletedRows`).
- Ids pass through `int64` in Postgres. `Backends.SignedRange` says exactly which ranges still mean
  the same; an upper bound past 2^63 checks nothing (`Backends.WrappedRangeChecksNothing`).
- A diff depends on map iteration order exactly when two changed members with different values share
  a dotted path (`Diff.OrderShowsOnlyInCollisions`, `Diff.DottedKeysCollide`).

## Model

| member | source | states |
|---|---|---|
| JsonRoundTrip.RoundTrip | hash.go:156-170 | the decoder, on any printed document followed by text that cannot extend a number, returns that document and that text |
| JsonRoundTrip.EscapeIs | hash.go:197-202 | which characters json.Marshal escapes and how: the rest stand for themselves |
| JsonRoundTrip.LaidIsSpelling | hash.go:183-247 | a document laid out with any space after commas and colons spells that document, and without space it is the printed text |
| Decoding.NumberRoundTrip | hash.go:113-124 | a number is read up to the first character that cannot extend it, and the rest is left |
| Grammar.NumberIs | hash.go:113-124 | the scanner's states accept exactly the number grammar of RFC 8259 |
| Grammar.StringScans | hash.go:113-124 | every spelling of a string (plain, short, hexadecimal in either case, surrogate pairs) is read as that string |
| Grammar.StringSpelled | hash.go:113-124 | every string that is read was spelled so |
| Spellings.Spelled | hash.go:113-124 | every legal JSON text, with any spacing and escapes, in front of a rest that does not continue it, is read as the document it spells |
| Spellings.Spelling | hash.go:113-124 | whatever is read is such a text, behind some space |
| Text.SortStrings | hash.go:186-190 | the keys, each in its place: where two differ first, the earlier has the smaller character or has ended |
| Text.DecimalValue | hash.go:80 | the numeral stands for its number and has no leading zero |
| Canonical.EncodeCanonical | hash.go:183-247 | whatever order maps are ranged in, the buffer grows by exactly the canonical text of the value |
| Canonical.EncodeObject | hash.go:185-207 | the same for an object: ranged keys, sorted, written as members |
| Canonical.EncodeArray | hash.go:209-219 | the same for an array, element order kept |
| Canonical.DecodeEncode | hash.go:156-247 | decoding the canonical text gives back the value and leaves the rest, for every normalised value |
| Canonical.EncodeInjective | hash.go:143-155 | two values have equal canonical text exactly when they are equal |
| Canonical.NormaliseCanon | hash.go:163-170 | sorting the members of a value at every depth and decoding again changes nothing |
| Canonical.CanonIsTheOneInOrder | hash.go:180-190 | a document that decodes to a value is the canonical one exactly when its members are in bytewise key order, without repeats, at every depth |
| Canonical.LastMemberWins | hash.go:163-170 | of members with one key the last gives the decoded value |
| Canonical.MemberOrderIsImmaterial | hash.go:143-146 | documents that differ only in member order, at any depth, normalise to the same value |
| Calendar.DateRoundTrip | hash.go:86 | day number to civil date and back is the identity for every day, leap years included |
| Rfc3339.DayMatches | hash.go:86 | the month table agrees with the closed formula over years that begin in March |
| Rfc3339.TimestampReads | hash.go:86 | for every instant of every year, an independent reader of RFC 3339 reads the text back to the instant cut to the millisecond, so layout and digits are fixed |
| Rfc3339.ZeroTimeIsYearOne | memory.go:103-105 | the zero time is 0001-01-01T00:00:00Z |
| Calendar.SuffixDecodable | hash.go:86 | for four-digit years the timestamp text can be split off the end of any text, and determines the millisecond |
| Calendar.FloorKeepsMillis | hash.go:48-65 | flooring to any precision that divides the millisecond does not change the timestamp text |
| Hash.CanonicalText | hash.go:156-178 | the buffer-based canonicalJSON returns the canonical text, and fails exactly for unencodable payloads |
| Hash.CanonicalJsonInjective | hash.go:143-178 | two payloads have the same canonical text exactly when they normalise to the same value |
| Hash.ComputeHash | hash.go:72-91 | the method returns the digest of the fields in order followed by PrevHash, and fails exactly for unencodable payloads |
| Hash.PreimageDecodable | hash.go:78-87 | for one chain position, equal field lengths and four-digit years, equal preimages force equal strings, payload value, millisecond and PrevHash |
| Hash.PreimageDetermines | hash.go:78-90 | at one position, for four-digit years and any field lengths, preimages are equal exactly when the run-together fields and payload, the millisecond and PrevHash are |
| Hash.RelabelKeepsPreimage | hash.go:27-41 | a new chain and position keep the preimage exactly when the two run-together labels are the same text |
| Hash.ChainIsCovered | hash.go:27-37 | changing only the chain always changes the preimage |
| Hash.PositionIsCovered | hash.go:79-80 | changing only the position always changes the preimage |
| Hash.LabelsCanCoincide | hash.go:78-80 | the concrete pair ("acme1", 1) and ("acme", 11) shares preimages |
| Chain.GenesisIsZeros | audit.go:19 | the genesis constant is 64 zeros |
| Chain.CheckReports | audit.go:82-111 | one pass reports valid exactly when every row passes both checks, else the least failing row with its expected and actual hash |
| Chain.Binding | memory.go:196-222 | two passing chains that end in the same hash were hashed from the same texts, position by position, or the digest is cracked |
| Chain.HashesDistinct | memory.go:196-222 | along one passing chain all hashes differ, or the digest is cracked |
| Chain.Deletion | memory.go:189-222 | of all sub-selections of a passing chain exactly the prefixes pass, or the digest is cracked |
| Chain.GapReported | audit.go:270-279 | after a deletion the report names the first kept row whose predecessor is gone, with the expected and the missing hash, or the digest is cracked |
| Chain.TamperLocalised | audit.go:270-279 | the exact report after one row was replaced: at the row, or at its successor if it was re-hashed consistently |
| Chain.TamperDetected | memory.go:196-222 | every visible change of one row is reported, unless two texts collide or it is a consistent re-hash of the last row |
| Chain.RangeAccepted | memory.go:199-217 | on every stored chain a non-empty range is accepted exactly when its first row carries the genesis constant and its own hash and each later row passes in the whole chain |
| Chain.RangeMeetsContract | audit.go:82-89 | the loops agree with the documented contract on a range exactly when the entry before it has the genesis hash or the range is bad anyway |
| Chain.RerootedRangeIsAccepted | memory.go:199-202 | a concrete tampered chain whose range from 2 is accepted although entry 2 does not link to entry 1 |
| Chain.GenesisSeededRange | memory.go:199-202 | on a chain that passes as a whole, a range is accepted exactly when it is empty, starts at 1, or follows an entry whose hash is the genesis constant |
| Chain.LaterRangeIsReportedBroken | postgres.go:485-495 | a later non-empty range of a passing chain is reported broken at its first entry, or the digest is cracked |
| Chain.SeededRangeMeetsContract | audit.go:82-89 | a loop seeded with the preceding hash accepts a range exactly when each row passes against its true predecessor, tampered chains included |
| Verify.VerifyRows | memory.go:196-222 | the loop returns the verdict of the declarative specification, for every list of rows |
| Verify.TimedIsDraft | memory.go:103-105 | a timestamp is replaced by the clock exactly when it is zero, and nothing else changes |
| Verify.RewrittenEntryAccepted | docs.go:14-22 | an entry of an honest chain rewritten in place, stored hashes kept, is accepted exactly when its fields still run together to the same text at the same millisecond, or the texts collide |
| Verify.ShiftedFieldsAreNotSeen | hash.go:81-84 | "alice"/"user" rewritten as "aliceu"/"ser" at any entry of an honest chain is accepted |
| Verify.MovedRowIsSeen | hash.go:27-41 | a row moved to another chain makes every range that contains it fail, or its two texts collide |
| Verify.RelabelledRowAccepted | hash.go:78-90 | a list with an entry moved to another chain and position is accepted exactly when the rest passes, the entry links to its new predecessor, and the labels spell the same text or the texts collide |
| Verify.MovedRowIsAcceptedAlone | memory.go:199-202 | entry 1 of "acme1" moved to position 11 of "acme" passes a one-row range |
| Verify.RelabelledRowWasNotMoved | hash.go:27-41 | in a list that passes from the start, a re-labelled entry of an honest chain stands at its own chain and position, or the digest is cracked |
| Verify.StampKeepsHonest | memory.go:109-124 | appending what Record builds keeps a chain numbered, linked and correctly hashed |
| Verify.HonestVerifies | memory.go:178-186 | an honest chain verifies from entry 1 to any entry |
| Log.SelectFromChain | memory.go:228-259 | a selection depends on the entries of its own chain only |
| Log.SelectPlaces | memory.go:237-260 | a selection is exactly the matching entries at their places in the stored order |
| Log.RangeIsWindow | memory.go:178-183 | on a chain numbered 1..n the range scan yields the window of positions from..to |
| Log.RunKeepsHonest | audit.go:21-30 | over every run of the abstract log every chain stays honest and only grows |
| Memory.MemoryAuditLog.constructor | memory.go:81-90 | a new log is empty, open and consistent |
| Memory.MemoryAuditLog.Record | memory.go:96-133 | an error exactly for a closed log, an empty field or an unmarshalable payload; else one entry with the caller's fields, the given timestamp or the clock's, at the end of its chain, others untouched, published only if the bus accepts |
| Memory.MemoryAuditLog.Verify | memory.go:158-187 | the verdict of the specification on the selected rows, Empty, and the error cases, on any stored state |
| Memory.MemoryAuditLog.Scan | memory.go:178-183 | the filtering loop with early exit returns the first `limit` matching entries |
| Memory.MemoryAuditLog.Query | memory.go:228-265 | field by field: the entries of the chain that meet every filter that is set, in stored order, or the first `limit` of them; error cases |
| Memory.MemoryAuditLog.GetEntry | memory.go:271-288 | on any stored state the first entry with that chain and position; in a consistent one the entry at that position, or not found |
| Memory.MemoryAuditLog.LatestEntryID | memory.go:293-309 | on any stored state what the tail says; in a consistent one the length of the chain, or not found when empty |
| Memory.MemoryAuditLog.Close | memory.go:312-317 | closed afterwards, nothing stored changes |
| Memory.AppendKeepsConsistent | memory.go:107-124 | after an append the tail map still agrees with the last entry of every chain and every chain is honest |
| Memory.StampIsNew | memory.go:109-124 | the entry Record appends was not stored before |
| Memory.ConsistentVerifies | memory.go:158-187 | in every reachable state Verify from at most 1 to anything is valid, Empty exactly for `to` 0 and no entries |
| Memory.EveryRunIsConsistent | memory.go:96-133 | in every reachable state the tail map agrees with the last entry of each chain, and ids are 1..n in append order |
| Memory.RunRefines | memory.go:96-133 | every run is a run of the abstract log |
| Memory.RunElsewhereIsInvisible | memory.go:158-309 | over every run that mixes Record calls on other chains with edits of their entries and tails, Verify, Query, GetEntry and LatestEntryID on this chain answer the same |
| Table.NoGaps | internal/postgresdb/schema.sql:3-25 | in a good table the positions of a chain are exactly 1..n |
| Table.TableIsHonest | internal/postgresdb/schema.sql:13-25 | every chain of a good table is numbered, linked and correctly hashed |
| Table.LastIsEnd | internal/postgresdb/audit.sql.go:43-47 | the greatest id of a chain is its last entry |
| Table.InsertRefines | internal/postgresdb/audit.sql.go:68-71 | inserting a good row at a fresh key is one step of the abstract log |
| Postgres.StepKeepsInv | postgres.go:379-417 | every step of every interleaving of Record transactions keeps the invariant |
| Postgres.EveryRunKeepsChainsHonest | postgres.go:379-417 | in every run, for any lock-key function and even without the lock, committed rows are 1..n without gaps, linked and correctly hashed |
| Postgres.EveryRunKeepsHashesUnique | internal/postgresdb/schema.sql:31 | in every run no two committed rows carry the same hash |
| Postgres.EveryRunOnlyAppends | postgres.go:362-424 | at any later moment of a run each chain extends what it was |
| Postgres.ReturnedIsCommitted | postgres.go:411-423 | a returned id is the position of a committed row made of the caller's own event, owned by no other call |
| Postgres.PublishedAreCommitted | postgres.go:414-423 | each published entry is a committed row, none is published twice |
| Postgres.PublishOutcomesAreInvisible | events.go:32-49 | for every run and any change of the bus's answers there is a run with the same table, locks, calls and results at every moment |
| Postgres.LockExcludesKeyConflicts | postgres.go:380-386 | with the lock, the position read is the next one and stays free, and no other transaction works on that chain |
| Postgres.NoDeadlock | postgres.go:106-110 | in every reachable state with an unfinished call some transaction can proceed |
| Postgres.StepRefines | postgres.go:379-417 | every step is one abstract Record or none |
| Postgres.RunRefines | postgres.go:362-424 | every run is a run of the abstract log |
| Postgres.RecordCanSucceed | postgres.go:362-424 | an undisturbed transaction appends the stamped entry, returns its id and publishes it, unless a row already has its hash |
| Mongo.StepKeepsInv | mongo.go:294-330 | every step of every interleaving of attempts keeps the invariant |
| Mongo.EveryRunKeepsTails | mongo.go:294-330 | in every run chains are honest, and the tail document exists exactly for non-empty chains and names the last id and hash |
| Mongo.EveryRunOnlyAppends | mongo.go:266-337 | at any later moment of a run each chain extends what it was |
| Mongo.ReturnedIsCommitted | mongo.go:327-336 | what Record returns is the row of the attempt that committed, whatever earlier attempts assigned |
| Mongo.OneEntryPerCall | mongo.go:288-337 | no run contains two commits by one call |
| Mongo.CommitBlockedOnlyByProgress | mongo.go:321-325 | a finished attempt can commit exactly when its position is still free, including writers racing on an absent tail document |
| Mongo.RaceHasOneWinner | mongo.go:288-330 | once one of several racing attempts on a chain commits, no other finished attempt on it can commit |
| Mongo.VersionIsLength | mongo.go:321-325 | a tail document has been written as often as its chain has entries |
| Mongo.PublishedAreCommitted | mongo.go:327-336 | each published entry is stored, none is published twice |
| Mongo.PublishOutcomesAreInvisible | events.go:32-49 | for every run and any change of the bus's answers there is a run with the same collections, calls and results at every moment |
| Mongo.StepRefines | mongo.go:294-330 | every step is one abstract Record or none |
| Mongo.RunRefines | mongo.go:266-337 | every run is a run of the abstract log |
| Mongo.RecordCanSucceed | mongo.go:266-337 | from every reachable state a new call whose attempt is undisturbed appends the stamped entry, moves the tail document, returns its id and publishes it |
| Mongo.RetryCanSucceed | mongo.go:289-330 | an attempt that failed before its commit, run again, succeeds in the same way, keeping nothing of the failed one |
| Mongo.DoubtIsResolved | mongo.go:289-291 | a repeated commit whose acknowledgement was lost returns the committed row and stores nothing more |
| Storage.DecodedValue | hash.go:113-124 | decoding stored text yields a payload with the decoded value, and fails exactly when the text is not JSON |
| Storage.DecodesWhatIsSpelled | hash.go:113-124 | stored text decodes to a value exactly when it spells one by the grammar of RFC 8259 |
| Storage.PreservedExactly | internal/postgresdb/schema.sql:20 | a store preserves a payload exactly when what it makes of the text still spells the payload's value |
| Storage.SpacingIsPreserved | internal/postgresdb/schema.sql:20 | a store that puts any space after commas and colons preserves every payload |
| Storage.ReadBackDecodes | hash.go:132-141 | only nil is stored as no bytes, and it comes back as nil |
| Storage.ReadBackCanonical | hash.go:113-141 | the canonical text after storage is the original one exactly when the store gives the value back |
| Storage.StoredTime | hash.go:48-65 | a store keeps every field, and of the timestamp the whole units of its precision |
| Storage.ReadBackKeepsHash | hash.go:93-124 | at any precision that divides the millisecond the hashed text survives storage exactly when the payload value does |
| Storage.ReadBackKeepsVerdict | postgres.go:497-508 | Verify gives on read-back rows the verdict it gives on the written ones, valid or tampered |
| Storage.BytesArePreserved | mongo.go:62 | a store that keeps bytes preserves every payload |
| Storage.NumberTextMatters | internal/postgresdb/schema.sql:20 | a number keeps its hash exactly when the store keeps its spelling |
| Storage.RespelledNumberIsLost | hash.go:97-105 | the concrete case of `1e+2` stored as `100`: the hashed text changes |
| Backends.AnswerIsScan | internal/postgresdb/audit.sql.go:102-107 | filter and sort by id over a good table has exactly one answer, the in-memory scan of the chain |
| Backends.AnswerOfList | internal/postgresdb/audit.sql.go:102-107 | filter and sort by id over any table has exactly one answer, the scan of the chain's rows by position |
| Backends.SignedRange | postgres.go:334-346 | the exact bounds for which a range converted to int64 selects the rows that were asked for |
| Backends.WrappedRangeChecksNothing | postgres.go:480-483 | an upper bound past 2^63 selects no row of any table, so the verdict is valid |
| Backends.LowerBoundAgrees | internal/postgresdb/audit.sql.go:153 | a floored lower bound selects like the exact one for all timestamps exactly when it is aligned |
| Backends.UpperBoundAgrees | internal/postgresdb/audit.sql.go:154 | a floored upper bound does exactly when it is the last instant of its unit |
| Backends.FilterIsScan | internal/postgresdb/audit.sql.go:146-157 | with agreeing times the SQL filter selects what the in-memory filter selects |
| Backends.LatestAgrees | postgres.go:441-450 | the greatest id is the length of the chain, none for an empty chain, and nothing else |
| Backends.TailDocumentIsLatest | mongo.go:355-365 | in every Mongo run the tail document names the greatest id |
| Backends.VerifyAgrees | postgres.go:458-514 | a durable Verify that resolves the latest id correctly reports what the abstract chain deserves, for bounds below 2^63 and preserved payloads |
| Backends.MemoryVerifyAgrees | memory.go:158-187 | so does the in-memory Verify, for every bound |
| Backends.DurableChainsVerify | audit.go:91-96 | on every good table Verify from at most 1 is valid, Empty exactly for `to` 0 and no entries |
| Backends.PostgresChainsVerify | postgres.go:458-514 | in every reachable Postgres state Verify from at most 1 is valid, Empty exactly for `to` 0 and no entries |
| Backends.MongoChainsVerify | mongo.go:371-435 | the same in every reachable Mongo state, with the latest id read from the tail document |
| Backends.QueryAgrees | postgres.go:518-560 | the durable answer is the in-memory one, entry by entry, up to payload representation |
| Backends.QueryRows | internal/postgresdb/audit.sql.go:146-157 | the durable answer column by column, times compared in units of the store, by ascending id |
| Backends.GetEntryAgrees | postgres.go:565-586 | for every uint64 id the durable lookup finds what the in-memory one finds, and returns it as the same entry up to payload representation |
| Isolation.PostgresIsolation | postgres.go:362-586 | over every run that mixes protocol steps, commits on other chains and tampering with their rows, every selection, latest id and Verify report about this chain stays the same |
| Isolation.MongoIsolation | mongo.go:266-541 | the same for Mongo, where this chain's tail document stays and Verify resolves the latest id through it |
| Tampering.ReplacedRowIsReported | audit.go:270-279 | the exact Verify report, for any upper bound, after one row of a recorded table was replaced by an arbitrary row under its key |
| Tampering.PostgresReplacedRow | postgres.go:458-514 | the same for Postgres, which resolves the latest id from the rows |
| Tampering.MongoReplacedRow | mongo.go:371-435 | the same in every reachable Mongo state, through the tail document |
| Tampering.DeletedRowsAreSeen | docs.go:14-22 | after any set of rows was deleted from a recorded table, Verify from the start accepts exactly when the rows left in range have no gap, or the digest is cracked; for any resolution of the latest id |
| Tampering.PostgresDeletedRows | postgres.go:458-514 | the same for Postgres, and Empty exactly when no bound was given and no row of the chain is left |
| Tampering.MongoDeletedRows | mongo.go:371-435 | the same for Mongo, and Empty exactly when the chain never had entries, since the tail document survives |
| Tampering.DeletionIsLocated | audit.go:270-279 | otherwise the report names the first row behind the first gap, with both hashes, or the digest is cracked |
| Tampering.AcceptedTableIsRecorded | docs.go:14-22 | whatever a table was turned into, if Verify accepts a range whose last row carries the recorded hash of entry n, the rows were hashed from exactly the recorded texts 1..n, or the digest is cracked |
| Tampering.AcceptedEntriesAreRecorded | memory.go:158-222 | the same for any list of entries in memory |
| Tampering.ReplacedEntryIsReported | memory.go:158-222 | the exact in-memory Verify report after one stored entry was overwritten |
| Tampering.DeletedEntriesAreSeen | memory.go:158-222 | after any set of stored entries was removed, in-memory Verify from the start accepts exactly when what is left in range is numbered 1, 2, ..., or the digest is cracked |
| Tampering.EntryDeletionIsLocated | memory.go:196-222 | otherwise the first entry behind a gap is reported, or the digest is cracked |
| Diff.CollectDiff | diff.go:75-104 | whatever the map order, the recursion performs one of the runs on top of the shared map |
| Diff.CollectKey | diff.go:84-103 | one loop iteration performs that key's part of a run |
| Diff.NoWritesMeansEqual | diff.go:75-104 | nothing is written exactly when the two objects are equal, at every depth and for colliding paths |
| Diff.RunMakesWrites | diff.go:84-103 | every run makes exactly the same set of assignments |
| Diff.EmptyDiffMeansEqual | diff.go:31-38 | for every run the diff is empty exactly when the objects are equal |
| Diff.OrderShowsOnlyInCollisions | diff.go:84-103 | the result is the same for all orders exactly when no two different assignments share a path |
| Diff.DottedKeysCollide | diff.go:85-88 | a concrete pair of objects whose diff depends on the order |
| Diff.PlainDiffIsDeterministic | diff.go:75-104 | for non-empty dot-free keys the diff does not depend on the order |
| Diff.TopLevelChanges | diff.go:84-103 | for plain keys the diff has an entry for a member exactly when it changed, with its two values |
| Diff.PatchGivesAfter | diff.go:12-19 | patching before with the diff gives after exactly when no member turns into null |
| Diff.SwappedRun | diff.go:75-111 | exchanging the arguments exchanges every pair, run for run, for all keys |
| Diff.DiffIsReversible | diff.go:21-30 | forwards the diff gives after, with its pairs exchanged it gives before, each exactly when no member turns into null |
| Diff.ComputeDiff | diff.go:39-69 | an error exactly when a side is neither nil nor a document with an object or null at the top; else a diff that is empty exactly when the two decoded documents are equal, nil and null being the empty object |
| Diff.DocumentMembers | diff.go:16-19 | the marshalled diff lists the changed paths, each with exactly the sides that are not nil |
| Diff.DocumentRead | diff.go:16-19 | the marshalled diff determines the diff |
| Diff.RecordedChangeIsReversible | diff.go:120-142 | the built event carries the caller's identifiers, validates as soon as they are set, and its action tells which side was nil; the diff read back from storage turns the decoded before into the decoded after and back |

## Left out

- Bytes: strings are sequences of code points, whose order UTF-8 preserves; invalid UTF-8 and its replacement are not modelled.
- `json.Marshal` on Go values: a payload starts as the JSON document it marshals to, or as unmarshalable; `json.RawMessage` and custom marshalers that emit unusual escapes are covered only by the decoder side.
- The decoder's nesting limit, and out-of-range numbers, are not modelled.
- The inside of SHA-256, FNV-1a and hex encoding: any digest function, any lock-key function.
- Ids beyond 2^64 and Postgres inserts beyond 2^63 entries of one chain; BSON's refusal of uint64 values above 2^63 - 1 (agreement is stated below 2^63).
- Missing tail rows: the loops check only the rows they fetch, so a shortened chain passes (`Tampering.DeletedRowsAreSeen` says exactly so).
- Database internals: atomic commit, read-committed and snapshot reads, lock release at transaction end, unique keys and first-committer-wins on a document are the transition rules; connection set-up, schema, index creation and the transaction probe are not modelled.
- Postgres.StepKeepsInv: the protocol is a transition system on values, since its state lives in the database; Go's in-place assignment of `recorded` appears as a field of the call.
- Memory.MemoryAuditLog.Record: one critical section is one method; publishing follows it in the same method, so the order in which concurrent calls reach the bus is not modelled, and neither is sharing of mutable payload values with the caller.
- Backends.QueryAgrees: timestamps and the lower bound are aligned to the precision of the store; without that the exact conditions are `Backends.LowerBoundAgrees` and `Backends.UpperBoundAgrees`.
- Storage.NumberTextMatters: how JSONB renders text is a parameter; that a given server preserves a given payload is a hypothesis.
- Context cancellation, wrapped error texts, the logger, and `CHAR(64)` padding.
- The clock and the bus's answer are parameters of `Record`.
