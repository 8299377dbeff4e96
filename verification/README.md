# Private Mesh: a Dafny model of its stateful cores

Private Mesh is a capability fabric: Hubs (Go) and a Cloudflare Worker (TypeScript) keep append-only event logs,
exchange them, hand out macaroon grants with caveats, pair devices with single-use tokens, limit rates and replay
idempotent requests; SDKs in Go and JavaScript print caveats and keep an encrypted identity file. This project models
those cores and proves what their code keeps over all inputs, runs and interleavings.

`dafny verify dfyconfig.toml` checks the whole project.

| module | models |
|---|---|
| `EventLog`, `HashChain`, `Paging` | the Hub's log with its three writers, the history hash chain and its verifier, page and cursor reads |
| `PeerSync`, `Convergence` | the push and pull loops between Hubs, replication of a stream, convergence of two Hubs |
| `CratePairing`, `WorkerPairing` | single-use pairing tokens: SQL statements interleaved on the Hub; a Durable Object beside a stale KV on the Worker |
| `RateLimit`, `WorkerRate` | the token bucket under a clock that may step back; the Worker's LRU map of buckets |
| `Lexicographic`, `TimeText`, `Idempotency`, `IdempotencyCollector` | string order, RFC 3339 text as a stand-in for time, the idempotency table, its middleware and its collector |
| `Text`, `Caveats`, `CaveatAgreement`, `CaveatEdges`, `Grants` | caveat printer, both evaluators, the meaning they share and what they make of anything else; scope, delegation and refresh |
| `SyncCodec`, `SelfDelimiting` | stand-in codecs that meet the laws assumed of encoding/json |
| `SigV4`, `Ulid`, `Fif` | canonical query, path and header values; identifier packing; the identity file's parse, unlock, serialize and lock |
| `Wrappers` | options, results, sequences |

Where the source changes state, a class does (`Store`, `PairingStore`, `PairRedemption`, `RateBucket`, `RateBuckets`,
`IdempotencyStore`, `Fif`): each method is proved against a function on the state's value, and the properties of runs
and interleavings are proved about that function. One SQL transaction is one step, except in the pairing modules, where
every single statement is.

Parameters of the model, never axioms: the hash function (results read "equal, or here are two different preimages with
one digest"), the JSON codecs, the key derivation and authenticated encryption, time parsing, case folding and the rate
oracle. Laws they need are `requires` of the lemmas that use them (`Lawful`), and each set of laws is shown to have a
model (`SyncCodec.LawfulCodecExists`, `CaveatAgreement.LawfulLibraryExists`, `Fif.LawfulLibraryExists`).

## What the code does not keep

These follow the code where it departs from what its comments say; each is a lemma with its exact condition or an input.

- A revocation is appended with dependencies `""`, hashed as such and read back as `"[]"`: its stream stops verifying
  there, and other Hubs refuse the event (`HashChain.EmptyDependenciesBreakTheChain`, `PeerSync.RevocationIsRefused`).
- Two Hubs converge only if each takes what it lacks of the other's log: a revocation never leaves its Hub, and under strict
  attribution neither does an event of a principal other than the pushing peer's (`Convergence.ExchangeConvergesExactly`,
  `Convergence.RevocationsDoNotConverge`, `Convergence.OtherPrincipalsDoNotConverge`).
- A push into `__history` under a stream type other than history is accepted with an unchecked hash, because the push
  handler goes by the sender's stream type and the verifier by the namespace (`PeerSync.ForeignTypeIsUnchecked`,
  `HashChain.WritesBreakExactly`).
- Ingest does not compare the previous hash with the head; the verdict is then exactly the list of those comparisons
  (`HashChain.ExactVerdict`, `PeerSync.HistoryPushesMatchHeads`).
- A cancelled pairing token may have been redeemed: the affected row count is not looked at
  (`CratePairing.CancelSucceedsUnlessOvertaken`).
- Expiry compared as text can come up to a second early and flicker within that second, where a sweep of the collector
  becomes visible (`Idempotency.HandlerRunsWhenReadAsDue`, `Idempotency.EarlyRerunExists`,
  `IdempotencyCollector.WhenSweepsShow`, `IdempotencyCollector.VisibleSweepExists`).
- Between two milliseconds the Hub's clock is past a `time >` caveat of the millisecond just begun and the Worker's is not
  (`CaveatAgreement.EvaluatorsAgree`).
- A delegated grant with an empty operations list is wider than its parent; a blank parent caveat may be dropped; the
  child may outlive its parent (`Grants.ScopeNarrowsExactly`, `Grants.CaveatsNarrowExactly`, `Grants.ChildOutlivesExactly`).
- The identifier's two pad bits are the last ones, so it is not the standard ULID text of its bytes (`Ulid.Pack`).

## Model

| member | source | states |
|---|---|---|
| `EventLog.EveryRunKeepsInvariant` | nakli-hub/internal/storage/sync.go:145-213 | in every state any mix of the three writers reaches, event ids are unique, each stream is numbered exactly 1..event_count in rowid order, and the stream row's head id and hash are its last event's |
| `EventLog.InsertKeepsInvariant` | nakli-hub/internal/storage/events.go:88-140 | a new row gets the number one above the stream's length, which is also the new event_count, and the invariant survives |
| `EventLog.RunExtends` | nakli-hub/internal/storage/history.go:60-142 | the log is append-only: the events of an earlier state are a prefix of those of any later one |
| `EventLog.MaxIsLargest` | nakli-hub/internal/storage/events.go:78-84 | the number a new row follows is the largest in its stream |
| `EventLog.AppendStores` | nakli-hub/internal/storage/events.go:50-140 | an append stores every column as given, NULL for an empty metadata or dependency string, moves the stream row and nothing else, exactly when its id is new |
| `EventLog.AppendHistoryStores` | nakli-hub/internal/storage/history.go:60-142 | a history append stores every column as given, under the head as previous hash and hashed over it, exactly when it names the head and its id is new |
| `EventLog.IngestStores` | nakli-hub/internal/storage/sync.go:145-213 | an ingested event is stored column by column as it came, under the next local number, exactly when it has its ids and its event id is new |
| `EventLog.Store.AppendEvent` | nakli-hub/internal/storage/events.go:50-140 | accepts exactly when no row has the id, leaves the tables AppendStores describes and returns the stream's next number, which is the new event_count; a refusal leaves both tables alone |
| `EventLog.Store.AppendHistoryEvent` | nakli-hub/internal/storage/history.go:60-142 | refuses with a conflict exactly when the given previous hash is not the head, otherwise inserts the row hashed over that head and returns its number; a refusal leaves both tables alone |
| `EventLog.Store.IngestEvent` | nakli-hub/internal/storage/sync.go:145-213 | refuses missing ids and known event ids in that order, otherwise leaves the tables IngestStores describes, without comparing the previous hash with the head |
| `HashChain.VerifyHistoryChain` | nakli-hub/internal/storage/history.go:155-209 | the walk's report is the longest prefix of holding links: verified exactly when it is the whole stream, otherwise naming the first event whose link fails; a verified non-empty report carries the recorded head hash |
| `HashChain.ReportIsUnique` | nakli-hub/internal/storage/history.go:155-209 | only one report describes a stream |
| `HashChain.TamperEvidence` | nakli-hub/internal/storage/history.go:48-209 | two verified streams of the same length and head hash agree at every position on the previous hash and on the hashed concatenation, or the streams contain two different preimages with one digest |
| `HashChain.FieldsAgreeAtEqualLengths` | nakli-hub/internal/storage/history.go:48-58 | where the field lengths agree, that agreement is field by field |
| `HashChain.BoundariesAreNotHashed` | nakli-hub/internal/storage/history.go:48-58 | the limit of it: the concatenation has no field boundaries, so two events that split id and kind differently verify with one hash |
| `HashChain.LinksAreArrivals` | nakli-hub/internal/storage/history.go:60-209 | for every run of the writers, link i of a stream holds exactly when event i arrived naming the head of that moment with a hash that reads back |
| `HashChain.ExactVerdict` | nakli-hub/internal/storage/history.go:155-209 | after any run the stream verifies exactly when every event arrived linked; otherwise the report names the first that did not, and is the same after every continuation |
| `HashChain.WritesBreakExactly` | nakli-hub/internal/server/handlers_stub.go:493-507 | a handler's write continues its stream's chain exactly when it is an append with dependencies (or without, if two preimages collide), or a push that names the head and whose hash was recomputed or happens to be right; a vault append never does |
| `HashChain.ArrivalsAreExact` | nakli-hub/internal/storage/history.go:155-209 | over every run of handler writes the flags of ExactVerdict are those conditions, judged at each arrival |
| `HashChain.EmptyDependenciesBreakTheChain` | nakli-hub/internal/storage/history.go:108-128 | an append with dependencies "" (as a revocation makes) hashes "" and reads back "[]": its link holds only if the two preimages collide |
| `HashChain.VaultAppendBreaksTheChain` | nakli-hub/internal/storage/events.go:100-125 | an append into `__history` that stores no hash never links |
| `Paging.ReaderSees` | nakli-hub/internal/storage/sync.go:63-96 | a reader sees every column as stored, NULL metadata as an empty string and NULL dependencies as [] |
| `Paging.PullIsExact` | nakli-hub/internal/storage/sync.go:37-115 | a pull returns the rows with a rowid above the cursor in order, at most the limit, or 100 when it is not in 1..1000; the new cursor is the last rowid returned and `more` says whether rows remain |
| `Paging.ReadIsExact` | nakli-hub/internal/storage/events.go:146-215 | a read returns the rows of the stream after the named one, at most the limit, or 100 when it is not in 1..1000, with an exact `more`; it fails exactly for an id the stream lacks |
| `Paging.SyncPull` | nakli-hub/internal/storage/sync.go:37-115 | one pull returns the rows after its cursor up to the effective limit, `more` exactly when rows remain, and the cursor of the last row returned; text that is not an integer is refused |
| `Paging.ReadStream` | nakli-hub/internal/storage/events.go:146-215 | one read returns the rows of the stream after the named event, `more` exactly when rows remain, and fails exactly for an event id the stream does not have |
| `Paging.PagesAreExact` | nakli-hub/internal/storage/sync.go:37-115 | pages that each resume where the last one ended concatenate to a gap-free, duplicate-free prefix of the log, with any limits and any appends between calls |
| `Paging.CursorIsExact` | nakli-hub/internal/storage/sync.go:98-115 | following the returned cursors from none gives exactly those pages, and `more` is false exactly when the prefix was the whole log at the call |
| `Paging.LastIdIsThePosition` | nakli-hub/internal/storage/events.go:164-215 | a ReadStream reader that passes its last event id resumes exactly there: no other row has that id |
| `Paging.StreamIdsAreExact` | nakli-hub/internal/storage/events.go:146-215 | following a stream by the last event id gives exactly the pages of PagesAreExact, with any limits and any appends between calls, and `more` is false exactly when they are the whole stream at the call |
| `PeerSync.HandleSyncPush` | nakli-hub/internal/server/handlers_stub.go:453-543 | every event is accepted or skipped, the accepted count is the number of rows added, and the store ends as pushing the events one by one leaves it |
| `PeerSync.PushKeepsInvariant` | nakli-hub/internal/server/handlers_stub.go:453-543 | a push of any events keeps the log invariant and grows the log by the number accepted |
| `PeerSync.ScreenIsExact` | nakli-hub/internal/server/handlers_stub.go:455-530 | the push loop's checks in their order, each refusal with its exact condition, and the columns handed to the store: [] and {} for empty lists and clocks, the recomputed hash for history events, everything else as sent |
| `PeerSync.PushStores` | nakli-hub/internal/server/handlers_stub.go:455-543 | an event the checks take and the store lacks is stored with those columns, anything else changes nothing |
| `PeerSync.PullSends` | nakli-hub/internal/server/handlers_stub.go:376-404 | what a pull sends of a row: every column as a reader sees it, parsed where it is JSON, and no grant id |
| `PeerSync.ScreenedHistoryIsHashChecked` | nakli-hub/internal/server/handlers_stub.go:493-507 | a pushed event of stream type history that passes the checks carries the recomputed hash over a non-empty dependency string |
| `PeerSync.ForeignTypeIsUnchecked` | nakli-hub/internal/server/handlers_stub.go:493-530 | a push into `__history` under another stream type is accepted with whatever hash it carries |
| `PeerSync.AcceptedPushIsHistoryWriter` | nakli-hub/internal/server/handlers_stub.go:493-530 | an accepted push suits its history stream exactly when it is not such an event or happens to carry the recomputed hash |
| `PeerSync.VerdictOfHandlerRuns` | nakli-hub/internal/storage/history.go:155-209 | over whole runs of the handlers, every accepted push included, a stream verifies exactly when every write continued its chain, and otherwise the report names the first that did not |
| `PeerSync.HistoryPushesMatchHeads` | nakli-hub/internal/server/handlers_stub.go:493-507 | on streams of appends with dependencies and accepted pushes of stream type history, the flags of ExactVerdict are the comparisons of each pushed event's previous hash with the head at arrival |
| `PeerSync.ScreenIsTheHashCheck` | nakli-hub/internal/server/handlers_stub.go:471-507 | a pulled event with intact columns passes another Hub's checks exactly when a hash it carries as a history event is that of what is read back |
| `PeerSync.RevocationIsRefused` | nakli-hub/internal/server/handlers_stub.go:493-507 | an append with dependencies "" (as a revocation makes) does not pass them, unless the two preimages collide |
| `PeerSync.PortableIsCopied` | nakli-hub/internal/server/handlers_stub.go:493-530 | a portable event is stored by the receiver with every hashed field, number aside, as it was |
| `PeerSync.ReplicationKeepsTheChain` | nakli-hub/internal/storage/sync.go:37-213 | pulling a growing log page by page to its end and pushing each page in order gives a Hub without that stream the same events, order, numbers, hashes and head, and the same verifier report |
| `Convergence.PushDelivers` | nakli-hub/internal/server/handlers_stub.go:453-543 | pushing any log to any Hub adds exactly the ids of the events its checks take, accepts as many as it was missing of those, and shrinks the ids it misses by that number |
| `Convergence.ExchangeConvergesExactly` | nakli-hub/internal/server/handlers_stub.go:453-543 | after a full A-to-B then B-to-A exchange of any two logs, each side judged as its own sender, the Hubs hold the same ids exactly when each side's checks take every event the other has and it lacks; those are then the ids either had |
| `Convergence.ExchangeConverges` | nakli-hub/internal/server/handlers_stub.go:453-543 | in that case, when equal ids mean one stream, they also agree on event_count in every stream, and each direction accepts the number missing |
| `Convergence.ExchangeIsIdempotent` | nakli-hub/internal/server/handlers_stub.go:453-543 | after an exchange of any two logs a further round accepts nothing and changes neither Hub, refused events included |
| `Convergence.RevocationsDoNotConverge` | nakli-hub/internal/server/handlers_stub.go:493-507 | a Hub whose log is one revocation and an empty Hub stay apart under every exchange, unless two preimages collide |
| `Convergence.OtherPrincipalsDoNotConverge` | nakli-hub/internal/server/handlers_stub.go:459-471 | so do a Hub whose log is one event of another principal than its own and an empty Hub under strict attribution |
| `Convergence.HandlerRunsArePortable` | nakli-hub/internal/server/handlers_stub.go:493-530 | every log written through the handlers, revocations and other principals' events aside, holds only events that every such peer takes (with PortableLogsExchange) |
| `Convergence.PortableLogsExchange` | nakli-hub/internal/server/handlers_stub.go:453-543 | two logs of portable events, each spoken for by its sender, meet the condition of ExchangeConvergesExactly |
| `CratePairing.PairingStore.CreateCratePairingToken` | nakli-hub/internal/storage/crate_pairing.go:45-68 | inserts an open token unless the secret is taken |
| `CratePairing.PairingStore.RedeemCratePairingToken` | nakli-hub/internal/storage/crate_pairing.go:136-182 | succeeds exactly when the token exists, is neither cancelled nor redeemed and has not expired, and then records the caller; otherwise names the first obstacle in that order and changes nothing |
| `CratePairing.PairingStore.CancelCratePairingToken` | nakli-hub/internal/storage/crate_pairing.go:186-209 | cancels an open token, reports a redeemed or unknown one, and is a no-op on a cancelled one |
| `CratePairing.SingleUse` | nakli-hub/internal/server/handlers_crate_pairing.go:218-289 | with any number of redeemers and cancellers interleaved between statements at most one caller wins a secret; the row names that caller and capability now and for ever, is not cancelled, and its recorded time, read before the UPDATE, is not after its expiry |
| `CratePairing.ArrivalsAreExact` | nakli-hub/internal/storage/crate_pairing.go:45-68 | issuing a new secret adds a free token with its bucket and expiry; a taken secret, a new redeemer and a new canceller change no token |
| `CratePairing.RedeemerStatements` | nakli-hub/internal/server/handlers_crate_pairing.go:218-289 | each statement of a redeemer in terms of the row alone: which answer, which step next, and the one write |
| `CratePairing.CancellerStatements` | nakli-hub/internal/storage/crate_pairing.go:186-209 | each statement of a canceller in terms of the row alone |
| `CratePairing.UndisturbedRedeemerWins` | nakli-hub/internal/server/handlers_crate_pairing.go:218-289 | an undisturbed redeemer of a free, unexpired token gets its capability and is named in the row |
| `CratePairing.RedeemedHasItsCaller` | nakli-hub/internal/storage/crate_pairing.go:136-182 | a redeemed row always has its one caller, who holds or is about to receive the capability |
| `CratePairing.AnswersAreTruthful` | nakli-hub/internal/server/handlers_crate_pairing.go:218-289 | what `already redeemed`, `cancelled`, a 500 and a finished cancel say of the token is true of it from then on |
| `CratePairing.AnswersWereTrueWhenGiven` | nakli-hub/internal/server/handlers_crate_pairing.go:218-289 | every answer, `not found` and `expired` included, was true of the table at the statement that gave it |
| `CratePairing.CancelSucceedsUnlessOvertaken` | nakli-hub/internal/storage/crate_pairing.go:186-209 | a canceller past its lookup always reports success; the token is cancelled exactly when no redeemer took it in between |
| `CratePairing.OvertakenCancelExists` | nakli-hub/internal/storage/crate_pairing.go:186-209 | such a run exists: a cancel reports success and the capability is handed out |
| `WorkerPairing.PairRedemption.Fetch` | nakli-cf-worker/src/pair-redemption-do.ts:48-79 | the first claim is stored and granted, every later one is told the first |
| `WorkerPairing.SingleUse` | nakli-cf-worker/src/worker.ts:1068-1100 | however stale the KV reads, at most one caller per secret ever gets a capability, and the Durable Object names that caller and the issue time from then on |
| `WorkerPairing.WonOnAGoodRead` | nakli-cf-worker/src/worker.ts:1082-1098 | a capability is handed out only for a record that the caller read uncancelled, unredeemed and unexpired, and for that record's bucket |
| `WorkerPairing.GoodReadsWin` | nakli-cf-worker/src/worker.ts:1082-1098 | such a read always leads to the claim, and, unclaimed and undisturbed, to the capability for that bucket, issued at the time of the claim |
| `WorkerPairing.RefusalsMeanTheRead` | nakli-cf-worker/src/worker.ts:1082-1098 | each refusal means what was read, or that another claim came first |
| `WorkerPairing.ClaimIsDecisive` | nakli-cf-worker/src/pair-redemption-do.ts:62-77 | a caller reaching the object wins exactly when no one claimed the secret before; a claimed secret always has its holder |
| `RateLimit.RateBucket.Take` | nakli-hub/internal/server/runtime.go:23-46 | tokens afterwards plus the one taken are the smaller of the capacity and old tokens plus capacity/window times the elapsed time, none for a clock that stepped back, and the call is allowed exactly when that is at least one |
| `RateLimit.UncutRunsBalance` | nakli-hub/internal/server/runtime.go:23-46 | over any run in which no refill is cut at the capacity, calls allowed plus tokens left equal the tokens held plus capacity/window times the growth of lastRefill |
| `RateLimit.NewBucketIsFull` | nakli-hub/internal/server/runtime.go:49-66 | a new bucket allows its whole capacity at once and refuses the next call of that moment |
| `RateLimit.BucketBound` | nakli-hub/internal/server/runtime.go:23-46 | over any run, clock steps back included, calls allowed plus tokens left are at most the tokens held plus rate times the growth of lastRefill |
| `RateLimit.WindowBound` | nakli-hub/internal/server/runtime.go:23-46 | so at most (w + 1) N calls while lastRefill grows by w windows: 2N in one |
| `RateLimit.SpacedCallsAreNeverRefused` | nakli-hub/internal/server/runtime.go:23-46 | calls at least window/N apart are never refused, when the first finds a token held or comes that long after the last refill |
| `RateLimit.NewCallersAreNeverRefused` | nakli-hub/internal/server/runtime.go:49-66 | so a caller that spaces its calls is never refused, from the call that creates its bucket on |
| `WorkerRate.RateBuckets.RateConsume` | nakli-cf-worker/src/worker.ts:106-133 | answers and leaves the Map as one call on the list of entries does: found or new bucket moved to the back, the oldest evicted above the cap, then refill and token |
| `WorkerRate.ConsumeBalance` | nakli-cf-worker/src/worker.ts:106-133 | a grant that comes back with the same limit goes on with its bucket, any other call starts a full one; that bucket's account decides, and the bucket left is the newest entry |
| `WorkerRate.MapIsNewestOfRecency` | nakli-cf-worker/src/worker.ts:103-133 | after any calls the Map holds exactly the cap most recently used grants in order of last use |
| `WorkerRate.SurvivesByReuseDistance` | nakli-cf-worker/src/worker.ts:103-133 | a called grant's bucket survives exactly while fewer than cap distinct other grants were called since |
| `WorkerRate.BoundedIsUnboundedWithinReuse` | nakli-cf-worker/src/worker.ts:103-133 | on call sequences within that reuse bound every answer is that of an unbounded per-grant map |
| `WorkerRate.WorkerMap` | nakli-cf-worker/src/worker.ts:103-133 | the same at the Worker's own cap of 10000: never more buckets, the most recently used ones, and an unbounded map to callers within the reuse bound |
| `TimeText.CivilOf` | nakli-hub/internal/storage/storage.go:118 | civil dates of second counts: the date found has exactly that many seconds since year 0 and is valid through year 9999 |
| `TimeText.TextOrderIsTimeOrder` | nakli-hub/internal/storage/idempotency.go:55-60 | RFC3339Nano texts of UTC instants in years 0000 to 9999 sort as their times, except within one second when one trimmed fraction is a proper prefix of the other, and there the order is reversed |
| `TimeText.PrintLayout` | nakli-hub/internal/storage/storage.go:118 | the text is YYYY-MM-DDTHH:MM:SS of the civil time, the fraction after a point if there is one, and Z |
| `TimeText.FractionIsExact` | nakli-hub/internal/storage/storage.go:118 | the fraction is the nine digits of the nanoseconds without the zeros at the end |
| `TimeText.MonthTable` | nakli-hub/internal/storage/storage.go:118 | the days before each month, leap years included |
| `Idempotency.IdempotencyStore.LookupIdempotency` | nakli-hub/internal/storage/idempotency.go:46-76 | fresh, replay or conflict by the stored row, its expiry text and the payload hash; empty key or grant is refused |
| `Idempotency.IdempotencyStore.PutIdempotency` | nakli-hub/internal/storage/idempotency.go:82-99 | replaces the row of the key and grant, expiring the configured seconds later, 86400 when they are not positive |
| `Idempotency.IdempotencyStore.DeleteExpiredIdempotency` | nakli-hub/internal/storage/idempotency.go:102-109 | keeps exactly the rows whose expiry text is above the clock's and counts the others |
| `Idempotency.IdempotencyStore.Serve` | nakli-hub/internal/server/middleware.go:257-323 | the middleware's answer and table for one request: the handler runs only on a fresh lookup and is recorded only on a 2xx status |
| `Idempotency.HandleIsExact` | nakli-hub/internal/server/middleware.go:257-323 | one request in terms of its slot's row: refused without key or grant, answered from a live row, otherwise run, and stored exactly on a status of 200 to 299, until the retention (86400 seconds when not positive) after the handler |
| `Idempotency.SweepIsExact` | nakli-hub/internal/storage/idempotency.go:102-109 | a sweep removes exactly the rows whose expiry text is not above the clock's |
| `Idempotency.TextExpiredExactly` | nakli-hub/internal/storage/idempotency.go:55-60 | a row reads as expired exactly when its expiry has come, inverted within the expiry's second when one fraction is a prefix of the other |
| `Idempotency.PrintedSecondsDecide` | nakli-hub/internal/storage/storage.go:118 | RFC3339Nano text decides every pair of instants in different seconds, which is what the statements in whole seconds ask of the format |
| `Idempotency.EveryRowIsExplained` | nakli-hub/internal/storage/idempotency.go:46-109 | in every run a slot's row is that of its last recorded handler run, and is gone exactly when a sweep since then found it expired; any clock, any format |
| `Idempotency.AnswerIsExact` | nakli-hub/internal/server/middleware.go:287-323 | after a slot's last recorded run a request's handler runs exactly when the request, or a sweep in between, finds that row expired; otherwise it gets the stored response or, for another payload, a conflict |
| `Idempotency.HandlerRunsWhenReadAsDue` | nakli-hub/internal/server/middleware.go:287-323 | the same to the nanosecond for RFC3339Nano text: exactly when one of those readings comes at or after the expiry, inverted within the expiry's second when one fraction is a prefix of the other |
| `Idempotency.RecordedRunsAreRetentionApart` | nakli-hub/internal/server/middleware.go:287-323 | under a clock that does not step back, two recorded handler runs of one key and grant are at least the configured seconds apart, 86400 when they are not positive, in whole seconds, wherever the collector ran |
| `Idempotency.RequestsBetweenAreAnswered` | nakli-hub/internal/server/middleware.go:287-323 | after any recorded run every request of the slot gets exactly the stored response, or a conflict for another payload, without its handler, as long as no sweep and no request of the slot, itself included, finds the row expired |
| `Idempotency.RetentionHoldsInSeconds` | nakli-hub/internal/server/middleware.go:287-323 | which under a clock that does not step back lasts until the second the configured seconds (or 86400) after the handler |
| `Idempotency.RetentionEndsInSeconds` | nakli-hub/internal/server/middleware.go:287-323 | after that second, with no recorded run in between, a request runs its handler |
| `Idempotency.FirstRequestRuns` | nakli-hub/internal/server/middleware.go:287-323 | so does a request whose slot has no recorded run yet |
| `Idempotency.EarlyExpiryExists` | nakli-hub/internal/storage/idempotency.go:55-60 | a row expiring d tenths after a second reads as expired on the second and as live e < d tenths later |
| `Idempotency.EarlyRerunExists` | nakli-hub/internal/server/middleware.go:287-323 | so there is a run with two recorded handler runs of one slot less than the retention apart |
| `IdempotencyCollector.WhenSweepsShow` | nakli-hub/internal/storage/idempotency.go:102-109 | the collector changes some answer exactly when a row one of its sweeps finds expired reads as live again at a later request of the slot; any clock, any format |
| `IdempotencyCollector.CollectorIsInvisible` | nakli-hub/internal/storage/idempotency.go:102-109 | under a clock that does not step back it changes no answer, provided no sweep falls into the second of some row's expiry |
| `IdempotencyCollector.VisibleSweepExists` | nakli-hub/internal/storage/idempotency.go:102-109 | in that second it can: a run of a request, a sweep and the request again whose last answer the sweep changes |
| `Caveats.ParsePositiveInt` | nakli-hub/internal/server/caveats.go:262-278 | the digit loop with its 64-bit wrap-around is the wrapped value of the numeral, refused when empty, not all digits or not positive |
| `Caveats.ParseListBracket` | nakli-hub/internal/server/caveats.go:348-360 | the loop yields the non-empty trimmed items between optional brackets |
| `Caveats.EvaluateCaveats` | nakli-hub/internal/server/caveats.go:76-130 | the loop stops at the first caveat that fails, with its kind and the rate calls made so far |
| `CaveatAgreement.ListRoundTrip` | nakli-hub/internal/server/caveats.go:348-360 | reading a printed list of trimmed, comma-free items gives it back, under either white space |
| `CaveatAgreement.PrintedLists` | fabric-sdk-js/src/grants.js:127-160 | a list prints between brackets with a comma and a space between items |
| `CaveatAgreement.NumberRoundTrip` | nakli-hub/internal/server/caveats.go:262-278 | both number parsers undo decimal printing of positive 63-bit numbers |
| `CaveatAgreement.PrintedHead` | fabric-sdk-js/src/grants.js:127-160 | every printed caveat takes its own branch of the evaluators' keyword chain and no earlier one |
| `CaveatAgreement.PrintedMeaning` | fabric-sdk-js/src/grants.js:127-160 | the Hub reads every printed well-formed caveat as its meaning; so does the Worker, except a `time >` caveat of the millisecond just begun, which it refuses |
| `CaveatAgreement.EvaluatorsAgree` | nakli-cf-worker/src/caveats.ts:49-195 | on every list of well-formed caveats the SDK prints, the Hub's verdict is that of the caveats' direct meaning, and the Worker gives the same verdict, first failing caveat, kind and rate calls except exactly when evaluation reaches a `time >` caveat of the millisecond just begun |
| `CaveatAgreement.SubMillisecondClocks` | nakli-cf-worker/src/caveats.ts:63-67 | between milliseconds they part exactly on a `time >` caveat of the millisecond just begun |
| `CaveatEdges.UnknownCaveatsFail` | nakli-hub/internal/server/caveats.go:127-129 | a caveat that begins with no known keyword and is no known word fails in both evaluators |
| `CaveatEdges.EvaluationTrims` | nakli-cf-worker/src/caveats.ts:49-54 | both evaluators look at the trimmed caveats |
| `CaveatEdges.TimesAreCompared` | nakli-hub/internal/server/caveats.go:132-160 | a time that does not parse fails; one that does is compared with the clock |
| `CaveatEdges.GoNumbersWrap` | nakli-hub/internal/server/caveats.go:262-278 | the Hub reads a numeral modulo 2^64 as a signed integer that must be positive |
| `CaveatEdges.GoNumbersAreDigits` | nakli-hub/internal/server/caveats.go:262-278 | and nothing but digits |
| `CaveatEdges.JsNumbersAreLenient` | nakli-cf-worker/src/caveats.ts:128-141 | the Worker reads a numeral up to the first character that is no digit |
| `CaveatEdges.JsNumbersMayBeNegative` | nakli-cf-worker/src/caveats.ts:128-141 | after a minus sign as a negative number, which its callers refuse |
| `CaveatEdges.HubRateCases` | nakli-hub/internal/server/caveats.go:223-246 | a rate caveat on the Hub: malformed it fails without a call, without server or grant it passes without one, otherwise one call for the grant, its number and window decides |
| `CaveatEdges.WorkerRateCases` | nakli-cf-worker/src/caveats.ts:128-141 | a rate caveat on the Worker: malformed it fails without a call, otherwise one call decides |
| `CaveatEdges.AmountCases` | nakli-hub/internal/server/caveats.go:281-301 | an amount caveat binds bridge calls only and needs two words, a positive number not below the amount and the currency |
| `CaveatEdges.DomainCases` | nakli-hub/internal/server/caveats.go:303-317 | a domain caveat binds bridge calls only and needs a domain on its list; only the Hub trims the request's |
| `CaveatEdges.DischargeCases` | nakli-hub/internal/server/caveats.go:324-345 | a discharge caveat needs its discharge attached or cached; without a server the Hub passes it |
| `CaveatEdges.BracketsAreOptional` | nakli-hub/internal/server/caveats.go:348-360 | the brackets of a list are optional, one by one |
| `Grants.Contains` | nakli-hub/internal/server/scope.go:139-146 | membership |
| `Grants.CheckAuthIsExact` | nakli-hub/internal/server/scope.go:30-72 | out of scope exactly for another primitive, another named namespace or an operation not listed, where the grant names any; otherwise the caveats decide, rate calls counted against this grant |
| `Grants.MissingCaveats` | nakli-hub/internal/server/handlers_grant.go:17-37 | the first parent caveat, neither blank nor an expiry, whose trimmed text the child lacks; empty exactly when it lacks none (with NothingMissing) |
| `Grants.MissingIsFirst` | nakli-hub/internal/server/handlers_grant.go:17-37 | what is reported missing is the first such parent caveat, trimmed |
| `Grants.MissingMeansLacks` | nakli-hub/internal/server/handlers_grant.go:17-37 | written out: something is missing exactly when some parent caveat, trimmed neither blank nor beginning with `time < `, is no trimmed caveat of the child |
| `Grants.NothingMissing` | nakli-hub/internal/server/handlers_grant.go:17-37 | the check passes exactly when every such parent caveat is carried |
| `Grants.CheckNarrowing` | nakli-hub/internal/server/handlers_grant.go:97-138 | the refusals of a child's scope and caveats against its parent's, in the handler's order |
| `Grants.MintIsExact` | nakli-hub/internal/server/handlers_grant.go:60-138 | a grant is minted exactly for a complete request of an authorized caller that has no parent (unless one is demanded) or fits a readable, genuine parent's fields and carries all its caveats that are neither blank nor an expiry |
| `Grants.MintedGrant` | nakli-hub/internal/server/handlers_grant.go:139-175 | the minted grant has the new id, the scope asked for and the caveats asked for behind its expiry; its caller's primitive is empty or grant, its operations are empty or contain mint, and its caveats pass for a mint |
| `Grants.MintRefusals` | nakli-hub/internal/server/handlers_grant.go:60-138 | the error of every refused mint, in the order of the checks |
| `Grants.NonDelegatableCallersDoNotDelegate` | nakli-hub/internal/server/caveats.go:103-106 | a caller with a `nondelegatable` caveat mints no child of any parent |
| `Grants.DelegationNarrows` | nakli-hub/internal/server/handlers_grant.go:97-138 | at any depth of minting, a request the leaf authorizes is in every ancestor's scope and passes all its caveats other than expiry and rate, given that no step empties the operations list and no ancestor has a blank caveat |
| `Grants.ScopeNarrowsExactly` | nakli-hub/internal/server/scope.go:36-54 | a minted child's scope is inside its parent's exactly when it does not empty a non-empty operations list |
| `Grants.EmptiedOperationsWiden` | nakli-hub/internal/server/handlers_grant.go:124-132 | a minted child that empties it is authorized for any other operation, which is outside its parent's scope |
| `Grants.CaveatsNarrowExactly` | nakli-hub/internal/server/handlers_grant.go:17-37 | a minted child's caveats imply its parent's, expiry and rate aside, exactly when the parent has no blank caveat or the child admits no request |
| `Grants.BlankCaveatIsDropped` | nakli-hub/internal/server/handlers_grant.go:22-27 | a parent with a blank caveat authorizes nothing, yet a child without it passes the narrowing checks |
| `Grants.BlankCaveatWidens` | nakli-hub/internal/server/handlers_grant.go:22-27 | such a minted child that is authorized for a request, of a parent that admits none |
| `Grants.ChildOutlivesExactly` | nakli-hub/internal/server/handlers_grant.go:139-165 | a minted child admits some request after its parent's expiry, when the parent admits none, exactly when the caveats asked for admit one between the two expiries; never when the child's expiry is not later |
| `Grants.ChildOutlivesParent` | nakli-hub/internal/server/handlers_grant.go:139-165 | such a child, authorized at any moment between the two expiries, when its parent is not |
| `Grants.RefreshCaveats` | nakli-hub/internal/server/handlers_crate_pairing.go:340-350 | the loop replaces the expiry caveats by one fresh one and keeps the others, trimmed |
| `Grants.RefreshKeepsAuthority` | nakli-hub/internal/server/handlers_crate_pairing.go:321-390 | a refreshed capability gives every request before both expiries the verdict, failing caveat and rate calls of the old one |
| `Grants.RefreshIsExact` | nakli-hub/internal/server/handlers_crate_pairing.go:340-350 | a refreshed list without rate limits admits a request exactly before its new expiry and when every caveat but the old expiries passes |
| `SigV4.UriEncodeSegment` | nakli-hub/internal/crate/sigv4.go:259-275 | the byte loop is the percent encoding of the segment |
| `SigV4.ByteEncodingIsExact` | nakli-hub/internal/crate/sigv4.go:259-275 | letters, digits and -._~ stand for themselves, every other byte for a percent sign and two capital hexadecimal digits |
| `SigV4.DecodeUndoesEncode` | nakli-hub/internal/crate/sigv4.go:259-275 | percent decoding gives the bytes back, so the encoding is injective |
| `SigV4.CanonicalQuery` | nakli-hub/internal/crate/sigv4.go:203-227 | the string joins a sorted list that holds exactly the query's encoded names and values, each as often as the query says it, in whatever order the map is walked |
| `SigV4.SortedMeansAscending` | nakli-hub/internal/crate/sigv4.go:216-221 | sorted means ascending by encoded name, then by encoded value, in byte order |
| `SigV4.CanonicalQueryIsExact` | nakli-hub/internal/crate/sigv4.go:203-227 | two queries have the same canonical string exactly when they hold the same multiset of names and values, an empty list counting as one empty value |
| `SigV4.CanonicalPath` | nakli-hub/internal/crate/sigv4.go:190-199 | splits at slashes, encodes each piece and joins, the empty path becoming a slash |
| `SigV4.CanonicalPathIsExact` | nakli-hub/internal/crate/sigv4.go:190-199 | two paths have the same canonical path exactly when they are equal, or one is empty and the other the root |
| `SigV4.CanonicalPathDecodes` | nakli-hub/internal/crate/sigv4.go:190-199 | the canonical path decodes to the path, the empty one to the root, with the same number of slashes |
| `SigV4.HeaderValueIsWords` | nakli-hub/internal/crate/sigv4.go:279-297 | a collapsed value is the words of the trimmed text, between blanks and tabs, joined by single spaces |
| `SigV4.HeaderValueKeepsTheRest` | nakli-hub/internal/crate/sigv4.go:279-297 | only spaces and tabs are touched: the other characters stay in their order, no tab is left and no two spaces stand together |
| `SigV4.CollapseWS` | nakli-hub/internal/crate/sigv4.go:279-297 | the flag loop computes the collapsed value of the trimmed text |
| `SigV4.HeaderValueIsExact` | nakli-hub/internal/crate/sigv4.go:279-297 | two header values collapse to the same text exactly when, trimmed, they have the same words between blanks and tabs |
| `Ulid.TimeBytes` | nakli-cf-worker/src/crate-bucket.ts:320-322 | the six bytes of the clock, most significant first, modulo 2^48 |
| `Ulid.Pack` | nakli-cf-worker/src/crate-bucket.ts:330-344 | the accumulator loop with 32-bit wrap-around writes exactly 26 symbols whose value is four times that of the sixteen bytes |
| `Ulid.GenerateUlid` | nakli-cf-worker/src/crate-bucket.ts:318-345 | the identifier of a time and ten random bytes is such a text |
| `Ulid.AlphabetIsExact` | nakli-cf-worker/src/crate-bucket.ts:319 | digits and capital letters without I, L, O and U, ascending |
| `Ulid.UlidBytesAreExact` | nakli-cf-worker/src/crate-bucket.ts:320-323 | the six time bytes name the clock, most significant first, and the random bytes follow |
| `Ulid.UnpackUndoesPack` | nakli-cf-worker/src/crate-bucket.ts:318-345 | the text gives its sixteen bytes back |
| `Ulid.TextOrderIsByteOrder` | nakli-cf-worker/src/crate-bucket.ts:318-345 | the text order is the byte order of what is packed, and equal texts pack equal bytes |
| `Ulid.LaterSortsLater` | nakli-cf-worker/src/crate-bucket.ts:318-345 | identifiers of later milliseconds below 2^48 sort later, whatever the random bytes |
| `Fif.ParseIsLossless` | fabric-sdk-go/identity/fif.go:132-190 | an accepted file is its header bytes followed by its body, its header is acceptable, and nothing is unlocked |
| `Fif.ParseIsExact` | fabric-sdk-go/identity/fif.go:132-190 | exactly which files are accepted, which are refused as an unsupported envelope and which as malformed |
| `Fif.NewIsExact` | fabric-sdk-go/identity/fif.go:98-127 | a new file is unlocked under its passphrase, holds the inner file given and has nothing written |
| `Fif.UnlockIsExact` | fabric-sdk-go/identity/fif.go:195-216 | a no-op when unlocked, otherwise derive, open and read, each failure with its error and no change |
| `Fif.SerializeIsExact` | fabric-sdk-go/identity/fif.go:221-262 | refused when locked, otherwise length, header with the fresh nonce and sealed body, which are kept |
| `Fif.Fif.UnlockWith` | fabric-sdk-go/identity/fif.go:195-216 | a no-op when unlocked; otherwise derives, decrypts and reads, failing with the error of the first step that fails and changing nothing then |
| `Fif.Fif.SerializeTo` | fabric-sdk-go/identity/fif.go:221-262 | refused when locked; otherwise writes header bytes and ciphertext under the fresh nonce and keeps exactly those |
| `Fif.Fif.LockUp` | fabric-sdk-go/identity/fif.go:266-272 | drops the key and the inner file and leaves the old key array all zero |
| `Fif.RunKeepsInvariant` | fabric-sdk-go/identity/fif.go:98-272 | over every run the cached key is the one of its passphrase, the fields in memory parse back to themselves and what was written still opens |
| `Fif.LastWrittenUnlocks` | fabric-sdk-go/identity/fif.go:98-272 | the last bytes written parse and unlock, under the passphrase of their key, to the inner file of that moment; refused exactly for a foreign inner format |
| `Fif.FieldsBelongTogether` | fabric-sdk-go/identity/fif.go:221-262 | once serialized or parsed, nonce, header bytes and body in memory always belong together |
| `Fif.RelockingRestores` | fabric-sdk-go/identity/fif.go:195-272 | lock then unlock goes back to what was last written, whatever was edited since |
| `Fif.UnwrittenIsLost` | fabric-sdk-go/identity/fif.go:98-216 | a new file locked before its first Serialize cannot be unlocked |

## Left out

- Blobs, files, HTTP, JSON and SQL text, KV and R2 timing, mDNS, logging: only the state changes and guards are modelled.
- Events: appended_at, device, payload location and size columns are carried by no decision and are not modelled.
- Strings are sequences of bytes (of code points in the caveat modules); a nil and an empty byte slice are one value.
- Sync: the wire is assumed to keep payload_metadata byte for byte (a re-marshal on pull can compact it), and a pull carries no appended_by_grant_id.
- HashChain.TamperEvidence: supposes that all digests have one length, as SHA-256's do.
- HashChain.WritesBreakExactly: supposes that no digest is empty.
- Convergence.ExchangeConverges: supposes that shared event ids lie in the same stream.
- Convergence.HandlerRunsArePortable: texts are valid UTF-8 and vector clocks 64-bit, as the JSON decoder delivers them.
- The Hub's rateConsume keeps its buckets in a library LRU cache; only the bucket itself is modelled for the Hub.
- RateLimit.BucketBound: token counts are reals, so float64 rounding is not modelled; capacity and window are fixed per bucket.
- Grants with two different rate caveats reset each other's bucket (it is keyed by grant alone); the agreement theorem takes the bucket as an oracle of the call history.
- Idempotency: requests are atomic; two concurrent requests with one key may both run the handler.
- Idempotency.RecordedRunsAreRetentionApart: in whole seconds, because sub-second retention is false of the code (EarlyRerunExists); HandlerRunsWhenReadAsDue has the exact form.
- CaveatAgreement.EvaluatorsAgree: case folding is taken as ASCII folding on ASCII domains and currencies, and numbers are taken below 2^53; Unicode folding differs between Go and JavaScript.
- Caveats: JavaScript's parseInt is exact here; rounding above 2^53 is not modelled.
- Macaroon signing and verification: a parent grant enters as absent, badly encoded, badly signed, unparsable or parsed.
- The Worker's own mint, scope check and pairing cancel, and its history hash, which differs from the Hub's; no agreement of hashes or of path encodings between Hub and Worker is claimed.
- Pairing handlers: the request's version and empty fields are refused before the steps modelled; the scope and caveats of the capability handed out are not modelled, only its bucket, id and holder.
- A retention so large that seconds overflow 64-bit nanoseconds is not modelled, nor a rate of zero or less, which no caveat can ask for.
- Worker pairing: what KV returns is arbitrary, so a cancellation there is not guaranteed to be seen.
- Canonical headers beyond their values, signing keys and signatures of sigv4.go.
- Sorting is modelled by insertion; only the sorted result matters, since the order is total.
- Fif: failed writes during Serialize (the nonce is then changed and the body is not), a nil inner file given to NewFIF, and the inner file's aliasing with its caller; the JavaScript class differs only in the error it gives for unlocking a file never written.
- Device pairing, bridge adapters, CLI, conformance runner, backup, configuration and browser code: thin, or I/O.
