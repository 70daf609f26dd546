# Verified model of the IGRA RPC provider

The provider accepts Ethereum transactions over JSON-RPC, wraps each one in a payload of a Kaspa
transaction, searches for a nonce that gives that transaction an id with a configured prefix, and
hands it to a wallet daemon for signing and broadcast. This project models that path in Dafny, from
the client's request to what the daemon is asked to sign, together with the concurrent parts around
it, and proves what holds for every input, every run and every interleaving.

`dafny verify dfyconfig.toml` checks the whole project.

## How the model is organised

- `Primitives`, `Bytes`, `Hex`, `Json`: fixed-width integers as subset types, byte encodings, hex
  text, JSON values.
- `Kaspa`: the transaction, with the id hash and the version rule for input masses as arbitrary
  functions (`Library`). `SignableTransaction` is the object mining edits; its id is a cache that
  only `Finalize` refreshes.
- `Mining`: the nonce search, four rounds of 2^32 nonces with an output lowered by one between
  rounds. A `Slot` is a position of the search: a round and a nonce.
- `Lane`, `LaneConfig`: the KIP-21 gate and the configuration it comes from.
- `WalletCodec`: the daemon's messages to Kaspa transactions and back.
- `Payload`: the IGRA payload layout, compression, and Entry data.
- `Submission`: the flow that joins the four modules above, for an arbitrary daemon.
- `WsBatch`, `WsConnection`: the WebSocket batch window and the connection's permits.
- `BatchOrder`: the order in which raw transactions of one batch reach the queue.
- `AcceptPath`, `TransactionQueue`: validation, the bounded queue and the worker.
- `FeeFloor`, `FeeCache`: fee-oracle flooring and the one-second cache.
- `Admission`: cache and queue together: what fees an accepted transaction is known to pay.
- `Retry`, `Metrics`: backoff and the retry loop; streaming top-N, window purge, capacity.
- `EndToEnd`: the worker's call to the wallet, composed of payload, retries and submission, and the
  hash a client was given as the hash of what a chain reader recovers.

Code that updates state is a class or a method with loops, proved against specification functions;
protocols are step functions with invariants over all runs. Foreign code (the id hash, zlib, the
envelope decoder, the 256-bit parser, the printer of JSON values, the daemon, the clock and random
draws) enters as a parameter, with an assumption only where a theorem names one.

## Where code and documentation differ

- `nonces_tried` is documented as the number of nonces tried; it is the winning nonce of the last
  round (`Mining.ReportedNoncesUndercount`).
- The cache is described as holding the last computed fee; with two callers an older reply can be
  written last (`FeeCache.LatestReplyNeedsSequentialCalls`), though not while calls do not overlap
  (`FeeCache.SequentialCallsCacheLatest`).
- Doubling backoff stops doubling in one corner of the configuration space (`Retry.BackoffIsExact`).
- The hex-decoding error of the accept path answers with the printed request id as a string rather
  than the id itself (`AcceptPath.ReplyIdIsExact`).
- The fallback is meant to create variance; `Mining.FallbackVariance` and
  `Mining.RetriesNeedAValue` say exactly when it does not.

## Model

| member | source | states |
|---|---|---|
| `Mining.MineBlocking` | src/services/mining.rs:472-613 | Terminates for every id function; whenever one of the four rounds has an id that begins with the prefix, answers the first in (round, nonce) order, with the transaction holding exactly that candidate and a fresh cached id that begins with the prefix; otherwise exhaustion; and how many ids it computed |
| `Mining.ExhaustionIsExact` | src/services/mining.rs:545-589 | Exhaustion is reported iff no nonce of any of the four output variants has an id that begins with the prefix; a mined id is fresh and does |
| `Mining.FirstInRoundNonceOrder` | src/services/mining.rs:509-546 | No id before the winner, in an earlier round or at a smaller nonce of its round, begins with the prefix |
| `Mining.MiningIsDeterministic` | src/services/mining.rs:472-613 | Two outcomes of mining one transaction are the same result and the same transaction |
| `Mining.ReportedNoncesUndercount` | src/services/mining.rs:522-523 | On success and in the exhaustion error, the reported count falls short of the ids the search computed by one plus 2^32 per round given up, so it is never that count |
| `Mining.MiningFrame` | src/services/mining.rs:484-511 | Only the last four payload bytes and output values differ from the original; the bytes are the big-endian nonce; scripts and output count stay |
| `Mining.NonceTail` | src/services/mining.rs:509-515 | The written payload is the message followed by the four bytes of the nonce, most significant first |
| `Mining.FallbackClosedForm` | src/services/mining.rs:592-611 | After any number of rounds each output has lost one unit per visit, stopping at zero |
| `Mining.FallbackConservesTotal` | src/services/mining.rs:592-611 | The total drops by exactly the number of rounds whose selected output was positive |
| `Mining.MiningConservesValue` | src/services/mining.rs:592-611 | A whole run takes at most three units from the outputs and never adds any |
| `Mining.FallbackVariance` | src/services/mining.rs:591-611 | A round repeats the candidates of the round before iff its fallback found nothing to lower |
| `Mining.RetriesNeedAValue` | src/services/mining.rs:591-611 | No fallback can lower a value iff, for every id function and prefix, the whole search succeeds iff its first round does |
| `Lane.PrefixIsNeverVacuous` | src/services/lane.rs:57-66 | The constructor accepts exactly the prefixes that some id fails to have |
| `Lane.PayloadBoundIsExact` | src/services/lane.rs:77-86 | The minimum length is exactly the bound at which mining leaves some message |
| `Lane.GateNamesFirstFailure` | src/services/lane.rs:120-191 | The gate passes iff its stage's invariants hold, and otherwise names its stage and the first failing one |
| `Lane.MiningCommutesWithGate` | src/services/lane.rs:120-191 | The second gate asks of a mined transaction what the first asked of the original, plus the prefix |
| `Lane.GateSubsumption` | src/services/lane.rs:120-191 | Passing the first gate and being mined implies passing the second, for every id function |
| `Lane.GateSubsumptionIsExact` | src/services/lane.rs:175-191 | The second gate is redundant in this sense iff the gate's prefix begins the miner's |
| `LaneConfig.AcceptedNamespaces` | src/config/lane.rs:132-178 | Accepted texts are exactly eight lower-case hex digits whose last six are not all zero |
| `LaneConfig.NamespaceErrorIsExact` | src/config/lane.rs:132-178 | Which error a text gets, read off its characters, and otherwise the lane it spells |
| `LaneConfig.NamespaceRoundTrip` | src/config/lane.rs:150-155 | The id is the namespace and sixteen zeros, and its first four bytes print as the input |
| `LaneConfig.NamespaceIsInjective` | src/config/lane.rs:132-178 | Two texts never name one lane |
| `LaneConfig.EnforcementCannotBeLostByAccident` | src/config/lane.rs:92-115 | Enforcement is off iff no lane id is given and the opt-out is set; a given id decides alone, to its lane or its error; without id or opt-out the configuration is refused |
| `WalletCodec.KaspaRoundTrip` | src/types/wallet.rs:47-199 | kaspa to proto to kaspa is the identity iff entries are present, no covenant id is set, masses match the version and the id is current |
| `WalletCodec.TransactionRoundTrip` | src/types/wallet.rs:258-308 | A transaction survives the wire iff every input carries the mass its version wants |
| `WalletCodec.DecodedIsCarried` | src/types/wallet.rs:77-86 | Whatever decodes can be re-encoded, and decoding that gives the same transaction |
| `WalletCodec.DaemonRoundTrip` | src/types/wallet.rs:202-255 | proto to kaspa to proto yields the message's normal form: defaults, lower-case hex, unused mass zeroed, empty entries dropped |
| `WalletCodec.ReencodingIsIdempotent` | src/types/wallet.rs:202-308 | Normalising twice is normalising once |
| `WalletCodec.DecodingAcceptance` | src/types/wallet.rs:101-199 | Exactly which transactions decode; the unused mass field is never looked at |
| `WalletCodec.DecodingErrorIsExact` | src/types/wallet.rs:47-199 | Which error a message that does not decode gets: what it lacks, or the first fault of its version, inputs, outputs, subnetwork or present entries |
| `WalletCodec.EncodingErrorIsExact` | src/types/wallet.rs:311-327 | Encoding fails exactly on a covenant id, and updating an entry that holds no transaction fails |
| `WalletCodec.DecodedFields` | src/types/wallet.rs:47-98 | Every decoded field stands where the message had it, in order |
| `WalletCodec.PresentIsExact` | src/types/wallet.rs:57-98 | The present entries are taken in order with none skipped |
| `WalletCodec.PayloadLenDetectsPayloads` | src/types/wallet.rs:334-345 | The measured length is that of the payload of the transaction inside, however signed, so zero iff none carries a payload |
| `WalletCodec.UpdateProtoWithMinedTransaction` | src/types/wallet.rs:311-327 | Replaces one list entry in place, or fails and leaves the list alone |
| `Payload.SerializePayload` | src/services/transaction.rs:672-700 | Serializes iff the data is non-empty and the version is a nibble; a reader parses back the same payload, behind the type codes 0, 2, 4 and 5 |
| `Payload.ParseIsInjective` | src/services/transaction.rs:666-700 | No two byte strings read as the same payload |
| `Payload.NonceOverwrite` | src/services/transaction.rs:666-700 | Overwriting the last four bytes changes the parsed nonce and nothing else |
| `Payload.WrapLosesNothing` | src/services/transaction.rs:534-564 | The data is the shorter of the transaction and its compression, marked as zipped iff that saves something, and the reader recovers the transaction |
| `Payload.WalletPayload` | src/services/transaction.rs:525-583 | The payload given to the wallet parses as the wrapped transaction |
| `Payload.NewL2Data` | src/services/entry_transaction.rs:67-83 | The 28 bytes are the address and the amount in little-endian |
| `Payload.CreateEntryPayload` | src/services/entry_transaction.rs:190-197 | The Entry payload is serializable and carries the request's address and amount |
| `Payload.EntryDataIsInjective` | src/services/entry_transaction.rs:93-103 | Address and amount determine the Entry data |
| `Submission.CheckStaging` | src/clients/wallet_caller.rs:183-204 | Stops at the first earlier entry that carries a payload, passes iff there is none |
| `Submission.PrepareForMining` | src/clients/wallet_caller.rs:168-225 | The error is that of the first failing check, in the source's order |
| `Submission.GateIsExact` | src/clients/wallet_caller.rs:206-246 | Without enforcement nothing is rejected; with it, a gate passes iff version, subnetwork, payload length and, before broadcast, the prefix are right |
| `Submission.CompleteTransactionFlow` | src/clients/wallet_caller.rs:162-284 | What is handed to signing is the daemon's list with its last entry mined; then a success answers the last id of the broadcast and each daemon-side failure has its exact condition; every earlier failure is named with its cause and leaves the list unchanged; encoding cannot fail |
| `Submission.FlowSuccessIsExact` | src/clients/wallet_caller.rs:162-284 | The flow succeeds iff mining beats the clock and the one list that is handed over is signed and broadcast under some id |
| `Submission.DaemonAnswersOnce` | src/clients/wallet_caller.rs:270-284 | For every daemon exactly one answer is possible once a list is handed over: refused signing, refused broadcast, no ids, or the last id of the broadcast |
| `Submission.BroadcastSafety` | src/clients/wallet_caller.rs:162-270 | With enforcement on, every list handed to signing has payload-free staging entries and a last entry that decodes to a lane transaction whose recomputed id has the prefix |
| `Submission.HandedDecodesToMined` | src/clients/wallet_caller.rs:262-268 | What is handed to signing decodes to exactly the mined transaction |
| `Submission.HandedFrame` | src/clients/wallet_caller.rs:262-268 | All but the last message are the daemon's; the last is the normal form of the daemon's message with payload tail, output values and id replaced, and at most three units of value are missing |
| `Submission.SecondGateNeverRejects` | src/clients/wallet_caller.rs:233-246 | With one prefix configured for gate and miner, the gate before broadcast never rejects |
| `Submission.ReencodingSucceeds` | src/clients/wallet_caller.rs:262-266 | Encoding a mined transaction never fails |
| `Submission.MessageSurvives` | src/clients/wallet_caller.rs:205-266 | A submitted payload is broadcast with the same version, type and data; only the nonce differs, and it is the winning one |
| `Submission.RelayedTransactionSurvives` | src/services/transaction.rs:525-630 | A relayed transaction is recovered byte for byte from the broadcast payload |
| `Submission.EntryRequestSurvives` | src/services/entry_transaction.rs:157-188 | Address and amount of an Entry request are recovered from the broadcast payload |
| `Submission.MessageIsTheDaemons` | src/clients/wallet_caller.rs:206-266 | The broadcast message is the submitted one iff the daemon's last transaction already carried it |
| `Submission.ForeignPayloadIsSigned` | src/clients/wallet_caller.rs:206-268 | For every caller whose gate and miner agree and every payload with another message than the submitted one: a response carrying it is handed to signing iff mining it finds the prefix, and what is handed over carries it |
| `WsBatch.WindowIsWorkConserving` | src/api/ws.rs:341-355 | For every completion order, min(permits, requests - completed) requests run after each completion |
| `WsBatch.CompleteInv` | src/api/ws.rs:350-355 | A completion keeps: started = running or answered, indices distinct, every answer tagged with its request |
| `WsBatch.RunProgress` | src/api/ws.rs:341-355 | No request completes twice, and the window empties iff all have completed |
| `WsBatch.SortingRestoresRequestOrder` | src/api/ws.rs:357-360 | Sorting a finished window's responses puts each at its request's place, none missing |
| `WsBatch.ProcessWsBatch` | src/api/ws.rs:333-363 | For every completion order the array sent is the in-order list of the requests' answers |
| `BatchOrder.QueueOrderIsRequestOrder` | src/api/ws.rs:333-355 | Queue order is request order in every interleaving iff there is one permit or at most one raw transaction; otherwise a later one can overtake |
| `BatchOrder.ServedBatchOrder` | src/api/ws.rs:268-296 | With the permits a batch reserves, its raw transactions are queued in request order in every interleaving iff it has at most one of them |
| `WsConnection.StepInv` | src/api/ws.rs:226-297 | Every arrival, completion, panic, abort and close keeps permits conserved |
| `WsConnection.PermitConservation` | src/api/ws.rs:163-297 | Over every run: available + held = 64, at most 64 requests execute, each batch owns min(len, 64) permits until it ends |
| `WsConnection.NoPermitLeaks` | src/api/ws.rs:166-176 | All permits are back iff nothing is in flight, however tasks ended |
| `WsConnection.AdmissionIsExact` | src/api/ws.rs:231-283 | Exactly when singles and batches are refused; a batch of 64 or more is admitted iff nothing is in flight |
| `WsConnection.InFlightIsAdmittedMinusEnded` | src/api/ws.rs:231-297 | Over every run, the tasks in flight are the requests admitted that have neither ended nor been closed over, in order of admission; each batch holds min(len, 64) permits and the window reached by exactly the completions reported for it |
| `WsConnection.EventsAndReplies` | src/api/ws.rs:163-306 | Over every run: what each arrival is answered by the permits held; a task can finish iff all its requests are answered, and be aborted at any time; a close leaves none in flight and every permit free |
| `WsConnection.WsConnectionTasks.OnBatch` | src/api/ws.rs:254-296 | In-place admission of a batch is the step function's |
| `WsConnection.WsConnectionTasks.OnClose` | src/api/ws.rs:302-306 | Aborting everything returns every permit |
| `AcceptPath.FormatIsWellFormedness` | src/services/transaction.rs:394-453 | The format checks accept exactly hex text of any parity naming 1 to 131072 bytes with a supported first byte that decode |
| `AcceptPath.FormatErrorIsExact` | src/services/transaction.rs:465-517 | Which format error is answered, by what is wrong with the text |
| `AcceptPath.FeeErrorIsExact` | src/services/transaction.rs:831-997 | A given fee error is answered iff the input is well formed, a base fee is known and the transaction deserves that error: wrong fee family first, then a tip above the cap, then the first of its fees below the minimum, with the amounts |
| `AcceptPath.MalformedNeverFetches` | src/services/transaction.rs:296-327 | Malformed input gets the same format error whatever the fee service would say, which is asked iff input is well formed |
| `AcceptPath.AcceptanceIsExact` | src/services/transaction.rs:308-356 | Accepted iff well formed, fee known, envelope in the announced fee family, and its own fees reach the base fee |
| `AcceptPath.FailClosedIsExact` | src/services/transaction.rs:329-341 | The retryable code -32000 is answered iff well-formed input meets a failed fetch |
| `AcceptPath.ErrorCodeIsExact` | src/services/transaction.rs:296-356 | The code of a rejection: -32001 iff the text is not "0x" and hex digits, -32000 iff well-formed input has no base fee, -32602 otherwise |
| `AcceptPath.TypeByteMayDisagree` | src/services/transaction.rs:831-870 | For every decoder: bytes decoded to another variant than their first byte announces are accepted iff the two types share a fee family and the variant's own fees meet the base fee |
| `AcceptPath.LegacyByteMayCarryAccessList` | src/services/transaction.rs:831-870 | Any bytes that start as a legacy transaction are accepted when the decoder reads them, and only them, as an access-list transaction of sufficient price |
| `AcceptPath.NamedBytes` | src/services/transaction.rs:487-517 | The decoded bytes are the unique ones the text names |
| `AcceptPath.ReplyIdIsExact` | src/services/transaction.rs:190-197 | An error reply carries the request's id iff the hex decoded and, past the format checks, the id is not null |
| `TransactionQueue.HashMeansEnqueued` | src/services/transaction.rs:249-294 | A hash is answered iff exactly one entry, with those bytes, is enqueued; otherwise nothing changes |
| `TransactionQueue.StepInv` | src/services/transaction.rs:105-180 | Every client request, worker step and worker death keeps the queue invariant |
| `TransactionQueue.QueueProtocol` | src/services/transaction.rs:88-183 | Over every run: at most 1024 queued, handled in accept order, accepted = handled + in hand + queued (+ lost with a dead worker), counters are the true counts capped at 65535 |
| `TransactionQueue.RunIsRecorded` | src/services/transaction.rs:105-294 | Over every run: one entry accepted per hash answered, in that order and with the bytes its request names; one handled, with its verdict, per finish of the worker; what was taken and not finished is in hand; a dead worker leaves nothing queued |
| `TransactionQueue.WorkerCanMove` | src/services/transaction.rs:105-180 | The worker takes iff it lives, is idle and something is queued, and finishes iff it has something in hand |
| `TransactionQueue.WorkerSeesOnlyValid` | src/api/routing.rs:101-145 | A read-only server never enqueues; any worker sees only well-formed transactions whose own fees reach the floor |
| `TransactionQueue.RefusalIsExact` | src/services/transaction.rs:249-282 | On every run: QueueFull iff the request is acceptable, the worker has not died and exactly 1024 accepted entries are neither handled nor in hand; WorkerGone iff it is acceptable and the worker died earlier; a hash iff it is acceptable and neither holds |
| `TransactionQueue.RejectionIsExact` | src/services/transaction.rs:217-232 | Which rejection a client is answered: each of the three format errors by the text, an unknown base fee, or the fee error the named transaction deserves, each iff |
| `TransactionQueue.RoutingIsExact` | src/api/routing.rs:101-145 | Exactly which methods are refused by the whitelist, refused in read-only mode, or forwarded; none of them touches the queue |
| `TransactionQueue.TransactionProcessor.ProcessTransaction` | src/services/transaction.rs:190-294 | The in-place enqueue is the step function's |
| `TransactionQueue.TransactionProcessor.HandleNext` | src/services/transaction.rs:105-180 | Handling one entry is taking the oldest and counting its verdict |
| `Admission.AcceptedFeesAreCurrent` | src/services/transaction.rs:329-356 | Over every interleaving of cache, clients and worker: an accepted entry's own fees reach max(reply, floor) for a network reply written under a second before the fee service answered |
| `Admission.RequestIsQueueStep` | src/services/transaction.rs:329-356 | With base fees answered by the cache, every request is a step of the queue machine: no answer is below the floor |
| `FeeFloor.PrintParse` | src/services/gas_price.rs:191-198 | Printing a number in hex and parsing it gives the number |
| `FeeFloor.DigitsAreBigEndian` | src/services/gas_price.rs:191-194 | Hex digits mean the big-endian number of the bytes they spell |
| `FeeFloor.ZerosAndCaseDoNotMatter` | src/services/gas_price.rs:191-194 | Leading zeros and upper case make no difference to the number read |
| `FeeFloor.FloorQuantityIsMax` | src/services/gas_price.rs:178-202 | A quantity becomes max(old, floor), anything else is untouched, and flooring twice is flooring once |
| `FeeFloor.QuantityIsExact` | src/services/gas_price.rs:178-194 | The quantities are exactly the strings whose text past the dropped prefixes is not empty and parses |
| `FeeFloor.PrintedIsFloored` | src/services/gas_price.rs:178-202 | Every number below 2^256 printed behind "0x" or "0X", zero included, is a quantity, and flooring its entry gives the printed floor or leaves it alone |
| `FeeFloor.FloorNeverOverflows` | src/services/gas_price.rs:39-45 | The overflow branch is dead for every configured floor |
| `FeeFloor.Response.FloorFeeHistoryValue` | src/services/gas_price.rs:136-170 | The nested in-place loops compute the flooring function |
| `FeeFloor.Response.FloorGasPriceValue` | src/services/gas_price.rs:109-123 | The in-place flooring of a single quantity computes the flooring function |
| `FeeFloor.FeeHistoryByPath` | src/services/gas_price.rs:136-170 | At every path result.reward[i][j] the entry is floored; every leaf and gap at any other path is as before |
| `FeeFloor.GasPriceByPath` | src/services/gas_price.rs:109-123 | Only the value at path result is floored |
| `FeeFloor.OracleAgreesWithValidator` | src/services/gas_price.rs:125-171 | A tip taken from the floored oracle passes the validator iff the network fee does not exceed it, hence always while that fee is at or below the floor |
| `FeeCache.AnswersAreFreshAndFloored` | src/services/gas_price.rs:48-81 | Over every interleaving each answer is max(a network reply, floor), written under a second before, by the last write when the call read the cache |
| `FeeCache.YoungCacheIsUsed` | src/services/gas_price.rs:51-62 | Over every run a call is answered without a fetch iff the last write it could read is under a second old when it checks, and with that fee; otherwise it fetches |
| `FeeCache.StaleCacheFailsClosed` | src/services/gas_price.rs:48-81 | Over every run: a call that found what it read stale is next answered by its own write, with the floored reply its own fetch got after that, unless that fetch fails first |
| `FeeCache.LatestReplyNeedsSequentialCalls` | src/services/gas_price.rs:51-78 | The cache holds the latest reply over all runs of n callers iff n is at most one |
| `FeeCache.SequentialCallsCacheLatest` | src/services/gas_price.rs:51-78 | On any run of any number of callers, as long as no two calls have overlapped, the cache holds the latest reply |
| `FeeCache.GasPriceService.GetEffectiveBaseFee` | src/services/gas_price.rs:48-81 | One undisturbed call: the cached fee if fresh, else the floored reply, stored; errors leave the cache |
| `FeeCache.UndisturbedCall` | src/services/gas_price.rs:48-81 | The undisturbed call is the interleaved machine's call and check, and if stale reply, wait and write, or a failed reply that changes nothing, in a row |
| `Retry.DelayMonotoneAndBounded` | src/config/retry.rs:92-102 | Delays grow with the attempt and never pass the maximum |
| `Retry.BackoffIsExact` | src/config/retry.rs:92-102 | The delay equals min(initial * 2^(attempt-1), max) over unbounded integers, except iff attempt > 64, initial = 1 and max > 2^63 |
| `Retry.JitterWithinQuarter` | src/config/retry.rs:107-127 | Jitter stays within a quarter of the delay, and is dropped when the product overflows |
| `Retry.JitterIsExact` | src/config/retry.rs:107-127 | Jitter is the drawn percentage of the delay rounded down, on the side of its sign, and none when the product overflows |
| `Retry.ValidMeansUsable` | src/config/retry.rs:69-87 | A configuration is valid iff it attempts at least once and its first delay is the initial one, nonzero |
| `Retry.CreateWithRetry` | src/clients/wallet_caller.rs:447-516 | Stops at the first reply that is not a UTXO exhaustion, makes at most max_attempts calls and one fewer sleep, each the jittered backoff |
| `Retry.RetryableIsExact` | src/clients/wallet_caller.rs:421-444 | Tried again are exactly the creation failures with ResourceExhausted or one of three phrases somewhere in the message, whatever its case |
| `Retry.TotalSleepBound` | src/clients/wallet_caller.rs:474-485 | Total sleep is at most 5/4 of the number of sleeps times the maximum delay |
| `Metrics.FixedMinHeap.Push` | src/tools/tx_perf/metrics.rs:550-561 | One push of the content: a full heap replaces some smallest element by a larger item and drops an item that is not larger; so it holds the cap largest latencies pushed so far, on items pushed, none more often than it was |
| `Metrics.FixedMinHeap.ToSortedDesc` | src/tools/tx_perf/metrics.rs:562-567 | What is reported comes from a heap the pushes can lead to: pushed items, none more often than pushed, with the first cap of all pushed latencies sorted descending |
| `Metrics.HeapStep` | src/tools/tx_perf/metrics.rs:556-560 | Replacing a smallest element is inserting into the sorted latencies and dropping the last |
| `Metrics.StreamAgreesWithWindow` | src/tools/tx_perf/metrics.rs:231-240 | Stream and window report the same latencies in the same order |
| `Metrics.ItemsAgreeIffNoAdmittedTie` | src/tools/tx_perf/metrics.rs:550-567 | Whatever smallest elements the heap replaces and however it is laid out, the stream reports the window's list iff no reported latency is shared by two different samples each of which came after fewer than cap samples as slow |
| `Metrics.StreamShowsAdmitted` | src/tools/tx_perf/metrics.rs:550-567 | Every reported item is a sample that came after fewer than cap samples as slow |
| `Metrics.AdmittedCanBeReportedAt` | src/tools/tx_perf/metrics.rs:550-567 | Every sample that came after fewer than cap samples as slow can be reported at any place of its latency |
| `Metrics.TopOneAgrees` | src/tools/tx_perf/metrics.rs:550-567 | A top of one is always the window's, ties included |
| `Metrics.TiedItemsThatFit` | src/tools/tx_perf/metrics.rs:550-567 | Tied samples that all fit: every order of them may be reported, while the window keeps theirs |
| `Metrics.TiesAreReportedDifferently` | src/tools/tx_perf/metrics.rs:562-567 | Among items of one latency the window keeps sample order, while the heap's sort and reversal give exactly the reverse of the order in which it held them |
| `Metrics.SlidingWindowMetrics.PurgeExpired` | src/tools/tx_perf/metrics.rs:89-118 | Each deque loses its longest expired prefix |
| `Metrics.PurgeIsExact` | src/tools/tx_perf/metrics.rs:89-118 | Exactly the expired samples go iff they all come first, as they do in time order |
| `Metrics.CapacityStats.RecordCapacity` | src/tools/tx_perf/metrics.rs:335-342 | Minimum, sum and count are those of everything recorded, with sum and count saturating at the ends of their types |
| `Metrics.CapacityStats.CapacityAvg` | src/tools/tx_perf/metrics.rs:387-392 | Up to 2^64 - 1 records the average is the floor of the true mean, at least the minimum; beyond, it is the saturated sum over the saturated count, cut to 64 bits |
| `EndToEnd.AnsweredHashIsHandled` | src/services/transaction.rs:190-294 | The entry at the position where a hash was answered is handled with that hash |
| `EndToEnd.ProcessWalletCall` | src/services/transaction.rs:525-655 | Succeeds iff the message for the bytes was submitted, created on the first attempt not out of UTXOs, mined, signed and broadcast; answers the hash of the uncompressed bytes; names the failing serialization and the missing wallet |
| `EndToEnd.DeliveryIsUnique` | src/services/transaction.rs:525-640 | One world delivers at most one list for given bytes |
| `EndToEnd.WorkerTurn` | src/services/transaction.rs:105-180 | Taking, processing and counting one entry is the step function's, with success iff the wallet call delivers |
| `EndToEnd.CountedSuccessIsBroadcast` | src/services/transaction.rs:105-180 | On every run a handled entry was counted as a success iff its message went through creation, mining and signing to a broadcast |
| `EndToEnd.DeliveredIsRecovered` | src/services/transaction.rs:525-630 | What a world that puts the submitted payload on the last transaction delivers reads back as the transaction the worker was given |
| `EndToEnd.AnsweredHashIsOnChain` | src/services/transaction.rs:105-180 | On every run: when the worker counted the entry behind an answered hash as a success, a list was signed and broadcast for it, after the answer, from which a chain reader recovers bytes with that hash |

## Left out

- HTTP, WebSocket, gRPC and runtime plumbing, socket tasks and upstream connections: I/O; admissions, completions and channel order are kept as steps.
- The mining timeout: a boolean of the flow (`timedOut`); the gRPC and idle timeouts are failures of the daemon and a close event.
- The contextual `mass` field of the proto transaction: computed inside a library that is not part of this model.
- A transaction id in a message that is not 32 bytes long: the library's constructor does not return; the model gives the decode failure `MalformedTransactionId`.
- The library's own check that a transaction has as many inputs as entries: not part of this model.
- The sort, binary heap and deque of the standard library: sorts are insertion sorts of the same stability, the heap is a sequence with a smallest-element peek, deques are sequences.
- Digit separators and other extras of the 256-bit parser: flooring is proved for every parser that reads printed numbers; the parser given accepts hex digits only.
- Text is a sequence of characters, not bytes: for non-ASCII text the lane parser may report another error class than the source, never another verdict.
- Histograms, transaction rates and other floating-point metrics, log parsing and printing.
- Top errors of the window summary: its tie order comes from a hash map.
- `src/services/wallet_service.rs`, `src/services/gas_manager.rs` and `src/services/transaction_processor.rs`: thin or not part of the built crate.
- Message texts of errors: errors are constructors; JSON-RPC codes are kept for the accept path.
- Metrics.ItemsAgreeIffNoAdmittedTie: speaks of every choice of smallest elements and every layout; the ones the library's binary heap makes are not modelled, so for a given list of tied samples it may happen to agree.
- FeeCache.AnswersAreFreshAndFloored: bounds the age of the write, not of the network reply behind it, which a slow caller can hold for any time.
- TransactionQueue.WorkerSeesOnlyValid: takes from the fee service that a base fee is never below the floor, which `Admission.RequestIsQueueStep` proves of the cache.
- Admission.AcceptedFeesAreCurrent: dates the fee from the fee service's answer; how long the request then takes to reach the queue is not bounded.
- Submission.MessageSurvives: assumes the daemon put the submitted payload on its last transaction, because the code does not check it (`Submission.MessageIsTheDaemons`).
- EndToEnd.AnsweredHashIsOnChain: assumes the same of the daemon, and that the reader inflates what the provider compressed.
- EndToEnd.ProcessWalletCall: the daemon's answers are functions of the payload and the attempt, or of the list; amount and receiving address of the request are not part of this model.
