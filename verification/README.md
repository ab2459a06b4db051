# LNET account abstraction: a verified model

A Dafny model of the ERC-4337 v0.7 stack in this repository, with proofs of what it promises. It follows one UserOperation
from the page that builds it, through the proxy's policy and the bundler, into a bundle, and back through the receipt into
the write log; and it covers the session that carries it and the paymaster that may sponsor it.

- `Bytes`, `Hex`, `Js`, `Abi`, `UserOps`, `Policy`, `Client`: the byte path. Round trips, exact decoding, and the two gates.
- `InsertionMap`, `BundlerMachine`, `BundlerConservation`, `BundlerOverlaps`, `BundlerDraining`, `Bundler`, `Reports`: the
  mempool, the history and the bundling flag, as a state machine over the stretches between `await`s and as an object changed
  in place that follows it, and what it answers.
- `Receipts`, `BundlerReceipts`, `UserOpLog`, `WriteHistory`, `BundlerProxy`: outcomes and the write log.
- `Base64Url`, `SessionCookie`, `SessionExpiry`, `BrowserSession`, `Jwks`, `PrivyClaims`: the session.
- `Paymaster`: layout, hash and validation result.

Environment: hash functions, the MAC, signature recovery, JSON text, percent and UTF-8 decoding, clocks and the answers of
other servers are parameters. Where a property needs something of them, its lemma says so (no collision between the strings
at hand, JSON that reads back, an unforged tag). Times are in milliseconds. `Bundler`, `UserOpLog`, `SessionExpiry`,
`BrowserSession`, `Jwks` and `Paymaster` hold classes whose methods are the source's own updates in place.

What the code does against its own words, or without a word about it:

- Two first-time sends of one hash can both pass the duplicate test, since the test comes before an `await` and the insert
  after it. What that costs depends on when the second one commits: while the first still waits, it takes its place, and order
  and count are off by one; while the first is being submitted, the operation is stranded as well, pending in the history for
  ever unless a third send already awaits its simulation; after the first bundle has ended, the operation is queued a second time. `BundlerOverlaps`
  gives each promise its own exact condition and a guard that keeps them all.
- The normaliser lets negative quantities and byte fields of odd length pass; only the ABI encoder stops such an operation,
  before its hash, so that none is ever held.
- A provider change during a session creation leaves the next user with the first user's hint, and ending a session during one
  lets the hint come back.
- The refetch limit on the key set does not bind after a failed load.
- The receipt index is meant to ignore logs of other contracts, but neither it nor the rescan looks at the address that emitted
  a log; `Receipts.ForeignLogsDecideExactly` says exactly when that matters.
- The paymaster's comment says that its hash covers every field but `paymasterAndData`; it does not cover the account's
  signature, and it does cover the two gas limits inside `paymasterAndData`.
- The two copies of the revert decoder clip with different marks.
- The log of refused writes is called the only record they ever leave. A refused request whose claimed sender is an object with
  a `toString` of its own leaves none, since recording throws; nor do the requests on which the policy itself throws something
  other than a refusal. Their pages are told 500. `BundlerProxy.RowStatusExact` and `Policy.FaultExact` say exactly which.

Run `dafny verify dfyconfig.toml` to check the whole project.

## Model

| member | source | states |
|---|---|---|
| UserOps.NormalizeSerialize | bundler/src/index.js:136-196 | normalising the serialised form of any normalised op with non-negative quantities gives that op back, and exactly those ops can be printed |
| UserOps.NormalizeBrowserForm | examples/privy-google-aa/src/userOp.ts:113-125 | the browser's even-length hex form of an op normalises, at the bundler, to the same op |
| UserOps.NegativeQuantityIsNormalized | bundler/src/index.js:158-167 | the text "-1" passes as a quantity although the error message asks for a uint256; such an op has no ABI encoding and no printed form |
| UserOps.NormalizeExact | bundler/src/index.js:140-182 | the normaliser accepts exactly an object whose nine fields each read, missing ones with their defaults, and holds just what they say |
| UserOps.StaticCheckExact | bundler/src/index.js:252-261 | before its first `await` the bundler lets through exactly an array whose second element reads as its EntryPoint and whose first reads, field by field, as the op, with a zero fee word where fees are not allowed |
| UserOps.StaticRefusalExact | bundler/src/index.js:252-261 | which error any other parameters get: that they cannot be taken apart, the EntryPoint, the first field of the op that does not read, the fees, in this order |
| UserOps.UnreadableExact | bundler/src/index.js:169-182 | the normaliser names the first field that does not read, or that there is no op |
| UserOps.ParseAddressExact | bundler/src/index.js:148-151 | an address is read exactly from the hex text of its 20 bytes, with or without the prefix |
| UserOps.EncodableExact | bundler/src/index.js:263 | what the ABI encoder takes: whole bytes, two 32-byte words, quantities of 256 bits |
| UserOps.GasHalvesAgree | examples/privy-google-aa/server/userop-policy.mjs:97-99 | for every 32-byte word the policy's byte slices and the bundler's shift and mask read the same two numbers |
| UserOps.PackedHalvesReadBack | examples/privy-google-aa/src/userOp.ts:103-105 | packing two numbers below 2^128 gives one word from which both gates read exactly those two numbers |
| UserOps.EstimateReturnsPackedLimits | bundler/src/index.js:316-323 | the gas estimate prints the packed limits, zeros replaced by the defaults |
| Hex.ZeroPadToBeHex | examples/privy-google-aa/src/userOp.ts:104 | padding the shortest hex form of a number to k bytes is its k-byte big-endian form |
| Js.QuantityTextReadsBack | bundler/src/index.js:136-138 | the quantity text, the browser's hex text and the decimal text of a number all parse back to it |
| Js.NumberForms | examples/privy-google-aa/server/userop-policy.mjs:216-222 | signed, octal and binary text reads as its number, inside any blanks |
| Js.BigIntOfExact | examples/privy-google-aa/server/userop-policy.mjs:216-222 | which JSON values are numbers to the policy: flags, whole numbers, text, and arrays that print as one |
| Abi.DecodeExecuteExact | examples/privy-google-aa/server/userop-policy.mjs:146-151 | the decoder finds a call exactly when the bytes read as that call under the head/tail rule of the Contract ABI Specification, "Formal Specification of the Encoding" |
| Abi.ExecuteRoundTrip | examples/privy-google-aa/src/userOp.ts:249 | the canonical encoding of an `execute` call decodes to that call |
| Abi.CreateAccountRoundTrip | examples/privy-google-aa/src/userOp.ts:248 | the encoding of a `createAccount` call decodes to its owner and salt |
| Policy.SelectorMapIsLabel | examples/privy-google-aa/server/userop-policy.mjs:51-53 | the selector map gives each selector the last listed signature with that selector, and nothing to any other |
| Policy.CheckInnerExact | examples/privy-google-aa/server/userop-policy.mjs:163-171 | which inner calls pass, and what selector, label and decimal value are reported for them |
| Policy.CheckGasExact | examples/privy-google-aa/server/userop-policy.mjs:93-102 | the gas part passes exactly on a zero fee word, both halves and the pre-verification gas within their caps |
| Policy.CheckInitCodeExact | examples/privy-google-aa/server/userop-policy.mjs:116-133 | initCode passes exactly if it is empty or reads as `createAccount(owner, salt)` through the configured factory, reporting that owner |
| Policy.CheckCallDataExact | examples/privy-google-aa/server/userop-policy.mjs:135-171 | callData passes exactly if, within the size cap, it reads as `execute(target, 0, func)` with target and inner call permitted |
| Policy.CheckExact | examples/privy-google-aa/server/userop-policy.mjs:66-114 | the policy accepts a request with a given result if and only if the request is one acceptable send, stated on the configuration and the bytes alone |
| Policy.RefusalExact | examples/privy-google-aa/server/userop-policy.mjs:66-172 | what any other request is told: the first requirement that it fails, in the order of the checks, by name or as a fault |
| Policy.FaultExact | examples/privy-google-aa/server/userop-policy.mjs:66-172 | the policy throws something other than its own refusal if and only if the method does not print, or an op in order so far has init code or callData of half bytes, without room for a selector, or calling a permitted target with one to three bytes |
| Policy.CheckMonotone | examples/privy-google-aa/server/userop-policy.mjs:45-60 | raising caps or adding to a non-empty allow-list never turns an acceptance into a rejection and never changes the reported sender, target, owner and selector |
| Policy.EmptyTargetListIsStar | examples/privy-google-aa/server/userop-policy.mjs:45-46 | an empty target list is the same policy as `*`; listing one target then accepts exactly the requests to that target |
| Client.SaltIsUnique | examples/privy-google-aa/src/userOp.ts:107-111 | the salt fits a uint256 and its 32 bytes are the clock and the random bytes side by side |
| Client.DefaultPolicyDecides | examples/privy-google-aa/server/userop-policy.mjs:32-60 | under the default limits and the default inner call the policy accepts the app's own write, whatever owner, salt and value, if and only if its target is permitted |
| Client.BuiltOpSays | examples/privy-google-aa/src/userOp.ts:249-262 | the op the browser builds asks for one call of the target without value, under nonce zero, with its three gas numbers, no fees, no paymaster and no signature yet |
| Client.BuiltInitCodeReadsBack | examples/privy-google-aa/src/userOp.ts:246-248 | the init code the browser builds names its factory, its owner and its salt |
| Client.BuiltOpPassesBothGates | examples/privy-google-aa/src/userOp.ts:246-266 | for every owner, salt, permitted target and 256-bit value, the op the browser builds passes the policy, which reports exactly that sender, target, owner, `set(uint256)` and decimal, and the bundler's first checks (see `UserOps.StaticCheckExact`), which give back exactly that op |
| Client.GatesReadTheSameOp | examples/privy-google-aa/server/userop-policy.mjs:66-114 | no parser differential: if both gates accept a request, the op that the bundler holds is the one the policy vetted, field by field under the bundler's readings |
| Receipts.BuildIndex | bundler/src/index.js:406-421 | the index loop computes the event index of the logs |
| Receipts.ParseEventExact | bundler/src/index.js:409-416 | a log counts as an event of a hash if and only if it has the event's layout: hash and paymaster among the topics, then flag, gas cost and gas used as the last three of four words |
| Receipts.IndexFindsLastEvent | bundler/src/index.js:406-423 | the index answers a hash with the last event log carrying it, and with nothing if there is none |
| Receipts.OutcomeFromReceipt | examples/privy-google-aa/server/userop-log.mjs:190-212 | the server's scan loop: nothing while the receipt is missing; else success unless the flag is false, the receipt's or its first log's hash, and for a failure what the first revert log of the hash reads as under the head/tail rule |
| Receipts.RevertReasonInBrowser | examples/privy-google-aa/src/userOp.ts:220-235 | the browser's scan loop gives what the first revert log of the hash reads as under the head/tail rule |
| Receipts.ParseRevertExact | examples/privy-google-aa/server/userop-log.mjs:203-204 | a revert log is read as some bytes if and only if it has three topics and its data reads, by the head/tail rule, as a number and those bytes |
| Receipts.DecodeRevertExact | examples/privy-google-aa/server/userop-log.mjs:161-177 | the text shown for revert data: none for no data, the text or the code of the two standard forms as they read, else its hex, cut after 66 characters and marked |
| Receipts.EncodedReasonComesBack | examples/privy-google-aa/server/userop-log.mjs:196-208 | from the EntryPoint's log to the outcome: the data encoded in the first revert log of the hash, whatever its nonce, is what is shown, and the text given to `revert` comes back |
| Receipts.StandardReasonsReadBack | examples/privy-google-aa/server/userop-log.mjs:158-177 | a reason string comes back as its text and a panic as its code |
| Receipts.DecodersAgree | examples/privy-google-aa/server/userop-log.mjs:161-177 | the server's and the browser's copy give the same text if and only if no text is clipped, against the comment that one mirrors the other |
| Receipts.SettledOutcomeIsDirect | bundler/src/index.js:339-353 | index plus rescan gives an outcome if and only if it is the one read straight off the receipt's logs, the reason by the head/tail rule |
| Receipts.OutcomeIsOwn | examples/privy-google-aa/server/userop-log.mjs:196-208 | the outcome depends only on the logs that carry the op's hash as their first indexed argument, whoever emitted them |
| Receipts.ForeignLogsDecideExactly | bundler/src/index.js:406-423 | for every receipt, the settled outcome is not the one that the EntryPoint's own logs give if and only if the last event log of the hash is another contract's with the other flag, or the op failed and the first revert log of the hash is another contract's with another reason |
| Receipts.AddedLogDecides | bundler/src/index.js:406-423 | a log added anywhere in a receipt changes the reported success if and only if it is an event of the hash with the other flag and none follows it; its address plays no part |
| Receipts.ForeignLogBetween | bundler/src/index.js:406-423 | among the EntryPoint's logs, anywhere after the last event of the hash, so also between two ops' events, one log of any other contract turns the reported success while the EntryPoint's own logs say what they said |
| Receipts.AnyAddressCanTurnIt | bundler/src/index.js:407-416 | so for every receipt and every address there is a log of that address that turns the reported success |
| BundlerReceipts.ReportedOutcomeIsOwn | bundler/src/index.js:339-353 | over every interleaving, what a lookup reports is read as the outcome of the held operation in the very transaction that its own bundle ended with |
| WriteHistory.LoggedOutcomeIsOwn | examples/privy-google-aa/server/api.mjs:539-557 | over every run of the bundler, a row that a settling round asks about takes on its operation's outcome in the transaction that carried its bundle, or stays as it was while there is no receipt |
| BundlerReceipts.AnswerIsFinal | bundler/src/index.js:339-342 | once a lookup of a hash has an answer, it has that answer ever after, as long as the hash is not committed again |
| WriteHistory.AnyRoundsAgree | examples/privy-google-aa/server/api.mjs:539-557 | rounds may overlap, records come between and the bundler move on: whatever was recorded and settled in whatever order, a row has no outcome yet or its operation's own, the same one always |
| InsertionMap.DeletePrefix | bundler/src/index.js:386-391 | deleting the first keys one by one leaves exactly the later keys, in order and with their values |
| BundlerMachine.EveryInterleaving | bundler/src/index.js:252-282 | under every interleaving: both maps hold the same pending object for each mempool hash, the bundle in flight is a prefix of the mempool, no object is submitted twice |
| BundlerMachine.NeverStuck | bundler/src/index.js:373-396 | whatever the environment allows can happen next in every reachable state: the model loses no behaviour |
| BundlerMachine.HeldOpsPrint | bundler/src/index.js:258-278 | over every run, whatever the history holds can be printed and normalises back, since a hash arrives only for an op that the ABI encoder takes |
| BundlerMachine.RemainingMempool | bundler/src/index.js:422-442 | a finished bundle leaves in the mempool exactly the operations behind it |
| BundlerMachine.ItemsSettleOnce | bundler/src/index.js:422-442 | an item only moves from pending to included or failed, and once settled never changes in any field |
| BundlerMachine.CommitEffect | bundler/src/index.js:267-278 | a commit puts one new pending item under its hash into both maps, at the end of the mempool or in the place of an older one of that hash, and changes nothing else in them |
| BundlerMachine.StartEffect | bundler/src/index.js:374-376 | a bundle starts exactly when none is in flight and something waits, with the configured number of the oldest items or all there are; a negative number leaves that many |
| BundlerMachine.BundleEffect | bundler/src/index.js:381-395 | a bundle's end keeps what waits behind it, gives every item in it the transaction with its own event, or the reason beside the transaction hash it had or was half given, and changes no other item and no history entry |
| BundlerMachine.SendsBalance | bundler/src/index.js:264-278 | over every run, for every hash and op: the sends that passed the duplicate test are the ones turned down, committed and still awaiting their simulation |
| BundlerConservation.ConservedExactlyOnCleanRuns | bundler/src/index.js:263-278 | all promises about the queue together (distinct hashes, order, count, pending = waiting) hold at the end of a run if and only if no send committed a hash already in the history |
| BundlerOverlaps.OrderExactly | bundler/src/index.js:277-278 | completed bundles, then what waits, are the accepted items in order, if and only if no commit replaced an item still waiting |
| BundlerOverlaps.CountExactly | bundler/src/index.js:373-396 | accepted = included + failed + waiting, if and only if no commit replaced an item still waiting |
| BundlerOverlaps.WaitingExactly | bundler/src/index.js:386-391 | in every state of a run an op is pending in the history exactly while it waits, if and only if no bundle ends after a commit has hit a hash in it |
| BundlerOverlaps.NoOverlapIsClean | bundler/src/index.js:264-278 | a guard: if no send of a hash comes to its duplicate test while another one of it awaits its simulation, the run commits no known hash |
| BundlerOverlaps.NoOverlapConserves | bundler/src/index.js:264-278 | under that guard all promises about the queue hold |
| BundlerConservation.OverlapStrands | bundler/src/index.js:264-278 | two overlapping first-time sends, the second committing while the first is being submitted, leave an op pending in the history that is in no mempool |
| BundlerConservation.StrandedForever | bundler/src/index.js:264-278 | such an op is never bundled again, whatever happens later |
| BundlerDraining.DrainsInExactlyRounds | bundler/src/index.js:373-396 | from every reachable state, with no further sends, n waiting ops are gone after exactly ceil(n / maxBundleSize) completed bundles, or 1 + ceil((n - k) / maxBundleSize) with k of them in flight, whatever mix of success and failure |
| BundlerDraining.ZeroSizeNeverDrains | bundler/src/index.js:376 | with a bundle size that is not positive the mempool is never emptied |
| Bundler.LnetBundler.constructor | bundler/src/index.js:229-238 | the new object is in the machine's initial state |
| Bundler.LnetBundler.SendCheck | bundler/src/index.js:263-264 | the duplicate test is the machine's step and says whether the hash is known |
| Bundler.LnetBundler.SendReject | bundler/src/index.js:266 | a failed simulation leaves both maps alone |
| Bundler.LnetBundler.SendCommit | bundler/src/index.js:267-278 | committing puts one new object into both maps: the machine's step |
| Bundler.LnetBundler.BundleStart | bundler/src/index.js:374-376 | starts a bundle of the first values exactly if none is in flight and the mempool is not empty |
| Bundler.LnetBundler.MarkIncluded | bundler/src/index.js:405-443 | both loops: every item gets the receipt and its own event, and exactly the bundle's hashes leave the mempool |
| Bundler.LnetBundler.FailItems | bundler/src/index.js:385-391 | the loop of the catch block fails every item and takes its hash out of the mempool |
| Bundler.LnetBundler.BundleOk | bundler/src/index.js:381-395 | the end of a mined bundle is the machine's step on all shared objects |
| Bundler.LnetBundler.BundleFail | bundler/src/index.js:385-395 | the end of a failed bundle, also one that fails while being marked, is the machine's step |
| Bundler.LnetBundler.ClearBundling | bundler/src/index.js:393-395 | the `finally` block closes the step once the loops have done their part |
| Bundler.LnetBundler.GetUserOperationReceipt | bundler/src/index.js:339-367 | an answer exactly once the held item has a receipt; it tells hash, EntryPoint, sender, nonce, the event's fields with their fallbacks, and every number of the transaction receipt readably |
| Bundler.LnetBundler.GetUserOperationByHash | bundler/src/index.js:326-337 | an answer exactly for a held op and never an error; the printed op normalises back to the held one, beside EntryPoint, transaction and block |
| Reports.PrintedReceiptTells | bundler/src/index.js:343-365 | the printed receipt reads back, number by number, as the stored one |
| UserOpLog.Clip | examples/privy-google-aa/server/userop-log.mjs:59-63 | up to 200 characters stay as they are, a longer text becomes its first 200 and a mark; missing stays missing |
| UserOpLog.ClipEntry | examples/privy-google-aa/server/userop-log.mjs:90-104 | every text of a row is cut on its own, in its own column; the two statuses stay |
| UserOpLog.Log.Record | examples/privy-google-aa/server/userop-log.mjs:90-106 | appends one row with the next id and no outcome |
| UserOpLog.Log.Pending | examples/privy-google-aa/server/userop-log.mjs:78-82 | exactly the newest sent rows without outcome or transaction, newest first, each with its own hash; one left out is older than all of a full list |
| UserOpLog.Log.Settle | examples/privy-google-aa/server/userop-log.mjs:113-115 | gives the one row with that id the settlement's flag, cut reason and hash and this time, and changes nothing else |
| UserOpLog.Log.Recent | examples/privy-google-aa/server/userop-log.mjs:117-153 | the last rows in reverse order, each shown whole, with its times as text and no success while there is no receipt |
| UserOpLog.LogIsAppendOnly | examples/privy-google-aa/server/userop-log.mjs:75-119 | whatever is recorded and settled in any order, row k is the k-th record and carries the last settlement of its id |
| UserOpLog.SettledAtIsLast | examples/privy-google-aa/server/userop-log.mjs:113-115 | every row bears the time of the last settlement of its id |
| UserOpLog.PendingIdsExact | examples/privy-google-aa/server/userop-log.mjs:78-82 | the pending list holds exactly the ids of pending rows, strictly decreasing |
| UserOpLog.Log.SettlePending | examples/privy-google-aa/server/api.mjs:539-557 | one round gives the same outcome fields in whatever order and at whatever times the answers arrive |
| UserOpLog.RoundDropsBatch | examples/privy-google-aa/server/api.mjs:539-557 | with final receipts for all, a round takes exactly the newest `limit` rows off the pending list |
| UserOpLog.SettledInRoundsNeeded | examples/privy-google-aa/server/api.mjs:539-557 | ceil(p / limit) rounds leave nothing pending if and only if every pending row has a final receipt, and then fewer do not |
| UserOpLog.NeverFinalStaysPending | examples/privy-google-aa/server/userop-log.mjs:78-82 | a row whose receipt names no transaction stays pending through any number of rounds |
| UserOpLog.StuckBatchBlocksOlder | examples/privy-google-aa/server/api.mjs:539-557 | while none of the newest `limit` pending rows has a receipt, no older row is ever settled |
| BundlerProxy.Proxy.HandleBundler | examples/privy-google-aa/server/api.mjs:433-534 | the reply, what is forwarded and the row added, for every request, in the order session, body, policy, bundler; what each of them says is stated by the rows below |
| BundlerProxy.EarlyReplyExact | examples/privy-google-aa/server/api.mjs:433-460 | without a POST, a live session, a readable body or JSON: 405, 401, the reading error or 400, in this order, nothing sent and no row |
| BundlerProxy.ReplyExact | examples/privy-google-aa/server/api.mjs:462-533 | then: 403 with the first objection to a refused request, 500 where judging or recording throws, 502 for an unreachable bundler, and else the bundler's own status, type and text |
| BundlerProxy.ForwardedExactly | examples/privy-google-aa/server/api.mjs:433-489 | a request reaches the bundler if and only if it is a POST with a live session and one acceptable send; then byte for byte under that session's token |
| BundlerProxy.RowStatusExact | examples/privy-google-aa/server/api.mjs:471-524 | a row says sent if and only if the request is acceptable and the bundler took it, failed if and only if acceptable and not taken for a reason that prints, rejected if and only if it is neither acceptable nor a fault and its claimed sender prints; every row is the live session user's own |
| BundlerProxy.RejectedRowTells | examples/privy-google-aa/server/api.mjs:471-479 | a rejected row has the user, 403, the wording of the first objection and the method and sender as claimed, and nothing else |
| BundlerProxy.ForwardedRowTells | examples/privy-google-aa/server/api.mjs:493-524 | a forwarded row has the facts the policy found, the bundler's status, the hash where the answer has one, and an error exactly where there was one |
| BundlerProxy.UnprintableSenderIsNotLogged | examples/privy-google-aa/server/api.mjs:468-479 | against the comment on the only record: a refused request whose claimed sender cannot be made text leaves no row, and its page is told 500 |
| BundlerProxy.PageWriteIsLogged | examples/privy-google-aa/server/api.mjs:507-524 | the page's own write, sent with a live cookie, is forwarded, and its row holds user, account, target, owner, call, exact value and hash, and is pending |
| Base64Url.EncodeDecode | examples/privy-google-aa/server/session-cookie.mjs:36-38 | every byte string reads back from its base64url text (RFC 4648, section 5), which holds no character that a cookie treats specially |
| Base64Url.AlphabetExact | examples/privy-google-aa/server/session-cookie.mjs:36-38 | the alphabet of RFC 4648, section 5, and the two characters of the other alphabet that are read as well |
| Base64Url.GroupSpells | examples/privy-google-aa/server/session-cookie.mjs:36-38 | every three bytes and their four characters spell one 24-bit number; a rest is filled up with zero bits |
| SessionCookie.Attributes | examples/privy-google-aa/server/session-cookie.mjs:27-32 | read at its semicolons, the header is the pair and then exactly HttpOnly, this Path, this SameSite, Secure if and only if asked for and a lifetime if and only if the session is ended |
| SessionCookie.SetCookieParts | examples/privy-google-aa/server/session-cookie.mjs:27-44 | splitting the header at its semicolons gives back the pair and the flags in order |
| SessionCookie.ReadCookie | examples/privy-google-aa/server/session-cookie.mjs:72-86 | the loop finds a value if and only if some part is a pair of that name, cut at its first equals sign and trimmed: the first such, percent-decoded where it can be |
| SessionCookie.ParseExact | examples/privy-google-aa/server/session-cookie.mjs:47-67 | a header parses to a session if and only if it has the cookie, the cookie is a payload and its MAC at the last dot, the payload reads as that session with token and subject, and its end, if it names one, is over 5 seconds away |
| SessionCookie.CookieRoundTrip | examples/privy-google-aa/server/session-cookie.mjs:35-67 | a session serialised and sent back among other cookies, none earlier of that name, parses to exactly that session until 5 seconds before its expiry and to nothing from then on |
| SessionCookie.ParsedWasIssued | examples/privy-google-aa/server/session-cookie.mjs:51-66 | with an unforgeable MAC, every session that parsing returns was serialised earlier in the run, field for field |
| SessionCookie.NullStaysNull | examples/privy-google-aa/server/session-cookie.mjs:65 | a cookie null at one time is null at all later ones; one good at a time was good, with the same session, at all earlier ones |
| SessionExpiry.Backend.FetchToken | examples/privy-google-aa/server/api.mjs:201-235 | a token that is still good is reused whatever the endpoint would answer; else a new one is kept until 30 s before its announced end, 5 s at least; a failure changes nothing |
| SessionExpiry.Backend.CreateSession | examples/privy-google-aa/server/api.mjs:417-420 | a session is minted exactly if a good token is then in the cache; it carries just that token and the verified subject, until the token's own `exp`, or for 60 s where it names none |
| SessionExpiry.JarIsOwn | examples/privy-google-aa/server/api.mjs:417-427 | over every run the cookie in the page's jar is the session of the subject whose request minted it, with a token granted by then, the last one kept and not ended since |
| SessionExpiry.HintIsEarned | examples/privy-google-aa/src/session.ts:87-106 | over every run a hint was set by the last mint, 30 s short of its end or 5 s at least, with no new user and no end since |
| SessionExpiry.MintBoundExact | examples/privy-google-aa/server/api.mjs:201-234 | in every run every minted cookie is good at that moment, if and only if tokens live 10 s at least and `expires_in` oversteps their end by 25 s at most |
| SessionExpiry.WriteBoundExact | examples/privy-google-aa/src/session.ts:87-94 | in every run whose cookies the browser keeps, every write under a standing hint carries a good cookie, if and only if tokens live 14.999 s at least and `expires_in` oversteps by 20.001 s at most |
| SessionExpiry.DroppedCookieFailsWrite | examples/privy-google-aa/server/api.mjs:421-425 | however long tokens live, one cookie that the browser drops leaves a write under a hint with none |
| SessionExpiry.HintedWriteIsAccepted | examples/privy-google-aa/server/session-cookie.mjs:65 | above those bounds the header of such a write parses to the very session in the jar |
| BrowserSession.HintUntil | examples/privy-google-aa/src/session.ts:87-89 | the hint stands until 30 s before the reported end, 5 s at least, and for 30 s where no end is reported |
| BrowserSession.SingleFlight | examples/privy-google-aa/src/session.ts:93-101 | at most one creation is under way, and `inFlight` says exactly whether one is not quite over |
| BrowserSession.CreationBeginsExactly | examples/privy-google-aa/src/session.ts:93-101 | over every run a creation begins if and only if someone is logged in, the call is forced or without a hint, and no creation is in flight or still to finish; it is that user's |
| BrowserSession.ForcedCallIsServed | examples/privy-google-aa/src/session.ts:93-101 | after a forced call with someone logged in a creation is under way, or the one in flight is still to finish |
| BrowserSession.NoInheritanceExactly | examples/privy-google-aa/src/session.ts:46-50 | no user is left with another user's standing hint, if and only if no creation succeeds under another provider than it began with |
| BrowserSession.QuietChangesNeverInherit | examples/privy-google-aa/src/session.ts:46-50 | changing the provider only while nothing is in flight is enough |
| BrowserSession.NextUserInherits | examples/privy-google-aa/src/session.ts:46-50 | without that the promise fails: the next user has a standing hint on the first user's session |
| BrowserSession.EndsForGoodExactly | examples/privy-google-aa/src/session.ts:104-107 | an ended session leaves no hint until a creation begun later succeeds, if and only if no creation succeeds that an end overtook |
| BrowserSession.QuietEndsAreForGood | examples/privy-google-aa/src/session.ts:104-107 | ending the session only while nothing is in flight is enough |
| BrowserSession.EndIsUndone | examples/privy-google-aa/src/session.ts:87-107 | without that the response to a creation that the end overtook brings the hint back |
| BrowserSession.Session.SetPrivyTokenProvider | examples/privy-google-aa/src/session.ts:46-50 | replaces the provider and drops the hint, and leaves a creation in flight alone |
| BrowserSession.Session.EnsureSession | examples/privy-google-aa/src/session.ts:93-101 | starts a creation for a user if and only if that user is logged in, the call is forced or without a hint, and none is in flight; provider and hint stay |
| BrowserSession.Session.CreateSessionEnds | examples/privy-google-aa/src/session.ts:87-90 | a response sets the hint from the reported expiry; a failure sets nothing |
| BrowserSession.Session.ClearInFlight | examples/privy-google-aa/src/session.ts:96-98 | the `finally` clears the flag |
| BrowserSession.Session.EndSession | examples/privy-google-aa/src/session.ts:104-107 | drops the hint |
| Jwks.CollectKeys | examples/privy-google-aa/server/privy-auth.mjs:58-66 | the import loop computes the map of importable keys |
| Jwks.KeysInExact | examples/privy-google-aa/server/privy-auth.mjs:58-66 | a key id is known if and only if some entry offers it, with the last such entry's key: a bad entry costs only itself |
| Jwks.UsableExact | examples/privy-google-aa/server/privy-auth.mjs:56-67 | a response is of use if and only if some entry of it offers a key |
| Jwks.RequestsAreLimited | examples/privy-google-aa/server/privy-auth.mjs:42-87 | over every run: one request at a time, none within 30 s after a success, successes over 30 s apart, whatever key ids arrive |
| Jwks.AnswerExact | examples/privy-google-aa/server/privy-auth.mjs:76-87 | when a call ends with its key, as unknown, for a failed load, or waits: each if and only if |
| Jwks.StretchExact | examples/privy-google-aa/server/privy-auth.mjs:46-86 | a call that waits awaits the load in flight, started by it only if there was none, and may load a second time only if its first load was for an empty or stale set; any other call starts nothing |
| Jwks.FailingLoadsAreNotLimited | examples/privy-google-aa/server/privy-auth.mjs:21-24 | while loads fail, any number of requests can start at one instant, against the comment on the refetch limit |
| Jwks.RefetchLimitExact | examples/privy-google-aa/server/privy-auth.mjs:21-24 | in each single run: any two requests are over 30 s apart if and only if no call asks again within 30 s of a call whose load failed |
| Jwks.SuccessSpacesStarts | examples/privy-google-aa/server/privy-auth.mjs:21-24 | in particular the limit holds in every run in which no load fails |
| Jwks.KeyStore.LoadJwks | examples/privy-google-aa/server/privy-auth.mjs:46-48 | joins the load in flight or starts one |
| Jwks.KeyStore.KeyFor | examples/privy-google-aa/server/privy-auth.mjs:76-80 | the first stretch of a call is the machine's step |
| Jwks.KeyStore.Resume | examples/privy-google-aa/server/privy-auth.mjs:78-86 | the stretch after an awaited load is the machine's step |
| Jwks.KeyStore.ResponseArrives | examples/privy-google-aa/server/privy-auth.mjs:49-69 | a usable response replaces keys and time; any other changes neither |
| Jwks.KeyStore.ClearInFlight | examples/privy-google-aa/server/privy-auth.mjs:70-72 | the `finally` clears the flag |
| PrivyClaims.HonouredExactly | examples/privy-google-aa/server/privy-auth.mjs:116-125 | whatever its claims, a token is honoured as an identity if and only if it is for this app, has a numeric `exp`, the clock stands, to the millisecond, before 30 s past it and, if there is a numeric `nbf`, not before 30 s ahead of it, and the identity has the token's own `sub`, `sid` and `exp` |
| PrivyClaims.RefusalExact | examples/privy-google-aa/server/privy-auth.mjs:118-123 | which refusal any other token gets: the first that applies, in the order of the checks |
| PrivyClaims.HonouredInterval | examples/privy-google-aa/server/privy-auth.mjs:116-125 | the times at which any token is honoured form an interval with one identity, and `exp` must be a number |
| Paymaster.ParseExact | src/LnetVerifyingPaymaster.sol:106-113 | parsing succeeds exactly on 52 bytes, the window as two words and a signature |
| Paymaster.BadLayoutExact | src/LnetVerifyingPaymaster.sol:106-113 | parsing fails exactly on fewer than 116 bytes or a time beyond 48 bits |
| Paymaster.HashExact | src/LnetVerifyingPaymaster.sol:53-75 | the hash is that of exactly these 384 bytes, word by word; without 52 bytes of paymaster data there is none |
| Paymaster.ConcatInjective | src/LnetVerifyingPaymaster.sol:59-74 | the 12-word preimage determines its words |
| Paymaster.HashCoversExactly | src/LnetVerifyingPaymaster.sol:53-75 | with keccak collision-free, two hashes are equal if and only if everything covered agrees; against its comment the account's signature is not covered and the paymaster's gas limits are |
| Paymaster.ValidationDataReadsBack | src/LnetVerifyingPaymaster.sol:100-103 | the packed result gives back failure bit and window (ERC-4337, `validationData`) |
| Paymaster.ValidateExact | src/LnetVerifyingPaymaster.sol:85-104 | validation answers if and only if the data has the layout and the signature recovers; the answer tells whether to the signer |
| Paymaster.ValidateRevertExact | src/LnetVerifyingPaymaster.sol:91-100 | what validation reverts with, in this order: the layout, the signature's length, a signature that recovers to nothing |
| Paymaster.SponsorThenVerify | test/LnetStack.t.sol:75-90 | header and signature validate to the same window and hash, without failure under the signer's key and with failure under any other |
| Paymaster.VerifyingPaymaster.Deploy | src/LnetVerifyingPaymaster.sol:36-39 | no contract with the zero signer |
| Paymaster.VerifyingPaymaster.SetVerifyingSigner | src/LnetVerifyingPaymaster.sol:42-46 | only the owner changes the signer, and never to zero; a refused call changes nothing |
| Paymaster.VerifyingPaymaster.ValidatePaymasterUserOp | src/LnetVerifyingPaymaster.sol:85-104 | validation under the signer that the contract holds at that moment |

## Left out

- Paymaster.SponsorThenVerify: 65-byte signatures only; the length check also admits 64 bytes, which the pinned library's recovery refuses, so such a signature is one for which `recover` is None.
- SessionCookie.CookieRoundTrip: JSON and percent decoding are assumed to read back; texts are sequences of characters, so UTF-8 and UTF-16 lengths are not distinguished, and an expiry is a whole number of milliseconds.
- SessionExpiry.WriteBoundExact: one page, one clock, instantaneous delivery; a second tab that replaces the cookie, or ends the session, is not modelled. Whether the browser keeps a cookie (it drops one past about 4 KB) is a decision of the environment, and the bound is for runs in which it does.
- BundlerProxy.Proxy.HandleBundler: console output, the cache and CORS headers, and the size limit on bodies.
- UserOpLog.Log.Pending: SQL, column migration and the disabled log of a backend without a database.
- Base64Url.EncodeDecode: Node's reading of text that it did not print is modelled as skipping every foreign character, `=` included.
- Receipts.OutcomeFromReceipt: letter case of hashes and topics (they are 32-byte values).
- Bundler.LnetBundler.GetUserOperationReceipt: the fields of a log that are only copied (its position and block, and whether it was removed).
- Receipts.RevertReasonInBrowser: how strictly the library reads event data is not visible in the repository; data whose length is not padded to whole words is refused here, by both scans alike.
- Jwks.CollectKeys: importing a key is a parameter; signature checking, the token's header and the Bearer pattern are left to the libraries.
- Address checksums and ICAP addresses: an address is 20 bytes; mixed-case text with a wrong checksum, which the libraries refuse, is accepted by the model on both sides.
- JSON numbers are reals: NaN, infinities and rounding of large numbers are not modelled.
- Decoding errors that ethers defers until a value is read are folded into one rejection.
- Calls to the EntryPoint (`getUserOpHash`, `simulateValidation`, `handleOps`), its error classification, the scheduling of bundles, retries and receipt polling: each is a decision of the environment at a step.
- `addedAt` and the log's printing of a time, which is a parameter.
- HTTP, CORS, origin guards, configuration, the history route's limit, the user interface, deployment and shell scripts.
- `LnetAccount`, `LnetAccountFactory`, `Storage`, the EntryPoint and the libraries they extend: thin, or not part of this model.
