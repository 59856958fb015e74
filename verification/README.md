# A verified model of the bridge's stateful parts

The repository connects a WeChat public account to a OneBot application. Most of it is wrappers around
HTTP APIs; what can go wrong without anybody noticing sits in a few small pieces that keep state. These
are modelled here, and what they are relied on for is proved for all inputs, all runs and all
interleavings. `dafny verify dfyconfig.toml` checks the whole project.

| file | what it models |
|---|---|
| `RowKeys.dfy`, `IdMap.dfy`, `PairIndex.dfy`, `RenameOrders.dfy`, `IdMapRuns.dfy`, `IdMapStore.dfy`, `IdMapAnswers.dfy`, `IdMapLimits.dfy` | the id store: one bucket of byte strings that holds ids, rows and pairs in both directions |
| `AccessTokenServer.dfy` | callers and the daemon that refreshes the access token, as interleaved steps |
| `Rendezvous.dfy`, `PendingQueue.dfy`, `Ledger.dfy`, `Routing.dfy` | replies finding the request that waits for them, the overflow queue, the assembled reply |
| `AesEnvelope.dfy` | the encrypted message envelope |
| `TokenRotation.dfy`, `FastEnvelope.dfy`, `Middleware.dfy`, `LowerCase.dfy` | the callback server: tokens, envelope parser, handler chain |
| `RateLimiter.dfy`, `PaySignature.dfy` | upload limits and payment signatures |
| `Strings.dfy` | byte-wise order, sorted key lists, searching, numerals, int64 |

Laws such as round trips and invariants can hold of more functions than the one meant. So what each function
computes is also stated in bytes, places and values, apart from its definition (`LessExactly`,
`RowOfHashExactly`, `ChainedExactly`, `SpaceRuneExactly`, `IdMapAnswers` and others like them).

How the models are built:

- A transaction of the id store is a function from bucket to result and bucket; the methods of
  `IdMapStore.Store` make the writes one after the other and are proved against it. Go's map order is a
  sequence that the caller cannot choose.
- A protocol is a state, events with guards, and runs of events. The methods of `DefaultAccessTokenServer`,
  `Hub` and `Server` (token) carry the code and are proved to take exactly the protocol's steps; the state
  they are compared with is a ghost parameter. Fields that only record a history are said to do so where
  they are declared.
- Go strings and byte slices outside the AES envelope are `string`, one `char` for each byte.
- Clocks, replies of endpoints, random numbers and hashes are parameters: MD5, SHA-1 and HMAC are arbitrary
  functions, and the AES block is an arbitrary permutation of 16-byte blocks given with its inverse.

In these places the code keeps less than one might expect. The exact condition under which it keeps it is a
theorem, and the failing side is shown at an input that the code can reach:

| what can happen | exact condition | reached by |
|---|---|---|
| a new pair takes the rows of another | `PairIndex.StoreIDProExact` | `IdMapLimits.SharedRows` |
| a renaming takes a name away from a pair that stays, whose rows then dangle | `PairIndex.RenameKeepsPairsExactly`, `RenameOrders.KeepsPairsExactly` | `IdMapLimits.RenameOntoTakenName` |
| a renaming depends on the order in which Go ranges over a map | `RenameOrders.OrderMattersExactly` | `IdMapLimits.RenameInTwoWays` |
| the counter runs into a rebound row | `IdMap.CounterStoreExact`, `IdMap.StoreIDAgrees` | `IdMapLimits.CounterRunsIntoRebound` |
| a row is taken from the id that a half store gave it to | `IdMapRuns.RowPersistsExactly` | `IdMapLimits.HalfStoredRowIsTaken` |
| a drain that overflows drops one message and repeats another | `PendingQueue.OverflowShifts`, `PendingQueue.DrainLeavesRest` | `Ledger.OverflowRun` |
| the grace of a replaced token ends early | `TokenRotation.GraceExact` | `TokenRotation.ReuseEndsGraceEarly` |

The string that a payment signature hashes tells two messages apart when in both of them no name holds `=` and
no value and no key `&` (`PaySignature.StringDeterminesParams`). For each of the three there are two messages
that break this rule and hash the same string (`SeparatorInName`, `SeparatorInValue`, `SeparatorInApiKey`); and
a message of two parameters or more always shares its string with another one (`TwinHashesTheSame`).

## Model

| member | source | states |
|---|---|---|
| Strings.LessExactly | wechat/mch/core/sign.go:41 | the order of keys and names: one comes first if and only if it is a proper prefix, or lower at the first place where they differ |
| Strings.SplitExactly | idmap/service.go:1132 | the parts of a key have no colon, and put together with colons they are the key |
| RowKeys.RowRoundTrip | idmap/service.go:153-167 | every int64 row, negative ones too, is read back from its 8 bytes |
| RowKeys.RowKeyInjective | idmap/service.go:164-170 | different rows have different reverse keys |
| RowKeys.ScanVirtualPair | idmap/service.go:261-304 | a stored pair of rows is read back by the scan as the same two numbers |
| RowKeys.HashRowExact | idmap/service.go:58-89 | a hashed row of 9 or 10 digits has at most that many and is refused only for want of digits; parsing never overflows |
| RowKeys.RowOfHashExactly | idmap/service.go:58-89 | a row comes of a hash if and only if it is the decimal value of the characters at its first 9 or 10 digit places |
| RowKeys.RowInBytes | idmap/service.go:163-164 | a row's bytes are its two's complement, highest first |
| RowKeys.PrintedInDecimal | idmap/service.go:148 | rows are printed in decimal, digits in order, without leading zeros |
| RowKeys.KeyNames | idmap/service.go:31-36 | the names of the counter, of reverse keys and of pairs, the range of rows, and what counts as an id |
| RowKeys.ScanPartly | idmap/service.go:275 | what of a value is not scanned stays 0 |
| IdMap.StoreIDAgrees | idmap/service.go:118-179 | storing an id keeps forward and reverse keys in agreement if and only if no id has the row it gets, which only the counter can bring about; pairs are untouched |
| IdMap.SimplifiedStoreIDAgrees | idmap/service.go:181-216 | writing only the reverse half keeps every stored id's row leading back to it |
| IdMap.UpdateVirtualValueAgrees | idmap/service.go:671-706 | a rebind, or a refused one, keeps forward and reverse keys in agreement |
| IdMap.NoSharedRow | idmap/service.go:118-216 | two stored ids never share a row |
| IdMap.CounterStoreExact | idmap/service.go:118-179 | with a counter, storing keeps the two directions inverse if and only if the next row, in int64, is free |
| IdMap.CounterStoreInverse | idmap/service.go:118-179 | while no row is above the counter the next row is always free, and storing keeps both facts |
| IdMap.RebindInverse | idmap/service.go:671-706 | a rebind keeps the directions exact inverses, and the counter above all rows if the new row is not above it |
| IdMap.CounterStoreBelow | idmap/service.go:118-179 | while no id has a row above the counter, storing never takes another id's row, also when half stores are mixed in |
| IdMapStore.Store.StoreID | idmap/service.go:118-179 | the writes in sequence amount to the specified transaction |
| IdMapStore.Store.SimplifiedStoreID | idmap/service.go:181-216 | as specified, with the 9-digit row, the 10-digit row when that is taken, or an error |
| IdMapStore.Store.UpdateVirtualValue | idmap/service.go:671-706 | as specified, and nothing is written when the old row is missing or the new one taken |
| IdMapStore.Store.StoreIDPro | idmap/service.go:261-304 | as specified, finding a stored pair again instead of writing |
| IdMapStore.Store.UpdateVirtualValuePro | idmap/service.go:1023-1056 | as specified, and nothing is written when the old pair is missing or the new one taken |
| IdMapStore.Store.UpdateKeysWithNewID | idmap/service.go:1201-1255 | the loop, in whatever order the map yields the keys, is the specified renaming for that order; a failure part way leaves the bucket as it was |
| IdMapStore.Store.Seek | idmap/service.go:1129-1131 | the cursor stops at the first key not below the prefix |
| IdMapStore.Store.FindSubKeysById | idmap/service.go:1120-1146 | seeking and walking while the prefix lasts gives what filtering the whole sorted bucket would |
| IdMapAnswers.StoreKnown | idmap/service.go:123-128 | a known id is answered with the row in its bytes, and nothing is written |
| IdMapAnswers.StoreCounted | idmap/service.go:129-175 | with a counter, a new id gets row 1 or the one after the last, which wraps around in int64; the counter, the id and the reverse key are written |
| IdMapAnswers.StoreHashed | idmap/service.go:140-175 | else it gets the hashed row of 9 digits, or of 10 if that is taken, and fails if and only if there is no free one |
| IdMapAnswers.StoreHalfHashed | idmap/service.go:181-216 | the half store takes a free hashed row in the same way and writes its reverse key only |
| IdMapAnswers.Rebound | idmap/service.go:671-706 | a rebind succeeds if and only if the old row is known and the new one free; which keys change and which do not |
| IdMapAnswers.StorePairAnswers | idmap/service.go:261-304 | a known pair is answered with its rows; a new one gets the 9-digit rows of its halves, in this order, both ways, if and only if both hashes have the digits |
| IdMapAnswers.ReboundPair | idmap/service.go:1023-1056 | a rebind of a pair succeeds if and only if the old rows are known and the new ones free; which keys change and which do not |
| IdMapAnswers.MembersExactly | idmap/service.go:1212-1219 | the keys collected are all that begin with the id and a colon |
| IdMapAnswers.OneRenamed | idmap/service.go:1228-1250 | one turn fails if and only if the rows are gone; else which keys change and which do not |
| IdMapAnswers.Replaced | idmap/service.go:1229-1246 | the first occurrence of the old id is replaced, and no other |
| IdMapAnswers.RowLookedUp | idmap/service.go:396-412 | a row leads to what its reverse key holds, and is unknown without one |
| IdMapAnswers.PairLookedUp | idmap/service.go:943-973 | two rows lead to two halves if and only if they are stored with exactly these |
| IdMapStore.FailedOrder | idmap/service.go:1228-1250 | a loop that failed fails in every way in which it could have gone on, one of which goes through all keys, so leaving early is the same as failing |
| PairIndex.StoreIDProExact | idmap/service.go:261-304 | a new pair keeps the pair index its own inverse if and only if its hashed rows are not in use by another pair |
| PairIndex.RowsLeadBack | idmap/service.go:943-973 | the rows of a new pair lead back to the id and the sub-id, in this order |
| PairIndex.StoreIDProFindsAgain | idmap/service.go:261-304 | storing a pair again returns the same rows and writes nothing |
| PairIndex.UpdateVirtualValueProKeeps | idmap/service.go:1023-1056 | rebinding a pair keeps the pair index its own inverse and touches no other key |
| PairIndex.ReboundPairIsFound | idmap/service.go:1023-1056 | a rebound pair is found with exactly its new rows |
| PairIndex.MoveOne | idmap/service.go:1228-1250 | one turn of the renaming loop extends the set of renamed keys by its key, in both directions |
| PairIndex.RenameAnyOrder | idmap/service.go:1201-1255 | with names new to the group, taken or free, rows that are no other member, and no rows that are the name of a member whose rows mention the old id, renaming succeeds and gives one and the same bucket in every order |
| RenameOrders.SucceedsExactly | idmap/service.go:1228-1250 | renaming succeeds in every order of the Go map if and only if it is to the same id or no member's rows are another member |
| RenameOrders.OrderMattersExactly | idmap/service.go:1201-1255 | and then it gives one bucket in every order if and only if it is to the same id, or every name is new to the group (or that of a member that is its own rows) and no member's rows are the new name of another member whose rows mention the old id |
| RenameOrders.KeepsPairsExactly | idmap/service.go:1201-1255 | and it keeps the pair index its own inverse in every order if and only if besides it takes no name away from a pair that stays |
| PairIndex.RenameKeepsPairsExactly | idmap/service.go:1201-1255 | when the order does not matter, the pair index stays its own inverse if and only if every taken name is taken together with its partner, by overwriting or renaming it; ids and rows are untouched |
| PairIndex.FreeNames | idmap/service.go:1201-1255 | names that are free meet all these conditions |
| PairIndex.OrdinaryIds | idmap/service.go:1201-1255 | different ids without a colon give new names, and the order does not matter when no member's rows begin with the new id |
| PairIndex.RenameToItself | idmap/service.go:1201-1255 | renaming a group to itself succeeds and changes nothing |
| PairIndex.RenameSucceedsExactly | idmap/service.go:1228-1250 | with names new to the group, taken or free, any given order succeeds if and only if no member's rows are another member; otherwise the bucket is unchanged |
| IdMapLimits.RenameOntoTakenName | idmap/service.go:1237-1248 | from the empty bucket: two pairs are stored, one group is renamed to the other, and the index is broken |
| IdMapLimits.RenameInTwoWays | idmap/service.go:1228-1250 | from the empty bucket: two pairs are stored in a group whose renaming gives two different buckets in its two orders |
| IdMapLimits.SharedRows | idmap/service.go:275-300 | from the empty bucket: two pairs that hash alike, of which the second takes the rows of the first |
| IdMapLimits.CounterRunsIntoRebound | idmap/service.go:134-140 | from the empty bucket: store, rebind to the next row, store; both users have that row |
| IdMapLimits.HalfStoredRowIsTaken | idmap/service.go:134-173 | from the empty bucket: a half store gives out a row, which two stores later leads to another id, without a rebind |
| IdMapLimits.HalfStoredTwice | idmap/service.go:181-216 | a half store gives out the same row again once it has been rebound |
| IdMapLimits.CounterKeyAsId | idmap/service.go:123-128 | the counter's own key as an id has the row of whoever was stored last |
| IdMapLimits.ColonInId | idmap/service.go:170-173 | an id with a colon is a pair without rows |
| IdMapLimits.RowKeyAsId | idmap/service.go:170-173 | an id that looks like a reverse key is overwritten |
| PairIndex.SubKeysExact | idmap/service.go:1120-1146 | a listing has exactly the group's members, each once, in order |
| PairIndex.ListedInOrder | idmap/service.go:1129-1136 | a listing is in byte-wise order |
| PairIndex.RenameMergesListings | idmap/service.go:1120-1255 | after a renaming that succeeds the new id lists, in order, exactly what the two ids listed, whatever the order of the map and whatever names were taken |
| PairIndex.RenameKeepsListing | idmap/service.go:1120-1255 | a new id that listed nothing lists exactly what the old id listed |
| IdMapRuns.RunInv | idmap/service.go:118-1255 | every run of all six operations, in either mode, keeps pairs matched and rows in agreement |
| IdMapRuns.RunExact | idmap/service.go:118-1255 | with a counter and without half stores, every run keeps the two directions exact inverses below the counter |
| IdMapRuns.EveryRun | idmap/service.go:118-1255 | from an empty bucket: no two ids share a row, every row leads back to its id, pairs are an involution, no id is above a counter, and without half stores the directions are then exact inverses |
| IdMapRuns.RowPersists | idmap/service.go:118-1255 | only a rebind of that very row ever changes what a row leads to, up to the counter if there is one |
| IdMapRuns.RowPersistsExactly | idmap/service.go:118-1255 | what a row leads to outlasts every run without such a rebind if and only if rows are hashed or the counter has passed the row |
| IdMapRuns.LookupGivesUserBack | idmap/service.go:396-412 | a user's row in decimal leads back to the user after any run that does not rebind it |
| IdMapRuns.StoredUser | idmap/service.go:118-179 | a stored user has the row that was returned, and storing again changes nothing |
| IdMapRuns.HalfStoredUser | idmap/service.go:181-216 | the half store gives out a row that was free, which leads to the id, and changes no other key; an immediate second one gives out another row or fails |
| IdMapRuns.ReboundUser | idmap/service.go:671-706 | after a rebind the new row leads to the user and the old one nowhere |
| Routing.KeyOfReply | wsclient/ws.go:231-235 | a reply goes under the user its row leads to, and under the empty key if the row is unknown |
| Routing.ReplyReachesWhoAsked | wsclient/ws.go:231-243 | a reply naming the row a user was given goes to the waiter registered for that user, after any run that does not rebind the row |
| AccessTokenServer.Margins | wechat/mp/core/access_token_server.go:167-185 | which lifetimes are refused, and the margin taken off each of the others |
| AccessTokenServer.FetchOutcome | wechat/mp/core/access_token_server.go:137-190 | a fetch leaves a token if and only if one was granted for a lifetime from 61 to 31556952 seconds |
| AccessTokenServer.TokenAnswers | wechat/mp/core/access_token_server.go:64-69 | in every run `Token` answers at once with what the last fetch granted, and else asks for any token |
| AccessTokenServer.LastFetchIsLast | wechat/mp/core/access_token_server.go:89-113 | the last fetch is the last of either kind, for a caller or on the daemon's own account |
| AccessTokenServer.RefreshAsks | wechat/mp/core/access_token_server.go:76-80 | `RefreshToken` asks for what it is passed |
| AccessTokenServer.DaemonAnswers | wechat/mp/core/access_token_server.go:89-101 | a refresh of a token no longer cached is answered with the cached one, any other with what a fetch grants or an error |
| AccessTokenServer.TickerRule | wechat/mp/core/access_token_server.go:96-113 | when the period is set and to what, in nanoseconds |
| AccessTokenServer.DefaultAccessTokenServer.Token | wechat/mp/core/access_token_server.go:64-69 | the cached token at once if there is one, and else the protocol's request |
| AccessTokenServer.RunInv | wechat/mp/core/access_token_server.go:76-191 | every interleaving keeps the protocol, the log, the cache and the ticker sound |
| AccessTokenServer.DeliversOwnAnswer | wechat/mp/core/access_token_server.go:76-101 | whoever takes a response is the only caller waiting, and the response answers its own request |
| AccessTokenServer.NeverDeadlocks | wechat/mp/core/access_token_server.go:82-115 | from every reachable state five steps of the daemon answer any given caller |
| AccessTokenServer.Coalesces | wechat/mp/core/access_token_server.go:130-165 | once a rejected token is replaced, all who refresh it get another one without a fetch, until a fetch fails or grants it again |
| AccessTokenServer.FetchesOnce | wechat/mp/core/access_token_server.go:130-165 | from any state and for any number of callers at most one fetch answers refreshes of one token, until a fetch fails or grants it again |
| AccessTokenServer.ReusesOnlyReissued | wechat/mp/core/access_token_server.go:130-165 | a refresh comes back with the same token only if the endpoint granted it anew for that caller |
| AccessTokenServer.TickerIsTimely | wechat/mp/core/access_token_server.go:82-185 | the cache is the outcome of the last fetch; after a success the period is positive, fits int64, lies within 5 s of the reduced lifetime and at least 5 s below the granted one |
| AccessTokenServer.DefaultAccessTokenServer.UpdateToken | wechat/mp/core/access_token_server.go:130-191 | a hit leaves the cache alone, anything else leaves the outcome of the fetch in it, nothing after a failure |
| AccessTokenServer.DefaultAccessTokenServer.ServeRequest | wechat/mp/core/access_token_server.go:89-101 | the daemon's branch takes exactly the protocol's two steps and hands over their answer |
| AccessTokenServer.DefaultAccessTokenServer.ServeTick | wechat/mp/core/access_token_server.go:102-113 | the ticker branch takes exactly the protocol's step |
| AccessTokenServer.RefusingAnswers | wechat/mp/core/client.go:67-71 | the two codes that refuse a token are 40001 and 42001 |
| AccessTokenServer.SameTokenWasGranted | wechat/mp/core/access_token_server.go:76-165 | in any run, a refresh that comes back with the token it passed: between the call and its answer the daemon, serving this very call, fetched and was granted that token |
| AccessTokenServer.AnotherTokenComesBack | wechat/mp/core/access_token_server.go:76-165 | if no fetch between the call and its answer grants the token again, another one comes back |
| AccessTokenServer.CallWithRetry | wechat/mp/core/client.go:47-87 | at most two requests; the second only after the token was refused, with the refreshed token; the last reply is the result; the second uses the refused token again only if, in the run in which this refresh was answered and between the two, a fetch for it granted that token anew (`PostJSON` has the same loop) |
| Rendezvous.Registering | wsclient/ws.go:266-271 | a wait makes an entry for its key to an empty channel of its own |
| Rendezvous.Receiving | wsclient/ws.go:237-248 | a message goes to the channel of its key's entry, which is removed, or to the end of its key's queue |
| Rendezvous.Adding | wsclient/ws.go:253-263 | a message added goes to the end of its key's queue, entry or not |
| Rendezvous.Taking | wsclient/ws.go:273-275 | the message in its channel is the waiter's result |
| Rendezvous.TimingOut | wsclient/ws.go:276-281 | a timeout ends the waiting, and then the entry of the key goes, whoever's it is |
| Rendezvous.Draining | wsclient/ws.go:285-338 | a drain moves what it takes into a reply, and touches one queue only |
| Ledger.StepMoves | wsclient/ws.go:228-338 | a step moves messages only to where it says, each from its own place, and drops none but the one at which a drain breaks |
| Ledger.StepBrings | wsclient/ws.go:228-338 | what is not the message a step accepts, nor the copy of the last one that an overflow leaves, was moved there |
| Ledger.StepBalanced | wsclient/ws.go:228-338 | every step keeps the ledger balanced for every message |
| Rendezvous.RunInv | wsclient/ws.go:228-338 | every interleaving keeps messages under their keys and every registered channel empty |
| Rendezvous.NeverBlocks | wsclient/ws.go:237-240 | in every run a message lies under its own key, and the send under the lock never blocks |
| Ledger.Conservation | wsclient/ws.go:228-338 | in every run, message by message and counted: held plus dropped is accepted plus repeated, and every overflow drops one and repeats one; without overflow every accepted message is in exactly one place |
| Ledger.OverflowRun | wsclient/ws.go:317-334 | a run in which a drain loses the first of three messages and keeps the last one twice |
| Rendezvous.ResultIsFinal | wsclient/ws.go:266-282 | no waiter gets two messages |
| Rendezvous.ReachesTheWaiter | wsclient/ws.go:237-243 | a message for a registered key is at once ready for the waiter of that key, and only for it |
| Rendezvous.Hub.RecvMessage | wsclient/ws.go:228-250 | the code takes exactly the protocol's step, and the channel it sends to is empty |
| Rendezvous.Hub.AddMessageToPending | wsclient/ws.go:253-263 | the queues over shared arrays take exactly the protocol's step |
| Rendezvous.Hub.GetPendingMessages | wsclient/ws.go:285-338 | the drain over shared arrays takes exactly the protocol's step and returns what goes into the reply |
| Rendezvous.Hub.Register | wsclient/ws.go:266-271 | as the protocol's step, with a channel no other waiter has |
| Rendezvous.Hub.TakeFrom | wsclient/ws.go:273-275 | as the protocol's step, and the message returned is the waiter's result |
| Rendezvous.Hub.Forget | wsclient/ws.go:276-281 | as the protocol's step: the entry goes, whoever's it is |
| PendingQueue.PendingMessages.AddMessageToPending | wsclient/ws.go:253-263 | one user's queue grows by the message at its end, whether the array has room or not; all others stay |
| PendingQueue.PendingMessages.GetPendingMessages | wsclient/ws.go:285-338 | the taken prefix, its total, and what the in-place shift and the re-slice leave of the queue; all others stay |
| PendingQueue.TakenIsLongest | wsclient/ws.go:303-328 | what is taken is the longest prefix within 2047 bytes |
| PendingQueue.TotalExactly | wsclient/ws.go:324-326 | the total is the bytes of the texts and 21 for each |
| PendingQueue.TakenWithin | wsclient/ws.go:303-328 | a prefix is taken if and only if with it the reply stays within 2047 bytes |
| PendingQueue.RemainingExactly | wsclient/ws.go:317-334 | what a drain leaves, message by message, with `clear` and without |
| PendingQueue.MarkerBytes | wsclient/ws.go:317 | the marker is 21 bytes of UTF-8, and which |
| PendingQueue.GapClosed | wsclient/ws.go:320-333 | what closing the gap in the shared array looks like through the shorter and through the old window |
| PendingQueue.OverflowShifts | wsclient/ws.go:317-334 | on overflow the untaken rest survives if and only if only copies of one message follow the break; the ledger of what is dropped and what is repeated |
| PendingQueue.DrainLeavesRest | wsclient/ws.go:297-334 | for a queue without repeats: the rest survives if and only if the drain takes all or breaks at the last message |
| PendingQueue.ThreeOverflow | wsclient/ws.go:317-334 | three messages behind a full reply: the first is lost, the last is there twice |
| PendingQueue.Assemble | main.go:619-633 | the loop puts the history in front of the reply in reverse queue order |
| PendingQueue.StackAppend | main.go:619-633 | a later message comes before all earlier ones |
| PendingQueue.StackedInFront | main.go:632 | the message, a line break, the marker, a line break, and what was there before |
| PendingQueue.ReplyBudget | main.go:608-633 | the reply is the budgeted total plus two bytes for each message, at most 2241 bytes if the bare reply fits |
| AesEnvelope.EncryptUndoesDecrypt | wechat/internal/util/aes_crypto.go:54-58 | chained encryption undoes chained decryption |
| AesEnvelope.DecryptUndoesEncrypt | wechat/internal/util/aes_crypto.go:75-87 | chained decryption undoes chained encryption |
| AesEnvelope.DecodeBigEndian | wechat/internal/util/aes_crypto.go:10-23 | reading the four bytes back gives the length modulo 2^32 |
| AesEnvelope.BigEndianDecode | wechat/internal/util/aes_crypto.go:10-23 | any four bytes are the bytes of the number read from them |
| AesEnvelope.XorAt | wechat/internal/util/aes_crypto.go:54-58 | a bit of an exclusive or is set if and only if the two bytes differ in it |
| AesEnvelope.BitWeights | wechat/internal/util/aes_crypto.go:54-58 | the bits are those of weight 1, 2, 4 and so on |
| AesEnvelope.ChainedExactly | wechat/internal/util/aes_crypto.go:54-58 | a ciphertext is the chained encryption if and only if every block is the encryption of the plaintext block xor-ed, bit by bit, with the ciphertext block before it or the iv |
| AesEnvelope.LaidOut | wechat/internal/util/aes_crypto.go:26-52 | the plaintext byte by byte: random, length with its highest byte first, message, appId, padding |
| AesEnvelope.AESEncryptMsg | wechat/internal/util/aes_crypto.go:26-60 | the buffer filled, padded and encrypted in place is the chained encryption, block by block, of the plaintext with this layout |
| AesEnvelope.AESDecryptMsg | wechat/internal/util/aes_crypto.go:63-117 | parts or error as specified for every ciphertext, with no slice out of bounds |
| AesEnvelope.DecryptsExactly | wechat/internal/util/aes_crypto.go:63-117 | parts come out if and only if the ciphertext is whole 32-byte blocks and the chained encryption, block by block, of a buffer whose last byte is from 1 to 32 and which without that many bytes they fill |
| AesEnvelope.UnframeExact | wechat/internal/util/aes_crypto.go:97-117 | an unpadded buffer is accepted if and only if it is a frame, with the parts it frames |
| AesEnvelope.RoundTrip | wechat/internal/util/aes_crypto.go:26-117 | decryption gives back random, message and appId if and only if the appId is not empty and the message is below 2^32 bytes |
| AesEnvelope.Refuses | wechat/internal/util/aes_crypto.go:99-112 | of what was encrypted, exactly the empty appId is refused |
| AesEnvelope.LongMessageWraps | wechat/internal/util/aes_crypto.go:10-15 | what becomes of a longer message |
| AesEnvelope.AcceptsExactly | wechat/internal/util/aes_crypto.go:63-117 | which ciphertexts are accepted, and that the parts fill the unpadded buffer |
| AesEnvelope.ReEncrypt | wechat/internal/util/aes_crypto.go:90-96 | accepted parts encrypt to the same ciphertext if and only if all its padding bytes agree |
| TokenRotation.SettingAToken | wechat/mp/core/server.go:112-128 | a token other than the empty and the current one becomes current, and that one the previous; any other changes nothing |
| TokenRotation.Loading | wechat/mp/core/server.go:104-109 | a request sees the bucket as it is when it loads it |
| TokenRotation.Checking | wechat/mp/core/server.go:239-265 | under which of the two tokens a check accepts, and when the previous one has to be retired |
| TokenRotation.RetiringToken | wechat/mp/core/server.go:130-147 | a retirement takes the previous token away if and only if it is still the one that the request saw |
| TokenRotation.CurrentIsSound | wechat/mp/core/server.go:104-147 | in every run the current token is never empty and never the previous one |
| TokenRotation.AcceptedOnlyUnderKnownToken | wechat/mp/core/server.go:239-265 | in every run whoever is accepted has signed under a token set at some time; a check fails if and only if neither loaded token fits |
| TokenRotation.GraceStep | wechat/mp/core/server.go:130-147 | while no request is stale, no step but a real change of token or a retirement under the current token touches the bucket, and nobody becomes stale |
| TokenRotation.GraceExact | wechat/mp/core/server.go:104-265 | setting a token gives the one it replaces its full grace in every later run if and only if no request is stale at that moment: none has verified, or will, under a third token with the replaced one as its previous |
| TokenRotation.WithoutReuseNobodyIsStale | wechat/mp/core/server.go:112-128 | replacing a token that was set only once finds nobody stale |
| TokenRotation.PreviousTokenStaysAccepted | wechat/mp/core/server.go:104-265 | in every run, when nobody is stale the replaced token stays accepted until another one is set or a request signed under the new one retires it |
| TokenRotation.ReuseEndsGraceEarly | wechat/mp/core/server.go:130-147 | a run with a reused value and a stale request, in which the grace ends early |
| TokenRotation.Server.SetToken | wechat/mp/core/server.go:112-128 | refuses exactly the empty token and otherwise takes the protocol's step |
| TokenRotation.Server.RemoveLastToken | wechat/mp/core/server.go:130-147 | takes exactly the protocol's step |
| TokenRotation.Server.VerifySignature | wechat/mp/core/server.go:239-265 | when nothing runs in between, the check and the retirement are the protocol's steps for the request, and the token returned is the one it was accepted under |
| FastEnvelope.XmlUnmarshal | wechat/mp/core/server.go:556-626 | the specified fields or the fallback, with no slice out of bounds |
| FastEnvelope.TakeElement | wechat/mp/core/server.go:565-590 | reads what the specification reads, for either element |
| FastEnvelope.NoOverlap | wechat/mp/core/server.go:556-562 | `<xml>` and `</xml>` cannot overlap |
| FastEnvelope.ReadsExactly | wechat/mp/core/server.go:565-590 | an element is read as a value and a rest if and only if it is the first with its tag, with blanks around one CDATA section that holds exactly that value |
| FastEnvelope.UserNameFirst | wechat/mp/core/server.go:556-626 | with the user name first the fast path returns exactly both values, if and only if neither contains `]]>` |
| FastEnvelope.MessageFirst | wechat/mp/core/server.go:556-626 | the same with the message first, if it does not open a user name |
| FastEnvelope.NoTagIn | wechat/mp/core/server.go:566-594 | blanks and base64 open no element |
| FastEnvelope.SpaceRuneExactly | wechat/mp/core/server.go:557-614 | what is trimmed is the UTF-8 encodings of the White_Space code points and nothing else |
| FastEnvelope.TrimmedExactly | wechat/mp/core/server.go:557 | trimming takes all white space off both ends and nothing else |
| FastEnvelope.FieldsExactly | wechat/mp/core/server.go:564-622 | the fields are those of the first user name and of the first message after it, or of all |
| FastEnvelope.ParsedExactly | wechat/mp/core/server.go:556-562 | a body is read by the fast path if and only if it is, trimmed, an `xml` element with such fields |
| FastEnvelope.SentBody | wechat/mp/core/server.go:548-555 | the body as it is sent is read back, for every two values without `]]>` |
| Middleware.Context.Next | wechat/mp/core/context.go:58-67 | terminates at any nesting; leaves no handler uninvoked unless somebody aborts; invokes none after an abort |
| Middleware.Context.Abort | wechat/mp/core/context.go:53-55 | marks the context aborted for good and invokes nothing |
| Middleware.Context.IsAborted | wechat/mp/core/context.go:48-50 | answers exactly whether Abort ran |
| Middleware.Context.SetHandlers | wechat/mp/core/context.go:72-85 | panics exactly for a chain that is too long or has a nil handler, or a context that has started or was aborted |
| Middleware.CombineHandlerChain | wechat/mp/core/handler.go:354-359 | panics exactly beyond 64 handlers; otherwise the middlewares come first and the handlers after them, and the chain is short enough for the abort index |
| Middleware.Context.Serve | wechat/mp/core/handler.go:63-84 | the handlers invoked are 0, 1, up to some m, without repeats, all of them if nobody aborts; m and whether somebody aborted are what the handlers' calls come to |
| Middleware.AbortedExactly | wechat/mp/core/context.go:48-67 | somebody aborted if and only if one of the handlers invoked is one that does |
| Middleware.StopsAtAbort | wechat/mp/core/context.go:48-67 | the first handler that aborts without calling `Next` before is the last one invoked |
| Middleware.OthersFirst | wechat/mp/core/context.go:48-67 | an abort after a call of `Next` comes too late for the others |
| LowerCase.ToLower | wechat/internal/util/to_lower.go:6-28 | the lazily made buffer ends up as the lower case of every byte |
| LowerCase.LoweredBytes | wechat/internal/util/to_lower.go:10-21 | the bytes 65 to 90 become the ones 32 above, all others stay |
| LowerCase.SameKeyExactly | wechat/mp/core/handler.go:87-102 | two types reach the same chain if and only if they agree up to the case of ASCII letters |
| RateLimiter.RateLimiter.CheckAndUpdateRateLimit | server/uploadpic.go:185-198 | the list stays all attempts of the address within the last minute, other addresses are untouched, and the verdict is the recorded one |
| RateLimiter.NewCall | server/uploadpic.go:190-197 | deciding on the trimmed list is deciding on the whole history |
| RateLimiter.RecentExactly | server/uploadpic.go:192-195 | what is kept is the attempts of the last 60 seconds, all of them and no older one |
| RateLimiter.AcceptedAreRecent | server/uploadpic.go:192-197 | what was let through in a window is among the attempts recent at its end |
| RateLimiter.WindowBound | server/uploadpic.go:185-198 | of the calls of a whole run at most the limit are let through in any closed interval of 60 seconds |
| PaySignature.Sign2 | wechat/mch/core/sign.go:30-62 | the signature hashes the canonical string, in whatever order the map yields its keys |
| PaySignature.StringOfTwo | wechat/mch/core/sign.go:30-58 | the string of two parameters, the lower name first |
| PaySignature.WriteParams | wechat/mch/core/sign.go:43-56 | the writes add up to the specified text |
| PaySignature.CanonicalOfSigned | wechat/mch/core/sign.go:30-62 | the string does not depend on `sign` or on parameters without a value |
| PaySignature.ReadCanonical | wechat/mch/core/sign.go:30-62 | without `=` in names and `&` in values and key the string can be read back |
| PaySignature.StringDeterminesParams | wechat/mch/core/sign.go:30-62 | two such messages hash the same string if and only if they agree in all parameters with a value and in the key |
| PaySignature.TwinHashesTheSame | wechat/mch/core/sign.go:30-62 | every message with two valued parameters or more hashes the same string as another one, which has one parameter |
| PaySignature.SeparatorInValue | wechat/mch/core/sign.go:43-56 | two different messages with one string, when a value holds `&` |
| PaySignature.SeparatorInName | wechat/mch/core/sign.go:43-56 | when a name holds `=` |
| PaySignature.SeparatorInApiKey | wechat/mch/core/sign.go:43-58 | when the key holds `&` |
| PaySignature.HashesByType | wechat/mch/core/client.go:113-122 | which hash each `sign_type` stands for, and that there is no other |
| PaySignature.AcceptsExactly | wechat/mch/core/server.go:187-209 | a notification is let through if and only if it has no `sign` but `req_info`, or its `sign` is the hash of its string by its type |
| PaySignature.CheckSignature | wechat/mch/core/server.go:187-209 | the check in code decides exactly that |
| PaySignature.CompletedExactly | wechat/mch/core/client.go:113-132 | what the client sends: nothing under an unknown type, its own `sign` if it has one, else the hash |
| PaySignature.Complete | wechat/mch/core/client.go:113-132 | the completion in code does exactly that |
| PaySignature.ServerAcceptsClient | wechat/mch/core/server.go:187-203 | what the client signed the server accepts under the same key, whatever empty parameters came or went |
| PaySignature.AcceptedIsUnchanged | wechat/mch/core/server.go:187-203 | a message accepted with the client's signature agrees with what the client signed, or two different strings have one hash; if `sign_type` was changed on the way, one of the two is hashed the one way and the other the other |

## Left out

- The HTTP branches of the id store (the `...v2` functions), its config bucket, `CheckValue`, and the errors of bolt itself (empty or over-long keys, files): I/O.
- RetrieveRowByIDPro, RetrieveVirtualValue and the other lookups that read the same keys the same way: they would only add easy members.
- IdMapRuns.RunInv: asks of each step what its callers must see to. Ids hold no `:`, do not start with `row-` and are not `currentRow` (`IdMapLimits` shows what each of these does) and are not empty (bolt refuses them, and the code ignores that error). With a counter, rebinds go to rows it has passed and it has not reached the end of int64; a new pair does not hash to rows in use. A renaming may fail, be to the same id, or be one that keeps the index in every order (`RenameOrders.KeepsPairsExactly`).
- RenameOrders.OrderMattersExactly: asks that no member's rows are another member; if they are, some order fails (`RenameOrders.SucceedsExactly`), and with names new to the group every order does (`PairIndex.RenameSucceedsExactly`). What the orders that go through leave when besides a new name is a member's, which takes an id with a colon, is not modelled.
- RowKeys.ScanPair: reads what the store itself writes as `fmt.Sscanf` does; leading white space in a foreign value is not modelled.
- Routing.ReplyReachesWhoAsked: covers the group path, where the user's own id is stored; the private path stores the account's id. The mode that sends string ids through another table is not modelled.
- AccessTokenServer.Coalesces: like `FetchesOnce` it says nothing about refreshing the empty token, which always asks the endpoint.
- AccessTokenServer.NeverDeadlocks: shows that the daemon can always answer; that the scheduler lets it is not modelled. The ticket servers of `wechat/mp/jssdk` are the same machine with other names.
- Ledger.Conservation: says nothing about liveness. A second request of one user replaces the first one's entry, the first timeout deletes whatever entry is there, and a message may stay in the channel of a waiter that timed out. Every acceptance counts as a message of its own: `main.go:937` queues a message again that a waiter has already received, and under the row it names rather than the user, and the ledger takes it for a new one. Drains without `clear`, which no caller makes, are in `PendingQueue` only.
- PendingQueue.PendingMessages.AddMessageToPending: where Go's `append` grows the array, the new capacity is some larger number; the contents do not depend on it. The text of a message is opaque, so parsing structured messages is left out.
- AesEnvelope.AESDecryptMsg: takes the length as an unbounded number; on a 32-bit platform the code has a further branch for lengths that turn negative. A key of the wrong size, for which the code panics, is not modelled. Neither is `AESDecryptData`.
- TokenRotation.Server.VerifySignature: the signature of a request's timestamp and nonce under a token is an arbitrary function of the request and the token; the AES key bucket rotates in the same way.
- FastEnvelope.XmlUnmarshal: handing the body to `encoding/xml` is the result `None`; what that library reads is not modelled.
- Middleware.CombineHandlerChain: chains are values, so chains of different types that share spare capacity of one middleware slice are not modelled, nor are registration, its nil checks and the defaults of `ServeMux`.
- RateLimiter.RateLimiter.CheckAndUpdateRateLimit: is one call at a time, with a clock that does not go back; the code has no lock around its map.
- PaySignature.Sign2: the hash stands for the digest and its upper-case hexadecimal form.
- The message rewriting of `praser` and `ProcessMessage`, media uploads, the web interface and the API wrappers: I/O, regular expressions and unseen libraries.
