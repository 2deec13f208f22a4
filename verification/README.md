# zkCertificate queue processor: a verified model

The program watches zkCertificate registry contracts on an EVM chain. Guardians queue issuances and
revocations of certificates in a contract; a processor carries them out one by one, in order, by
submitting Merkle proofs; a scanner reads the contracts' events in chunks and fills a mirror of the
queues. The model composes these parts and proves what they guarantee together.

| part | modules |
|---|---|
| What all parts share | `Common` |
| The contract: Merkle tree, storage, transactions, runs and what holds in every reachable storage | `MerkleTree`, `CertificateRegistry`, `QueueDiscipline`, `TreeDiscipline`, `RegistrySafety`, `QueueProgress`, `TreeCapacity` |
| The processor's tick over a contract that moves between its reads | `QueueProcessor` |
| The nonce shared by all goroutines, its interleavings and the retry loop | `NonceAllocator`, `NonceInterleaving`, `NonceUniqueness`, `RetryLaws` |
| The chunked scanner, over polls, cycles, failures and confirmation depths | `ChainLogs`, `EventScanner`, `ScannerLaws`, `ConfirmationDepth`, `ScannerCycles` |
| The mirror queues and the path from contract storage to mirror | `MirrorQueue`, `EndToEnd`, `Startup` |

The contract is in the repository only as ABI and bytecode (`zkregistry/zkcertificate_registry_replica.go`,
lines 41 and 42); `CertificateRegistry` states the rules decoded from the bytecode. Objects that are
updated in place are classes; each method's `ensures` equates the new state with a specification
function, and the laws are proved about these functions over all runs. Every lemma carries
`{:induction false}`, so each induction is written out and nothing rests on a guessed hypothesis.

Assumptions. `CollisionFree(H)` says that the compression function has no collisions at all. It is a
hypothesis of the lemmas about what the tree holds; those about the queue, about which roots are
accepted by position and about when a resent or late transaction takes effect do without it. The depth
of the tree and the empty leaf are parameters, so the results hold for every depth and every empty
leaf. Whether a sender is a whitelisted guardian, what the proof service, the node and the pool answer,
and how goroutines interleave are arbitrary.

What the code does not guarantee, with the exact condition under which it does:

- The contract does not refuse the empty leaf's own value as a certificate. Revocation is safe for all
  certificates exactly as long as that value has not been carried through its revocation
  (`RegistrySafety.RevocationSafeExactly`; witness `RegistrySafety.ZeroCanBeRevoked`).
- processNextOperation does not say which operation is meant: an issuance transaction sent twice can
  carry out the revocation. It does exactly if that revocation is the head and the latest root is the
  one the issuance produced (`RegistrySafety.ReplayTakesEffectExactly`; witness
  `RegistrySafety.ReplayedIssuanceRevokes`). Likewise an issuance dispatched by a tick but executed
  late carries out the pending revocation exactly if its proof opens the certificate's leaf by then
  (`QueueProcessor.LateDispatchTakesEffectExactly`), for a proof honest when it was made exactly if the
  certificate was written on that very leaf and the rest of the tree is unchanged
  (`QueueProcessor.EarlierProofTakesEffectExactly`; witness `QueueProcessor.LateIssuanceRevokes`).
- A queue can be blocked for good (`QueueProgress.FullTreeBlocksForEver`): exactly if the tree is full
  and the head is an issuance, or any operation on the empty leaf's value, its revocation included
  (`QueueProgress.StuckExactly`; witnesses of both kinds for every depth `TreeCapacity.EveryTreeCanBlock`).
  How far a processor left alone gets: `QueueProcessor.QuietRunDrainsExactly`.
- The option comment says events wait for their confirmations; the code skips a young event and moves
  the cursor past it, so it is never published. Delivery is complete exactly if no event was younger
  than the depth at the poll that covered it (`ConfirmationDepth.DepthIsCompleteExactly`; witness
  `ConfirmationDepth.YoungEventIsLost`). main.go uses depth 0.
- `submitWithRetry` reports no error and submits nothing exactly if `maxRetries <= 0`
  (`RetryLaws.SuccessNeedsAnAttempt`); its backoff is right exactly up to attempt 33
  (`RetryLaws.BackoffExactUpTo33`). The callers pass 3.
- Nonces are not unique across resets (witness `NonceUniqueness.SameNonceAcrossReset`). For the
  goroutines the program runs they are, from any moment to the next reset, exactly if those in flight
  differ and none of them can be handed to another one (`NonceUniqueness.UniqueAmongExactly`).
- `RegisterContractFromCurrent` is documented to start at the current block. It does exactly if the
  service is connected and the node answers, or the head is 0
  (`EventScanner.EvmService.RegisterContractFromCurrent`). main.go calls it before the service is
  connected, so it starts at block 0 (`Startup.StartUp`).
- The scanner may publish logs before the processor subscribes; they, and nothing else, are missing from
  the mirror (`EndToEnd.LateSubscription`). So after main.go's start-up a registry is mirrored
  completely exactly if its configured start block, if any, does not come after its first request and
  no request of it was among those logs (`Startup.StartupMirrorsCompletely`; witness
  `Startup.RequestBeforeSubscriptionIsLost`).

## Model

| member | source | states |
|---|---|---|
| `MerkleTree.ComputeRoot` | zkregistry/zkcertificate_registry_replica.go:42 | The contract's proof fold reverts exactly if the index is not below 2^depth or the proof has another length than the depth; otherwise the loop, walking the levels by the low bit of the index, computes the recursive fold |
| `MerkleTree.ComputeEmptyRoot` | zkregistry/zkcertificate_registry_replica.go:42 | The constructor's loop computes the root of a full row of 2^depth empty leaves |
| `MerkleTree.RootOfHalves` | zkregistry/zkcertificate_registry_replica.go:42 | The level-by-level root is the textbook recursive one: the compression of the roots of the two halves |
| `MerkleTree.FoldRewrites` | zkregistry/zkcertificate_registry_replica.go:42 | Folding any leaf along the honest proof of a position gives the root of the row with that leaf written there, at any depth |
| `MerkleTree.FoldBinds` | zkregistry/zkcertificate_registry_replica.go:42 | A proof that folds to the root opens the leaf really stored at that index and is the only such proof |
| `MerkleTree.ProofAcceptedExactly` | zkregistry/zkcertificate_registry_replica.go:42 | A proof folds to the root if and only if the leaf is the stored one and the proof is the honest one |
| `MerkleTree.AcceptedProofRewritesOneLeaf` | zkregistry/zkcertificate_registry_replica.go:42 | Whatever index and proof are submitted, if the old leaf folds to the current root, the new leaf folds to the root of the same row with that one leaf replaced |
| `MerkleTree.RootDeterminesLeaves` | zkregistry/zkcertificate_registry_replica.go:42 | Two rows with the same root are the same row |
| `CertificateRegistry.RegistryContract.constructor` | zkregistry/zkcertificate_registry_replica.go:42 | The deployed storage: roots [0, empty root], index 1 for the empty root, valid index 1, empty queue, pointer 0 |
| `CertificateRegistry.RegistryContract.AddOperationToQueue` | zkregistry/zkcertificate_registry_replica.go:41-42 | addOperationToQueue leaves exactly the storage of the specification, or reverts and changes nothing: guardian check, operation code, state, same guardian for a revocation |
| `CertificateRegistry.RegistryContract.ChangeLeafHash` | zkregistry/zkcertificate_registry_replica.go:42 | The internal leaf change pushes the new root and indexes it, or reverts and changes nothing |
| `CertificateRegistry.RegistryContract.ProcessNextOperation` | zkregistry/zkcertificate_registry_replica.go:41-42 | processNextOperation leaves exactly the storage of the specification, or reverts and changes nothing: turn, state dispatch, leaf change, valid index after a revocation, pointer |
| `CertificateRegistry.RegistryContract.VerifyMerkleRoot` | zkregistry/zkcertificate_registry_replica.go:41-42 | Under the class invariant, which the constructor establishes and every transaction keeps, verifyMerkleRoot answers whether the root is among merkleRoots[merkleRootValidIndex..] |
| `QueueDiscipline.NextKeepsQueue` | zkregistry/zkcertificate_registry_replica.go:42 | Every transaction of anybody keeps the queue invariant: events mirror the queue, operations carried out are the queue up to the pointer, counts and positions agree with the state of every certificate |
| `QueueDiscipline.AcceptedIsHead` | zkregistry/zkcertificate_registry_replica.go:42 | A processNextOperation that goes through carries out the entry at the pointer, whatever was submitted with it |
| `QueueDiscipline.EntriesFollowState` | queueprocessor/processor.go:27-33 | In every reachable storage a hash occurs 0, 1 or 2 times in the queue as its state 0, 1-2, 3-4 says; queueIndex is its last occurrence; the pointer has not passed it if and only if the state is 1 or 3 |
| `QueueDiscipline.InTurnIsHead` | queueprocessor/processor.go:324-335 | For a hash that was ever queued, isZkCertificateInTurn holds if and only if the hash is queue[pointer]; for any other, if and only if the pointer is 0 |
| `QueueDiscipline.HeadIsPending` | queueprocessor/processor.go:306-322 | The entry at the pointer belongs to a certificate in state 1 or 3 and is the last entry of it |
| `QueueDiscipline.ProcessedExactlyOnceInOrder` | queueprocessor/processor.go:258-344 | Over any interleaving of guardians, ticks, duplicates and several processors the operations carried out are exactly queue[0..pointer] in order; one certificate's two are its issuance, then its revocation by the same guardian |
| `QueueDiscipline.RequestAcceptedExactly` | zkregistry/zkcertificate_registry_replica.go:41-42 | A request is accepted if and only if a whitelisted sender asks for the issuance of a hash never queued, or for the revocation of a hash whose only entry is an issuance of its own, already carried out |
| `QueueDiscipline.EntriesWereRequested` | zkregistry/zkcertificate_registry_replica.go:41-42 | Every operation queued or carried out was asked for by the guardian its event names, whitelisted at that time |
| `QueueDiscipline.RunIsMonotone` | queueprocessor/processor.go:27-33 | Queue, events and pointer only grow, and the state of a certificate never goes back; state 4 is terminal |
| `QueueDiscipline.ReplayNeverRepeats` | queueprocessor/processor.go:477-486 | A transaction that went through and is sent again at any later time reverts, or the first time it was an issuance and now it carries out the queued revocation of the same certificate; never the same entry again |
| `TreeDiscipline.AcceptedRewritesOneLeaf` | zkregistry/zkcertificate_registry_replica.go:42 | A processNextOperation that goes through replaces exactly one leaf of the tree behind the latest root, the empty one by h or h by the empty one, and pushes the root of the result |
| `TreeDiscipline.NextKeepsTree` | zkregistry/zkcertificate_registry_replica.go:42 | Every transaction keeps: each pushed root is the root of its recorded row, each root's index is its last position; and, for certificates other than the empty leaf's value, the leaves of the current row are those in state 2 or 3, at one position each, and revoked ones are in no row still accepted |
| `RegistrySafety.AcceptedRootsAreRecent` | zkregistry/zkcertificate_registry_replica.go:42 | In every reachable storage, whatever the compression function, verifyMerkleRoot accepts exactly the roots merkleRoots[merkleRootValidIndex..] |
| `RegistrySafety.AcceptedSinceLastRevocation` | zkregistry/zkcertificate_registry_replica.go:42 | A root is accepted if and only if the tree once had it and no revocation was carried out since |
| `RegistrySafety.RevokedNeverAccepted` | zkregistry/zkcertificate_registry_replica.go:42 | In every reachable storage, no tree whose root is accepted has a revoked certificate (other than the empty leaf's value) as a leaf |
| `RegistrySafety.RevocationSafeExactly` | zkregistry/zkcertificate_registry_replica.go:42 | The same for all certificates, the empty leaf's value included, holds if and only if nobody carried that value through its revocation |
| `RegistrySafety.ZeroCanBeRevoked` | zkregistry/zkcertificate_registry_replica.go:42 | Some run does carry it through, because addOperationToQueue does not refuse it: safety without that condition fails |
| `RegistrySafety.ReplayTakesEffectExactly` | zkregistry/zkcertificate_registry_replica.go:42 | A transaction that went through takes effect a second time, at any later moment of any run, if and only if it was an issuance, the head is by then the revocation of the same certificate, and the latest root is the one the issuance produced |
| `RegistrySafety.ReplayedIssuanceRevokes` | queueprocessor/processor.go:477-486 | Witness: for every certificate and depth, the payload that issued it, sent a second time while its revocation is the head, revokes it |
| `RegistrySafety.SubmissionCarriesOutHead` | queueprocessor/processor.go:469-486 | Whatever index, hash and proof the processor or anybody submits to a reachable storage: nothing changes, or the head is carried out in the queue, the tree and the roots |
| `RegistrySafety.LeavesAreConserved` | queueprocessor/processor.go:27-33 | The number of non-empty leaves equals the number of certificates in state 2 or 3 other than the empty leaf's value, each at exactly one leaf |
| `QueueProgress.HeadAdvancesExactly` | queueprocessor/processor.go:518-535 | The pointer moves if and only if the honest proof of the leaf the head needs is submitted; that leaf is in the tree if and only if the head is the revocation of a certificate other than the empty leaf's value, or there are fewer certificates in state 2 or 3, that value not counted, than leaves |
| `QueueProgress.FullTreeBlocksForEver` | zkregistry/zkcertificate_registry_replica.go:42 | If the head needs a leaf the tree lacks, no sequence of transactions moves the pointer or the tree again |
| `QueueProgress.StuckExactly` | zkregistry/zkcertificate_registry_replica.go:42 | That is so, for every head, if and only if it is an issuance or an operation on the empty leaf's value, and the certificates in state 2 or 3 other than that value are as many as the leaves |
| `QueueProgress.AdvanceChangesStored` | zkregistry/zkcertificate_registry_replica.go:42 | Carrying out an entry adds one certificate to the tree or removes one, as the entry says, and neither for the empty leaf's value |
| `TreeCapacity.Fill` | zkregistry/zkcertificate_registry_replica.go:42 | For every number up to 2^depth there is a run that issues that many certificates, and the empty leaf's value if wanted, and leaves the queue done |
| `TreeCapacity.EveryTreeCanBlock` | zkregistry/zkcertificate_registry_replica.go:42 | For a tree of any depth some run ends blocked by an issuance, and some run by a revocation, that of the empty leaf's value |
| `QueueProcessor.TickSubmitsExactly` | queueprocessor/processor.go:258-344 | For any reads, answers and key, what a tick submits: a given submission if and only if there is a private key, all five reads were answered, the pointer is below the length read, the item read there is in turn and in the state of that operation, and the proof service gave that answer for it; nothing otherwise |
| `QueueProcessor.StaleDispatchIsNearlyRight` | queueprocessor/processor.go:306-344 | With arbitrary transactions between the five reads of a tick, a dispatch is for the head of the queue at the turn read, which is pending; a mismatch between the states read can only be issuance read, revocation pending now |
| `QueueProcessor.LateDispatchTakesEffectExactly` | queueprocessor/processor.go:455-535 | Whatever the proof service answered, a dispatch executed while the revocation of its certificate is pending takes effect if and only if the certificate is in turn and the proof opens its leaf in the tree of that moment |
| `QueueProcessor.EarlierProofTakesEffectExactly` | queueprocessor/processor.go:463-486 | With a proof of an empty leaf honest for an earlier row, such an issuance carries out the revocation if and only if the row is that earlier one with the certificate written on that very leaf |
| `QueueProcessor.LateIssuanceRevokes` | queueprocessor/processor.go:455-486 | Witness: for every certificate other than the empty leaf's value and every depth, a tick dispatches an issuance with an honest proof, another processor issues the certificate first, its revocation is queued, and the late issuance carries it out |
| `QueueProcessor.WrongDispatchIsRefused` | queueprocessor/processor.go:455-486 | With a proof of an empty leaf honest for the tree at the execution, it takes effect if and only if the certificate is the empty leaf's own value, in turn, and the proof has the tree's size; otherwise it changes nothing |
| `QueueProcessor.QuietTickAdvances` | queueprocessor/processor.go:258-344 | A tick with nobody else acting and an honest proof service moves the pointer by one, unless the queue is done or the head needs a leaf the tree lacks |
| `QueueProcessor.QuietRunDrainsTheQueue` | queueprocessor/processor.go:242-256 | k such ticks move the pointer by k, up to the end of the queue, or end blocked |
| `QueueProcessor.QuietRunCarriesOutExactly` | queueprocessor/processor.go:242-256 | k such ticks move the pointer by exactly k or by the number of remaining entries the tree has room for, whichever is less |
| `QueueProcessor.QuietRunDrainsExactly` | queueprocessor/processor.go:242-256 | Enough such ticks empty the queue if and only if, along the remaining entries, there are fewer certificates than leaves whenever an entry needs an empty leaf |
| `NonceAllocator.PrepareExactly` | queueprocessor/processor.go:384-410 | An error means a bad key, or no nonce cached and no answer of the node, and leaves the cache as it was; otherwise the cached nonce, or else the node's, is handed out and the next one cached |
| `NonceAllocator.Sender.PrepareTransactor` | queueprocessor/processor.go:384-410 | The same of the method that updates the cache |
| `NonceAllocator.Sender.SubmitWithRetry` | queueprocessor/processor.go:413-452 | The loop computes the outcome, the calls, the sleeps and the cache of the recursive specification, for any number of retries and any interference by others before each allocation and during each submission |
| `NonceInterleaving.PendingNonceAt` | queueprocessor/processor.go:393-400 | The node's answer is the least nonce from the mined base on that has no transaction |
| `NonceInterleaving.NextKeepsInvariant` | queueprocessor/processor.go:392-403 | Every step of every goroutine, of the pool and of the miner keeps the allocator's invariant |
| `NonceInterleaving.NoNonceSkipped` | queueprocessor/processor.go:392-449 | In every reachable interleaving each nonce between the mined base and the cached one has a transaction, or was handed out since the last reset and is in flight or failed with its reset due |
| `NonceInterleaving.AtRestNothingIsMissing` | queueprocessor/processor.go:420-449 | With no attempt outstanding every nonce below the cached one has a transaction |
| `NonceInterleaving.HandedOutInOrder` | queueprocessor/processor.go:392-403 | Between two resets the nonces handed out are pairwise different and form a gap-free interval from the node's answer to the cached nonce |
| `NonceUniqueness.UniqueAmongExactly` | queueprocessor/processor.go:171-182 | For any fixed set of goroutines, as the program runs one for each registry: until the next reset no two of them can come to hold the same nonce in flight if and only if those in flight differ and no member that waits for no reset can be handed the nonce of another, its next one (after its own submission is accepted) being at most that one |
| `NonceUniqueness.UniqueUntilResetExactly` | queueprocessor/processor.go:392-403 | If goroutines could be started at any time: the same if and only if the nonces in flight differ and are all below the next one to be handed out, which after a reset is the node's answer; for a fixed set this condition is enough but not needed |
| `NonceUniqueness.AboveButAlone` | queueprocessor/processor.go:420-425 | Witness that it is not needed: with two goroutines a nonce above the node's answer can be safe |
| `NonceUniqueness.SameNonceAcrossReset` | queueprocessor/processor.go:420-425 | Witness: after a reset two goroutines hold the same nonce at the same time |
| `RetryLaws.ReportIsTruthful` | queueprocessor/processor.go:413-452 | For maxRetries >= 1 no error is reported if and only if the last submission was accepted and no other was; the nonce of the last submission and 1 <= attempts <= maxRetries are reported, and the next nonce is cached unless others changed the cache during the submission; after an error none was accepted and the cache is empty |
| `RetryLaws.SuccessNeedsAnAttempt` | queueprocessor/processor.go:413-452 | The absence of an error means an accepted submission if and only if maxRetries >= 1 |
| `RetryLaws.NoAttemptAtAll` | queueprocessor/processor.go:413-452 | With maxRetries <= 0 no error is reported, nothing is submitted or slept, and the cache is emptied |
| `RetryLaws.RetriesAskTheNode` | queueprocessor/processor.go:413-446 | Each attempt made submits exactly if its key is fine and a nonce is known; every attempt but the first uses the node's answer, unless other goroutines filled the cache after the reset |
| `RetryLaws.BackoffExactUpTo33` | queueprocessor/processor.go:427 | The backoff before attempt k is 2^k seconds if and only if k <= 33; beyond, the 64-bit arithmetic overflows |
| `RetryLaws.BackoffWraps` | queueprocessor/processor.go:427 | For every k it is 2^k seconds up to a multiple of 2^64 nanoseconds |
| `RetryLaws.WaitsExactly` | queueprocessor/processor.go:427-428 | For 1 <= maxRetries <= 34 the total of the sleeps is exactly 2^attempts - 2 seconds |
| `RetryLaws.RetryRecovers` | queueprocessor/processor.go:420-440 | Undisturbed, with a pool that refuses used nonces only, submission succeeds if and only if the cached nonce is usable or maxRetries >= 2, in one or two attempts, with a nonce not used before |
| `EventScanner.EvmService.constructor` | evm/options.go:22-76 | Whatever options are given in whatever order: the last confirmation depth, the last block range above 1 (at least 2, default 10000) and the last default start block count, the filters add up, the contracts are those spelled by some key, each cursor is at its start block, and the service is not connected |
| `EventScanner.EvmService.Apply` | evm/options.go:22-76 | What each option changes and that it changes nothing else; nil and too small values are ignored |
| `EventScanner.EvmService.AddInitial` | evm/options.go:32-48 | Every address spelled by a key gets the entry of such a key, with the default start block as it is at that moment for nil; keys that are no address are ignored; every other entry stays |
| `EventScanner.OneSpellingOneResult` | evm/options.go:32-48 | If no two keys spell the same address the result does not depend on the iteration order |
| `EventScanner.OneKeyOneEntry` | evm/options.go:32-48 | A key that alone spells its address gives it its own start block, or the default one for nil |
| `EventScanner.EvmService.RegisterContract` | evm/evm.go:71-85 | Sets the entry, with the default start block for nil, and no other |
| `EventScanner.EvmService.RegisterContractFromCurrent` | evm/evm.go:88-111 | The entry starts at the head of the chain if and only if the service is connected and the node answers, or the head is 0; otherwise at 0 |
| `EventScanner.EvmService.Connect` | evm/evm.go:122-134 | The service is connected once dialing the node has succeeded |
| `EventScanner.EvmService.UnregisterContract` | evm/evm.go:114-119 | Removes the entry and no other |
| `EventScanner.EvmService.UpdateContractBlock` | evm/evm.go:316-322 | Overwrites the cursor of a registered contract, whatever it was, and nothing else; an unregistered one is not added |
| `EventScanner.EvmService.PublishLogs` | evm/evm.go:259-293 | The two nested loops publish the selection of the specification, in order |
| `EventScanner.SelectedExactly` | evm/evm.go:259-293 | That selection has a log if and only if it was found, has a topic in the filter (or no filter is set) and, with a depth below 2^63, is that many blocks below the head |
| `EventScanner.EvmService.ProcessChunk` | evm/evm.go:226-303 | One chunk: the query, the logs published and the cursor; a refused query puts the cursor back to the last chunk done |
| `EventScanner.EvmService.ProcessContractEvents` | evm/evm.go:206-313 | The chunk loop computes the poll of the specification: entries, published logs and queries, for any head, refusals and chunk size |
| `EventScanner.EvmService.ListenOnce` | evm/evm.go:154-193 | One cycle polls every contract visited from the copy taken at its beginning |
| `ScannerLaws.ChunksMakeOneScan` | evm/evm.go:219-304 | However the chunks are cut and whichever query is refused, a poll publishes the selection from one query of all blocks up to where it stopped, and leaves the cursor there |
| `ScannerLaws.RefusalWritesNothingNew` | evm/evm.go:246-256 | For any refusals and chunk sizes, from an entry whose cursor is where the poll starts, the chunk loop does the same as the loop without the update on its error path |
| `ScannerCycles.ErrorPathIsIdle` | evm/evm.go:154-193 | In a cycle over copies of the entries every poll starts so: the cycle does the same as one without that update |
| `ScannerLaws.ChunksTile` | evm/evm.go:219-304 | The ranges queried by a poll without refusal are non-empty, adjacent, at most maxBlockRange long, full but for the last, and cover exactly (cursor, head] |
| `ScannerLaws.ChunkCount` | evm/evm.go:219-304 | Their number n is (head - cursor) / maxBlockRange rounded up |
| `ScannerLaws.RefusedPollIsPrefix` | evm/evm.go:219-256 | A poll with a refusal makes a prefix of the same queries |
| `ScannerLaws.PollsRefineOneScan` | evm/evm.go:206-313 | For confirmations == 0, what any sequence of polls publishes, with any heads and failures, equals one filtered scan of (StartBlock, CurrentBlock] |
| `ScannerLaws.FailuresAreInvisible` | evm/evm.go:246-256 | Once a poll without refusal reaches a head, cursor and deliveries are as if the earlier polls had not failed |
| `ScannerLaws.IdlePollChangesNothing` | evm/evm.go:206-217 | A poll without an answer for the head, or with nothing new, changes nothing and asks nothing |
| `ConfirmationDepth.PublishesSettled` | evm/evm.go:279-285 | For a depth 0 < c < 2^63 a poll publishes exactly the filtered logs whose block plus c is at most the head of that poll |
| `ConfirmationDepth.HugeDepthDelaysNothing` | evm/evm.go:279-285 | A depth of 2^63 or more turns negative in the conversion and delays nothing |
| `ConfirmationDepth.DepthIsCompleteExactly` | evm/evm.go:279-300 | With a depth, deliveries equal the filtered scan of all blocks passed if and only if no matching log was younger than the depth at the poll that covered it |
| `ConfirmationDepth.LostForGood` | evm/evm.go:279-300 | If one was, no later polls make up for it |
| `ConfirmationDepth.YoungEventIsPassedOver` | evm/evm.go:279-300 | Witness, for any depth 0 < c < 2^63: a log in the head's block is not published by the poll that sees it, and the cursor moves past it |
| `ConfirmationDepth.YoungEventIsLost` | evm/evm.go:279-300 | And whatever polls follow, what was published is not all that was passed |
| `ScannerCycles.CycleIsIndependent` | evm/evm.go:154-193 | A cycle does to each contract what that contract's own poll does, wherever it comes in the iteration order |
| `ScannerCycles.MapOrderDoesNotMatter` | evm/evm.go:179-187 | For fixed node answers any two iteration orders give the same cursors and the same published sequence of every contract |
| `ScannerCycles.FailureStaysLocal` | evm/evm.go:179-187 | A contract whose own answers are the same fares the same, whatever the node answers for the others |
| `ScannerCycles.EveryEventOnceInOrder` | evm/evm.go:154-322 | Over any cycles, orders, heads, refusals and cancellations, each contract's published logs are the filtered scan from its start block to its cursor |
| `ScannerCycles.PublishedExactly` | evm/evm.go:154-322 | In terms of the logs: one of a contract was published if and only if it lies between start block and cursor and, if a filter is set, has a topic in it |
| `MirrorQueue.QueueService.constructor` | queueprocessor/processor.go:85-146 | One separate empty queue for each configured address |
| `MirrorQueue.QueueService.HandleOperationQueued` | queueprocessor/processor.go:219-240 | Appends the operation to the queue of its registry and touches no other; an unknown registry changes nothing |
| `MirrorQueue.QueueService.OnContractEvent` | main.go:109-123 | The callback forwards exactly the logs of known registries that parse as OperationQueued |
| `MirrorQueue.QueueService.GetQueueLength` | queueprocessor/processor.go:352-360 | The sum of the lengths over all registries, in any iteration order, and 0 while all are empty |
| `MirrorQueue.EmptyTotal` | queueprocessor/processor.go:352-360 | The sum over empty queues is 0 |
| `MirrorQueue.TotalWithout` | queueprocessor/processor.go:352-360 | That sum does not depend on the order in which the registries are counted |
| `MirrorQueue.MirrorHoldsOwnEvents` | main.go:109-123 | After any published logs of any contracts each registry's queue has grown by exactly the OperationQueued events of its own address, in order |
| `MirrorQueue.TotalCountsEvents` | queueprocessor/processor.go:352-360 | The total length grows by one for each such event of a known registry and for nothing else |
| `EndToEnd.ParseRoundTrip` | zkregistry/zkcertificate_registry_replica.go:1544-1554 | Parsing gives back the entry emitted; a log parses if and only if it has the event's id, certificate and guardian as its topics and the two fields as data, so CertificateProcessed does not |
| `EndToEnd.ProcessedEventsOfSteps` | zkregistry/zkcertificate_registry_replica.go:42 | The CertificateProcessed events of a block are the operations carried out in it, in order |
| `EndToEnd.EventsOfBlocks` | zkregistry/zkcertificate_registry_replica.go:42 | The OperationQueued events in a range of blocks are the requests the contract accepted in it, in order |
| `EndToEnd.MirrorFollowsContracts` | main.go:109-123 | From contract storage to mirror: each registry's mirror holds exactly the requests its contract accepted between its start block and its cursor, in order, with the hash, guardian, index and operation of each and none in processing |
| `EndToEnd.MirrorIsCompleteExactly` | main.go:147-175 | The mirror misses nothing if and only if the contract had accepted no request up to the start block |
| `EndToEnd.MirrorIsTheQueue` | queueprocessor/processor.go:219-240 | Scanned from before deployment, the mirror has the hashes of the on-chain queue at the cursor, at the same indices, each with the guardian and the operation of its request |
| `EndToEnd.WholeMirrorIsTheQueues` | queueprocessor/processor.go:352-360 | For all registries together the mirror at rest, and with it the total length, is that of the on-chain queues at the cursors |
| `EndToEnd.LateSubscription` | queueprocessor/processor.go:162-168 | Subscribed after some logs were published, the mirror misses exactly those |
| `Startup.RegisterAll` | main.go:147-175 | The start-up loop registers every registry: at its configured block if there is one; else just before its initBlockHeight if that can be read; else at the head if connected and answered, and at 0 if not |
| `Startup.StartUp` | main.go:138-211 | Registration comes before the connection: every registry starts as above without one, so with neither a configured block nor a readable initBlockHeight at block 0, and at the head if and only if the head is 0 |
| `Startup.FirstQueryIsSetUpBlock` | main.go:157-170 | Without a configured block, the first block queried is the one the contract says it was set up in |
| `Startup.SubscribedFirstMirrorsCompletely` | main.go:147-175 | If the processor subscribed before the first log is published, a registry is mirrored completely if and only if a configured start block, if there is one, does not come after its first request |
| `Startup.StartupMirrorsCompletely` | main.go:147-211 | As main.go starts the services, with any number of logs published before the processor subscribes, a registry is mirrored completely if and only if that holds and none of those logs was a request of this registry |
| `Startup.RequestBeforeSubscriptionIsLost` | main.go:209-211 | Witness: one registry, a right start block, one request published before the subscription: the on-chain queue holds it and the mirror is empty |

## Left out

- Poseidon, the prime field and 32-byte words: hashes are unbounded, because no function on 32-byte words is free of collisions; with the real function the results hold as long as nobody finds one.
- Widths of uint256 counters and uint64 nonces and the contract's limit on the tree depth: counters are unbounded. The int64 conversions of the confirmation check and the 64-bit backoff are modelled.
- Ownership, initialisation, the guardian registry and the L1 block helpers in the bytecode: the whitelist is an argument of each call.
- RPC, gRPC, YAML, environment, signing and keys: each call answers or fails arbitrarily. A failed key and a missing key are modelled as such answers.
- Real time, tickers, context cancellation: a tick or a cancelled cycle can happen at any point; only the lengths of the sleeps are modelled.
- Chain reorganisations: the scanner does not handle them; the history below the head is taken as stable.
- Registering or unregistering during a cycle: `UpdateContractBlock` overwrites whatever cursor it finds, so the results about runs assume the entries of a run are registered before it.
- The reading of a hexadecimal address from the key of an initial contract is a parameter; the library that does it is not part of this model.
- The part of `Start` after dialing (the chain id and the listener's goroutine) has no state of its own.
- The tick of the processor is a function of its reads and answers: it changes no field. The preview loop, which only logs, and the loop that copies the proof into fixed-size words are not modelled.
- The event bus delivers synchronously and in order; the mutexes of the mirror are not modelled.
- `IsProcessing`, `CurrentQueuePointer` and draining of the mirror: nothing in the repository updates them. The field `State` of a mirrored operation holds the operation code of the event.
- The generated wrappers, iterators and Watch functions, logging, sentry, the HTTP server and the service manager: no property that spans operations.
