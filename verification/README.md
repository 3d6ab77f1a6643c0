# NNS: a verified model

NNS registers `.nock` names by the order in which claims for them appear on the
Nockchain. A Hoon kernel folds the claims of each block into an accumulator in which
the first writer of a name wins. A Rust hull follows the chain, orders the
transactions, extracts the claims and pokes the kernel. A research layer rewrites and
generates Nock formulas for a STARK prover that only traces opcodes 0 to 8. This
project models those parts and proves what they promise.

Main results:

- **Rewriting keeps meaning.** Every product of a formula is a product of its 0-8
  rewriting, and the formula has every product of the rewriting exactly on the subjects
  on which the dropped clues of its dynamic hints have products. Edit elimination is
  Nock's own edit, crashes included. The hull's opcode scanner and the rewriter give one
  verdict.
- **Traces decide their constraints.** A compiled constraint list answers 0 exactly
  when all constraints hold, and otherwise answers for the first that does not.
- **First writer wins, over whole runs.** Whatever is poked, past boot the kernel state
  is a function of the accepted blocks, which are parent-linked from height 63000, and
  each row is that of the earliest claim entitled to it.
- **The follower changes nothing.** Whatever the tips, batch sizes and interruptions,
  the kernel is where poking the chain block by block would have brought it. A batch that
  does not link changes nothing. The cursor is never closer than ten blocks to the highest
  tip seen, even if the node's chain changes. Put together with extraction, which finds
  exactly the claims that outputs make: the first output to make an acceptable and fully
  paid claim to a name owns it, whatever other names are on the chain.
- **Two forms, one relation.** The two routes to scan order, the two header walks, the
  Merkle prover and verifier, and the accumulator and its encoding each agree. Without
  hash collisions the settlement gate lets through registry rows only.

Files, by the part of the system they model:

| files | part |
|---|---|
| `Nock.dfy`, `NockRules.dfy`, `Normalizer.dfy`, `OpcodeScan.dfy` | Nock 4K and its rules, the 9/10/11 rewriter, the opcode scanner |
| `Tracer.dfy`, `RecursiveBuild.dfy` | slot addressing, the trace compiler, the recursive subjects |
| `LittleEndian.dfy`, `Text.dfy`, `Accumulator.dfy` | atoms and their digits, cords, the accumulator and its encoding |
| `Predicates.dfy`, `Kernel.dfy`, `KernelRuns.dfy` | claim predicates, the scanning arms of the kernel, all runs of it |
| `Chain.dfy`, `TxOrder.dfy`, `Extraction.dfy` | block linking, scan order, claim extraction |
| `Follower.dfy`, `FollowerRuns.dfy`, `Ownership.dfy` | planning and poking, all runs of the follower, end to end |
| `HeaderWalk.dfy`, `Merkle.dfy` | the wallet's header walk, the Merkle tree and the settlement gate |

Conventions. Atoms and cords are naturals; a cord is the little-endian value of its
UTF-8 bytes. Code that is not in the repository, and decoding that is left abstract, enters
as function values of which nothing is assumed beyond what a lemma states: the Tip5 digest,
`jam`, base58 decoding, z-set traversal order and whether a kernel computation traps; and
claim-note decoding (`src/claim_note.rs`, `src/packed_blob.rs`), recognising the treasury
lock (`src/payment.rs`) and hex decoding (`src/wallet_y4.rs`). `Outcome` separates a crash
from running out of fuel, which Nock 4K itself does not; opcode 10 computes the tree before
the value. Inductions are written out: where Dafny would start one of its own, the lemma
carries `{:induction false}`.

Where a promise fails, the model keeps the code, shows an input, and says exactly when it
holds: quoted constants under rewriting (`QuotedCallIsChanged`, `QuoteKeptIff`), dynamic
hints (`DynamicClueIsDropped`, `DynamicHintExact`, `NormalizeExact`), edits at axis 0
(`RebuildNeedsPositiveAxis`), the last slot of a tuple (`LastLimbTraps`, `SlotAxisReads`),
digest-limb constraints (`DigestLimbsNeverHold`), the dry-run test on trace products
(`TraceSucceededIsBlind`), the genesis trace without the reserved row
(`GenesisTraceMeetsSpec`), the transition trace against its spec
(`TransitionTraceMeetsSpec`), Merkle roots of padded lists (`RootForgetsPadding`,
`RootCommits`), digests beyond 40 bytes (`LongSlicesConfused`, `ComparisonExact`), NUL bytes in
names (`NulStemAccepted`, `ValidNameOfString`, `RegistrableMeans`), and rejected blocks, which at boot may seed
the reserved row (`RejectionKeepsCursor`).

## Model

| member | source | states |
|---|---|---|
| Nock.FuelMonotone | hoon/app/nns-predicates.hoon:642-646 | the reference evaluator's outcome does not depend on how much fuel it is given |
| Nock.OutcomeUnique | hoon/app/nns-predicates.hoon:642-646 | a formula has one product on a subject and does not also crash |
| Nock.EditReads | hoon/app/nns-predicates.hoon:622-640 | an edit crashes exactly where a read does, and what it put at an axis is read there |
| Nock.EditKeeps | hoon/app/nns-predicates.hoon:622-640 | an edit changes nothing at axes off its path |
| NockRules.NockByRules | hoon/app/nns-predicates.hoon:642-663 | the fuelled evaluator yields a product exactly when the Nock 4K rule for the formula's shape does |
| NockRules.DecrementYields | hoon/app/nns-predicates.hoon:666-672 | Nock's decrement yields n - 1, and so does its rewriting, although the battery it quotes is changed |
| Normalizer.RebuildNeedsPositiveAxis | hoon/app/nns-predicates.hoon:628-640 | the rebuild recursion returns on every axis from 1 on and never on axis 0 |
| Normalizer.TaAxisReads | hoon/app/nns-predicates.hoon:603-620 | the translated axis reads, in `[T a]`, what the axis reads in `T`, and crashes on the same axes |
| Normalizer.RebuildSettles | hoon/app/nns-predicates.hoon:622-640 | the rebuilt formula settles to Nock's edit of `T` by whatever the replacement settles to |
| Normalizer.EditEliminationExact | hoon/app/nns-predicates.hoon:622-640 | the rebuilt formula yields exactly the edited tree and crashes exactly when the edit does |
| Normalizer.FixedIffUntouched | hoon/app/nns-predicates.hoon:682-736 | the rewriter leaves a noun alone exactly when it holds no call, edit or hint where the rewriter looks |
| Normalizer.ProductMeetsClues | hoon/app/nns-predicates.hoon:652-663 | a formula with a product has met only dynamic clues that have products |
| Normalizer.TotalFinishes | hoon/app/nns-predicates.hoon:584-599 | a clue of a total shape, such as a quoted one, has a product on every subject |
| Normalizer.Forward | hoon/app/nns-predicates.hoon:674-736 | products survive the rewrite; crashes do too where the clues met have products |
| Normalizer.Backward | hoon/app/nns-predicates.hoon:674-736 | where the clues the original meets have products, the rewriting has no product the original lacks |
| Normalizer.NormalizePreservesProducts | hoon/app/nns-predicates.hoon:642-736 | for every subject and every formula with positive edit axes and untouched quoted constants, each product is kept |
| Normalizer.NormalizeExact | hoon/app/nns-predicates.hoon:642-736 | a formula has a product iff its rewriting has it and every dynamic clue the formula meets has one; its crashes are kept where the clues have products |
| Normalizer.TotalCluesExact | hoon/app/nns-predicates.hoon:584-599 | for formulas whose dynamic clues are all of a total shape the products are the same on every subject |
| Normalizer.DynamicHintExact | hoon/app/nns-predicates.hoon:658-663 | one dynamic hint has the products of its rewriting exactly where its clue has a product |
| Normalizer.DynamicClueIsDropped | hoon/app/nns-predicates.hoon:733-736 | the hint `[11 [0 [0 0]] 0 1]` crashes on every subject, its rewriting never |
| Normalizer.QuoteKeptIff | hoon/app/nns-predicates.hoon:666-672 | a quoted constant keeps its value exactly when it holds no call, edit or hint |
| Normalizer.QuotedCallIsChanged | hoon/app/nns-predicates.hoon:666-672 | the quoted constant `[9 2 0 1]` comes out as another noun |
| Normalizer.NormalizeIdempotent | hoon/app/nns-predicates.hoon:674-736 | rewriting twice is rewriting once |
| Normalizer.NormalizeKeepsArms | hoon/app/nns-predicates.hoon:658-679 | along a battery path the rewritten noun holds each rewritten fragment at its old axis |
| Normalizer.HintKeepsNext | hoon/app/nns-predicates.hoon:658-663 | a hint and its replacement hold the hinted formula at axis 7 |
| OpcodeScan.BannedMeans | src/formula_nock.rs:18-35 | the scanner objects exactly to nouns that have, at some axis, a cell with head 9, 10 or 11 |
| OpcodeScan.CleanIsFixed | src/formula_nock.rs:18-35 | what the scanner passes, the rewriter leaves alone |
| OpcodeScan.NormalizeClean | src/formula_nock.rs:9-35 | the scanner passes every rewriting of a well-formed formula |
| OpcodeScan.ScannerAgreesWithRewriter | src/formula_nock.rs:9-35 | on well-formed formulas, passing the scanner is being a fixed point of the rewriter |
| Tracer.SlotAxisReads | hoon/app/tracer.hoon:10-15 | `slot-axis n` reads item n of a longer tuple; on the last item it reads the item's head or crashes |
| Tracer.CompileTraceRuns | hoon/app/tracer.hoon:118-166 | with enough fuel a compiled trace ends in the left-to-right verdict of its constraints |
| Tracer.CompileTraceCorrect | hoon/app/tracer.hoon:185-201 | answers 0 iff all constraints hold, 1 iff the first that does not hold fails, crashes iff it reads a missing axis |
| Tracer.EmptyTraceRefuses | hoon/app/tracer.hoon:185-201 | the trace of no constraints yields 1 |
| Tracer.TraceSucceededIsBlind | hoon/app/tracer.hoon:126-131 | the dry-run test passes every product of a compiled trace, though only 0 means success |
| Tracer.DigestLimbsNeverHold | hoon/app/tracer.hoon:151-159 | the digest-limb conjunction answers "no" even on equal limbs |
| Tracer.CompileTraceClean | hoon/app/tracer.hoon:118-201 | every compiled trace passes the opcode scanner |
| RecursiveBuild.GenesisTraceAccepts | hoon/app/tracer.hoon:203-211 | the genesis trace accepts exactly height 63000 with digest 0 |
| RecursiveBuild.GenesisTraceMeetsSpec | hoon/app/recursive-build.hoon:21-38 | it agrees with the host spec on seeded accumulators and differs exactly when the reserved row is missing |
| RecursiveBuild.FullSubjectSlots | hoon/app/tracer.hoon:70-90 | each slot axis of the full subject finds the part it names |
| RecursiveBuild.EmptySubjectSlots | hoon/app/tracer.hoon:50-68 | each slot axis of the empty subject finds the part it names |
| RecursiveBuild.FullTransitionMeans | hoon/app/tracer.hoon:222-281 | the full trace accepts iff the proof is present, the previous height matches and the candidate tag is 0 or not the accumulator's |
| RecursiveBuild.EmptyTransitionMeans | hoon/app/tracer.hoon:213-249 | the empty trace answers 0 or 1 as the wanted heights agree or not |
| RecursiveBuild.LastLimbTraps | hoon/app/tracer.hoon:69-87 | the axis of the last digest limb reads nothing: picking it crashes |
| RecursiveBuild.TransitionTraceMeans | hoon/app/recursive-build.hoon:112-160 | what the built transition attests for no claims, one claim and several |
| RecursiveBuild.TransitionTraceMeetsSpec | hoon/app/recursive-build.hoon:92-160 | exactly when an accepted transition trace meets the host spec, and when the trace of a block that meets it is accepted |
| LittleEndian.DigitsRecompose | hoon/app/nns-accumulator.hoon:93-104 | chunks recompose to the atom, stay below the base, and have no zero on top |
| LittleEndian.DigitAt | hoon/app/nns-accumulator.hoon:98-104 | digit i is the atom divided by base^i, modulo the base |
| LittleEndian.DigitCount | hoon/app/nns-accumulator.hoon:98-104 | there are as many digits as reach the atom, and no more |
| LittleEndian.DigitsOfValue | hoon/app/nns-accumulator.hoon:93-104 | every chunk list with no zero on top comes from splitting its value |
| Accumulator.FirstWriter | hoon/app/nns-accumulator.hoon:81-91 | the least position writing a key |
| Accumulator.InsertAllLookup | hoon/app/nns-accumulator.hoon:81-91 | after any insertions a key holds its old row, else the first row written to it, else nothing |
| Accumulator.OrderIrrelevant | hoon/app/nns-accumulator.hoon:172-181 | distinct-key rows build the same accumulator in any order |
| Accumulator.SortRowsSorts | hoon/app/nns-accumulator.hoon:132-139 | the row sort is strictly ascending by name and keeps exactly the rows |
| Accumulator.ChunksEncode | hoon/app/nns-accumulator.hoon:98-112 | leaf i of an atom's chunks is (a / 2^(32 i)) mod 2^32, the count is least, and no other atom has these leaves |
| Accumulator.NameKeyIsDigest | hoon/app/nns-accumulator.hoon:98-112 | a name's key is the digest of the list of its base-2^32 digits |
| Accumulator.EncodingLayout | hoon/app/nns-accumulator.hoon:114-144 | item k of the encoding is the row with exactly k smaller names: its name, owner, transaction, height and block digest, each in its place |
| Accumulator.EncodingCanonical | hoon/app/nns-accumulator.hoon:106-144 | two keyed accumulators encode alike, in any traversal order, iff they are the same map |
| Accumulator.HistoryIndependent | hoon/app/nns-accumulator.hoon:132-181 | insertion order and traversal order leave no mark on the encoding |
| Predicates.ValidNameExact | hoon/app/nns-predicates.hoon:205-248 | what `is-valid-name` accepts, byte for byte |
| Predicates.ValidNameOfString | hoon/app/nns-predicates.hoon:240-248 | of every string, trailing NULs aside: `.nock` after letters and digits and then NULs |
| Predicates.NulFreeNames | hoon/app/nns-predicates.hoon:240-248 | on NUL-free strings that is `.nock` after one or more of a-z and 0-9 |
| Predicates.NulStemAccepted | hoon/app/nns-predicates.hoon:214-248 | a stem of one NUL is accepted |
| Predicates.FeesAgree | src/payment.rs:180-192 | hull and kernel fees agree on every ASCII name, trailing NULs aside |
| Predicates.HasTxInListMeans | hoon/app/nns-predicates.hoon:323-335 | the list walk is membership |
| Predicates.ValidClaimMeans | hoon/app/nns-predicates.hoon:832-842 | a claim is valid iff its name bytes are well formed, its fee covers the schedule, its transaction is listed, and the witness has that transaction, the owner as spender, the treasury lock and an amount that covers the fee |
| Predicates.FirstBid | hoon/app/nns-predicates.hoon:879-899 | the least position of a claim in a block that is entitled to the name with a key |
| Predicates.ScannerLookup | hoon/app/nns-predicates.hoon:844-899 | scanning a block keeps every row and gives a free key to the first claim entitled to it, whose row is written field by field |
| Kernel.Kernel.Poke | hoon/app/app.hoon:469-531 | the new state, acceptance, and which guard refused |
| Kernel.Kernel.Scan | hoon/app/app.hoon:482-531 | the `%scan-block` arm: new state, each rejection, and the emitted cursor and root |
| KernelRuns.ReplayDeterminism | hoon/app/app.hoon:482-531 | past boot the state is that of the accepted blocks alone, whatever else was poked |
| KernelRuns.RejectionKeepsCursor | hoon/app/app.hoon:485-499 | a rejected block keeps the cursor and adds at most the reserved row; it leaves the state alone iff the kernel is past boot or has that row |
| KernelRuns.GenesisSeeds | hoon/app/app.hoon:266-282 | after the genesis prove the reserved name has its row, and nothing else changed |
| KernelRuns.Winner | hoon/app/nns-predicates.hoon:879-899 | the earliest entitled claim to a key over a list of blocks |
| KernelRuns.FoldLookup | hoon/app/nns-predicates.hoon:844-899 | folding blocks keeps rows and gives a free key to its earliest entitled claim |
| KernelRuns.EarliestClaimWins | hoon/app/app.hoon:482-531 | in every run each row is that of the earliest entitled claim among accepted blocks, and only such rows exist |
| KernelRuns.ReachableStates | hoon/app/app.hoon:266-282 | boot holds at most the reserved row; past boot the blocks link from 63000, the cursor is the last, rows are keyed and each is that of an entitled claim of one accepted block |
| KernelRuns.PrefixRowsPersist | hoon/app/nns-accumulator.hoon:81-91 | a longer run keeps every row of the shorter, unchanged |
| Chain.LimbsDecide | src/chain.rs:211-235 | limb-wise comparison is equality of the first 40 bytes as an atom |
| Chain.Tip5AtomSemanticEq | src/chain.rs:211-235 | on slices of at most 40 bytes: equality of little-endian values |
| Chain.LongSlicesConfused | src/chain.rs:217-235 | a 41st byte is not seen |
| Chain.ComparisonExact | src/chain.rs:211-235 | the comparison is value equality of two slices of any length iff they differ in their first 40 bytes or have equal atoms behind them |
| Chain.ValidateScanBlockChain | src/chain.rs:718-745 | accepts exactly the batches in which, at every position, the parent is the digest before it, the first one free at boot |
| Chain.CanonicalZSetTxOrder | src/chain.rs:325-359 | pages with ids that are not 40 bytes come back as they were; others fail on duplicates and else are the z-set traversal, position by position |
| Chain.CanonicalFollowsTraversal | src/chain.rs:325-359 | one id comes before another in canonical order exactly when it does in the z-set traversal |
| Chain.CanonicalOrderSettles | src/chain.rs:325-359 | canonical order keeps the ids, each once, and is idempotent |
| Chain.FetchOrderForgotten | src/chain.rs:325-359 | canonical order does not depend on the fetch order |
| Chain.AlignTransactionDetails | src/chain.rs:361-388 | succeeds exactly when ids and details match, and then gives, for each id in order, the last detail that has it |
| TxOrder.SortByRankStable | src/chain.rs:410-429 | the sort orders by rank and keeps the claims of each rank in their order |
| TxOrder.StableOrderUnique | src/chain.rs:410-429 | there is only one such order |
| TxOrder.SortClaimsByZSetTxOrder | src/chain.rs:410-429 | fails exactly when the page has no canonical order; else the claims come out in the order of the z-set traversal, unlisted ones last, those of one rank as they were |
| TxOrder.RoutesAgree | src/chain.rs:362-429 | aligning then extracting gives the one list that extracting then stably sorting gives, in the order of the z-set traversal |
| Extraction.SaturatingSumCaps | src/payment.rs:171-178 | the saturating fold is the true sum capped at 2^64 - 1 |
| Extraction.TotalPaid | src/payment.rs:155-178 | what is summed is the running total, output by output, of those locked to or named after the treasury that have an amount |
| Extraction.SumTreasury | src/payment.rs:171-178 | the witness amount is that total, capped |
| Extraction.AlignmentAligns | src/chain.rs:400-408 | alignment leaves a block's transactions in the order of the z-set traversal |
| Extraction.OutputMeans | src/chain_follower.rs:568-635 | what an output yields: a claim for its note, if the note is for this transaction and has one owner who spent it, and no other |
| Extraction.OutputsExact | src/chain_follower.rs:562-635 | extraction from a transaction returns all the claims its outputs make, each once, in order |
| Extraction.DetailsExact | src/chain_follower.rs:554-560 | extraction from a block returns all the claims of its transactions' outputs, each once, in order |
| Extraction.ExtractFromTransaction | src/chain_follower.rs:562-635 | the loop finds exactly the claims the outputs make, in order; it fails iff a note is for this transaction and its id does not decode |
| Extraction.ExtractClaims | src/chain_follower.rs:554-560 | the loop finds exactly the claims of the block, in order; it fails iff some transaction does |
| Extraction.InputsMean | src/chain_follower.rs:645-665 | the signers and the spent notes' names of a transaction are those of all its inputs |
| Extraction.InferOwnerMeans | src/chain_follower.rs:637-668 | the inferred owner is the note's own, else the only signer, else, with no signers, the only spent note's name |
| Extraction.WitnessFor | src/chain_follower.rs:683-717 | there is a witness exactly for owners who spent the transaction |
| Extraction.ExtractedClaimVerdict | src/chain_follower.rs:562-717 | the kernel accepts an extracted claim, whatever its name, iff the name is acceptable and the running total its outputs pay the treasury reaches the fee |
| Extraction.RegistrableMeans | hoon/app/nns-predicates.hoon:205-248 | acceptable names that do not end in NUL: the promised format, but for NULs before `.nock`; without NULs, exactly that format |
| Text.TrimMeans | src/chain_follower.rs:637-668 | trimming takes all the whitespace off both ends and nothing else |
| Text.Utf8CharMeans | src/chain_follower.rs:683-717 | the bytes of a character are its UTF-8 encoding |
| Follower.PlanIsFinal | src/chain_follower.rs:280-304 | a plan runs from the wanted height, stays ten below the tip, is empty iff nothing is final, and is as long as allowed |
| Follower.PokeMeans | src/chain_follower.rs:407-460 | the poke of a block carries its header, its ids in z-set order, and each claim its outputs make as the kernel reads it |
| Follower.ApplyPrefetched | src/chain_follower.rs:372-543 | a batch with a parent that is not the digest before it fails and leaves the kernel as it was; another is applied from its first block on, one at a time, to the first that cannot be, and succeeds if that is all |
| Follower.TickSeeds | src/chain_follower.rs:193-329 | a tick at boot leaves the reserved row; one whose blocks do not link leaves nothing else |
| Follower.ScanOnce | src/chain_follower.rs:193-329 | one tick fetches its plan and applies it as a batch, after the genesis poke at boot; if the blocks do not link, at most the reserved row is new |
| Follower.BootSeen | src/chain.rs:245-253 | the hull reads the boot cursor exactly when the kernel is at it |
| Follower.HullMatchesKernel | src/chain.rs:718-745 | a batch validates iff the kernel accepts all its pokes; otherwise some poke fails the parent check |
| Follower.ValidatedPassGuards | src/chain.rs:718-745 | with traps allowed, no poke reached in a validated batch fails a guard |
| FollowerRuns.TickFollows | src/chain_follower.rs:193-329 | one tick moves along the chain and not past its own tip's depth |
| FollowerRuns.TicksPokeInOrder | src/chain_follower.rs:372-543 | after any ticks the state is that of poking the first blocks one at a time, each once |
| FollowerRuns.BatchIndependence | src/chain_follower.rs:284-304 | two followers at one height are in one state, however they batched and failed |
| FollowerRuns.TickBelow | src/chain_follower.rs:280-304 | one tick against any node keeps the cursor ten below the highest tip and never moves it back |
| FollowerRuns.FinalityOverRuns | src/chain_follower.rs:280-304 | over every run the cursor stays ten below the highest tip and never goes back, whatever the node serves from tick to tick |
| FollowerRuns.UninterruptedTickAdvances | src/chain_follower.rs:296-329 | on a linked chain a tick nothing interrupts applies its whole plan |
| Ownership.BidIsPaid | src/chain_follower.rs:562-717 | the valid bids in a poke are the acceptable, paid claims of its block's outputs, in their order |
| Ownership.FirstPayerOwns | src/chain_follower.rs:193-543 | after any follower run each key belongs to the first output, by block, z-set order and position, making an acceptable claim to it whose transaction the owner spent and which pays the treasury the fee; or to nobody |
| HeaderWalk.VerifyHeaderChainToCheckpoint | src/wallet_y4.rs:92-183 | accepts exactly the complete linked lists between the two ends |
| HeaderWalk.ChainLinksMeans | hoon/app/nns-predicates.hoon:279-321 | the kernel's recursive walk as one statement about the list |
| HeaderWalk.WalletWalkLinks | src/wallet_y4.rs:101-183 | what the wallet accepts, the kernel accepts, reversed and without the checkpoint |
| HeaderWalk.WalksAgree | hoon/app/nns-predicates.hoon:279-321 | given the heights the kernel does not check, each walk accepts iff the other does |
| Merkle.ProofClimbs | hoon/app/names-test.hoon:48-68 | a proof is the siblings over its leaf, bottom to top, each with its side; a node without one is its own |
| Merkle.TwoLeaves | hoon/app/names-test.hoon:31-68 | the root of two leaves hashes the left first, and each leaf's proof is the other with its side |
| Merkle.ProofsVerify | hoon/app/names-test.hoon:31-68 | every proof folds to the root, duplicate padding included |
| Merkle.ProofsBind | hoon/app/names-test.hoon:48-68 | without hash collisions a proof of any length and sides opens the root to a leaf only, and one with a position's sides to the leaf there |
| Merkle.LeavesAreProvable | hoon/app/names-test.hoon:31-68 | the leaves of a tree are exactly the chunks with a proof |
| Merkle.RootCommits | hoon/app/names-test.hoon:31-46 | without collisions, lists of one length have the same root iff they are the same |
| Merkle.RootForgetsPadding | hoon/app/names-test.hoon:31-46 | three leaves and the same with the last repeated have one root |
| Merkle.GateExact | hoon/app/app.hoon:357-376 | the gate accepts exactly the valid, provable batches with distinct names and transactions |
| Merkle.GateAcceptsRows | hoon/app/app.hoon:336-376 | it accepts a sub-batch of tree rows iff names are valid and names and transactions distinct |
| Merkle.GateSound | hoon/app/app.hoon:346-376 | every triple of an accepted batch is a registry row, whatever proofs came with it |
| Merkle.SettledExactly | hoon/app/app.hoon:336-376 | some proofs get a list of triples past the gate iff all are rows with valid names, no name or transaction twice |

## Left out

- STARK proving and verifying, Tip5, `jam`/`cue`, z-map and z-set internals, base58: code outside the repository, taken as function values.
- Claim-note, packed-blob and hex decoding and the treasury-lock test (`src/claim_note.rs`, `src/packed_blob.rs`, `src/wallet_y4.rs`, `src/payment.rs`): left abstract, as function values; that a decoded name does not end in NUL is a hypothesis only of `RegistrableMeans`.
- gRPC fetching and retries, tokio tasks and locks, the HTTP API, CLI, configuration, persistence, logging, and the noun builders and decoders of `src/kernel.rs`: plumbing.
- The kernel arms that only read, and the fields of the kernel state that scanning does not touch (`vesl`, `last-proved`, `recursive-proof`).
- Chain reorganisations, and a node that serves a block of another height than asked: except for `FinalityOverRuns`, the follower theorems take one chain with one block per height.
- `RootAtom`, `ZSet::try_from_items` and `mule`: the accumulator root is a function value, set building never fails, and traps are part of the environment.
- `minimal-first-writer-wins` in `recursive-build.hoon`: its accumulator is not carried through the recursion, and `transition-spec` does not use its result.
- `trace-eq-want-incr`, which no shipped formula uses, and the digest padding and hex helpers, which only change how a digest is written.
- Payment replay across batches: neither the claim predicate nor the scanner consults earlier transaction hashes, so nothing is claimed about it.
- The u64 overflow of a header height next to 2^64 - 1: heights in the header walk are unbounded.
- `sort_by_key`, `sort`, `trim` and `char::is_whitespace` are modelled as functions on values, as library calls; the arrays and hash maps they work on are not.
- Witness: its lock-root cord is kept as text, so two cords that differ only in trailing NULs are not told apart there.
- The hull's tick is modelled with one number for everything outside that can stop it part way; which failure it was, and what was logged, is not modelled.
- NormalizePreservesProducts: says nothing of formulas with a quoted constant that the rewrite changes; `QuoteKeptIff` says which those are.
- NormalizeExact: says nothing of a crash the rewriting has where the original does not come to an end, since opcode 10 is rewritten into a formula that may read a missing sibling before the value is computed.
