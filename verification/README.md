# A verified model of the escrow ledger

The repository keeps escrow records in an append-only ledger, commits to them with a Merkle tree, audits them
against a notary, lets a small cluster of enclaves agree on what is appended, and wraps escrows, keys, time and
request rates around that core. This project models those parts in Dafny and proves what they promise.

`dafny verify dfyconfig.toml` checks the whole project.

## How the model is built

* **Form.** Code that changes state step by step is a class or a method with loops: the tree builder, the accumulator,
  the store, the auditor, the recovery service, the time anchor, the commit engine, the key rotator, the catch-up
  engine, the rate limiter and the escrow service. Each such method is tied by its `ensures` to a step function on an
  immutable state, and statements about whole runs are lemmas about those steps. Expression code (the serialiser, the
  leaf hash, the amount parser) is functions and lemmas.
* **Spelled out.** For the functions that methods are tied to, lemmas named `...SpelledOut` say what they compute in literal
  texts, numbers and conditions, without the helper functions their definitions use.
* **Hashing.** SHA-256 is a parameter, an arbitrary function on texts. Lemmas that need it take two premises:
  `YieldsDigests` (results are 64 hexadecimal digits) and `CollisionFree` for the finite set of texts that the
  computation at hand really hashes (`texts`, which must cover them). No lemma assumes that the function is injective on all texts, which no hash to
  256 bits is. That leaf, node and empty-tree texts never coincide is proved, not assumed.
* **Proofs.** Every induction is written out: lemmas that Dafny would otherwise try by automatic induction carry
  `{:induction false}`.
* **Serialisers.** `stableStringify` and `JSON.stringify` are one printer with a flag that says whether keys are sorted.
* **World.** The store file, the checkpoint file, the notary's root, the list of completed recovery requests, the
  quarantine and the frozen flag form one state. Files may be damaged, replaced or unwritable at any point: such
  changes are steps of the environment. The notary is a root that the environment may change, or nothing while it cannot
  be reached; the best-effort broadcast to it is left to the environment too. Save, audit, freeze, heal and unfreeze are
  atomic.
* **Parameters.** The clock, random identifiers, signature checks, date parsing, payment provider answers and the
  readiness of the enclave are arguments.

| file | part of the repository |
|---|---|
| `Json`, `Texts`, `Sorting`, `Decimal` | canonical serialiser, `Array.sort`, `trim`, decimal digits |
| `MerkleTree`, `MerkleBinding`, `LedgerMerkle`, `InclusionProofs` | Merkle stack: tree, what a root commits to, leaf hashes, proofs |
| `LedgerWorld`, `LedgerGuarantees`, `LedgerServices` | store, checkpoint, auditor, recovery |
| `TimeAnchor` | median time anchor |
| `BftVerify`, `RaftEngine` | quorum aggregation and commit |
| `KeyRotator`, `Reconciliation`, `ClientPuzzles`, `Escrows`, `Amounts` | epoch keys, catch-up, rate limiter, escrow lifecycle, amount parser |
| `Hashing`, `OrderedMaps`, `Wrappers` | shared vocabulary |

## Where the code differs from its own comments, or surprises

* `verifyMultiSig`: the comment at src/services/AdminRecoveryService.ts:95-98 says that an unset threshold makes
  verification fail. Line 133 compares with `>=`, so a threshold of zero or less asks for no signature at all
  (`UnsetThresholdAsksForNothing`). An unconfigured service refuses an unexpired payload exactly if the threshold is
  positive (`UnconfiguredRefusesExactly`, `UnsignedIsRefusedExactly`).
* Commit: the comment at src/services/consensus/EnclaveRaftEngine.ts:167 says that commitment, term and index bind to the
  log entry. Only the commitment is compared with the entry; term and index are compared with the caller's own
  (`EntryTermIsNotChecked`): an entry of term 0 and index 1 can be committed under any term and index
  (`AnyTermAndIndexIsAccepted`). src/services/EscrowRouter.ts:531-560 passes the right index but any term from the current
  one on. The shares carry the entry's own term and index exactly if the caller named these (`SharesBindTheEntryExactly`).
* Snapshots: src/services/consensus/EnclaveSnapshotManager.ts:27 speaks of 2f+1 signatures, but the threshold is computed
  from the snapshot's own signature list, so any two non-empty signatures suffice (`SnapshotQuorumIsTwo`).
* The tree cannot tell `[a, b, c]` from `[a, b, c, c]` (`RepeatedLastLeafKeepsRoot`). `SharedRootMeansSameBottomRow` says
  exactly which lists share a root; equal counts, or distinct leaves, rule the confusion out.
* That reaches recovery. The scan goes from the longest prefix down, so with the root of `[a, b, c]` at the notary and
  `[a, b, c, c]` in the file the audit freezes on the count, but a verified heal keeps all four records and the unfreeze
  releases them (`CopiedRecordSurvivesHealing`). A heal and an unfreeze bring back the ledger the notary vouches for exactly
  if the store begins with it and no longer prefix fills the bottom row like it (`HealRestoresExactly`); without repeated
  records the first part is enough (`HealRestoresDistinct`).
* The committer consults no attestation: any distinct names in sufficient number make a payload that fits
  (`AnyNamesFit`), two such payloads need not share any (`DisjointPayloadsFit`), and quorum overlap carries over exactly as
  far as the names belong to one cluster (`CommitsOverlapExactly`).
* Saving a record that fails the read guard also removes the record it replaces (`UnreadableSavesRemove`).
* Neither verifier looks at the length of a proof, and the index-driven one does not look at its siblings either. Soundness
  is proved for any length, index and siblings, because a leaf hash can never stand for an inner node.
* A save and a heal write back only what can be read: stored entries that fail the read guard are lost, and a heal does
  not quarantine them (`SaveLosesTheUnreadable`, `HealLosesTheUnreadable`).
* A saved record that fails the read guard is written and counted in the checkpoint but dropped on reading, so the next
  audit freezes (`SavedRecordAuditsClean`).
* A notary that keeps its first root, which is what scripts/mock-notary-harness.ts:78-87 does by default, freezes the
  ledger at the next audit after any save that changes a hashed field (`FixedNotaryStopsGrowth`).
* The hash of a catch-up block covers its entries but not its predecessor, so the last hash does not fix the history
  (`LastHashForgetsTheBlocksBefore`). Once a block was applied in a session, a later snapshot in it no longer moves the
  expected index.
* Registering a transaction again while it is bound to an older epoch leaves that epoch retained forever
  (`RebindingIsStale`, `StaleReferencesStay`).
* The payment result of a lock is not looked at, neither its status nor whether it has a transaction id. An escrow can
  still be released or refunded exactly if it is pending, or has a usable transaction and is not refunded yet
  (`CanPayOutExactly`). It gets stuck by a dispute before the lock, or by a lock whose payment has no usable id
  (`DisputeOrEmptyPaymentSticks`). A released escrow can still be refunded (`ReleasedCanBeRefunded`).
* The amount parser ignores a second dot and everything after it (`SecondDotIsIgnored`); the whole text is read exactly if
  there is none (`WholeTextIsRead`).
* Commas are removed after trimming, so a comma set apart from the amount by white space spoils it, and so does a zero
  after trailing white space: `" 5"` is accepted and `", 5"` is not, `"1.5 "` is and `"1.5 0"` is not (`StrayComma`,
  `StrayZero`). `CommaMattersExactly` and `ZeroMattersExactly` give the exact conditions.
* A full window of time assertions gives up its smallest node id even when the new assertion only replaces one that is
  held (`MakeRoomMakesRoom`).

## Model

| member | source | states |
|---|---|---|
| Json.StableIsCanonical | src/services/merkle/sha256.ts:14-36 | two values print alike exactly if they are equal up to the order of object keys |
| Json.StringifyIsInjective | src/services/consensus/EnclaveReconciliationEngine.ts:153-155 | `JSON.stringify` texts are equal only for equal values, order of keys included |
| Json.PrintIsPrefixFree | src/services/merkle/sha256.ts:21-36 | no printed value is a proper prefix of another before a delimiter: unique decomposition |
| Json.PrintDetermines | src/services/merkle/sha256.ts:21-36 | the printed text determines the value (sorted keys: up to key order) |
| Json.SamePrintsSame | src/services/merkle/sha256.ts:29-32 | values that differ only in key order print identically |
| Json.PrintSpelledOut | src/services/merkle/sha256.ts:21-25 | literally: `null`, `true`, `false`, the digits of a number behind its sign, a quoted string |
| Json.EscapeSpelledOut | src/services/merkle/sha256.ts:25 | literally: the two-character escapes, `\u00` and two digits for other control characters, every other character as it is |
| Json.QuoteSpelledOut | src/services/merkle/sha256.ts:25 | quotes around the escapes of the characters in order; plain text stays as it is |
| Json.ArraySpelledOut | src/services/merkle/sha256.ts:26-28 | literally: the elements of an array between brackets and commas |
| Json.StableSpelledOut | src/services/merkle/sha256.ts:29-32 | literally: whatever the insertion order, `{`, the member with the smallest key, a comma, then the object of the others |
| Json.StringifySpelledOut | src/services/consensus/EnclaveReconciliationEngine.ts:153-155 | literally: `JSON.stringify` keeps the members in insertion order |
| Decimal.RenderSpelledOut | src/services/merkle/sha256.ts:22-24 | the decimal digits of a number, most significant first, without leading zeros |
| Hashing.DigestSpelledOut | src/services/merkle/ZkInclusionVerifier.ts:15-17 | a digest is 64 characters out of 0-9, a-f and A-F |
| MerkleTrees.MerkleTree.constructor | src/services/merkle/MerkleTree.ts:11-39 | the nested loops end and build exactly the specified layers |
| MerkleTrees.MerkleTree.GetLeafCount | src/services/merkle/MerkleTree.ts:41-43 | the number of leaves |
| MerkleTrees.MerkleTree.GetRoot | src/services/merkle/MerkleTree.ts:45-48 | the recursively defined root; literally the hash of the empty text, the only leaf, and `MERKLE_NODE`, left leaf, right leaf for none, one and two leaves |
| MerkleTrees.MerkleTree.GetProof | src/services/merkle/MerkleTree.ts:54-76 | an index in range gets the specified siblings, any other an error |
| MerkleTrees.MerkleTree.VerifyProof | src/services/merkle/MerkleTree.ts:81-103 | the loop computes the index-driven fold |
| MerkleTrees.NodesAboveSpelledOut | src/services/merkle/MerkleTree.ts:26-36 | literally: for every level, the i-th node above hashes `MERKLE_NODE`, the left child, then the right one, the last node standing in for a missing one |
| MerkleTrees.RootSpelledOut | src/services/merkle/MerkleTree.ts:14-48 | literally: a row whose nodes are those hashes has the root of the row below |
| MerkleTrees.RootOfTwo | src/services/merkle/MerkleTree.ts:29-32 | literally: the root of two leaves, left one first |
| MerkleTrees.FoldStepSpelledOut | src/services/merkle/MerkleTree.ts:90-101 | literally: one fold step, the hash to the right of the sibling at an odd index, to the left otherwise |
| MerkleTrees.ProofsFoldToRoot | src/services/merkle/MerkleTree.ts:54-103 | completeness: every proof of every leaf of every tree folds back to the root |
| MerkleTrees.ProofLength | src/services/merkle/MerkleTree.ts:24-38 | all proofs of a tree have one length h, the least with n <= 2^h |
| MerkleBinding.RootAndCountDetermineLeaves | src/services/merkle/MerkleTree.ts:24-38 | root and leaf count determine every leaf |
| MerkleBinding.ExpandKeepsRoot | src/services/merkle/MerkleTree.ts:30 | duplicating last nodes gives the root of the row filled up to a power of two |
| MerkleBinding.SharedRootMeansSameBottomRow | src/services/merkle/MerkleTree.ts:24-38 | two non-empty leaf lists share a root exactly if they fill up to the same bottom row |
| MerkleBinding.RepeatedLastLeafKeepsRoot | src/services/merkle/MerkleTree.ts:29-32 | the smallest pair of different lists with one root |
| MerkleBinding.RootDeterminesDistinctLeaves | src/services/merkle/MerkleTree.ts:11-39 | for lists without repetition the root alone determines the list, whatever lengths and heights, empty included |
| MerkleBinding.FoldingToRootIsTheProof | src/services/merkle/MerkleTree.ts:81-103 | a full-length proof, its siblings arbitrary texts, that folds to the root is, sibling by sibling, the proof of the leaf at its index |
| MerkleBinding.FoldingLeafIsLeaf | src/services/merkle/MerkleTree.ts:81-103 | soundness for any length, index and siblings: a leaf hash that folds to the root is a leaf of the tree |
| LedgerMerkle.LeafTextIsCanonical | src/services/merkle/ledgerMerkle.ts:7-19 | two records hash one text exactly if they agree on every field but the time locks; so different transaction ids give different leaves |
| LedgerMerkle.HashedTextSpelledOut | src/services/merkle/ledgerMerkle.ts:10-16 | literally: the text of the five hashed fields of a record, in ascending order of their keys |
| LedgerMerkle.LeafTextSpelledOut | src/services/merkle/ledgerMerkle.ts:7-19 | literally: the leaf text of a record, the domain first, then those fields |
| LedgerMerkle.RootAndCountDetermineLedger | src/services/merkle/ledgerMerkle.ts:21-39 | ledgers share root and count exactly if they agree record by record up to time locks |
| LedgerMerkle.RootDeterminesLedger | src/services/merkle/ledgerMerkle.ts:21-39 | between ledgers without repeated records, up to time locks, the root alone decides; one id may occur in different records |
| LedgerMerkle.SharedLedgerRootExactly | src/services/merkle/MerkleTree.ts:11-39 | any two ledgers share a root exactly if they fill the bottom row alike; no condition on ids or repetition |
| LedgerMerkle.LookalikeRepeats | src/services/merkle/MerkleTree.ts:29-32 | a longer ledger fills the row like a shorter one only by repeating a record |
| LedgerMerkle.PrefixRootsDiffer | src/services/AdminRecoveryService.ts:204-219 | no two prefixes of a ledger without repeated records share a root, the empty one included |
| LedgerMerkle.BuildMerkleForLedger | src/services/merkle/ledgerMerkle.ts:21-39 | tree, root and, for every id, the proof of the last record with that id |
| LedgerMerkle.RootAndCount | src/services/merkle/ledgerMerkle.ts:26-28 | the root and the leaf count the callers use |
| InclusionProofs.Verify | src/services/merkle/ZkInclusionVerifier.ts:36-90 | accepts exactly if root, leaf and siblings are digests, there is a marker `L` or `R` for each sibling, and the marker-driven fold is the root; fails closed otherwise |
| InclusionProofs.MarkedStepSpelledOut | src/services/merkle/ZkInclusionVerifier.ts:76-82 | literally: one step, `R` puts the hash to the right of the sibling, `L` to the left |
| InclusionProofs.DeriveMarkers | src/services/merkle/EnclaveMerkleAccumulator.ts:111-119 | the markers of an index |
| InclusionProofs.MarkersFoldLikeIndex | src/services/merkle/EnclaveMerkleAccumulator.ts:111-119 | with derived markers the marker-driven verifier computes what the index-driven one does |
| InclusionProofs.PlaceFoldsLikeMarkers | src/services/merkle/ZkInclusionVerifier.ts:62-83 | any markers fold like the index they spell out |
| InclusionProofs.EnclaveMerkleAccumulator.constructor | src/services/merkle/EnclaveMerkleAccumulator.ts:15-21 | starts with an empty, valid cache |
| InclusionProofs.EnclaveMerkleAccumulator.GetRootHash | src/services/merkle/EnclaveMerkleAccumulator.ts:61-80 | the cache never shows: always the root of the current ledger |
| InclusionProofs.EnclaveMerkleAccumulator.GetInclusionProof | src/services/merkle/EnclaveMerkleAccumulator.ts:88-131 | the proof of the last record with the id, an error exactly for an empty or unknown id |
| InclusionProofs.FingerprintTextIsInjective | src/services/merkle/EnclaveMerkleAccumulator.ts:46-49 | the cache fingerprint text determines root and count |
| InclusionProofs.HandedOutProofsAreAccepted | src/services/merkle/EnclaveMerkleAccumulator.ts:88-131 | every handed-out proof is accepted by the stateless verifier |
| InclusionProofs.AcceptedRecordIsInLedger | src/services/merkle/ZkInclusionVerifier.ts:36-90 | an accepted proof, of any length, means the ledger holds a record equal on every hashed field |
| InclusionProofs.AcceptedAtFullLengthIsHandedOut | src/services/merkle/ZkInclusionVerifier.ts:36-90 | a full-length accepted proof is the handed-out proof of the record at the place its markers name |
| LedgerWorld.StoredReadsBack | src/services/DatabaseService.ts:220-248 | records that pass the read guard are read back exactly as written |
| LedgerWorld.UnreadableIsMissing | src/services/DatabaseService.ts:231-243 | a stored record that fails the guard makes the read ledger shorter |
| LedgerGuarantees.GuardSpelledOut | src/services/DatabaseService.ts:231-243 | literally: the three statuses and two finite time locks |
| LedgerGuarantees.ReadSpelledOut | src/services/DatabaseService.ts:220-248 | entry by entry: what passes that guard is read, in order, what fails it is skipped; no array and no JSON give nothing |
| LedgerGuarantees.SaveFailsExactly | src/services/DatabaseService.ts:150-195 | a save fails exactly if the file is no JSON or cannot be written, and then changes nothing; one that succeeds touches only store and checkpoint |
| LedgerGuarantees.SavesBehaveLikeAMap | src/services/DatabaseService.ts:152-173 | over any run of saves ids stay unique, in order of first insertion, and lookup returns the record last saved |
| LedgerGuarantees.SaveUpserts | src/services/DatabaseService.ts:142-196 | a save of a readable record succeeds and is an upsert of what is read |
| LedgerGuarantees.StoreRefinesSaves | src/services/DatabaseService.ts:142-196 | over any run of saves of any records the file reads as the fold of upserts that drop what fails the guard, and the checkpoint is that of what was written |
| LedgerGuarantees.UnreadableSavesRemove | src/services/DatabaseService.ts:152-173 | over any run of saves a lookup returns the record last saved if it passes the guard, and nothing if it does not |
| LedgerGuarantees.StoreRefinesUpserts | src/services/DatabaseService.ts:142-196 | for readable records the file reads as the fold of upserts, and the checkpoint is its root and size |
| LedgerGuarantees.AuditDetectsTampering | src/services/LedgerAuditor.ts:162-228 | with the checkpoint of a ledger, an audit stays silent exactly if the notary has that root and the store agrees with the ledger on every hashed field of every record |
| LedgerGuarantees.PassingAuditTiesToNotary | src/services/LedgerAuditor.ts:177-227 | whatever the checkpoint file says, a passing audit means the store fills the row like the ledger of the notary's root, and agrees with it if counts are equal or no record is repeated |
| LedgerGuarantees.AuditPassesSpelledOut | src/services/LedgerAuditor.ts:177-227 | an audit with a checkpoint leaves the ledger unfrozen exactly if notary root, readable store, count and recomputed root all match the checkpoint |
| LedgerGuarantees.AuditSpelledOut | src/services/LedgerAuditor.ts:162-173 | an audit changes at most the flag; without a checkpoint it writes root and count of the store and does not freeze |
| LedgerGuarantees.SaveThenAudit | src/services/LedgerAuditor.ts:162-228 | after saving a readable record the audit passes exactly if the notary took over the new root |
| LedgerGuarantees.UnreadableSaveFreezes | src/services/DatabaseService.ts:158-184 | saving a record that fails the read guard freezes the next audit |
| LedgerGuarantees.SavedRecordAuditsClean | src/services/DatabaseService.ts:142-248 | the exact condition for a clean audit after a save |
| LedgerGuarantees.FixedNotaryStopsGrowth | scripts/mock-notary-harness.ts:78-87 | against a notary that keeps its root, exactly the saves that leave the bottom row alone audit clean; with unique ids, those that change no hashed field |
| LedgerGuarantees.ReleasedOnlyByAudit | src/services/LedgerAuditor.ts:68-119 | over any run a frozen ledger is released only by an unfreeze call; with a checkpoint its audit passed |
| LedgerGuarantees.HealSplitsTheStore | src/services/AdminRecoveryService.ts:174-266 | a heal succeeds exactly if some prefix has the notary's root; it stores that prefix, files the rest of the readable records away if the quarantine can be written, and brings checkpoint and notary into agreement; otherwise nothing changes |
| LedgerGuarantees.HealOutcomesSpelledOut | src/services/AdminRecoveryService.ts:174-266 | each answer exactly under its condition: duplicate, unverified, notary unreachable, no matching prefix, write fault, healed; every refusal but the write fault changes nothing |
| LedgerGuarantees.OnlyVerifiedHealsRewrite | src/services/AdminRecoveryService.ts:174-271 | over any run without saves, outside changes and first heals with verified signatures, store, quarantine and completed requests stay as they are |
| LedgerGuarantees.HealLosesTheUnreadable | src/services/AdminRecoveryService.ts:229-250 | over the raw entries: stored before = stored after + quarantined + those that fail the read guard |
| LedgerGuarantees.SaveLosesTheUnreadable | src/services/DatabaseService.ts:152-180 | a save writes back the readable entries and the new record; the others are dropped |
| LedgerGuarantees.LongestPrefixExactly | src/services/AdminRecoveryService.ts:200-219 | the scan finds the prefix whose root is sought exactly if no longer prefix fills the bottom row like it, for any store |
| LedgerGuarantees.HealedPrefixIsTheOnlyOne | src/services/AdminRecoveryService.ts:200-219 | without repeated records it finds the one prefix with the root |
| LedgerGuarantees.HealRestoresExactly | src/services/AdminRecoveryService.ts:174-266 | a verified heal and an unfreeze restore the notarised ledger exactly if the store begins with it and has no longer lookalike |
| LedgerGuarantees.HealRestoresDistinct | src/services/AdminRecoveryService.ts:174-266 | in a store without repeated records, exactly if the store begins with it |
| LedgerGuarantees.CopiedRecordSurvivesHealing | src/services/AdminRecoveryService.ts:200-266 | a copy of the last of three records freezes the audit, survives the heal and is released |
| LedgerGuarantees.HealThenUnfreezeReleases | src/services/AdminRecoveryService.ts:174-266 | liveness: if the notary's root is that of a prefix and store and checkpoint can be written, a verified heal and an unfreeze release the ledger with store, checkpoint and notary in agreement, quarantine fault or missing checkpoint notwithstanding |
| LedgerGuarantees.HealThenUnfreeze | src/services/AdminRecoveryService.ts:174-266 | with a checkpoint they release exactly if there is such a prefix; otherwise nothing changed |
| LedgerGuarantees.UnfreezeReleasesExactly | src/services/LedgerAuditor.ts:68-119 | an unfreeze releases exactly if there is no checkpoint or the audit against it passes |
| LedgerServices.Disk.ReadAllRecords | src/services/DatabaseService.ts:220-248 | the records that pass the guard, in order; an error for text that is not JSON |
| LedgerServices.LedgerAuditor.constructor | src/services/LedgerAuditor.ts:25-38 | an auditor starts unfrozen |
| LedgerServices.LedgerAuditor.Freeze | src/services/LedgerAuditor.ts:122-144 | sets the flag and nothing else |
| LedgerServices.LedgerAuditor.ReadCheckpoint | src/services/LedgerAuditor.ts:146-160 | the checkpoint, absent if its root is empty |
| LedgerServices.LedgerAuditor.WriteCheckpoint | src/services/LedgerAuditor.ts:230-237 | replaces the checkpoint, or nothing on a write fault |
| LedgerServices.LedgerAuditor.UpdateCheckpointNow | src/services/LedgerAuditor.ts:242-257 | writes the checkpoint for a root and count |
| LedgerServices.LedgerAuditor.AuditOnce | src/services/LedgerAuditor.ts:162-228 | is the audit step: frozen, absent checkpoint, unreachable notary, root, store and count checks |
| LedgerServices.LedgerAuditor.EstablishCheckpoint | src/services/LedgerAuditor.ts:166-173 | without a checkpoint the readable store becomes the reference |
| LedgerServices.LedgerAuditor.VerifyStore | src/services/LedgerAuditor.ts:195-227 | freezes exactly if the store does not match the checkpoint |
| LedgerServices.LedgerAuditor.UnfreezeIfClean | src/services/LedgerAuditor.ts:68-119 | is the unfreeze step: released exactly if the repeated audit does not freeze |
| LedgerServices.DatabaseService.SaveRecord | src/services/DatabaseService.ts:142-196 | is the save step, with its failures |
| LedgerServices.DatabaseService.FindIndex | src/services/DatabaseService.ts:154-156 | the first index with an id, or -1 |
| LedgerServices.DatabaseService.GetRecord | src/services/DatabaseService.ts:198-209 | lookup in the readable store |
| LedgerServices.DatabaseService.GetAllRecords | src/services/DatabaseService.ts:211-218 | the readable store, empty if the file cannot be used |
| LedgerServices.RecoveryMessageBindsPayload | src/services/AdminRecoveryService.ts:136-147 | equal signed messages mean equal request, action and expiry |
| LedgerServices.RecoveryTextSpelledOut | src/services/AdminRecoveryService.ts:136-147 | literally: the text whose hash officers sign |
| LedgerServices.AuthorisedSpelledOut | src/services/AdminRecoveryService.ts:108-134 | literally: the ritual's action, an expiry in the future, and at least the threshold of distinct configured officers with a valid signature over that hash |
| LedgerServices.AdminRecoveryService.VerifyMultiSig | src/services/AdminRecoveryService.ts:108-134 | true exactly if the ritual is unexpired and the distinct configured officers with a valid signature reach the threshold |
| LedgerServices.UnsetThresholdAsksForNothing | src/services/AdminRecoveryService.ts:91-98 | a threshold of zero or less is met by any unexpired payload |
| LedgerServices.UnsignedIsRefusedExactly | src/services/AdminRecoveryService.ts:121-133 | an unexpired payload without a valid officer signature is refused exactly if the threshold is positive; without officers that is every payload |
| LedgerServices.UnconfiguredRefusesExactly | src/services/AdminRecoveryService.ts:95-98 | a service without officers or threshold refuses an unexpired payload exactly if the threshold is positive |
| LedgerServices.AdminRecoveryService.AttemptHealAndReturnOutcome | src/services/AdminRecoveryService.ts:174-271 | is the heal step with all its outcomes; heals only what is authorised, and an unauthorised or repeated request changes nothing |
| LedgerServices.AdminRecoveryService.ScanPrefixes | src/services/AdminRecoveryService.ts:200-219 | the downward scan finds the longest matching prefix |
| TimeAnchor.MedianLiesWithMajority | src/services/consensus/EnclaveTimeAnchorService.ts:183-189 | an interval with more than half of the values contains their median |
| TimeAnchor.AnchorFollowsMajority | src/services/consensus/EnclaveTimeAnchorService.ts:132-181 | a majority within an interval no wider than the drift threshold is never filtered, and any anchor lies in the interval |
| TimeAnchor.HalfIsNotEnough | src/services/consensus/EnclaveTimeAnchorService.ts:132-181 | exactly half does not suffice |
| TimeAnchor.MedianOfSortedSpelledOut | src/services/consensus/EnclaveTimeAnchorService.ts:183-189 | the middle value, or half the sum of the two middle ones |
| TimeAnchor.FilterSpelledOut | src/services/consensus/EnclaveTimeAnchorService.ts:140-147 | kept are exactly the assertions at most 5000 from the median, thrown out exactly the others |
| TimeAnchor.AnchorSpelledOut | src/services/consensus/EnclaveTimeAnchorService.ts:132-181 | there is an anchor exactly if at least one and at least the minimum of all times lie within 5000 of their median; it is the median of those, and lies within 5000 too |
| TimeAnchor.ListsSpelledOut | src/services/consensus/EnclaveTimeAnchorService.ts:156-157 | a node is listed as an outlier exactly if it holds a time more than 5000 from the median, as included exactly if it holds one that is not; both lists in order |
| TimeAnchor.OutlierIsFiltered | src/services/consensus/EnclaveTimeAnchorService.ts:140-154 | three times of which the third is 9000 off: refused for the default minimum, the median of the other two for a minimum of two |
| TimeAnchor.AnchorIgnoresOrder | src/services/consensus/EnclaveTimeAnchorService.ts:132-181 | the anchor does not depend on the order of the held assertions |
| TimeAnchor.MajorityDecidesTimeLocks | src/services/EnclaveBridgeService.ts:232-255 | windows that contain the majority's interval are accepted, disjoint ones refused |
| TimeAnchor.TimeLocksSpelledOut | src/services/EnclaveBridgeService.ts:232-255 | refused unless the enclave is ready; accepted exactly if the anchor lies in the window, ends included |
| TimeAnchor.AcceptableSpelledOut | src/services/consensus/EnclaveTimeAnchorService.ts:79-96 | the assertions taken in: node, measurement and signature present, a valid signature, and an end, if given, after the time asserted |
| TimeAnchor.MakeRoomMakesRoom | src/services/consensus/EnclaveTimeAnchorService.ts:98-104 | a full window loses exactly the assertion of its smallest node id |
| TimeAnchor.WindowInvariant | src/services/consensus/EnclaveTimeAnchorService.ts:79-111 | over any run: at most 32 held, one a node, all of them given and acceptable, the last acceptable one among them |
| TimeAnchor.SplitByDrift | src/services/consensus/EnclaveTimeAnchorService.ts:140-147 | the loop splits the assertions into those within the threshold and the others, in order |
| TimeAnchor.EnclaveTimeAnchorService.constructor | src/services/consensus/EnclaveTimeAnchorService.ts:46-60 | starts with an empty window |
| TimeAnchor.EnclaveTimeAnchorService.Reset | src/services/consensus/EnclaveTimeAnchorService.ts:69-71 | empties the window |
| TimeAnchor.EnclaveTimeAnchorService.IngestAssertion | src/services/consensus/EnclaveTimeAnchorService.ts:79-111 | takes in exactly the acceptable assertions, after making room |
| TimeAnchor.EnclaveTimeAnchorService.ComputeMedianAnchor | src/services/consensus/EnclaveTimeAnchorService.ts:132-181 | median, filter, minimum, second median, sorted node lists |
| BftVerify.AggregateShares | src/services/consensus/EnclaveBftVerifyEngine.ts:250-291 | the loop keeps the last counting share of each node and sorts by node; every listed share was given and carries the measurement attested for its node |
| BftVerify.AggregationMeaning | src/services/consensus/EnclaveBftVerifyEngine.ts:256-287 | succeeds exactly if 2f+1 distinct attested nodes signed this term and index; lists exactly those, once each, in order |
| BftVerify.AggregationSpelledOut | src/services/consensus/EnclaveBftVerifyEngine.ts:256-287 | literally: succeeds exactly if at least 2((n-1)/3)+1 distinct nodes have a share with the proposal's term and index and the non-empty measurement attested for them, and every listed share is such a one |
| BftVerify.CountedSpelledOut | src/services/consensus/EnclaveBftVerifyEngine.ts:261-272 | literally: the nodes that count |
| BftVerify.WrongMeasurementIsIgnored | src/services/consensus/EnclaveBftVerifyEngine.ts:267-269 | a share whose measurement is not the one attested for its node can be taken out, anywhere in the list, without changing the result |
| BftVerify.ListedShareIsTheLast | src/services/consensus/EnclaveBftVerifyEngine.ts:271 | the listed share of a node is its last one that counts |
| BftVerify.AggregationIgnoresOrder | src/services/consensus/EnclaveBftVerifyEngine.ts:259-285 | order and repetition of shares do not change who is listed |
| BftVerify.QuorumsOverlap | src/services/consensus/EnclaveBftVerifyEngine.ts:90-94 | two quorums of at most n nodes share at least 2(2f+1) - n |
| BftVerify.OverlapBoundIsTight | src/services/consensus/EnclaveBftVerifyEngine.ts:90-94 | for every n >= 1 two quorums meet that bound |
| BftVerify.OverlapBeyondFaulty | src/services/consensus/EnclaveBftVerifyEngine.ts:90-94 | any two quorums share more than f nodes exactly if n = 3f+1 |
| BftVerify.PayloadsOverlap | src/services/consensus/EnclaveBftVerifyEngine.ts:250-291 | any two aggregated payloads over one attestation map of at most n nodes share at least 2(2f+1) - n of them |
| BftVerify.PayloadOverlapIsTight | src/services/consensus/EnclaveBftVerifyEngine.ts:250-291 | for every map of n >= 1 measured nodes two share lists aggregate into payloads that meet the bound |
| BftVerify.PayloadOverlapBeyondFaulty | src/services/consensus/EnclaveBftVerifyEngine.ts:250-291 | any two payloads share more than f nodes exactly if n = 3f+1 |
| BftVerify.PayloadsShareAnHonestNode | src/services/consensus/EnclaveBftVerifyEngine.ts:250-291 | two aggregated payloads over one attestation map of n = 3f+1 name a common node outside any f faulty ones |
| BftVerify.HonestNodesSuffice | src/services/consensus/EnclaveBftVerifyEngine.ts:256-277 | for every n >= 1 the shares of the nodes that are not faulty reach the threshold, whatever the others mix in |
| RaftEngine.EnclaveRaftEngine.constructor | src/services/consensus/EnclaveRaftEngine.ts:35-44 | starts at term 0 with an empty log, nothing committed, fail-closed |
| RaftEngine.EnclaveRaftEngine.AppendLocalLog | src/services/consensus/EnclaveRaftEngine.ts:71-80 | appends one entry with the next index and the current term |
| RaftEngine.EnclaveRaftEngine.Find | src/services/consensus/EnclaveRaftEngine.ts:136 | the first entry with the index, or -1 |
| RaftEngine.EnclaveRaftEngine.WriteEntry | src/services/consensus/EnclaveRaftEngine.ts:193-195 | saves the record and then moves the commit index, which stays if the save throws |
| RaftEngine.EnclaveRaftEngine.CommitToLedgerIfQuorum | src/services/consensus/EnclaveRaftEngine.ts:86-104 | writes exactly under a majority (or not fail-closed) and a later index; otherwise nothing changes, and the first failed check is the reason |
| RaftEngine.EnclaveRaftEngine.CommitToLedgerIfBftQuorum | src/services/consensus/EnclaveRaftEngine.ts:115-196 | writes exactly if log, commit index and payload pass; otherwise nothing changes, and the first failed check is the reason |
| RaftEngine.EnclaveRaftEngine.CheckPayload | src/services/consensus/EnclaveRaftEngine.ts:144-191 | passes exactly if commitment, sizes, threshold, every share's term and index and the distinct node count fit; else gives the first failed check |
| RaftEngine.AggregatesFit | src/services/consensus/EnclaveRaftEngine.ts:144-191 | every aggregated payload passes the committer's checks for the same cluster, term and index |
| RaftEngine.CommitHasQuorum | src/services/consensus/EnclaveRaftEngine.ts:136-195 | a commit has 2f+1 distinct ids, attested or not, for the named term and index, an entry with the proposed commitment, and a higher commit index |
| RaftEngine.MajorityIsMoreThanHalf | src/services/consensus/EnclaveRaftEngine.ts:62-104 | a majority commit is accepted exactly for a logged, later entry with more than half of the cluster behind it, or any number if it is not fail-closed |
| RaftEngine.BftCommitSpelledOut | src/services/consensus/EnclaveRaftEngine.ts:136-191 | literally: what a Byzantine commit needs of log, commit index, payload and every one of its shares |
| RaftEngine.WriteSpelledOut | src/services/consensus/EnclaveRaftEngine.ts:193-195 | the write succeeds exactly if the store is readable and writable; then the commit index is the entry's and the record is saved, otherwise nothing changes |
| RaftEngine.AnyNamesFit | src/services/consensus/EnclaveRaftEngine.ts:144-191 | any distinct names in sufficient number make a payload that passes the committer's checks |
| RaftEngine.DisjointPayloadsFit | src/services/consensus/EnclaveRaftEngine.ts:144-191 | for every cluster size two payloads pass that have no name in common |
| RaftEngine.CommitsOverlapExactly | src/services/consensus/EnclaveRaftEngine.ts:181-191 | the names behind two commits belong to one cluster of n exactly if they share at least their sum minus n; then they share at least 2(2f+1) - n |
| RaftEngine.EntryTermIsNotChecked | src/services/consensus/EnclaveRaftEngine.ts:167-176 | changing the term of a log entry never changes the decision |
| RaftEngine.AnyTermAndIndexIsAccepted | src/services/consensus/EnclaveRaftEngine.ts:167-187 | an entry of term 0 and index 1 is accepted for commit under every term and index a caller names |
| RaftEngine.SharesBindTheEntryExactly | src/services/consensus/EnclaveRaftEngine.ts:167-187 | the shares of an accepted commit carry the entry's term and index exactly if the caller named these |
| RaftEngine.RunsKeepOrder | src/services/consensus/EnclaveRaftEngine.ts:71-196 | over any run, with files and faults changing in between: entry k has index k+1, commits strictly increase, none repeats, none passes the log |
| RaftEngine.RunsRefineSaves | src/services/consensus/EnclaveRaftEngine.ts:136-195 | over any run whose commits find the records the one before left, whatever happens in between: after the last commit the ledger is the committed records saved in commit order |
| RaftEngine.RunsRefineUpserts | src/services/consensus/EnclaveRaftEngine.ts:136-195 | with readable records left alone, at every moment, through any faults, the ledger is their upserts |
| RaftEngine.CommitKeepsInvariant | src/services/consensus/EnclaveRaftEngine.ts:193-195 | one write of any record adds one save and one position, or throws and changes nothing |
| RaftEngine.RefusedCallsChangeNothing | src/services/consensus/EnclaveRaftEngine.ts:86-104 | a commit call that does not commit leaves ledger, log and commit index alone |
| KeyRotator.EnclaveKeyRotator.constructor | src/services/cryptography/EnclaveKeyRotator.ts:63-73 | starts in epoch 1 with its keys and no references |
| KeyRotator.EnclaveKeyRotator.RegisterUnspentTimeLockedTx | src/services/cryptography/EnclaveKeyRotator.ts:95-101 | binds and references the transaction in the current epoch |
| KeyRotator.EnclaveKeyRotator.MarkTxSpent | src/services/cryptography/EnclaveKeyRotator.ts:107-129 | removes binding and reference and drops past epochs without references |
| KeyRotator.EnclaveKeyRotator.RemoveReferences | src/services/cryptography/EnclaveKeyRotator.ts:116-120 | only the bound epoch loses the reference |
| KeyRotator.EnclaveKeyRotator.CollectGarbage | src/services/cryptography/EnclaveKeyRotator.ts:122-128 | the backward splicing loop removes exactly the unreferenced epochs |
| KeyRotator.EnclaveKeyRotator.GetSigningPublicKeysForEpoch | src/services/cryptography/EnclaveKeyRotator.ts:131-137 | keys of the current epoch or of the first retained one with that number |
| KeyRotator.EnclaveKeyRotator.TriggerEpochRotation | src/services/cryptography/EnclaveKeyRotator.ts:145-184 | next epoch with fresh keys; the old one retained exactly if referenced; refused unless the enclave is ready |
| KeyRotator.RunsKeepInv | src/services/cryptography/EnclaveKeyRotator.ts:95-184 | every run keeps retained epochs distinct, in order, older than the current, referenced, and every unspent transaction referenced by its epoch |
| KeyRotator.UnspentKeepTheirKeys | src/services/cryptography/EnclaveKeyRotator.ts:95-184 | after any run every unspent transaction's epoch has retrievable keys, those derived for that epoch |
| KeyRotator.KeysOutliveRotation | src/services/cryptography/EnclaveKeyRotator.ts:95-184 | from registration to spend the keys current at registration stay retrievable, across any other calls |
| KeyRotator.KeysSpelledOut | src/services/cryptography/EnclaveKeyRotator.ts:41-46 | literally: the texts whose hashes are the two keys of an epoch |
| KeyRotator.EpochsHaveDifferentKeys | src/services/cryptography/EnclaveKeyRotator.ts:41-46 | two epochs share no key of either kind, if the hash does not collide on their texts |
| KeyRotator.RotationChangesKeys | src/services/cryptography/EnclaveKeyRotator.ts:165-177 | a rotation really changes both keys |
| KeyRotator.RotateSpelledOut | src/services/cryptography/EnclaveKeyRotator.ts:145-177 | the next epoch without references; the old one retained, with all it had, exactly if referenced; nothing changes unless the enclave is ready |
| KeyRotator.RegisterSpelledOut | src/services/cryptography/EnclaveKeyRotator.ts:95-101 | a registration binds and references one transaction in the current epoch and touches nothing else |
| KeyRotator.SpendSpelledOut | src/services/cryptography/EnclaveKeyRotator.ts:107-129 | a spend ends one binding and its reference in the bound epoch, keeps every other referenced epoch and leaves none unreferenced; an unknown transaction changes nothing |
| KeyRotator.RegisterKeepsExactUnlessRebinding | src/services/cryptography/EnclaveKeyRotator.ts:95-101 | a registration keeps references exact exactly if the transaction is not still bound to an older epoch |
| KeyRotator.ExactUnlessRebinding | src/services/cryptography/EnclaveKeyRotator.ts:95-184 | after a run every reference is that of an unspent transaction bound to the epoch exactly if the run never registers one still bound to an older epoch |
| KeyRotator.RetainedAreTheBound | src/services/cryptography/EnclaveKeyRotator.ts:95-184 | over runs without such a registration the retained past epochs are exactly those some unspent transaction is bound to |
| KeyRotator.RebindingIsStale | src/services/cryptography/EnclaveKeyRotator.ts:95-101 | rebinding leaves a reference behind in the older epoch |
| KeyRotator.StaleReferencesStay | src/services/cryptography/EnclaveKeyRotator.ts:107-129 | no run removes such a reference or its epoch |
| Reconciliation.ChainHashIsInjective | src/services/consensus/EnclaveReconciliationEngine.ts:150-159 | the hash fold is injective on lists of printed objects |
| Reconciliation.EntriesHashIsInjective | src/services/consensus/EnclaveReconciliationEngine.ts:150-159 | a block hash determines its entries, time locks included |
| Reconciliation.SameHashesSameEntries | src/services/consensus/EnclaveReconciliationEngine.ts:82-85 | accepted blocks at one place of two histories have equal hashes exactly if they have equal entries |
| Reconciliation.EntryTextSpelledOut | src/services/consensus/EnclaveReconciliationEngine.ts:153-155 | literally: the text of an entry, its seven members in the order they are written, time locks included |
| Reconciliation.EntriesHashSpelledOut | src/services/consensus/EnclaveReconciliationEngine.ts:150-159 | literally: the hash of no, one, and one more entry, the hash so far before that of the entry |
| Reconciliation.AcceptsBlockSpelledOut | src/services/consensus/EnclaveReconciliationEngine.ts:64-91 | literally: an active session, the index after the largest applied or the local one, the link, the hash of the entries, and a signature |
| Reconciliation.LastHashForgetsTheBlocksBefore | src/services/consensus/EnclaveReconciliationEngine.ts:78-92 | histories with different first blocks can end in one hash |
| Reconciliation.SnapshotQuorumIsTwo | src/services/consensus/EnclaveSnapshotManager.ts:108-144 | a snapshot is valid exactly if it has at least two signatures, all non-empty |
| Reconciliation.EnclaveReconciliationEngine.constructor | src/services/consensus/EnclaveReconciliationEngine.ts:31-37 | starts idle at the genesis hash |
| Reconciliation.EnclaveReconciliationEngine.BeginReconciliation | src/services/consensus/EnclaveReconciliationEngine.ts:50-62 | opens a session, forgets applied blocks, keeps the last hash |
| Reconciliation.EnclaveReconciliationEngine.ApplyCatchUpBlock | src/services/consensus/EnclaveReconciliationEngine.ts:64-98 | applies exactly blocks with the expected index, link, hash and a signature; otherwise nothing changes |
| Reconciliation.EnclaveReconciliationEngine.LargestIndex | src/services/consensus/EnclaveReconciliationEngine.ts:69-71 | the largest applied index |
| Reconciliation.EnclaveReconciliationEngine.ComputeBlockMerkleHash | src/services/consensus/EnclaveReconciliationEngine.ts:150-159 | the loop computes the fold |
| Reconciliation.EnclaveReconciliationEngine.ApplySnapshotOf | src/services/consensus/EnclaveReconciliationEngine.ts:100-117 | a valid snapshot in an active session replaces last hash and local index and counts as one block; any other changes nothing |
| Reconciliation.EnclaveReconciliationEngine.CompleteReconciliation | src/services/consensus/EnclaveReconciliationEngine.ts:119-124 | returns the session closed and ends it |
| Reconciliation.RunsStayLinked | src/services/consensus/EnclaveReconciliationEngine.ts:50-124 | over any run: gap-free indices within a session, counter equals blocks plus snapshots, every accepted block links to what was accepted just before it, across sessions; every accepted block is signed |
| Reconciliation.RefusedChangesNothing | src/services/consensus/EnclaveReconciliationEngine.ts:64-117 | the state is unchanged exactly if the block or snapshot is refused |
| Reconciliation.EnclaveSnapshotManager.constructor | src/services/consensus/EnclaveSnapshotManager.ts:42-55 | starts without snapshots |
| Reconciliation.EnclaveSnapshotManager.CreateSnapshot | src/services/consensus/EnclaveSnapshotManager.ts:65-98 | the snapshot's contents, and a history of the ten latest that matches the index by id |
| Reconciliation.EnclaveSnapshotManager.Remember | src/services/consensus/EnclaveSnapshotManager.ts:89-95 | adds one and drops the oldest beyond ten |
| Reconciliation.EnclaveSnapshotManager.Forget | src/services/consensus/EnclaveSnapshotManager.ts:93-94 | drops the oldest from history and index alike |
| ClientPuzzles.NormalizeIsIdempotent | src/services/security/EnclaveClientPuzzleEngine.ts:178-181 | normalising a client id twice is normalising it once |
| ClientPuzzles.NormalizeSpelledOut | src/services/security/EnclaveClientPuzzleEngine.ts:178-181 | an absent or blank id is `anonymous`, a trimmed one stays as it is |
| ClientPuzzles.EnclaveClientPuzzleEngine.constructor | src/services/security/EnclaveClientPuzzleEngine.ts:57-60 | starts a window now, with no counts |
| ClientPuzzles.EnclaveClientPuzzleEngine.AdvanceWindowIfNeeded | src/services/security/EnclaveClientPuzzleEngine.ts:166-176 | a window that is over is replaced by an empty one |
| ClientPuzzles.EnclaveClientPuzzleEngine.RecordRequest | src/services/security/EnclaveClientPuzzleEngine.ts:76-85 | counts the request and says whether it is challenged |
| ClientPuzzles.EnclaveClientPuzzleEngine.IsUnderPressure | src/services/security/EnclaveClientPuzzleEngine.ts:87-92 | client beyond the limit, or total beyond three times it |
| ClientPuzzles.EnclaveClientPuzzleEngine.GetOrCreateChallenge | src/services/security/EnclaveClientPuzzleEngine.ts:96-107 | the live challenge of the client, or a new one in its place |
| ClientPuzzles.EnclaveClientPuzzleEngine.VerifyPuzzleSolution | src/services/security/EnclaveClientPuzzleEngine.ts:109-147 | true exactly if the five fields agree with the client's stored challenge, it has not expired and the nonce passes the digest test; a redeemed or late challenge is removed |
| ClientPuzzles.RunsKeepInv | src/services/security/EnclaveClientPuzzleEngine.ts:76-85 | under a monotone clock the window total is always the sum of the client counts |
| ClientPuzzles.FreeWithinWindow | src/services/security/EnclaveClientPuzzleEngine.ts:76-92 | within a window at most the limit goes unchallenged per client, three times it overall |
| ClientPuzzles.FreeWithinSpan | src/services/security/EnclaveClientPuzzleEngine.ts:166-176 | across one window change at most one further limit |
| ClientPuzzles.RateBound | src/services/security/EnclaveClientPuzzleEngine.ts:76-176 | from the start on, in any span shorter than a window at most twice the limit per client, six times it overall |
| ClientPuzzles.RateBoundIsReached | src/services/security/EnclaveClientPuzzleEngine.ts:166-176 | the factor two is reached |
| ClientPuzzles.FreeSpelledOut | src/services/security/EnclaveClientPuzzleEngine.ts:76-92 | literally: a request goes unchallenged exactly if, counted in its window, the client is within the limit and the total within three times it |
| ClientPuzzles.IssueSpelledOut | src/services/security/EnclaveClientPuzzleEngine.ts:96-107 | literally: the live challenge the client holds, else a new one for it with the set lifetime; no other client's changes |
| ClientPuzzles.ChallengesRedeemOnce | src/services/security/EnclaveClientPuzzleEngine.ts:109-147 | over any run redemptions never outnumber challenges issued |
| ClientPuzzles.RedeemedIsGone | src/services/security/EnclaveClientPuzzleEngine.ts:109-147 | after a redemption no answer of the client succeeds before a new challenge is issued |
| ClientPuzzles.SuccessTakesWork | src/services/security/EnclaveClientPuzzleEngine.ts:135-146 | over any run the successful answers of a client never outnumber its answers that pass the digest test for the unexpired challenge it holds |
| ClientPuzzles.RunsKeepOwnChallenges | src/services/security/EnclaveClientPuzzleEngine.ts:149-164 | over any run the challenge a client holds was issued to that client, with its hash and lifetime |
| Escrows.EscrowService.constructor | packages/backend/src/services/escrow.service.ts:54-56 | starts on an empty collection |
| Escrows.EscrowService.CreateEscrow | packages/backend/src/services/escrow.service.ts:70-101 | stores a pending escrow without transaction |
| Escrows.EscrowService.LockEscrow | packages/backend/src/services/escrow.service.ts:106-147 | locks a pending escrow with whatever transaction id the payment result has; every failure leaves the collection alone |
| Escrows.EscrowService.ReleaseEscrow | packages/backend/src/services/escrow.service.ts:152-185 | releases a locked, captured escrow |
| Escrows.EscrowService.RefundEscrow | packages/backend/src/services/escrow.service.ts:190-231 | refunds an escrow with a transaction that is not refunded yet |
| Escrows.EscrowService.DisputeEscrow | packages/backend/src/services/escrow.service.ts:236-262 | disputes any escrow that is neither released nor refunded |
| Escrows.CreateSpelledOut | packages/backend/src/services/escrow.service.ts:70-101 | literally: a new escrow is pending, without transaction, hash or dates, and carries the terms given |
| Escrows.LockSpelledOut | packages/backend/src/services/escrow.service.ts:106-147 | literally: succeeds exactly on a pending escrow whose payment went through; sets status, transaction, hash and date and nothing else |
| Escrows.ReleaseSpelledOut | packages/backend/src/services/escrow.service.ts:152-185 | literally: succeeds exactly on a locked escrow with a transaction that the provider confirms; sets status and date and nothing else |
| Escrows.RefundSpelledOut | packages/backend/src/services/escrow.service.ts:190-231 | literally: succeeds exactly on an unrefunded escrow with a transaction that the provider takes back; sets status, date and reason and nothing else |
| Escrows.DisputeSpelledOut | packages/backend/src/services/escrow.service.ts:236-262 | literally: succeeds exactly on a pending, locked or disputed escrow; sets status, reason and date and nothing else |
| Escrows.WrittenSpelledOut | packages/backend/src/services/escrow.service.ts:127-145 | a refused call writes nothing, a successful one its own document and no other |
| Escrows.SuccessesAreLimited | packages/backend/src/services/escrow.service.ts:106-231 | from any state on, no more locks, releases or refunds succeed than its status leaves |
| Escrows.SuccessRaisesRank | packages/backend/src/services/escrow.service.ts:106-262 | a successful call raises the status rank, repeated disputes excepted, and touches no other escrow |
| Escrows.RunsStaySound | packages/backend/src/services/escrow.service.ts:70-262 | over any run a pending escrow has no transaction, a released or refunded one has |
| Escrows.EachStepHappensOnce | packages/backend/src/services/escrow.service.ts:70-262 | over any run at most one lock, release and refund; released or refunded escrows were locked exactly once |
| Escrows.LockedTermsAreFixed | packages/backend/src/services/escrow.service.ts:116-145 | transaction and integrity hash never change once the escrow has left PENDING |
| Escrows.RefundedIsFinal | packages/backend/src/services/escrow.service.ts:190-262 | a refunded document never changes again |
| Escrows.ReleasedCanBeRefunded | packages/backend/src/services/escrow.service.ts:204-216 | a released escrow stays open to one refund, exactly if the provider agrees |
| Escrows.CanPayOutExactly | packages/backend/src/services/escrow.service.ts:106-262 | some later run releases or refunds an escrow exactly if it is pending, or has a usable transaction and is not refunded |
| Escrows.StuckStaysStuck | packages/backend/src/services/escrow.service.ts:106-262 | from every other state no lock, release or refund ever succeeds |
| Escrows.DisputeOrEmptyPaymentSticks | packages/backend/src/services/escrow.service.ts:124-143 | a pending escrow gets stuck by a dispute, and by a lock exactly if its payment has no usable transaction id |
| Escrows.DisputedBeforeLockIsStuck | packages/backend/src/services/escrow.service.ts:246-252 | an escrow disputed without a transaction stays disputed, and no lock, release or refund succeeds |
| Amounts.AmountIsItsValueRoundedDown | packages/backend/src/controllers/handshake.controller.ts:92-117 | an accepted amount is its value times 100 rounded down; its digits are the whole text exactly if there is no second dot |
| Amounts.AcceptedExactly | packages/backend/src/controllers/handshake.controller.ts:97-115 | accepted are exactly digits before the dot, only digits after it, no exponent, and a value of at least one cent |
| Amounts.RefusalsSpelledOut | packages/backend/src/controllers/handshake.controller.ts:97-115 | which of the four errors a refused text gives |
| Texts.SpaceSpelledOut | packages/backend/src/controllers/handshake.controller.ts:97 | the white space and line terminators that trimming removes |
| Amounts.WholeTextIsRead | packages/backend/src/controllers/handshake.controller.ts:104-106 | whole and fraction make up the text exactly if there is no second dot |
| Amounts.CentsAreTheValueRoundedDown | packages/backend/src/controllers/handshake.controller.ts:104-116 | rounding down, for the text after trimming and comma removal |
| Amounts.TwoDigitsRoundDown | packages/backend/src/controllers/handshake.controller.ts:111-112 | padding and cutting the fraction to two digits rounds it down |
| Amounts.CommaMattersExactly | packages/backend/src/controllers/handshake.controller.ts:97-101 | for every text and place: a comma changes nothing unless white space sets it apart from the amount; then the text is refused, except behind an amount with a second dot |
| Amounts.StrayComma | packages/backend/src/controllers/handshake.controller.ts:97-108 | a text that a comma turns from accepted to refused |
| Amounts.ZeroMattersExactly | packages/backend/src/controllers/handshake.controller.ts:97-113 | for every text with a fraction: a final zero changes nothing unless white space precedes it; then the text is refused, except behind an amount with a second dot |
| Amounts.StrayZero | packages/backend/src/controllers/handshake.controller.ts:97-109 | a text that a final zero turns from accepted to refused |
| Amounts.SecondDotIsIgnored | packages/backend/src/controllers/handshake.controller.ts:104-106 | a second dot and what follows it change nothing |
| Amounts.ParseOfRender | packages/backend/src/controllers/handshake.controller.ts:92-117 | parsing the two-decimal rendering of a positive cent count returns it |

## Left out

- HTTP routers, middleware, the web and mobile clients, and the calls to payment, database and messaging providers: plumbing whose answers are arguments here.
- The inside of SHA-256, RSA, AES-GCM, HKDF and the mock post-quantum and zero-knowledge checks: opaque functions.
- Sealing and migration of enclave state, `MerkleCompactor` and `ClusterMembershipManager`: they would add only easy members, or have no sound specification to refine.
- `validateIntegrityHash`: the value it expects depends on the current time, so there is no invariant to state.
- `NotaryAnchorService`: retries, caching and witness signatures; the notary is a root the environment may change.
- Interleavings inside one call: saves are serialised by the write queue, and commit calls are taken one at a time although the check and the update of the commit index are separated by an `await`.
- Process restart (the frozen flag lives in memory), the marker file, the audit log and the initialisation of the store file.
- The parts of a checkpoint or quarantine file that only carry time stamps, file names or the notary's state; and a failed write of the list of completed recovery requests.
- Numbers in printed JSON are integers; lone surrogates are left out, and keys are ordered by code point rather than by UTF-16 unit.
- Time locks inside records are integers or not finite; the time anchor itself works on real numbers.
- BftVerify.AggregateShares: `localeCompare` is taken as code-point order, because collation rules are outside the source; who is listed does not depend on it. The cluster size is an argument.
- The structural checks of proposals and the building of single shares: their outcome is the list of shares given to aggregation.
- TimeAnchor.EnclaveTimeAnchorService.ComputeMedianAnchor: leaves out the fingerprint of the anchor. The text hashed at src/services/consensus/EnclaveTimeAnchorService.ts:159-170 is not the one recomputed at src/services/consensus/EnclaveBftVerifyEngine.ts:100-106, so no end-to-end acceptance is stated.
- TimeAnchor.EnclaveTimeAnchorService.IngestAssertion: arguments that are not of the declared types are not modelled; the signature check is an arbitrary predicate of the assertion.
- LedgerServices.DatabaseService.SaveRecord: the first call in a process resets a store file that is no JSON array to an empty one (src/services/DatabaseService.ts:79-98); the model starts after that, where a damaged store makes saves throw.
- ClientPuzzles.RateBound: the limit is a whole number and the configuration valid; the parsing of environment variables, the difficulty mask and the digest test are abstract.
- Escrows.EscrowService.CreateEscrow: random identifiers are assumed fresh; metadata values are texts; the payment provider's answer is an argument, and a document store that rejects a missing transaction id is not modelled.
- Amounts.ParseOfRender: amounts given as text; amounts given as floating-point numbers are not modelled.
