# Ontology core, modelled and proved in Dafny

This project models four parts of the Ontology blockchain node and proves what they promise.

* **The append-only Merkle log** (`merkle/`). `MerkleSpec` and `MerkleLevels` state the tree, the audit
  paths and the consistency proofs of section 2.1 of RFC 6962, top down and level by level. `MerkleStore`
  and `MerkleTree` model the log that keeps only the roots of its full subtrees and writes every finished
  node to a hash store in post-order. `MerkleVerifier` models the bit-walking verifiers. `MerkleHasher`
  models the recursive root, the level-by-level root, and membership paths as bytes.
* **DBFT consensus** (`consensus/dbft/`). `Dbft` has every handler as a step over the context of one
  bookkeeper, `DbftService` runs the handlers on a mutable object, `DbftEffects` tells what each handler
  does to which field, and `DbftSafety` proves what every run
  of a network of such nodes keeps.
* **VBFT bookkeeping** (`consensus/vbft/`). `VbftParticipants` selects proposers, endorsers and committers.
  `VbftEndorsements` has the endorsement table and both quorum counts. `VbftPool` and `VbftServer` have the
  block pool and the server's votes, as steps and on mutable records, and `VbftEffects` tells what each step
  does to which record. `ChainStore` and `BlockStore` have the
  write-behind block store, as steps and on a mutable object.
* **Wire format, scripts and signatures** (`common/`, `core/`). `Wire`, `WireList`, `WireSource` and
  `WireSink` model the byte format, the reading cursor and the growing buffer. `HeaderCodec`,
  `TransactionCodec` and `BlockCodec` model the encoders and decoders of headers, transactions and blocks, and
  `Layout` states their bytes one by one.
  `TxRoot` models the in-place transaction root, `BigInt` the integers of the virtual machine, `Program`,
  `ProgramForms`, `ProgramBuilder` and `ProgramParser` the signature scripts, and `MultiSig` the multi-signature check and
  the block check that rests on it.

`Common`, `Bits`, `Modulo`, `Sets` and `PublicKeys` hold what several parts share. Hash functions, signature schemes,
key parsing, VRF values, clocks, the transaction pool and the ledger's own verdicts are parameters; a lemma
that needs a law about one of them (a key that parses as itself) says so in its `requires`. No hash of 32
bytes is free of collisions, so no lemma asks for that: soundness results hand out a collision between two
inputs that were really hashed, or hold wherever the inputs hashed in that one case do not collide.

Code that the source runs step by step is a method or a class here, and each such method is tied by its
`ensures` to a function or a state whose properties are proved as lemmas.

## Where the code and its promises differ

* A consistency proof is accepted for a wrong old root when that root equals the new root: the check stops
  at equal roots before it looks at anything else. `ConsistencyExact` states exactly what is accepted.
* A DBFT view number is one byte. With two or more bookkeepers a wrap can never make a quorum, so views only
  go up. A single bookkeeper does fall back, exactly in the cases that `AloneWraps` states, and that is a reset.
* A DBFT reset takes the height of the ledger, and can repeat a height. A bookkeeper that is reset twice at
  one height can sign twice in one view (`SameHeightTwice`). A reset keeps the signing rule exactly when
  nothing was signed at its height or above (`ResetExact`), and goes back exactly when it opens an earlier
  height, or the same one from a later view (`StepClimbs`). The theorems over runs ask for no more than that,
  for any number of bookkeepers.
* A counted list in a header takes its count as a signed number: a count of 2^63 or more is read as no items
  at all, and such a header is not re-encoded as it was (`NegativeCount`, `ListReencodes`, `HeaderReencodes`).
* `MerkleProve` reads one entry for every 32 bytes, while an entry takes 33. Paths of 32 entries or more are
  never accepted; the size limit keeps built paths at 15 or fewer (`ProvePath`, `FewSteps`). A tail that is
  too short to count is not looked at (`ProveTail`, `ProveShape`).
* The primary of a DBFT view is the height minus the view, as a uint32, modulo the number of bookkeepers. Where
  the view is above the height this wraps, and the rotation goes on exactly if 2^32 is a multiple of that
  number (`PrimaryRotates`, `PrimariesExact`).
* A push of 2^32 bytes or more has its length cut to 32 bits and is not read back (`PushExact`,
  `ParamRoundTrip`).
* The encoder of transactions writes what the decoder refuses: payloads of another type, invalid contracts, too
  many signatures, too many bytes. `TxRoundTrip` states exactly what is read back.
* The transaction root does not change when the last entry of an odd list is repeated (`RepeatedLast`).
  Among lists without duplicates it tells all lists apart, whatever their lengths (`RootExact`), so the
  duplicate check of the block decoder excludes this (`RootBindsBlock`).
* `VerifyMultiSignature` gives each signature the first free key that verifies it. Where one signature
  verifies under several keys it can reject a list that has a matching (`KeyTaken`). Every matching is found
  exactly where no two signatures share some but not all of their keys (`SeparateExact`).
* A chain store that has not reloaded after others wrote to the ledger can take a block for another height
  (`MisplacedBlock`); `AddExact` states exactly when an added block keeps the store intact.

## Model

| member | source | states |
|---|---|---|
| `Bits.SplitIsShift` | merkle/merkle_hasher.go:100-101 | The split width computed by bit shifts is the largest power of two below the width |
| `Bits.CountBitSplit` | merkle/util.go:24-26 | The 1 bits of a size are those of its two parts |
| `MerkleSpec.TreeOfAppend` | merkle/merkle_tree.go:158-185 | The tree over a longer list is the old tree with a leaf hung at the end of its right spine |
| `MerkleSpec.FoldSpine` | merkle/merkle_hasher.go:117-125 | Folding the roots of the full subtrees from the right gives the root of the tree |
| `MerkleSpec.ForestCount` | merkle/merkle_tree.go:96-106 | There are as many full subtrees as the size has 1 bits |
| `MerkleSpec.PostOrderLength` | merkle/file_hash_store.go:68-76 | A tree of n leaves has 2n - popcount(n) stored nodes |
| `MerkleSpec.StoredPrefix` | merkle/file_hash_store.go:43-66 | The stored nodes of a shorter log are a prefix of those of a longer one |
| `MerkleSpec.ForestPositions` | merkle/merkle_tree.go:211-227 | The positions computed from the size hold the roots of the full subtrees |
| `MerkleLevels.RootUp` | merkle/merkle_hasher.go:171-193 | One level up has the same root, and is the raised tree |
| `MerkleLevels.LevelRootIsRoot` | merkle/merkle_hasher.go:171-193 | The root reached level by level is the root of RFC 6962 |
| `MerkleLevels.LevelPathIsPath` | merkle/merkle_tree.go:400-427 | The siblings met level by level are the audit path of RFC 6962 |
| `MerkleLevels.ProofUp` | merkle/merkle_tree.go:464-566 | For an old tree of even size the consistency proof is the one of the next level |
| `MerkleLevels.ProofAtLeaf` | merkle/merkle_tree.go:464-566 | For an old tree of odd size the proof is its last leaf and that leaf's audit path |
| `MerkleLevels.TopLevel` | merkle/merkle_hasher.go:171-193 | After ceil(log2 n) levels only the root is left |
| `MerkleLevels.LevelInputsAreInputs` | merkle/merkle_hasher.go:171-193 | The inputs hashed level by level are the inputs of the nodes of the tree |
| `MerkleVerifier.CalculateRootHash` | merkle/merkle_tree.go:400-427 | The loop over index bits computes the recursive climb, with the same errors |
| `MerkleVerifier.VerifyLeafHashInclusion` | merkle/merkle_tree.go:362-380 | Accepts exactly the included leaves; an index outside the tree and a path that is too short or too long for it are reported as that, each exactly then |
| `MerkleVerifier.ClimbErrors` | merkle/merkle_tree.go:400-427 | A walk fails exactly for a path with fewer or more hashes than the index has siblings |
| `MerkleVerifier.PathHasLength` | merkle/merkle_tree.go:400-427 | That number is the length of the audit path of RFC 6962 |
| `MerkleVerifier.InclusionComplete` | merkle/merkle_tree.go:362-427 | The audit path of every leaf of every tree is accepted |
| `MerkleVerifier.ClimbCollision` | merkle/merkle_tree.go:400-427 | A path accepted with another leaf or other siblings yields an input of the walk that collides with an input of the tree |
| `MerkleVerifier.InclusionExact` | merkle/merkle_tree.go:362-427 | Where the walk hashes no input that collides with one of the tree, a path is accepted exactly for the leaf at that index with its own path |
| `MerkleVerifier.VerifyConsistency` | merkle/merkle_tree.go:464-566 | Computes the recursive check; a larger old tree is refused exactly then, size 0 and equal roots pass with any proof, and a proof is too short exactly below the length of the RFC proof |
| `MerkleVerifier.WalkBoth` | merkle/merkle_tree.go:508-544 | The two hashing loops compute the parallel walk |
| `MerkleVerifier.ConsistencyTells` | merkle/merkle_tree.go:464-566 | For all sizes, roots and proofs: what sizes and roots alone decide, and which lengths are refused or accepted |
| `MerkleVerifier.ProofHasLength` | merkle/merkle_tree.go:464-566 | The length that is asked for is that of the RFC proof |
| `MerkleVerifier.MismatchTells` | merkle/merkle_tree.go:546-560 | With the RFC proof and any two roots, a wrong new root and a wrong old root are reported as what they are |
| `MerkleVerifier.ConsistencyComplete` | merkle/merkle_tree.go:464-566 | The proof of RFC 6962 between any two sizes is accepted |
| `MerkleVerifier.ConsistencyCollision` | merkle/merkle_tree.go:464-566 | A proof accepted for the new root that is not the RFC proof of the true old root yields an input of the check that collides with an input of the tree, unless the old root is the new root |
| `MerkleVerifier.ConsistencyExact` | merkle/merkle_tree.go:464-566 | Where the check hashes no input that collides with one of the tree, a proof is accepted exactly if it is the RFC proof of the true old root, or the old root is the new root again |
| `MerkleStore.GetSubTreeSize` | merkle/merkle_tree.go:196-208 | The loop over bits gives the sizes of the full subtrees, largest first |
| `MerkleStore.GetStoredHashNum` | merkle/file_hash_store.go:68-76 | The sum over subtrees is 2n - popcount(n) |
| `MerkleStore.GetSubTreePos` | merkle/merkle_tree.go:211-227 | The positions fit 32 bits and are where the subtree roots are stored |
| `MerkleStore.FileHashStore.Open` | merkle/file_hash_store.go:43-66 | Opens at the end of the live entries and leaves a stale tail in place, or fails for a file too short |
| `MerkleStore.FileHashStore.Append` | merkle/file_hash_store.go:91-101 | The live entries grow by the given hashes, over any stale tail |
| `MerkleTree.KeptCount` | merkle/merkle_tree.go:96-106 | Every log keeps as many hashes as its size has 1 bits |
| `MerkleTree.KeptFold` | merkle/merkle_tree.go:109-118 | Folding the kept hashes gives the root of the log |
| `MerkleTree.KeptFoldWithLeaf` | merkle/merkle_tree.go:121-126 | One more leaf folded on gives the root after really appending it |
| `MerkleTree.NextLeafPath` | merkle/merkle_tree.go:158-185 | The kept hashes reversed are the audit path of the appended leaf |
| `MerkleTree.HashFold` | merkle/merkle_hasher.go:117-125 | The loop computes the fold from the right |
| `MerkleTree.Carry` | merkle/merkle_tree.go:158-185 | The carry loop leaves the kept hashes of the longer log, emits exactly the new post-order nodes, and ends at the lowest 1 bit |
| `MerkleTree.RootAt` | merkle/merkle_tree.go:230-239 | The entries at the computed positions fold to the root |
| `MerkleTree.BuildPath` | merkle/merkle_tree.go:298-337 | The descent over the store yields the audit path of RFC 6962 |
| `MerkleTree.BuildSubproof` | merkle/merkle_tree.go:251-294 | The descent over the store yields the consistency proof of RFC 6962; its panic is not reached |
| `MerkleTree.CompactMerkleTree.constructor` | merkle/merkle_tree.go:47-59 | A tree over the kept hashes of a log is valid |
| `MerkleTree.CompactMerkleTree.Root` | merkle/merkle_tree.go:109-118 | The cached or computed root is that of the log, and that of nothing for an empty one |
| `MerkleTree.CompactMerkleTree.GetRootWithNewLeaf` | merkle/merkle_tree.go:121-126 | Is the root of the log with the leaf appended |
| `MerkleTree.CompactMerkleTree.GetRootWithNewLeaves` | merkle/merkle_tree.go:141-148 | Is the root of the log with all leaves appended, and leaves the log alone |
| `MerkleTree.CompactMerkleTree.AppendHash` | merkle/merkle_tree.go:158-185 | Grows the log by the leaf, keeps the store in post-order, and returns the leaf's audit path |
| `MerkleTree.CompactMerkleTree.Reopen` | merkle/file_hash_store.go:43-76 | A file of a longer log reopened at any smaller size is a valid log of that size, stale tail and all |
| `MerkleTree.CompactMerkleTree.MerkleRoot` | merkle/merkle_tree.go:230-239 | The store alone gives the root of the first n leaves, for every n up to the size |
| `MerkleTree.CompactMerkleTree.ConsistencyProof` | merkle/merkle_tree.go:242-294 | Gives the proof of RFC 6962, which the verifier accepts, exactly when sizes are in order and there is a store |
| `MerkleTree.CompactMerkleTree.InclusionProof` | merkle/merkle_tree.go:298-337 | Gives the path of RFC 6962, which the verifier accepts, exactly when the leaf is there and there is a store |
| `MerkleHasher.HashFullIs` | merkle/merkle_hasher.go:57-115 | The recursion gives the root and the kept hashes; neither panic is reached |
| `MerkleHasher.MerkleHashes` | merkle/merkle_hasher.go:171-193 | Every level is the leaves hashed up by its distance |
| `MerkleHasher.ThreeRoots` | merkle/merkle_hasher.go:57-125 | The incremental, the recursive and the level-by-level root of every log agree |
| `MerkleHasher.StepsRise` | merkle/merkle_hasher.go:138-169 | The entries collected for a leaf lead from it to the root |
| `MerkleHasher.FewSteps` | merkle/merkle_hasher.go:138-142 | Lists within the size limit have paths of at most 15 entries |
| `MerkleHasher.ProvePath` | merkle/merkle_hasher.go:195-223 | A path of fewer than 32 entries proves its value exactly when it leads to the root; a longer one never does |
| `MerkleHasher.ProveTail` | merkle/merkle_hasher.go:201-217 | A tail of fewer than 32 bytes less the entries is ignored |
| `MerkleHasher.ProveShape` | merkle/merkle_hasher.go:195-223 | Every accepted path is a value, entries that lead from its hash to the root, and such a tail |
| `MerkleHasher.LeafPathProves` | merkle/merkle_hasher.go:138-223 | The path of any member of a list within the limit proves that member |
| `MerkleHasher.RiseFault` | merkle/merkle_hasher.go:205-217 | Entries that lead to the root from a start that is no leaf hash yield a collision with an input of the tree, or the start is the hash of an input of the tree, or a leaf is the hash of an input of the path |
| `MerkleHasher.ProveSound` | merkle/merkle_hasher.go:195-223 | Any accepted path proves that the leaf hash of its value is in the list, or yields colliding inputs of the path and the tree, or a value whose leaf hash is the hash of such an input |
| `MerkleHasher.MerkleLeafPath` | merkle/merkle_hasher.go:138-169 | A path is built exactly for members of lists within the limit, and it is accepted |
| `MerkleHasher.MerkleProve` | merkle/merkle_hasher.go:195-223 | The loop over the source computes the proof function on every input |
| `Dbft.M` | consensus/dbft/consensus_context.go:59-62 | The quorum is more than half, and leaves out exactly the tolerated third |
| `DbftSafety.QuorumIsLater` | consensus/dbft/dbft_service.go:169-191 | A quorum that expects another view expects a later one, whatever the own entry is, unless a single bookkeeper is the quorum |
| `DbftSafety.StepGood` | consensus/dbft/dbft_service.go:98-133 | Every event keeps the context invariant; a reset starts afresh in view 0, and any other event signs at most once, in the view the node is in, and never goes back |
| `DbftSafety.PrepareRequestGood` | consensus/dbft/dbft_service.go:383-503 | After a proposal is taken every stored signature verifies for the cached header |
| `DbftSafety.BlockSignaturesGood` | consensus/dbft/dbft_service.go:536-580 | Only signatures that verify for the cached header are stored |
| `DbftSafety.NodeStepInv` | consensus/dbft/dbft_service.go:273-317 | A step keeps "no (height, view) is signed twice" always, a reset or a wrap exactly when nothing was signed at its height or above |
| `DbftSafety.ResetExact` | consensus/dbft/consensus_context.go:192-225 | A reset keeps the signing invariant if and only if every signature was made below the height of the ledger plus one |
| `DbftSafety.StepClimbs` | consensus/dbft/consensus_context.go:192-225 | No step goes back to an earlier height or view, a reset or a wrap if and only if it opens a later height, or the same one in view 0 |
| `DbftSafety.RunInv` | consensus/dbft/dbft_service.go:98-133 | Every state of every run of any number of bookkeepers has the signing invariant at every correct node, if no reset opens a height at which its node has signed |
| `DbftSafety.RunContexts` | consensus/dbft/dbft_service.go:98-133 | Every context of every network run is in order, whatever is reset: signatures verify for the cached header, views and lists are in range |
| `DbftSafety.ViewsOnlyGoUp` | consensus/dbft/dbft_service.go:169-191 | Between any two states of a run of any number of bookkeepers whose resets climb, a node's height goes up, or its view does not go down |
| `DbftSafety.AtMostOneHeaderPerView` | consensus/dbft/dbft_service.go:629-712 | With at most a third faulty and no reset to a height already signed at, two headers with a quorum in the same view of a height are the same |
| `DbftSafety.PrimaryRotates` | consensus/dbft/consensus_context.go:69-78 | In every state of every run the primary is the height minus the view modulo the bookkeepers, exactly unless the view is above the height and 2^32 no multiple of their number |
| `DbftSafety.PrimariesExact` | consensus/dbft/consensus_context.go:69-78 | Any two correct nodes at one height at any two moments: the same primary in one view, and in two views exactly if they are a multiple of the number of bookkeepers apart |
| `DbftEffects.SignsExact` | consensus/dbft/dbft_service.go:383-503 | Exactly which events make a node sign, and which header: that of its own proposal or of the request of the primary |
| `DbftEffects.HistoryOrigin` | consensus/dbft/dbft_service.go:629-712 | Every header that a node signed in a run was proposed by itself or requested by the primary, with that height, time, transactions and next bookkeeper |
| `DbftEffects.ProposalStands` | consensus/dbft/dbft_service.go:629-712 | A primary that proposes holds its proposal, header and own signature, and nothing else changes |
| `DbftEffects.RequestStands` | consensus/dbft/dbft_service.go:383-503 | A backup that takes a request holds its header and the signatures of the primary and itself alone |
| `DbftEffects.RequestRefused` | consensus/dbft/dbft_service.go:383-503 | A request that is not taken changes nothing, or makes the backup ask for the next view, exactly told |
| `DbftEffects.TimeoutTells` | consensus/dbft/dbft_service.go:629-712 | A timer of another height or view is ignored; a primary sends its request once, everyone else asks for the next view |
| `DbftEffects.ForeignIgnored` | consensus/dbft/dbft_service.go:319-381 | What is from the node itself or of another height, block or view, or not authentic, changes nothing |
| `DbftEffects.OwnHandled` | consensus/dbft/dbft_service.go:319-381 | Every other message is handled as its kind |
| `DbftEffects.InitializeTells` | consensus/dbft/dbft_service.go:273-317 | A new view has its primary, its role and its timer, and empty tables unless a signature was sent; view 0 is the next height of the ledger |
| `DbftEffects.ViewTells` | consensus/dbft/dbft_service.go:169-191 | A view is left exactly for another one that a quorum expects |
| `DbftEffects.ChangeViewTells` | consensus/dbft/dbft_service.go:248-259 | A message raises the entry of its sender, and changes the view exactly at a quorum |
| `DbftEffects.RequestTells` | consensus/dbft/dbft_service.go:585-603 | The own entry becomes one more than it and the view, as a byte, and the view changes exactly at a quorum |
| `DbftEffects.CountStored` | consensus/dbft/consensus_context.go:168-177 | The count is the number of bookkeepers with a signature |
| `DbftEffects.ResponseTells` | consensus/dbft/dbft_service.go:505-534 | A response is stored exactly if it is the first of its sender and verifies, and the block generated exactly at a quorum |
| `DbftEffects.AddedTells` | consensus/dbft/dbft_service.go:555-574 | Offered signatures fill empty entries only if they verify, none is lost, and short of a quorum none is left out |
| `DbftEffects.AddedStops` | consensus/dbft/dbft_service.go:568-572 | Below a quorum, signatures are taken up to a quorum and no further |
| `DbftEffects.BlockSignaturesTell` | consensus/dbft/dbft_service.go:536-580 | A list of signatures fills the table and generates the block exactly at a quorum |
| `DbftEffects.BlockIsSigned` | consensus/dbft/dbft_service.go:199-246 | In every run a backup that generated a block holds a quorum of signatures that verify for its header |
| `DbftSafety.AloneWraps` | consensus/dbft/dbft_service.go:585-603 | A single bookkeeper past view 0 falls back exactly when its view or its expected view is the last byte value |
| `DbftSafety.SameHeightTwice` | consensus/dbft/consensus_context.go:192-225 | Reset twice at one height, a primary signs two headers in one view |
| `DbftService.Service.MakeHeader` | consensus/dbft/consensus_context.go:96-120 | Fills the cache once and returns the cached header after that |
| `DbftService.Service.InitializeConsensus` | consensus/dbft/dbft_service.go:273-317 | The object is in the new view with the rotated primary, its role, its timer and the tables of that view, or for view 0 at the next height |
| `DbftService.Service.CheckExpectedView` | consensus/dbft/dbft_service.go:169-191 | The counting loop decides by the number of entries that expect the view |
| `DbftService.Service.ChangeViewReceived` | consensus/dbft/dbft_service.go:248-259 | Performs the step of a change-view message |
| `DbftService.Service.RequestChangeView` | consensus/dbft/dbft_service.go:585-603 | Performs the step of asking for the next view, with the byte wrap |
| `DbftService.Service.GetSignaturesCount` | consensus/dbft/consensus_context.go:168-177 | The loop counts the stored signatures |
| `DbftService.Service.CheckSignatures` | consensus/dbft/dbft_service.go:199-246 | The block is generated exactly at a quorum of signatures |
| `DbftService.Service.PrepareResponseReceived` | consensus/dbft/dbft_service.go:505-534 | Performs the step of a response, signature check included |
| `DbftService.Service.BlockSignaturesReceived` | consensus/dbft/dbft_service.go:536-580 | The loop over the signatures performs the step of the message |
| `DbftService.Service.PrepareRequestReceived` | consensus/dbft/dbft_service.go:383-503 | Performs the step of a proposal, with each of its rejections |
| `DbftService.Service.Timeout` | consensus/dbft/dbft_service.go:629-712 | Performs the step of the timer, as primary or as backup |
| `DbftService.Service.Receive` | consensus/dbft/dbft_service.go:98-133 | Whatever event arrives, the object makes a step of the network model; it keeps the signing invariant exactly unless it is a reset to a height already signed at |
| `VbftParticipants.SelectPeers` | consensus/vbft/node_utils.go:218-239 | The peers are the entries that the VRF value picks at positions 0, 1, .., each once in the order of first occurrence, up to the stopping count, and if too few the configured ones after them |
| `VbftParticipants.CalcParticipantPeers` | consensus/vbft/node_utils.go:218-288 | The roles go to the selected peers in that order: c+1 proposers, 2c+1 endorsers, 2c+1 or 2c+2 committers, each without duplicates and without the leading proposer in the last two |
| `VbftParticipants.RolesDistinct` | consensus/vbft/node_utils.go:240-288 | The index patterns of the three roles never repeat a peer, and are apart from 5c+3 peers on |
| `VbftParticipants.ParticipantBits` | consensus/vbft/node_utils.go:290-311 | The entry is picked by the 16 bits of the VRF value from bit k on: two bytes, the first after the last, shifted right |
| `VbftParticipants.FirstsInOrder` | consensus/vbft/node_utils.go:224-239 | Without repetitions, an entry comes before another exactly as it first occurs before it |
| `VbftParticipants.EndorserOrder` | consensus/vbft/node_utils.go:254-269 | Endorsers are the first half, then the last proposer, the second half from its end, and the other proposers downwards |
| `VbftParticipants.CommitterOrder` | consensus/vbft/node_utils.go:270-285 | Committers are the second half, then the proposers behind the first, and the first half from its end |
| `VbftEndorsements.AddKeeps` | consensus/vbft/block_pool.go:264-291 | An endorsement list keeps at most one empty entry, last, and no proposer twice |
| `VbftEndorsements.EndorseDone` | consensus/vbft/block_pool.go:317-352 | In any map order: done exactly when more than C peers endorsed one proposer or more than C endorsed empty, and what is reported is so |
| `VbftEndorsements.GetCommitConsensus` | consensus/vbft/node_utils.go:319-344 | Finds a proposer exactly when one's distinct signers plus one make a quorum, at the first message that completes it |
| `VbftPool.Marks` | consensus/vbft/block_pool.go:177-262 | A candidate record stands for at most one non-empty vote followed by at most one empty one |
| `VbftPool.EndorseKeeps` | consensus/vbft/service.go:1915-1973 | Endorsing keeps the votes for every block, live or gone, in step and in turn |
| `VbftPool.CommitKeeps` | consensus/vbft/service.go:1975-2033 | Committing keeps at most one commitment for a block, marked in its record or of a block that is over |
| `VbftPool.CommitmentKeeps` | consensus/vbft/block_pool.go:452-498 | A received commitment keeps all lists in form, and changes one record, in no mark |
| `VbftPool.ReceiveKeeps` | consensus/vbft/service.go:1221-1230 | A message for any block keeps the invariant: a record is created for the block in progress alone |
| `VbftPool.SealKeeps` | consensus/vbft/service.go:2076-2114 | Sealing any block, executed or not, any number of times, keeps the invariant: what is forgotten is over, and gets no record again |
| `VbftPool.RunInv` | consensus/vbft/service.go:1915-2033 | Every state of every run of votes, messages, seals that succeed or fail, and reloads has the invariant |
| `VbftPool.HistoryGrows` | consensus/vbft/service.go:205-223 | Over every run no vote and no commitment is taken back, and neither chain nor block in progress goes back |
| `VbftPool.Discipline` | consensus/vbft/service.go:1915-2033 | Over every run, for every block and for ever: at most one commitment, and at most one non-empty endorsement followed by at most one empty one; the chain stays below the block in progress |
| `VbftEffects.CommitTells` | consensus/vbft/service.go:1975-2033 | A commitment is recorded and marked exactly for a proposal of another peer, above the chain, with an unmarked record, its message and its empty block; otherwise nothing changes |
| `VbftEffects.EndorseTells` | consensus/vbft/service.go:1915-1973 | An endorsement is recorded and marked exactly where the record has none of its kind, for empty where asked for or failed; otherwise nothing changes |
| `VbftEffects.SetCommittedTells` | consensus/vbft/block_pool.go:418-447 | A record is marked exactly if it is there without a commitment |
| `VbftEffects.SetEndorsedTells` | consensus/vbft/block_pool.go:230-262 | A record is marked exactly if it has no endorsement of this kind; a second one for the same proposer passes, any other is refused |
| `VbftEffects.AddTells` | consensus/vbft/block_pool.go:264-291 | A list grows by the new entry exactly unless it has an empty one or names the proposer; a commitment replaces it |
| `VbftEffects.ProposalTells` | consensus/vbft/block_pool.go:130-161 | The first proposal of a proposer is added with its signature, and no other record changes |
| `VbftEffects.EndorsementTells` | consensus/vbft/block_pool.go:293-315 | An endorsement is added to the list of its endorser in the record of its block |
| `VbftEffects.CommitmentTells` | consensus/vbft/block_pool.go:452-498 | The first commitment of a committer is added with all its signatures, and no other record changes |
| `VbftEffects.ReceiveTells` | consensus/vbft/service.go:1218-1350 | A message reaches the pool exactly for the block in progress |
| `VbftEffects.SealTells` | consensus/vbft/service.go:2076-2114 | A seal that succeeds marks the record, extends the chain by a new block, moves on by one and drops exactly the records below the history |
| `VbftEffects.SealFails` | consensus/vbft/block_pool.go:645-693 | A seal that fails marks the record at most, exactly if only the execution failed |
| `VbftEffects.SealIgnored` | consensus/vbft/service.go:2078-2086 | Any other block than the one in progress is not sealed |
| `VbftEffects.ReloadTells` | consensus/vbft/service.go:205-223 | The chain is the larger of ledger and chain, and the block in progress the larger of itself and the next one |
| `VbftServer.BlockPool.AddBlockEndorsement` | consensus/vbft/block_pool.go:264-291 | The loops compute the new list of the endorser |
| `VbftServer.BlockPool.NewBlockProposal` | consensus/vbft/block_pool.go:130-161 | Adds a first proposal of a proposer with its signature, changes nothing for a second, and reports an error exactly for a second one with another signature |
| `VbftServer.BlockPool.NewBlockCommitment` | consensus/vbft/block_pool.go:452-498 | In any map order: all endorser signatures are added, then the committer's entry replaced; an error exactly for a second commitment to another block hash |
| `VbftServer.BlockPool.SetProposalEndorsed` | consensus/vbft/block_pool.go:230-262 | Sets the mark of a vote or reports why not |
| `VbftServer.BlockPool.SetProposalCommitted` | consensus/vbft/block_pool.go:418-447 | Sets the mark of a commitment or reports why not |
| `VbftServer.BlockPool.OnBlockSealed` | consensus/vbft/block_pool.go:769-786 | In any map order: exactly the records below the history are dropped |
| `VbftServer.Server.EndorseBlock` | consensus/vbft/service.go:1915-1973 | Where a vote may be cast, the record and the history hold it and nothing else changes; where not, nothing changes. Keeps the invariant, and fails exactly for a new vote on another peer's proposal whose message cannot be built or whose record is gone |
| `VbftServer.Server.CommitBlock` | consensus/vbft/service.go:1975-2033 | Where a commitment may be made, the record and the history hold it and nothing else changes; where not, nothing changes. Keeps the invariant, and fails exactly for a new commitment to another peer's proposal that lacks its empty block, its message or its record |
| `VbftServer.Server.ProcessProposal` | consensus/vbft/service.go:1218-1236 | Performs the step of a proposal, which is looked at only for the block in progress, and keeps the invariant |
| `VbftServer.Server.ProcessEndorsement` | consensus/vbft/service.go:1275-1283 | Performs the step of an endorsement, which is added only for the block in progress, and keeps the invariant |
| `VbftServer.Server.ProcessCommitment` | consensus/vbft/service.go:1337-1350 | Performs the step of a commitment, which is added only for the block in progress, and keeps the invariant |
| `VbftServer.Server.HandleBlockPersistCompleted` | consensus/vbft/service.go:206-223 | Performs the reloading step: the block in progress comes after what the ledger has |
| `VbftServer.Server.SealBlock` | consensus/vbft/service.go:2076-2114 | Performs the sealing step for any block, keeps the invariant, and fails exactly for a block to come, another proposer's seal, a missing signature or a block that does not execute |
| `ChainStore.OpenInv` | consensus/vbft/chain_store.go:46-71 | An opened store agrees with its ledger |
| `ChainStore.SubmitKeeps` | consensus/vbft/chain_store.go:169-184 | Submitting, accepted or not, loses no block and changes nothing that reads back |
| `ChainStore.AddKeeps` | consensus/vbft/chain_store.go:132-167 | Adding extends what reads back, whatever fails |
| `ChainStore.AddExact` | consensus/vbft/chain_store.go:132-167 | An added block that executes keeps the store intact exactly when the ledger is not ahead or holds that block |
| `ChainStore.MisplacedBlock` | consensus/vbft/chain_store.go:145-165 | A store behind its ledger takes a block for another height |
| `ChainStore.ReloadKeeps` | consensus/vbft/chain_store.go:114-130 | Reloading extends what reads back and drops only what is persisted |
| `ChainStore.StoreIsSequence` | consensus/vbft/chain_store.go:46-209 | Over every run with any failures: block n reads back as added from then on, the ledger lags by at most the last block, which ran on its ancestors, and nothing is submitted twice |
| `ChainStore.SoleRun` | consensus/vbft/chain_store.go:132-184 | With no other writer, submissions go up in height and only the last block waits |
| `ChainStore.SubmitTells` | consensus/vbft/chain_store.go:169-184 | A submission that the ledger takes puts the waiting block there as it was added, marks it and forgets its predecessor; any other changes nothing |
| `ChainStore.AddTells` | consensus/vbft/chain_store.go:132-167 | A block above the chain is added behind the last one exactly if, after what waits is submitted, the ledger has all before it and it executes |
| `ChainStore.AddThenSubmit` | consensus/vbft/chain_store.go:132-184 | A block in order that executes is in the ledger at its height after the next submission |
| `ChainStore.ReloadTells` | consensus/vbft/chain_store.go:114-130 | A reload takes over the ledger and forgets exactly what that has |
| `ChainStore.LedgerTells` | core/store/ledgerstore/ledger_store.go:578-624 | The ledger grows exactly by its next block, is content with earlier ones and refuses later ones |
| `BlockStore.Ledger.SubmitBlock` | core/store/ledgerstore/ledger_store.go:578-624 | The ledger takes the next height alone, and ignores what it has |
| `BlockStore.Store.constructor` | consensus/vbft/chain_store.go:46-71 | Opens with the last block pending as submitted |
| `BlockStore.Store.SubmitBlock` | consensus/vbft/chain_store.go:169-184 | Performs the submitting step, keeps the invariant, and fails exactly when the ledger refuses a block that waits |
| `BlockStore.Store.AddBlock` | consensus/vbft/chain_store.go:132-167 | Performs the adding step for any block; the store stays intact exactly when the ledger was not ahead or held that block, or execution failed |
| `BlockStore.Store.ReloadFromLedger` | consensus/vbft/chain_store.go:114-130 | In any map order: performs the reloading step and keeps the invariant |
| `BlockStore.Store.ReadBlock` | consensus/vbft/chain_store.go:186-209 | Reads back the block that was added at a height |
| `Wire.LERoundTrip` | common/zero_copy_source.go:116-144 | An integer of n bytes is read back from its little-endian form |
| `Wire.VarUintRoundTrip` | common/zero_copy_source.go:216-268 | Every 64-bit number is read back from its variable-length form, whatever follows |
| `Wire.VarUintReencodes` | common/zero_copy_source.go:216-268 | Accepted bytes are the one form that the writer gives |
| `Wire.RoundTrip` | common/zero_copy_sink.go:64-180 | Any list of fields is read back as written |
| `Wire.Reencodes` | common/zero_copy_source.go:164-174 | Any accepted list of fields is re-encoded identically |
| `Wire.Extends` | common/zero_copy_source.go:54-88 | What is read does not depend on what follows |
| `Layout.NumberLayout` | common/zero_copy_sink.go:104-117 | Byte i of a fixed-size number has weight 256^i |
| `Layout.VarUintLayout` | common/zero_copy_sink.go:159-180 | The bytes of every variable-length number, by its range |
| `WireSource.SafeAdd` | common/safeMath.go:31-33 | The overflow flag is exact, and without it the sum is |
| `WireSource.ZeroCopySource.NextBytes` | common/zero_copy_source.go:54-65 | Agrees with the strict reader; after an end-of-data every further read of one byte or more reports one |
| `WireSource.ZeroCopySource.Skip` | common/zero_copy_source.go:67-77 | Skips exactly what reading would take, with the same flag |
| `WireSource.ZeroCopySource.NextByte` | common/zero_copy_source.go:80-88 | Agrees with the strict reader, sticky at the end |
| `WireSource.ZeroCopySource.NextUint` | common/zero_copy_source.go:116-144 | The value has the bytes that were read, sticky at the end |
| `WireSource.ZeroCopySource.NextArray` | common/zero_copy_source.go:176-207 | Fixed-size values, zeros at the end, sticky |
| `WireSource.ZeroCopySource.NextVarUint` | common/zero_copy_source.go:216-268 | Irregular exactly for a form that is not the shortest; gives the size of the form, sticky at the end |
| `WireSource.ZeroCopySource.NextVarBytes` | common/zero_copy_source.go:164-174 | One flag covers both the length and the bytes, and the size is that of both, sticky at the end |
| `WireSource.ZeroCopySource.Again` | common/zero_copy_source.go:112-114 | Backing up and reading again gives the bytes passed |
| `WireSink.ZeroCopySink.Grow` | common/zero_copy_sink.go:46-62 | What was written survives the move to a larger buffer |
| `WireSink.ZeroCopySink.NextBytes` | common/zero_copy_sink.go:71-78 | Makes room behind what was written |
| `WireSink.ZeroCopySink.PutVarUint` | common/zero_copy_sink.go:159-180 | Nine bytes taken and the unused ones given back leave the shortest form |
| `WireSink.ZeroCopySink.WriteBytes` | common/zero_copy_sink.go:64-67 | Appends the bytes |
| `WireSink.ZeroCopySink.WriteUint` | common/zero_copy_sink.go:104-117 | Appends the little-endian form |
| `WireSink.ZeroCopySink.WriteVarBytes` | common/zero_copy_sink.go:131-137 | Appends length and bytes, and returns the size |
| `WireList.ListRoundTrip` | core/types/header.go:135-147 | Every counted list is read back as written |
| `WireList.ListReencodes` | core/types/header.go:178-221 | An accepted list is re-encoded identically exactly when its count is below 2^63 |
| `WireList.NegativeCount` | core/types/header.go:178-188 | A count of 2^63 is read as an empty list |
| `WireList.NextList` | core/types/header.go:178-221 | The loop over the source is the strict list reader |
| `WireList.WriteList` | core/types/header.go:135-147 | The loop over the sink appends the encoded list |
| `Layout.ListLayout` | core/types/header.go:135-147 | A list is its count and its items, each behind its length |
| `HeaderCodec.HeaderRoundTrip` | core/types/header.go:135-244 | Every header whose keys parse as themselves is decoded as it was encoded |
| `HeaderCodec.HeaderPrefixRejected` | core/types/header.go:172-244 | No strict prefix of an accepted header is accepted |
| `HeaderCodec.HeaderReencodes` | core/types/header.go:172-244 | Accepted bytes are re-encoded identically exactly when counts are below 2^63 and keys in canonical form |
| `HeaderCodec.RawAgrees` | core/types/header.go:39-106 | The skipping decoder accepts wherever the full one does, with the same height and exactly its bytes, and beyond it only where a key does not parse |
| `Layout.HeaderLayout` | core/types/header.go:135-160 | The nine fields in their order and the two lists, byte by byte |
| `PublicKeys.ParseAll` | core/types/header.go:178-198 | The loop parses every key, or fails exactly when one does not parse |
| `HeaderCodec.SerializeUnsigned` | core/types/header.go:150-160 | Appends the unsigned fields |
| `HeaderCodec.Serialization` | core/types/header.go:135-147 | Appends the encoded header |
| `HeaderCodec.DeserializeUnsigned` | core/types/header.go:223-244 | One look at the last end-of-data flag is the same as looking at all nine |
| `HeaderCodec.Deserialization` | core/types/header.go:172-221 | The decoder as written is the strict decoder |
| `HeaderCodec.SkipUnsigned` | core/types/header.go:88-106 | One look at the last flag is enough here too |
| `HeaderCodec.DeserializeRaw` | core/types/header.go:39-86 | The skipping decoder as written is its strict form |
| `TransactionCodec.TxRoundTrip` | core/types/transaction.go:71-117 | Of all transactions that can be written, exactly the well-formed ones within the size limit are decoded as they were encoded |
| `TransactionCodec.TxReencodes` | core/types/transaction.go:71-192 | Every accepted transaction is re-encoded identically, unsigned part included |
| `TransactionCodec.TxPrefixRejected` | core/types/transaction.go:71-221 | No strict prefix of an accepted transaction is accepted |
| `Layout.TransactionLayout` | core/types/mutable_transaction.go:80-120 | Head, payload, no attributes and signatures in their order, byte by byte, for both kinds of payload |
| `TransactionCodec.AcceptedLimits` | core/types/transaction.go:85-116 | What is accepted has at most 16 signatures and 1 MiB, and a payload of its type |
| `TransactionCodec.DeployLimits` | core/payload/deploy_code.go:185-232 | The limits of a contract, in numbers |
| `TransactionCodec.DeployPrefixRejected` | core/payload/deploy_code.go:140-183 | No strict prefix of an accepted contract is accepted |
| `TransactionCodec.PayloadReencodes` | core/payload/deploy_code.go:129-183 | Accepted payloads of both kinds are valid and re-encoded identically |
| `TransactionCodec.SigsReencode` | core/types/transaction.go:85-105 | Accepted signature lists are within the limit and re-encoded identically |
| `TransactionCodec.DeserializeDeploy` | core/payload/deploy_code.go:140-183 | One look at the last of seven flags is enough, and the limits are checked |
| `TransactionCodec.DeserializeUnsigned` | core/types/transaction.go:142-192 | The decoder as written is its strict form |
| `TransactionCodec.DeserializeSig` | core/types/transaction.go:205-221 | One look at the second flag is enough |
| `TransactionCodec.DeserializeSigs` | core/types/transaction.go:85-105 | The loop is the strict list decoder |
| `TransactionCodec.Deserialization` | core/types/transaction.go:71-117 | The decoder is its strict form; the raw bytes are the encoding, and the hash is that of the unsigned part |
| `TransactionCodec.SerializeDeploy` | core/payload/deploy_code.go:129-137 | Appends the seven fields of any contract, valid or not |
| `TransactionCodec.SerializeUnsigned` | core/types/mutable_transaction.go:97-120 | Appends the unsigned part of any transaction, valid or not |
| `TransactionCodec.Serialization` | core/types/mutable_transaction.go:80-95 | Appends the encoding of any transaction, valid or not, with any number of signatures |
| `TxRoot.PairInPlace` | common/merkle_tree.go:31-55 | One round over its own input leaves the next level: entry k is the hash of entries 2k and 2k+1, or of 2k twice |
| `TxRoot.ComputeMerkleRoot` | common/merkle_tree.go:25-59 | Overwriting its input, it computes the pair-and-duplicate-last root of what was there |
| `TxRoot.RepeatedLast` | common/merkle_tree.go:41-52 | Repeating the last entry of an odd list does not change the root |
| `TxRoot.FullSizeRoot` | common/merkle_tree.go:25-59 | For every power of two of entries the root is that of RFC 6962 |
| `TxRoot.RootBinds` | common/merkle_tree.go:25-59 | Lists of any lengths without duplicates with one root, hashed without collisions, are the same, or an entry of one is a pair hash made for the other, and the case is handed out |
| `TxRoot.RootExact` | common/merkle_tree.go:25-59 | Lists without duplicates, of any lengths, have the same root if and only if they are the same, where no hash that occurs for them is mistaken for another |
| `BlockCodec.BlockRoundTrip` | core/types/block.go:33-91 | A block is decoded as it was encoded exactly when its hashes are distinct and its root matches |
| `BlockCodec.BlockPrefixRejected` | core/types/block.go:53-91 | No strict prefix of an accepted block is accepted |
| `BlockCodec.BlockReencodes` | core/types/block.go:33-91 | Accepted bytes are re-encoded identically exactly when the header is canonical |
| `BlockCodec.RootBindsBlock` | core/types/block.go:84-88 | Two accepted blocks with any numbers of transactions have one root if and only if they have the same transaction hashes, where no hash that occurs is mistaken |
| `Layout.BlockLayout` | core/types/block.go:33-40 | Header, number of transactions in four bytes, and the transactions in order |
| `BlockCodec.Serialization` | core/types/block.go:33-40 | Appends the encoded block through any growth of the buffer |
| `BlockCodec.DeserializeTxs` | core/types/block.go:67-82 | Stops exactly at a transaction that does not decode or was there before |
| `BlockCodec.Deserialization` | core/types/block.go:53-91 | The decoder as written is its strict form |
| `BigInt.NeoValue` | common/bigint.go:33-62 | The bytes of every integer mean that integer |
| `BigInt.NeoShortest` | common/bigint.go:33-62 | No shorter bytes mean it |
| `BigInt.BytesReverse` | common/bigint.go:23-28 | Reverses in place |
| `BigInt.IncrementInPlace` | common/bigint.go:46-53 | The carry loop adds one |
| `BigInt.BigIntToNeoBytes` | common/bigint.go:33-62 | The in-place loops compute the shortest form |
| `BigInt.BigIntFromNeoBytes` | common/bigint.go:64-90 | Any bytes are read as their two's complement value |
| `Program.PushExact` | core/program/program.go:59-79 | Pushed data is read back exactly when its length has 32 bits |
| `Program.NumRoundTrip` | core/program/program.go:183-208 | Every 16-bit number is read back |
| `Program.ParamRoundTrip` | core/program/program.go:355-368 | Signatures are read back exactly when all their lengths have 32 bits |
| `Program.SingleRoundTrip` | core/program/program.go:260-281 | A single-key program is parsed to its key |
| `Program.MultiRoundTrip` | core/program/program.go:282-352 | An m-of-n program is parsed to m and its keys |
| `ProgramForms.FormRead` | core/program/program.go:210-248 | A push of any of the four forms is read |
| `ProgramForms.ReadForm` | core/program/program.go:210-248 | What is read as a push has one of these forms |
| `ProgramForms.ShortestForm` | core/program/program.go:59-79 | The builder uses the shortest one |
| `ProgramForms.ParamForms` | core/program/program.go:355-368 | Every sequence of pushes in any forms is accepted and gives their data |
| `ProgramForms.ParamTells` | core/program/program.go:355-368 | Nothing else is accepted |
| `ProgramForms.SingleTells` | core/program/program.go:260-281 | A push of a key in any form and the opcode give that key |
| `ProgramForms.ProgramTells` | core/program/program.go:260-352 | An accepted program is that, or has 2 to 16 parsed keys of which at least 1 and at most all have to sign |
| `ProgramBuilder.PushBytes` | core/program/program.go:59-79 | Appends the push of its length class |
| `ProgramBuilder.PushNumber` | core/program/program.go:48-57 | Appends the push of a number |
| `ProgramBuilder.PushItems` | core/program/program.go:136-141 | Appends the pushes of all signatures, of any length |
| `ProgramBuilder.EncodeMultiProgram` | core/program/program.go:101-119 | Appends the program over the sorted keys exactly within the limits |
| `ProgramParser.NextPush` | core/program/program.go:210-248 | Reads one push, or fails as the specification does |
| `ProgramParser.NextNum` | core/program/program.go:183-208 | Reads one number, or fails as the specification does |
| `ProgramParser.NextItems` | core/program/program.go:295-320 | The loop up to the last opcode gives all items |
| `ProgramParser.ProgramInfoOf` | core/program/program.go:260-352 | The parser as written computes the specification on every input |
| `ProgramParser.ParamInfoOf` | core/program/program.go:355-368 | The loop as written computes the specification on every input |
| `MultiSig.FirstComeSound` | core/signature/signature.go:53-85 | What is accepted maps its signatures to different keys that verify them |
| `MultiSig.FirstComeComplete` | core/signature/signature.go:53-85 | What has such a map is accepted, where any two signatures have equal or disjoint sets of keys |
| `MultiSig.KeyTaken` | core/signature/signature.go:68-77 | For any two signatures with a key in common and a key of the first alone there is a list with a matching that is rejected |
| `MultiSig.SeparateExact` | core/signature/signature.go:53-85 | Every list drawn from given keys and signatures that has a matching is accepted if and only if no two of the signatures share some but not all of the keys |
| `MultiSig.VerifyMultiSignature` | core/signature/signature.go:53-85 | The nested loops over the mask compute the first-come choice: what is accepted has m signatures of different keys, and where keys are separate all of that is accepted |
| `MultiSig.VerifyBlock` | core/validation/block_validator.go:32-53 | Height 0 passes; where keys are separate any other block passes exactly with a quorum of signatures of different keys and a predecessor whose height, time and named bookkeepers it follows. In any case what passes is so |
| `MultiSig.QuorumSigned` | core/validation/block_validator.go:38-43 | A block above height 0 that passes is signed by a quorum of different bookkeepers |
| `MultiSig.BlocksShareSigners` | core/validation/block_validator.go:38-43 | Two blocks above height 0 that pass with the same bookkeepers share more than a third of them as signers |
| `MultiSig.ChainClimbs` | core/validation/block_validator.go:81-108 | Verified headers count up one by one, go forward in time, and have the bookkeepers that the one before named |

## Left out

- SHA-256, RIPEMD-160, signatures, VRF and key serialization: parameters, with the laws a lemma needs in its `requires`.
- MerkleRoot: for logs below 2^31 leaves, where positions fit 32 bits; the same holds for ConsistencyProof and InclusionProof. A consistency proof from size 0 and the root of no leaves from the store are outside the contracts of the source.
- HashFullIs: covers the recursion; the debug comparison that the source switches off is not part of it.
- Marshal and UnMarshal of the log, the store in memory, flushing and closing of the file store: easy members, file I/O.
- File, network, actors, channels, locks, logging and timers: handlers are atomic steps, files are sequences with a cursor.
- AtMostOneHeaderPerView: within a view. Agreement across views and liveness are not promised by the source, which drops its flags on a view change.
- StepGood: takes a bookkeeper's own signature to verify for what it signed. DBFT message encoding, the transaction pool and block assembly are parameters of the steps.
- EndorseBlock: takes the answer of `endorseFailed` as arbitrary, and the index of the server as fixed. The signature-count branch of `commitDone`, syncer, peer pool and state manager of VBFT are not modelled.
- AddBlockEndorsement: leaves out the cross-chain signatures, which are carried along without a decision on them.
- Start: records loaded when the pool starts hold an empty endorsement map here and none in the source, where a later endorsement for such a height panics instead of being added (consensus/vbft/block_pool.go:90).
- AddBlock: keeps the ledger block alone in a record; cross-chain messages and state roots are not part of the model, and an execution result is known by the blocks it was computed on.
- HeaderReencodes: takes parsed keys to be shorter than 2^64 bytes.
- ParseAll: parses the keys of a header or a script after they are read, not while; an error is an error either way.
- Slices that share memory: the source returns slices into its input, the model returns values, so later writes through such a slice are not captured.
- CrossChainMsg, Sig and the 128-bit integers: the same list and field readers over again.
- Depth: the exact ceiling of the logarithm where the source uses floating point; lists within the size limit are far below the range where these could differ.
- EncodeMultiProgram: takes the sorting of keys as a parameter that keeps their number.
- VerifyBlock: leaves out the check of the transactions. Gas, contract execution, wallet, configuration, RPC and command line are not part of this model.
