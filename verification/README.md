# Shreds and their recovery, modelled and proved in Dafny

This project models the core of a crate that receives Solana shreds and recovers lost ones. A FEC set is a batch of
`k` data shreds and `m` coding shreds. Their erasure shards form a Reed-Solomon codeword, and every shred carries a
Merkle proof of its leaf in a ragged Merkle tree over the batch. The model covers

- the Merkle tree, its stateful proof iterator and the folding of proofs (`MerkleTree`, `MerkleTheorems`,
  `TreeInBytes`),
- header encoding, payload layout, readers, setters, sanitization and parsing (`Headers`, `Shreds`, `Setters`,
  `ShredObjects`, `Wire`, `ParseTheorems`),
- recovery, as functions of the sorted input (`Recovery`) and as the loops that compute them (`RecoverLoops`), with its
  theorems (`StepTheorems`, `BatchTheorems`, `RecoveryTheorems`, `LossTheorems`, `OutcomeTheorems`, `FastPathTheorems`,
  `AuthenticityTheorems`) and a batch and a code that meet their conditions (`HonestExample`, `ParityCode`),
- the fetch-stage filter and its counters (`Filter`, `FilterTheorems`), and the cache of erasure codecs under
  concurrency (`Cache`).

What is not the crate's own code is a parameter. SHA-256 is an arbitrary function to 32-byte strings. It is never
assumed injective: soundness results say that a claim holds or that two different inputs, one hashed over the honest
batch and one hashed to check the proof or batch in question, have hashes with the same first 20 bytes. The Reed-Solomon
library is an arbitrary function that meets the contract in `ErasureCode`; `ParityCode.ParityMeetsContract` shows that
the contract is consistent, and `HonestExample.HonestBatchesExist` that honest batches exist. The limits in
`ErasureCode.NewCodec` are those of that library. Sorting may order shreds that compare as equal in any way, and
recovery is specified for every such order.

Payload buffers, the payload guard, the setters, the proof iterator and the filter's counters are objects that are
updated in place. A `Vec` of shreds owns its elements, so the batch that recovery works on is a sequence that its loops
reassign; where a setter runs on an element, the element is put into an object for it. Proved about recovery:

- it is the inverse of loss on honest batches, in every byte except a retransmitter's signature, which is taken from
  the last coding shred (`LossTheorems.RecoveryInvertsLoss`), and it succeeds on a part of an honest batch exactly if
  that has `k` members and a coding shred (`OutcomeTheorems.HonestPartRecoversExactly`);
- whatever was received, a recovery that passes the root check has the proof size its batch demands and yields no
  error, or a collision is exhibited (`RecoveryTheorems.RecoveryProofsFitOrCollide`);
- everything it yields stands alone on the wire (`RecoveryTheorems.RecoveredShredsStandAlone`), and against the root of
  an honest batch it yields nothing but that batch's members (`AuthenticityTheorems.HonestRootRecoversHonestBatch`), up
  to signatures, which no leaf covers, or a collision is exhibited;
- the fast path agrees with the full path (`RecoveryTheorems.FastPathRefinesFullPath`), and on any input it yields
  nothing but data whose payload has the header of its place (`FastPathTheorems.FastPathYieldsExactly`).

What parses, what the filter keeps and what the tree hashes is also stated in byte positions and numbers, apart from
the functions that compute it (`ParseTheorems`, `FilterTheorems`, `TreeInBytes`).

## Model

| member | source | states |
|---|---|---|
| LossTheorems.RecoveryInvertsLoss | src/merkle.rs:608-779 | from every part of an honest batch with at least `k` members and a coding shred, in every order, `recover` yields exactly the lost shreds in ascending order, equal to the originals in headers and all bytes but a retransmitter's signature |
| HonestExample.HonestBatchesExist | src/merkle.rs:608-779 | for every hash function and every number of data shreds that the library admits there are an honest batch with one coding shred and an erasure code with which `recover` brings back any one lost data shred from the rest |
| OutcomeTheorems.HonestPartRecoversExactly | src/merkle.rs:608-779 | a part of an honest batch is recovered if and only if it has at least `k` members, one of them a coding shred |
| RecoveryTheorems.RecoveryProofsFitOrCollide | src/merkle.rs:751-764 | past the root check the proof size equals `get_proof_size(num_shards)` and no yielded item is an error, or the last coding shred's proof collides with a hash of the batch |
| RecoveryTheorems.RecoveredShredsStandAlone | src/merkle.rs:729-778 | the items are one for each place that was missing, ascending, none at a received shred's index; each that is no error parses to itself, is sane, stands at its index and proves the root of the last coding shred |
| AuthenticityTheorems.HonestRootRecoversHonestBatch | src/merkle.rs:608-779 | whatever parsed shreds were received and however the library reconstructs, a recovery whose last coding shred proves an honest root yields no error and only copies of the honest members, from received shreds with the honest leaves; or the two batches exhibit a collision |
| AuthenticityTheorems.ShredIsAuthentic | src/merkle.rs:332-339 | a shred that proves the root of an honest batch is the member at its index in headers and all bytes from behind the signature to the end of the proof, or its proof exhibits a collision |
| AuthenticityTheorems.OneRootMeansOneBatch | src/merkle.rs:751-754 | batches whose trees have one root have the same size and the same leaves and headers, or exhibit a collision |
| RecoveryTheorems.FastPathRefinesFullPath | src/merkle.rs:781-870 | if `recover` succeeds on all items, `recover_data_only` yields their data members in order, equal but for proofs that are still zero |
| OutcomeTheorems.FastPathInvertsLoss | src/merkle.rs:781-870 | on a large enough part of an honest batch the fast path yields exactly the lost data members in order, equal to the originals but for zero proofs and a retransmitter's signature |
| FastPathTheorems.FastPathYieldsExactly | src/merkle.rs:789-870 | on any input, the fast path yields exactly the missing data places whose reconstructed payload begins with the common header of their place in the last coding shred's set, in ascending order, with that payload and with headers that are in it |
| OutcomeTheorems.ArrivalOrderIsSortedAway | src/merkle.rs:612-616 | shreds with different sort keys are sorted into one sequence whatever their order of arrival |
| OutcomeTheorems.RecoveryIgnoresOrder | src/merkle.rs:612-616 | for the shreds of one erasure set, duplicates included, both recoveries have one outcome for every order of arrival and every order of equal keys |
| OutcomeTheorems.TooFewFail | src/merkle.rs:725-727 | with fewer shreds than data shreds in the set, or none at all, both recoveries fail |
| OutcomeTheorems.RecoveredIsNoDuplicate | src/lib.rs:519-535 | each shred that recovery yields for a part of an honest batch has the id of the lost member of its place and is no duplicate of it |
| LossTheorems.MissingComesBack | src/merkle.rs:736-748 | a stub with the lost shred's erasure shard passes the header check and sanitization and becomes that shred up to proof and retransmitter's signature |
| LossTheorems.PartIsPlaced | src/merkle.rs:690-719 | the interleaving loop puts every received member of an honest batch at its index and stubs elsewhere |
| LossTheorems.ShardsComeBack | src/merkle.rs:720-728 | reconstruction gives every place of the batch the erasure shard of its member |
| BatchTheorems.AssembleExact | src/merkle.rs:686-719 | the loop succeeds exactly on shreds of one signature with ascending indices in range; the batch is then full, each received shred at its index and marked, stubs elsewhere, and received and missing add up to `num_shards` |
| BatchTheorems.MaskMeansReceived | src/merkle.rs:689-713 | a place is marked if and only if a received shred has its index |
| BatchTheorems.StubFacts | src/merkle.rs:890-950 | a stub can be made for every place of the batch and has the headers, chained root, retransmitter's signature and zero proof of its place |
| StepTheorems.StubIsBlank | src/merkle.rs:890-950 | a stub has zeros in its erasure shard and its proof |
| BatchTheorems.StubStandsAtItsIndex | src/shred_code.rs:8-31 | within the bounds checked for the last coding shred no stub index wraps around and every stub has the erasure shard index of its place |
| BatchTheorems.SortIsUnique | src/merkle.rs:612-616 | two sorted orders of the same shreds with different keys are equal |
| BatchTheorems.OrderIsShardOrder | src/merkle.rs:873-888 | in one erasure set the comparator orders by erasure shard index, and equal keys mean equal indices |
| StepTheorems.TemplateExactly | src/merkle.rs:617-637 | the last sorted shred must be a coding shred behind its own position, else which error; its headers set back by that position and its trailers are what stubs are made from |
| StepTheorems.AssembleFailsAt | src/merkle.rs:701-708 | the loop fails at the first shred that does not fit behind those before it, with the error of a wrong signature, of a missing index or of an index that is taken, passed or out of range |
| StepTheorems.ReconstructExactly | src/merkle.rs:720-728 | reconstruction succeeds exactly if all shreds are of full size, the numbers of shards are within the library's limits and the library completes the shards; every shred then holds the completed shard of its place and is otherwise unchanged |
| StepTheorems.ReconstructFailsAs | src/merkle.rs:720-728 | the first shred of the wrong size is the fault, else the library's limits, else what the library reports |
| StepTheorems.RefreshExactly | src/merkle.rs:729-750 | a missing shred passes exactly if it is of its place's kind, its payload holds the header it stands for and it is sane; it then has the data header in its payload |
| StepTheorems.MismatchIsRefused | src/merkle.rs:736-746 | the wrong kind and the wrong header are refused as an invalid recovered shred |
| StepTheorems.RootCheckExactly | src/merkle.rs:751-754 | the check passes exactly if every shred is refreshed, the tree is built and its last node is the expected root |
| StepTheorems.RefreshFailsAt | src/merkle.rs:729-751 | the first missing shred that cannot be refreshed gives the error |
| StepTheorems.FirstFailingStepDecides | src/merkle.rs:617-754 | both recoveries fail with the error of their first step that fails |
| RecoverLoops.Recover | src/merkle.rs:608-779 | the loops compute `RecoverSorted` of some sorted permutation of the input |
| RecoverLoops.RecoverInOrder | src/merkle.rs:617-779 | the loops on a sorted input compute `RecoverSorted` |
| RecoverLoops.PrepareInOrder | src/merkle.rs:617-754 | everything up to the root check, with its error cases |
| RecoverLoops.WindowsAreSorted | src/merkle.rs:613-614 | comparing neighbours decides whether the whole input is sorted |
| RecoverLoops.AssembleBatch | src/merkle.rs:700-719 | the batch and the mask of the interleaving loop, or its first error |
| RecoverLoops.FillWithStubs | src/merkle.rs:709-717 | stubs are pushed up to the next index |
| RecoverLoops.MakeStubShred | src/merkle.rs:890-950 | the stub of a place, or the error of the first step that fails |
| RecoverLoops.ReconstructBatch | src/merkle.rs:720-728 | missing erasure shards are replaced in place by reconstructed ones, or the first error is returned |
| RecoverLoops.RefreshBatch | src/merkle.rs:729-750 | missing shreds get their headers from their payloads, and each shred its leaf |
| RecoverLoops.CheckRoot | src/merkle.rs:729-754 | the tree of the refreshed batch is built and its root compared |
| RecoverLoops.FinishBatch | src/merkle.rs:755-778 | exactly the missing shreds are yielded, in order, with their proofs |
| RecoverLoops.FinishShred | src/merkle.rs:762-770 | a missing shred with the proof of its place written in place, or the setter's error |
| RecoverLoops.RecoverDataOnly | src/merkle.rs:789-870 | the loops compute `RecoverDataOnlySorted` of some sorted permutation of the input |
| RecoverLoops.ParseMissing | src/merkle.rs:856-867 | missing data shreds whose headers parse and fit their place, in order |
| MerkleTheorems.MerkleCompleteness | src/merkle_tree.rs:26-108 | for every number of leaves and every index the tree's proof folds the leaf into the root |
| MerkleTheorems.MerkleSoundness | src/merkle_tree.rs:56-108 | a proof of the right length that folds to the root starts at the leaf in 20 bytes and is the tree's own proof, or a collision between inputs hashed by the tree and by the fold exists |
| MerkleTheorems.FoldIsBound | src/merkle_tree.rs:85-108 | the same for every index, in range or not, at the leaf its parity bits select |
| MerkleTheorems.WrongLengthCollides | src/merkle_tree.rs:14-16 | a proof of any other length that folds a leaf to the root exhibits a collision, by the leaf and node prefixes |
| MerkleTheorems.IteratorIsExact | src/merkle_tree.rs:56-82 | the iterator ends without an error if and only if the index is in range and the size is the true number of leaves, and then yields the leaf's proof of `get_proof_size` entries |
| MerkleTheorems.IteratorStepsAreBounded | src/merkle_tree.rs:65-81 | for any nodes, index and size at most `get_proof_size(size)` entries come out |
| MerkleTheorems.BuildTreeShape | src/merkle_tree.rs:26-54 | `n` good leaves give `get_merkle_tree_size(n)` nodes with the root last |
| MerkleTheorems.TreeSizeBounds | src/merkle_tree.rs:110-113 | the tree size lies between 2n-1 and 2n-1 plus the proof size |
| MerkleTheorems.TreeSizeStrictlyIncreasing | src/merkle_tree.rs:110-113 | more leaves always mean more nodes |
| MerkleTheorems.ProofSizeIsLeast | src/merkle_tree.rs:115-125 | `get_proof_size(n)` is the least `p` with `n <= 2^p` |
| MerkleTheorems.ProofSizeIsDepth | src/merkle_tree.rs:115-125 | it is the number of levels above the leaves |
| TreeInBytes.NodeJoinsItsChildren | src/merkle_tree.rs:40-46 | in the flat vector every node above the leaves is the hash of the node tag and the first 20 bytes of its children, left before right, a lone child twice |
| TreeInBytes.TreeBeginsWithLeaves | src/merkle_tree.rs:32-46 | the vector begins with the leaves; of one leaf it is that leaf, of two it ends in the hash of tag, first 20 bytes of the one and first 20 bytes of the other |
| TreeInBytes.LevelsFollow | src/merkle_tree.rs:35-47 | every level begins where the one below ends and has half as many nodes, rounded up |
| TreeInBytes.EntryIsNodeBeside | src/merkle_tree.rs:65-81 | entry `k` of a leaf's proof is the first 20 bytes of the node beside the leaf's ancestor on level `k` of the vector |
| TreeInBytes.PreimagesSpelled | src/merkle_tree.rs:14-16 | leaves and nodes are hashed behind the two spelled-out tags |
| TreeInBytes.BuildFailsAt | src/merkle_tree.rs:26-34 | no leaves are an error, and of leaves that are errors the first is returned |
| TreeInBytes.RootExistsExactly | src/merkle_tree.rs:104-107 | a proof gives a root exactly if the index is below two to the number of its entries, else an invalid proof |
| TreeInBytes.RootOfOneEntryMore | src/merkle_tree.rs:95-103 | each entry is joined on the side that the index's bit of its level says, with the first 20 bytes of the value so far |
| MerkleTree.TryNew | src/merkle_tree.rs:26-50 | the nested loops push the nodes of all levels, the last node joined with itself on odd levels, or return the first error |
| MerkleTree.PushParents | src/merkle_tree.rs:40-46 | one level's parents are appended |
| MerkleTree.ProofIterator.constructor | src/merkle_tree.rs:56-64 | an index out of range starts at a position from which only an error can be read |
| MerkleTree.ProofIterator.Next | src/merkle_tree.rs:65-81 | each call yields the head of the remaining run and advances, or ends, or fails, leaving the state as it was |
| Headers.VariantBytesAreExact | src/lib.rs:568-622 | variants and accepted variant bytes correspond one to one |
| Headers.CommonHeaderExact | src/lib.rs:246-255 | a buffer decodes to a common header if and only if it starts with its encoding |
| Headers.DataHeadersExact | src/lib.rs:257-264 | the same for the headers of data shreds |
| Headers.CodingHeadersExact | src/lib.rs:266-272 | the same for the headers of coding shreds |
| Shreds.LayoutTilesPayload | src/merkle.rs:266-308 | capacity fails exactly above a proof size that no decoded variant has, and the regions of a decoded variant tile the payload |
| Shreds.ErasureShardsHaveOneLength | src/merkle.rs:416-429 | data and coding erasure shards of one configuration are equally long |
| Shreds.ErasureShard | src/merkle.rs:431-435 | the slice exists exactly for shreds of full size with the variant of their kind, and has the length their variant gives it |
| Shreds.FromPayloadExact | src/merkle.rs:458-534 | a buffer parses to a shred if and only if that shred is sane, of full size, has its headers in its payload, and its payload starts the buffer |
| ParseTheorems.ParsesExactly | src/merkle.rs:458-534 | in numbers: a buffer parses exactly if it holds 1203 or 1228 bytes of a shred with each header field at its position, and indices, counts, flags, data size and parent within bounds that are written out |
| ParseTheorems.SaneExactly | src/shred_data.rs:13-39 | the bounds on indices, flags, data size and parent under which a shred is sane |
| ParseTheorems.DataFaults | src/shred_data.rs:13-39 | the error of an insane data shred is that of its first fault in the source's order |
| ParseTheorems.CodeFaults | src/shred_code.rs:33-55 | the same for coding shreds |
| ParseTheorems.MisfitFaults | src/shred_data.rs:15-17 | a wrong variant and a wrong payload size are refused before anything else |
| ParseTheorems.ErasureShardIndexExactly | src/shred_code.rs:8-31 | when a shred has an erasure shard index and which, in its header fields |
| ParseTheorems.SaneIndices | src/traits.rs:42-67 | parent, erasure shard index and first coding index of a sane shred |
| ParseTheorems.ParseFaults | src/merkle.rs:458-534 | the error for a buffer that is too short or has no variant |
| ParseTheorems.FullBufferFaults | src/merkle.rs:458-534 | a full buffer with a variant holds a shred, and parses to it or fails with its fault |
| ParseTheorems.HeadersStandAt | src/lib.rs:246-272 | the headers are in the payload exactly if each field stands at its byte position, little-endian |
| ParseTheorems.ReadersReadAt | src/merkle.rs:266-435 | which bytes of a full payload are its erasure shard, chained root, leaf and retransmitter's signature |
| ParseTheorems.ProofEntryReadsAt | src/merkle.rs:587-600 | entry `k` of the proof stands `k` times 20 bytes behind the chained root |
| ParseTheorems.ReadersFailExactly | src/merkle.rs:310-435 | when each reader fails and with which error |
| ParseTheorems.SettersFailExactly | src/merkle.rs:322-392 | when each setter fails and with which error |
| ParseTheorems.DataReadExactly | src/merkle.rs:130-147 | data is read exactly for sizes from the headers up to the end of the capacity that the buffer has, from byte 88 on |
| Setters.ProofSetterFrame | src/merkle.rs:352-374 | the proof reads back, and no byte outside its region and no other reader changes, the leaf included |
| Setters.RetransmitterSetterFrame | src/merkle.rs:385-392 | the signature reads back, and no byte outside its region and no other reader changes, proof, leaf and Merkle root included; only resigned variants can be signed |
| Setters.ChainedRootSetterFrame | src/merkle.rs:322-330 | the chained root reads back; no byte outside its region changes, hence neither headers, data, erasure shard, proof nor retransmitter's signature |
| Setters.ErasureShardSetterFrame | src/merkle.rs:437-443 | the erasure shard reads back; no byte outside it changes, hence neither chained root, proof nor retransmitter's signature, nor a coding shred's headers |
| Setters.SignatureSetterFrame | src/common.rs:19-23 | the signature is in payload and header; no byte behind it changes, hence neither data, leaf, Merkle root, erasure shard, chained root, proof nor retransmitter's signature, and headers stay those in the payload |
| Setters.PayloadIsItsRegions | src/merkle.rs:266-443 | a full payload is determined by what its readers return and the bytes before its erasure shard |
| ShredObjects.Payload.GetMut | src/payload.rs:28-38 | a guard is granted exactly if the end of the range is within the payload, and takes its bytes |
| ShredObjects.Payload.Truncate | src/payload.rs:40-43 | the payload is cut to at most the given length |
| ShredObjects.PayloadMutGuard.constructor | src/payload.rs:124-134 | the bytes move from the payload into the guard |
| ShredObjects.PayloadMutGuard.Write | src/payload.rs:155-173 | writing through the guard overwrites the addressed bytes only |
| ShredObjects.PayloadMutGuard.Drop | src/payload.rs:136-141 | the bytes move back into the payload |
| ShredObjects.MerkleShred.SetSignature | src/common.rs:19-23 | payload and parsed header both get the signature |
| ShredObjects.MerkleShred.SetChainedMerkleRoot | src/merkle.rs:322-330 | the object becomes what the setter specifies, or is unchanged on an error |
| ShredObjects.MerkleShred.SetRetransmitterSignature | src/merkle.rs:385-392 | the object becomes what the setter specifies, or is unchanged on an error |
| ShredObjects.MerkleShred.SetErasureShard | src/merkle.rs:437-443 | the object's erasure shard is replaced in place |
| ShredObjects.MerkleShred.SetMerkleProof | src/merkle.rs:352-374 | the iterator's entries are written if there is room and it ends without an error after exactly `proof_size` of them; otherwise an error is returned, an I/O error exactly if the iterator outruns a payload that is too short, and at most the proof's region has changed |
| ShredObjects.MerkleShred.WriteEntries | src/merkle.rs:362-373 | the cursor loop writes the entries one after the other and stops at the first error, surplus entry or lack of room |
| ShredObjects.MerkleShred.WriteEntry | src/merkle.rs:368 | an entry is written in full, or as far as the payload reaches |
| ShredObjects.Parse | src/merkle.rs:454-534 | parsing computes `FromPayload` and leaves the payload truncated to the parsed shred's own |
| Wire.RawReadersAgree | src/wire.rs:26-225 | for every buffer that parses, the raw readers agree with the parsed shred on extent, headers, data, Merkle root, chained root and retransmitter's signature |
| ParseTheorems.DataFollowsHeaders | src/merkle.rs:130-147 | the data of a parsed shred has `size - 88` bytes, and behind the encoded headers it makes up the first `size` bytes of the payload |
| ParseTheorems.RawDataReadExactly | src/wire.rs:118-126 | for any buffer, when its data cannot be read and with which error, and which bytes it is otherwise |
| ParseTheorems.RawFieldsStandAt | src/wire.rs:41-89 | for any buffer, each raw reader reads the little-endian field at its position, or nothing if the buffer ends before |
| ParseTheorems.RawTypedFieldsStandAt | src/wire.rs:94-154 | the same for flags, data size and erasure configuration |
| ParseTheorems.VariantIsByte64 | src/wire.rs:47-52 | byte 64 decides the variant by the codes of the wire format |
| ParseTheorems.RawTrailersStandAt | src/wire.rs:188-225 | for any buffer with a variant, where chained root and retransmitter's signature are read and written, or which error |
| ParseTheorems.RawReadersNeedVariant | src/wire.rs:17-28 | without a variant no raw reader of a root, signature or shred succeeds |
| ParseTheorems.RawIndexStandsAt | src/merkle.rs:205-223 | the raw Merkle index in bytes, with no bound but that of subtraction |
| ParseTheorems.RawRootExactly | src/wire.rs:175-186 | the raw root folds the leaf with the proof at the raw index, whether or not the shred is sane |
| Wire.RawMerkleIndexAgrees | src/merkle.rs:205-223 | the unchecked Merkle index of the raw reader is the erasure shard index wherever that exists |
| Wire.RawSetterAgrees | src/wire.rs:240-247 | signing a parsed shred's buffer is signing the shred, and the result parses to it |
| Wire.SetRetransmitterSignature | src/wire.rs:240-247 | the buffer is overwritten in place at the offset of its variant, or unchanged on an error |
| Wire.ResigningIsNoDuplicate | src/lib.rs:519-535 | a shred signed by another retransmitter is no duplicate of itself |
| ParseTheorems.DuplicatesExactly | src/lib.rs:519-535 | shreds of one id are duplicates exactly if a byte before the retransmitter's signature differs, shreds of different ids never |
| Filter.FilterFeedsRecovery | src/lib.rs:756-889 | shreds of one set parsed from kept buffers, with different ids and a coding shred among them, pass the batch loop in every order, with 32 data and 64 places |
| Filter.KeptWindow | src/lib.rs:756-903 | every kept buffer, whether or not it parses, has readable fields, the right version, root < slot <= max_slot or data of the genesis slot, an index in bounds and an aligned FEC set |
| Filter.KeptPlace | src/lib.rs:756-903 | a kept buffer that parses stands at 0..32 if data and 32..64 if code, in a 32:32 set |
| FilterTheorems.KeptExactly | src/lib.rs:747-912 | the filter keeps exactly the buffers that begin with a shred whose version, slot, index, FEC set, parent, configuration and flags are within bounds that are written out |
| FilterTheorems.VerdictIsCaused | src/lib.rs:756-889 | each counter is raised exactly for its own cause, in the order of the checks, and an unexpected end is tolerated exactly if it is not refused |
| FilterTheorems.OverrunExactly | src/lib.rs:764-773 | an overrun is counted exactly for buffers without a variant or shorter than its shred |
| FilterTheorems.RawShredExactly | src/wire.rs:26-28 | a buffer holds the shred it begins with exactly if it has a variant and is long enough for it |
| Filter.RunIsAccounted | src/lib.rs:756-889 | the raises of every run of calls account for each call: kept shreds as code or data, all others once under their reason, tolerated unexpected ends on top, unreadable fields never |
| Filter.ShredFetchStats.DiscardAll | src/lib.rs:756-889 | after any run of calls every counter has its old value plus its raises, the two kept ones up to saturation, and the fields account for all calls |
| Filter.ShredFetchStats.RunAccountsForCalls | src/lib.rs:756-889 | the fields have risen by one for every discarded call and every tolerated end; the kept counters have risen by the number of kept shreds if and only if neither saturates |
| Filter.VerdictIsWellCounted | src/lib.rs:763-889 | each call raises one counter, that of a kept shred exactly if it keeps |
| Filter.ShredFetchStats.ShouldDiscardShred | src/lib.rs:756-889 | the decision, and the new value of every counter |
| Filter.ShredFetchStats.PassesData | src/lib.rs:828-870 | the checks on data shreds and the counters they raise |
| Filter.ShredFetchStats.PassesCode | src/lib.rs:808-827 | the checks on coding shreds and the counters they raise |
| Cache.CacheAgreesWithConstruction | src/lib.rs:676-701 | under every interleaving and eviction a finished call has what direct construction yields, and no entry is initialized twice |
| Cache.CallersShareEntry | src/lib.rs:684-695 | calls for a key that obtain their entries between evictions of that key share one entry |
| Cache.StepKeepsInv | src/lib.rs:684-699 | every step of every thread keeps the protocol's invariant |
| Cache.NeverStuck | src/lib.rs:696-699 | an unfinished call can step itself or waits for a thread that can |
| Cache.CallsAreDeterministic | src/lib.rs:681-699 | in every state a call has at most one step to take, but for what an insertion evicts besides |

## Left out

- MerkleTree.GetMerkleTreeSize: counts are unbounded, so a size of `usize::MAX`, whose half rounded up overflows, is not modelled.
- Filter.ShredFetchStats.ShouldDiscardShred, Filter.ShredFetchStats.DiscardAll: the two counters of kept shreds saturate as in the source; the other counters are unbounded and do not wrap around.
- ShredObjects.MerkleShred.SetMerkleProof: is specified for payloads that reach up to the proof; on shorter ones, which no constructed shred has, the source panics.
- Recovery.AddU32: an index sum wraps around as in a release build; that a debug build would panic there is not modelled, and the sums are proved not to overflow for sanitized input.
- RecoverLoops.SortShreds: stands for the library's unstable sort; the theorems hold for every result that its contract allows.
- Shreds.Parent, Shreds.Sanitize: errors carry the offending numbers but not the boxed headers or display strings.
- Wire.GetErasureConfig: returns an error for a buffer without a valid variant, where the source panics; the filter calls it only after the variant was read.
- The inside of SHA-256, of Ed25519 verification and of the Reed-Solomon arithmetic, and `ShredId::seed`: library cryptography.
- The inside of the header serializer, of the byte buffers and of the LRU cache: a fixed byte layout, byte sequences, and a map from which any keys may vanish at any time.
- Conversions between the crate's two shred enums, serde, display of errors, and one-line accessors: plumbing.
- Timing, submission and histograms of the statistics, and debug assertions as runtime behaviour.
- `get_shred_mut`, reference ticks and slot-completion flags: single reads that would add easy members.
