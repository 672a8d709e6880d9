/** The errors of the crate (src/lib.rs) that the modelled code can return. */
module Errors {

  datatype ErasureError =
    | InvalidIndex
    | TooFewParityShards
    | TooFewDataShards
    | TooManyShards
    | TooFewShardsPresent
    | IncorrectShardSize

  datatype Error =
    | WincodeRead
    | Erasure(inner: ErasureError)
    | InvalidDataSize(size: nat, payload: nat)
    | InvalidErasureShardIndex
    | InvalidMerkleProof
    | InvalidMerkleRoot
    | InvalidNumCodingShreds(numCoding: nat)
    | InvalidParentOffset(slot: nat, parentOffset: nat)
    | InvalidPayloadSize(payloadSize: nat)
    | InvalidProofSize(proofSize: nat)
    | InvalidRecoveredShred
    | InvalidShredFlags(flags: nat)
    | InvalidShredIndex(index: nat)
    | InvalidShredType
    | InvalidShredVariant
    | EmptyIterator
    | Io
}
