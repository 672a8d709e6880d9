/** Readers of single fields of a raw buffer, and their agreement with parsed shreds (src/wire.rs). */
module Wire {
  import opened Wrappers
  import opened Bytes
  import opened Errors
  import opened Headers
  import opened MerkleTree
  import opened Shreds
  import Setters

  function Get(shred: Bytes, lo: nat, hi: nat): (r: Option<Bytes>)
    requires lo <= hi
    ensures r.Some? <==> hi <= |shred|
    ensures r.Some? ==> |r.value| == hi - lo
  {
    if hi <= |shred| then Some(shred[lo..hi]) else None
  }

  function GetShredSize(shred: Bytes): Option<nat> {
    match GetShredVariant(shred)
    case Failure(_) => None
    case Success(variant) => Some(SizeOfPayload(variant.Type()))
  }

  function GetShredFromBuf(buf: Bytes): Option<Bytes> {
    match GetShredSize(buf)
    case None => None
    case Some(size) => Get(buf, 0, size)
  }

  function GetSignature(shred: Bytes): Option<Signature> {
    match Get(shred, 0, 64) case None => None case Some(b) => Some(b)
  }

  function GetSlot(shred: Bytes): Option<u64> {
    match Get(shred, 65, 73) case None => None case Some(b) => Some(ReadU64(b))
  }

  function GetIndex(shred: Bytes): Option<u32> {
    match Get(shred, 73, 77) case None => None case Some(b) => Some(ReadU32(b))
  }

  function GetVersion(shred: Bytes): Option<u16> {
    match Get(shred, 77, 79) case None => None case Some(b) => Some(ReadU16(b))
  }

  function GetFecSetIndex(shred: Bytes): Option<u32> {
    match Get(shred, 79, 83) case None => None case Some(b) => Some(ReadU32(b))
  }

  function GetParentOffset(shred: Bytes): Option<u16> {
    match Get(shred, 83, 85) case None => None case Some(b) => Some(ReadU16(b))
  }

  function GetFlags(shred: Bytes): Result<byte, Error> {
    var variant :- GetShredVariant(shred);
    if variant.MerkleCode? then Failure(InvalidShredType)
    else if |shred| <= 85 then Failure(InvalidPayloadSize(|shred|))
    else Success(shred[85])
  }

  function GetDataSize(shred: Bytes): Result<u16, Error> {
    match Get(shred, 86, 88)
    case None => Failure(InvalidPayloadSize(|shred|))
    case Some(b) => Success(ReadU16(b))
  }

  function GetDataFromBuf(shred: Bytes): Result<Bytes, Error> {
    var variant :- GetShredVariant(shred);
    if variant.MerkleCode? then Failure(InvalidShredType) else
      var size :- GetDataSize(shred);
      GetData(shred, variant, size)
  }

  datatype ErasureConfig = ErasureConfig(numData: nat, numCoding: nat) {
    predicate IsFixed() {
      numData == DATA_SHREDS_PER_FEC_BLOCK && numCoding == DATA_SHREDS_PER_FEC_BLOCK
    }
  }

  function GetErasureConfig(shred: Bytes): Result<ErasureConfig, Error> {
    var variant :- GetShredVariant(shred);
    if variant.MerkleData? then Failure(InvalidShredType) else
      match (Get(shred, 83, 85), Get(shred, 85, 87))
      case (Some(numData), Some(numCoding)) => Success(ErasureConfig(ReadU16(numData), ReadU16(numCoding)))
      case _ => Failure(InvalidPayloadSize(|shred|))
  }

  datatype ShredId = ShredId(slot: u64, index: u32, shredType: ShredType)

  function GetShredId(shred: Bytes): Option<ShredId> {
    match (GetSlot(shred), GetIndex(shred), GetShredVariant(shred))
    case (Some(slot), Some(index), Success(variant)) => Some(ShredId(slot, index, variant.Type()))
    case _ => None
  }

  function Id(s: Shred): ShredId {
    ShredId(s.common.slot, s.common.index, s.common.variant.Type())
  }

  /** Data: the index within the FEC set. Code: two header fields added, without any bounds check. */
  function GetMerkleIndex(shred: Bytes, variant: ShredVariant): Option<nat> {
    if variant.MerkleData? then
      match (GetFecSetIndex(shred), GetIndex(shred))
      case (Some(fecSetIndex), Some(index)) => if fecSetIndex <= index then Some(index - fecSetIndex) else None
      case _ => None
    else
      match (Get(shred, 83, 85), Get(shred, 87, 89))
      case (Some(numData), Some(position)) => Some(ReadU16(numData) + ReadU16(position))
      case _ => None
  }

  function GetMerkleRootFromBuf(h: Hasher, shred: Bytes): Option<Hash> {
    match GetShredVariant(shred)
    case Failure(_) => None
    case Success(v) =>
      LayoutTilesPayload(v, 0, false);
      match (GetMerkleIndex(shred, v), GetMerkleProof(shred, ProofOffset(v), v.proofSize),
             GetMerkleNode(h, shred, SIZE_OF_SIGNATURE, ProofOffset(v)))
      case (Some(index), Success(proof), Success(node)) => GetMerkleRoot(h, index, node, proof).ToOption()
      case _ => None
  }

  function GetChainedMerkleRoot(shred: Bytes): Option<Hash> {
    match GetShredVariant(shred)
    case Failure(_) => None
    case Success(v) =>
      match Get(shred, ChainedRootOffset(v), ChainedRootOffset(v) + SIZE_OF_MERKLE_ROOT)
      case None => None
      case Some(root) => Some(root)
  }

  function GetRetransmitterSignatureOffset(shred: Bytes): Result<nat, Error> {
    var v :- GetShredVariant(shred);
    if v.resigned then Success(RetransmitterOffset(v)) else Failure(InvalidShredVariant)
  }

  function GetRetransmitterSignature(shred: Bytes): Result<Signature, Error> {
    var offset :- GetRetransmitterSignatureOffset(shred);
    match Get(shred, offset, offset + SIZE_OF_SIGNATURE)
    case None => Failure(InvalidPayloadSize(|shred|))
    case Some(signature) => Success(signature)
  }

  /** What `set_retransmitter_signature` makes of a buffer. */
  function BufWithRetransmitterSignature(shred: Bytes, signature: Signature): Result<Bytes, Error> {
    var offset :- GetRetransmitterSignatureOffset(shred);
    if offset + SIZE_OF_SIGNATURE <= |shred| then Success(Splice(shred, offset, signature))
    else Failure(InvalidPayloadSize(|shred|))
  }

  /** `copy_from_slice` into the buffer, in place. */
  method SetRetransmitterSignature(shred: array<byte>, signature: Signature) returns (r: Checked)
    modifies shred
    ensures match BufWithRetransmitterSignature(old(shred[..]), signature)
            case Success(bytes) => r == Success(()) && shred[..] == bytes
            case Failure(error) => r == Failure(error) && shred[..] == old(shred[..])
  {
    ghost var before := shred[..];
    var offset := GetRetransmitterSignatureOffset(shred[..]);
    if offset.Failure? {
      return Failure(offset.error);
    }
    if offset.value + SIZE_OF_SIGNATURE > shred.Length {
      return Failure(InvalidPayloadSize(shred.Length));
    }
    for i := 0 to SIZE_OF_SIGNATURE
      invariant forall j :: 0 <= j < shred.Length ==>
                  shred[j] == if offset.value <= j < offset.value + i then signature[j - offset.value] else before[j]
    {
      shred[offset.value + i] := signature[i];
    }
    assert shred[..] == Splice(before, offset.value, signature);
    return Success(());
  }

  // ----- Agreement with parsed shreds -----

  /** Every field of the headers reads the same from the buffer as from the parsed shred. */
  predicate HeadersAgree(p: Bytes, s: Shred) {
    && GetShredVariant(p) == Success(s.common.variant)
    && GetSignature(p) == Some(s.common.signature) && GetSlot(p) == Some(s.common.slot)
    && GetIndex(p) == Some(s.common.index) && GetVersion(p) == Some(s.common.version)
    && GetFecSetIndex(p) == Some(s.common.fecSetIndex) && GetShredId(p) == Some(Id(s))
    && (match s
        case ShredData(_, data, _) =>
          && GetParentOffset(p) == Some(data.parentOffset) && GetFlags(p) == Success(data.flags)
          && GetDataSize(p) == Success(data.size) && GetErasureConfig(p) == Failure(InvalidShredType)
        case ShredCode(_, coding, _) =>
          && GetErasureConfig(p) == Success(ErasureConfig(coding.numDataShreds, coding.numCodingShreds))
          && GetFlags(p) == Failure(InvalidShredType) && GetDataFromBuf(p) == Failure(InvalidShredType))
  }

  lemma RawHeadersAgree(s: Shred)
    requires WellSized(s) && HeadersInPayload(s)
    ensures HeadersAgree(s.payload, s)
  {
    var p := s.payload;
    assert Get(p, 0, 64) == Some(p[..64]);
    match s
    case ShredData(common, data, _) =>
      DataHeadersExact(p, common, data);
      VariantByteIsRead(p, common, EncodeDataHeader(data));
    case ShredCode(common, coding, _) =>
      CodingHeadersExact(p, common, coding);
      VariantByteIsRead(p, common, EncodeCodingHeader(coding));
  }

  /** The unchecked Merkle index of the raw reader is the erasure shard index wherever that exists. */
  lemma RawMerkleIndexAgrees(s: Shred)
    requires WellSized(s) && HeadersInPayload(s) && ErasureShardIndex(s).Success?
    ensures GetMerkleIndex(s.payload, s.common.variant) == Some(ErasureShardIndex(s).value)
  {
    match s
    case ShredData(common, data, _) => DataHeadersExact(s.payload, common, data);
    case ShredCode(common, coding, _) => CodingHeadersExact(s.payload, common, coding);
  }

  lemma RawRootAgrees(h: Hasher, s: Shred)
    requires WellSized(s) && GetShredVariant(s.payload) == Success(s.common.variant)
    requires ErasureShardIndex(s).Success?
    requires GetMerkleIndex(s.payload, s.common.variant) == Some(ErasureShardIndex(s).value)
    ensures GetMerkleRootFromBuf(h, s.payload) == MerkleRoot(h, s).ToOption()
  {
    LayoutTilesPayload(s.common.variant, 0, false);
  }

  lemma RawTrailersAgree(s: Shred)
    requires WellSized(s) && GetShredVariant(s.payload) == Success(s.common.variant)
    ensures GetChainedMerkleRoot(s.payload) == ChainedMerkleRoot(s).ToOption()
    ensures GetRetransmitterSignature(s.payload) == RetransmitterSignature(s)
  {
    LayoutTilesPayload(s.common.variant, 0, false);
  }

  /**
    * For every buffer that parses, the raw readers agree with the parsed shred: on its extent, headers,
    * data, Merkle root, chained root and retransmitter's signature, errors included.
    */
  lemma RawReadersAgree(h: Hasher, buf: Bytes, s: Shred)
    requires FromPayload(buf) == Success(s)
    ensures GetShredFromBuf(buf) == Some(s.payload)
    ensures HeadersAgree(s.payload, s)
    ensures s.ShredData? ==> GetDataFromBuf(s.payload) == GetData(s.payload, s.common.variant, s.data.size)
    ensures s.ShredData? ==> GetDataFromBuf(s.payload).Success?
    ensures GetMerkleRootFromBuf(h, s.payload) == MerkleRoot(h, s).ToOption()
    ensures GetChainedMerkleRoot(s.payload) == ChainedMerkleRoot(s).ToOption()
    ensures GetRetransmitterSignature(s.payload) == RetransmitterSignature(s)
  {
    FromPayloadExact(buf, s);
    RawHeadersAgree(s);
    assert ErasureShardIndex(s).Success?;
    RawMerkleIndexAgrees(s);
    RawRootAgrees(h, s);
    RawTrailersAgree(s);
    assert buf[64] == s.payload[64];
  }

  /** Signing a parsed shred's buffer in place is signing the shred. */
  lemma RawSetterAgrees(buf: Bytes, s: Shred, signature: Signature)
    requires FromPayload(buf) == Success(s)
    ensures match (BufWithRetransmitterSignature(s.payload, signature), Setters.SetRetransmitterSignature(s, signature))
            case (Success(bytes), Success(shred)) => bytes == shred.payload && FromPayload(bytes) == Success(shred)
            case (Failure(e), Failure(f)) => e == f && !s.common.variant.resigned
            case _ => false
  {
    FromPayloadExact(buf, s);
    RawHeadersAgree(s);
    LayoutTilesPayload(s.common.variant, 0, false);
    if s.common.variant.resigned {
      Setters.RetransmitterSetterFrame(_ => Zeros(32), s, signature);
      var shred := Setters.SetRetransmitterSignature(s, signature).value;
      FromPayloadExact(shred.payload, shred);
      assert shred.payload[..|shred.payload|] == shred.payload;
    }
  }

  // ----- Duplicates -----

  /** What `is_shred_duplicate` compares: everything before the retransmitter's signature. */
  function ComparedPayload(s: Shred): Bytes {
    if s.VariantMatches() && s.common.variant.resigned && RetransmitterOffset(s.common.variant) <= |s.payload|
    then s.payload[..RetransmitterOffset(s.common.variant)]
    else s.payload
  }

  predicate IsShredDuplicate(a: Shred, b: Shred) {
    Id(a) == Id(b) && ComparedPayload(a) != ComparedPayload(b)
  }

  /** A shred signed by another retransmitter is never a duplicate of itself. */
  lemma ResigningIsNoDuplicate(s: Shred, signature: Signature)
    requires WellSized(s) && s.common.variant.resigned
    ensures !IsShredDuplicate(s, Setters.SetRetransmitterSignature(s, signature).value)
  {
    var at := RetransmitterOffset(s.common.variant);
    LayoutTilesPayload(s.common.variant, 0, false);
    SpliceElsewhere(s.payload, at, signature, 0, at);
  }
}
