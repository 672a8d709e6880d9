/** Shreds as values: payload layout, readers, setters, sanitization and parsing (src/merkle.rs, src/shred_*.rs). */
module Shreds {
  import opened Wrappers
  import opened Bytes
  import opened Errors
  import opened Headers
  import opened MerkleTree

  const PACKET_DATA_SIZE := 1232
  const SIZE_OF_NONCE := 4
  const DATA_SHREDS_PER_FEC_BLOCK := 32
  const MAX_DATA_SHREDS_PER_SLOT := 32_768
  const MAX_CODE_SHREDS_PER_SLOT := MAX_DATA_SHREDS_PER_SLOT

  datatype Shred =
    | ShredCode(common: ShredCommonHeader, coding: CodingShredHeader, payload: Bytes)
    | ShredData(common: ShredCommonHeader, data: DataShredHeader, payload: Bytes)
  {
    function Type(): ShredType {
      if ShredCode? then Code else Data
    }

    /** The guard of every `let ShredVariant::$variant { .. } = ... else`. */
    predicate VariantMatches() {
      common.variant.Type() == Type()
    }
  }

  type Checked = Result<(), Error>

  // ----- Layout: headers | data or erasure coded bytes | chained root | proof | [retransmitter's signature] -----

  function SizeOfPayload(t: ShredType): nat {
    match t
    case Code => PACKET_DATA_SIZE - SIZE_OF_NONCE
    case Data => PACKET_DATA_SIZE - SIZE_OF_NONCE - SIZE_OF_CODING_SHRED_HEADERS + SIZE_OF_SIGNATURE
  }

  function SizeOfHeaders(t: ShredType): nat {
    match t
    case Code => SIZE_OF_CODING_SHRED_HEADERS
    case Data => SIZE_OF_DATA_SHRED_HEADERS
  }

  /** Where the erasure coded slice begins: data shreds leave out only the signature. */
  function ErasureShardStart(t: ShredType): nat {
    match t
    case Code => SIZE_OF_CODING_SHRED_HEADERS
    case Data => SIZE_OF_SIGNATURE
  }

  function SizeOfTrailer(proofSize: byte, resigned: bool): nat {
    SIZE_OF_MERKLE_ROOT + proofSize * SIZE_OF_MERKLE_PROOF_ENTRY + if resigned then SIZE_OF_SIGNATURE else 0
  }

  function Capacity(t: ShredType, proofSize: byte, resigned: bool): Result<nat, Error> {
    var used := SizeOfHeaders(t) + SizeOfTrailer(proofSize, resigned);
    if used <= SizeOfPayload(t) then Success(SizeOfPayload(t) - used) else Failure(InvalidProofSize(proofSize))
  }

  /** The capacity of a decoded variant, for which `Capacity` cannot fail. */
  function DataCapacity(v: ShredVariant): nat {
    SizeOfPayload(v.Type()) - SizeOfHeaders(v.Type()) - SizeOfTrailer(v.proofSize, v.resigned)
  }

  function ChainedRootOffset(v: ShredVariant): nat {
    SizeOfHeaders(v.Type()) + DataCapacity(v)
  }

  function ProofOffset(v: ShredVariant): nat {
    ChainedRootOffset(v) + SIZE_OF_MERKLE_ROOT
  }

  function RetransmitterOffset(v: ShredVariant): nat {
    ProofOffset(v) + v.proofSize * SIZE_OF_MERKLE_PROOF_ENTRY
  }

  /**
    * Capacity fails exactly beyond a proof size that no decoded variant reaches, and the five regions of
    * a decoded variant follow one another without gap or overlap up to the last byte.
    */
  lemma LayoutTilesPayload(v: ShredVariant, proofSize: byte, resigned: bool)
    ensures Capacity(v.Type(), v.proofSize, v.resigned) == Success(DataCapacity(v))
    ensures Capacity(v.Type(), proofSize, resigned).Failure? <==>
              proofSize > (if v.MerkleCode? then (if resigned then 52 else 55) else (if resigned then 50 else 54))
    ensures ErasureShardStart(v.Type()) <= SizeOfHeaders(v.Type()) <= ChainedRootOffset(v)
    ensures ChainedRootOffset(v) < ProofOffset(v) <= RetransmitterOffset(v)
    ensures RetransmitterOffset(v) + (if v.resigned then SIZE_OF_SIGNATURE else 0) == SizeOfPayload(v.Type())
  {
  }

  /** The coding and the data variant with the same flags have erasure shards of one length. */
  lemma ErasureShardsHaveOneLength(p: ProofSize, resigned: bool)
    ensures ChainedRootOffset(MerkleCode(p, resigned)) - ErasureShardStart(Code)
         == ChainedRootOffset(MerkleData(p, resigned)) - ErasureShardStart(Data) > 0
  {
  }

  // ----- Readers -----

  /** `buffer.get(lo..hi)`. */
  function Slice(b: Bytes, lo: nat, hi: nat): (r: Result<Bytes, Error>)
    requires lo <= hi
    ensures r.Success? ==> |r.value| == hi - lo
  {
    if hi <= |b| then Success(b[lo..hi]) else Failure(InvalidPayloadSize(|b|))
  }

  function ChainedMerkleRoot(s: Shred): Result<Hash, Error> {
    if !s.VariantMatches() then Failure(InvalidShredVariant) else
      var at := ChainedRootOffset(s.common.variant);
      var root :- Slice(s.payload, at, at + SIZE_OF_MERKLE_ROOT);
      Success(root)
  }

  function RetransmitterSignature(s: Shred): Result<Signature, Error> {
    if !s.VariantMatches() || !s.common.variant.resigned then Failure(InvalidShredVariant) else
      var at := RetransmitterOffset(s.common.variant);
      var signature :- Slice(s.payload, at, at + SIZE_OF_SIGNATURE);
      Success(signature)
  }

  /** `chunks(20)`. */
  function Chunks(b: Bytes): seq<MerkleProofEntry>
    requires |b| % SIZE_OF_MERKLE_PROOF_ENTRY == 0
  {
    if b == [] then [] else [b[..SIZE_OF_MERKLE_PROOF_ENTRY]] + Chunks(b[SIZE_OF_MERKLE_PROOF_ENTRY..])
  }

  function Flatten(entries: seq<MerkleProofEntry>): (b: Bytes)
    ensures |b| == |entries| * SIZE_OF_MERKLE_PROOF_ENTRY
  {
    if entries == [] then [] else entries[0] + Flatten(entries[1..])
  }

  lemma {:induction false} ChunksFlatten(entries: seq<MerkleProofEntry>)
    ensures Chunks(Flatten(entries)) == entries
  {
    if entries != [] {
      var b := Flatten(entries);
      assert b[..20] == entries[0] && b[20..] == Flatten(entries[1..]);
      ChunksFlatten(entries[1..]);
    }
  }

  lemma {:induction false} FlattenChunks(b: Bytes)
    requires |b| % SIZE_OF_MERKLE_PROOF_ENTRY == 0
    ensures Flatten(Chunks(b)) == b
    ensures |Chunks(b)| * SIZE_OF_MERKLE_PROOF_ENTRY == |b|
  {
    if b != [] {
      FlattenChunks(b[20..]);
      assert Chunks(b)[1..] == Chunks(b[20..]);
      assert b == b[..20] + b[20..];
    }
  }

  lemma {:induction false} FlattenSnoc(entries: seq<MerkleProofEntry>, last: MerkleProofEntry)
    ensures Flatten(entries + [last]) == Flatten(entries) + last
  {
    if entries == [] {
      assert Flatten([last]) == last + Flatten([]);
    } else {
      assert (entries + [last])[1..] == entries[1..] + [last];
      FlattenSnoc(entries[1..], last);
    }
  }

  function GetMerkleProof(shred: Bytes, proofOffset: nat, proofSize: nat): Result<seq<MerkleProofEntry>, Error> {
    var bytes :- Slice(shred, proofOffset, proofOffset + proofSize * SIZE_OF_MERKLE_PROOF_ENTRY);
    Success(Chunks(bytes))
  }

  function GetMerkleNode(h: Hasher, shred: Bytes, lo: nat, hi: nat): Result<Hash, Error>
    requires lo <= hi
  {
    var node :- Slice(shred, lo, hi);
    Success(h(LeafPreimage(node)))
  }

  function MerkleProof(s: Shred): Result<seq<MerkleProofEntry>, Error> {
    if !s.VariantMatches() then Failure(InvalidShredVariant) else
      GetMerkleProof(s.payload, ProofOffset(s.common.variant), s.common.variant.proofSize)
  }

  /** The leaf of a shred: the hash of everything between its signature and its proof. */
  function MerkleNode(h: Hasher, s: Shred): Result<Hash, Error> {
    if !s.VariantMatches() then Failure(InvalidShredVariant) else
      GetMerkleNode(h, s.payload, SIZE_OF_SIGNATURE, ProofOffset(s.common.variant))
  }

  function FirstCodingIndex(s: Shred): Option<u32> {
    if s.ShredCode? && s.coding.position <= s.common.index then Some(s.common.index - s.coding.position) else None
  }

  /** A 32-bit sum that overflows also exceeds the bound it is compared with. */
  function ErasureShardIndex(s: Shred): Result<nat, Error> {
    match s
    case ShredData(common, _, _) =>
      if common.fecSetIndex <= common.index then Success(common.index - common.fecSetIndex)
      else Failure(InvalidErasureShardIndex)
    case ShredCode(common, coding, _) =>
      if || coding.numDataShreds == 0
         || common.fecSetIndex + (coding.numDataShreds - 1) >= MAX_DATA_SHREDS_PER_SLOT
         || FirstCodingIndex(s) == None
         || coding.numCodingShreds == 0
         || FirstCodingIndex(s).value + (coding.numCodingShreds - 1) >= MAX_CODE_SHREDS_PER_SLOT
         || coding.position >= coding.numCodingShreds
      then Failure(InvalidErasureShardIndex)
      else Success(coding.position + coding.numDataShreds)
  }

  function MerkleRoot(h: Hasher, s: Shred): Result<Hash, Error> {
    if !s.VariantMatches() then Failure(InvalidShredVariant) else
      var index :- ErasureShardIndex(s);
      var proof :- MerkleProof(s);
      var node :- MerkleNode(h, s);
      GetMerkleRoot(h, index, node, proof)
  }

  /** What every shred the crate constructs keeps: the variant of its kind and a payload of full size. */
  predicate WellSized(s: Shred) {
    s.VariantMatches() && |s.payload| == SizeOfPayload(s.Type())
  }

  function ErasureShard(s: Shred): (r: Result<Bytes, Error>)
    ensures r.Success? <==> WellSized(s)
    ensures r.Success? ==> |r.value| == ChainedRootOffset(s.common.variant) - ErasureShardStart(s.Type())
  {
    if |s.payload| != SizeOfPayload(s.Type()) then Failure(InvalidPayloadSize(|s.payload|))
    else if !s.VariantMatches() then Failure(InvalidShredVariant)
    else Slice(s.payload, ErasureShardStart(s.Type()), ChainedRootOffset(s.common.variant))
  }

  function GetData(shred: Bytes, v: ShredVariant, size: nat): Result<Bytes, Error>
    requires v.MerkleData?
  {
    if SizeOfHeaders(Data) <= size <= SizeOfHeaders(Data) + DataCapacity(v) && size <= |shred|
    then Success(shred[SizeOfHeaders(Data)..size])
    else Failure(InvalidDataSize(size, |shred|))
  }

  function Parent(s: Shred): Result<u64, Error>
    requires s.ShredData?
  {
    var slot, parentOffset := s.common.slot, s.data.parentOffset;
    if (parentOffset == 0 && slot != 0) || parentOffset > slot
    then Failure(InvalidParentOffset(slot, parentOffset))
    else Success(slot - parentOffset)
  }

  // ----- Sanitization and parsing -----

  /** Bit 7 without bit 6: LAST_SHRED_IN_SLOT intersects the flags but DATA_COMPLETE_SHRED is not in them. */
  predicate LastWithoutComplete(flags: byte) {
    flags / 64 == 2
  }

  function Sanitize(s: Shred): Checked {
    if !s.VariantMatches() then Failure(InvalidShredVariant) else
      var _ :- MerkleProof(s);
      if |s.payload| != SizeOfPayload(s.Type()) then Failure(InvalidPayloadSize(|s.payload|)) else
        match s
        case ShredData(common, data, payload) =>
          if common.index >= MAX_DATA_SHREDS_PER_SLOT then Failure(InvalidShredIndex(common.index))
          else if LastWithoutComplete(data.flags) then Failure(InvalidShredFlags(data.flags))
          else
            var _ :- GetData(payload, common.variant, data.size);
            var _ :- Parent(s);
            var _ :- ErasureShardIndex(s);
            var _ :- ErasureShard(s);
            Success(())
        case ShredCode(common, coding, _) =>
          if common.index >= MAX_CODE_SHREDS_PER_SLOT then Failure(InvalidShredIndex(common.index))
          else if coding.numCodingShreds > 8 * DATA_SHREDS_PER_FEC_BLOCK
          then Failure(InvalidNumCodingShreds(coding.numCodingShreds))
          else
            var _ :- ErasureShardIndex(s);
            var _ :- ErasureShard(s);
            Success(())
  }

  function GetShredVariant(shred: Bytes): Result<ShredVariant, Error> {
    if |shred| <= 64 then Failure(InvalidPayloadSize(|shred|)) else VariantFromByte(shred[64])
  }

  function CodeFromPayload(b: Bytes): Result<Shred, Error> {
    var (common, coding) :- DecodeCodingHeaders(b);
    if !common.variant.MerkleCode? then Failure(InvalidShredVariant)
    else if |b| < SizeOfPayload(Code) then Failure(InvalidPayloadSize(|b|))
    else
      var shred := ShredCode(common, coding, b[..SizeOfPayload(Code)]);
      var _ :- Sanitize(shred);
      Success(shred)
  }

  function DataFromPayload(b: Bytes): Result<Shred, Error> {
    if |b| < SizeOfPayload(Data) then Failure(InvalidPayloadSize(|b|)) else
      var (common, data) :- DecodeDataHeaders(b[..SizeOfPayload(Data)]);
      if !common.variant.MerkleData? then Failure(InvalidShredVariant) else
        var shred := ShredData(common, data, b[..SizeOfPayload(Data)]);
        var _ :- Sanitize(shred);
        Success(shred)
  }

  /** `Shred::new_from_serialized_shred`, and `merkle::Shred::from_payload`. */
  function FromPayload(b: Bytes): Result<Shred, Error> {
    var variant :- GetShredVariant(b);
    if variant.MerkleCode? then CodeFromPayload(b) else DataFromPayload(b)
  }

  function EncodedHeaders(s: Shred): (b: Bytes)
    ensures |b| == SizeOfHeaders(s.Type())
  {
    match s
    case ShredCode(common, coding, _) => EncodeCommonHeader(common) + EncodeCodingHeader(coding)
    case ShredData(common, data, _) => EncodeCommonHeader(common) + EncodeDataHeader(data)
  }

  /** The parsed headers are those the payload holds. */
  predicate HeadersInPayload(s: Shred) {
    |s.payload| >= SizeOfHeaders(s.Type()) && s.payload[..SizeOfHeaders(s.Type())] == EncodedHeaders(s)
  }

  lemma VariantByteIsRead(b: Bytes, c: ShredCommonHeader, rest: Bytes)
    requires |b| >= SIZE_OF_COMMON_SHRED_HEADER + |rest|
    requires b[..SIZE_OF_COMMON_SHRED_HEADER + |rest|] == EncodeCommonHeader(c) + rest
    ensures GetShredVariant(b) == Success(c.variant)
  {
    assert b[64] == (EncodeCommonHeader(c) + rest)[64] == VariantToByte(c.variant);
    VariantBytesAreExact(c.variant, b[64]);
  }

  /** A payload parses to a given shred exactly if it is that shred's full payload, headers included, and sane. */
  lemma FromPayloadExact(b: Bytes, s: Shred)
    ensures FromPayload(b) == Success(s) <==>
            && WellSized(s) && HeadersInPayload(s) && Sanitize(s).Success?
            && |b| >= |s.payload| && b[..|s.payload|] == s.payload
  {
    var size := SizeOfPayload(s.Type());
    if |b| >= size {
      var full := b[..size];
      match s
      case ShredCode(common, coding, payload) =>
        CodingHeadersExact(b, common, coding);
        assert full[..89] == b[..89];
        if b[..89] == EncodedHeaders(s) {
          VariantByteIsRead(b, common, EncodeCodingHeader(coding));
        }
      case ShredData(common, data, payload) =>
        DataHeadersExact(full, common, data);
        assert full[..88] == b[..88];
        if b[..88] == EncodedHeaders(s) {
          VariantByteIsRead(b, common, EncodeDataHeader(data));
        }
    }
  }
}
