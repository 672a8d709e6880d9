/** Which buffers parse and what is read from them, in byte positions and numbers (src/merkle.rs, src/shred_*.rs). */
module ParseTheorems {
  import opened Wrappers
  import opened Bytes
  import opened Errors
  import opened Headers
  import opened MerkleTree
  import opened TreeInBytes
  import opened Shreds
  import opened RecoveryTheorems
  import opened Wire

  // ----- Fields -----

  /** The little-endian integer of `w` bytes at a position. */
  function Le(b: Bytes, at: nat, w: nat): (n: nat)
    requires at + w <= |b|
    ensures n < Pow256(w)
  {
    ToLeFromLe(b[at..at + w]);
    FromLe(b[at..at + w])
  }

  /** A byte weighs 256 times as much as the one before it. */
  lemma {:induction false} LaterBytesWeighMore(b: Bytes, x: byte)
    ensures FromLe([]) == 0 && FromLe(b + [x]) == FromLe(b) + x * Pow256(|b|)
  {
    if b == [] {
      assert [] + [x] == [x];
    } else {
      var p := Pow256(|b| - 1);
      assert (b + [x])[1..] == b[1..] + [x];
      LaterBytesWeighMore(b[1..], x);
      assert 256 * (x * p) == x * (256 * p);
    }
  }

  /** The byte that stands for a variant. */
  function VariantCode(v: ShredVariant): nat {
    v.proofSize + (match v case MerkleCode(_, resigned) => (if resigned then 0x70 else 0x60)
                           case MerkleData(_, resigned) => (if resigned then 0xb0 else 0x90))
  }

  /** A buffer has the variant whose code is its byte 64, if it has one. */
  lemma VariantIsByte64(b: Bytes, v: ShredVariant)
    ensures GetShredVariant(b) == Success(v) <==> |b| > 64 && b[64] == VariantCode(v)
    ensures GetShredVariant(b).Success? <==> |b| > 64 && b[64] / 16 in {0x6, 0x7, 0x9, 0xb}
  {
    if |b| > 64 {
      VariantBytesAreExact(v, b[64]);
    }
  }

  /** Every raw reader reads the little-endian field at its position, and nothing if the buffer ends before. */
  lemma RawFieldsStandAt(p: Bytes)
    ensures GetSignature(p) == if |p| >= 64 then Some(p[..64]) else None
    ensures GetSlot(p) == if |p| >= 73 then Some(Le(p, 65, 8)) else None
    ensures GetIndex(p) == if |p| >= 77 then Some(Le(p, 73, 4)) else None
    ensures GetVersion(p) == if |p| >= 79 then Some(Le(p, 77, 2)) else None
    ensures GetFecSetIndex(p) == if |p| >= 83 then Some(Le(p, 79, 4)) else None
    ensures GetParentOffset(p) == if |p| >= 85 then Some(Le(p, 83, 2)) else None
  {
  }

  /** The same for the readers that look at the kind of shred first. */
  lemma RawTypedFieldsStandAt(p: Bytes)
    requires GetShredVariant(p).Success?
    ensures var code, short := GetShredVariant(p).value.MerkleCode?, InvalidPayloadSize(|p|);
            && GetDataSize(p) == (if |p| >= 88 then Success(Le(p, 86, 2)) else Failure(short))
            && GetFlags(p) == (if code then Failure(InvalidShredType)
                               else if |p| > 85 then Success(p[85]) else Failure(short))
            && GetErasureConfig(p) == (if !code then Failure(InvalidShredType)
                                       else if |p| >= 87 then Success(ErasureConfig(Le(p, 83, 2), Le(p, 85, 2)))
                                       else Failure(short))
            && GetShredId(p) == (if |p| < 77 then None
                                 else Some(ShredId(Le(p, 65, 8), Le(p, 73, 4), if code then Code else Data)))
  {
    RawFieldsStandAt(p);
  }

  predicate CommonHeaderIsAt(p: Bytes, c: ShredCommonHeader)
    requires |p| >= 83
  {
    && c.signature == p[..64] && p[64] == VariantCode(c.variant)
    && c.slot == Le(p, 65, 8) && c.index == Le(p, 73, 4) && c.version == Le(p, 77, 2) && c.fecSetIndex == Le(p, 79, 4)
  }

  lemma CommonHeaderStandsAt(p: Bytes, c: ShredCommonHeader)
    requires |p| >= 83
    ensures DecodeCommonHeader(p) == Success(c) <==> CommonHeaderIsAt(p, c)
  {
    VariantIsByte64(p, c.variant);
  }

  predicate DataHeaderIsAt(p: Bytes, d: DataShredHeader)
    requires |p| >= 88
  {
    d.parentOffset == Le(p, 83, 2) && d.flags == p[85] && d.size == Le(p, 86, 2)
  }

  predicate CodingHeaderIsAt(p: Bytes, d: CodingShredHeader)
    requires |p| >= 89
  {
    d.numDataShreds == Le(p, 83, 2) && d.numCodingShreds == Le(p, 85, 2) && d.position == Le(p, 87, 2)
  }

  lemma DataHeadersStandAt(p: Bytes, c: ShredCommonHeader, d: DataShredHeader)
    requires |p| >= 88
    ensures DecodeDataHeaders(p) == Success((c, d)) <==> CommonHeaderIsAt(p, c) && DataHeaderIsAt(p, d)
  {
    CommonHeaderStandsAt(p, c);
  }

  lemma CodingHeadersStandAt(p: Bytes, c: ShredCommonHeader, d: CodingShredHeader)
    requires |p| >= 89
    ensures DecodeCodingHeaders(p) == Success((c, d)) <==> CommonHeaderIsAt(p, c) && CodingHeaderIsAt(p, d)
  {
    CommonHeaderStandsAt(p, c);
  }

  /** The headers of a shred are in its payload exactly if each field stands at its position. */
  predicate HeadersAreAt(s: Shred)
    requires |s.payload| >= 89
  {
    && CommonHeaderIsAt(s.payload, s.common)
    && (if s.ShredData? then DataHeaderIsAt(s.payload, s.data) else CodingHeaderIsAt(s.payload, s.coding))
  }

  lemma HeadersStandAt(s: Shred)
    requires |s.payload| >= 89
    ensures HeadersInPayload(s) <==> HeadersAreAt(s)
  {
    match s
    case ShredData(common, data, p) =>
      DataHeadersExact(p, common, data);
      DataHeadersStandAt(p, common, data);
    case ShredCode(common, coding, p) =>
      CodingHeadersExact(p, common, coding);
      CodingHeadersStandAt(p, common, coding);
  }

  // ----- Layout -----

  /** How many bytes the payload of a kind has. */
  function FullSize(t: ShredType): nat {
    match t case Data => 1203 case Code => 1228
  }

  function TrailerSize(v: ShredVariant): nat {
    20 * v.proofSize + if v.resigned then 64 else 0
  }

  /** Where the bytes that erasure coding covers end: the chained root, the proof and a signature follow. */
  function CodedEnd(v: ShredVariant): nat {
    FullSize(v.Type()) - 32 - TrailerSize(v)
  }

  lemma LayoutInNumbers(v: ShredVariant)
    ensures SizeOfPayload(v.Type()) == FullSize(v.Type())
    ensures ChainedRootOffset(v) == CodedEnd(v) && ProofOffset(v) == CodedEnd(v) + 32
    ensures RetransmitterOffset(v) == FullSize(v.Type()) - if v.resigned then 64 else 0
    ensures DataCapacity(v) == CodedEnd(v) - match v.Type() case Data => 88 case Code => 89
    ensures CodedEnd(v) > 89
  {
  }

  /** What every reader of a full shred returns: which bytes, counted from the front or the back of the payload. */
  lemma ReadersReadAt(h: Hasher, s: Shred)
    requires WellSized(s)
    ensures |s.payload| == FullSize(s.Type())
    ensures var v, p := s.common.variant, s.payload;
            && ErasureShard(s) == Success(p[match s.Type() case Data => 64 case Code => 89..CodedEnd(v)])
            && ChainedMerkleRoot(s) == Success(p[CodedEnd(v)..CodedEnd(v) + 32])
            && MerkleNode(h, s) == Success(h(LeafTag() + p[64..CodedEnd(v) + 32]))
            && RetransmitterSignature(s)
            == (if v.resigned then Success(p[|p| - 64..]) else Failure(InvalidShredVariant))
  {
    var v, p := s.common.variant, s.payload;
    LayoutInNumbers(v);
    PreimagesSpelled(p[64..CodedEnd(v) + 32], Zeros(20), Zeros(20));
    assert p[|p| - 64..|p|] == p[|p| - 64..];
  }

  lemma {:induction false} ChunkAt(b: Bytes, k: nat)
    requires |b| % 20 == 0 && 20 * k + 20 <= |b|
    ensures |Chunks(b)| == |b| / 20
    ensures Chunks(b)[k] == b[20 * k..20 * k + 20]
  {
    FlattenChunks(b);
    if k > 0 {
      ChunkAt(b[20..], k - 1);
      SliceOfSlice(b, 20, |b|, 20 * (k - 1), 20 * k);
      assert b[20..|b|] == b[20..];
    }
  }

  /** Entry `k` of a proof stands `k` entries behind the chained root. */
  lemma ProofEntryReadsAt(s: Shred, k: nat)
    requires WellSized(s) && k < s.common.variant.proofSize
    ensures var v := s.common.variant;
            var at := CodedEnd(v) + 32 + 20 * k;
            && at + 20 <= |s.payload| && MerkleProof(s).Success? && |MerkleProof(s).value| == v.proofSize
            && MerkleProof(s).value[k] == s.payload[at..at + 20]
  {
    var v := s.common.variant;
    var lo, hi := CodedEnd(v) + 32, CodedEnd(v) + 32 + 20 * v.proofSize;
    LayoutInNumbers(v);
    ChunkAt(s.payload[lo..hi], k);
    SliceOfSlice(s.payload, lo, hi, 20 * k, 20 * k + 20);
  }

  /** Readers fail on a variant of the other kind, and on a payload that ends before what they read. */
  lemma ReadersFailExactly(h: Hasher, s: Shred)
    ensures s.common.variant.Type() != s.Type() ==>
              && ChainedMerkleRoot(s) == MerkleNode(h, s) == RetransmitterSignature(s) == Failure(InvalidShredVariant)
              && MerkleProof(s) == Failure(InvalidShredVariant) && ErasureShard(s).Failure?
    ensures s.common.variant.Type() == s.Type() ==>
              var v, size := s.common.variant, |s.payload|;
              && ChainedMerkleRoot(s).Success? == MerkleNode(h, s).Success? == (size >= CodedEnd(v) + 32)
              && MerkleProof(s).Success? == (size >= CodedEnd(v) + 32 + 20 * v.proofSize)
              && RetransmitterSignature(s).Success? == (v.resigned && size >= FullSize(v.Type()))
              && ErasureShard(s).Success? == (size == FullSize(v.Type()))
              && (ChainedMerkleRoot(s).Failure? ==> ChainedMerkleRoot(s).error == InvalidPayloadSize(size))
              && (MerkleNode(h, s).Failure? ==> MerkleNode(h, s).error == InvalidPayloadSize(size))
              && (MerkleProof(s).Failure? ==> MerkleProof(s).error == InvalidPayloadSize(size))
              && (RetransmitterSignature(s).Failure? ==>
                    RetransmitterSignature(s).error
                    == if v.resigned then InvalidPayloadSize(size) else InvalidShredVariant)
    ensures |s.payload| != FullSize(s.Type()) ==> ErasureShard(s) == Failure(InvalidPayloadSize(|s.payload|))
    ensures |s.payload| == FullSize(s.Type()) && s.common.variant.Type() != s.Type() ==>
              ErasureShard(s) == Failure(InvalidShredVariant)
  {
    LayoutInNumbers(s.common.variant);
  }

  /** So do the setters, on whose errors nothing is written. */
  lemma SettersFailExactly(s: Shred, root: Hash, signature: Signature, run: Result<seq<MerkleProofEntry>, Error>)
    ensures var v, size, fits := s.common.variant, |s.payload|, s.common.variant.Type() == s.Type();
            && Setters.SetChainedMerkleRoot(s, root).Success? == (fits && size >= CodedEnd(v) + 32)
            && Setters.SetRetransmitterSignature(s, signature).Success?
            == (fits && v.resigned && size >= FullSize(v.Type()))
            && (Setters.SetChainedMerkleRoot(s, root).Failure? ==>
                  Setters.SetChainedMerkleRoot(s, root).error
                  == if fits then InvalidPayloadSize(size) else InvalidShredVariant)
            && (Setters.SetRetransmitterSignature(s, signature).Failure? ==>
                  Setters.SetRetransmitterSignature(s, signature).error
                  == if fits && v.resigned then InvalidPayloadSize(size) else InvalidShredVariant)
    ensures s.common.variant.Type() != s.Type() ==> Setters.SetMerkleProof(s, run) == Failure(InvalidShredVariant)
    ensures WellSized(s) ==>
              && Setters.SetMerkleProof(s, run).Success? == (run.Success? && |run.value| == s.common.variant.proofSize)
              && (Setters.SetMerkleProof(s, run).Failure? ==>
                    Setters.SetMerkleProof(s, run).error == InvalidMerkleProof)
  {
    LayoutInNumbers(s.common.variant);
  }

  /** The raw readers of the trailers, on any buffer with a variant. */
  lemma RawTrailersStandAt(b: Bytes, v: ShredVariant, signature: Signature)
    requires GetShredVariant(b) == Success(v)
    ensures GetChainedMerkleRoot(b)
         == if |b| >= CodedEnd(v) + 32 then Some(b[CodedEnd(v)..CodedEnd(v) + 32]) else None
    ensures !v.resigned ==> GetRetransmitterSignature(b) == Failure(InvalidShredVariant)
    ensures !v.resigned ==> BufWithRetransmitterSignature(b, signature) == Failure(InvalidShredVariant)
    ensures v.resigned ==>
              var end := FullSize(v.Type());
              && GetRetransmitterSignature(b)
              == (if |b| >= end then Success(b[end - 64..end]) else Failure(InvalidPayloadSize(|b|)))
              && BufWithRetransmitterSignature(b, signature)
              == (if |b| >= end then Success(b[..end - 64] + signature + b[end..])
                  else Failure(InvalidPayloadSize(|b|)))
  {
    LayoutInNumbers(v);
  }

  lemma RawReadersNeedVariant(h: Hasher, b: Bytes, signature: Signature)
    requires GetShredVariant(b).Failure?
    ensures GetShredVariant(b).error == if |b| <= 64 then InvalidPayloadSize(|b|) else InvalidShredVariant
    ensures GetShredFromBuf(b).None? && GetMerkleRootFromBuf(h, b).None? && GetChainedMerkleRoot(b).None?
    ensures GetShredId(b).None?
    ensures GetRetransmitterSignature(b) == BufWithRetransmitterSignature(b, signature)
         == Failure(GetShredVariant(b).error)
  {
  }

  /** The raw Merkle index is a difference for data and a sum for code, with no bound but that of subtraction. */
  lemma RawIndexStandsAt(b: Bytes, v: ShredVariant)
    requires |b| >= 89
    ensures v.MerkleData? ==>
              GetMerkleIndex(b, v) == if Le(b, 79, 4) <= Le(b, 73, 4) then Some(Le(b, 73, 4) - Le(b, 79, 4)) else None
    ensures v.MerkleCode? ==> GetMerkleIndex(b, v) == Some(Le(b, 83, 2) + Le(b, 87, 2))
  {
    RawFieldsStandAt(b);
  }

  /** The raw Merkle root folds the leaf with the proof at the raw index, whether or not the shred is sane. */
  lemma RawRootExactly(h: Hasher, s: Shred)
    requires WellSized(s) && HeadersInPayload(s)
    ensures MerkleNode(h, s).Success? && MerkleProof(s).Success?
    ensures GetMerkleRootFromBuf(h, s.payload)
         == match GetMerkleIndex(s.payload, s.common.variant)
            case None => None
            case Some(i) => GetMerkleRoot(h, i, MerkleNode(h, s).value, MerkleProof(s).value).ToOption()
  {
    RawHeadersAgree(s);
    LayoutInNumbers(s.common.variant);
    ReadersReadAt(h, s);
    MerkleProofOfWellSized(s);
  }

  // ----- Sanitization -----

  /** The erasure shard index of any shred: a place in its set, if the set's indices are in bounds. */
  lemma ErasureShardIndexExactly(s: Shred)
    ensures ErasureShardIndex(s).Failure? ==> ErasureShardIndex(s).error == InvalidErasureShardIndex
    ensures s.ShredData? ==>
              ErasureShardIndex(s).ToOption()
              == if s.common.fecSetIndex <= s.common.index then Some(s.common.index - s.common.fecSetIndex) else None
    ensures s.ShredCode? ==>
              var c, d := s.common, s.coding;
              ErasureShardIndex(s).ToOption()
              == if 1 <= d.numDataShreds && c.fecSetIndex + d.numDataShreds <= 32768 && d.position <= c.index
                    && d.position < d.numCodingShreds && c.index - d.position + d.numCodingShreds <= 32768
                 then Some(d.numDataShreds + d.position) else None
  {
  }

  /** A shred of another kind or size than its variant and kind say is refused first. */
  lemma MisfitFaults(s: Shred)
    ensures s.common.variant.Type() != s.Type() ==> Sanitize(s) == Failure(InvalidShredVariant)
    ensures s.common.variant.Type() == s.Type() && |s.payload| != FullSize(s.Type()) ==>
              Sanitize(s) == Failure(InvalidPayloadSize(|s.payload|))
  {
    LayoutInNumbers(s.common.variant);
  }

  predicate HasSaneIndices(s: Shred) {
    && s.common.index < 32768
    && (match s
        case ShredData(common, _, _) => common.fecSetIndex <= common.index
        case ShredCode(common, coding, _) =>
          && 1 <= coding.numCodingShreds <= 256 && 1 <= coding.numDataShreds && coding.position < coding.numCodingShreds
          && coding.position <= common.index && common.fecSetIndex + coding.numDataShreds <= 32768
          && common.index - coding.position + coding.numCodingShreds <= 32768)
  }

  predicate HasSaneData(s: Shred)
    requires s.ShredData?
  {
    && !(s.data.flags / 128 == 1 && s.data.flags / 64 % 2 == 0)
    && 88 <= s.data.size <= CodedEnd(s.common.variant)
    && (0 < s.data.parentOffset <= s.common.slot || (s.data.parentOffset == 0 && s.common.slot == 0))
  }

  /** A full shred is sane exactly if its indices, flags, data size and parent are within these bounds. */
  lemma SaneExactly(s: Shred)
    requires WellSized(s)
    ensures Sanitize(s).Success? <==> HasSaneIndices(s) && (s.ShredData? ==> HasSaneData(s))
  {
    LayoutInNumbers(s.common.variant);
    MerkleProofOfWellSized(s);
  }

  /** The first fault of a full data shred, in the order in which the faults are looked for. */
  lemma DataFaults(s: Shred)
    requires WellSized(s) && s.ShredData?
    ensures var r, c, d := Sanitize(s), s.common, s.data;
            var flagged := d.flags / 128 == 1 && d.flags / 64 % 2 == 0;
            var sized := 88 <= d.size <= CodedEnd(c.variant);
            var parented := 0 < d.parentOffset <= c.slot || (d.parentOffset == 0 && c.slot == 0);
            && (r == Failure(InvalidShredIndex(c.index)) <==> c.index >= 32768)
            && (r == Failure(InvalidShredFlags(d.flags)) <==> c.index < 32768 && flagged)
            && (r == Failure(InvalidDataSize(d.size, 1203)) <==> c.index < 32768 && !flagged && !sized)
            && (r == Failure(InvalidParentOffset(c.slot, d.parentOffset)) <==>
                c.index < 32768 && !flagged && sized && !parented)
            && (r == Failure(InvalidErasureShardIndex) <==>
                c.index < 32768 && !flagged && sized && parented && c.index < c.fecSetIndex)
  {
    LayoutInNumbers(s.common.variant);
    MerkleProofOfWellSized(s);
  }

  lemma CodeFaults(s: Shred)
    requires WellSized(s) && s.ShredCode?
    ensures var r, c, d := Sanitize(s), s.common, s.coding;
            && (r == Failure(InvalidShredIndex(c.index)) <==> c.index >= 32768)
            && (r == Failure(InvalidNumCodingShreds(d.numCodingShreds)) <==>
                c.index < 32768 && d.numCodingShreds > 256)
            && (r == Failure(InvalidErasureShardIndex) <==>
                c.index < 32768 && d.numCodingShreds <= 256 && !HasSaneIndices(s))
  {
    LayoutInNumbers(s.common.variant);
    MerkleProofOfWellSized(s);
  }

  /** What is derived from the headers of a sane shred. */
  lemma SaneIndices(s: Shred)
    requires WellSized(s) && Sanitize(s).Success?
    ensures s.ShredData? ==> ErasureShardIndex(s) == Success(s.common.index - s.common.fecSetIndex)
    ensures s.ShredData? ==> Parent(s).Success? && Parent(s).value + s.data.parentOffset == s.common.slot
    ensures s.ShredCode? ==> ErasureShardIndex(s) == Success(s.coding.numDataShreds + s.coding.position)
    ensures s.ShredCode? ==>
              FirstCodingIndex(s).Some? && FirstCodingIndex(s).value + s.coding.position == s.common.index
  {
    SaneExactly(s);
  }

  // ----- Parsing -----

  /**
    * A buffer parses to a given shred exactly if it begins with the shred's payload, which is as long as its kind
    * demands and has every header field at its position, and the fields are within bounds.
    */
  lemma ParsesExactly(b: Bytes, s: Shred)
    ensures FromPayload(b) == Success(s) <==>
            && |s.payload| == FullSize(s.Type()) <= |b| && b[..|s.payload|] == s.payload
            && HeadersAreAt(s) && s.common.variant.Type() == s.Type()
            && HasSaneIndices(s) && (s.ShredData? ==> HasSaneData(s))
  {
    FromPayloadExact(b, s);
    LayoutInNumbers(s.common.variant);
    if |s.payload| == FullSize(s.Type()) && s.common.variant.Type() == s.Type() {
      HeadersStandAt(s);
      SaneExactly(s);
    }
  }

  /** Why a buffer does not parse, apart from the faults of its shred: too short, or without a variant. */
  lemma ParseFaults(b: Bytes)
    ensures |b| <= 64 ==> FromPayload(b) == Failure(InvalidPayloadSize(|b|))
    ensures |b| > 64 && b[64] / 16 !in {0x6, 0x7, 0x9, 0xb} ==> FromPayload(b) == Failure(InvalidShredVariant)
    ensures 64 < |b| < 89 && b[64] / 16 in {0x6, 0x7} ==> FromPayload(b) == Failure(WincodeRead)
    ensures 89 <= |b| < 1228 && b[64] / 16 in {0x6, 0x7} ==> FromPayload(b) == Failure(InvalidPayloadSize(|b|))
    ensures 64 < |b| < 1203 && b[64] / 16 in {0x9, 0xb} ==> FromPayload(b) == Failure(InvalidPayloadSize(|b|))
  {
    LayoutInNumbers(MerkleCode(0, false));
    LayoutInNumbers(MerkleData(0, false));
  }

  /** A buffer that is long enough and has a variant fails to parse only with the fault of the shred it holds. */
  lemma FullBufferFaults(b: Bytes) returns (s: Shred)
    requires |b| > 64 && b[64] / 16 in {0x6, 0x7, 0x9, 0xb}
    requires |b| >= if b[64] / 16 in {0x6, 0x7} then 1228 else 1203
    ensures WellSized(s) && HeadersInPayload(s) && |s.payload| <= |b| && b[..|s.payload|] == s.payload
    ensures FromPayload(b) == if Sanitize(s).Success? then Success(s) else Failure(Sanitize(s).error)
  {
    var v := GetShredVariant(b).value;
    LayoutInNumbers(v);
    var full := b[..SizeOfPayload(v.Type())];
    assert full[64] == b[64];
    if v.MerkleCode? {
      s := ShredCode(DecodeCodingHeaders(b).value.0, DecodeCodingHeaders(b).value.1, full);
      CodingHeadersExact(b, s.common, s.coding);
      assert full[..89] == b[..89];
    } else {
      s := ShredData(DecodeDataHeaders(full).value.0, DecodeDataHeaders(full).value.1, full);
      DataHeadersExact(full, s.common, s.data);
    }
  }

  // ----- Data -----

  /** Reading data succeeds exactly on sizes between the headers and the end of the coded bytes that the buffer has. */
  lemma DataReadExactly(b: Bytes, v: ShredVariant, size: nat)
    requires v.MerkleData?
    ensures GetData(b, v, size) == if 88 <= size <= CodedEnd(v) && size <= |b| then Success(b[88..size])
                                   else Failure(InvalidDataSize(size, |b|))
  {
    LayoutInNumbers(v);
  }

  /** When the data of a raw buffer cannot be read, and what it is otherwise. */
  lemma RawDataReadExactly(b: Bytes)
    ensures |b| <= 64 ==> GetDataFromBuf(b) == Failure(InvalidPayloadSize(|b|))
    ensures |b| > 64 && b[64] / 16 !in {0x6, 0x7, 0x9, 0xb} ==> GetDataFromBuf(b) == Failure(InvalidShredVariant)
    ensures |b| > 64 && b[64] / 16 in {0x6, 0x7} ==> GetDataFromBuf(b) == Failure(InvalidShredType)
    ensures 64 < |b| < 88 && b[64] / 16 in {0x9, 0xb} ==> GetDataFromBuf(b) == Failure(InvalidPayloadSize(|b|))
    ensures |b| >= 88 && b[64] / 16 in {0x9, 0xb} ==>
              var size, entries: nat := Le(b, 86, 2), b[64] % 16;
              var end := 1203 - 32 - 20 * entries - if b[64] / 16 == 0xb then 64 else 0;
              GetDataFromBuf(b) == if 88 <= size <= end && size <= |b| then Success(b[88..size])
                                   else Failure(InvalidDataSize(size, |b|))
  {
    if |b| > 64 && b[64] / 16 in {0x9, 0xb} {
      var v := MerkleData(b[64] % 16, b[64] / 16 == 0xb);
      VariantIsByte64(b, v);
      if |b| >= 88 {
        DataReadExactly(b, v, Le(b, 86, 2));
      }
    }
  }

  /** The data of a parsed data shred is what follows its headers, up to the size they name. */
  lemma DataFollowsHeaders(b: Bytes, s: Shred)
    requires FromPayload(b) == Success(s) && s.ShredData?
    ensures 88 <= s.data.size <= |s.payload| && GetDataFromBuf(s.payload).Success?
    ensures var data := GetDataFromBuf(s.payload).value;
            |data| == s.data.size - 88 && EncodedHeaders(s) + data == s.payload[..s.data.size]
  {
    RawReadersAgree(_ => Zeros(32), b, s);
    FromPayloadExact(b, s);
    ParsesExactly(b, s);
    LayoutInNumbers(s.common.variant);
    DataReadExactly(s.payload, s.common.variant, s.data.size);
    assert s.payload[..s.data.size] == s.payload[..88] + s.payload[88..s.data.size];
  }

  // ----- Duplicates -----

  lemma SamePrefixExactly(a: Bytes, b: Bytes, cut: nat)
    requires cut <= |a| == |b|
    ensures a[..cut] != b[..cut] <==> exists i :: 0 <= i < cut && a[i] != b[i]
  {
    if forall i :: 0 <= i < cut ==> a[i] == b[i] {
      assert a[..cut] == b[..cut];
    } else {
      var i :| 0 <= i < cut && a[i] != b[i];
      assert a[..cut][i] != b[..cut][i];
    }
  }

  /** Two parsed shreds of one id are duplicates exactly if a byte before the retransmitter's signature differs. */
  lemma DuplicatesExactly(a: Shred, b: Shred)
    requires WellSized(a) && WellSized(b) && HeadersInPayload(a) && HeadersInPayload(b)
    ensures Id(a) != Id(b) <==>
            a.common.slot != b.common.slot || a.common.index != b.common.index || a.Type() != b.Type()
    ensures Id(a) != Id(b) ==> !IsShredDuplicate(a, b)
    ensures Id(a) == Id(b) ==> |a.payload| == |b.payload|
    ensures Id(a) == Id(b) ==>
              (IsShredDuplicate(a, b) <==>
               exists i :: 0 <= i < |a.payload| - (if a.common.variant.resigned then 64 else 0)
                           && a.payload[i] != b.payload[i])
  {
    LayoutInNumbers(a.common.variant);
    LayoutInNumbers(b.common.variant);
    HeadersStandAt(a);
    HeadersStandAt(b);
    if Id(a) == Id(b) {
      var cut := |a.payload| - (if a.common.variant.resigned then 64 else 0);
      assert ComparedPayload(a) == a.payload[..cut];
      if a.common.variant == b.common.variant {
        assert ComparedPayload(b) == b.payload[..cut];
        SamePrefixExactly(a.payload, b.payload, cut);
      } else {
        assert ComparedPayload(a)[64] == a.payload[64] && ComparedPayload(b)[64] == b.payload[64];
        assert a.payload[64] != b.payload[64];
      }
    }
  }
}
