/** What each setter of a shred computes, what it reads back and what it leaves alone (src/merkle.rs:322-443). */
module Setters {
  import opened Wrappers
  import opened Bytes
  import opened Errors
  import opened Headers
  import opened MerkleTree
  import opened Shreds

  /** The shred with a stretch of its payload overwritten. */
  function Overwrite(s: Shred, at: nat, b: Bytes): Shred
    requires at + |b| <= |s.payload|
  {
    s.(payload := Splice(s.payload, at, b))
  }

  function SetSignature(s: Shred, signature: Signature): Shred
    requires |s.payload| >= SIZE_OF_SIGNATURE
  {
    Overwrite(s, 0, signature).(common := s.common.(signature := signature))
  }

  function SetChainedMerkleRoot(s: Shred, root: Hash): Result<Shred, Error> {
    if !s.VariantMatches() then Failure(InvalidShredVariant) else
      var at := ChainedRootOffset(s.common.variant);
      if at + |root| <= |s.payload| then Success(Overwrite(s, at, root)) else Failure(InvalidPayloadSize(|s.payload|))
  }

  function SetRetransmitterSignature(s: Shred, signature: Signature): Result<Shred, Error> {
    if !s.VariantMatches() || !s.common.variant.resigned then Failure(InvalidShredVariant) else
      var at := RetransmitterOffset(s.common.variant);
      if at + |signature| <= |s.payload| then Success(Overwrite(s, at, signature))
      else Failure(InvalidPayloadSize(|s.payload|))
  }

  /** `run` is what the proof iterator yields; a proof of any other length is refused. */
  function SetMerkleProof(s: Shred, run: Result<seq<MerkleProofEntry>, Error>): Result<Shred, Error>
    requires s.VariantMatches() ==> RetransmitterOffset(s.common.variant) <= |s.payload|
  {
    if !s.VariantMatches() then Failure(InvalidShredVariant)
    else if run.Failure? || |run.value| != s.common.variant.proofSize then Failure(InvalidMerkleProof)
    else Success(Overwrite(s, ProofOffset(s.common.variant), Flatten(run.value)))
  }

  function ErasureShardLength(s: Shred): nat
    requires WellSized(s)
  {
    ChainedRootOffset(s.common.variant) - ErasureShardStart(s.Type())
  }

  /** Reconstruction writes the recovered bytes through the guard of `erasure_shard_mut`. */
  function SetErasureShard(s: Shred, shard: Bytes): Shred
    requires WellSized(s) && |shard| == ErasureShardLength(s)
  {
    Overwrite(s, ErasureShardStart(s.Type()), shard)
  }

  // ----- Reading back and framing -----

  /** Sanitization looks at the headers and the payload size only. */
  lemma SanitizeIgnoresPayload(s: Shred, t: Shred)
    requires WellSized(s) && WellSized(t) && t == s.(payload := t.payload)
    ensures Sanitize(s).Success? <==> Sanitize(t).Success?
  {
  }

  /** Two payloads of one size that differ at most from `lo` to `hi`. */
  predicate AgreeOutside(a: Bytes, b: Bytes, lo: nat, hi: nat) {
    |a| == |b| && lo <= hi <= |a| && a[..lo] == b[..lo] && a[hi..] == b[hi..]
  }

  lemma OverwriteAgreesOutside(s: Shred, at: nat, b: Bytes)
    requires at + |b| <= |s.payload|
    ensures AgreeOutside(s.payload, Overwrite(s, at, b).payload, at, at + |b|)
  {
  }

  /** A stretch outside the differing one is the same in both. */
  lemma AgreeingSlice(a: Bytes, b: Bytes, lo: nat, hi: nat, i: nat, j: nat)
    requires AgreeOutside(a, b, lo, hi) && i <= j <= |a| && (j <= lo || hi <= i)
    ensures a[i..j] == b[i..j]
  {
    if j <= lo {
      assert a[..lo][i..j] == a[i..j] && b[..lo][i..j] == b[i..j];
    } else {
      assert a[hi..][i - hi..j - hi] == a[i..j] && b[hi..][i - hi..j - hi] == b[i..j];
    }
  }

  /** The data section reads the same at every size. */
  ghost predicate SameData(s: Shred, t: Shred) {
    s.ShredData? && t.ShredData? && s.VariantMatches() && s.common.variant == t.common.variant ==>
      forall size :: GetData(s.payload, s.common.variant, size) == GetData(t.payload, t.common.variant, size)
  }

  lemma SameDataBefore(s: Shred, t: Shred, lo: nat, hi: nat)
    requires WellSized(s) && AgreeOutside(s.payload, t.payload, lo, hi) && lo >= ChainedRootOffset(s.common.variant)
    ensures SameData(s, t)
  {
    if s.ShredData? {
      forall size: nat | SizeOfHeaders(Data) <= size <= SizeOfHeaders(Data) + DataCapacity(s.common.variant)
        ensures s.payload[SizeOfHeaders(Data)..size] == t.payload[SizeOfHeaders(Data)..size]
      {
        AgreeingSlice(s.payload, t.payload, lo, hi, SizeOfHeaders(Data), size);
      }
    }
  }

  /** Writing behind the chained root leaves headers, data, erasure shard and chained root alone. */
  lemma TrailerWriteFrame(h: Hasher, s: Shred, at: nat, b: Bytes)
    requires WellSized(s) && ProofOffset(s.common.variant) <= at && at + |b| <= |s.payload|
    ensures var t := Overwrite(s, at, b);
            && WellSized(t) && t == s.(payload := t.payload)
            && AgreeOutside(s.payload, t.payload, at, at + |b|)
            && MerkleNode(h, t) == MerkleNode(h, s)
            && ErasureShard(t) == ErasureShard(s) && SameData(s, t)
            && ChainedMerkleRoot(t) == ChainedMerkleRoot(s)
            && (HeadersInPayload(t) <==> HeadersInPayload(s))
            && (Sanitize(t).Success? <==> Sanitize(s).Success?)
  {
    var v, t := s.common.variant, Overwrite(s, at, b);
    LayoutTilesPayload(v, 0, false);
    OverwriteAgreesOutside(s, at, b);
    AgreeingSlice(s.payload, t.payload, at, at + |b|, SIZE_OF_SIGNATURE, ProofOffset(v));
    AgreeingSlice(s.payload, t.payload, at, at + |b|, ErasureShardStart(s.Type()), ChainedRootOffset(v));
    AgreeingSlice(s.payload, t.payload, at, at + |b|, ChainedRootOffset(v), ProofOffset(v));
    AgreeingSlice(s.payload, t.payload, at, at + |b|, 0, SizeOfHeaders(s.Type()));
    SameDataBefore(s, t, at, at + |b|);
    SanitizeIgnoresPayload(s, t);
  }

  lemma SignatureKeepsData(s: Shred, signature: Signature)
    requires WellSized(s)
    ensures SameData(s, SetSignature(s, signature))
  {
    var t := SetSignature(s, signature);
    OverwriteAgreesOutside(s, 0, signature);
    if s.ShredData? {
      forall size: nat | SizeOfHeaders(Data) <= size <= |s.payload|
        ensures s.payload[SizeOfHeaders(Data)..size] == t.payload[SizeOfHeaders(Data)..size]
      {
        AgreeingSlice(s.payload, t.payload, 0, SIZE_OF_SIGNATURE, SizeOfHeaders(Data), size);
      }
    }
  }

  lemma SignatureKeepsIndex(s: Shred, t: Shred)
    requires t == s.(common := s.common.(signature := t.common.signature), payload := t.payload)
    ensures ErasureShardIndex(t) == ErasureShardIndex(s)
  {
  }

  /** The encoded headers begin with the signature, and the rest does not depend on it. */
  lemma SignatureInHeaders(s: Shred, signature: Signature)
    requires WellSized(s) && HeadersInPayload(s)
    ensures HeadersInPayload(SetSignature(s, signature))
  {
    var t, n := SetSignature(s, signature), SizeOfHeaders(s.Type());
    var encoded, rest := EncodedHeaders(s), EncodedHeaders(s)[SIZE_OF_SIGNATURE..];
    assert EncodedHeaders(t) == signature + rest;
    assert encoded == encoded[..SIZE_OF_SIGNATURE] + rest;
    PrefixIs(s.payload, SIZE_OF_SIGNATURE, n, encoded[..SIZE_OF_SIGNATURE], rest);
    SpliceReadsBack(s.payload, 0, signature);
    SpliceElsewhere(s.payload, 0, signature, SIZE_OF_SIGNATURE, n);
    PrefixIs(t.payload, SIZE_OF_SIGNATURE, n, signature, rest);
  }

  /** The signature reads back, in the header too; everything behind it stays as it is. */
  lemma SignatureSetterFrame(h: Hasher, s: Shred, signature: Signature)
    requires WellSized(s)
    ensures var t := SetSignature(s, signature);
            && WellSized(t) && t == s.(common := s.common.(signature := signature), payload := t.payload)
            && t.payload[..SIZE_OF_SIGNATURE] == signature
            && AgreeOutside(s.payload, t.payload, 0, SIZE_OF_SIGNATURE)
            && MerkleNode(h, t) == MerkleNode(h, s)
            && MerkleRoot(h, t) == MerkleRoot(h, s)
            && ErasureShard(t) == ErasureShard(s) && SameData(s, t)
            && ChainedMerkleRoot(t) == ChainedMerkleRoot(s)
            && MerkleProof(t) == MerkleProof(s)
            && RetransmitterSignature(t) == RetransmitterSignature(s)
            && (HeadersInPayload(s) ==> HeadersInPayload(t))
  {
    var v, t, a := s.common.variant, SetSignature(s, signature), s.payload;
    LayoutTilesPayload(v, 0, false);
    OverwriteAgreesOutside(s, 0, signature);
    SpliceReadsBack(a, 0, signature);
    AgreeingSlice(a, t.payload, 0, SIZE_OF_SIGNATURE, SIZE_OF_SIGNATURE, ProofOffset(v));
    AgreeingSlice(a, t.payload, 0, SIZE_OF_SIGNATURE, ErasureShardStart(s.Type()), ChainedRootOffset(v));
    AgreeingSlice(a, t.payload, 0, SIZE_OF_SIGNATURE, ChainedRootOffset(v), ProofOffset(v));
    AgreeingSlice(a, t.payload, 0, SIZE_OF_SIGNATURE, ProofOffset(v), RetransmitterOffset(v));
    AgreeingSlice(a, t.payload, 0, SIZE_OF_SIGNATURE, RetransmitterOffset(v), |a|);
    SignatureKeepsData(s, signature);
    SignatureKeepsIndex(s, t);
    if HeadersInPayload(s) {
      SignatureInHeaders(s, signature);
    }
  }

  lemma ProofSetterFrame(h: Hasher, s: Shred, entries: seq<MerkleProofEntry>)
    requires WellSized(s) && |entries| == s.common.variant.proofSize
    ensures SetMerkleProof(s, Success(entries)).Success?
    ensures var t := SetMerkleProof(s, Success(entries)).value;
            && WellSized(t) && t == s.(payload := t.payload)
            && MerkleProof(t) == Success(entries)
            && AgreeOutside(s.payload, t.payload, ProofOffset(s.common.variant), RetransmitterOffset(s.common.variant))
            && MerkleNode(h, t) == MerkleNode(h, s)
            && ErasureShard(t) == ErasureShard(s) && SameData(s, t)
            && ChainedMerkleRoot(t) == ChainedMerkleRoot(s)
            && RetransmitterSignature(t) == RetransmitterSignature(s)
            && (HeadersInPayload(t) <==> HeadersInPayload(s))
            && (Sanitize(t).Success? <==> Sanitize(s).Success?)
  {
    var v := s.common.variant;
    var at, b := ProofOffset(v), Flatten(entries);
    LayoutTilesPayload(v, 0, false);
    TrailerWriteFrame(h, s, at, b);
    SpliceReadsBack(s.payload, at, b);
    ChunksFlatten(entries);
    SpliceElsewhere(s.payload, at, b, RetransmitterOffset(v), |s.payload|);
  }

  lemma RetransmitterKeepsProof(h: Hasher, s: Shred, signature: Signature)
    requires WellSized(s) && s.common.variant.resigned
    ensures RetransmitterOffset(s.common.variant) + SIZE_OF_SIGNATURE == |s.payload|
    ensures var t := Overwrite(s, RetransmitterOffset(s.common.variant), signature);
            MerkleProof(t) == MerkleProof(s) && MerkleRoot(h, t) == MerkleRoot(h, s)
  {
    var v := s.common.variant;
    LayoutTilesPayload(v, 0, false);
    var at := RetransmitterOffset(v);
    SpliceElsewhere(s.payload, at, signature, SIZE_OF_SIGNATURE, ProofOffset(v));
    SpliceElsewhere(s.payload, at, signature, ProofOffset(v), at);
  }

  lemma RetransmitterSetterFrame(h: Hasher, s: Shred, signature: Signature)
    requires WellSized(s)
    ensures SetRetransmitterSignature(s, signature).Success? <==> s.common.variant.resigned
    ensures s.common.variant.resigned ==>
              var t := SetRetransmitterSignature(s, signature).value;
              && WellSized(t) && t == s.(payload := t.payload)
              && RetransmitterSignature(t) == Success(signature)
              && AgreeOutside(s.payload, t.payload, RetransmitterOffset(s.common.variant), |s.payload|)
              && MerkleNode(h, t) == MerkleNode(h, s)
              && MerkleRoot(h, t) == MerkleRoot(h, s)
              && ErasureShard(t) == ErasureShard(s) && SameData(s, t)
              && ChainedMerkleRoot(t) == ChainedMerkleRoot(s)
              && MerkleProof(t) == MerkleProof(s)
              && (HeadersInPayload(t) <==> HeadersInPayload(s))
              && (Sanitize(t).Success? <==> Sanitize(s).Success?)
  {
    var v := s.common.variant;
    LayoutTilesPayload(v, 0, false);
    if v.resigned {
      var at := RetransmitterOffset(v);
      TrailerWriteFrame(h, s, at, signature);
      SpliceReadsBack(s.payload, at, signature);
      RetransmitterKeepsProof(h, s, signature);
    }
  }

  lemma ChainedRootSetterFrame(s: Shred, root: Hash)
    requires WellSized(s)
    ensures SetChainedMerkleRoot(s, root).Success?
    ensures var t := SetChainedMerkleRoot(s, root).value;
            && WellSized(t) && t == s.(payload := t.payload)
            && ChainedMerkleRoot(t) == Success(root)
            && AgreeOutside(s.payload, t.payload, ChainedRootOffset(s.common.variant), ProofOffset(s.common.variant))
            && MerkleProof(t) == MerkleProof(s)
            && ErasureShard(t) == ErasureShard(s) && SameData(s, t)
            && RetransmitterSignature(t) == RetransmitterSignature(s)
            && (HeadersInPayload(t) <==> HeadersInPayload(s))
            && (Sanitize(t).Success? <==> Sanitize(s).Success?)
  {
    var v := s.common.variant;
    var at := ChainedRootOffset(v);
    var t := Overwrite(s, at, root);
    LayoutTilesPayload(v, 0, false);
    OverwriteAgreesOutside(s, at, root);
    SpliceReadsBack(s.payload, at, root);
    SpliceElsewhere(s.payload, at, root, ProofOffset(v), RetransmitterOffset(v));
    SpliceElsewhere(s.payload, at, root, ErasureShardStart(s.Type()), at);
    SpliceElsewhere(s.payload, at, root, 0, SizeOfHeaders(s.Type()));
    SpliceElsewhere(s.payload, at, root, RetransmitterOffset(v), |s.payload|);
    SameDataBefore(s, t, at, at + |root|);
    SanitizeIgnoresPayload(s, t);
  }

  lemma ErasureShardSetterFrame(s: Shred, shard: Bytes)
    requires WellSized(s) && |shard| == ErasureShardLength(s)
    ensures var t := SetErasureShard(s, shard);
            && WellSized(t) && t == s.(payload := t.payload)
            && ErasureShard(t) == Success(shard)
            && AgreeOutside(s.payload, t.payload, ErasureShardStart(s.Type()), ChainedRootOffset(s.common.variant))
            && MerkleProof(t) == MerkleProof(s)
            && ChainedMerkleRoot(t) == ChainedMerkleRoot(s)
            && RetransmitterSignature(t) == RetransmitterSignature(s)
            && (s.ShredCode? ==> (HeadersInPayload(t) <==> HeadersInPayload(s)))
            && (ErasureShard(s) == Success(shard) ==> t == s)
  {
    var v := s.common.variant;
    var at := ErasureShardStart(s.Type());
    LayoutTilesPayload(v, 0, false);
    OverwriteAgreesOutside(s, at, shard);
    SpliceReadsBack(s.payload, at, shard);
    SpliceSame(s.payload, at, ChainedRootOffset(v));
    SpliceElsewhere(s.payload, at, shard, ChainedRootOffset(v), ProofOffset(v));
    SpliceElsewhere(s.payload, at, shard, ProofOffset(v), RetransmitterOffset(v));
    SpliceElsewhere(s.payload, at, shard, RetransmitterOffset(v), |s.payload|);
  }

  lemma Regions(b: Bytes, e: nat, c: nat, p: nat, r: nat)
    requires e <= c <= p <= r <= |b|
    ensures b == b[..e] + b[e..c] + b[c..p] + b[p..r] + b[r..|b|]
  {
  }

  /** A full payload is determined by what is before its erasure shard and by its readers. */
  lemma PayloadIsItsRegions(s: Shred, t: Shred)
    requires WellSized(s) && WellSized(t) && s.Type() == t.Type() && s.common.variant == t.common.variant
    requires s.payload[..ErasureShardStart(s.Type())] == t.payload[..ErasureShardStart(s.Type())]
    requires ErasureShard(s) == ErasureShard(t)
    requires ChainedMerkleRoot(s) == ChainedMerkleRoot(t)
    requires MerkleProof(s) == MerkleProof(t)
    requires RetransmitterSignature(s) == RetransmitterSignature(t)
    ensures s.payload == t.payload
  {
    var v := s.common.variant;
    var e, c, p, r := ErasureShardStart(s.Type()), ChainedRootOffset(v), ProofOffset(v), RetransmitterOffset(v);
    LayoutTilesPayload(v, 0, false);
    FlattenChunks(s.payload[p..r]);
    FlattenChunks(t.payload[p..r]);
    assert s.payload[r..|s.payload|] == t.payload[r..|s.payload|];
    Regions(s.payload, e, c, p, r);
    Regions(t.payload, e, c, p, r);
  }
}
