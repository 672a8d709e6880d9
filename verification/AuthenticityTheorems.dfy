/** What the root check is for: whatever proves an honest root is honest (src/merkle.rs:751-754). */
module AuthenticityTheorems {
  import opened Wrappers
  import opened Bytes
  import opened Headers
  import opened MerkleTree
  import opened MerkleTheorems
  import opened Shreds
  import opened Setters
  import opened ErasureCode
  import opened Recovery
  import opened BatchTheorems
  import opened RecoveryTheorems
  import opened LossTheorems

  // ----- Copies -----

  /** The parsed headers agree, the signature aside, which no leaf covers. */
  predicate SameHeaders(s: Shred, f: Shred) {
    && s.common.(signature := f.common.signature) == f.common
    && (match f
        case ShredData(_, data, _) => s.ShredData? && s.data == data
        case ShredCode(_, coding, _) => s.ShredCode? && s.coding == coding)
  }

  predicate SharesLeaf(s: Shred, f: Shred) {
    WellSized(s) && WellSized(f) && SameHeaders(s, f) && LeafBytes(s) == LeafBytes(f)
  }

  /** All but the two signatures is the same: the headers, and every byte from the signature to the end of the proof. */
  predicate IsCopyOf(s: Shred, f: Shred) {
    && WellSized(s) && WellSized(f) && SameHeaders(s, f)
    && RetransmitterOffset(f.common.variant) <= |s.payload| == |f.payload|
    && s.payload[SIZE_OF_SIGNATURE..RetransmitterOffset(f.common.variant)]
    == f.payload[SIZE_OF_SIGNATURE..RetransmitterOffset(f.common.variant)]
  }

  /** A shred whose parsed headers are those in its payload and who stands at a given place. */
  predicate IsFramed(s: Shred, i: nat) {
    WellSized(s) && HeadersInPayload(s) && ErasureShardIndex(s) == Success(i)
  }

  lemma VariantFromLeaf(s: Shred)
    requires WellSized(s) && HeadersInPayload(s)
    ensures VariantFromByte(LeafBytes(s)[0]) == Success(s.common.variant)
  {
    LayoutTilesPayload(s.common.variant, 0, false);
    match s
    case ShredData(common, data, payload) => VariantByteIsRead(payload, common, EncodeDataHeader(data));
    case ShredCode(common, coding, payload) => VariantByteIsRead(payload, common, EncodeCodingHeader(coding));
  }

  lemma HeadersBeginWithSignature(s: Shred)
    requires WellSized(s) && HeadersInPayload(s)
    ensures s.payload[..SIZE_OF_SIGNATURE] == s.common.signature
  {
    assert EncodedHeaders(s)[..SIZE_OF_SIGNATURE] == s.common.signature;
    PrefixOfPrefix(s.payload, EncodedHeaders(s), SizeOfHeaders(s.Type()), SIZE_OF_SIGNATURE);
  }

  lemma SameEncoding(s: Shred, t: Shred)
    requires WellSized(s) && WellSized(t) && HeadersInPayload(s) && HeadersInPayload(t)
    requires s.common.variant == t.common.variant
    requires s.payload[..SizeOfHeaders(s.Type())] == t.payload[..SizeOfHeaders(s.Type())]
    ensures s.common == t.common && SameHeaders(s, t)
  {
    match s
    case ShredData(common, data, payload) =>
      DataHeadersExact(payload, common, data);
      DataHeadersExact(payload, t.common, t.data);
    case ShredCode(common, coding, payload) =>
      CodingHeadersExact(payload, common, coding);
      CodingHeadersExact(payload, t.common, t.coding);
  }

  /** The bytes of the leaf hold all of the headers but the signature, hence the place too. */
  lemma LeafFixesHeaders(h: Hasher, s: Shred, f: Shred)
    requires WellSized(s) && HeadersInPayload(s) && WellSized(f) && HeadersInPayload(f)
    requires LeafBytes(s) == LeafBytes(f)
    ensures SharesLeaf(s, f) && ErasureShardIndex(s) == ErasureShardIndex(f)
  {
    var v, t := f.common.variant, SetSignature(s, f.common.signature);
    VariantFromLeaf(s);
    VariantFromLeaf(f);
    LayoutTilesPayload(v, 0, false);
    SignatureSetterFrame(h, s, f.common.signature);
    HeadersBeginWithSignature(f);
    AgreeingSlice(s.payload, t.payload, 0, SIZE_OF_SIGNATURE, SIZE_OF_SIGNATURE, ProofOffset(v));
    assert t.payload[..ProofOffset(v)] == t.payload[..SIZE_OF_SIGNATURE] + LeafBytes(f);
    assert f.payload[..ProofOffset(v)] == f.payload[..SIZE_OF_SIGNATURE] + LeafBytes(f);
    PrefixOfPrefix(t.payload, f.payload, ProofOffset(v), SizeOfHeaders(f.Type()));
    SameEncoding(t, f);
    SignatureKeepsIndex(s, t);
    SignatureKeepsIndex(f, t);
  }

  lemma ProofFixesBytes(s: Shred, f: Shred)
    requires WellSized(s) && WellSized(f) && s.common.variant == f.common.variant && MerkleProof(s) == MerkleProof(f)
    ensures var v := f.common.variant;
            && ProofOffset(v) <= RetransmitterOffset(v) <= |s.payload| == |f.payload|
            && s.payload[ProofOffset(v)..RetransmitterOffset(v)] == f.payload[ProofOffset(v)..RetransmitterOffset(v)]
  {
    var v := f.common.variant;
    LayoutTilesPayload(v, 0, false);
    FlattenChunks(s.payload[ProofOffset(v)..RetransmitterOffset(v)]);
    FlattenChunks(f.payload[ProofOffset(v)..RetransmitterOffset(v)]);
  }

  /** Leaf and proof are all that a copy needs. */
  lemma LeafAndProofMakeCopy(s: Shred, f: Shred)
    requires SharesLeaf(s, f) && MerkleProof(s) == MerkleProof(f)
    ensures IsCopyOf(s, f)
  {
    var v := f.common.variant;
    var p, r := ProofOffset(v), RetransmitterOffset(v);
    LayoutTilesPayload(v, 0, false);
    ProofFixesBytes(s, f);
    assert s.payload[SIZE_OF_SIGNATURE..r] == LeafBytes(s) + s.payload[p..r];
    assert f.payload[SIZE_OF_SIGNATURE..r] == LeafBytes(f) + f.payload[p..r];
  }

  // ----- What a root binds -----

  lemma LeafPreimageIsInjective(a: Bytes, b: Bytes)
    requires LeafPreimage(a) == LeafPreimage(b)
    ensures a == b
  {
    assert a == LeafPreimage(a)[|MERKLE_HASH_PREFIX_LEAF|..];
    assert b == LeafPreimage(b)[|MERKLE_HASH_PREFIX_LEAF|..];
  }

  predicate AllFramed(batch: seq<Shred>) {
    forall i :: 0 <= i < |batch| ==> IsFramed(batch[i], i)
  }

  /** The inputs hashed when a shred's leaf is folded with a proof. */
  function ClaimQueries(h: Hasher, s: Shred, i: nat, proof: seq<MerkleProofEntry>): seq<Bytes>
    requires WellSized(s)
  {
    var leaf := LeafPreimage(LeafBytes(s));
    [leaf] + FoldQueries(h, i, h(leaf), proof)
  }

  lemma LeafIsBound(h: Hasher, full: seq<Shred>, s: Shred, i: nat, proof: seq<MerkleProofEntry>, pos: nat)
    requires AllWellSized(full) && AllFramed(full) && IsFramed(s, i) && pos < |full|
    requires h(LeafPreimage(LeafBytes(s)))[..20] == LeafHashes(h, full)[pos][..20]
    ensures || CollisionBetween(h, BatchQueries(h, full), ClaimQueries(h, s, i, proof))
            || (pos == i && SharesLeaf(s, full[i]))
  {
    var theirs, mine := LeafPreimage(LeafBytes(full[pos])), LeafPreimage(LeafBytes(s));
    assert LeafQueries(LeafData(full))[pos] == theirs;
    if theirs != mine {
      assert theirs in BatchQueries(h, full) && mine in ClaimQueries(h, s, i, proof);
      assert Collision(h, theirs, mine);
    } else {
      LeafPreimageIsInjective(LeafBytes(full[pos]), LeafBytes(s));
      assert IsFramed(full[pos], pos);
      LeafFixesHeaders(h, s, full[pos]);
    }
  }

  /**
    * A shred at place `i` whose leaf folds to the root of a batch has the leaf of that batch's member at `i`,
    * and was proved by that member's own proof; or the fold exhibits a collision with a hash of the batch.
    */
  lemma RootBindsShred(h: Hasher, full: seq<Shred>, s: Shred, i: nat, proof: seq<MerkleProofEntry>)
    requires full != [] && AllWellSized(full) && AllFramed(full) && IsFramed(s, i)
    requires GetMerkleRoot(h, i, h(LeafPreimage(LeafBytes(s))), proof) == Success(TreeRoot(h, LeafHashes(h, full)))
    ensures || CollisionBetween(h, BatchQueries(h, full), ClaimQueries(h, s, i, proof))
            || (i < |full| && SharesLeaf(s, full[i]) && proof == ProofEntries(h, LeafHashes(h, full), i))
  {
    var data, leaves := LeafData(full), LeafHashes(h, full);
    var node := h(LeafPreimage(LeafBytes(s)));
    var honest, claimed := BatchQueries(h, full), ClaimQueries(h, s, i, proof);
    WrongLengthCollides(h, data, leaves, i, LeafBytes(s), proof);
    if |proof| == GetProofSize(|leaves|) {
      ProofSizeIsDepth(|leaves|);
      FoldIsBound(h, leaves, i, node, proof);
      if CollisionBetween(h, TreeQueries(h, leaves), FoldQueries(h, i, node, proof)) {
        CollisionWeaken(h, TreeQueries(h, leaves), FoldQueries(h, i, node, proof), honest, claimed);
      } else {
        LeafIsBound(h, full, s, i, proof, ClampedPosition(|leaves|, i));
      }
    }
  }

  lemma HonestBatchIsFramed(h: Hasher, codeword: Codewords, full: seq<Shred>, k: nat, m: nat)
    requires HonestBatch(h, codeword, full, k, m)
    ensures full != [] && AllFramed(full)
  {
    forall i | 0 <= i < |full| ensures IsFramed(full[i], i) {
      assert MemberAt(full, k, m, i);
      MemberFacts(full[i], full[k], k, m, i);
    }
  }

  /**
    * A shred that proves the root of an honest batch is the batch's member at its index, in its headers and in
    * every byte from its signature to the end of its proof; or its proof exhibits a collision.
    */
  lemma ShredIsAuthentic(h: Hasher, codeword: Codewords, full: seq<Shred>, k: nat, m: nat, s: Shred)
    requires HonestBatch(h, codeword, full, k, m) && WellSized(s) && HeadersInPayload(s)
    requires MerkleRoot(h, s) == Success(TreeRoot(h, LeafHashes(h, full)))
    ensures || CollisionBetween(h, BatchQueries(h, full), ShredQueries(h, s))
            || (ErasureShardIndex(s).value < |full| && IsCopyOf(s, full[ErasureShardIndex(s).value]))
  {
    var i, proof := ErasureShardIndex(s).value, MerkleProof(s).value;
    HonestBatchIsFramed(h, codeword, full, k, m);
    NodeOfWellSized(h, s);
    RootBindsShred(h, full, s, i, proof);
    if !CollisionBetween(h, BatchQueries(h, full), ShredQueries(h, s)) {
      assert HasOwnProof(h, full, i);
      LeafAndProofMakeCopy(s, full[i]);
    }
  }

  // ----- Two batches with one root -----

  /** Folding a tree's own proof hashes nothing that building the tree did not hash. */
  lemma {:induction false} OwnProofQueries(h: Hasher, level: seq<Hash>, index: nat)
    requires index < |level|
    ensures forall q :: q in FoldQueries(h, index, level[index], ProofEntries(h, level, index)) ==>
              q in TreeQueries(h, level)
    decreases |level|
  {
    if |level| > 1 {
      var proof := ProofEntries(h, level, index);
      assert FoldPreimage(index, level[index], proof[0]) == PairPreimage(level, index / 2);
      TreeQueriesContain(h, level);
      OwnProofQueries(h, Parents(h, level), index / 2);
    }
  }

  lemma CollisionIsSymmetric(h: Hasher, a: seq<Bytes>, b: seq<Bytes>)
    requires CollisionBetween(h, a, b)
    ensures CollisionBetween(h, b, a)
  {
    var x, y :| x in a && y in b && Collision(h, x, y);
    assert Collision(h, y, x);
  }

  lemma OneRootBindsMember(h: Hasher, a: seq<Shred>, b: seq<Shred>, i: nat)
    requires i < |a| && b != [] && AllWellSized(a) && AllWellSized(b) && AllFramed(a) && AllFramed(b)
    requires TreeRoot(h, LeafHashes(h, a)) == TreeRoot(h, LeafHashes(h, b))
    ensures || CollisionBetween(h, BatchQueries(h, b), BatchQueries(h, a))
            || (i < |b| && SharesLeaf(a[i], b[i])
                && ProofEntries(h, LeafHashes(h, a), i) == ProofEntries(h, LeafHashes(h, b), i))
  {
    var leaves := LeafHashes(h, a);
    var proof := ProofEntries(h, leaves, i);
    assert IsFramed(a[i], i);
    FoldReachesRoot(h, leaves, i);
    RootBindsShred(h, b, a[i], i, proof);
    if CollisionBetween(h, BatchQueries(h, b), ClaimQueries(h, a[i], i, proof)) {
      OwnProofQueries(h, leaves, i);
      assert LeafQueries(LeafData(a))[i] == LeafPreimage(LeafBytes(a[i]));
      CollisionWeaken(h, BatchQueries(h, b), ClaimQueries(h, a[i], i, proof), BatchQueries(h, b), BatchQueries(h, a));
    }
  }

  predicate SameLeaves(h: Hasher, a: seq<Shred>, b: seq<Shred>) {
    && |a| == |b| && AllWellSized(a) && AllWellSized(b) && LeafHashes(h, a) == LeafHashes(h, b)
    && forall i :: 0 <= i < |a| ==> SharesLeaf(a[i], b[i])
  }

  lemma SharedLeavesAreSame(h: Hasher, a: seq<Shred>, b: seq<Shred>)
    requires |a| == |b| && forall i :: 0 <= i < |a| ==> SharesLeaf(a[i], b[i])
    ensures SameLeaves(h, a, b)
  {
    forall i | 0 <= i < |a| ensures WellSized(a[i]) && WellSized(b[i]) && LeafBytes(a[i]) == LeafBytes(b[i]) {
      assert SharesLeaf(a[i], b[i]);
    }
  }

  /** Batches whose trees have one root have the same number of shreds and the same leaves, or collide. */
  lemma OneRootMeansOneBatch(h: Hasher, a: seq<Shred>, b: seq<Shred>)
    requires a != [] && b != [] && AllWellSized(a) && AllWellSized(b) && AllFramed(a) && AllFramed(b)
    requires TreeRoot(h, LeafHashes(h, a)) == TreeRoot(h, LeafHashes(h, b))
    ensures CollisionBetween(h, BatchQueries(h, b), BatchQueries(h, a)) || SameLeaves(h, a, b)
  {
    if !CollisionBetween(h, BatchQueries(h, b), BatchQueries(h, a)) {
      if CollisionBetween(h, BatchQueries(h, a), BatchQueries(h, b)) {
        CollisionIsSymmetric(h, BatchQueries(h, a), BatchQueries(h, b));
      }
      OneRootBindsMember(h, a, b, |a| - 1);
      OneRootBindsMember(h, b, a, |b| - 1);
      forall i | 0 <= i < |a| ensures SharesLeaf(a[i], b[i]) {
        OneRootBindsMember(h, a, b, i);
      }
      SharedLeavesAreSame(h, a, b);
    }
  }

  // ----- Recovery against an honest root -----

  /** Parsed shreds in, framed batch out: every place of a prepared batch holds a shred framed for that place. */
  lemma PreparedIsFramed(h: Hasher, code: ReedSolomon, sorted: seq<Shred>, p: Prepared, received: seq<Shred>,
      rebuilt: seq<Shred>)
    requires IsTraceOf(h, code, sorted, p, received, rebuilt) && forall s :: s in sorted ==> HeadersInPayload(s)
    ensures AllFramed(p.batch)
  {
    PreparedFacts(h, code, sorted, p, received, rebuilt);
    forall i | 0 <= i < |p.batch| ensures IsFramed(p.batch[i], i) {
      if p.mask[i] {
        MaskMeansReceived(p.template, sorted, i);
      } else {
        MissingIsRecovery(h, code, sorted, p, received, rebuilt, i);
        RecoveryFacts(p.template, i, received[i], rebuilt[i], p.batch[i]);
      }
    }
  }

  /** With the honest leaves, finishing a missing place yields a copy of the honest member. */
  lemma FinishedIsCopy(h: Hasher, full: seq<Shred>, p: Prepared, i: nat)
    requires AllWellSized(full) && IsPrepared(p) && SameLeaves(h, p.batch, full) && i < |full|
    requires p.tree == TreeNodes(h, LeafHashes(h, p.batch)) && HasOwnProof(h, full, i)
    ensures Finish(p, i).Success? && IsCopyOf(Finish(p, i).value, full[i])
  {
    var leaves := LeafHashes(h, p.batch);
    var proof, b, f := ProofEntries(h, leaves, i), p.batch[i], full[i];
    assert SharesLeaf(b, f);
    MerkleProofOfWellSized(f);
    ProofEntriesLength(h, leaves, i);
    ProofSizeIsDepth(|leaves|);
    FinishedExactly(h, p, i);
    ProofSetterFrame(h, b, proof);
    var r := SetMerkleProof(b, Success(proof)).value;
    LayoutTilesPayload(f.common.variant, 0, false);
    AgreeingSlice(b.payload, r.payload, ProofOffset(f.common.variant), RetransmitterOffset(f.common.variant),
                  SIZE_OF_SIGNATURE, ProofOffset(f.common.variant));
    LeafAndProofMakeCopy(r, f);
  }

  predicate IsHonestItem(full: seq<Shred>, p: Prepared, j: nat)
    requires IsPrepared(p) && j < |FinishMissing(p)|
  {
    var item, i := FinishMissing(p)[j], Missing(p.mask)[j];
    item.Success? && i < |full| && IsCopyOf(item.value, full[i])
  }

  /** The batch has the honest leaves, and every item is a copy of the honest member of its place. */
  predicate IsHonestOutcome(h: Hasher, full: seq<Shred>, p: Prepared)
    requires IsPrepared(p)
  {
    && SameLeaves(h, p.batch, full) && |FinishMissing(p)| == |Missing(p.mask)|
    && forall j :: 0 <= j < |FinishMissing(p)| ==> IsHonestItem(full, p, j)
  }

  /**
    * Whatever parsed shreds were received and however the library reconstructs, a recovery that succeeds while
    * the last coding shred proves an honest root yields copies of the honest members and no error, in a batch of
    * the honest size whose received shreds have the honest leaves too; or the two batches exhibit a collision.
    */
  lemma HonestRootRecoversHonestBatch(h: Hasher, code: ReedSolomon, codeword: Codewords, full: seq<Shred>, k: nat,
      m: nat, sorted: seq<Shred>)
    requires HonestBatch(h, codeword, full, k, m)
    requires forall s :: s in sorted ==> HeadersInPayload(s)
    requires sorted != [] && MerkleRoot(h, Last(sorted)) == Success(TreeRoot(h, LeafHashes(h, full)))
    ensures Prepare(h, code, sorted).Success? ==>
              var p := Prepare(h, code, sorted).value;
              && RecoverSorted(h, code, sorted) == Success(FinishMissing(p)) && AllWellSized(p.batch)
              && (CollisionBetween(h, BatchQueries(h, full), BatchQueries(h, p.batch)) || IsHonestOutcome(h, full, p))
  {
    if Prepare(h, code, sorted).Success? {
      var p := Prepare(h, code, sorted).value;
      var received, rebuilt := PreparedTrace(h, code, sorted);
      PreparedIsFramed(h, code, sorted, p, received, rebuilt);
      HonestBatchIsFramed(h, codeword, full, k, m);
      OneRootMeansOneBatch(h, p.batch, full);
      if !CollisionBetween(h, BatchQueries(h, full), BatchQueries(h, p.batch)) {
        MissingExact(p.mask);
        forall j | 0 <= j < |FinishMissing(p)| ensures IsHonestItem(full, p, j) {
          var i := Missing(p.mask)[j];
          assert i in Missing(p.mask) && HasOwnProof(h, full, i);
          FinishedIsCopy(h, full, p, i);
        }
      }
    }
  }
}
