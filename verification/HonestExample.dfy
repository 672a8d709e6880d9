/** For every number of data shreds a batch that meets all conditions of the recovery theorem. */
module HonestExample {
  import opened Wrappers
  import opened Bytes
  import opened Headers
  import opened MerkleTree
  import opened MerkleTheorems
  import opened Shreds
  import opened Setters
  import opened ErasureCode
  import opened ParityCode
  import opened Recovery
  import opened RecoveryTheorems
  import opened LossTheorems

  // ----- Shreds without their proofs -----

  function Common(v: ShredVariant, index: u32): ShredCommonHeader {
    ShredCommonHeader(Zeros(64), v, 0, index, 0, 0)
  }

  predicate SameButPayload(s: Shred, t: Shred) {
    t == s.(payload := t.payload)
  }

  function HeadersOnly(s: Shred): Shred {
    s.(payload := Splice(Zeros(SizeOfPayload(s.Type())), 0, EncodedHeaders(s)))
  }

  /** An empty data shred of the genesis slot. */
  function DataShred(proofSize: ProofSize, index: u32): Shred {
    var data := DataShredHeader(0, 0, SIZE_OF_DATA_SHRED_HEADERS);
    HeadersOnly(ShredData(Common(MerkleData(proofSize, false), index), data, []))
  }

  function EmptyCodeShred(proofSize: ProofSize, k: u16): Shred {
    HeadersOnly(ShredCode(Common(MerkleCode(proofSize, false), 0), CodingShredHeader(k, 1, 0), []))
  }

  lemma FreshChainedRoot(s: Shred, written: Bytes)
    requires WellSized(s) && |written| == SizeOfHeaders(s.Type())
    requires s.payload == Splice(Zeros(SizeOfPayload(s.Type())), 0, written)
    ensures s.payload[..|written|] == written && ChainedMerkleRoot(s) == Success(Zeros(32))
  {
    var zeros, at := Zeros(SizeOfPayload(s.Type())), ChainedRootOffset(s.common.variant);
    LayoutTilesPayload(s.common.variant, 0, false);
    SpliceReadsBack(zeros, 0, written);
    SpliceElsewhere(zeros, 0, written, at, at + 32);
    assert zeros[at..at + 32] == Zeros(32);
  }

  lemma EncodedIgnoresPayload(s: Shred, t: Shred)
    requires SameButPayload(s, t)
    ensures EncodedHeaders(t) == EncodedHeaders(s)
  {
  }

  lemma HeadersOnlyFacts(s: Shred)
    requires s.VariantMatches()
    ensures WellSized(HeadersOnly(s)) && HeadersInPayload(HeadersOnly(s))
    ensures ChainedMerkleRoot(HeadersOnly(s)) == Success(Zeros(32))
  {
    EncodedIgnoresPayload(s, HeadersOnly(s));
    FreshChainedRoot(HeadersOnly(s), EncodedHeaders(s));
  }

  /** A shred in a batch of `n` that lacks nothing but its proof. */
  predicate IsReady(s: Shred, n: nat) {
    WellSized(s) && HeadersInPayload(s) && Sanitize(s).Success? && s.common.variant.proofSize == Depth(n)
  }

  /** Ready, with the headers of its place in a batch of `k` data shreds and one coding shred. */
  predicate IsUnprovedAt(s: Shred, first: Shred, k: nat, i: nat) {
    && IsReady(s, k + 1) && FitsAt(s, first, k, 1, i) && !s.common.variant.resigned
    && ChainedMerkleRoot(s) == ChainedMerkleRoot(first)
  }

  lemma ProofSizeOfBatch(k: nat)
    requires k < 256
    ensures Depth(k + 1) < 16
  {
    ProofSizeIsDepth(k + 1);
    ProofSizeIsLeast(k + 1, 8);
    assert Pow2(8) == 256;
  }

  lemma DataShredIsUnproved(proofSize: ProofSize, k: nat, i: nat, first: Shred)
    requires i < k < 256 && proofSize == Depth(k + 1)
    requires first.ShredCode? && first.common == Common(MerkleCode(proofSize, false), 0)
    requires ChainedMerkleRoot(first) == Success(Zeros(32))
    ensures IsUnprovedAt(DataShred(proofSize, i), first, k, i)
  {
    var s := DataShred(proofSize, i);
    HeadersOnlyFacts(ShredData(s.common, s.data, []));
    MerkleProofOfWellSized(s);
  }

  lemma CodeShredIsUnproved(proofSize: ProofSize, k: nat, shard: Bytes)
    requires 0 < k < 256 && proofSize == Depth(k + 1) && WellSized(EmptyCodeShred(proofSize, k))
    requires |shard| == ErasureShardLength(EmptyCodeShred(proofSize, k))
    ensures var s := SetErasureShard(EmptyCodeShred(proofSize, k), shard);
            && s.ShredCode? && s.common == Common(MerkleCode(proofSize, false), 0)
            && ChainedMerkleRoot(s) == Success(Zeros(32)) && ErasureShard(s) == Success(shard)
            && IsUnprovedAt(s, s, k, k)
  {
    var empty := EmptyCodeShred(proofSize, k);
    var s := SetErasureShard(empty, shard);
    HeadersOnlyFacts(ShredCode(empty.common, empty.coding, []));
    ErasureShardSetterFrame(empty, shard);
    MerkleProofOfWellSized(s);
  }

  /** Data shreds and a coding shred that balances them, without their proofs. */
  predicate IsUnprovedBatch(full: seq<Shred>, k: nat) {
    && |full| == k + 1 && 0 < k < 256 && AllWellSized(full) && IsParity(k, 1, ShardsOf(full))
    && forall i :: 0 <= i < |full| ==> IsUnprovedAt(full[i], full[k], k, i)
  }

  lemma DataShardLength(proofSize: ProofSize, index: u32, k: u16)
    ensures WellSized(DataShred(proofSize, index)) && WellSized(EmptyCodeShred(proofSize, k))
    ensures ErasureShardLength(DataShred(proofSize, index)) == ErasureShardLength(EmptyCodeShred(proofSize, k))
    ensures |ErasureShard(DataShred(proofSize, index)).value| == ErasureShardLength(EmptyCodeShred(proofSize, k))
  {
    ErasureShardsHaveOneLength(proofSize, false);
    ShardLength(DataShred(proofSize, index));
  }

  predicate HasShard(s: Shred, shard: Bytes) {
    ErasureShard(s) == Success(shard)
  }

  /** The erasure shards of the data shreds, which are as long as that of the coding shred. */
  function DataShards(proofSize: ProofSize, k: nat): (shards: seq<Bytes>)
    requires k < 256
    ensures |shards| == k
    ensures forall i :: 0 <= i < k ==> |shards[i]| == ErasureShardLength(EmptyCodeShred(proofSize, k))
    ensures forall i :: 0 <= i < k ==> HasShard(DataShred(proofSize, i), shards[i])
  {
    assert forall i :: 0 <= i < k ==>
             && ErasureShard(DataShred(proofSize, i)).Success?
             && |ErasureShard(DataShred(proofSize, i)).value| == ErasureShardLength(EmptyCodeShred(proofSize, k)) by {
      forall i | 0 <= i < k
        ensures ErasureShard(DataShred(proofSize, i)).Success?
        ensures |ErasureShard(DataShred(proofSize, i)).value| == ErasureShardLength(EmptyCodeShred(proofSize, k))
      {
        DataShardLength(proofSize, i, k);
      }
    }
    seq<Bytes>(k, i requires 0 <= i < k => ErasureShard(DataShred(proofSize, i)).value)
  }

  lemma UnprovedShredsMakeBatch(data: seq<Shred>, code: Shred, shards: seq<Bytes>)
    requires 0 < |data| < 256 && IsParity(|data|, 1, shards) && IsUnprovedAt(code, code, |data|, |data|)
    requires forall i :: 0 <= i < |data| ==> IsUnprovedAt(data[i], code, |data|, i)
    requires HasShard(code, shards[|data|]) && forall i :: 0 <= i < |data| ==> HasShard(data[i], shards[i])
    ensures IsUnprovedBatch(data + [code], |data|)
  {
    var full := data + [code];
    forall i | 0 <= i < |full| ensures IsUnprovedAt(full[i], code, |data|, i) && HasShard(full[i], shards[i]) {
    }
    assert AllWellSized(full);
    assert ShardsOf(full) == shards;
  }

  lemma UnprovedBatchExists(k: nat) returns (full: seq<Shred>)
    requires 0 < k < 256
    ensures IsUnprovedBatch(full, k)
  {
    ProofSizeOfBatch(k);
    var proofSize: ProofSize := Depth(k + 1);
    var length := ErasureShardLength(EmptyCodeShred(proofSize, k));
    var shards := Balanced(DataShards(proofSize, k), length);
    var code := SetErasureShard(EmptyCodeShred(proofSize, k), shards[k]);
    var data := seq<Shred>(k, i requires 0 <= i < k => DataShred(proofSize, i));
    CodeShredIsUnproved(proofSize, k, shards[k]);
    forall i | 0 <= i < k ensures IsUnprovedAt(data[i], code, k, i) && HasShard(data[i], shards[i]) {
      DataShredIsUnproved(proofSize, k, i, code);
    }
    UnprovedShredsMakeBatch(data, code, shards);
    full := data + [code];
  }

  // ----- With their proofs -----

  function Proved(h: Hasher, s: Shred, leaves: seq<Hash>, i: nat): (t: Shred)
    requires IsReady(s, |leaves|) && i < |leaves|
    ensures WellSized(t)
  {
    ProofEntriesLength(h, leaves, i);
    ProofSetterFrame(h, s, ProofEntries(h, leaves, i));
    SetMerkleProof(s, Success(ProofEntries(h, leaves, i))).value
  }

  /** A shred with its proof written parses to itself and keeps its leaf, erasure shard and chained root. */
  lemma ProvedFacts(h: Hasher, s: Shred, leaves: seq<Hash>, i: nat)
    requires IsReady(s, |leaves|) && i < |leaves|
    ensures var t := Proved(h, s, leaves, i);
            && WellSized(t) && IsParsed(t) && SameButPayload(s, t)
            && MerkleProof(t) == Success(ProofEntries(h, leaves, i))
            && MerkleNode(h, t) == MerkleNode(h, s)
            && ErasureShard(t) == ErasureShard(s) && ChainedMerkleRoot(t) == ChainedMerkleRoot(s)
  {
    ProofEntriesLength(h, leaves, i);
    ProofSetterFrame(h, s, ProofEntries(h, leaves, i));
    ProvedReparses(h, s, ProofEntries(h, leaves, i));
  }

  lemma FitsIgnoresPayload(s: Shred, first: Shred, t: Shred, first': Shred, k: nat, i: nat)
    requires FitsAt(s, first, k, 1, i) && SameButPayload(s, t) && SameButPayload(first, first')
    ensures FitsAt(t, first', k, 1, i)
  {
  }

  /** What a shred and its proved form have in common. */
  predicate IsProvedForm(h: Hasher, s: Shred, t: Shred) {
    && WellSized(s) && WellSized(t) && IsParsed(t) && SameButPayload(s, t)
    && h(LeafPreimage(LeafBytes(t))) == h(LeafPreimage(LeafBytes(s)))
    && ErasureShard(t) == ErasureShard(s) && ChainedMerkleRoot(t) == ChainedMerkleRoot(s)
  }

  lemma ProvedFormFacts(h: Hasher, s: Shred, leaves: seq<Hash>, i: nat)
    requires IsReady(s, |leaves|) && i < |leaves|
    ensures var t := Proved(h, s, leaves, i);
            IsProvedForm(h, s, t) && MerkleProof(t) == Success(ProofEntries(h, leaves, i))
  {
    ProvedFacts(h, s, leaves, i);
    NodeOfWellSized(h, s);
    NodeOfWellSized(h, Proved(h, s, leaves, i));
  }

  /** The batch with the proofs of its leaves. */
  lemma ProveBatch(h: Hasher, open: seq<Shred>) returns (full: seq<Shred>)
    requires AllWellSized(open) && forall i :: 0 <= i < |open| ==> IsReady(open[i], |open|)
    ensures |full| == |open| && AllWellSized(full)
    ensures forall i :: 0 <= i < |full| ==> IsProvedForm(h, open[i], full[i])
    ensures forall i :: 0 <= i < |full| ==>
              MerkleProof(full[i]) == Success(ProofEntries(h, LeafHashes(h, open), i))
  {
    var leaves := LeafHashes(h, open);
    full := seq<Shred>(|open|, i requires 0 <= i < |open| => Proved(h, open[i], leaves, i));
    forall i | 0 <= i < |full|
      ensures IsProvedForm(h, open[i], full[i]) && MerkleProof(full[i]) == Success(ProofEntries(h, leaves, i))
    {
      ProvedFormFacts(h, open[i], leaves, i);
    }
  }

  lemma ProvedAreMembers(h: Hasher, open: seq<Shred>, full: seq<Shred>, k: nat)
    requires IsUnprovedBatch(open, k) && |full| == |open|
    requires forall i :: 0 <= i < |full| ==> IsProvedForm(h, open[i], full[i])
    ensures AllMembers(full, k, 1)
    ensures forall i :: 0 <= i < |full| ==> !full[i].common.variant.resigned
  {
    forall i | 0 <= i < |full| ensures MemberAt(full, k, 1, i) && !full[i].common.variant.resigned {
      assert IsUnprovedAt(open[i], open[k], k, i);
      assert IsProvedForm(h, open[i], full[i]) && IsProvedForm(h, open[k], full[k]);
      FitsIgnoresPayload(open[i], open[k], full[i], full[k], k, i);
    }
  }

  predicate IsUnresigned(full: seq<Shred>) {
    forall i :: 0 <= i < |full| ==> !full[i].common.variant.resigned
  }

  lemma ProvedKeepLeavesAndShards(h: Hasher, open: seq<Shred>, full: seq<Shred>)
    requires |full| == |open| && AllWellSized(open) && AllWellSized(full)
    requires forall i :: 0 <= i < |full| ==> IsProvedForm(h, open[i], full[i])
    ensures LeafHashes(h, full) == LeafHashes(h, open) && ShardsOf(full) == ShardsOf(open)
  {
    forall i | 0 <= i < |full|
      ensures LeafHashes(h, full)[i] == LeafHashes(h, open)[i] && ShardsOf(full)[i] == ShardsOf(open)[i]
    {
      assert IsProvedForm(h, open[i], full[i]);
    }
  }

  /** The proved batch is an honest batch under the parity code. */
  lemma HonestBatchExists(h: Hasher, k: nat) returns (full: seq<Shred>)
    requires 0 < k < 256
    ensures HonestBatch(h, IsParity, full, k, 1) && IsUnresigned(full)
  {
    var open := UnprovedBatchExists(k);
    forall i | 0 <= i < |open| ensures IsReady(open[i], |open|) {
      assert IsUnprovedAt(open[i], open[k], k, i);
    }
    full := ProveBatch(h, open);
    ProvedAreMembers(h, open, full, k);
    ProvedKeepLeavesAndShards(h, open, full);
    forall i | 0 <= i < |full| ensures HasOwnProof(h, full, i) {
    }
  }

  // ----- One lost data shred -----

  function Without(full: seq<Shred>, lost: nat): seq<Shred>
    requires lost < |full|
  {
    full[..lost] + full[lost + 1..]
  }

  lemma OnlyMissing(mask: seq<bool>, lost: nat)
    requires lost < |mask| && forall i :: 0 <= i < |mask| ==> (mask[i] <==> i != lost)
    ensures Missing(mask) == [lost]
  {
    MissingExact(mask);
    assert lost in Missing(mask);
    assert |Missing(mask)| > 1 ==> Missing(mask)[0] < Missing(mask)[1];
    forall j | 0 <= j < |Missing(mask)| ensures Missing(mask)[j] == lost {
      assert Missing(mask)[j] in Missing(mask);
    }
  }

  /** Members stand in the order of the comparator, and no two are equal. */
  lemma MembersAreSorted(full: seq<Shred>, k: nat)
    requires AllMembers(full, k, 1)
    ensures IsSorted(full) && forall i, j :: 0 <= i < j < |full| ==> full[i] != full[j]
  {
    MembersAreWellSized(full, k, 1);
    forall i, j | 0 <= i < j < |full| ensures AtMost(full[i], full[j]) && full[i] != full[j] {
      assert MemberAt(full, k, 1, i) && MemberAt(full, k, 1, j);
    }
  }

  lemma OthersFacts(full: seq<Shred>, k: nat, lost: nat)
    requires AllMembers(full, k, 1) && lost < k
    ensures var others := Without(full, lost);
            && IsSortOf(others, others) && IsPartOf(others, full) && |others| == k
            && (exists s :: s in others && s.ShredCode?)
            && Missing(Presence(full, others)) == [lost]
  {
    var others := Without(full, lost);
    MembersAreSorted(full, k);
    assert forall j :: 0 <= j < |others| ==> others[j] == full[if j < lost then j else j + 1];
    forall i | 0 <= i < |full| ensures Presence(full, others)[i] <==> i != lost {
      if i != lost {
        assert others[if i < lost then i else i - 1] == full[i];
      }
    }
    OnlyMissing(Presence(full, others), lost);
    assert MemberAt(full, k, 1, k) && others[k - 1] == full[k];
  }

  ghost predicate ComesBack(h: Hasher, full: seq<Shred>, lost: nat)
    requires lost < |full|
  {
    KeepsPresentShards(Restore) && RecoverSorted(h, Restore, Without(full, lost)) == Success([Success(full[lost])])
  }

  /** An honest batch of `k` data shreds and a coding shred, from which any lost data shred comes back. */
  ghost predicate IsRecoverable(h: Hasher, full: seq<Shred>, k: nat) {
    && HonestBatch(h, IsParity, full, k, 1)
    && forall lost :: 0 <= lost < k ==> ComesBack(h, full, lost)
  }

  lemma OneIsLost(full: seq<Shred>, others: seq<Shred>, lost: nat)
    requires AllWellSized(full) && IsUnresigned(full) && lost < |full| && Missing(Presence(full, others)) == [lost]
    ensures Lost(full, others, None) == [Success(full[lost])]
  {
  }

  lemma LostDataComesBack(h: Hasher, full: seq<Shred>, k: nat, lost: nat)
    requires HonestBatch(h, IsParity, full, k, 1) && IsUnresigned(full) && lost < k
    ensures ComesBack(h, full, lost)
  {
    var others := Without(full, lost);
    ParityMeetsContract();
    OthersFacts(full, k, lost);
    RecoveryInvertsLoss(h, Restore, IsParity, full, k, 1, others, others);
    OneIsLost(full, others, lost);
  }

  /**
    * For every hash function and every number of data shreds that the library admits there are an honest batch
    * and an erasure code with which recovery brings back any one data shred from the rest.
    */
  lemma HonestBatchesExist(h: Hasher, k: nat)
    requires NewCodec(k, 1).Success?
    ensures KeepsPresentShards(Restore) && IsErasureCode(Restore, IsParity)
    ensures exists full :: IsRecoverable(h, full, k)
  {
    ParityMeetsContract();
    var full := HonestBatchExists(h, k);
    forall lost | 0 <= lost < k ensures ComesBack(h, full, lost) {
      LostDataComesBack(h, full, k, lost);
    }
    assert IsRecoverable(h, full, k);
  }
}
