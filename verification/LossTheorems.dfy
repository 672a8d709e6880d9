/** Recovery is the inverse of loss: an honest batch comes back from any large enough part of it. */
module LossTheorems {
  import opened Wrappers
  import opened Bytes
  import opened Errors
  import opened Headers
  import opened MerkleTree
  import opened MerkleTheorems
  import opened Shreds
  import opened Setters
  import opened ErasureCode
  import opened Recovery
  import opened BatchTheorems
  import opened RecoveryTheorems

  // ----- Honest batches -----

  /** A shred that was parsed from its own payload. */
  predicate IsParsed(s: Shred) {
    FromPayload(s.payload) == Success(s)
  }

  /** The headers of shred `i` of a batch of `k` data and `m` coding shreds, next to the first coding shred. */
  predicate FitsAt(s: Shred, first: Shred, k: nat, m: nat, i: nat) {
    && s.common.signature == first.common.signature
    && s.common.slot == first.common.slot
    && s.common.version == first.common.version
    && s.common.fecSetIndex == first.common.fecSetIndex
    && s.common.variant.proofSize == first.common.variant.proofSize
    && s.common.variant.resigned == first.common.variant.resigned
    && (match s
        case ShredData(common, _, _) => i < k && common.index == common.fecSetIndex + i
        case ShredCode(common, coding, _) =>
          && i >= k && common.index == first.common.index + (i - k)
          && coding.numDataShreds == k && coding.numCodingShreds == m && coding.position == i - k)
  }

  predicate IsMember(s: Shred, first: Shred, k: nat, m: nat, i: nat) {
    IsParsed(s) && FitsAt(s, first, k, m, i) && ChainedMerkleRoot(s) == ChainedMerkleRoot(first)
  }

  predicate MemberAt(full: seq<Shred>, k: nat, m: nat, i: nat)
    requires i < |full| && k < |full|
  {
    IsMember(full[i], full[k], k, m, i)
  }

  predicate AllMembers(full: seq<Shred>, k: nat, m: nat) {
    && |full| == k + m && k > 0 && m > 0
    && forall i :: 0 <= i < |full| ==> MemberAt(full, k, m, i)
  }

  lemma ParsedFacts(s: Shred)
    requires IsParsed(s)
    ensures WellSized(s) && HeadersInPayload(s) && Sanitize(s).Success?
    ensures ErasureShardIndex(s).Success? && ChainedMerkleRoot(s).Success? && MerkleProof(s).Success?
    ensures RetransmitterSignature(s).Success? <==> s.common.variant.resigned
  {
    FromPayloadExact(s.payload, s);
    LayoutTilesPayload(s.common.variant, 0, false);
  }

  lemma FitsAtItsIndex(s: Shred, first: Shred, k: nat, m: nat, i: nat)
    requires FitsAt(s, first, k, m, i) && ErasureShardIndex(s).Success?
    ensures ErasureShardIndex(s) == Success(i)
  {
  }

  lemma MemberFacts(s: Shred, first: Shred, k: nat, m: nat, i: nat)
    requires IsMember(s, first, k, m, i)
    ensures WellSized(s) && HeadersInPayload(s) && Sanitize(s).Success?
    ensures ErasureShardIndex(s) == Success(i)
    ensures ChainedMerkleRoot(s).Success? && MerkleProof(s).Success?
    ensures RetransmitterSignature(s).Success? <==> s.common.variant.resigned
  {
    ParsedFacts(s);
    FitsAtItsIndex(s, first, k, m, i);
  }

  lemma MembersAreWellSized(full: seq<Shred>, k: nat, m: nat)
    requires AllMembers(full, k, m)
    ensures AllWellSized(full)
    ensures forall i :: 0 <= i < |full| ==> ErasureShardIndex(full[i]) == Success(i)
  {
    forall i | 0 <= i < |full| ensures WellSized(full[i]) && ErasureShardIndex(full[i]) == Success(i) {
      assert MemberAt(full, k, m, i);
      MemberFacts(full[i], full[k], k, m, i);
    }
  }

  function ShardsOf(full: seq<Shred>): (shards: seq<Bytes>)
    requires AllWellSized(full)
    ensures |shards| == |full|
  {
    seq<Bytes>(|full|, i requires 0 <= i < |full| => ErasureShard(full[i]).value)
  }

  /** The shred carries the proof of its leaf in the tree of the batch. */
  predicate HasOwnProof(h: Hasher, full: seq<Shred>, i: nat)
    requires i < |full| && AllWellSized(full)
  {
    MerkleProof(full[i]) == Success(ProofEntries(h, LeafHashes(h, full), i))
  }

  /**
    * A batch as its leader makes it: consistent sane shreds, erasure shards that form a codeword, and in
    * each shred the proof of its leaf in the tree of the batch. The retransmitters' signatures may differ.
    */
  predicate HonestBatch(h: Hasher, codeword: Codewords, full: seq<Shred>, k: nat, m: nat) {
    && NewCodec(k, m).Success? && AllMembers(full, k, m) && AllWellSized(full)
    && codeword(k, m, ShardsOf(full))
    && forall i :: 0 <= i < |full| ==> HasOwnProof(h, full, i)
  }

  // ----- What was received -----

  /** Different members of the batch, in any order. */
  predicate IsPartOf(received: seq<Shred>, full: seq<Shred>) {
    && (forall j :: 0 <= j < |received| ==> received[j] in full)
    && (forall i, j :: 0 <= i < j < |received| ==> received[i] != received[j])
  }

  function Presence(full: seq<Shred>, received: seq<Shred>): (mask: seq<bool>)
    ensures |mask| == |full|
  {
    seq(|full|, i requires 0 <= i < |full| => full[i] in received)
  }

  lemma PermutationIsPart(sorted: seq<Shred>, received: seq<Shred>, full: seq<Shred>)
    requires multiset(sorted) == multiset(received) && IsPartOf(received, full)
    ensures IsPartOf(sorted, full) && |sorted| == |received|
    ensures forall s :: s in sorted <==> s in received
    ensures Presence(full, sorted) == Presence(full, received)
  {
    PermutationFacts(sorted, received);
    assert Presence(full, sorted) == Presence(full, received);
    forall j | 0 <= j < |sorted| ensures sorted[j] in full {
      assert sorted[j] in received;
    }
    forall i, j | 0 <= i < j < |sorted| ensures sorted[i] != sorted[j] {
      if sorted[i] == sorted[j] {
        DuplicatesCount(sorted, i, j);
        CountsOnce(received, sorted[i]);
      }
    }
  }

  lemma MemberAtItsIndex(full: seq<Shred>, k: nat, m: nat, s: Shred)
    requires AllMembers(full, k, m) && s in full
    ensures ErasureShardIndex(s).Success? && ErasureShardIndex(s).value < |full|
    ensures full[ErasureShardIndex(s).value] == s
    ensures IsMember(s, full[k], k, m, ErasureShardIndex(s).value)
  {
    var i :| 0 <= i < |full| && full[i] == s;
    assert MemberAt(full, k, m, i);
    MemberFacts(s, full[k], k, m, i);
  }

  /** The comparator orders members by their places. */
  lemma MemberOrder(a: Shred, b: Shred, first: Shred, k: nat, m: nat, i: nat, j: nat)
    requires FitsAt(a, first, k, m, i) && FitsAt(b, first, k, m, j) && AtMost(a, b)
    ensures i <= j
  {
  }

  lemma MembersAscend(full: seq<Shred>, first: Shred, k: nat, m: nat, a: Shred, b: Shred, i: nat, j: nat)
    requires i < |full| && j < |full| && full[i] == a && full[j] == b && a != b
    requires FitsAt(a, first, k, m, i) && FitsAt(b, first, k, m, j) && AtMost(a, b)
    ensures i < j
  {
    MemberOrder(a, b, first, k, m, i, j);
  }

  /** Sorting puts a part of a batch in the order of its erasure shard indices, a coding shred last. */
  lemma SortedPartFacts(sorted: seq<Shred>, full: seq<Shred>, k: nat, m: nat)
    requires AllMembers(full, k, m) && IsPartOf(sorted, full) && IsSorted(sorted)
    requires exists s :: s in sorted && s.ShredCode?
    ensures sorted != [] && Last(sorted).ShredCode?
    ensures forall i, j :: 0 <= i < j < |sorted| ==>
              && ErasureShardIndex(sorted[i]).Success? && ErasureShardIndex(sorted[j]).Success?
              && ErasureShardIndex(sorted[i]).value < ErasureShardIndex(sorted[j]).value
  {
    CodeSortsLast(sorted);
    forall i, j | 0 <= i < j < |sorted|
      ensures ErasureShardIndex(sorted[i]).Success? && ErasureShardIndex(sorted[j]).Success?
      ensures ErasureShardIndex(sorted[i]).value < ErasureShardIndex(sorted[j]).value
    {
      var a, b := sorted[i], sorted[j];
      assert a != b && AtMost(a, b);
      MemberAtItsIndex(full, k, m, a);
      MemberAtItsIndex(full, k, m, b);
      MembersAscend(full, full[k], k, m, a, b, ErasureShardIndex(a).value, ErasureShardIndex(b).value);
    }
  }

  // ----- The steps of recovery on a part of an honest batch -----

  /** The template derived from any coding shred of the batch is that of the first one. */
  predicate IsTemplateOf(t: Template, first: Shred, last: Shred) {
    && first.ShredCode? && t.common == first.common && t.coding == first.coding
    && t.chainedRoot == ChainedMerkleRoot(first).ToOption()
    && t.retransmitter == RetransmitterSignature(last).ToOption()
  }

  lemma TemplateOfPart(sorted: seq<Shred>, full: seq<Shred>, k: nat, m: nat)
    requires AllMembers(full, k, m)
    requires sorted != [] && Last(sorted).ShredCode? && Last(sorted) in full
    ensures MakeTemplate(sorted).Success?
    ensures var t := MakeTemplate(sorted).value;
            && IsTemplateOf(t, full[k], Last(sorted)) && TemplateOk(t) && TemplateBounded(t)
            && t.NumData() == k && t.NumShards() == k + m
  {
    var last := Last(sorted);
    MemberAtItsIndex(full, k, m, last);
    MemberFacts(last, full[k], k, m, ErasureShardIndex(last).value);
    assert MemberAt(full, k, m, k);
    MemberFacts(full[k], full[k], k, m, k);
    TemplateFacts(sorted);
  }

  /** The headers of a member are those of its place. */
  lemma MemberStands(t: Template, s: Shred, first: Shred, last: Shred, k: nat, m: nat, i: nat)
    requires FitsAt(s, first, k, m, i) && FitsAt(first, first, k, m, k) && IsTemplateOf(t, first, last)
    requires i < k + m && s.VariantMatches() && first.VariantMatches() && TemplateBounded(t)
    ensures StandsAt(t, i, s)
  {
    if i < k {
      AddU32InRange(t.common.fecSetIndex, i);
    } else {
      AddU32InRange(t.common.index, i - k);
    }
  }

  /** The interleaving loop places the received members at their indices. */
  lemma PartIsPlaced(t: Template, sorted: seq<Shred>, full: seq<Shred>, k: nat, m: nat)
    requires AllMembers(full, k, m) && IsPartOf(sorted, full) && IsSorted(sorted)
    requires exists s :: s in sorted && s.ShredCode?
    requires MakeTemplate(sorted) == Success(t)
    ensures Assemble(t, sorted).Success?
    ensures var (batch, mask) := Assemble(t, sorted).value;
            && mask == Presence(full, sorted) && CountPresent(mask) == |sorted|
            && |batch| == |full|
            && forall i :: 0 <= i < |full| ==>
                 if mask[i] then batch[i] == full[i] else MakeStub(t, i) == Success(batch[i])
  {
    SortedPartFacts(sorted, full, k, m);
    TemplateOfPart(sorted, full, k, m);
    forall j | 0 <= j < |sorted| ensures FitsNext(t, sorted[j], 0) {
      MemberAtItsIndex(full, k, m, sorted[j]);
    }
    AssembleExact(t, sorted);
    var (batch, mask) := Assemble(t, sorted).value;
    MembersAreWellSized(full, k, m);
    forall i | 0 <= i < |full|
      ensures mask[i] <==> full[i] in sorted
      ensures if mask[i] then batch[i] == full[i] else MakeStub(t, i) == Success(batch[i])
    {
      MaskMeansReceived(t, sorted, i);
      if mask[i] {
        MemberAtItsIndex(full, k, m, batch[i]);
      }
    }
  }

  /** Stubs have erasure shards as long as those of the members they stand for. */
  lemma StubIsWellSized(t: Template, s: Shred, first: Shred, last: Shred, k: nat, m: nat, i: nat)
    requires IsMember(s, first, k, m, i) && IsMember(first, first, k, m, k) && IsTemplateOf(t, first, last)
    requires TemplateOk(t) && TemplateBounded(t) && i < k + m
    ensures MakeStub(t, i).Success? && IsStub(t, i, MakeStub(t, i).value)
    ensures WellSized(s) && MakeStub(t, i).value.common == s.common
    ensures MakeStub(t, i).value.Type() == s.Type()
    ensures ErasureShardLength(MakeStub(t, i).value) == ErasureShardLength(s)
  {
    StubFacts(t, i);
    MemberFacts(s, first, k, m, i);
    MemberFacts(first, first, k, m, k);
    MemberStands(t, s, first, last, k, m, i);
  }

  /** What stands in the place of a member: the member if it was received, else something of its length. */
  predicate IsPlaceFor(s: Shred, b: Shred, present: bool)
    requires WellSized(s)
  {
    WellSized(b) && ErasureShardLength(b) == ErasureShardLength(s) && (present ==> b == s)
  }

  lemma ShardLength(s: Shred)
    requires WellSized(s)
    ensures ErasureShard(s).Success? && |ErasureShard(s).value| == ErasureShardLength(s)
  {
  }

  /** The received batch carries shards of the codeword wherever the mask says so, and lengths to match elsewhere. */
  lemma ReceivedShardsAgree(full: seq<Shred>, batch: seq<Shred>, mask: seq<bool>, shards: seq<Bytes>)
    requires AllWellSized(full) && |batch| == |mask| == |full| == |shards|
    requires forall i :: 0 <= i < |full| ==> IsPlaceFor(full[i], batch[i], mask[i])
    requires forall i :: 0 <= i < |full| ==> ErasureShard(batch[i]) == Success(shards[i])
    ensures AgreeWherePresent(ShardsOf(full), shards, mask) && SameLengths(ShardsOf(full), shards)
  {
    forall i | 0 <= i < |full|
      ensures |ShardsOf(full)[i]| == |shards[i]| && (mask[i] ==> ShardsOf(full)[i] == shards[i])
    {
      assert IsPlaceFor(full[i], batch[i], mask[i]);
      ShardLength(full[i]);
      ShardLength(batch[i]);
    }
  }

  lemma PlacesAreWellSized(full: seq<Shred>, batch: seq<Shred>, mask: seq<bool>)
    requires AllWellSized(full) && |batch| == |mask| == |full|
    requires forall i :: 0 <= i < |full| ==> IsPlaceFor(full[i], batch[i], mask[i])
    ensures forall i :: 0 <= i < |full| ==>
              WellSized(batch[i]) && |ShardsOf(full)[i]| == ErasureShardLength(batch[i])
  {
    forall i | 0 <= i < |full| ensures WellSized(batch[i]) && |ShardsOf(full)[i]| == ErasureShardLength(batch[i]) {
      assert IsPlaceFor(full[i], batch[i], mask[i]);
      ShardLength(full[i]);
    }
  }

  /** When the code completes the shards of a batch, those are what is written back. */
  lemma ReconstructWrites(code: ReedSolomon, t: Template, k: nat, m: nat, batch: seq<Shred>, mask: seq<bool>,
      shards: seq<Bytes>, completed: seq<Bytes>)
    requires t.NumData() == k && t.NumShards() == k + m && NewCodec(k, m).Success?
    requires |batch| == |mask| && ErasureShards(batch) == Success(shards)
    requires code(k, m, shards, mask) == Success(completed)
    requires |completed| == |batch|
    requires forall i :: 0 <= i < |batch| ==> WellSized(batch[i]) && |completed[i]| == ErasureShardLength(batch[i])
    ensures Reconstruct(code, t, batch, mask) == Success(WriteShards(batch, completed))
  {
  }

  lemma ReceivedShardsComplete(code: ReedSolomon, codeword: Codewords, full: seq<Shred>, k: nat, m: nat,
      batch: seq<Shred>, mask: seq<bool>, shards: seq<Bytes>)
    requires IsErasureCode(code, codeword) && NewCodec(k, m).Success?
    requires AllWellSized(full) && codeword(k, m, ShardsOf(full)) && CountPresent(mask) >= k
    requires |batch| == |mask| == |shards| == |full| == k + m
    requires forall i :: 0 <= i < |full| ==> IsPlaceFor(full[i], batch[i], mask[i])
    requires forall i :: 0 <= i < |full| ==> ErasureShard(batch[i]) == Success(shards[i])
    ensures code(k, m, shards, mask) == Success(ShardsOf(full))
  {
    ReceivedShardsAgree(full, batch, mask, shards);
    ReconstructsCodeword(code, codeword, k, m, ShardsOf(full), shards, mask);
  }

  lemma ReceivedShardsExist(full: seq<Shred>, batch: seq<Shred>, mask: seq<bool>) returns (shards: seq<Bytes>)
    requires AllWellSized(full) && |batch| == |mask| == |full|
    requires forall i :: 0 <= i < |full| ==> IsPlaceFor(full[i], batch[i], mask[i])
    ensures ErasureShards(batch) == Success(shards) && |shards| == |full|
    ensures forall i :: 0 <= i < |full| ==> ErasureShard(batch[i]) == Success(shards[i])
  {
    PlacesAreWellSized(full, batch, mask);
    ErasureShardsExact(batch);
    shards := ErasureShards(batch).value;
  }

  /** Reconstruction brings back the erasure shard of every member. */
  lemma ShardsComeBack(code: ReedSolomon, codeword: Codewords, t: Template, full: seq<Shred>, k: nat, m: nat,
      batch: seq<Shred>, mask: seq<bool>)
    requires IsErasureCode(code, codeword) && NewCodec(k, m).Success?
    requires AllWellSized(full) && codeword(k, m, ShardsOf(full)) && |full| == k + m
    requires |batch| == |mask| == |full| && CountPresent(mask) >= k
    requires t.NumData() == k && t.NumShards() == k + m
    requires forall i :: 0 <= i < |full| ==> IsPlaceFor(full[i], batch[i], mask[i])
    requires forall i :: 0 <= i < |full| ==>
               WellSized(batch[i]) && |ShardsOf(full)[i]| == ErasureShardLength(batch[i])
    ensures Reconstruct(code, t, batch, mask) == Success(WriteShards(batch, ShardsOf(full)))
  {
    var shards := ReceivedShardsExist(full, batch, mask);
    ReceivedShardsComplete(code, codeword, full, k, m, batch, mask, shards);
    ReconstructWrites(code, t, k, m, batch, mask, shards, ShardsOf(full));
  }

  /** The member as it is before its proof is written: all of it but the proof and its retransmitter's signature. */
  predicate IsUnproved(s: Shred, b: Shred, retransmitter: Option<Signature>) {
    && WellSized(s) && WellSized(b) && b == s.(payload := b.payload)
    && b.payload[..ErasureShardStart(s.Type())] == s.payload[..ErasureShardStart(s.Type())]
    && ErasureShard(b) == ErasureShard(s)
    && ChainedMerkleRoot(b) == ChainedMerkleRoot(s)
    && RetransmitterSignature(b).ToOption() == retransmitter
  }

  /** The headers of a data shred after its signature lie within its erasure shard. */
  lemma DataHeadersFromShard(s: Shred, b: Bytes)
    requires s.ShredData? && WellSized(s) && HeadersInPayload(s) && |b| == |s.payload|
    requires b[..SIZE_OF_SIGNATURE] == s.payload[..SIZE_OF_SIGNATURE]
    requires var end := ChainedRootOffset(s.common.variant);
             end <= |b| && b[SIZE_OF_SIGNATURE..end] == s.payload[SIZE_OF_SIGNATURE..end]
    ensures DecodeDataHeaders(b) == Success((s.common, s.data))
  {
    var end := ChainedRootOffset(s.common.variant);
    LayoutTilesPayload(s.common.variant, 0, false);
    assert b[..end] == b[..64] + b[64..end];
    assert s.payload[..end] == s.payload[..64] + s.payload[64..end];
    PrefixOfPrefix(b, s.payload, end, SIZE_OF_DATA_SHRED_HEADERS);
    DataHeadersExact(b, s.common, s.data);
  }

  /** A missing data shred: the stub with the member's erasure shard parses and sanitizes to the unproved member. */
  lemma MissingDataRefreshes(t: Template, s: Shred, i: nat, rebuilt: Shred)
    requires s.ShredData? && rebuilt.ShredData? && WellSized(s) && WellSized(rebuilt)
    requires HeadersInPayload(s) && Sanitize(s).Success? && i < t.NumData() && rebuilt.common == s.common
    requires rebuilt.payload[..SIZE_OF_SIGNATURE] == s.payload[..SIZE_OF_SIGNATURE]
    requires ErasureShard(rebuilt) == ErasureShard(s)
    ensures Refresh(t, i, rebuilt, false) == Success(rebuilt.(data := s.data))
  {
    DataHeadersFromShard(s, rebuilt.payload);
    SanitizeIgnoresPayload(s, rebuilt.(data := s.data));
  }

  /** A missing coding shred: its stub has the right headers from the start. */
  lemma MissingCodeRefreshes(t: Template, s: Shred, i: nat, rebuilt: Shred)
    requires s.ShredCode? && rebuilt.ShredCode? && WellSized(s) && WellSized(rebuilt)
    requires Sanitize(s).Success? && i >= t.NumData()
    requires rebuilt.common == s.common && rebuilt.coding == s.coding
    ensures Refresh(t, i, rebuilt, false) == Success(rebuilt)
  {
    SanitizeIgnoresPayload(s, rebuilt);
  }

  /** The bytes before the erasure shard of a stub are those of the member it stands for. */
  lemma StubPrefix(t: Template, s: Shred, i: nat, stub: Shred)
    requires WellSized(s) && HeadersInPayload(s) && StandsAt(t, i, s) && IsStub(t, i, stub)
    ensures stub.payload[..ErasureShardStart(s.Type())] == s.payload[..ErasureShardStart(s.Type())]
  {
    if s.ShredData? {
      var headers := EncodeCommonHeader(s.common) + EncodeDataHeader(s.data);
      assert headers[..SIZE_OF_SIGNATURE] == s.common.signature;
      PrefixOfPrefix(s.payload, headers, SizeOfHeaders(Data), SIZE_OF_SIGNATURE);
    }
  }

  lemma ChainedRootComesBack(t: Template, s: Shred, first: Shred, last: Shred, stub: Shred)
    requires IsTemplateOf(t, first, last) && ChainedMerkleRoot(s) == ChainedMerkleRoot(first)
    requires ChainedMerkleRoot(s).Success? && WellSized(stub)
    requires ChainedMerkleRoot(stub).ToOption() == t.chainedRoot
    ensures ChainedMerkleRoot(stub) == ChainedMerkleRoot(s)
  {
  }

  lemma UnprovedFacts(s: Shred, rebuilt: Shred, b: Shred, retransmitter: Option<Signature>)
    requires WellSized(s) && WellSized(rebuilt) && rebuilt.common == s.common
    requires b == s.(payload := rebuilt.payload)
    requires rebuilt.payload[..ErasureShardStart(s.Type())] == s.payload[..ErasureShardStart(s.Type())]
    requires ErasureShard(rebuilt) == ErasureShard(s) && ChainedMerkleRoot(rebuilt) == ChainedMerkleRoot(s)
    requires RetransmitterSignature(rebuilt).ToOption() == retransmitter
    ensures IsUnproved(s, b, retransmitter)
  {
  }

  lemma MissingComesBack(t: Template, s: Shred, first: Shred, last: Shred, k: nat, m: nat, i: nat, stub: Shred)
    requires IsMember(s, first, k, m, i) && IsMember(first, first, k, m, k) && IsTemplateOf(t, first, last)
    requires TemplateOk(t) && TemplateBounded(t) && i < k + m && t.NumData() == k
    requires MakeStub(t, i) == Success(stub) && WellSized(s) && WellSized(stub)
    requires ErasureShardLength(stub) == ErasureShardLength(s)
    ensures var rebuilt := SetErasureShard(stub, ErasureShard(s).value);
            && Refresh(t, i, rebuilt, false).Success?
            && IsUnproved(s, Refresh(t, i, rebuilt, false).value, t.retransmitter)
  {
    var shard := ErasureShard(s).value;
    var rebuilt := SetErasureShard(stub, shard);
    StubIsWellSized(t, s, first, last, k, m, i);
    MemberFacts(s, first, k, m, i);
    MemberFacts(first, first, k, m, k);
    MemberStands(t, s, first, last, k, m, i);
    ErasureShardSetterFrame(stub, shard);
    StubPrefix(t, s, i, stub);
    ChainedRootComesBack(t, s, first, last, stub);
    if i < k {
      MissingDataRefreshes(t, s, i, rebuilt);
      UnprovedFacts(s, rebuilt, rebuilt.(data := s.data), t.retransmitter);
    } else {
      MissingCodeRefreshes(t, s, i, rebuilt);
      UnprovedFacts(s, rebuilt, rebuilt, t.retransmitter);
    }
  }

  // ----- From unproved members to the batch -----

  lemma SamePrefix(b: Bytes, c: Bytes, e: nat, mid: nat, hi: nat)
    requires e <= mid <= hi <= |b| && |c| == |b|
    requires b[..e] == c[..e] && b[e..mid] == c[e..mid] && b[mid..hi] == c[mid..hi]
    ensures b[..hi] == c[..hi]
  {
    assert b[..hi] == b[..e] + b[e..mid] + b[mid..hi];
    assert c[..hi] == c[..e] + c[e..mid] + c[mid..hi];
  }

  /** The leaf of a member does not depend on its proof or on its retransmitter. */
  lemma UnprovedLeaf(s: Shred, b: Shred, retransmitter: Option<Signature>)
    requires IsUnproved(s, b, retransmitter)
    ensures LeafBytes(b) == LeafBytes(s)
  {
    var v := s.common.variant;
    var e, c, p := ErasureShardStart(s.Type()), ChainedRootOffset(v), ProofOffset(v);
    LayoutTilesPayload(v, 0, false);
    SamePrefix(b.payload, s.payload, e, c, p);
    assert b.payload[..p][SIZE_OF_SIGNATURE..] == b.payload[SIZE_OF_SIGNATURE..p];
    assert s.payload[..p][SIZE_OF_SIGNATURE..] == s.payload[SIZE_OF_SIGNATURE..p];
  }

  /** The original, with the retransmitter's signature replaced where the batch carries one. */
  function AsRecovered(s: Shred, retransmitter: Option<Signature>): Shred
    requires WellSized(s) && (retransmitter.Some? <==> s.common.variant.resigned)
  {
    LayoutTilesPayload(s.common.variant, 0, false);
    if retransmitter.Some? then Overwrite(s, RetransmitterOffset(s.common.variant), retransmitter.value) else s
  }

  lemma AsRecoveredFacts(h: Hasher, s: Shred, retransmitter: Option<Signature>)
    requires WellSized(s) && (retransmitter.Some? <==> s.common.variant.resigned)
    ensures var r := AsRecovered(s, retransmitter);
            && WellSized(r) && r == s.(payload := r.payload)
            && r.payload[..ErasureShardStart(s.Type())] == s.payload[..ErasureShardStart(s.Type())]
            && ErasureShard(r) == ErasureShard(s)
            && ChainedMerkleRoot(r) == ChainedMerkleRoot(s)
            && MerkleProof(r) == MerkleProof(s)
            && RetransmitterSignature(r).ToOption() == retransmitter
  {
    LayoutTilesPayload(s.common.variant, 0, false);
    if retransmitter.Some? {
      var at := RetransmitterOffset(s.common.variant);
      RetransmitterSetterFrame(h, s, retransmitter.value);
      AgreeingSlice(s.payload, AsRecovered(s, retransmitter).payload, at, |s.payload|, 0, ErasureShardStart(s.Type()));
    }
  }

  lemma SameRetransmitter(a: Shred, b: Shred)
    requires WellSized(a) && WellSized(b) && a.common == b.common
    requires RetransmitterSignature(a).ToOption() == RetransmitterSignature(b).ToOption()
    ensures RetransmitterSignature(a) == RetransmitterSignature(b)
  {
    LayoutTilesPayload(a.common.variant, 0, false);
  }

  /** With its proof written, an unproved member is the original. */
  lemma ProvedIsOriginal(h: Hasher, s: Shred, b: Shred, retransmitter: Option<Signature>, proof: seq<MerkleProofEntry>)
    requires IsUnproved(s, b, retransmitter) && (retransmitter.Some? <==> s.common.variant.resigned)
    requires MerkleProof(s) == Success(proof) && |proof| == s.common.variant.proofSize
    ensures SetMerkleProof(b, Success(proof)) == Success(AsRecovered(s, retransmitter))
  {
    ProofSetterFrame(h, b, proof);
    AsRecoveredFacts(h, s, retransmitter);
    var f, r := SetMerkleProof(b, Success(proof)).value, AsRecovered(s, retransmitter);
    var v := s.common.variant;
    LayoutTilesPayload(v, 0, false);
    AgreeingSlice(b.payload, f.payload, ProofOffset(v), RetransmitterOffset(v), 0, ErasureShardStart(s.Type()));
    SameRetransmitter(f, r);
    PayloadIsItsRegions(f, r);
  }

  /** How the refreshed batch relates to the original one, place by place. */
  predicate IsComeback(s: Shred, b: Shred, present: bool, retransmitter: Option<Signature>) {
    if present then b == s else IsUnproved(s, b, retransmitter)
  }

  /** What stands in a place of the batch, completed with the member's erasure shard, refreshes to the member. */
  predicate Returns(t: Template, i: nat, s: Shred, placed: Shred, present: bool) {
    && WellSized(s) && IsPlaceFor(s, placed, present)
    && var refreshed := Refresh(t, i, SetErasureShard(placed, ErasureShard(s).value), present);
       refreshed.Success? && IsComeback(s, refreshed.value, present, t.retransmitter)
  }

  lemma PlaceReturns(t: Template, full: seq<Shred>, k: nat, m: nat, last: Shred, i: nat, placed: Shred, present: bool)
    requires AllMembers(full, k, m) && i < |full| && IsTemplateOf(t, full[k], last)
    requires TemplateOk(t) && TemplateBounded(t) && t.NumData() == k
    requires if present then placed == full[i] else MakeStub(t, i) == Success(placed)
    ensures Returns(t, i, full[i], placed, present)
  {
    assert MemberAt(full, k, m, i) && MemberAt(full, k, m, k);
    MemberFacts(full[i], full[k], k, m, i);
    if present {
      ErasureShardSetterFrame(placed, ErasureShard(full[i]).value);
    } else {
      StubIsWellSized(t, full[i], full[k], last, k, m, i);
      MissingComesBack(t, full[i], full[k], last, k, m, i, placed);
    }
  }

  predicate AllReturn(t: Template, full: seq<Shred>, placed: seq<Shred>, mask: seq<bool>)
    requires |placed| == |mask| == |full|
  {
    forall i :: 0 <= i < |full| ==> Returns(t, i, full[i], placed[i], mask[i])
  }

  lemma PlacesReturn(t: Template, full: seq<Shred>, k: nat, m: nat, last: Shred, placed: seq<Shred>, mask: seq<bool>)
    requires AllMembers(full, k, m) && IsTemplateOf(t, full[k], last)
    requires TemplateOk(t) && TemplateBounded(t) && t.NumData() == k
    requires |placed| == |mask| == |full|
    requires forall i :: 0 <= i < |full| ==>
               if mask[i] then placed[i] == full[i] else MakeStub(t, i) == Success(placed[i])
    ensures AllReturn(t, full, placed, mask)
  {
    forall i | 0 <= i < |full| ensures Returns(t, i, full[i], placed[i], mask[i]) {
      PlaceReturns(t, full, k, m, last, i, placed[i], mask[i]);
    }
  }

  lemma ReturnsArePlaces(t: Template, full: seq<Shred>, placed: seq<Shred>, mask: seq<bool>)
    requires |placed| == |mask| == |full| && AllReturn(t, full, placed, mask) && AllWellSized(full)
    ensures forall i :: 0 <= i < |full| ==> IsPlaceFor(full[i], placed[i], mask[i])
  {
    forall i | 0 <= i < |full| ensures IsPlaceFor(full[i], placed[i], mask[i]) {
      assert Returns(t, i, full[i], placed[i], mask[i]);
    }
  }

  predicate CameBackAt(t: Template, i: nat, s: Shred, rebuilt: Shred, present: bool, b: Shred) {
    Refresh(t, i, rebuilt, present) == Success(b) && IsComeback(s, b, present, t.retransmitter)
  }

  lemma OneReturns(t: Template, full: seq<Shred>, placed: seq<Shred>, mask: seq<bool>, i: nat) returns (b: Shred)
    requires |placed| == |mask| == |full| && i < |full| && AllWellSized(full)
    requires Returns(t, i, full[i], placed[i], mask[i])
    requires forall i :: 0 <= i < |full| ==>
               WellSized(placed[i]) && |ShardsOf(full)[i]| == ErasureShardLength(placed[i])
    ensures CameBackAt(t, i, full[i], WriteShards(placed, ShardsOf(full))[i], mask[i], b)
  {
    assert WriteShards(placed, ShardsOf(full))[i] == SetErasureShard(placed[i], ErasureShard(full[i]).value);
    b := Refresh(t, i, SetErasureShard(placed[i], ErasureShard(full[i]).value), mask[i]).value;
  }

  predicate CameBack(t: Template, full: seq<Shred>, rebuilt: seq<Shred>, mask: seq<bool>, batch: seq<Shred>) {
    && |batch| <= |full| == |rebuilt| == |mask|
    && forall i :: 0 <= i < |batch| ==> CameBackAt(t, i, full[i], rebuilt[i], mask[i], batch[i])
  }

  /** The refreshed batch: every shred as it was, up to proofs and signatures of retransmitters. */
  lemma RefreshedBatch(t: Template, full: seq<Shred>, placed: seq<Shred>, mask: seq<bool>) returns (batch: seq<Shred>)
    requires |placed| == |mask| == |full| && AllReturn(t, full, placed, mask) && AllWellSized(full)
    requires forall i :: 0 <= i < |full| ==>
               WellSized(placed[i]) && |ShardsOf(full)[i]| == ErasureShardLength(placed[i])
    ensures |batch| == |full| && CameBack(t, full, WriteShards(placed, ShardsOf(full)), mask, batch)
  {
    var rebuilt := WriteShards(placed, ShardsOf(full));
    batch := seq<Shred>(|full|, i requires 0 <= i < |full| => AfterRefresh(t, i, rebuilt[i], mask[i]));
    forall i | 0 <= i < |full| ensures CameBackAt(t, i, full[i], rebuilt[i], mask[i], batch[i]) {
      assert Returns(t, i, full[i], placed[i], mask[i]);
      var b := OneReturns(t, full, placed, mask, i);
    }
  }

  lemma BatchComesBack(code: ReedSolomon, codeword: Codewords, t: Template, full: seq<Shred>, k: nat, m: nat,
      placed: seq<Shred>, mask: seq<bool>)
    returns (rebuilt: seq<Shred>, batch: seq<Shred>)
    requires IsErasureCode(code, codeword) && NewCodec(k, m).Success?
    requires AllWellSized(full) && codeword(k, m, ShardsOf(full)) && |full| == k + m
    requires t.NumData() == k && t.NumShards() == k + m
    requires |placed| == |mask| == |full| && CountPresent(mask) >= k
    requires AllReturn(t, full, placed, mask)
    ensures Reconstruct(code, t, placed, mask) == Success(rebuilt)
    ensures |batch| == |full| && CameBack(t, full, rebuilt, mask, batch)
  {
    ReturnsArePlaces(t, full, placed, mask);
    PlacesAreWellSized(full, placed, mask);
    ShardsComeBack(code, codeword, t, full, k, m, placed, mask);
    rebuilt := WriteShards(placed, ShardsOf(full));
    batch := RefreshedBatch(t, full, placed, mask);
  }

  /** The batch that came back has the leaves, hence the tree, of the original one. */
  lemma LeavesComeBack(h: Hasher, full: seq<Shred>, batch: seq<Shred>, mask: seq<bool>,
      retransmitter: Option<Signature>)
    requires AllWellSized(full) && |batch| == |mask| == |full|
    requires forall i :: 0 <= i < |full| ==> IsComeback(full[i], batch[i], mask[i], retransmitter)
    ensures AllWellSized(batch) && LeafHashes(h, batch) == LeafHashes(h, full)
  {
    forall i | 0 <= i < |full| ensures WellSized(batch[i]) && LeafBytes(batch[i]) == LeafBytes(full[i]) {
      assert IsComeback(full[i], batch[i], mask[i], retransmitter);
      if !mask[i] {
        UnprovedLeaf(full[i], batch[i], retransmitter);
      }
    }
  }

  /** Every member of an honest batch proves the root of its tree. */
  lemma HonestRoot(h: Hasher, codeword: Codewords, full: seq<Shred>, k: nat, m: nat, s: Shred)
    requires HonestBatch(h, codeword, full, k, m) && s in full
    ensures MerkleRoot(h, s) == Success(TreeRoot(h, LeafHashes(h, full)))
  {
    MemberAtItsIndex(full, k, m, s);
    var i := ErasureShardIndex(s).value;
    assert HasOwnProof(h, full, i);
    NodeOfWellSized(h, s);
    FoldReachesRoot(h, LeafHashes(h, full), i);
  }

  // ----- The theorem -----

  /** The members that were not received, in ascending order, as recovery should yield them. */
  function Lost(full: seq<Shred>, received: seq<Shred>, retransmitter: Option<Signature>): seq<Result<Shred, Error>>
    requires AllWellSized(full)
    requires forall i :: 0 <= i < |full| ==> (retransmitter.Some? <==> full[i].common.variant.resigned)
  {
    var missing := Missing(Presence(full, received));
    MissingExact(Presence(full, received));
    seq<Result<Shred, Error>>(|missing|, j requires 0 <= j < |missing| =>
      assert missing[j] in missing;
      Success(AsRecovered(full[missing[j]], retransmitter)))
  }

  /** The root check passes on a batch with the tree that the expected root belongs to. */
  lemma RootIsChecked(h: Hasher, t: Template, rebuilt: seq<Shred>, mask: seq<bool>, batch: seq<Shred>, root: Hash)
    requires |rebuilt| == |mask| == |batch| > 0 && AllWellSized(batch)
    requires forall i :: 0 <= i < |batch| ==> Refresh(t, i, rebuilt[i], mask[i]) == Success(batch[i])
    requires root == TreeRoot(h, LeafHashes(h, batch))
    ensures CheckedRoot(h, t, rebuilt, mask, root)
         == Success(Prepared(t, batch, mask, TreeNodes(h, LeafHashes(h, batch))))
  {
    TreeOfBatch(h, t, rebuilt, mask, batch);
    RootIsLast(h, LeafHashes(h, batch));
  }

  lemma PrepareSteps(h: Hasher, code: ReedSolomon, sorted: seq<Shred>, t: Template, root: Hash, placed: seq<Shred>,
      mask: seq<bool>, rebuilt: seq<Shred>, p: Prepared)
    requires MakeTemplate(sorted) == Success(t) && t.common.variant.MerkleCode?
    requires MerkleRoot(h, Last(sorted)) == Success(root)
    requires |placed| == |mask| && Assemble(t, sorted) == Success((placed, mask))
    requires Reconstruct(code, t, placed, mask) == Success(rebuilt)
    requires CheckedRoot(h, t, rebuilt, mask, root) == Success(p)
    ensures Prepare(h, code, sorted) == Success(p)
  {
  }

  lemma ReturnedBatchPrepares(h: Hasher, code: ReedSolomon, codeword: Codewords, full: seq<Shred>, k: nat, m: nat,
      sorted: seq<Shred>, t: Template, placed: seq<Shred>, mask: seq<bool>)
    returns (p: Prepared)
    requires IsErasureCode(code, codeword) && NewCodec(k, m).Success?
    requires AllWellSized(full) && codeword(k, m, ShardsOf(full)) && |full| == k + m
    requires MakeTemplate(sorted) == Success(t) && t.common.variant.MerkleCode?
    requires t.NumData() == k && t.NumShards() == k + m
    requires |placed| == |mask| == |full| && CountPresent(mask) >= k
    requires Assemble(t, sorted) == Success((placed, mask)) && AllReturn(t, full, placed, mask)
    requires MerkleRoot(h, Last(sorted)) == Success(TreeRoot(h, LeafHashes(h, full)))
    ensures Prepare(h, code, sorted) == Success(p)
    ensures p.mask == mask && |p.batch| == |full| && p.tree == TreeNodes(h, LeafHashes(h, full))
    ensures forall i :: 0 <= i < |full| ==> IsComeback(full[i], p.batch[i], mask[i], t.retransmitter)
  {
    var rebuilt, batch := BatchComesBack(code, codeword, t, full, k, m, placed, mask);
    assert forall i :: 0 <= i < |full| ==> CameBackAt(t, i, full[i], rebuilt[i], mask[i], batch[i]);
    LeavesComeBack(h, full, batch, mask, t.retransmitter);
    var root := TreeRoot(h, LeafHashes(h, full));
    RootIsChecked(h, t, rebuilt, mask, batch, root);
    p := Prepared(t, batch, mask, TreeNodes(h, LeafHashes(h, batch)));
    PrepareSteps(h, code, sorted, t, root, placed, mask, rebuilt, p);
  }

  /** Recovery up to the root check, on a sorted part of an honest batch. */
  lemma HonestPartPrepares(h: Hasher, code: ReedSolomon, codeword: Codewords, full: seq<Shred>, k: nat, m: nat,
      sorted: seq<Shred>)
    returns (p: Prepared)
    requires IsErasureCode(code, codeword) && HonestBatch(h, codeword, full, k, m)
    requires IsPartOf(sorted, full) && IsSorted(sorted) && |sorted| >= k
    requires exists s :: s in sorted && s.ShredCode?
    ensures sorted != [] && Last(sorted) in full && Prepare(h, code, sorted) == Success(p)
    ensures p.mask == Presence(full, sorted) && |p.batch| == |full|
    ensures p.tree == TreeNodes(h, LeafHashes(h, full))
    ensures forall i :: 0 <= i < |full| ==>
              IsComeback(full[i], p.batch[i], p.mask[i], RetransmitterSignature(Last(sorted)).ToOption())
  {
    SortedPartFacts(sorted, full, k, m);
    var last := Last(sorted);
    assert last in full;
    TemplateOfPart(sorted, full, k, m);
    var t := MakeTemplate(sorted).value;
    PartIsPlaced(t, sorted, full, k, m);
    var placed, mask := Assemble(t, sorted).value.0, Assemble(t, sorted).value.1;
    PlacesReturn(t, full, k, m, last, placed, mask);
    HonestRoot(h, codeword, full, k, m, last);
    p := ReturnedBatchPrepares(h, code, codeword, full, k, m, sorted, t, placed, mask);
  }

  lemma LostComesBack(h: Hasher, codeword: Codewords, full: seq<Shred>, k: nat, m: nat, p: Prepared, i: nat,
      retransmitter: Option<Signature>)
    requires HonestBatch(h, codeword, full, k, m) && i < |full|
    requires retransmitter.Some? <==> full[i].common.variant.resigned
    requires IsPrepared(p) && |p.batch| == |full| && p.tree == TreeNodes(h, LeafHashes(h, full))
    requires IsUnproved(full[i], p.batch[i], retransmitter)
    ensures Finish(p, i) == Success(AsRecovered(full[i], retransmitter))
  {
    var proof := ProofEntries(h, LeafHashes(h, full), i);
    assert HasOwnProof(h, full, i);
    IteratorIsExact(h, LeafHashes(h, full), i, |full|);
    MerkleProofOfWellSized(full[i]);
    ProvedIsOriginal(h, full[i], p.batch[i], retransmitter, proof);
  }

  /** The items of a prepared batch that came back are the lost members. */
  lemma ItemsAreLost(h: Hasher, codeword: Codewords, full: seq<Shred>, k: nat, m: nat, p: Prepared,
      received: seq<Shred>, retransmitter: Option<Signature>)
    requires HonestBatch(h, codeword, full, k, m) && IsPrepared(p) && |p.batch| == |full|
    requires p.mask == Presence(full, received) && p.tree == TreeNodes(h, LeafHashes(h, full))
    requires forall i :: 0 <= i < |full| ==> (retransmitter.Some? <==> full[i].common.variant.resigned)
    requires forall i :: 0 <= i < |full| ==> IsComeback(full[i], p.batch[i], p.mask[i], retransmitter)
    ensures FinishMissing(p) == Lost(full, received, retransmitter)
  {
    MissingExact(p.mask);
    var items, lost := FinishMissing(p), Lost(full, received, retransmitter);
    forall j | 0 <= j < |Missing(p.mask)| ensures items[j] == lost[j] {
      var i := Missing(p.mask)[j];
      assert i in Missing(p.mask);
      assert IsComeback(full[i], p.batch[i], p.mask[i], retransmitter);
      LostComesBack(h, codeword, full, k, m, p, i, retransmitter);
    }
  }

  lemma ResignedTogether(full: seq<Shred>, k: nat, m: nat, last: Shred)
    requires AllMembers(full, k, m) && last in full
    ensures forall i :: 0 <= i < |full| ==>
              (RetransmitterSignature(last).ToOption().Some? <==> full[i].common.variant.resigned)
  {
    MemberAtItsIndex(full, k, m, last);
    ParsedFacts(last);
    forall i | 0 <= i < |full| ensures full[i].common.variant.resigned <==> last.common.variant.resigned {
      assert MemberAt(full, k, m, i);
    }
  }

  /**
    * Recovery is the inverse of loss. From every part of an honest batch that has at least `k` members and
    * a coding shred among them, in whatever order it is received and sorted, recovery succeeds and yields
    * exactly the other members in ascending order, equal to the originals in headers and in every byte of
    * their payloads except a retransmitter's signature, which is that of the last coding shred received.
    */
  lemma RecoveryInvertsLoss(h: Hasher, code: ReedSolomon, codeword: Codewords, full: seq<Shred>, k: nat, m: nat,
      received: seq<Shred>, sorted: seq<Shred>)
    requires IsErasureCode(code, codeword) && HonestBatch(h, codeword, full, k, m)
    requires IsPartOf(received, full) && |received| >= k && exists s :: s in received && s.ShredCode?
    requires IsSortOf(sorted, received)
    ensures sorted != []
    ensures var retransmitter := RetransmitterSignature(Last(sorted)).ToOption();
            && (forall i :: 0 <= i < |full| ==> (retransmitter.Some? <==> full[i].common.variant.resigned))
            && RecoverSorted(h, code, sorted) == Success(Lost(full, received, retransmitter))
  {
    PermutationIsPart(sorted, received, full);
    assert exists s :: s in sorted && s.ShredCode?;
    var p := HonestPartPrepares(h, code, codeword, full, k, m, sorted);
    var retransmitter := RetransmitterSignature(Last(sorted)).ToOption();
    ResignedTogether(full, k, m, Last(sorted));
    ItemsAreLost(h, codeword, full, k, m, p, received, retransmitter);
  }
}
