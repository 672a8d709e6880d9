/** What every successful recovery guarantees, whatever was received (src/merkle.rs:608-870). */
module RecoveryTheorems {
  import opened Wrappers
  import opened Bytes
  import opened Errors
  import opened Headers
  import opened MerkleTree
  import opened MerkleTheorems
  import opened Shreds
  import opened Setters
  import opened ErasureCode
  import opened Recovery
  import opened BatchTheorems

  // ----- The prepared batch -----

  /** The bytes hashed into the leaf of a shred: what lies between its signature and its proof. */
  function LeafBytes(s: Shred): Bytes
    requires WellSized(s)
  {
    LayoutTilesPayload(s.common.variant, 0, false);
    s.payload[SIZE_OF_SIGNATURE..ProofOffset(s.common.variant)]
  }

  predicate AllWellSized(batch: seq<Shred>) {
    forall i :: 0 <= i < |batch| ==> WellSized(batch[i])
  }

  function LeafData(batch: seq<Shred>): (data: seq<Bytes>)
    requires AllWellSized(batch)
    ensures |data| == |batch|
  {
    seq(|batch|, i requires 0 <= i < |batch| => LeafBytes(batch[i]))
  }

  function LeafHashes(h: Hasher, batch: seq<Shred>): (leaves: seq<Hash>)
    requires AllWellSized(batch)
    ensures |leaves| == |batch|
  {
    seq<Hash>(|batch|, i requires 0 <= i < |batch| => h(LeafPreimage(LeafBytes(batch[i]))))
  }

  lemma NodeOfWellSized(h: Hasher, s: Shred)
    requires WellSized(s)
    ensures MerkleNode(h, s) == Success(h(LeafPreimage(LeafBytes(s))))
  {
    LayoutTilesPayload(s.common.variant, 0, false);
  }

  predicate RefreshedAt(t: Template, rebuilt: seq<Shred>, mask: seq<bool>, batch: seq<Shred>, i: nat)
    requires i < |rebuilt| == |mask| == |batch|
  {
    Refresh(t, i, rebuilt[i], mask[i]) == Success(batch[i])
  }

  predicate AllRefreshed(t: Template, rebuilt: seq<Shred>, mask: seq<bool>, batch: seq<Shred>) {
    && |rebuilt| == |mask| == |batch|
    && forall i :: 0 <= i < |batch| ==> RefreshedAt(t, rebuilt, mask, batch, i)
  }

  /** The tree of the batch, when every shred of it could be refreshed. */
  lemma TreeOfBatch(h: Hasher, t: Template, rebuilt: seq<Shred>, mask: seq<bool>, batch: seq<Shred>)
    requires AllRefreshed(t, rebuilt, mask, batch) && batch != [] && AllWellSized(batch)
    ensures Collect(RefreshAll(t, rebuilt, mask)) == Success(batch)
    ensures BuildTree(h, Leaves(h, RefreshAll(t, rebuilt, mask))) == Success(TreeNodes(h, LeafHashes(h, batch)))
  {
    var refreshed := RefreshAll(t, rebuilt, mask);
    forall i | 0 <= i < |batch| ensures refreshed[i] == Success(batch[i]) {
      assert RefreshedAt(t, rebuilt, mask, batch, i);
    }
    CollectAll(refreshed, batch);
    forall i | 0 <= i < |batch| ensures Leaves(h, refreshed)[i] == Success(LeafHashes(h, batch)[i]) {
      NodeOfWellSized(h, batch[i]);
    }
    BuildTreeShape(h, LeafHashes(h, batch), Leaves(h, refreshed));
  }

  /** The intermediate results of a successful `Prepare`. */
  predicate IsTraceOf(h: Hasher, code: ReedSolomon, sorted: seq<Shred>, p: Prepared, received: seq<Shred>,
      rebuilt: seq<Shred>) {
    && MakeTemplate(sorted) == Success(p.template)
    && Assemble(p.template, sorted) == Success((received, p.mask))
    && |received| == |p.mask| && Reconstruct(code, p.template, received, p.mask) == Success(rebuilt)
    && AllRefreshed(p.template, rebuilt, p.mask, p.batch)
    && AllWellSized(p.batch) && p.batch != []
    && p.tree == TreeNodes(h, LeafHashes(h, p.batch))
    && MerkleRoot(h, Last(sorted)) == Success(TreeRoot(h, LeafHashes(h, p.batch)))
  }

  lemma PreparedTrace(h: Hasher, code: ReedSolomon,
      sorted: seq<Shred>) returns (received: seq<Shred>, rebuilt: seq<Shred>)
    requires Prepare(h, code, sorted).Success?
    ensures IsTraceOf(h, code, sorted, Prepare(h, code, sorted).value, received, rebuilt)
  {
    var p := Prepare(h, code, sorted).value;
    var t := MakeTemplate(sorted).value;
    var assembled := Assemble(t, sorted).value;
    received := assembled.0;
    rebuilt := Reconstruct(code, t, received, assembled.1).value;
    RebuiltAreWellSized(received, assembled.1, rebuilt);
    RefreshedAreWellSized(t, rebuilt, assembled.1, p.batch);
    forall i | 0 <= i < |p.batch| ensures RefreshedAt(t, rebuilt, assembled.1, p.batch, i) {
      assert Refresh(t, i, rebuilt[i], assembled.1[i]) == Success(p.batch[i]);
    }
    var nodes := Leaves(h, RefreshAll(t, rebuilt, assembled.1));
    assert |nodes| == |p.batch| > 0;
    TreeOfBatch(h, t, rebuilt, assembled.1, p.batch);
    RootIsLast(h, LeafHashes(h, p.batch));
  }

  /** Neither reconstruction nor refreshing changes a received shred. */
  lemma PresentAreReceived(t: Template, received: seq<Shred>, rebuilt: seq<Shred>, mask: seq<bool>, batch: seq<Shred>)
    requires |received| == |mask| && IsRebuilt(received, mask, rebuilt) && AllRefreshed(t, rebuilt, mask, batch)
    ensures forall i :: 0 <= i < |batch| && mask[i] ==> batch[i] == received[i]
  {
    forall i | 0 <= i < |batch| && mask[i] ensures batch[i] == received[i] {
      assert RebuiltAt(received, mask, rebuilt, i) && RefreshedAt(t, rebuilt, mask, batch, i);
    }
  }

  lemma {:induction false} PushStubsExtends(t: Template, batch: seq<Shred>, upTo: nat)
    requires PushStubs(t, batch, upTo).Success?
    ensures batch <= PushStubs(t, batch, upTo).value
    decreases upTo - |batch|
  {
    if |batch| < upTo {
      PushStubsExtends(t, batch + [MakeStub(t, |batch|).value], upTo);
    }
  }

  lemma {:induction false} InterleaveKeepsLast(t: Template, shreds: seq<Shred>, batch: seq<Shred>, mask: seq<bool>)
    requires |batch| <= |mask| && Interleave(t, shreds, batch, mask).Success?
    ensures batch <= Interleave(t, shreds, batch, mask).value.0
    ensures shreds != [] ==> Last(shreds) in Interleave(t, shreds, batch, mask).value.0
    ensures shreds != [] ==> ErasureShardIndex(Last(shreds)).Success?
    decreases |shreds|
  {
    if shreds == [] {
      PushStubsExtends(t, batch, |mask|);
    } else {
      var index := ErasureShardIndex(shreds[0]).value;
      PushStubsExtends(t, batch, index);
      var more := PushStubs(t, batch, index).value + [shreds[0]];
      InterleaveKeepsLast(t, shreds[1..], more, mask[index := true]);
      assert more[|more| - 1] == shreds[0];
      if |shreds| > 1 {
        assert Last(shreds[1..]) == Last(shreds);
      }
    }
  }

  /** Even without a sound template, the last received shred is the last one pushed before the trailing stubs. */
  lemma ReceivedLast(t: Template, sorted: seq<Shred>, received: seq<Shred>, mask: seq<bool>)
    requires sorted != [] && Assemble(t, sorted) == Success((received, mask))
    ensures Last(sorted) in received && ErasureShardIndex(Last(sorted)).Success?
  {
    InterleaveKeepsLast(t, sorted, [], NothingPresent(t.NumShards()));
  }

  /** In a prepared batch the template is sound, received shreds are untouched, and every shred stands at its index. */
  lemma PreparedFacts(h: Hasher, code: ReedSolomon, sorted: seq<Shred>, p: Prepared, received: seq<Shred>,
      rebuilt: seq<Shred>)
    requires IsTraceOf(h, code, sorted, p, received, rebuilt)
    ensures TemplateOk(p.template) && TemplateBounded(p.template) && |p.batch| == p.template.NumShards()
    ensures Holds(p.batch, p.mask, Last(sorted))
    ensures forall i :: 0 <= i < |p.batch| ==>
              if p.mask[i] then p.batch[i] == received[i] && ErasureShardIndex(received[i]) == Success(i)
              else MakeStub(p.template, i) == Success(received[i]) && IsStub(p.template, i, received[i])
  {
    var t, last := p.template, Last(sorted);
    assert IsRebuilt(received, p.mask, rebuilt);
    RebuiltAreWellSized(received, p.mask, rebuilt);
    PresentAreReceived(t, received, rebuilt, p.mask, p.batch);
    ReceivedLast(t, sorted, received, p.mask);
    TemplateFacts(sorted);
    AssembleExact(t, sorted);
    assert Holds(received, p.mask, sorted[|sorted| - 1]);
    forall i | 0 <= i < |p.batch| && !p.mask[i] ensures IsStub(t, i, received[i]) {
      StubFacts(t, i);
    }
  }

  // ----- What is recovered: the places that were missing -----

  /** The erasure shard of `s`, provided it has the length of that of `stub`. */
  function ErasureShardOf(s: Shred, stub: Shred): (b: Bytes)
    requires WellSized(s) && WellSized(stub)
    ensures |b| == ErasureShardLength(stub)
  {
    var shard := ErasureShard(s).value;
    if |shard| == ErasureShardLength(stub) then shard else Zeros(ErasureShardLength(stub))
  }

  /** What is known of one missing place: its stub, the stub rebuilt, and the rebuilt stub refreshed. */
  predicate IsRecoveryOf(t: Template, i: nat, stub: Shred, s: Shred, b: Shred) {
    && TemplateOk(t) && TemplateBounded(t) && i < t.NumShards() && IsStub(t, i, stub)
    && WellSized(s) && s == SetErasureShard(stub, ErasureShardOf(s, stub))
    && Refresh(t, i, s, false) == Success(b) && WellSized(b)
  }

  lemma MissingIsRecovery(h: Hasher, code: ReedSolomon, sorted: seq<Shred>, p: Prepared, received: seq<Shred>,
      rebuilt: seq<Shred>, i: nat)
    requires IsTraceOf(h, code, sorted, p, received, rebuilt) && i < |p.batch| && !p.mask[i]
    ensures IsRecoveryOf(p.template, i, received[i], rebuilt[i], p.batch[i])
  {
    PreparedFacts(h, code, sorted, p, received, rebuilt);
    assert IsRebuilt(received, p.mask, rebuilt);
    assert RebuiltAt(received, p.mask, rebuilt, i) && RefreshedAt(p.template, rebuilt, p.mask, p.batch, i);
  }

  /** Refreshing leaves a shred with the headers that its payload holds. */
  lemma RefreshedHeaders(t: Template, i: nat, s: Shred, b: Shred)
    requires WellSized(s) && Refresh(t, i, s, false) == Success(b) && (s.ShredCode? ==> HeadersInPayload(s))
    ensures b.payload == s.payload && b.common == s.common && b.Type() == s.Type()
    ensures s.ShredCode? ==> b == s
    ensures HeadersInPayload(b) && Sanitize(b).Success?
  {
    if b.ShredData? {
      DataHeadersExact(s.payload, b.common, b.data);
    }
  }

  /** The recovered shred of a missing place before its proof is written. */
  lemma RecoveryFacts(t: Template, i: nat, stub: Shred, s: Shred, b: Shred)
    requires IsRecoveryOf(t, i, stub, s, b)
    ensures StandsAt(t, i, b) && ErasureShardIndex(b) == Success(i)
    ensures b.payload == s.payload && HeadersInPayload(b) && Sanitize(b).Success?
    ensures HasZeroProof(b)
    ensures b.common.variant.proofSize == t.common.variant.proofSize
  {
    var shard, v := ErasureShardOf(s, stub), stub.common.variant;
    ErasureShardSetterFrame(stub, shard);
    LayoutTilesPayload(v, 0, false);
    AgreeingSlice(stub.payload, s.payload, ErasureShardStart(s.Type()), ChainedRootOffset(v), ProofOffset(v),
                  RetransmitterOffset(v));
    RefreshedHeaders(t, i, s, b);
    StubStandsAtItsIndex(t, i, b);
  }

  /** A recovered shred is finished without an error exactly if its proof size is that of the batch. */
  lemma FinishedExactly(h: Hasher, p: Prepared, i: nat)
    requires IsPrepared(p) && i < |p.batch| && p.tree == TreeNodes(h, LeafHashes(h, p.batch))
    ensures Finish(p, i).Success? <==> p.batch[i].common.variant.proofSize == GetProofSize(|p.batch|)
    ensures Finish(p, i).Success? ==>
              Finish(p, i) == SetMerkleProof(p.batch[i], Success(ProofEntries(h, LeafHashes(h, p.batch), i)))
              && |ProofEntries(h, LeafHashes(h, p.batch), i)| == p.batch[i].common.variant.proofSize
  {
    IteratorIsExact(h, LeafHashes(h, p.batch), i, |p.batch|);
  }

  // ----- Main results -----

  /** The inputs hashed over the whole batch, leaves and inner nodes. */
  function BatchQueries(h: Hasher, batch: seq<Shred>): seq<Bytes>
    requires AllWellSized(batch)
  {
    LeafQueries(LeafData(batch)) + TreeQueries(h, LeafHashes(h, batch))
  }

  /** The inputs hashed to check the proof that a shred carries. */
  function ShredQueries(h: Hasher, s: Shred): seq<Bytes>
    requires WellSized(s) && ErasureShardIndex(s).Success? && MerkleProof(s).Success?
  {
    var leaf := LeafPreimage(LeafBytes(s));
    [leaf] + FoldQueries(h, ErasureShardIndex(s).value, h(leaf), MerkleProof(s).value)
  }

  lemma MerkleProofOfWellSized(s: Shred)
    requires WellSized(s)
    ensures MerkleProof(s).Success? && |MerkleProof(s).value| == s.common.variant.proofSize
  {
    var v := s.common.variant;
    LayoutTilesPayload(v, 0, false);
    FlattenChunks(s.payload[ProofOffset(v)..RetransmitterOffset(v)]);
  }

  /** The proof of a received shred that yields the root of the batch has the right length or collides. */
  lemma LastProofFitsOrCollides(h: Hasher, p: Prepared, last: Shred)
    requires IsPrepared(p) && p.batch != [] && Holds(p.batch, p.mask, last)
    requires MerkleRoot(h, last) == Success(TreeRoot(h, LeafHashes(h, p.batch)))
    ensures WellSized(last) && ErasureShardIndex(last).Success? && MerkleProof(last).Success?
    ensures || last.common.variant.proofSize == GetProofSize(|p.batch|)
            || CollisionBetween(h, BatchQueries(h, p.batch), ShredQueries(h, last))
  {
    MerkleProofOfWellSized(last);
    NodeOfWellSized(h, last);
    var index := ErasureShardIndex(last).value;
    WrongLengthCollides(h, LeafData(p.batch), LeafHashes(h, p.batch), index, LeafBytes(last), MerkleProof(last).value);
  }

  lemma ItemsFit(h: Hasher, code: ReedSolomon, sorted: seq<Shred>, p: Prepared, received: seq<Shred>,
    rebuilt: seq<Shred>)
    requires IsTraceOf(h, code, sorted, p, received, rebuilt)
    requires p.template.common.variant.proofSize == GetProofSize(|p.batch|)
    ensures forall j :: 0 <= j < |FinishMissing(p)| ==> FinishMissing(p)[j].Success?
  {
    MissingExact(p.mask);
    forall j | 0 <= j < |FinishMissing(p)| ensures FinishMissing(p)[j].Success? {
      var i := Missing(p.mask)[j];
      assert i in Missing(p.mask);
      MissingIsRecovery(h, code, sorted, p, received, rebuilt, i);
      RecoveryFacts(p.template, i, received[i], rebuilt[i], p.batch[i]);
      FinishedExactly(h, p, i);
    }
  }

  /**
    * If recovery gets past the root check, the proof size of the batch is the one its number of shards
    * demands, and then no item is an error; or the last coding shred's proof shows a hash collision.
    */
  lemma RecoveryProofsFitOrCollide(h: Hasher, code: ReedSolomon, sorted: seq<Shred>)
    ensures Prepare(h, code, sorted).Success? ==>
              var p, last := Prepare(h, code, sorted).value, Last(sorted);
              && WellSized(last) && ErasureShardIndex(last).Success? && MerkleProof(last).Success?
              && (|| (&& last.common.variant.proofSize == GetProofSize(|p.batch|)
                      && forall j :: 0 <= j < |FinishMissing(p)| ==> FinishMissing(p)[j].Success?)
                  || CollisionBetween(h, BatchQueries(h, p.batch), ShredQueries(h, last)))
  {
    if Prepare(h, code, sorted).Success? {
      var p, last := Prepare(h, code, sorted).value, Last(sorted);
      var received, rebuilt := PreparedTrace(h, code, sorted);
      PreparedFacts(h, code, sorted, p, received, rebuilt);
      LastProofFitsOrCollides(h, p, last);
      if last.common.variant.proofSize == GetProofSize(|p.batch|) {
        ItemsFit(h, code, sorted, p, received, rebuilt);
      }
    }
  }

  /** A shred that can be put on the wire: it parses to itself, is sane and proves the batch's root. */
  predicate StandsAlone(h: Hasher, s: Shred, root: Hash) {
    FromPayload(s.payload) == Success(s) && Sanitize(s).Success? && MerkleRoot(h, s) == Success(root)
  }

  lemma ReparsesToItself(s: Shred)
    requires WellSized(s) && HeadersInPayload(s) && Sanitize(s).Success?
    ensures FromPayload(s.payload) == Success(s)
  {
    FromPayloadExact(s.payload, s);
    assert s.payload[..|s.payload|] == s.payload;
  }

  lemma ProvedReparses(h: Hasher, b: Shred, proof: seq<MerkleProofEntry>)
    requires WellSized(b) && HeadersInPayload(b) && Sanitize(b).Success?
    requires |proof| == b.common.variant.proofSize
    ensures var s := SetMerkleProof(b, Success(proof)).value;
            Sanitize(s).Success? && FromPayload(s.payload) == Success(s)
  {
    ProofSetterFrame(h, b, proof);
    ReparsesToItself(SetMerkleProof(b, Success(proof)).value);
  }

  lemma IndexIgnoresPayload(b: Shred, s: Shred)
    requires s == b.(payload := s.payload)
    ensures ErasureShardIndex(s) == ErasureShardIndex(b)
  {
  }

  lemma RootFromReaders(h: Hasher, s: Shred, i: nat, leaf: Hash, proof: seq<MerkleProofEntry>)
    requires s.VariantMatches() && ErasureShardIndex(s) == Success(i)
    requires MerkleProof(s) == Success(proof) && MerkleNode(h, s) == Success(leaf)
    ensures MerkleRoot(h, s) == GetMerkleRoot(h, i, leaf, proof)
  {
  }

  lemma ProvedHasRoot(h: Hasher, b: Shred, leaf: Hash, i: nat, proof: seq<MerkleProofEntry>)
    requires WellSized(b) && ErasureShardIndex(b) == Success(i)
    requires MerkleNode(h, b) == Success(leaf) && |proof| == b.common.variant.proofSize
    ensures var s := SetMerkleProof(b, Success(proof)).value;
            ErasureShardIndex(s) == Success(i) && MerkleRoot(h, s) == GetMerkleRoot(h, i, leaf, proof)
  {
    ProofSetterFrame(h, b, proof);
    var s := SetMerkleProof(b, Success(proof)).value;
    IndexIgnoresPayload(b, s);
    RootFromReaders(h, s, i, leaf, proof);
  }

  /** Writing the proof of its leaf into a sane shred makes it stand alone. */
  lemma ProvedStandsAlone(h: Hasher, b: Shred, leaves: seq<Hash>, i: nat)
    requires WellSized(b) && HeadersInPayload(b) && Sanitize(b).Success? && ErasureShardIndex(b) == Success(i)
    requires i < |leaves| && MerkleNode(h, b) == Success(leaves[i])
    requires |ProofEntries(h, leaves, i)| == b.common.variant.proofSize
    ensures var finished := SetMerkleProof(b, Success(ProofEntries(h, leaves, i)));
            && finished.Success? && StandsAlone(h, finished.value, TreeRoot(h, leaves))
            && ErasureShardIndex(finished.value) == Success(i)
  {
    var proof := ProofEntries(h, leaves, i);
    ProvedReparses(h, b, proof);
    ProvedHasRoot(h, b, leaves[i], i, proof);
    FoldReachesRoot(h, leaves, i);
  }

  lemma FinishedStandsAlone(h: Hasher, p: Prepared, i: nat)
    requires IsPrepared(p) && i < |p.batch| && p.tree == TreeNodes(h, LeafHashes(h, p.batch))
    requires ErasureShardIndex(p.batch[i]) == Success(i)
    requires HeadersInPayload(p.batch[i]) && Sanitize(p.batch[i]).Success?
    requires Finish(p, i).Success?
    ensures StandsAlone(h, Finish(p, i).value, TreeRoot(h, LeafHashes(h, p.batch)))
    ensures ErasureShardIndex(Finish(p, i).value) == Success(i)
    ensures Finish(p, i).value == p.batch[i].(payload := Finish(p, i).value.payload)
  {
    FinishedExactly(h, p, i);
    NodeOfWellSized(h, p.batch[i]);
    ProvedStandsAlone(h, p.batch[i], LeafHashes(h, p.batch), i);
  }

  /** The shred names the erasure set of another one and has its signature. */
  predicate IsOfSetOf(s: Shred, last: Shred) {
    && s.common.signature == last.common.signature && s.common.slot == last.common.slot
    && s.common.version == last.common.version && s.common.fecSetIndex == last.common.fecSetIndex
    && s.common.variant.proofSize == last.common.variant.proofSize
    && s.common.variant.resigned == last.common.variant.resigned
    && (s.ShredCode? && last.ShredCode? ==>
          && s.coding.numDataShreds == last.coding.numDataShreds
          && s.coding.numCodingShreds == last.coding.numCodingShreds && FirstCodingIndex(s) == FirstCodingIndex(last))
  }

  lemma PlaceIsInSet(sorted: seq<Shred>, t: Template, i: nat, b: Shred)
    requires MakeTemplate(sorted) == Success(t) && TemplateOk(t) && TemplateBounded(t) && i < t.NumShards()
    requires StandsAt(t, i, b)
    ensures IsOfSetOf(b, Last(sorted))
  {
    StubStandsAtItsIndex(t, i, b);
  }

  lemma SetIgnoresPayload(b: Shred, s: Shred, last: Shred)
    requires IsOfSetOf(b, last) && s == b.(payload := s.payload)
    ensures IsOfSetOf(s, last)
  {
  }

  /** The item for the `j`-th missing place: at no received shred's index, and if no error, alone at its place. */
  predicate IsItemOf(h: Hasher, sorted: seq<Shred>, mask: seq<bool>, j: nat, item: Result<Shred, Error>)
    requires sorted != [] && j < |Missing(mask)| && MerkleRoot(h, Last(sorted)).Success?
  {
    && (forall s :: s in sorted ==> ErasureShardIndex(s) != Success(Missing(mask)[j]))
    && (item.Success? ==>
          && ErasureShardIndex(item.value) == Success(Missing(mask)[j]) && IsOfSetOf(item.value, Last(sorted))
          && StandsAlone(h, item.value, MerkleRoot(h, Last(sorted)).value))
  }

  lemma ItemFacts(h: Hasher, code: ReedSolomon, sorted: seq<Shred>, p: Prepared, received: seq<Shred>,
    rebuilt: seq<Shred>, j: nat)
    requires IsTraceOf(h, code, sorted, p, received, rebuilt) && IsPrepared(p) && j < |Missing(p.mask)|
    ensures IsItemOf(h, sorted, p.mask, j, FinishMissing(p)[j])
  {
    MissingExact(p.mask);
    var i := Missing(p.mask)[j];
    assert i in Missing(p.mask) && FinishMissing(p)[j] == Finish(p, i);
    PreparedFacts(h, code, sorted, p, received, rebuilt);
    MaskMeansReceived(p.template, sorted, i);
    if Finish(p, i).Success? {
      MissingIsRecovery(h, code, sorted, p, received, rebuilt, i);
      RecoveryFacts(p.template, i, received[i], rebuilt[i], p.batch[i]);
      PlaceIsInSet(sorted, p.template, i, p.batch[i]);
      FinishedStandsAlone(h, p, i);
      SetIgnoresPayload(p.batch[i], Finish(p, i).value, Last(sorted));
    }
  }

  /**
    * Recovery yields one item for each place that was missing, in ascending order and no other, so that
    * received and recovered shreds together fill the batch; every item that is not an error stands alone
    * at its place with the root of the last coding shred.
    */
  lemma RecoveredShredsStandAlone(h: Hasher, code: ReedSolomon, sorted: seq<Shred>)
    ensures RecoverSorted(h, code, sorted).Success? ==>
              var p, items := Prepare(h, code, sorted).value, RecoverSorted(h, code, sorted).value;
              && sorted != [] && MerkleRoot(h, Last(sorted)).Success?
              && |items| == |Missing(p.mask)| && |sorted| + |items| == p.template.NumShards()
              && Ascending(Missing(p.mask))
              && forall j :: 0 <= j < |items| ==> IsItemOf(h, sorted, p.mask, j, items[j])
  {
    if RecoverSorted(h, code, sorted).Success? {
      var p, items := Prepare(h, code, sorted).value, RecoverSorted(h, code, sorted).value;
      var received, rebuilt := PreparedTrace(h, code, sorted);
      PreparedFacts(h, code, sorted, p, received, rebuilt);
      AssembleExact(p.template, sorted);
      MissingExact(p.mask);
      forall j | 0 <= j < |items| ensures IsItemOf(h, sorted, p.mask, j, items[j]) {
        ItemFacts(h, code, sorted, p, received, rebuilt, j);
      }
    }
  }

  // ----- The fast path refines the full path -----

  /** The shred with its proof zeroed. */
  function WithoutProof(s: Shred): Shred
    requires WellSized(s)
  {
    LayoutTilesPayload(s.common.variant, 0, false);
    Overwrite(s, ProofOffset(s.common.variant), Zeros(s.common.variant.proofSize * SIZE_OF_MERKLE_PROOF_ENTRY))
  }

  lemma SpliceOver(b: Bytes, at: nat, x: Bytes, y: Bytes)
    requires at + |x| <= |b| && |x| == |y| && b[at..at + |y|] == y
    ensures Splice(Splice(b, at, x), at, y) == b
  {
  }

  /** Writing a proof over a zero proof and zeroing it again changes nothing. */
  lemma ZeroingUndoesProof(s: Shred, entries: seq<MerkleProofEntry>)
    requires WellSized(s) && |entries| == s.common.variant.proofSize
    requires HasZeroProof(s)
    ensures SetMerkleProof(s, Success(entries)).Success? && WellSized(SetMerkleProof(s, Success(entries)).value)
    ensures WithoutProof(SetMerkleProof(s, Success(entries)).value) == s
  {
    var v := s.common.variant;
    LayoutTilesPayload(v, 0, false);
    var at, zeros := ProofOffset(v), Zeros(v.proofSize * SIZE_OF_MERKLE_PROOF_ENTRY);
    SpliceOver(s.payload, at, Flatten(entries), zeros);
  }

  /** What the fast path yields for a missing place: the same shred the full path finishes, or nothing for code. */
  lemma ParsedIsUnfinished(t: Template, i: nat, stub: Shred, s: Shred, b: Shred)
    requires IsRecoveryOf(t, i, stub, s, b)
    ensures ParsedData(t, i, s) == if b.ShredData? then Some(b) else None
    ensures b.ShredData? <==> i < t.NumData()
  {
    ErasureShardSetterFrame(stub, ErasureShardOf(s, stub));
  }

  /** The data members among recovered shreds, in their order. */
  function DataOnly(shreds: seq<Shred>): seq<Shred> {
    if shreds == [] then []
    else if shreds[0].ShredData? then [shreds[0]] + DataOnly(shreds[1..])
    else DataOnly(shreds[1..])
  }

  /** The shreds of missing places from `start` on, as refreshed but without proofs. */
  function MissingShreds(p: Prepared, start: nat): seq<Shred>
    requires IsPrepared(p)
    decreases |p.batch| - start
  {
    if start >= |p.batch| then []
    else if p.mask[start] then MissingShreds(p, start + 1)
    else [p.batch[start]] + MissingShreds(p, start + 1)
  }

  /** Parsing a missing place gives its recovered shred if that is a data shred. */
  predicate ParsesToData(p: Prepared, rebuilt: seq<Shred>, i: nat)
    requires IsPrepared(p) && |rebuilt| == |p.batch| && i < |p.batch|
  {
    ParsedData(p.template, i, rebuilt[i]) == if p.batch[i].ShredData? then Some(p.batch[i]) else None
  }

  lemma {:induction false} ParsedAreDataOnly(p: Prepared, rebuilt: seq<Shred>, start: nat)
    requires IsPrepared(p) && |rebuilt| == |p.batch|
    requires forall i :: 0 <= i < |p.batch| && !p.mask[i] ==> ParsesToData(p, rebuilt, i)
    ensures ParsedMissing(p.template, rebuilt, p.mask, start) == DataOnly(MissingShreds(p, start))
    decreases |p.batch| - start
  {
    if start < |p.batch| {
      ParsedAreDataOnly(p, rebuilt, start + 1);
      if !p.mask[start] {
        assert ParsesToData(p, rebuilt, start);
        assert MissingShreds(p, start)[1..] == MissingShreds(p, start + 1);
      }
    }
  }

  lemma {:induction false} MissingShredsAt(p: Prepared, start: nat)
    requires IsPrepared(p) && start <= |p.batch|
    ensures |MissingShreds(p, start)| == |MissingFrom(p.mask, start)|
    ensures forall j :: 0 <= j < |MissingShreds(p, start)| ==>
              MissingFrom(p.mask, start)[j] < |p.batch|
              && MissingShreds(p, start)[j] == p.batch[MissingFrom(p.mask, start)[j]]
    decreases |p.batch| - start
  {
    if start < |p.batch| {
      MissingShredsAt(p, start + 1);
    }
  }

  function Values(items: seq<Result<Shred, Error>>): (shreds: seq<Shred>)
    requires forall j :: 0 <= j < |items| ==> items[j].Success?
    ensures |shreds| == |items|
  {
    seq(|items|, j requires 0 <= j < |items| => items[j].value)
  }

  function WithoutProofs(shreds: seq<Shred>): (r: seq<Shred>)
    requires AllWellSized(shreds)
    ensures |r| == |shreds|
  {
    seq<Shred>(|shreds|, j requires 0 <= j < |shreds| => WithoutProof(shreds[j]))
  }

  predicate AllOk(r: Result<seq<Result<Shred, Error>>, Error>) {
    r.Success? && forall j :: 0 <= j < |r.value| ==> r.value[j].Success?
  }

  /** Zeroing the proof of a finished item gives back the refreshed shred of its place. */
  lemma ItemWithoutProof(h: Hasher, code: ReedSolomon, sorted: seq<Shred>, p: Prepared, received: seq<Shred>,
    rebuilt: seq<Shred>, j: nat)
    requires IsTraceOf(h, code, sorted, p, received, rebuilt) && IsPrepared(p) && j < |Missing(p.mask)|
    requires FinishMissing(p)[j].Success?
    ensures j < |MissingShreds(p, 0)| && WellSized(FinishMissing(p)[j].value)
    ensures WithoutProof(FinishMissing(p)[j].value) == MissingShreds(p, 0)[j]
  {
    MissingExact(p.mask);
    MissingShredsAt(p, 0);
    var i := Missing(p.mask)[j];
    assert i in Missing(p.mask) && FinishMissing(p)[j] == Finish(p, i);
    MissingIsRecovery(h, code, sorted, p, received, rebuilt, i);
    RecoveryFacts(p.template, i, received[i], rebuilt[i], p.batch[i]);
    FinishedExactly(h, p, i);
    ZeroingUndoesProof(p.batch[i], ProofEntries(h, LeafHashes(h, p.batch), i));
  }

  /** The fast path yields the data shreds among the refreshed missing ones. */
  lemma FastPathYields(h: Hasher, code: ReedSolomon, sorted: seq<Shred>, p: Prepared, received: seq<Shred>,
    rebuilt: seq<Shred>)
    requires IsTraceOf(h, code, sorted, p, received, rebuilt) && IsPrepared(p)
    ensures RecoverDataOnlySorted(code, sorted) == Success(DataOnly(MissingShreds(p, 0)))
  {
    forall i | 0 <= i < |p.batch| && !p.mask[i] ensures ParsesToData(p, rebuilt, i) {
      MissingIsRecovery(h, code, sorted, p, received, rebuilt, i);
      ParsedIsUnfinished(p.template, i, received[i], rebuilt[i], p.batch[i]);
    }
    ParsedAreDataOnly(p, rebuilt, 0);
  }

  /**
    * Whenever the full path succeeds on every item, the fast path on the same sorted input yields the
    * data members of those items, in their order, equal to them but for proofs that are still zero.
    */
  lemma FastPathRefinesFullPath(h: Hasher, code: ReedSolomon, sorted: seq<Shred>)
    ensures AllOk(RecoverSorted(h, code, sorted)) ==>
              var items := Values(RecoverSorted(h, code, sorted).value);
              && AllWellSized(items)
              && RecoverDataOnlySorted(code, sorted) == Success(DataOnly(WithoutProofs(items)))
  {
    if AllOk(RecoverSorted(h, code, sorted)) {
      var p, results := Prepare(h, code, sorted).value, RecoverSorted(h, code, sorted).value;
      var received, rebuilt := PreparedTrace(h, code, sorted);
      var items := Values(results);
      MissingShredsAt(p, 0);
      forall j | 0 <= j < |items| ensures WellSized(items[j]) && WithoutProof(items[j]) == MissingShreds(p, 0)[j] {
        ItemWithoutProof(h, code, sorted, p, received, rebuilt, j);
      }
      assert WithoutProofs(items) == MissingShreds(p, 0);
      FastPathYields(h, code, sorted, p, received, rebuilt);
    }
  }
}
