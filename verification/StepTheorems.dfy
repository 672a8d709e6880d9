/** When each step of recovery fails and what it yields otherwise, on any input (src/merkle.rs:617-754). */
module StepTheorems {
  import opened Wrappers
  import opened Bytes
  import opened Errors
  import opened Headers
  import opened MerkleTree
  import opened Shreds
  import opened Setters
  import opened ErasureCode
  import opened Recovery
  import opened BatchTheorems

  // ----- The template -----

  /** The headers of a coding shred with those fields set back by its position that count positions. */
  predicate IsTemplateFrom(t: Template, last: Shred)
    requires last.ShredCode?
  {
    && t.common.index + last.coding.position == last.common.index && t.coding.position == 0
    && t.common.(index := last.common.index) == last.common
    && t.coding.(position := last.coding.position) == last.coding
    && (t.chainedRoot.Some? <==> ChainedMerkleRoot(last).Success?)
    && (t.chainedRoot.Some? ==> ChainedMerkleRoot(last) == Success(t.chainedRoot.value))
    && (t.retransmitter.Some? <==> RetransmitterSignature(last).Success?)
    && (t.retransmitter.Some? ==> RetransmitterSignature(last) == Success(t.retransmitter.value))
  }

  /** Recovery starts from the last of the sorted shreds, which must be a coding shred behind its own position. */
  lemma TemplateExactly(sorted: seq<Shred>)
    ensures sorted == [] || Last(sorted).ShredData? ==>
              MakeTemplate(sorted) == Failure(Erasure(ErasureError.TooFewParityShards))
    ensures sorted != [] && Last(sorted).ShredCode? && Last(sorted).coding.position > Last(sorted).common.index ==>
              MakeTemplate(sorted) == Failure(Erasure(InvalidIndex))
    ensures sorted != [] && Last(sorted).ShredCode? && Last(sorted).coding.position <= Last(sorted).common.index ==>
              MakeTemplate(sorted).Success? && IsTemplateFrom(MakeTemplate(sorted).value, Last(sorted))
  {
  }

  // ----- Interleaving -----

  /** The first place that is free behind the first `j` shreds, when those were placed from `from` on. */
  function NextFree(shreds: seq<Shred>, j: nat, from: nat): nat
    requires j <= |shreds|
  {
    if j == 0 then from else ErasureShardIndex(shreds[j - 1]).UnwrapOr(0) + 1
  }

  /** The shred fits behind the ones before it. */
  predicate FitsInTurn(t: Template, shreds: seq<Shred>, i: nat, from: nat)
    requires i < |shreds|
  {
    FitsNext(t, shreds[i], NextFree(shreds, i, from))
  }

  lemma RestFitsInTurn(t: Template, shreds: seq<Shred>, i: nat, from: nat, next: nat)
    requires i + 1 < |shreds| && ErasureShardIndex(shreds[0]) == Success(next - 1)
    ensures FitsInTurn(t, shreds[1..], i, next) <==> FitsInTurn(t, shreds, i + 1, from)
  {
  }

  function PlacingError(t: Template, s: Shred): Error {
    if s.common.signature != t.common.signature then InvalidMerkleRoot
    else if ErasureShardIndex(s).Failure? then InvalidErasureShardIndex
    else Erasure(InvalidIndex)
  }

  lemma {:induction false} InterleaveFailsAt(t: Template, shreds: seq<Shred>, batch: seq<Shred>, mask: seq<bool>,
      j: nat)
    requires TemplateOk(t) && IsBatch(t, batch, mask) && j < |shreds|
    requires forall i :: 0 <= i < j ==> FitsInTurn(t, shreds, i, |batch|)
    requires !FitsInTurn(t, shreds, j, |batch|)
    ensures Interleave(t, shreds, batch, mask) == Failure(PlacingError(t, shreds[j]))
    decreases |shreds|
  {
    if j > 0 {
      assert FitsInTurn(t, shreds, 0, |batch|);
      var index := ErasureShardIndex(shreds[0]).value;
      PushStubsFacts(t, batch, mask, index);
      var more := PushStubs(t, batch, index).value + [shreds[0]];
      forall i | 0 <= i < j - 1 ensures FitsInTurn(t, shreds[1..], i, |more|) {
        RestFitsInTurn(t, shreds, i, |batch|, |more|);
      }
      RestFitsInTurn(t, shreds, j - 1, |batch|, |more|);
      InterleaveFailsAt(t, shreds[1..], more, mask[index := true], j - 1);
    }
  }

  /**
    * If the loop fails, it fails at the first shred that does not fit behind the ones before it: with another
    * signature, without an index of its own, or with an index that is taken, passed or out of range.
    */
  lemma AssembleFailsAt(t: Template, sorted: seq<Shred>, j: nat)
    requires TemplateOk(t) && j < |sorted|
    requires forall i :: 0 <= i < j ==> FitsInTurn(t, sorted, i, 0)
    requires !FitsInTurn(t, sorted, j, 0)
    ensures Assemble(t, sorted) == Failure(PlacingError(t, sorted[j]))
  {
    assert IsBatch(t, [], NothingPresent(t.NumShards()));
    InterleaveFailsAt(t, sorted, [], NothingPresent(t.NumShards()), j);
  }

  lemma ZerosAreRead(s: Shred, at: nat)
    requires WellSized(s) && ErasureShard(s) == Success(Zeros(ErasureShardLength(s))) && HasZeroProof(s)
    ensures |s.payload| == SizeOfPayload(s.Type())
    ensures var v := s.common.variant;
            && (ErasureShardStart(s.Type()) <= at < ChainedRootOffset(v) ==> s.payload[at] == 0)
            && (ProofOffset(v) <= at < RetransmitterOffset(v) ==> s.payload[at] == 0)
  {
    var v := s.common.variant;
    LayoutTilesPayload(v, 0, false);
    if ErasureShardStart(s.Type()) <= at < ChainedRootOffset(v) {
      assert s.payload[at] == ErasureShard(s).value[at - ErasureShardStart(s.Type())];
    } else if ProofOffset(v) <= at < RetransmitterOffset(v) {
      assert s.payload[at] == s.payload[ProofOffset(v)..RetransmitterOffset(v)][at - ProofOffset(v)];
    }
  }

  /** A stub is blank where reconstruction and the proof will write. */
  lemma StubIsBlank(t: Template, i: nat, at: nat)
    requires TemplateOk(t) && i < t.NumShards()
    ensures MakeStub(t, i).Success?
    ensures var s := MakeStub(t, i).value;
            var v := s.common.variant;
            && |s.payload| == SizeOfPayload(s.Type()) && RetransmitterOffset(v) <= |s.payload|
            && (ErasureShardStart(s.Type()) <= at < ChainedRootOffset(v) ==> s.payload[at] == 0)
            && (ProofOffset(v) <= at < RetransmitterOffset(v) ==> s.payload[at] == 0)
  {
    StubFacts(t, i);
    LayoutTilesPayload(MakeStub(t, i).value.common.variant, 0, false);
    ZerosAreRead(MakeStub(t, i).value, at);
  }

  // ----- Reconstruction -----

  /** The library takes at least one shard of each side and at most 256 in all. */
  lemma CodecExactly(k: nat, m: nat)
    ensures NewCodec(k, m) == if k == 0 then Failure(TooFewDataShards)
                              else if m == 0 then Failure(ErasureError.TooFewParityShards)
                              else if k + m > 256 then Failure(TooManyShards)
                              else Success(())
  {
  }

  /** The shred with a given erasure shard in place of its own. */
  predicate IsCompletedWith(s: Shred, r: Shred, shard: Bytes) {
    && WellSized(s) && WellSized(r) && r == s.(payload := r.payload) && ErasureShard(r) == Success(shard)
    && AgreeOutside(s.payload, r.payload, ErasureShardStart(s.Type()), ChainedRootOffset(s.common.variant))
  }

  /**
    * Reconstruction succeeds exactly on a batch of full-sized shreds that the library takes and completes. Each
    * shred then has the completed erasure shard of its place and is otherwise the same.
    */
  lemma ReconstructExactly(code: ReedSolomon, t: Template, batch: seq<Shred>, mask: seq<bool>)
    requires |batch| == |mask|
    ensures var k, m := t.coding.numDataShreds, t.coding.numCodingShreds;
            Reconstruct(code, t, batch, mask).Success? <==>
            && (forall i :: 0 <= i < |batch| ==> WellSized(batch[i]))
            && 0 < k && 0 < m && k + m <= 256
            && ErasureShards(batch).Success? && code(k, m, ErasureShards(batch).value, mask).Success?
    ensures Reconstruct(code, t, batch, mask).Success? ==>
              var completed := code(t.coding.numDataShreds, t.coding.numCodingShreds, ErasureShards(batch).value, mask);
              var rebuilt := Reconstruct(code, t, batch, mask).value;
              && completed.Success? && |completed.value| == |rebuilt| == |batch|
              && forall i :: 0 <= i < |batch| ==> IsCompletedWith(batch[i], rebuilt[i], completed.value[i])
  {
    ErasureShardsExact(batch);
    CodecExactly(t.coding.numDataShreds, t.coding.numCodingShreds);
    if Reconstruct(code, t, batch, mask).Success? {
      var shards := ErasureShards(batch).value;
      var completed := code(t.coding.numDataShreds, t.coding.numCodingShreds, shards, mask).value;
      assert IsCompletion(shards, mask, completed);
      WriteShardsRebuilds(batch, mask, shards, completed);
      forall i | 0 <= i < |batch| ensures IsCompletedWith(batch[i], WriteShards(batch, completed)[i], completed[i]) {
        ErasureShardSetterFrame(batch[i], completed[i]);
      }
    }
  }

  /** The first shred of the wrong size is the fault, else the limits of the library, else what it reports. */
  lemma ReconstructFailsAs(code: ReedSolomon, t: Template, batch: seq<Shred>, mask: seq<bool>, i: nat)
    requires |batch| == |mask|
    ensures i < |batch| && !WellSized(batch[i]) && (forall j :: 0 <= j < i ==> WellSized(batch[j])) ==>
              && ErasureShard(batch[i]).Failure?
              && Reconstruct(code, t, batch, mask) == Failure(ErasureShard(batch[i]).error)
    ensures ErasureShards(batch).Success? && NewCodec(t.coding.numDataShreds, t.coding.numCodingShreds).Failure? ==>
              Reconstruct(code, t, batch, mask)
              == Failure(Erasure(NewCodec(t.coding.numDataShreds, t.coding.numCodingShreds).error))
    ensures ErasureShards(batch).Success? && NewCodec(t.coding.numDataShreds, t.coding.numCodingShreds).Success? ==>
              var completed := code(t.coding.numDataShreds, t.coding.numCodingShreds, ErasureShards(batch).value, mask);
              completed.Failure? ==> Reconstruct(code, t, batch, mask) == Failure(Erasure(completed.error))
  {
    if i < |batch| && !WellSized(batch[i]) && (forall j :: 0 <= j < i ==> WellSized(batch[j])) {
      var shards := seq(|batch|, j requires 0 <= j < |batch| => ErasureShard(batch[j]));
      CollectPrefix(shards, seq<Bytes>(i, j requires 0 <= j < i => ErasureShard(batch[j]).value));
    }
  }

  // ----- Refreshing -----

  /**
    * A missing shred is refreshed exactly if it is of the kind of its place, its payload holds the common header
    * it stands for, and it is sane; a data shred then has the data header that its payload holds.
    */
  lemma RefreshExactly(t: Template, i: nat, s: Shred, b: Shred)
    requires WellSized(s)
    ensures Refresh(t, i, s, true) == Success(s)
    ensures Refresh(t, i, s, false) == Success(b) <==>
            && (s.ShredData? <==> i < t.coding.numDataShreds) && b.Type() == s.Type() && b.common == s.common
            && b.payload == s.payload && Sanitize(b).Success?
            && (if s.ShredData? then HeadersInPayload(b) else b == s)
  {
    if b.ShredData? && b.payload == s.payload && s.ShredData? {
      DataHeadersExact(s.payload, s.common, b.data);
    }
  }

  /** A missing shred of the wrong kind or with another header in its payload is refused as such. */
  lemma MismatchIsRefused(t: Template, i: nat, s: Shred)
    requires WellSized(s)
    ensures (s.ShredData? <==> i >= t.coding.numDataShreds) ==>
              Refresh(t, i, s, false) == Failure(InvalidRecoveredShred)
    ensures s.ShredData? && i < t.coding.numDataShreds && s.payload[..83] != EncodeCommonHeader(s.common)
            && DecodeCommonHeader(s.payload).Success? ==>
              Refresh(t, i, s, false) == Failure(InvalidRecoveredShred)
  {
    CommonHeaderExact(s.payload, s.common);
  }

  // ----- The root check -----

  /** Behind the root check stand exactly the refreshed shreds, if none failed, and a tree with the expected root. */
  lemma RootCheckExactly(h: Hasher, t: Template, rebuilt: seq<Shred>, mask: seq<bool>, root: Hash, p: Prepared)
    requires |rebuilt| == |mask|
    ensures CheckedRoot(h, t, rebuilt, mask, root) == Success(p) <==>
            && p.template == t && p.mask == mask && Collect(RefreshAll(t, rebuilt, mask)) == Success(p.batch)
            && BuildTree(h, Leaves(h, RefreshAll(t, rebuilt, mask))) == Success(p.tree)
            && p.tree != [] && p.tree[|p.tree| - 1] == root
    ensures BuildTree(h, Leaves(h, RefreshAll(t, rebuilt, mask))).Success?
            && CheckedRoot(h, t, rebuilt, mask, root).Failure? && Collect(RefreshAll(t, rebuilt, mask)).Success? ==>
              CheckedRoot(h, t, rebuilt, mask, root) == Failure(InvalidMerkleRoot)
  {
  }

  lemma RefreshKeepsSize(t: Template, i: nat, s: Shred, present: bool)
    requires WellSized(s) && Refresh(t, i, s, present).Success?
    ensures WellSized(Refresh(t, i, s, present).value)
  {
  }

  /** The first missing shred that cannot be refreshed is the fault. */
  lemma RefreshFailsAt(h: Hasher, t: Template, rebuilt: seq<Shred>, mask: seq<bool>, root: Hash, i: nat)
    requires |rebuilt| == |mask| && i < |mask| && forall j :: 0 <= j < |rebuilt| ==> WellSized(rebuilt[j])
    requires forall j :: 0 <= j < i ==> Refresh(t, j, rebuilt[j], mask[j]).Success?
    requires Refresh(t, i, rebuilt[i], mask[i]).Failure?
    ensures CheckedRoot(h, t, rebuilt, mask, root) == Failure(Refresh(t, i, rebuilt[i], mask[i]).error)
  {
    var leaves := Leaves(h, RefreshAll(t, rebuilt, mask));
    forall j | 0 <= j < i ensures leaves[j].Success? {
      var s := Refresh(t, j, rebuilt[j], mask[j]).value;
      RefreshKeepsSize(t, j, rebuilt[j], mask[j]);
      LayoutTilesPayload(s.common.variant, 0, false);
    }
    CollectPrefix(leaves, seq<Hash>(i, j requires 0 <= j < i => leaves[j].value));
  }

  // ----- The whole -----

  /** The first step that fails decides the error; the fast path has neither the first root nor the last check. */
  lemma FirstFailingStepDecides(h: Hasher, code: ReedSolomon, sorted: seq<Shred>)
    ensures MakeTemplate(sorted).Failure? ==>
              RecoverSorted(h, code, sorted).ToError() == RecoverDataOnlySorted(code, sorted).ToError()
              == Some(MakeTemplate(sorted).error)
    ensures MakeTemplate(sorted).Success? && MerkleRoot(h, Last(sorted)).Failure? ==>
              RecoverSorted(h, code, sorted) == Failure(MerkleRoot(h, Last(sorted)).error)
    ensures MakeTemplate(sorted).Success? && Assemble(MakeTemplate(sorted).value, sorted).Failure? ==>
              var e := Assemble(MakeTemplate(sorted).value, sorted).error;
              && RecoverDataOnlySorted(code, sorted) == Failure(e)
              && (MerkleRoot(h, Last(sorted)).Success? ==> RecoverSorted(h, code, sorted) == Failure(e))
    ensures MakeTemplate(sorted).Success? && Assemble(MakeTemplate(sorted).value, sorted).Success? ==>
              var t := MakeTemplate(sorted).value;
              var (batch, mask) := Assemble(t, sorted).value;
              var rebuilt := Reconstruct(code, t, batch, mask);
              && (rebuilt.Failure? ==> RecoverDataOnlySorted(code, sorted) == Failure(rebuilt.error))
              && (MerkleRoot(h, Last(sorted)).Success? && rebuilt.Failure? ==>
                    RecoverSorted(h, code, sorted) == Failure(rebuilt.error))
              && (MerkleRoot(h, Last(sorted)).Success? && rebuilt.Success? ==>
                    var checked := CheckedRoot(h, t, rebuilt.value, mask, MerkleRoot(h, Last(sorted)).value);
                    checked.Failure? ==> RecoverSorted(h, code, sorted) == Failure(checked.error))
  {
    if MakeTemplate(sorted).Success? && MerkleRoot(h, Last(sorted)).Success? {
      assert Last(sorted).VariantMatches();
    }
  }
}
