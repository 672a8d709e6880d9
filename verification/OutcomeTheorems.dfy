/** When recovery succeeds, and that the order of arrival does not matter (src/merkle.rs:608-888). */
module OutcomeTheorems {
  import opened Wrappers
  import opened Bytes
  import opened Errors
  import opened Headers
  import opened MerkleTree
  import opened Shreds
  import opened ErasureCode
  import opened Recovery
  import opened BatchTheorems
  import opened RecoveryTheorems
  import opened LossTheorems
  import Wire

  // ----- Order of arrival -----

  lemma DistinctKeysPermute(a: seq<Shred>, b: seq<Shred>)
    requires multiset(a) == multiset(b) && DistinctKeys(a)
    ensures DistinctKeys(b)
  {
    PermutationFacts(a, b);
    forall i, j | 0 <= i < j < |b| ensures !SameKey(b[i], b[j]) {
      assert b[i] in a && b[j] in a;
      if SameKey(b[i], b[j]) {
        assert b[i] == b[j];
        DuplicatesCount(b, i, j);
        CountsOnce(a, b[i]);
      }
    }
  }

  /** With pairwise different sort keys every order of arrival is sorted into one and the same sequence. */
  lemma ArrivalOrderIsSortedAway(a: seq<Shred>, b: seq<Shred>, sortedA: seq<Shred>, sortedB: seq<Shred>)
    requires multiset(a) == multiset(b) && DistinctKeys(a)
    requires IsSortOf(sortedA, a) && IsSortOf(sortedB, b)
    ensures sortedA == sortedB
  {
    DistinctKeysPermute(a, sortedA);
    SortIsUnique(sortedA, sortedB);
  }

  /** The shreds of one erasure set, as parsed. */
  predicate IsOneSet(shreds: seq<Shred>, fecSetIndex: u32, firstCodingIndex: u32, numData: u16, numCoding: u16) {
    forall j :: 0 <= j < |shreds| ==>
      WellSized(shreds[j]) && InSet(shreds[j], fecSetIndex, firstCodingIndex, numData, numCoding)
  }

  lemma OneSetPermutes(a: seq<Shred>, b: seq<Shred>, fecSetIndex: u32, firstCodingIndex: u32, numData: u16,
      numCoding: u16)
    requires multiset(a) == multiset(b) && IsOneSet(a, fecSetIndex, firstCodingIndex, numData, numCoding)
    ensures IsOneSet(b, fecSetIndex, firstCodingIndex, numData, numCoding)
  {
    PermutationFacts(a, b);
    forall j | 0 <= j < |b|
      ensures WellSized(b[j]) && InSet(b[j], fecSetIndex, firstCodingIndex, numData, numCoding)
    {
      assert b[j] in a;
    }
  }

  /** Two shreds of one set with the same sort key claim one place, so the batch loop refuses them. */
  lemma SameKeysAreRefused(sorted: seq<Shred>, fecSetIndex: u32, firstCodingIndex: u32, numData: u16, numCoding: u16)
    requires IsOneSet(sorted, fecSetIndex, firstCodingIndex, numData, numCoding) && !DistinctKeys(sorted)
    ensures MakeTemplate(sorted).Success? ==> Assemble(MakeTemplate(sorted).value, sorted).Failure?
  {
    if MakeTemplate(sorted).Success? {
      var t := MakeTemplate(sorted).value;
      assert WellSized(sorted[|sorted| - 1]);
      TemplateFacts(sorted);
      AssembleExact(t, sorted);
      var i, j :| 0 <= i < j < |sorted| && SameKey(sorted[i], sorted[j]);
      OrderIsShardOrder(sorted[i], sorted[j], fecSetIndex, firstCodingIndex, numData, numCoding);
    }
  }

  lemma RefusedMeansFailure(h: Hasher, code: ReedSolomon, sorted: seq<Shred>)
    requires MakeTemplate(sorted).Success? ==> Assemble(MakeTemplate(sorted).value, sorted).Failure?
    ensures RecoverSorted(h, code, sorted).Failure? && RecoverDataOnlySorted(code, sorted).Failure?
  {
  }

  lemma RefusedInEveryOrder(h: Hasher, code: ReedSolomon, a: seq<Shred>, sorted: seq<Shred>,
                            fecSetIndex: u32, firstCodingIndex: u32, numData: u16, numCoding: u16)
    requires multiset(a) == multiset(sorted) && IsOneSet(a, fecSetIndex, firstCodingIndex, numData, numCoding)
    requires !DistinctKeys(a)
    ensures RecoverSorted(h, code, sorted).Failure? && RecoverDataOnlySorted(code, sorted).Failure?
  {
    OneSetPermutes(a, sorted, fecSetIndex, firstCodingIndex, numData, numCoding);
    if DistinctKeys(sorted) {
      DistinctKeysPermute(sorted, a);
    }
    SameKeysAreRefused(sorted, fecSetIndex, firstCodingIndex, numData, numCoding);
    RefusedMeansFailure(h, code, sorted);
  }

  /**
    * Order independence: for the shreds of one erasure set, duplicates included, both recoveries have the
    * same outcome in every order of arrival and however equal keys are sorted.
    */
  lemma RecoveryIgnoresOrder(h: Hasher, code: ReedSolomon, a: seq<Shred>, b: seq<Shred>, sortedA: seq<Shred>,
      sortedB: seq<Shred>,
                             fecSetIndex: u32, firstCodingIndex: u32, numData: u16, numCoding: u16)
    requires multiset(a) == multiset(b) && IsOneSet(a, fecSetIndex, firstCodingIndex, numData, numCoding)
    requires IsSortOf(sortedA, a) && IsSortOf(sortedB, b)
    ensures RecoverSorted(h, code, sortedA).ToOption() == RecoverSorted(h, code, sortedB).ToOption()
    ensures RecoverDataOnlySorted(code, sortedA).ToOption() == RecoverDataOnlySorted(code, sortedB).ToOption()
  {
    if DistinctKeys(a) {
      ArrivalOrderIsSortedAway(a, b, sortedA, sortedB);
    } else {
      RefusedInEveryOrder(h, code, a, sortedA, fecSetIndex, firstCodingIndex, numData, numCoding);
      RefusedInEveryOrder(h, code, a, sortedB, fecSetIndex, firstCodingIndex, numData, numCoding);
    }
  }

  // ----- Exactly when an honest batch comes back -----

  lemma WithoutCodeFails(h: Hasher, code: ReedSolomon, sorted: seq<Shred>)
    requires forall s :: s in sorted ==> s.ShredData?
    ensures RecoverSorted(h, code, sorted) == Failure(Erasure(ErasureError.TooFewParityShards))
  {
    if sorted != [] {
      assert Last(sorted) in sorted;
    }
  }

  lemma TooFewReconstructNothing(code: ReedSolomon, t: Template, batch: seq<Shred>, mask: seq<bool>)
    requires FailsBelowThreshold(code) && |batch| == |mask| == t.NumShards()
    requires CountPresent(mask) < t.NumData()
    ensures Reconstruct(code, t, batch, mask).Failure?
  {
    ErasureShardsExact(batch);
    var k, m := t.NumData(), t.NumShards() - t.NumData();
    if ErasureShards(batch).Success? {
      assert code(k, m, ErasureShards(batch).value, mask).Failure?;
    }
  }

  /** A last shred of the wrong size has no erasure shard to reconstruct from. */
  lemma MisfitReconstructsNothing(code: ReedSolomon, t: Template, batch: seq<Shred>, mask: seq<bool>, last: Shred)
    requires |batch| == |mask| && last in batch && !WellSized(last)
    ensures Reconstruct(code, t, batch, mask).Failure?
  {
    ErasureShardsExact(batch);
  }

  /** With fewer shreds than data shreds in their set, or none at all, both recoveries fail. */
  lemma TooFewFail(h: Hasher, code: ReedSolomon, sorted: seq<Shred>)
    requires FailsBelowThreshold(code)
    requires MakeTemplate(sorted).Success? ==> |sorted| < MakeTemplate(sorted).value.NumData()
    ensures RecoverSorted(h, code, sorted).Failure? && RecoverDataOnlySorted(code, sorted).Failure?
  {
    if MakeTemplate(sorted).Success? {
      var t := MakeTemplate(sorted).value;
      TemplateFacts(sorted);
      if Assemble(t, sorted).Success? {
        var (batch, mask) := Assemble(t, sorted).value;
        if WellSized(Last(sorted)) {
          AssembleExact(t, sorted);
          TooFewReconstructNothing(code, t, batch, mask);
        } else {
          ReceivedLast(t, sorted, batch, mask);
          MisfitReconstructsNothing(code, t, batch, mask, Last(sorted));
        }
      }
    }
  }

  /** Of an honest batch, exactly the parts with at least `k` members and a coding shred among them recover it. */
  lemma HonestPartRecoversExactly(h: Hasher, code: ReedSolomon, codeword: Codewords, full: seq<Shred>, k: nat,
      m: nat, received: seq<Shred>, sorted: seq<Shred>)
    requires IsErasureCode(code, codeword) && HonestBatch(h, codeword, full, k, m)
    requires IsPartOf(received, full) && IsSortOf(sorted, received)
    ensures RecoverSorted(h, code, sorted).Success? <==>
            |received| >= k && exists s :: s in received && s.ShredCode?
  {
    PermutationIsPart(sorted, received, full);
    if forall s :: s in received ==> s.ShredData? {
      WithoutCodeFails(h, code, sorted);
    } else if |received| >= k {
      RecoveryInvertsLoss(h, code, codeword, full, k, m, received, sorted);
    } else {
      assert exists s :: s in sorted && s.ShredCode?;
      CodeSortsLast(sorted);
      var last := Last(sorted);
      assert last in full;
      TemplateOfPart(sorted, full, k, m);
      TooFewFail(h, code, sorted);
    }
  }

  // ----- What a recovered shred is worth -----

  /** The fast path brings back the lost data members, without their proofs. */
  lemma FastPathInvertsLoss(h: Hasher, code: ReedSolomon, codeword: Codewords, full: seq<Shred>, k: nat, m: nat,
      received: seq<Shred>, sorted: seq<Shred>)
    requires IsErasureCode(code, codeword) && HonestBatch(h, codeword, full, k, m)
    requires IsPartOf(received, full) && |received| >= k && exists s :: s in received && s.ShredCode?
    requires IsSortOf(sorted, received)
    ensures sorted != []
    ensures var retransmitter := RetransmitterSignature(Last(sorted)).ToOption();
            && (forall i :: 0 <= i < |full| ==> (retransmitter.Some? <==> full[i].common.variant.resigned))
            && var lost := Values(Lost(full, received, retransmitter));
            && AllWellSized(lost)
            && RecoverDataOnlySorted(code, sorted) == Success(DataOnly(WithoutProofs(lost)))
  {
    RecoveryInvertsLoss(h, code, codeword, full, k, m, received, sorted);
    assert AllOk(RecoverSorted(h, code, sorted));
    FastPathRefinesFullPath(h, code, sorted);
  }

  lemma ResignedCopyIsNoDuplicate(s: Shred, retransmitter: Option<Signature>)
    requires WellSized(s) && (retransmitter.Some? <==> s.common.variant.resigned)
    ensures Wire.Id(AsRecovered(s, retransmitter)) == Wire.Id(s)
    ensures !Wire.IsShredDuplicate(s, AsRecovered(s, retransmitter))
  {
    if retransmitter.Some? {
      Wire.ResigningIsNoDuplicate(s, retransmitter.value);
    }
  }
  /** What recovery yields for a lost member is that very shred, not a duplicate with another payload. */
  lemma RecoveredIsNoDuplicate(h: Hasher, code: ReedSolomon, codeword: Codewords, full: seq<Shred>, k: nat, m: nat,
      received: seq<Shred>, sorted: seq<Shred>, j: nat)
    requires IsErasureCode(code, codeword) && HonestBatch(h, codeword, full, k, m)
    requires IsPartOf(received, full) && |received| >= k && exists s :: s in received && s.ShredCode?
    requires IsSortOf(sorted, received) && j < |Missing(Presence(full, received))|
    ensures RecoverSorted(h, code, sorted).Success?
    ensures var items, i := RecoverSorted(h, code, sorted).value, Missing(Presence(full, received))[j];
            && j < |items| && i < |full| && items[j].Success? && full[i] !in received
            && Wire.Id(items[j].value) == Wire.Id(full[i]) && !Wire.IsShredDuplicate(full[i], items[j].value)
  {
    RecoveryInvertsLoss(h, code, codeword, full, k, m, received, sorted);
    var i := Missing(Presence(full, received))[j];
    MissingExact(Presence(full, received));
    assert i in Missing(Presence(full, received));
    ResignedCopyIsNoDuplicate(full[i], RetransmitterSignature(Last(sorted)).ToOption());
  }
}
