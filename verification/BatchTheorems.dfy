/** What the interleaving loop builds, when it succeeds, and what its stubs hold (src/merkle.rs:612-719, 873-950). */
module BatchTheorems {
  import opened Wrappers
  import opened Bytes
  import opened Headers
  import opened MerkleTree
  import opened Shreds
  import opened Setters
  import opened ErasureCode
  import opened Recovery

  // ----- Templates and stubs -----

  /** A template taken from a well-sized coding shred. */
  predicate TemplateOk(t: Template) {
    && t.common.variant.MerkleCode?
    && t.chainedRoot.Some?
    && (t.retransmitter.Some? <==> t.common.variant.resigned)
  }

  /** The bounds that `erasure_shard_index` of the last coding shred checks. */
  predicate TemplateBounded(t: Template) {
    && 1 <= t.coding.numDataShreds && t.common.fecSetIndex + t.coding.numDataShreds <= MAX_DATA_SHREDS_PER_SLOT
    && 1 <= t.coding.numCodingShreds && t.common.index + t.coding.numCodingShreds <= MAX_CODE_SHREDS_PER_SLOT
  }

  lemma TemplateFacts(sorted: seq<Shred>)
    requires MakeTemplate(sorted).Success?
    ensures WellSized(Last(sorted)) ==> TemplateOk(MakeTemplate(sorted).value)
    ensures ErasureShardIndex(Last(sorted)).Success? ==> TemplateBounded(MakeTemplate(sorted).value)
  {
    LayoutTilesPayload(Last(sorted).common.variant, 0, false);
  }

  /** The headers a shred of the template's set has at a position. */
  function CommonAt(t: Template, i: nat): ShredCommonHeader {
    if i < t.NumData() then
      t.common.(variant := MerkleData(t.common.variant.proofSize, t.common.variant.resigned),
                index := AddU32(t.common.fecSetIndex, i))
    else t.common.(index := AddU32(t.common.index, i - t.NumData()))
  }

  predicate StandsAt(t: Template, i: nat, s: Shred) {
    && s.common == CommonAt(t, i)
    && (if i < t.NumData() then s.ShredData? else
          s.ShredCode? && i - t.NumData() < 0x1_0000 && s.coding == t.coding.(position := i - t.NumData()))
  }

  predicate HasZeroProof(s: Shred) {
    var at, size := ProofOffset(s.common.variant), s.common.variant.proofSize * SIZE_OF_MERKLE_PROOF_ENTRY;
    at + size <= |s.payload| && s.payload[at..at + size] == Zeros(size)
  }

  /** Everything of a payload that reconstruction and the proof will not overwrite, and zeros for the proof. */
  predicate IsStub(t: Template, i: nat, s: Shred) {
    && WellSized(s) && StandsAt(t, i, s)
    && (if s.ShredData? then s.payload[..SIZE_OF_SIGNATURE] == t.common.signature else HeadersInPayload(s))
    && (s.ShredData? ==> s.data == DataShredHeader(0, 0, 0))
    && ErasureShard(s) == Success(Zeros(ErasureShardLength(s)))
    && ChainedMerkleRoot(s).ToOption() == t.chainedRoot
    && RetransmitterSignature(s).ToOption() == t.retransmitter
    && HasZeroProof(s)
  }

  lemma TrailersFacts(s: Shred, root: Hash, retransmitter: Option<Signature>)
    requires WellSized(s) && (retransmitter.Some? <==> s.common.variant.resigned)
    ensures SetTrailers(s, Some(root), retransmitter).Success?
    ensures var r := SetTrailers(s, Some(root), retransmitter).value;
            && WellSized(r) && r == s.(payload := r.payload)
            && ChainedMerkleRoot(r) == Success(root)
            && RetransmitterSignature(r).ToOption() == retransmitter
            && (HasZeroProof(s) ==> HasZeroProof(r))
            && ErasureShard(r) == ErasureShard(s)
            && r.payload[..SizeOfHeaders(s.Type())] == s.payload[..SizeOfHeaders(s.Type())]
  {
    var v := s.common.variant;
    LayoutTilesPayload(v, 0, false);
    ChainedRootSetterFrame(s, root);
    var s1 := SetChainedMerkleRoot(s, root).value;
    AgreeingSlice(s.payload, s1.payload, ChainedRootOffset(v), ProofOffset(v), 0, SizeOfHeaders(s.Type()));
    AgreeingSlice(s.payload, s1.payload, ChainedRootOffset(v), ProofOffset(v), ProofOffset(v), RetransmitterOffset(v));
    if retransmitter.Some? {
      var at := RetransmitterOffset(v);
      SpliceReadsBack(s1.payload, at, retransmitter.value);
      SpliceElsewhere(s1.payload, at, retransmitter.value, 0, SizeOfHeaders(s.Type()));
      SpliceElsewhere(s1.payload, at, retransmitter.value, ChainedRootOffset(v), ProofOffset(v));
      SpliceElsewhere(s1.payload, at, retransmitter.value, ProofOffset(v), at);
      SpliceElsewhere(s1.payload, at, retransmitter.value, ErasureShardStart(s.Type()), ChainedRootOffset(v));
    }
  }

  /** A zeroed payload with `written` at its front still has a zero proof, and a zero shard if that is behind it. */
  lemma FreshPayloadFacts(s: Shred, written: Bytes)
    requires WellSized(s) && |written| <= SizeOfHeaders(s.Type())
    requires s.payload == Splice(Zeros(SizeOfPayload(s.Type())), 0, written)
    ensures s.payload[..|written|] == written
    ensures HasZeroProof(s)
    ensures |written| <= ErasureShardStart(s.Type()) ==> ErasureShard(s) == Success(Zeros(ErasureShardLength(s)))
  {
    var v, zeros := s.common.variant, Zeros(SizeOfPayload(s.Type()));
    LayoutTilesPayload(v, 0, false);
    SpliceElsewhere(zeros, 0, written, ProofOffset(v), RetransmitterOffset(v));
    assert zeros[ProofOffset(v)..RetransmitterOffset(v)] == Zeros(v.proofSize * SIZE_OF_MERKLE_PROOF_ENTRY);
    if |written| <= ErasureShardStart(s.Type()) {
      SpliceElsewhere(zeros, 0, written, ErasureShardStart(s.Type()), ChainedRootOffset(v));
      assert zeros[ErasureShardStart(s.Type())..ChainedRootOffset(v)] == Zeros(ErasureShardLength(s));
    }
  }

  lemma PrefixOfPrefix(b: Bytes, c: Bytes, hi: nat, lo: nat)
    requires lo <= hi <= |b| && hi <= |c| && b[..hi] == c[..hi]
    ensures b[..lo] == c[..lo]
  {
    assert b[..hi][..lo] == b[..lo] && c[..hi][..lo] == c[..lo];
  }

  /** A stub can always be made within the batch, and it has the headers and trailers of its place. */
  lemma StubFacts(t: Template, i: nat)
    requires TemplateOk(t) && i < t.NumShards()
    ensures MakeStub(t, i).Success? && IsStub(t, i, MakeStub(t, i).value)
  {
    var s := if i < t.NumData() then StubData(t, i) else StubCode(t, i - t.NumData());
    var written := if i < t.NumData() then s.common.signature else EncodedHeaders(s);
    assert WellSized(s) && s.common == CommonAt(t, i);
    FreshPayloadFacts(s, written);
    TrailersFacts(s, t.chainedRoot.value, t.retransmitter);
    var r := SetTrailers(s, t.chainedRoot, t.retransmitter).value;
    PrefixOfPrefix(r.payload, s.payload, SizeOfHeaders(s.Type()), |written|);
    assert MakeStub(t, i) == Success(r);
  }

  lemma AddU32InRange(a: u32, b: nat)
    requires a + b < 0x1_0000_0000
    ensures AddU32(a, b) == a + b
  {
  }

  /** Within the bounds no index of the batch wraps around, and every stub stands at its own index. */
  lemma StubStandsAtItsIndex(t: Template, i: nat, s: Shred)
    requires TemplateBounded(t) && i < t.NumShards() && StandsAt(t, i, s)
    ensures ErasureShardIndex(s) == Success(i)
    ensures s.common.index == if i < t.NumData() then t.common.fecSetIndex + i else t.common.index + (i - t.NumData())
  {
    if i < t.NumData() {
      AddU32InRange(t.common.fecSetIndex, i);
    } else {
      AddU32InRange(t.common.index, i - t.NumData());
      assert FirstCodingIndex(s) == Some(t.common.index);
    }
  }

  // ----- The interleaving loop -----

  predicate FitsNext(t: Template, s: Shred, from: nat) {
    && s.common.signature == t.common.signature
    && ErasureShardIndex(s).Success? && from <= ErasureShardIndex(s).value < t.NumShards()
  }

  /** The condition under which the loop places every shred: one signature, and ascending indices in range. */
  predicate Placeable(t: Template, shreds: seq<Shred>, from: nat) {
    && (forall j :: 0 <= j < |shreds| ==> FitsNext(t, shreds[j], from))
    && (forall i, j :: 0 <= i < j < |shreds| ==>
          ErasureShardIndex(shreds[i]).value < ErasureShardIndex(shreds[j]).value)
  }

  /** A batch built so far: stubs where nothing is present, and every received shred at its own index. */
  predicate IsBatch(t: Template, batch: seq<Shred>, mask: seq<bool>) {
    && |batch| <= |mask| == t.NumShards()
    && (forall i :: 0 <= i < |batch| ==>
          if mask[i] then ErasureShardIndex(batch[i]) == Success(i) else MakeStub(t, i) == Success(batch[i]))
    && (forall i :: |batch| <= i < |mask| ==> !mask[i])
  }

  lemma {:induction false} PushStubsFacts(t: Template, batch: seq<Shred>, mask: seq<bool>, upTo: nat)
    requires TemplateOk(t) && IsBatch(t, batch, mask) && |batch| <= upTo <= t.NumShards()
    ensures PushStubs(t, batch, upTo).Success?
    ensures var r := PushStubs(t, batch, upTo).value;
            |r| == upTo && r[..|batch|] == batch && IsBatch(t, r, mask)
    decreases upTo - |batch|
  {
    if |batch| < upTo {
      StubFacts(t, |batch|);
      var more := batch + [MakeStub(t, |batch|).value];
      PushStubsFacts(t, more, mask, upTo);
      assert more[..|batch|] == batch;
      var r := PushStubs(t, batch, upTo).value;
      assert r[..|more|][..|batch|] == r[..|batch|];
    } else {
      assert batch[..|batch|] == batch;
    }
  }

  lemma {:induction false} CountSet(mask: seq<bool>, i: nat)
    requires i < |mask| && !mask[i]
    ensures CountPresent(mask[i := true]) == CountPresent(mask) + 1
  {
    if i > 0 {
      CountSet(mask[1..], i - 1);
      assert mask[i := true][1..] == mask[1..][i - 1 := true];
    } else {
      assert mask[i := true][1..] == mask[1..];
    }
  }

  lemma {:induction false} CountNothing(n: nat)
    ensures CountPresent(NothingPresent(n)) == 0
  {
    if n > 0 {
      assert NothingPresent(n)[1..] == NothingPresent(n - 1);
      CountNothing(n - 1);
    }
  }

  /** The shred sits at its own index and is marked as present. */
  predicate Holds(batch: seq<Shred>, mask: seq<bool>, s: Shred)
    requires |batch| == |mask|
  {
    var index := ErasureShardIndex(s);
    index.Success? && index.value < |batch| && mask[index.value] && batch[index.value] == s
  }

  /** What the final batch keeps of the batch so far, and where the remaining shreds went. */
  predicate Extends(batch: seq<Shred>, mask: seq<bool>, shreds: seq<Shred>, batch': seq<Shred>, mask': seq<bool>) {
    && |batch| <= |batch'| == |mask'| == |mask|
    && batch'[..|batch|] == batch
    && (forall i :: 0 <= i < |mask| && mask[i] ==> mask'[i])
    && (forall i :: 0 <= i < |batch| ==> mask'[i] == mask[i])
    && (forall j :: 0 <= j < |shreds| ==> Holds(batch', mask', shreds[j]))
    && CountPresent(mask') == CountPresent(mask) + |shreds|
  }

  lemma PlaceableStep(t: Template, shreds: seq<Shred>, from: nat)
    requires shreds != [] && FitsNext(t, shreds[0], from)
    ensures Placeable(t, shreds, from) <==> Placeable(t, shreds[1..], ErasureShardIndex(shreds[0]).value + 1)
  {
    var rest, next := shreds[1..], ErasureShardIndex(shreds[0]).value + 1;
    if Placeable(t, rest, next) {
      forall j | 0 <= j < |shreds|
        ensures FitsNext(t, shreds[j], from)
        ensures j > 0 ==> ErasureShardIndex(shreds[0]).value < ErasureShardIndex(shreds[j]).value
      {
        if j > 0 {
          assert shreds[j] == rest[j - 1];
        }
      }
      forall i, j | 0 <= i < j < |shreds|
        ensures ErasureShardIndex(shreds[i]).value < ErasureShardIndex(shreds[j]).value
      {
        if i > 0 {
          assert shreds[i] == rest[i - 1] && shreds[j] == rest[j - 1];
        }
      }
    }
  }

  lemma ExtendsStep(batch: seq<Shred>, mask: seq<bool>, shreds: seq<Shred>, padded: seq<Shred>, index: nat,
      batch': seq<Shred>, mask': seq<bool>)
    requires |batch| <= |padded| == index < |mask| && padded[..|batch|] == batch && shreds != []
    requires ErasureShardIndex(shreds[0]) == Success(index) && !mask[index]
    requires CountPresent(mask[index := true]) == CountPresent(mask) + 1
    requires Extends(padded + [shreds[0]], mask[index := true], shreds[1..], batch', mask')
    ensures Extends(batch, mask, shreds, batch', mask')
  {
    var more := padded + [shreds[0]];
    assert batch'[..|more|][..|batch|] == batch'[..|batch|];
    assert more[..|batch|] == padded[..|batch|];
    assert batch'[index] == batch'[..|more|][index] == shreds[0];
    forall j | 0 <= j < |shreds| ensures Holds(batch', mask', shreds[j]) {
      if j > 0 {
        assert shreds[j] == shreds[1..][j - 1];
      }
    }
  }

  lemma {:induction false} InterleaveFacts(t: Template, shreds: seq<Shred>, batch: seq<Shred>, mask: seq<bool>)
    requires TemplateOk(t) && IsBatch(t, batch, mask)
    ensures Interleave(t, shreds, batch, mask).Success? <==> Placeable(t, shreds, |batch|)
    ensures Interleave(t, shreds, batch, mask).Success? ==>
              var (batch', mask') := Interleave(t, shreds, batch, mask).value;
              IsBatch(t, batch', mask') && Extends(batch, mask, shreds, batch', mask')
    decreases |shreds|
  {
    if shreds == [] {
      PushStubsFacts(t, batch, mask, |mask|);
    } else if FitsNext(t, shreds[0], |batch|) {
      var index := ErasureShardIndex(shreds[0]).value;
      PushStubsFacts(t, batch, mask, index);
      var padded := PushStubs(t, batch, index).value;
      var more, mask1 := padded + [shreds[0]], mask[index := true];
      InterleaveFacts(t, shreds[1..], more, mask1);
      PlaceableStep(t, shreds, |batch|);
      CountSet(mask, index);
      if Interleave(t, shreds[1..], more, mask1).Success? {
        var (batch', mask') := Interleave(t, shreds[1..], more, mask1).value;
        ExtendsStep(batch, mask, shreds, padded, index, batch', mask');
      }
    }
  }

  /**
    * The loop succeeds exactly on shreds of one signature whose indices ascend within the batch. It then
    * yields a full batch: each received shred at its index and marked, and stubs in all other places.
    */
  lemma AssembleExact(t: Template, sorted: seq<Shred>)
    requires TemplateOk(t)
    ensures Assemble(t, sorted).Success? <==> Placeable(t, sorted, 0)
    ensures Assemble(t, sorted).Success? ==>
              var (batch, mask) := Assemble(t, sorted).value;
              && |batch| == |mask| == t.NumShards() && IsBatch(t, batch, mask)
              && (forall j :: 0 <= j < |sorted| ==> Holds(batch, mask, sorted[j]))
              && CountPresent(mask) == |sorted|
              && |sorted| + |Missing(mask)| == t.NumShards()
  {
    var n := t.NumShards();
    assert IsBatch(t, [], NothingPresent(n));
    InterleaveFacts(t, sorted, [], NothingPresent(n));
    CountNothing(n);
    if Assemble(t, sorted).Success? {
      MissingExact(Assemble(t, sorted).value.1);
    }
  }

  lemma {:induction false} InterleaveMarks(t: Template, shreds: seq<Shred>, batch: seq<Shred>, mask: seq<bool>, i: nat)
    requires TemplateOk(t) && IsBatch(t, batch, mask) && i < |mask|
    requires Interleave(t, shreds, batch, mask).Success?
    ensures Interleave(t, shreds, batch, mask).value.1[i] ==>
              mask[i] || exists j :: 0 <= j < |shreds| && ErasureShardIndex(shreds[j]) == Success(i)
    decreases |shreds|
  {
    if shreds != [] {
      var index := ErasureShardIndex(shreds[0]).value;
      PushStubsFacts(t, batch, mask, index);
      var more, mask1 := PushStubs(t, batch, index).value + [shreds[0]], mask[index := true];
      InterleaveMarks(t, shreds[1..], more, mask1, i);
      if Interleave(t, shreds, batch, mask).value.1[i] && !mask[i] && i != index {
        var j :| 0 <= j < |shreds[1..]| && ErasureShardIndex(shreds[1..][j]) == Success(i);
        assert ErasureShardIndex(shreds[j + 1]) == Success(i);
      }
    }
  }

  /** A place is marked exactly if one of the received shreds belongs there. */
  lemma MaskMeansReceived(t: Template, sorted: seq<Shred>, i: nat)
    requires TemplateOk(t) && Assemble(t, sorted).Success? && i < t.NumShards()
    ensures Assemble(t, sorted).value.1[i] <==>
            exists j :: 0 <= j < |sorted| && ErasureShardIndex(sorted[j]) == Success(i)
    ensures Assemble(t, sorted).value.1[i] ==> Assemble(t, sorted).value.0[i] in sorted
  {
    var n := t.NumShards();
    assert IsBatch(t, [], NothingPresent(n));
    InterleaveMarks(t, sorted, [], NothingPresent(n), i);
    InterleaveFacts(t, sorted, [], NothingPresent(n));
    var (batch, mask) := Assemble(t, sorted).value;
    if j :| 0 <= j < |sorted| && ErasureShardIndex(sorted[j]) == Success(i) {
      assert Holds(batch, mask, sorted[j]);
    }
    if mask[i] {
      var j :| 0 <= j < |sorted| && ErasureShardIndex(sorted[j]) == Success(i);
      assert Holds(batch, mask, sorted[j]);
    }
  }

  // ----- Order -----

  /** The sort key decides the comparison; shreds of one key compare as equal. */
  predicate SameKey(a: Shred, b: Shred) {
    a.Type() == b.Type() && a.common.index == b.common.index
  }

  predicate DistinctKeys(shreds: seq<Shred>) {
    forall i, j :: 0 <= i < j < |shreds| ==> !SameKey(shreds[i], shreds[j])
  }

  lemma FirstIsLeast(a: seq<Shred>, s: Shred)
    requires IsSorted(a) && s in a
    ensures AtMost(a[0], s)
  {
    var i :| 0 <= i < |a| && a[i] == s;
  }

  lemma HeadsAgree(a: seq<Shred>, b: seq<Shred>)
    requires IsSorted(a) && IsSorted(b) && DistinctKeys(a) && a != [] && b != []
    requires a[0] in b && b[0] in a
    ensures a[0] == b[0]
  {
    FirstIsLeast(a, b[0]);
    FirstIsLeast(b, a[0]);
    var i :| 0 <= i < |a| && a[i] == b[0];
    assert i > 0 ==> !SameKey(a[0], a[i]);
  }

  lemma PermutationFacts<T>(a: seq<T>, b: seq<T>)
    requires multiset(a) == multiset(b)
    ensures |a| == |b|
    ensures forall x :: x in a <==> x in b
    ensures a != [] && a[0] == b[0] ==> multiset(a[1..]) == multiset(b[1..])
  {
    assert |a| == |multiset(a)| == |multiset(b)| == |b|;
    forall x ensures x in a <==> x in b {
      assert x in a <==> x in multiset(a);
      assert x in b <==> x in multiset(b);
    }
    if a != [] && a[0] == b[0] {
      assert a == [a[0]] + a[1..] && b == [b[0]] + b[1..];
      assert multiset(a[1..]) == multiset(a) - multiset{a[0]};
    }
  }

  /** Sorting shreds with pairwise different keys leaves no choice. */
  lemma {:induction false} SortIsUnique(a: seq<Shred>, b: seq<Shred>)
    requires IsSorted(a) && IsSorted(b) && multiset(a) == multiset(b) && DistinctKeys(a)
    ensures a == b
    decreases |a|
  {
    PermutationFacts(a, b);
    if a != [] {
      assert a[0] in b && b[0] in a;
      HeadsAgree(a, b);
      SortIsUnique(a[1..], b[1..]);
      assert a == [a[0]] + a[1..] && b == [b[0]] + b[1..];
    }
  }

  lemma DuplicatesCount<T>(a: seq<T>, i: nat, j: nat)
    requires i < j < |a| && a[i] == a[j]
    ensures multiset(a)[a[i]] >= 2
  {
    assert a == a[..j] + [a[j]] + a[j + 1..];
    assert a[i] in a[..j];
  }

  lemma {:induction false} CountsOnce<T>(a: seq<T>, x: T)
    requires forall i, j :: 0 <= i < j < |a| ==> a[i] != a[j]
    ensures multiset(a)[x] <= 1
  {
    if a != [] {
      CountsOnce(a[1..], x);
      assert a == [a[0]] + a[1..];
      if x == a[0] {
        assert x !in a[1..];
      }
    }
  }

  lemma CodeSortsLast(sorted: seq<Shred>)
    requires IsSorted(sorted) && exists s :: s in sorted && s.ShredCode?
    ensures sorted != [] && Last(sorted).ShredCode?
  {
    var c :| c in sorted && c.ShredCode?;
    var at :| 0 <= at < |sorted| && sorted[at] == c;
    assert at < |sorted| - 1 ==> AtMost(sorted[at], sorted[|sorted| - 1]);
  }

  /** Shreds of one erasure set: the same FEC set, data within it, and one coding configuration. */
  predicate InSet(s: Shred, fecSetIndex: u32, firstCodingIndex: u32, numData: u16, numCoding: u16) {
    && s.common.fecSetIndex == fecSetIndex && ErasureShardIndex(s).Success?
    && (match s
        case ShredData(_, _, _) => ErasureShardIndex(s).value < numData
        case ShredCode(_, coding, _) =>
          && coding.numDataShreds == numData && coding.numCodingShreds == numCoding
          && FirstCodingIndex(s) == Some(firstCodingIndex))
  }

  /** Within one erasure set the comparator's order is the order of the erasure shard indices. */
  lemma OrderIsShardOrder(a: Shred, b: Shred, fecSetIndex: u32, firstCodingIndex: u32, numData: u16, numCoding: u16)
    requires InSet(a, fecSetIndex, firstCodingIndex, numData, numCoding)
    requires InSet(b, fecSetIndex, firstCodingIndex, numData, numCoding)
    ensures AtMost(a, b) <==> ErasureShardIndex(a).value <= ErasureShardIndex(b).value
    ensures SameKey(a, b) <==> ErasureShardIndex(a) == ErasureShardIndex(b)
  {
  }
}
