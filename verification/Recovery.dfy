/** FEC recovery as functions of the sorted input (src/merkle.rs:608-950). */
module Recovery {
  import opened Wrappers
  import opened Bytes
  import opened Errors
  import opened Headers
  import opened MerkleTree
  import opened Shreds
  import opened Setters
  import opened ErasureCode

  // ----- Order -----

  /** `cmp_shred_erasure_shard_index(a, b).is_le()`: data before code, then by index. */
  predicate AtMost(a: Shred, b: Shred) {
    if a.Type() == b.Type() then a.common.index <= b.common.index else a.ShredData?
  }

  predicate IsSorted(shreds: seq<Shred>) {
    forall i, j :: 0 <= i < j < |shreds| ==> AtMost(shreds[i], shreds[j])
  }

  /** What sorting may return: the order of shreds that compare as equal is left open. */
  predicate IsSortOf(sorted: seq<Shred>, shreds: seq<Shred>) {
    IsSorted(sorted) && multiset(sorted) == multiset(shreds)
  }

  // ----- Template -----

  /** What stubs are made from: the headers of the first coding shred and the optional trailers of the last one. */
  datatype Template = Template(
    common: ShredCommonHeader, coding: CodingShredHeader, chainedRoot: Option<Hash>, retransmitter: Option<Signature>)
  {
    function NumData(): nat { coding.numDataShreds }
    function NumShards(): nat { coding.numDataShreds + coding.numCodingShreds }
  }

  function Last(shreds: seq<Shred>): Shred
    requires shreds != []
  {
    shreds[|shreds| - 1]
  }

  function MakeTemplate(sorted: seq<Shred>): (r: Result<Template, Error>)
    ensures r.Success? ==> sorted != [] && Last(sorted).ShredCode?
  {
    if sorted == [] || !Last(sorted).ShredCode? then Failure(Erasure(ErasureError.TooFewParityShards)) else
      var last := Last(sorted);
      match FirstCodingIndex(last)
      case None => Failure(Erasure(InvalidIndex))
      case Some(index) =>
        Success(Template(last.common.(index := index), last.coding.(position := 0),
                         ChainedMerkleRoot(last).ToOption(), RetransmitterSignature(last).ToOption()))
  }

  // ----- Stubs -----

  /** 32-bit addition, wrapping around. */
  function AddU32(a: u32, b: nat): u32 {
    (a + b) % 0x1_0000_0000
  }

  function StubCode(t: Template, position: u16): Shred {
    var common := t.common.(index := AddU32(t.common.index, position));
    var coding := t.coding.(position := position);
    ShredCode(common, coding,
              Splice(Zeros(SizeOfPayload(Code)), 0, EncodeCommonHeader(common) + EncodeCodingHeader(coding)))
  }

  function StubData(t: Template, erasureShardIndex: nat): Shred {
    var variant := MerkleData(t.common.variant.proofSize, t.retransmitter.Some?);
    var common := t.common.(variant := variant, index := AddU32(t.common.fecSetIndex, erasureShardIndex));
    ShredData(common, DataShredHeader(0, 0, 0), Splice(Zeros(SizeOfPayload(Data)), 0, common.signature))
  }

  function SetTrailers(s: Shred, chainedRoot: Option<Hash>, retransmitter: Option<Signature>): Result<Shred, Error> {
    var s1 :- if chainedRoot.Some? then SetChainedMerkleRoot(s, chainedRoot.value) else Success(s);
    if retransmitter.Some? then SetRetransmitterSignature(s1, retransmitter.value) else Success(s1)
  }

  function MakeStub(t: Template, erasureShardIndex: nat): Result<Shred, Error> {
    if erasureShardIndex >= t.NumData() then
      var position := erasureShardIndex - t.NumData();
      if position >= 0x1_0000 then Failure(Erasure(InvalidIndex))
      else SetTrailers(StubCode(t, position), t.chainedRoot, t.retransmitter)
    else if !t.common.variant.MerkleCode? then Failure(InvalidShredVariant)
    else SetTrailers(StubData(t, erasureShardIndex), t.chainedRoot, t.retransmitter)
  }

  // ----- Interleaving shreds and stubs -----

  function PushStubs(t: Template, batch: seq<Shred>, upTo: nat): (r: Result<seq<Shred>, Error>)
    ensures r.Success? ==> |r.value| == if |batch| < upTo then upTo else |batch|
    decreases upTo - |batch|
  {
    if |batch| >= upTo then Success(batch) else
      var stub :- MakeStub(t, |batch|);
      PushStubs(t, batch + [stub], upTo)
  }

  function Interleave(t: Template, shreds: seq<Shred>, batch: seq<Shred>, mask: seq<bool>)
    : (r: Result<(seq<Shred>, seq<bool>), Error>)
    requires |batch| <= |mask|
    ensures r.Success? ==> |r.value.0| == |r.value.1| == |mask|
    decreases |shreds|
  {
    if shreds == [] then
      var full :- PushStubs(t, batch, |mask|);
      Success((full, mask))
    else if shreds[0].common.signature != t.common.signature then Failure(InvalidMerkleRoot)
    else
      var index :- ErasureShardIndex(shreds[0]);
      if !(|batch| <= index < |mask|) then Failure(Erasure(InvalidIndex)) else
        var padded :- PushStubs(t, batch, index);
        Interleave(t, shreds[1..], padded + [shreds[0]], mask[index := true])
  }

  function NothingPresent(n: nat): (mask: seq<bool>)
    ensures |mask| == n
  {
    seq(n, _ => false)
  }

  function Assemble(t: Template, sorted: seq<Shred>): (r: Result<(seq<Shred>, seq<bool>), Error>)
    ensures r.Success? ==> |r.value.0| == |r.value.1| == t.NumShards()
  {
    Interleave(t, sorted, [], NothingPresent(t.NumShards()))
  }

  // ----- Reconstruction -----

  function ErasureShards(batch: seq<Shred>): Result<seq<Bytes>, Error> {
    Collect(seq(|batch|, i requires 0 <= i < |batch| => ErasureShard(batch[i])))
  }

  lemma ErasureShardsExact(batch: seq<Shred>)
    ensures ErasureShards(batch).Success? <==> forall i :: 0 <= i < |batch| ==> WellSized(batch[i])
    ensures ErasureShards(batch).Success? ==>
              && |ErasureShards(batch).value| == |batch|
              && forall i :: 0 <= i < |batch| ==> ErasureShard(batch[i]) == Success(ErasureShards(batch).value[i])
  {
    var shards := seq(|batch|, i requires 0 <= i < |batch| => ErasureShard(batch[i]));
    if ErasureShards(batch).Success? {
      CollectValues(shards);
      forall i | 0 <= i < |batch| ensures WellSized(batch[i]) {
        assert shards[i].Success?;
      }
    } else if forall i :: 0 <= i < |batch| ==> WellSized(batch[i]) {
      CollectAll(shards, seq(|batch|, i requires 0 <= i < |batch| => ErasureShard(batch[i]).value));
    }
  }

  /** The batch with the reconstructed bytes in its erasure shards. */
  function WriteShards(batch: seq<Shred>, shards: seq<Bytes>): (r: seq<Shred>)
    requires |batch| == |shards|
    requires forall i :: 0 <= i < |batch| ==> WellSized(batch[i]) && |shards[i]| == ErasureShardLength(batch[i])
    ensures |r| == |batch|
  {
    seq<Shred>(|batch|, i requires 0 <= i < |batch| => SetErasureShard(batch[i], shards[i]))
  }

  predicate RebuiltAt(batch: seq<Shred>, mask: seq<bool>, rebuilt: seq<Shred>, i: nat)
    requires i < |batch| == |mask| == |rebuilt|
  {
    && WellSized(batch[i]) && WellSized(rebuilt[i])
    && rebuilt[i] == batch[i].(payload := rebuilt[i].payload)
    && rebuilt[i] == SetErasureShard(batch[i], ErasureShard(rebuilt[i]).value)
    && (mask[i] ==> rebuilt[i] == batch[i])
  }

  /** Reconstruction touches no received shred, and of a missing one nothing but the erasure shard. */
  predicate IsRebuilt(batch: seq<Shred>, mask: seq<bool>, rebuilt: seq<Shred>)
    requires |batch| == |mask|
  {
    |rebuilt| == |batch| && forall i :: 0 <= i < |batch| ==> RebuiltAt(batch, mask, rebuilt, i)
  }

  lemma WriteShardsRebuilds(batch: seq<Shred>, mask: seq<bool>, shards: seq<Bytes>, completed: seq<Bytes>)
    requires |batch| == |mask| == |shards|
    requires forall i :: 0 <= i < |batch| ==> WellSized(batch[i]) && ErasureShard(batch[i]) == Success(shards[i])
    requires IsCompletion(shards, mask, completed)
    ensures forall i :: 0 <= i < |batch| ==> |completed[i]| == ErasureShardLength(batch[i])
    ensures IsRebuilt(batch, mask, WriteShards(batch, completed))
  {
    var rebuilt := WriteShards(batch, completed);
    forall i | 0 <= i < |batch| ensures RebuiltAt(batch, mask, rebuilt, i) {
      ErasureShardSetterFrame(batch[i], completed[i]);
    }
  }

  function Reconstruct(code: ReedSolomon, t: Template, batch: seq<Shred>,
      mask: seq<bool>): (r: Result<seq<Shred>, Error>)
    requires |batch| == |mask|
    ensures r.Success? ==> IsRebuilt(batch, mask, r.value)
  {
    ErasureShardsExact(batch);
    var shards :- ErasureShards(batch);
    var k, m := t.NumData(), t.NumShards() - t.NumData();
    if NewCodec(k, m).Failure? then Failure(Erasure(NewCodec(k, m).error))
    else if code(k, m, shards, mask).Failure? then Failure(Erasure(code(k, m, shards, mask).error))
    else
      var completed := code(k, m, shards, mask).value;
      assert IsCompletion(shards, mask, completed);
      WriteShardsRebuilds(batch, mask, shards, completed);
      Success(WriteShards(batch, completed))
  }

  lemma RebuiltAreWellSized(batch: seq<Shred>, mask: seq<bool>, rebuilt: seq<Shred>)
    requires |batch| == |mask| && IsRebuilt(batch, mask, rebuilt)
    ensures forall i :: 0 <= i < |batch| ==> WellSized(batch[i]) && WellSized(rebuilt[i])
    ensures forall i :: 0 <= i < |batch| && mask[i] ==> rebuilt[i] == batch[i]
  {
    forall i | 0 <= i < |batch|
      ensures WellSized(batch[i]) && WellSized(rebuilt[i]) && (mask[i] ==> rebuilt[i] == batch[i])
    {
      assert RebuiltAt(batch, mask, rebuilt, i);
    }
  }

  // ----- Re-parsing, root check and proofs -----

  /** A recovered shred gets its headers from its payload and is sanitized; a received one is left alone. */
  function Refresh(t: Template, index: nat, s: Shred, present: bool): (r: Result<Shred, Error>)
    ensures r.Success? ==> r.value.Type() == s.Type() && r.value.payload == s.payload
  {
    if present then Success(s)
    else if index < t.NumData() then
      if !s.ShredData? then Failure(InvalidRecoveredShred) else
        var (common, data) :- DecodeDataHeaders(s.payload);
        if s.common != common then Failure(InvalidRecoveredShred) else
          var parsed := s.(data := data);
          var _ :- Sanitize(parsed);
          Success(parsed)
    else if !s.ShredCode? then Failure(InvalidRecoveredShred)
    else
      var _ :- Sanitize(s);
      Success(s)
  }

  /** The shred after the attempt to refresh it: a failed attempt ends the recovery, so its value is immaterial. */
  function AfterRefresh(t: Template, index: nat, s: Shred, present: bool): Shred {
    Refresh(t, index, s, present).UnwrapOr(s)
  }

  function RefreshAll(t: Template, batch: seq<Shred>, mask: seq<bool>): (r: seq<Result<Shred, Error>>)
    requires |batch| == |mask|
    ensures |r| == |batch|
  {
    seq<Result<Shred, Error>>(|batch|, i requires 0 <= i < |batch| => Refresh(t, i, batch[i], mask[i]))
  }

  function Leaf(h: Hasher, refreshed: Result<Shred, Error>): Result<Hash, Error> {
    var s :- refreshed;
    MerkleNode(h, s)
  }

  function Leaves(h: Hasher, refreshed: seq<Result<Shred, Error>>): (r: seq<Result<Hash, Error>>)
    ensures |r| == |refreshed|
  {
    seq(|refreshed|, i requires 0 <= i < |refreshed| => Leaf(h, refreshed[i]))
  }

  /** The batch as it is when its Merkle tree has been built and its root found to be the expected one. */
  datatype Prepared = Prepared(template: Template, batch: seq<Shred>, mask: seq<bool>, tree: seq<Hash>)

  predicate IsPrepared(p: Prepared) {
    |p.batch| == |p.mask| && forall i :: 0 <= i < |p.batch| ==> WellSized(p.batch[i])
  }

  lemma RefreshedAreWellSized(t: Template, rebuilt: seq<Shred>, mask: seq<bool>, batch: seq<Shred>)
    requires |rebuilt| == |mask| && forall i :: 0 <= i < |rebuilt| ==> WellSized(rebuilt[i])
    requires Collect(RefreshAll(t, rebuilt, mask)) == Success(batch)
    ensures |batch| == |mask| && forall i :: 0 <= i < |batch| ==>
              WellSized(batch[i]) && Refresh(t, i, rebuilt[i], mask[i]) == Success(batch[i])
  {
    var refreshed := RefreshAll(t, rebuilt, mask);
    CollectValues(refreshed);
    forall i | 0 <= i < |batch| ensures WellSized(batch[i]) && Refresh(t, i, rebuilt[i], mask[i]) == Success(batch[i]) {
      assert refreshed[i] == Success(batch[i]);
    }
  }

  function CheckedRoot(h: Hasher, t: Template, rebuilt: seq<Shred>, mask: seq<bool>, merkleRoot: Hash)
    : Result<Prepared, Error>
    requires |rebuilt| == |mask|
  {
    var refreshed := RefreshAll(t, rebuilt, mask);
    var tree :- BuildTree(h, Leaves(h, refreshed));
    var batch :- Collect(refreshed);
    if tree == [] || tree[|tree| - 1] != merkleRoot then Failure(InvalidMerkleRoot)
    else Success(Prepared(t, batch, mask, tree))
  }

  function Prepare(h: Hasher, code: ReedSolomon, sorted: seq<Shred>): (r: Result<Prepared, Error>)
    ensures r.Success? ==> IsPrepared(r.value)
  {
    var t :- MakeTemplate(sorted);
    var merkleRoot :- MerkleRoot(h, Last(sorted));
    if !t.common.variant.MerkleCode? then Failure(InvalidShredVariant) else
      var (received, mask) :- Assemble(t, sorted);
      var rebuilt :- Reconstruct(code, t, received, mask);
      var p :- CheckedRoot(h, t, rebuilt, mask, merkleRoot);
      RebuiltAreWellSized(received, mask, rebuilt);
      RefreshedAreWellSized(t, rebuilt, mask, p.batch);
      Success(p)
  }

  /** A recovered shred with its proof, as the returned iterator yields it. */
  function Finish(p: Prepared, index: nat): Result<Shred, Error>
    requires IsPrepared(p) && index < |p.batch|
  {
    SetMerkleProof(p.batch[index], MakeMerkleProof(p.tree, index, |p.batch|))
  }

  function FinishMissing(p: Prepared): (items: seq<Result<Shred, Error>>)
    requires IsPrepared(p)
    ensures |items| == |Missing(p.mask)|
  {
    MissingExact(p.mask);
    seq<Result<Shred, Error>>(|Missing(p.mask)|, j requires 0 <= j < |Missing(p.mask)| =>
      assert Missing(p.mask)[j] in Missing(p.mask);
      Finish(p, Missing(p.mask)[j]))
  }

  function RecoverSorted(h: Hasher, code: ReedSolomon, sorted: seq<Shred>): Result<seq<Result<Shred, Error>>, Error> {
    var p :- Prepare(h, code, sorted);
    Success(FinishMissing(p))
  }

  // ----- The fast path -----

  /** A missing data shred whose headers cannot be read or do not fit its place is silently left out. */
  function ParsedData(t: Template, index: nat, s: Shred): Option<Shred> {
    if index >= t.NumData() || !s.ShredData? then None else
      match DecodeDataHeaders(s.payload)
      case Failure(_) => None
      case Success((common, data)) => if s.common == common then Some(s.(data := data)) else None
  }

  function ParsedMissing(t: Template, batch: seq<Shred>, mask: seq<bool>, start: nat): seq<Shred>
    requires |batch| == |mask|
    decreases |batch| - start
  {
    if start >= |batch| then [] else
      var rest := ParsedMissing(t, batch, mask, start + 1);
      if mask[start] then rest else
        match ParsedData(t, start, batch[start])
        case None => rest
        case Some(s) => [s] + rest
  }

  function RecoverDataOnlySorted(code: ReedSolomon, sorted: seq<Shred>): Result<seq<Shred>, Error> {
    var t :- MakeTemplate(sorted);
    var (batch, mask) :- Assemble(t, sorted);
    var rebuilt :- Reconstruct(code, t, batch, mask);
    Success(ParsedMissing(t, rebuilt, mask, 0))
  }
}
