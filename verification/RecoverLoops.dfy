/** `recover` and `recover_data_only` as they run: loops over a batch and a mask (src/merkle.rs:608-870). */
module RecoverLoops {
  import opened Wrappers
  import opened Bytes
  import opened Errors
  import opened Headers
  import opened MerkleTree
  import opened Shreds
  import opened Setters
  import opened ErasureCode
  import opened Recovery
  import opened ShredObjects

  // ----- Sorting -----

  /** `tuple_windows().all(is_sorted)`. */
  method WindowsAreSorted(shreds: seq<Shred>) returns (sorted: bool)
    ensures sorted <==> IsSorted(shreds)
  {
    if |shreds| < 2 {
      return true;
    }
    for i := 1 to |shreds|
      invariant IsSorted(shreds[..i])
    {
      if !AtMost(shreds[i - 1], shreds[i]) {
        return false;
      }
      assert shreds[..i + 1] == shreds[..i] + [shreds[i]];
    }
    assert shreds[..|shreds|] == shreds;
    return true;
  }

  lemma InsertKeepsOrder(sorted: seq<Shred>, k: nat, s: Shred)
    requires IsSorted(sorted) && k <= |sorted|
    requires k > 0 ==> AtMost(sorted[k - 1], s)
    requires forall j :: k <= j < |sorted| ==> AtMost(s, sorted[j])
    ensures IsSorted(sorted[..k] + [s] + sorted[k..])
  {
  }

  lemma InsertKeepsShreds<T>(sorted: seq<T>, k: nat, shreds: seq<T>, i: nat)
    requires k <= |sorted| && i < |shreds| && multiset(sorted) == multiset(shreds[..i])
    ensures multiset(sorted[..k] + [shreds[i]] + sorted[k..]) == multiset(shreds[..i + 1])
  {
    assert shreds[..i + 1] == shreds[..i] + [shreds[i]];
    assert sorted == sorted[..k] + sorted[k..];
  }

  /** Stands for `sort_unstable_by`; callers rely on no more than its contract. */
  method SortShreds(shreds: seq<Shred>) returns (sorted: seq<Shred>)
    ensures IsSortOf(sorted, shreds)
  {
    sorted := [];
    for i := 0 to |shreds|
      invariant IsSortOf(sorted, shreds[..i])
    {
      var k := |sorted|;
      while k > 0 && !AtMost(sorted[k - 1], shreds[i])
        invariant 0 <= k <= |sorted|
        invariant forall j :: k <= j < |sorted| ==> AtMost(shreds[i], sorted[j])
      {
        k := k - 1;
      }
      InsertKeepsOrder(sorted, k, shreds[i]);
      InsertKeepsShreds(sorted, k, shreds, i);
      sorted := sorted[..k] + [shreds[i]] + sorted[k..];
    }
    assert shreds[..|shreds|] == shreds;
  }

  // ----- Stubs and the batch -----

  method MakeStubShred(t: Template, erasureShardIndex: nat) returns (r: Result<Shred, Error>)
    ensures r == MakeStub(t, erasureShardIndex)
  {
    var shred: MerkleShred;
    if erasureShardIndex >= t.NumData() {
      var position := erasureShardIndex - t.NumData();
      if position >= 0x1_0000 {
        return Failure(Erasure(InvalidIndex));
      }
      shred := new MerkleShred(StubCode(t, position));
    } else {
      if !t.common.variant.MerkleCode? {
        return Failure(InvalidShredVariant);
      }
      shred := new MerkleShred(StubData(t, erasureShardIndex));
    }
    if t.chainedRoot.Some? {
      var outcome := shred.SetChainedMerkleRoot(t.chainedRoot.value);
      if outcome.Failure? {
        return Failure(outcome.error);
      }
    }
    if t.retransmitter.Some? {
      var outcome := shred.SetRetransmitterSignature(t.retransmitter.value);
      if outcome.Failure? {
        return Failure(outcome.error);
      }
    }
    var stub := shred.ToValue();
    return Success(stub);
  }

  /** `while batch.len() < upTo { batch.push(make_stub_shred(batch.len())?) }`. */
  method FillWithStubs(t: Template, batch: seq<Shred>, upTo: nat) returns (r: Result<seq<Shred>, Error>)
    ensures r == PushStubs(t, batch, upTo)
  {
    var padded := batch;
    while |padded| < upTo
      invariant PushStubs(t, batch, upTo) == PushStubs(t, padded, upTo)
      decreases upTo - |padded|
    {
      var stub := MakeStubShred(t, |padded|);
      if stub.Failure? {
        return Failure(stub.error);
      }
      padded := padded + [stub.value];
    }
    return Success(padded);
  }

  method AssembleBatch(t: Template, sorted: seq<Shred>) returns (r: Result<(seq<Shred>, seq<bool>), Error>)
    ensures r == Assemble(t, sorted)
  {
    var numShards := t.NumShards();
    var batch: seq<Shred>, mask := [], NothingPresent(numShards);
    assert sorted[0..] == sorted;
    for j := 0 to |sorted|
      invariant |batch| <= |mask| == numShards
      invariant Assemble(t, sorted) == Interleave(t, sorted[j..], batch, mask)
    {
      var shred := sorted[j];
      assert sorted[j..][0] == shred && sorted[j..][1..] == sorted[j + 1..];
      if shred.common.signature != t.common.signature {
        return Failure(InvalidMerkleRoot);
      }
      var index := ErasureShardIndex(shred);
      if index.Failure? {
        return Failure(index.error);
      }
      if !(|batch| <= index.value < numShards) {
        return Failure(Erasure(InvalidIndex));
      }
      var padded := FillWithStubs(t, batch, index.value);
      if padded.Failure? {
        return Failure(padded.error);
      }
      mask := mask[index.value := true];
      batch := padded.value + [shred];
    }
    var full := FillWithStubs(t, batch, numShards);
    if full.Failure? {
      return Failure(full.error);
    }
    return Success((full.value, mask));
  }

  // ----- Reconstruction in place -----

  /** What reconstruction does through the guards it was given, one shred after the other. */
  method WriteBack(batch: seq<Shred>, shards: seq<Bytes>) returns (rebuilt: seq<Shred>)
    requires |batch| == |shards|
    requires forall i :: 0 <= i < |batch| ==> WellSized(batch[i]) && |shards[i]| == ErasureShardLength(batch[i])
    ensures rebuilt == WriteShards(batch, shards)
  {
    rebuilt := batch;
    for i := 0 to |batch|
      invariant |rebuilt| == |batch|
      invariant forall j :: 0 <= j < i ==> rebuilt[j] == SetErasureShard(batch[j], shards[j])
      invariant forall j :: i <= j < |batch| ==> rebuilt[j] == batch[j]
    {
      var shred := new MerkleShred(batch[i]);
      shred.SetErasureShard(shards[i]);
      var written := shred.ToValue();
      rebuilt := rebuilt[i := written];
    }
    assert rebuilt == WriteShards(batch, shards);
  }

  method ReconstructBatch(code: ReedSolomon, t: Template, batch: seq<Shred>, mask: seq<bool>)
    returns (r: Result<seq<Shred>, Error>)
    requires |batch| == |mask|
    ensures r == Reconstruct(code, t, batch, mask)
  {
    var shards: seq<Bytes> := [];
    ghost var all := seq(|batch|, i requires 0 <= i < |batch| => ErasureShard(batch[i]));
    for i := 0 to |batch|
      invariant |shards| == i
      invariant forall j :: 0 <= j < i ==> all[j] == Success(shards[j])
    {
      var shard := ErasureShard(batch[i]);
      if shard.Failure? {
        CollectPrefix(all, shards);
        return Failure(shard.error);
      }
      shards := shards + [shard.value];
    }
    CollectAll(all, shards);
    ErasureShardsExact(batch);
    var codec := NewCodec(t.NumData(), t.NumShards() - t.NumData());
    if codec.Failure? {
      return Failure(Erasure(codec.error));
    }
    var completed := code(t.NumData(), t.NumShards() - t.NumData(), shards, mask);
    if completed.Failure? {
      return Failure(Erasure(completed.error));
    }
    assert IsCompletion(shards, mask, completed.value);
    WriteShardsRebuilds(batch, mask, shards, completed.value);
    var rebuilt := WriteBack(batch, completed.value);
    return Success(rebuilt);
  }

  // ----- The full path -----

  /** The closure that re-parses, sanitizes and hashes the shreds of the batch one by one. */
  method RefreshBatch(h: Hasher, t: Template, rebuilt: seq<Shred>, mask: seq<bool>)
    returns (batch: seq<Shred>, nodes: seq<Result<Hash, Error>>)
    requires |rebuilt| == |mask|
    ensures |batch| == |rebuilt|
    ensures forall i :: 0 <= i < |rebuilt| ==> batch[i] == AfterRefresh(t, i, rebuilt[i], mask[i])
    ensures nodes == Leaves(h, RefreshAll(t, rebuilt, mask))
  {
    batch, nodes := rebuilt, [];
    ghost var leaves := Leaves(h, RefreshAll(t, rebuilt, mask));
    ghost var expected := seq<Shred>(|rebuilt|,
        i requires 0 <= i < |rebuilt| => AfterRefresh(t, i, rebuilt[i], mask[i]));
    for i := 0 to |rebuilt|
      invariant |batch| == |rebuilt| && |nodes| == i
      invariant forall j :: 0 <= j < i ==> batch[j] == expected[j]
      invariant forall j :: i <= j < |rebuilt| ==> batch[j] == rebuilt[j]
      invariant forall j :: 0 <= j < i ==> nodes[j] == leaves[j]
    {
      var refreshed := Refresh(t, i, batch[i], mask[i]);
      assert leaves[i] == Leaf(h, RefreshAll(t, rebuilt, mask)[i]);
      batch, nodes := batch[i := refreshed.UnwrapOr(batch[i])], nodes + [Leaf(h, refreshed)];
    }
  }

  /** A tree can only be built if every shred of the batch was refreshed without an error. */
  lemma TreeMeansRefreshed(h: Hasher, t: Template, rebuilt: seq<Shred>, mask: seq<bool>, batch: seq<Shred>)
    requires |rebuilt| == |mask| == |batch|
    requires forall i :: 0 <= i < |rebuilt| ==> batch[i] == AfterRefresh(t, i, rebuilt[i], mask[i])
    requires BuildTree(h, Leaves(h, RefreshAll(t, rebuilt, mask))).Success?
    ensures Collect(RefreshAll(t, rebuilt, mask)) == Success(batch)
  {
    var refreshed := RefreshAll(t, rebuilt, mask);
    CollectValues(Leaves(h, refreshed));
    forall i | 0 <= i < |refreshed| ensures refreshed[i] == Success(batch[i]) {
      assert Leaves(h, refreshed)[i].Success?;
    }
    CollectAll(refreshed, batch);
  }

  /** Refreshes the rebuilt batch, builds its tree and compares the root with the expected one. */
  method CheckRoot(h: Hasher, t: Template, rebuilt: seq<Shred>, mask: seq<bool>, merkleRoot: Hash)
    returns (r: Result<Prepared, Error>)
    requires |rebuilt| == |mask|
    ensures r == CheckedRoot(h, t, rebuilt, mask, merkleRoot)
  {
    var batch, nodes := RefreshBatch(h, t, rebuilt, mask);
    var tree := TryNew(h, nodes);
    if tree.Failure? {
      return Failure(tree.error);
    }
    TreeMeansRefreshed(h, t, rebuilt, mask, batch);
    if tree.value == [] || tree.value[|tree.value| - 1] != merkleRoot {
      return Failure(InvalidMerkleRoot);
    }
    return Success(Prepared(t, batch, mask, tree.value));
  }

  method PrepareInOrder(h: Hasher, code: ReedSolomon, sorted: seq<Shred>) returns (r: Result<Prepared, Error>)
    ensures r == Prepare(h, code, sorted)
  {
    var template := MakeTemplate(sorted);
    if template.Failure? {
      return Failure(template.error);
    }
    var t := template.value;
    var merkleRoot := MerkleRoot(h, Last(sorted));
    if merkleRoot.Failure? {
      return Failure(merkleRoot.error);
    }
    if !t.common.variant.MerkleCode? {
      return Failure(InvalidShredVariant);
    }
    var assembled := AssembleBatch(t, sorted);
    if assembled.Failure? {
      return Failure(assembled.error);
    }
    var (received, mask) := assembled.value;
    var rebuilt := ReconstructBatch(code, t, received, mask);
    if rebuilt.Failure? {
      return Failure(rebuilt.error);
    }
    r := CheckRoot(h, t, rebuilt.value, mask, merkleRoot.value);
  }

  lemma FinishMissingAt(p: Prepared, j: nat)
    requires IsPrepared(p) && j < |Missing(p.mask)|
    ensures Missing(p.mask)[j] < |p.batch|
    ensures FinishMissing(p)[j] == Finish(p, Missing(p.mask)[j])
  {
    MissingExact(p.mask);
    assert Missing(p.mask)[j] in Missing(p.mask);
  }

  lemma NextOf<T>(all: seq<T>, n: nat, next: T, rest: seq<T>)
    requires n <= |all| && all[n..] == [next] + rest
    ensures n < |all| && all[n] == next && all[n + 1..] == rest
  {
    assert all[n..][0] == next;
    assert all[n..][1..] == all[n + 1..];
  }

  lemma TakeNext<T>(all: seq<T>, n: nat)
    requires n < |all|
    ensures all[..n + 1] == all[..n] + [all[n]]
  {
  }

  method FinishShred(p: Prepared, index: nat) returns (item: Result<Shred, Error>)
    requires IsPrepared(p) && index < |p.batch|
    ensures item == Finish(p, index)
  {
    var shred := new MerkleShred(p.batch[index]);
    var proof := new ProofIterator(p.tree, index, |p.batch|);
    var outcome := shred.SetMerkleProof(proof);
    if outcome.Failure? {
      return Failure(outcome.error);
    }
    var finished := shred.ToValue();
    return Success(finished);
  }

  /** The closure `set_merkle_proof`, mapped over the batch; received shreds are filtered out. */
  method FinishBatch(p: Prepared) returns (items: seq<Result<Shred, Error>>)
    requires IsPrepared(p)
    ensures items == FinishMissing(p)
  {
    items := [];
    ghost var all, missing := FinishMissing(p), Missing(p.mask);
    for i := 0 to |p.batch|
      invariant |items| <= |missing| == |all| && missing[|items|..] == MissingFrom(p.mask, i)
      invariant items == all[..|items|]
    {
      if !p.mask[i] {
        NextOf(missing, |items|, i, MissingFrom(p.mask, i + 1));
        FinishMissingAt(p, |items|);
        var item := FinishShred(p, i);
        TakeNext(all, |items|);
        items := items + [item];
      }
    }
    assert all[..|items|] == all;
  }

  method RecoverInOrder(h: Hasher, code: ReedSolomon, sorted: seq<Shred>)
    returns (r: Result<seq<Result<Shred, Error>>, Error>)
    ensures r == RecoverSorted(h, code, sorted)
  {
    var prepared := PrepareInOrder(h, code, sorted);
    if prepared.Failure? {
      return Failure(prepared.error);
    }
    var items := FinishBatch(prepared.value);
    return Success(items);
  }

  method Recover(h: Hasher, code: ReedSolomon, shreds: seq<Shred>)
    returns (r: Result<seq<Result<Shred, Error>>, Error>)
    ensures exists sorted :: IsSortOf(sorted, shreds) && r == RecoverSorted(h, code, sorted)
  {
    var sorted := shreds;
    var inOrder := WindowsAreSorted(sorted);
    if !inOrder {
      sorted := SortShreds(shreds);
    }
    assert IsSortOf(sorted, shreds);
    r := RecoverInOrder(h, code, sorted);
  }

  // ----- The fast path -----

  method ParseMissing(t: Template, rebuilt: seq<Shred>, mask: seq<bool>) returns (recovered: seq<Shred>)
    requires |rebuilt| == |mask|
    ensures recovered == ParsedMissing(t, rebuilt, mask, 0)
  {
    recovered := [];
    for i := 0 to |rebuilt|
      invariant recovered + ParsedMissing(t, rebuilt, mask, i) == ParsedMissing(t, rebuilt, mask, 0)
    {
      if !mask[i] && i < t.NumData() && rebuilt[i].ShredData? {
        var headers := DecodeDataHeaders(rebuilt[i].payload);
        if headers.Success? && rebuilt[i].common == headers.value.0 {
          var parsed := rebuilt[i].(data := headers.value.1);
          assert (recovered + [parsed]) + ParsedMissing(t, rebuilt, mask, i + 1)
              == recovered + ([parsed] + ParsedMissing(t, rebuilt, mask, i + 1));
          recovered := recovered + [parsed];
        }
      }
    }
  }

  method RecoverDataOnlyInOrder(code: ReedSolomon, sorted: seq<Shred>) returns (r: Result<seq<Shred>, Error>)
    ensures r == RecoverDataOnlySorted(code, sorted)
  {
    var template := MakeTemplate(sorted);
    if template.Failure? {
      return Failure(template.error);
    }
    var t := template.value;
    var assembled := AssembleBatch(t, sorted);
    if assembled.Failure? {
      return Failure(assembled.error);
    }
    var (batch, mask) := assembled.value;
    var rebuilt := ReconstructBatch(code, t, batch, mask);
    if rebuilt.Failure? {
      return Failure(rebuilt.error);
    }
    var recovered := ParseMissing(t, rebuilt.value, mask);
    return Success(recovered);
  }

  method RecoverDataOnly(code: ReedSolomon, shreds: seq<Shred>) returns (r: Result<seq<Shred>, Error>)
    ensures exists sorted :: IsSortOf(sorted, shreds) && r == RecoverDataOnlySorted(code, sorted)
  {
    var sorted := shreds;
    var inOrder := WindowsAreSorted(sorted);
    if !inOrder {
      sorted := SortShreds(shreds);
    }
    assert IsSortOf(sorted, shreds);
    r := RecoverDataOnlyInOrder(code, sorted);
  }
}
