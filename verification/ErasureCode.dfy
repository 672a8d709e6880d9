/** The contract of the Reed-Solomon library, whose inside is not part of this model. */
module ErasureCode {
  import opened Wrappers
  import opened Bytes
  import opened Errors

  /** `reconstruct` for given numbers of data and parity shards; the mask says which shards are present. */
  type Reconstruction = (nat, nat, seq<Bytes>, seq<bool>) -> Result<seq<Bytes>, ErasureError>

  predicate IsCompletion(shards: seq<Bytes>, mask: seq<bool>, completed: seq<Bytes>)
    requires |shards| == |mask|
  {
    && |completed| == |shards|
    && forall i :: 0 <= i < |shards| ==> |completed[i]| == |shards[i]| && (mask[i] ==> completed[i] == shards[i])
  }

  /** A successful reconstruction changes no present shard and no length. */
  ghost predicate KeepsPresentShards(f: Reconstruction) {
    forall k, m, shards, mask :: |shards| == |mask| && f(k, m, shards, mask).Success? ==>
      IsCompletion(shards, mask, f(k, m, shards, mask).value)
  }

  type ReedSolomon = f: Reconstruction | KeepsPresentShards(f)
    witness (k: nat, m: nat, shards: seq<Bytes>, mask: seq<bool>) => Failure(TooFewShardsPresent)

  const FIELD_ORDER := 256

  /** `ReedSolomon::new` refuses an empty side and more shards than the field has elements. */
  function NewCodec(dataShards: nat, parityShards: nat): Result<(), ErasureError> {
    if dataShards == 0 then Failure(TooFewDataShards)
    else if parityShards == 0 then Failure(ErasureError.TooFewParityShards)
    else if dataShards + parityShards > FIELD_ORDER then Failure(TooManyShards)
    else Success(())
  }

  function CountPresent(mask: seq<bool>): nat {
    if mask == [] then 0 else (if mask[0] then 1 else 0) + CountPresent(mask[1..])
  }

  predicate AgreeWherePresent(a: seq<Bytes>, b: seq<Bytes>, mask: seq<bool>) {
    && |a| == |b| == |mask|
    && forall i :: 0 <= i < |mask| && mask[i] ==> a[i] == b[i]
  }

  predicate SameLengths(a: seq<Bytes>, b: seq<Bytes>) {
    |a| == |b| && forall i :: 0 <= i < |a| ==> |a[i]| == |b[i]|
  }

  type Codewords = (nat, nat, seq<Bytes>) -> bool

  /** With fewer than `k` shards present reconstruction fails. */
  ghost predicate FailsBelowThreshold(f: ReedSolomon) {
    forall k: nat, m: nat, shards, mask :: |shards| == |mask| == k + m && CountPresent(mask) < k ==>
      f(k, m, shards, mask).Failure?
  }

  /** The code is maximum distance separable: `k` shards determine a codeword. */
  ghost predicate IsSeparable(codeword: Codewords) {
    forall k: nat, m: nat, a, b, mask :: codeword(k, m, a) && codeword(k, m, b) && |a| == k + m ==>
      AgreeWherePresent(a, b, mask) && CountPresent(mask) >= k ==> a == b
  }

  /** From at least `k` shards of a codeword reconstruction succeeds, and ends in a codeword. */
  ghost predicate CompletesCodewords(f: ReedSolomon, codeword: Codewords) {
    forall k: nat, m: nat, a, shards, mask :: codeword(k, m, a) && |a| == k + m && NewCodec(k, m).Success? ==>
      AgreeWherePresent(a, shards, mask) && SameLengths(a, shards) && CountPresent(mask) >= k ==>
        f(k, m, shards, mask).Success? && codeword(k, m, f(k, m, shards, mask).value)
  }

  ghost predicate IsErasureCode(f: ReedSolomon, codeword: Codewords) {
    FailsBelowThreshold(f) && IsSeparable(codeword) && CompletesCodewords(f, codeword)
  }

  /** From at least `k` of its shards a codeword comes back whole, whatever stood in the other places. */
  lemma ReconstructsCodeword(f: ReedSolomon, codeword: Codewords, k: nat, m: nat, a: seq<Bytes>, shards: seq<Bytes>,
      mask: seq<bool>)
    requires IsErasureCode(f, codeword) && NewCodec(k, m).Success?
    requires codeword(k, m, a) && |a| == k + m && CountPresent(mask) >= k
    requires AgreeWherePresent(a, shards, mask) && SameLengths(a, shards)
    ensures f(k, m, shards, mask) == Success(a)
  {
    var completed := f(k, m, shards, mask).value;
    assert IsCompletion(shards, mask, completed);
    assert AgreeWherePresent(a, completed, mask);
  }

  // ----- The places a mask leaves out -----

  /** The positions from `start` on that are not present, in ascending order. */
  function MissingFrom(mask: seq<bool>, start: nat): seq<nat>
    decreases |mask| - start
  {
    if start >= |mask| then []
    else if mask[start] then MissingFrom(mask, start + 1)
    else [start] + MissingFrom(mask, start + 1)
  }

  function Missing(mask: seq<bool>): seq<nat> {
    MissingFrom(mask, 0)
  }

  predicate Ascending(ps: seq<nat>) {
    forall i, j :: 0 <= i < j < |ps| ==> ps[i] < ps[j]
  }

  lemma {:induction false} MissingFromMembers(mask: seq<bool>, start: nat, p: nat)
    ensures p in MissingFrom(mask, start) <==> start <= p < |mask| && !mask[p]
    decreases |mask| - start
  {
    if start < |mask| {
      MissingFromMembers(mask, start + 1, p);
    }
  }

  lemma {:induction false} MissingFromAscends(mask: seq<bool>, start: nat)
    ensures Ascending(MissingFrom(mask, start))
    decreases |mask| - start
  {
    if start < |mask| {
      MissingFromAscends(mask, start + 1);
      var rest := MissingFrom(mask, start + 1);
      forall i | 0 <= i < |rest| ensures start < rest[i] {
        assert rest[i] in rest;
        MissingFromMembers(mask, start + 1, rest[i]);
      }
    }
  }

  lemma {:induction false} MissingFromCount(mask: seq<bool>, start: nat)
    requires start <= |mask|
    ensures |MissingFrom(mask, start)| + CountPresent(mask[start..]) == |mask| - start
    decreases |mask| - start
  {
    if start < |mask| {
      MissingFromCount(mask, start + 1);
      assert mask[start..][1..] == mask[start + 1..];
    }
  }

  /** Present and missing positions partition the mask. */
  lemma MissingExact(mask: seq<bool>)
    ensures Ascending(Missing(mask))
    ensures forall p :: p in Missing(mask) <==> 0 <= p < |mask| && !mask[p]
    ensures |Missing(mask)| + CountPresent(mask) == |mask|
  {
    MissingFromAscends(mask, 0);
    forall p: nat ensures p in Missing(mask) <==> 0 <= p < |mask| && !mask[p] {
      MissingFromMembers(mask, 0, p);
    }
    MissingFromCount(mask, 0);
    assert mask[0..] == mask;
  }
}
