/** A code with one parity shard, which shows that the contract of the Reed-Solomon library can be met. */
module ParityCode {
  import opened Wrappers
  import opened Bytes
  import opened Errors
  import opened ErasureCode

  function ByteAt(b: Bytes, p: nat): byte {
    if p < |b| then b[p] else 0
  }

  /** The sum over all shards of the bytes at one position. */
  function Sum(shards: seq<Bytes>, p: nat): nat {
    if shards == [] then 0 else ByteAt(shards[0], p) + Sum(shards[1..], p)
  }

  lemma {:induction false} SumWithout(shards: seq<Bytes>, i: nat, p: nat)
    requires i < |shards|
    ensures Sum(shards, p) == Sum(shards[i := []], p) + ByteAt(shards[i], p)
  {
    if i > 0 {
      assert shards[i := []][1..] == shards[1..][i - 1 := []];
      SumWithout(shards[1..], i - 1, p);
    } else {
      assert shards[i := []][1..] == shards[1..];
    }
  }

  /** Any number of data shards and one parity shard, all of one length, whose bytes add up to zero modulo 256. */
  predicate IsParity(k: nat, m: nat, a: seq<Bytes>) {
    && k > 0 && m == 1 && |a| == k + 1
    && (forall i :: 0 <= i < |a| ==> |a[i]| == |a[0]|)
    && (forall p :: 0 <= p < |a[0]| ==> Sum(a, p) % 256 == 0)
  }

  /** What shard `i` must be for the others to add up to zero. */
  function Balance(shards: seq<Bytes>, i: nat): (b: Bytes)
    requires i < |shards|
    ensures |b| == |shards[i]|
  {
    seq<byte>(|shards[i]|, p requires 0 <= p < |shards[i]| =>
      var others: int := Sum(shards[i := []], p);
      -others % 256)
  }

  lemma BalanceBalances(shards: seq<Bytes>, i: nat, p: nat)
    requires i < |shards| && p < |shards[i]|
    ensures Sum(shards[i := Balance(shards, i)], p) % 256 == 0
  {
    var balanced := shards[i := Balance(shards, i)];
    SumWithout(balanced, i, p);
    assert balanced[i := []] == shards[i := []];
  }

  /** Shards of one length and the one that balances them. */
  function Balanced(shards: seq<Bytes>, length: nat): (a: seq<Bytes>)
    requires shards != [] && forall i :: 0 <= i < |shards| ==> |shards[i]| == length
    ensures IsParity(|shards|, 1, a) && a[..|shards|] == shards && |a[|shards|]| == length
  {
    var k, open := |shards|, shards + [Zeros(length)];
    var a := open[k := Balance(open, k)];
    assert forall p :: 0 <= p < length ==> Sum(a, p) % 256 == 0 by {
      forall p | 0 <= p < length ensures Sum(a, p) % 256 == 0 {
        BalanceBalances(open, k, p);
      }
    }
    a
  }

  function Restore(k: nat, m: nat, shards: seq<Bytes>, mask: seq<bool>): Result<seq<Bytes>, ErasureError> {
    if m != 1 || |shards| != k + 1 || |mask| != k + 1 || CountPresent(mask) < k then Failure(TooFewShardsPresent)
    else if Missing(mask) == [] then Success(shards)
    else
      MissingExact(mask);
      var i := Missing(mask)[0];
      assert i in Missing(mask);
      Success(shards[i := Balance(shards, i)])
  }

  /** At most one place is missing. */
  lemma OnlyOneIsMissing(k: nat, mask: seq<bool>)
    requires |mask| == k + 1 && CountPresent(mask) >= k
    ensures Missing(mask) == [] ==> forall i :: 0 <= i < |mask| ==> mask[i]
    ensures Missing(mask) != [] ==>
              Missing(mask)[0] < |mask| && forall i :: 0 <= i < |mask| ==> (mask[i] <==> i != Missing(mask)[0])
  {
    MissingExact(mask);
    forall i | 0 <= i < |mask| && !mask[i] ensures Missing(mask) != [] && i == Missing(mask)[0] {
      assert i in Missing(mask);
    }
    if Missing(mask) != [] {
      assert Missing(mask)[0] in Missing(mask);
    }
  }

  lemma RestoreKeepsPresent()
    ensures KeepsPresentShards(Restore)
  {
    forall k, m, shards, mask | |shards| == |mask| && Restore(k, m, shards, mask).Success?
      ensures IsCompletion(shards, mask, Restore(k, m, shards, mask).value)
    {
      OnlyOneIsMissing(k, mask);
    }
  }

  lemma SameResidue(n: nat, x: byte, y: byte)
    requires (n + x) % 256 == 0 && (n + y) % 256 == 0
    ensures x == y
  {
  }

  lemma ParityIsDetermined(k: nat, a: seq<Bytes>, b: seq<Bytes>, mask: seq<bool>)
    requires IsParity(k, 1, a) && IsParity(k, 1, b) && AgreeWherePresent(a, b, mask) && CountPresent(mask) >= k
    ensures a == b
  {
    OnlyOneIsMissing(k, mask);
    if Missing(mask) != [] {
      var i := Missing(mask)[0];
      var other := if i == 0 then 1 else 0;
      assert mask[other] && |a[i]| == |a[other]| == |b[other]| == |b[i]|;
      assert a[i := []] == b[i := []];
      forall p | 0 <= p < |a[i]| ensures a[i][p] == b[i][p] {
        SumWithout(a, i, p);
        SumWithout(b, i, p);
        SameResidue(Sum(a[i := []], p), a[i][p], b[i][p]);
      }
      assert a[i] == b[i];
    }
  }

  lemma ParityIsRestored(k: nat, a: seq<Bytes>, shards: seq<Bytes>, mask: seq<bool>)
    requires IsParity(k, 1, a) && AgreeWherePresent(a, shards, mask) && SameLengths(a, shards)
    requires CountPresent(mask) >= k
    ensures Restore(k, 1, shards, mask).Success? && IsParity(k, 1, Restore(k, 1, shards, mask).value)
  {
    OnlyOneIsMissing(k, mask);
    if Missing(mask) == [] {
      assert shards == a;
    } else {
      var i := Missing(mask)[0];
      var restored := shards[i := Balance(shards, i)];
      forall p | 0 <= p < |restored[0]| ensures Sum(restored, p) % 256 == 0 {
        BalanceBalances(shards, i, p);
      }
    }
  }

  /** The contract is consistent: the parity code, which has codewords of any number of data shards, meets it. */
  lemma ParityMeetsContract()
    ensures KeepsPresentShards(Restore) && IsErasureCode(Restore, IsParity)
  {
    RestoreKeepsPresent();
    forall k: nat, m: nat, a, b, mask
      ensures IsParity(k, m, a) && IsParity(k, m, b) ==>
                AgreeWherePresent(a, b, mask) && CountPresent(mask) >= k ==> a == b
    {
      if IsParity(k, m, a) && IsParity(k, m, b) && AgreeWherePresent(a, b, mask) && CountPresent(mask) >= k {
        ParityIsDetermined(k, a, b, mask);
      }
    }
    forall k: nat, m: nat, a, shards, mask
      ensures IsParity(k, m, a) ==>
                AgreeWherePresent(a, shards, mask) && SameLengths(a, shards) && CountPresent(mask) >= k ==>
                  Restore(k, m, shards, mask).Success? && IsParity(k, m, Restore(k, m, shards, mask).value)
    {
      if IsParity(k, m, a) && AgreeWherePresent(a, shards, mask) && SameLengths(a, shards) {
        if CountPresent(mask) >= k {
          ParityIsRestored(k, a, shards, mask);
        }
      }
    }
  }
}
