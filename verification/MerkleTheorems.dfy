/** What the Merkle tree promises: sizes, completeness, soundness up to an explicit hash collision. */
module MerkleTheorems {
  import opened Wrappers
  import opened Bytes
  import opened Errors
  import opened MerkleTree

  // ----- Sizes -----

  function Pow2(p: nat): nat {
    if p == 0 then 1 else 2 * Pow2(p - 1)
  }

  /** Number of levels of the tree above its leaves. */
  function Depth(n: nat): nat {
    if n <= 1 then 0 else 1 + Depth(HalfUp(n))
  }

  lemma {:induction false} TreeNodesLength(h: Hasher, level: seq<Hash>)
    ensures |TreeNodes(h, level)| == GetMerkleTreeSize(|level|)
    decreases |level|
  {
    if |level| > 1 {
      TreeNodesLength(h, Parents(h, level));
    }
  }

  lemma {:induction false} DepthFits(n: nat)
    ensures n <= Pow2(Depth(n))
    ensures n > 1 ==> Pow2(Depth(n) - 1) < n
    ensures n > 1 ==> Depth(n) > 0
  {
    if n > 1 {
      DepthFits(HalfUp(n));
    }
  }

  lemma {:induction false} Pow2Monotone(p: nat, q: nat)
    requires p <= q
    ensures Pow2(p) <= Pow2(q)
  {
    if p < q {
      Pow2Monotone(p, q - 1);
    }
  }

  lemma {:induction false} BitLengthBounds(n: nat)
    requires n > 0
    ensures BitLength(n) > 0
    ensures Pow2(BitLength(n) - 1) <= n < Pow2(BitLength(n))
    ensures CountOnes(n) > 0
    ensures CountOnes(n) == 1 <==> n == Pow2(BitLength(n) - 1)
  {
    if n > 1 {
      BitLengthBounds(n / 2);
    }
  }

  /** `get_proof_size(n)` is the least `p` with `n <= 2^p`. */
  lemma ProofSizeIsLeast(n: nat, p: nat)
    ensures n <= Pow2(GetProofSize(n))
    ensures n <= Pow2(p) ==> GetProofSize(n) <= p
  {
    if n > 0 {
      BitLengthBounds(n);
      if n <= Pow2(p) && p < GetProofSize(n) {
        if CountOnes(n) == 1 {
          Pow2Monotone(p, BitLength(n) - 2);
        } else {
          Pow2Monotone(p, BitLength(n) - 1);
        }
      }
    }
  }

  /** It is also the number of levels above the leaves, hence the length of every proof. */
  lemma ProofSizeIsDepth(n: nat)
    ensures GetProofSize(n) == Depth(n)
  {
    DepthFits(n);
    ProofSizeIsLeast(n, Depth(n));
    if n > 1 && GetProofSize(n) < Depth(n) {
      Pow2Monotone(GetProofSize(n), Depth(n) - 1);
    }
  }

  lemma {:induction false} ProofEntriesLength(h: Hasher, level: seq<Hash>, index: nat)
    requires index < |level|
    ensures |ProofEntries(h, level, index)| == Depth(|level|)
    decreases |level|
  {
    if |level| > 1 {
      ProofEntriesLength(h, Parents(h, level), index / 2);
    }
  }

  lemma {:induction false} TreeSizeBounds(n: nat)
    requires n > 0
    ensures 2 * n - 1 <= GetMerkleTreeSize(n) <= 2 * n - 1 + GetProofSize(n)
  {
    ProofSizeIsDepth(n);
    if n > 1 {
      TreeSizeBounds(HalfUp(n));
      ProofSizeIsDepth(HalfUp(n));
    }
  }

  lemma {:induction false} TreeSizeStrictlyIncreasing(m: nat, n: nat)
    requires m < n
    ensures GetMerkleTreeSize(m) < GetMerkleTreeSize(n)
    decreases n
  {
    if m > 1 {
      if HalfUp(m) < HalfUp(n) {
        TreeSizeStrictlyIncreasing(HalfUp(m), HalfUp(n));
      }
    } else if n > 1 {
      TreeSizeBounds(n);
    }
  }

  lemma {:induction false} RootIsLast(h: Hasher, level: seq<Hash>)
    requires level != []
    ensures TreeNodes(h, level) != []
    ensures TreeNodes(h, level)[|TreeNodes(h, level)| - 1] == TreeRoot(h, level)
    decreases |level|
  {
    if |level| > 1 {
      RootIsLast(h, Parents(h, level));
    }
  }

  /** `try_new` on `n` good leaves fills exactly the capacity it reserved, the root last. */
  lemma BuildTreeShape(h: Hasher, leaves: seq<Hash>, shreds: seq<Result<Hash, Error>>)
    requires |leaves| == |shreds| > 0
    requires forall i :: 0 <= i < |leaves| ==> shreds[i] == Success(leaves[i])
    ensures BuildTree(h, shreds) == Success(TreeNodes(h, leaves))
    ensures |TreeNodes(h, leaves)| == GetMerkleTreeSize(|leaves|)
    ensures TreeNodes(h, leaves) != [] && TreeNodes(h, leaves)[|TreeNodes(h, leaves)| - 1] == TreeRoot(h, leaves)
  {
    CollectAll(shreds, leaves);
    TreeNodesLength(h, leaves);
    RootIsLast(h, leaves);
  }

  // ----- The proof iterator -----

  /** Started on the level that begins at `offset`, the iterator reads the proof off the flat vector. */
  lemma {:induction false} RunReadsProof(h: Hasher, below: seq<Hash>, level: seq<Hash>, index: nat)
    requires index < |level|
    ensures ProofRun(below + TreeNodes(h, level), ProofCursor(index, |level|, |below|))
         == Success(ProofEntries(h, level, index))
    decreases |level|
  {
    var nodes := below + TreeNodes(h, level);
    if |level| > 1 {
      var at := |below| + Min(Sibling(index), |level| - 1);
      assert nodes[at] == level[Min(Sibling(index), |level| - 1)];
      assert nodes == (below + level) + TreeNodes(h, Parents(h, level));
      RunReadsProof(h, below + level, Parents(h, level), index / 2);
    }
  }

  lemma {:induction false} RunEndsAtLength(nodes: seq<Hash>, c: ProofCursor)
    requires c.size > 0 && ProofRun(nodes, c).Success?
    ensures c.offset + GetMerkleTreeSize(c.size) == |nodes|
    ensures |ProofRun(nodes, c).value| == Depth(c.size)
    decreases c.size
  {
    if c.size > 1 {
      RunEndsAtLength(nodes, ProofCursor(c.index / 2, HalfUp(c.size), c.offset + c.size));
    }
  }

  /**
    * The iterator ends without an error exactly when the index is in range and the size is the true
    * number of leaves; it then yields the proof of that leaf.
    */
  lemma IteratorIsExact(h: Hasher, leaves: seq<Hash>, index: nat, size: nat)
    requires leaves != []
    ensures var run := MakeMerkleProof(TreeNodes(h, leaves), index, size);
            && (run.Success? <==> index < size && size == |leaves|)
            && (run.Success? ==> run.value == ProofEntries(h, leaves, index) && |run.value| == GetProofSize(size))
  {
    var nodes := TreeNodes(h, leaves);
    TreeNodesLength(h, leaves);
    if index < size && size == |leaves| {
      assert [] + nodes == nodes;
      RunReadsProof(h, [], leaves, index);
      ProofEntriesLength(h, leaves, index);
      ProofSizeIsDepth(size);
    } else if index < size && MakeMerkleProof(nodes, index, size).Success? {
      RunEndsAtLength(nodes, StartCursor(nodes, index, size));
      if size < |leaves| {
        TreeSizeStrictlyIncreasing(size, |leaves|);
      } else {
        TreeSizeStrictlyIncreasing(|leaves|, size);
      }
    }
  }

  lemma {:induction false} OkStepsBelowDepth(nodes: seq<Hash>, c: ProofCursor)
    ensures OkSteps(nodes, c) <= Depth(c.size)
    ensures ProofRun(nodes, c).Success? ==> |ProofRun(nodes, c).value| == OkSteps(nodes, c)
    ensures ProofRun(nodes, c).Failure? ==> ProofRun(nodes, c).error == InvalidMerkleProof
    decreases c.size
  {
    if c.size > 1 {
      OkStepsBelowDepth(nodes, ProofCursor(c.index / 2, HalfUp(c.size), c.offset + c.size));
    }
  }

  /** Whatever the nodes, index and size, no more entries come out than a tree of that size has levels. */
  lemma IteratorStepsAreBounded(nodes: seq<Hash>, index: nat, size: nat)
    ensures OkSteps(nodes, StartCursor(nodes, index, size)) <= GetProofSize(size)
    ensures MakeMerkleProof(nodes, index, size).Failure? ==>
              MakeMerkleProof(nodes, index, size) == Failure(InvalidMerkleProof)
  {
    OkStepsBelowDepth(nodes, StartCursor(nodes, index, size));
    ProofSizeIsDepth(size);
  }

  // ----- Completeness -----

  lemma {:induction false} FoldReachesRoot(h: Hasher, level: seq<Hash>, index: nat)
    requires index < |level|
    ensures FoldProof(h, index, level[index], ProofEntries(h, level, index)) == (0, TreeRoot(h, level))
    decreases |level|
  {
    if |level| > 1 {
      var proof := ProofEntries(h, level, index);
      assert FoldPreimage(index, level[index], proof[0]) == PairPreimage(level, index / 2);
      FoldReachesRoot(h, Parents(h, level), index / 2);
    }
  }

  /** Every proof the tree makes folds its leaf back into the root of the tree. */
  lemma MerkleCompleteness(h: Hasher, leaves: seq<Hash>, index: nat)
    requires index < |leaves|
    ensures var proof := MakeMerkleProof(TreeNodes(h, leaves), index, |leaves|);
            && proof.Success?
            && GetMerkleRoot(h, index, leaves[index], proof.value) == Success(TreeRoot(h, leaves))
  {
    IteratorIsExact(h, leaves, index, |leaves|);
    FoldReachesRoot(h, leaves, index);
  }

  // ----- Soundness -----

  /** Every input hashed while building the levels above `level`. */
  function TreeQueries(h: Hasher, level: seq<Hash>): seq<Bytes>
    decreases |level|
  {
    if |level| <= 1 then [] else
      seq(HalfUp(|level|), j requires 0 <= j < HalfUp(|level|) => PairPreimage(level, j))
      + TreeQueries(h, Parents(h, level))
  }

  /** Every input hashed while folding a proof. */
  function FoldQueries(h: Hasher, index: nat, node: Hash, proof: seq<MerkleProofEntry>): seq<Bytes>
    decreases |proof|
  {
    if proof == [] then [] else
      var preimage := FoldPreimage(index, node, proof[0]);
      [preimage] + FoldQueries(h, index / 2, h(preimage), proof[1..])
  }

  predicate Collision(h: Hasher, a: Bytes, b: Bytes) {
    a != b && h(a)[..20] == h(b)[..20]
  }

  /** Two different inputs, one from each list, whose hashes share their first 20 bytes. */
  predicate CollisionBetween(h: Hasher, honest: seq<Bytes>, claimed: seq<Bytes>) {
    exists a, b :: a in honest && b in claimed && Collision(h, a, b)
  }

  lemma CollisionWeaken(h: Hasher, honest: seq<Bytes>, claimed: seq<Bytes>, honest': seq<Bytes>, claimed': seq<Bytes>)
    requires CollisionBetween(h, honest, claimed)
    requires forall a :: a in honest ==> a in honest'
    requires forall b :: b in claimed ==> b in claimed'
    ensures CollisionBetween(h, honest', claimed')
  {
    var a, b :| a in honest && b in claimed && Collision(h, a, b);
  }

  /** Where the parity bits of `index` lead from the root, stepping left where there is no right child. */
  function ClampedPosition(n: nat, index: nat): (pos: nat)
    requires n > 0
    ensures pos < n
    decreases n
  {
    if n == 1 then 0 else Min(2 * ClampedPosition(HalfUp(n), index / 2) + index % 2, n - 1)
  }

  lemma {:induction false} ClampedPositionInRange(n: nat, index: nat)
    requires index < n
    ensures ClampedPosition(n, index) == index
    decreases n
  {
    if n > 1 {
      ClampedPositionInRange(HalfUp(n), index / 2);
    }
  }

  lemma PreimageParts(a: MerkleProofEntry, b: MerkleProofEntry, c: MerkleProofEntry, d: MerkleProofEntry)
    requires NodePreimage(a, b) == NodePreimage(c, d)
    ensures a == c && b == d
  {
    var p, q := NodePreimage(a, b), NodePreimage(c, d);
    assert a == p[26..46] && b == p[46..66];
    assert c == q[26..46] && d == q[46..66];
  }

  lemma TreeQueriesContain(h: Hasher, level: seq<Hash>)
    requires |level| > 1
    ensures forall j :: 0 <= j < HalfUp(|level|) ==> PairPreimage(level, j) in TreeQueries(h, level)
    ensures forall q :: q in TreeQueries(h, Parents(h, level)) ==> q in TreeQueries(h, level)
  {
    forall j | 0 <= j < HalfUp(|level|) ensures PairPreimage(level, j) in TreeQueries(h, level) {
      assert TreeQueries(h, level)[j] == PairPreimage(level, j);
    }
  }

  /** If the hashes of a pair of the tree and of a step of a fold agree, so do the joined values. */
  lemma StepIsBound(level: seq<Hash>, up: nat, index: nat, node: Hash, other: MerkleProofEntry)
    requires 2 * up < |level|
    requires PairPreimage(level, up) == FoldPreimage(index, node, other)
    ensures node[..20] == level[Min(2 * up + index % 2, |level| - 1)][..20]
    ensures index % 2 == 0 ==> other == level[Min(2 * up + 1, |level| - 1)][..20]
    ensures index % 2 == 1 ==> other == level[2 * up][..20]
  {
    var left, right := Truncated(level[2 * up]), Truncated(level[Min(2 * up + 1, |level| - 1)]);
    if index % 2 == 0 {
      PreimageParts(left, right, Truncated(node), other);
    } else {
      PreimageParts(left, right, other, Truncated(node));
    }
  }

  predicate IsBound(h: Hasher, level: seq<Hash>, index: nat, node: Hash, proof: seq<MerkleProofEntry>)
    requires level != []
  {
    && node[..20] == level[ClampedPosition(|level|, index)][..20]
    && (index < |level| ==> proof == ProofEntries(h, level, index))
  }

  lemma BoundStep(h: Hasher, level: seq<Hash>, index: nat, node: Hash, proof: seq<MerkleProofEntry>)
    requires |level| > 1 && proof != []
    requires PairPreimage(level, ClampedPosition(HalfUp(|level|), index / 2)) == FoldPreimage(index, node, proof[0])
    requires index / 2 < HalfUp(|level|) ==> proof[1..] == ProofEntries(h, Parents(h, level), index / 2)
    ensures IsBound(h, level, index, node, proof)
  {
    var up := ClampedPosition(HalfUp(|level|), index / 2);
    StepIsBound(level, up, index, node, proof[0]);
    if index < |level| {
      ClampedPositionInRange(HalfUp(|level|), index / 2);
      assert proof == [proof[0]] + proof[1..];
    }
  }

  /**
    * A proof as long as the tree is deep that folds to the root starts at the leaf its index selects
    * and, for an index in range, is the tree's own proof; or it exhibits a collision.
    */
  lemma {:induction false} FoldIsBound(h: Hasher, level: seq<Hash>, index: nat, node: Hash,
      proof: seq<MerkleProofEntry>)
    requires level != [] && |proof| == Depth(|level|)
    requires FoldProof(h, index, node, proof).1[..20] == TreeRoot(h, level)[..20]
    ensures CollisionBetween(h, TreeQueries(h, level), FoldQueries(h, index, node, proof))
         || IsBound(h, level, index, node, proof)
    decreases |level|
  {
    if |level| > 1 {
      var honest, claimed := TreeQueries(h, level), FoldQueries(h, index, node, proof);
      var parents := Parents(h, level);
      var mine := FoldPreimage(index, node, proof[0]);
      var honest', claimed' := TreeQueries(h, parents), FoldQueries(h, index / 2, h(mine), proof[1..]);
      TreeQueriesContain(h, level);
      FoldIsBound(h, parents, index / 2, h(mine), proof[1..]);
      if CollisionBetween(h, honest', claimed') {
        CollisionWeaken(h, honest', claimed', honest, claimed);
      } else {
        var up := ClampedPosition(|parents|, index / 2);
        var theirs := PairPreimage(level, up);
        assert theirs in honest && claimed[0] == mine;
        if theirs != mine {
          assert Collision(h, theirs, mine);
        } else {
          BoundStep(h, level, index, node, proof);
        }
      }
    }
  }

  /** Soundness: an accepted proof of the right length proves a leaf of the tree, or shows a collision. */
  lemma MerkleSoundness(h: Hasher, leaves: seq<Hash>, index: nat, node: Hash, proof: seq<MerkleProofEntry>)
    requires index < |leaves| && |proof| == GetProofSize(|leaves|)
    requires GetMerkleRoot(h, index, node, proof) == Success(TreeRoot(h, leaves))
    ensures CollisionBetween(h, TreeQueries(h, leaves), FoldQueries(h, index, node, proof))
         || (&& node[..20] == leaves[index][..20]
             && Success(proof) == MakeMerkleProof(TreeNodes(h, leaves), index, |leaves|))
  {
    ProofSizeIsDepth(|leaves|);
    FoldIsBound(h, leaves, index, node, proof);
    ClampedPositionInRange(|leaves|, index);
    IteratorIsExact(h, leaves, index, |leaves|);
  }

  // ----- Proofs of the wrong length -----

  lemma {:induction false} FoldAppend(h: Hasher, index: nat, node: Hash, front: seq<MerkleProofEntry>,
      back: seq<MerkleProofEntry>)
    ensures var (i, x) := FoldProof(h, index, node, front);
            && FoldProof(h, index, node, front + back) == FoldProof(h, i, x, back)
            && FoldQueries(h, index, node, front + back)
               == FoldQueries(h, index, node, front) + FoldQueries(h, i, x, back)
    decreases |front|
  {
    if front == [] {
      assert front + back == back;
    } else {
      assert (front + back)[1..] == front[1..] + back;
      FoldAppend(h, index / 2, h(FoldPreimage(index, node, front[0])), front[1..], back);
    }
  }

  /** After at least one step the folded value is the hash of a queried node preimage. */
  lemma {:induction false} FoldEndsInNode(h: Hasher, index: nat, node: Hash,
      proof: seq<MerkleProofEntry>) returns (q: Bytes)
    requires proof != []
    ensures q in FoldQueries(h, index, node, proof)
    ensures FoldProof(h, index, node, proof).1 == h(q) && |q| > 0 && q[0] == 1
    decreases |proof|
  {
    var preimage := FoldPreimage(index, node, proof[0]);
    if |proof| == 1 {
      q := preimage;
    } else {
      q := FoldEndsInNode(h, index / 2, h(preimage), proof[1..]);
    }
  }

  /** The level that lies `up` levels above. */
  function Ancestors(h: Hasher, level: seq<Hash>, up: nat): (a: seq<Hash>)
    requires level != [] && up <= Depth(|level|)
    ensures a != []
    decreases up
  {
    if up == 0 then level else Ancestors(h, Parents(h, level), up - 1)
  }

  predicate IsNodeHash(h: Hasher, q: Bytes, x: Hash) {
    |q| > 0 && q[0] == 1 && x == h(q)
  }

  predicate IsJoinOf(h: Hasher, queries: seq<Bytes>, x: Hash) {
    exists q :: q in queries && IsNodeHash(h, q, x)
  }

  lemma {:induction false} AncestorsFacts(h: Hasher, level: seq<Hash>, up: nat)
    requires level != [] && up <= Depth(|level|)
    ensures Depth(|Ancestors(h, level, up)|) == Depth(|level|) - up
    ensures TreeRoot(h, Ancestors(h, level, up)) == TreeRoot(h, level)
    ensures forall q :: q in TreeQueries(h, Ancestors(h, level, up)) ==> q in TreeQueries(h, level)
    ensures up > 0 ==> forall j :: 0 <= j < |Ancestors(h, level, up)| ==>
              IsJoinOf(h, TreeQueries(h, level), Ancestors(h, level, up)[j])
    decreases up
  {
    if up > 0 {
      var parents, top := Parents(h, level), Ancestors(h, level, up);
      AncestorsFacts(h, parents, up - 1);
      TreeQueriesContain(h, level);
      forall j | 0 <= j < |top| ensures IsJoinOf(h, TreeQueries(h, level), top[j]) {
        if up == 1 {
          assert IsNodeHash(h, PairPreimage(level, j), top[j]);
        } else {
          assert IsJoinOf(h, TreeQueries(h, parents), top[j]);
        }
      }
    }
  }

  function LeafQueries(data: seq<Bytes>): seq<Bytes> {
    seq(|data|, j requires 0 <= j < |data| => LeafPreimage(data[j]))
  }

  /**
    * Leaves and inner nodes hash inputs with different first bytes, so a proof of a leaf that folds to
    * the root of a tree over leaves has the length of the tree's own proofs, or shows a collision.
    */
  lemma WrongLengthCollides(h: Hasher, data: seq<Bytes>, leaves: seq<Hash>, index: nat, mine: Bytes,
      proof: seq<MerkleProofEntry>)
    requires |data| == |leaves| > 0
    requires forall j :: 0 <= j < |data| ==> leaves[j] == h(LeafPreimage(data[j]))
    requires GetMerkleRoot(h, index, h(LeafPreimage(mine)), proof) == Success(TreeRoot(h, leaves))
    ensures |proof| == GetProofSize(|leaves|)
         || CollisionBetween(h, LeafQueries(data) + TreeQueries(h, leaves),
                             [LeafPreimage(mine)] + FoldQueries(h, index, h(LeafPreimage(mine)), proof))
  {
    var d := Depth(|leaves|);
    ProofSizeIsDepth(|leaves|);
    var node := h(LeafPreimage(mine));
    var honest := LeafQueries(data) + TreeQueries(h, leaves);
    var claimed := [LeafPreimage(mine)] + FoldQueries(h, index, node, proof);
    if |proof| > d {
      var front, back := proof[..|proof| - d], proof[|proof| - d..];
      assert proof == front + back;
      FoldAppend(h, index, node, front, back);
      var (i, x) := FoldProof(h, index, node, front);
      FoldIsBound(h, leaves, i, x, back);
      if CollisionBetween(h, TreeQueries(h, leaves), FoldQueries(h, i, x, back)) {
        CollisionWeaken(h, TreeQueries(h, leaves), FoldQueries(h, i, x, back), honest, claimed);
      } else {
        var q := FoldEndsInNode(h, index, node, front);
        var pos := ClampedPosition(|leaves|, i);
        assert LeafQueries(data)[pos] == LeafPreimage(data[pos]);
        assert LeafPreimage(data[pos])[0] == 0;
        assert Collision(h, LeafPreimage(data[pos]), q);
      }
    } else if |proof| < d {
      var up := d - |proof|;
      AncestorsFacts(h, leaves, up);
      var level := Ancestors(h, leaves, up);
      FoldIsBound(h, level, index, node, proof);
      if CollisionBetween(h, TreeQueries(h, level), FoldQueries(h, index, node, proof)) {
        CollisionWeaken(h, TreeQueries(h, level), FoldQueries(h, index, node, proof), honest, claimed);
      } else {
        var pos := ClampedPosition(|level|, index);
        assert IsJoinOf(h, TreeQueries(h, leaves), level[pos]);
        var q :| q in TreeQueries(h, leaves) && IsNodeHash(h, q, level[pos]);
        assert LeafPreimage(mine)[0] == 0;
        assert Collision(h, q, LeafPreimage(mine));
      }
    }
  }
}
