/** The Merkle tree spelled out: where every node stands, and which bytes every hash is made of (src/merkle_tree.rs). */
module TreeInBytes {
  import opened Wrappers
  import opened Bytes
  import opened Errors
  import opened MerkleTree
  import opened MerkleTheorems

  // ----- Tags -----

  function Ascii(s: string): Bytes
    requires forall i :: 0 <= i < |s| ==> s[i] < 128 as char
  {
    seq<byte>(|s|, i requires 0 <= i < |s| => s[i] as int)
  }

  function LeafTag(): Bytes {
    [0x00] + Ascii("SOLANA_MERKLE_SHREDS_LEAF")
  }

  function NodeTag(): Bytes {
    [0x01] + Ascii("SOLANA_MERKLE_SHREDS_NODE")
  }

  lemma LeafTagIsPrefix()
    ensures MERKLE_HASH_PREFIX_LEAF == LeafTag()
  {
  }

  lemma NodeTagIsPrefix()
    ensures MERKLE_HASH_PREFIX_NODE == NodeTag()
  {
  }

  /** A leaf and a node of the tree are hashed behind tags that differ in their first bytes. */
  lemma PreimagesSpelled(data: Bytes, node: MerkleProofEntry, other: MerkleProofEntry)
    ensures LeafPreimage(data) == LeafTag() + data && NodePreimage(node, other) == NodeTag() + node + other
    ensures LeafTag()[0] != NodeTag()[0]
  {
    LeafTagIsPrefix();
    NodeTagIsPrefix();
  }

  // ----- Levels of the flat vector -----

  /** The number of nodes on a level. */
  function LevelSize(n: nat, up: nat): nat {
    if up == 0 then n else LevelSize(HalfUp(n), up - 1)
  }

  /** Where a level begins. */
  function LevelStart(n: nat, up: nat): nat {
    if up == 0 then 0 else n + LevelStart(HalfUp(n), up - 1)
  }

  /** Every level begins where the one below ends and is half as large, rounded up. */
  lemma {:induction false} LevelsFollow(n: nat, up: nat)
    ensures LevelSize(n, up + 1) == (LevelSize(n, up) + 1) / 2
    ensures LevelStart(n, up + 1) == LevelStart(n, up) + LevelSize(n, up)
  {
    if up > 0 {
      LevelsFollow(HalfUp(n), up - 1);
    }
  }

  predicate IsNodeAt(h: Hasher, level: seq<Hash>, up: nat, j: nat, x: Hash) {
    LevelStart(|level|, up) + j < |TreeNodes(h, level)| && TreeNodes(h, level)[LevelStart(|level|, up) + j] == x
  }

  lemma {:induction false} LevelsStandInOrder(h: Hasher, level: seq<Hash>, up: nat)
    requires level != [] && up <= Depth(|level|)
    ensures |Ancestors(h, level, up)| == LevelSize(|level|, up)
    ensures forall j :: 0 <= j < LevelSize(|level|, up) ==> IsNodeAt(h, level, up, j, Ancestors(h, level, up)[j])
    decreases up
  {
    if up > 0 {
      var parents := Parents(h, level);
      LevelsStandInOrder(h, parents, up - 1);
      forall j | 0 <= j < LevelSize(|level|, up) ensures IsNodeAt(h, level, up, j, Ancestors(h, level, up)[j]) {
        assert IsNodeAt(h, parents, up - 1, j, Ancestors(h, parents, up - 1)[j]);
      }
    } else if |level| > 1 {
      assert TreeNodes(h, level)[..|level|] == level;
    }
  }

  lemma NodeStandsAt(h: Hasher, leaves: seq<Hash>, up: nat, j: nat)
    requires leaves != [] && up <= Depth(|leaves|) && j < LevelSize(|leaves|, up)
    ensures |Ancestors(h, leaves, up)| == LevelSize(|leaves|, up)
    ensures LevelStart(|leaves|, up) + j < |TreeNodes(h, leaves)|
    ensures TreeNodes(h, leaves)[LevelStart(|leaves|, up) + j] == Ancestors(h, leaves, up)[j]
  {
    LevelsStandInOrder(h, leaves, up);
    assert IsNodeAt(h, leaves, up, j, Ancestors(h, leaves, up)[j]);
  }

  /** Node `j` of a level in the flat vector. */
  function NodeOf(h: Hasher, leaves: seq<Hash>, up: nat, j: nat): (x: Hash)
    requires leaves != [] && up <= Depth(|leaves|) && j < LevelSize(|leaves|, up)
    ensures j < |Ancestors(h, leaves, up)| && x == Ancestors(h, leaves, up)[j]
  {
    NodeStandsAt(h, leaves, up, j);
    TreeNodes(h, leaves)[LevelStart(|leaves|, up) + j]
  }

  lemma {:induction false} AncestorsStep(h: Hasher, level: seq<Hash>, up: nat)
    requires level != [] && up < Depth(|level|)
    ensures Ancestors(h, level, up + 1) == Parents(h, Ancestors(h, level, up))
    decreases up
  {
    if up > 0 {
      AncestorsStep(h, Parents(h, level), up - 1);
    }
  }

  /** The hash of two nodes, of each of which the first 20 bytes count. */
  function Joined(h: Hasher, left: Hash, right: Hash): Hash {
    h(NodeTag() + left[..20] + right[..20])
  }

  lemma ParentsSpelled(h: Hasher, level: seq<Hash>, j: nat)
    requires j < |Parents(h, level)|
    ensures 2 * j < |level|
    ensures Parents(h, level)[j] == Joined(h, level[2 * j], level[Min(2 * j + 1, |level| - 1)])
  {
    var left, right := level[2 * j], level[Min(2 * j + 1, |level| - 1)];
    PreimagesSpelled([], left[..20], right[..20]);
    assert PairPreimage(level, j) == NodePreimage(left[..20], right[..20]);
  }

  lemma JoinOnLevel(h: Hasher, leaves: seq<Hash>, up: nat, j: nat)
    requires leaves != [] && up < Depth(|leaves|) && j < LevelSize(|leaves|, up + 1)
    ensures |Ancestors(h, leaves, up)| == LevelSize(|leaves|, up) && 2 * j < LevelSize(|leaves|, up)
    ensures |Ancestors(h, leaves, up + 1)| == LevelSize(|leaves|, up + 1)
    ensures var level := Ancestors(h, leaves, up);
            Ancestors(h, leaves, up + 1)[j] == Joined(h, level[2 * j], level[Min(2 * j + 1, |level| - 1)])
  {
    LevelsFollow(|leaves|, up);
    LevelsStandInOrder(h, leaves, up);
    AncestorsStep(h, leaves, up);
    ParentsSpelled(h, Ancestors(h, leaves, up), j);
  }

  /**
    * Every node above the leaves joins its two children in the flat vector, the left one first, where a child
    * without a right neighbour is taken twice.
    */
  lemma NodeJoinsItsChildren(h: Hasher, leaves: seq<Hash>, up: nat, j: nat)
    requires leaves != [] && up < Depth(|leaves|) && j < LevelSize(|leaves|, up + 1)
    ensures 2 * j < LevelSize(|leaves|, up)
    ensures NodeOf(h, leaves, up + 1, j)
         == Joined(h, NodeOf(h, leaves, up, 2 * j), NodeOf(h, leaves, up, Min(2 * j + 1, LevelSize(|leaves|, up) - 1)))
  {
    LevelsFollow(|leaves|, up);
    JoinOnLevel(h, leaves, up, j);
  }

  /** The flat vector begins with the leaves; of one leaf it is that leaf, of two their join follows. */
  lemma TreeBeginsWithLeaves(h: Hasher, leaves: seq<Hash>, a: Hash, b: Hash)
    ensures leaves <= TreeNodes(h, leaves)
    ensures TreeNodes(h, [a]) == [a]
    ensures TreeNodes(h, [a, b]) == [a, b, h(NodeTag() + a[..20] + b[..20])]
  {
    var parents := Parents(h, [a, b]);
    ParentsSpelled(h, [a, b], 0);
    assert parents == [Joined(h, a, b)];
    assert TreeNodes(h, parents) == parents;
  }

  /** No tree is built over no leaves, nor over leaves of which one is an error: the first one is returned. */
  lemma BuildFailsAt(h: Hasher, shreds: seq<Result<Hash, Error>>, i: nat)
    ensures BuildTree(h, []) == Failure(EmptyIterator)
    ensures i < |shreds| && shreds[i].Failure? && (forall j :: 0 <= j < i ==> shreds[j].Success?) ==>
              BuildTree(h, shreds) == Failure(shreds[i].error)
  {
    if i < |shreds| && shreds[i].Failure? && (forall j :: 0 <= j < i ==> shreds[j].Success?) {
      CollectPrefix(shreds, seq<Hash>(i, j requires 0 <= j < i => shreds[j].value));
    }
  }

  // ----- Proofs -----

  /** `index >> up`. */
  function Shifted(index: nat, up: nat): nat {
    if up == 0 then index else Shifted(index / 2, up - 1)
  }

  lemma {:induction false} ShiftedToZero(index: nat, up: nat)
    ensures Shifted(index, up) == 0 <==> index < Pow2(up)
  {
    if up > 0 {
      ShiftedToZero(index / 2, up - 1);
    }
  }

  lemma {:induction false} ShiftedIsOnLevel(n: nat, index: nat, up: nat)
    requires index < n
    ensures Shifted(index, up) < LevelSize(n, up)
  {
    if up > 0 {
      ShiftedIsOnLevel(HalfUp(n), index / 2, up - 1);
    }
  }

  /** The other node of the pair of `i` on a level of `size` nodes, or `i` itself if it is alone. */
  function Beside(i: nat, size: nat): (s: nat)
    requires i < size
    ensures s < size && s / 2 == i / 2 && (s == i <==> i % 2 == 0 && i == size - 1)
  {
    if i % 2 == 1 then i - 1 else if i + 1 < size then i + 1 else i
  }

  lemma SiblingIsBeside(i: nat, size: nat)
    requires i < size && size > 1
    ensures Min(Sibling(i), size - 1) == Beside(i, size)
  {
  }

  lemma FirstEntry(h: Hasher, level: seq<Hash>, index: nat)
    requires index < |level| && |level| > 1
    ensures ProofEntries(h, level, index)[0] == level[Beside(index, |level|)][..20]
    ensures ProofEntries(h, level, index)[1..] == ProofEntries(h, Parents(h, level), index / 2)
  {
    SiblingIsBeside(index, |level|);
    var first, rest := Truncated(level[Beside(index, |level|)]), ProofEntries(h, Parents(h, level), index / 2);
    assert ProofEntries(h, level, index) == [first] + rest;
  }

  lemma {:induction false} EntryIsBesideAncestor(h: Hasher, level: seq<Hash>, index: nat, up: nat)
    requires index < |level| && up < Depth(|level|)
    ensures |Ancestors(h, level, up)| == LevelSize(|level|, up) && Shifted(index, up) < LevelSize(|level|, up)
    ensures |ProofEntries(h, level, index)| == Depth(|level|)
    ensures ProofEntries(h, level, index)[up]
         == Ancestors(h, level, up)[Beside(Shifted(index, up), LevelSize(|level|, up))][..20]
    decreases up
  {
    ShiftedIsOnLevel(|level|, index, up);
    ProofEntriesLength(h, level, index);
    FirstEntry(h, level, index);
    if up > 0 {
      EntryIsBesideAncestor(h, Parents(h, level), index / 2, up - 1);
    }
  }

  /** Entry `up` of a leaf's proof is the first 20 bytes of the node beside the leaf's ancestor on that level. */
  lemma EntryIsNodeBeside(h: Hasher, level: seq<Hash>, index: nat, up: nat)
    requires index < |level| && up < |ProofEntries(h, level, index)|
    ensures Shifted(index, up) < LevelSize(|level|, up)
    ensures up < Depth(|level|)
    ensures ProofEntries(h, level, index)[up]
         == NodeOf(h, level, up, Beside(Shifted(index, up), LevelSize(|level|, up)))[..20]
  {
    ProofEntriesLength(h, level, index);
    EntryIsBesideAncestor(h, level, index, up);
  }

  // ----- Folding -----

  lemma {:induction false} FoldShiftsIndex(h: Hasher, index: nat, node: Hash, proof: seq<MerkleProofEntry>)
    ensures FoldProof(h, index, node, proof).0 == Shifted(index, |proof|)
    decreases |proof|
  {
    if proof != [] {
      FoldShiftsIndex(h, index / 2, h(FoldPreimage(index, node, proof[0])), proof[1..]);
    }
  }

  /** A root comes out exactly if the index has no more bits than the proof has entries. */
  lemma RootExistsExactly(h: Hasher, index: nat, node: Hash, proof: seq<MerkleProofEntry>)
    ensures GetMerkleRoot(h, index, node, proof)
         == if index < Pow2(|proof|) then Success(FoldProof(h, index, node, proof).1) else Failure(InvalidMerkleProof)
  {
    FoldShiftsIndex(h, index, node, proof);
    ShiftedToZero(index, |proof|);
  }

  lemma JoinSpelled(a: MerkleProofEntry, b: MerkleProofEntry)
    ensures NodePreimage(a, b) == NodeTag() + (a + b)
  {
    PreimagesSpelled([], a, b);
  }

  /**
    * The root of no entries is the leaf. One entry more is hashed behind the first 20 bytes of what came out so
    * far, or before them if the bit of its level is set in the index.
    */
  lemma RootOfOneEntryMore(h: Hasher, index: nat, node: Hash, proof: seq<MerkleProofEntry>, entry: MerkleProofEntry)
    ensures FoldProof(h, index, node, []).1 == node
    ensures var x := FoldProof(h, index, node, proof).1[..20];
            FoldProof(h, index, node, proof + [entry]).1
            == h(NodeTag() + if Shifted(index, |proof|) % 2 == 0 then x + entry else entry + x)
  {
    var (i, x) := FoldProof(h, index, node, proof);
    FoldAppend(h, index, node, proof, [entry]);
    FoldShiftsIndex(h, index, node, proof);
    assert FoldProof(h, i, x, [entry]).1 == h(FoldPreimage(i, x, entry));
    JoinSpelled(x[..20], entry);
    JoinSpelled(entry, x[..20]);
  }
}
