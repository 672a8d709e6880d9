/** The ragged Merkle tree over the shreds of an erasure batch (src/merkle_tree.rs). */
module MerkleTree {
  import opened Wrappers
  import opened Bytes
  import opened Errors

  const SIZE_OF_MERKLE_ROOT := 32
  const SIZE_OF_MERKLE_PROOF_ENTRY := 20

  type Hash = b: Bytes | |b| == 32 witness Zeros(32)
  type MerkleProofEntry = b: Bytes | |b| == 20 witness Zeros(20)

  /** SHA-256 is a parameter of the model: nothing but the length of its output is known. */
  type Hasher = Bytes -> Hash

  // "\x00SOLANA_MERKLE_SHREDS_LEAF" and "\x01SOLANA_MERKLE_SHREDS_NODE".
  const MERKLE_HASH_PREFIX_LEAF: Bytes :=
    [0, 83, 79, 76, 65, 78, 65, 95, 77, 69, 82, 75, 76, 69, 95, 83, 72, 82, 69, 68, 83, 95, 76, 69, 65, 70]
  const MERKLE_HASH_PREFIX_NODE: Bytes :=
    [1, 83, 79, 76, 65, 78, 65, 95, 77, 69, 82, 75, 76, 69, 95, 83, 72, 82, 69, 68, 83, 95, 78, 79, 68, 69]

  /** The 20 bytes of a hash that enter a join or a proof. */
  function Truncated(x: Hash): MerkleProofEntry {
    x[..SIZE_OF_MERKLE_PROOF_ENTRY]
  }

  function LeafPreimage(data: Bytes): Bytes {
    MERKLE_HASH_PREFIX_LEAF + data
  }

  function NodePreimage(node: MerkleProofEntry, other: MerkleProofEntry): Bytes {
    MERKLE_HASH_PREFIX_NODE + node + other
  }

  function JoinNodes(h: Hasher, node: MerkleProofEntry, other: MerkleProofEntry): Hash {
    h(NodePreimage(node, other))
  }

  // ----- Sizes -----

  /** The number of nodes on the level above one of `n` nodes. */
  function HalfUp(n: nat): nat {
    (n + 1) / 2
  }

  function GetMerkleTreeSize(numShreds: nat): nat {
    if numShreds > 1 then numShreds + GetMerkleTreeSize(HalfUp(numShreds)) else numShreds
  }

  /** `usize::BITS - leading_zeros`. */
  function BitLength(n: nat): nat {
    if n == 0 then 0 else 1 + BitLength(n / 2)
  }

  function CountOnes(n: nat): nat {
    if n == 0 then 0 else n % 2 + CountOnes(n / 2)
  }

  function GetProofSize(numShreds: nat): nat {
    var bits := BitLength(numShreds);
    if CountOnes(numShreds) == 1 then (if bits == 0 then 0 else bits - 1) else bits
  }

  // ----- The tree as levels: what `try_new` computes -----

  /** Node `j` of the level above joins nodes `2j` and `2j + 1`, the last one with itself if it is alone. */
  function PairPreimage(level: seq<Hash>, j: nat): Bytes
    requires 2 * j < |level|
  {
    NodePreimage(Truncated(level[2 * j]), Truncated(level[Min(2 * j + 1, |level| - 1)]))
  }

  function Parents(h: Hasher, level: seq<Hash>): (parents: seq<Hash>)
    ensures |parents| == HalfUp(|level|)
  {
    seq<Hash>(HalfUp(|level|), j requires 0 <= j < HalfUp(|level|) => h(PairPreimage(level, j)))
  }

  function TreeNodes(h: Hasher, level: seq<Hash>): seq<Hash>
    decreases |level|
  {
    if |level| <= 1 then level else level + TreeNodes(h, Parents(h, level))
  }

  function TreeRoot(h: Hasher, level: seq<Hash>): Hash
    requires level != []
    decreases |level|
  {
    if |level| == 1 then level[0] else TreeRoot(h, Parents(h, level))
  }

  /** `index ^ 1`. */
  function Sibling(index: nat): nat {
    if index % 2 == 0 then index + 1 else index - 1
  }

  /** The entries that prove leaf `index`: one sibling a level, the node itself where it has none. */
  function ProofEntries(h: Hasher, level: seq<Hash>, index: nat): seq<MerkleProofEntry>
    requires index < |level|
    decreases |level|
  {
    if |level| == 1 then [] else
      [Truncated(level[Min(Sibling(index), |level| - 1)])] + ProofEntries(h, Parents(h, level), index / 2)
  }

  /** The first error of a sequence of results, or all their values. */
  function Collect<T, E>(results: seq<Result<T, E>>): Result<seq<T>, E> {
    if results == [] then Success([]) else
      var first :- results[0];
      var rest :- Collect(results[1..]);
      Success([first] + rest)
  }

  /** The specification of `try_new`. */
  function BuildTree(h: Hasher, shreds: seq<Result<Hash, Error>>): Result<seq<Hash>, Error> {
    if shreds == [] then Failure(EmptyIterator) else
      var leaves :- Collect(shreds);
      Success(TreeNodes(h, leaves))
  }

  lemma {:induction false} CollectAll<T, E>(results: seq<Result<T, E>>, values: seq<T>)
    requires |results| == |values|
    requires forall i :: 0 <= i < |results| ==> results[i] == Success(values[i])
    ensures Collect(results) == Success(values)
  {
    if results != [] {
      CollectAll(results[1..], values[1..]);
      assert values == [values[0]] + values[1..];
    }
  }

  lemma {:induction false} CollectValues<T, E>(results: seq<Result<T, E>>)
    requires Collect(results).Success?
    ensures |Collect(results).value| == |results|
    ensures forall i :: 0 <= i < |results| ==> results[i] == Success(Collect(results).value[i])
  {
    if results != [] {
      CollectValues(results[1..]);
    }
  }

  lemma {:induction false} CollectPrefix<T, E>(results: seq<Result<T, E>>, values: seq<T>)
    requires |values| < |results|
    requires forall i :: 0 <= i < |values| ==> results[i] == Success(values[i])
    requires results[|values|].Failure?
    ensures Collect(results) == Failure(results[|values|].error)
  {
    if values != [] {
      CollectPrefix(results[1..], values[1..]);
    }
  }

  /** The inner loop of `try_new`: the last `size` nodes are joined two by two. */
  method PushParents(h: Hasher, below: seq<Hash>, size: nat, ghost level: seq<Hash>) returns (nodes: seq<Hash>)
    requires 1 <= size <= |below| && level == below[|below| - size..]
    ensures nodes == below + Parents(h, level)
  {
    nodes := below;
    var offset := |nodes| - size;
    var index := offset;
    ghost var parents: seq<Hash> := [];
    while index < offset + size
      invariant index - offset == 2 * |parents| && |parents| <= HalfUp(size)
      invariant nodes == below + parents
      invariant forall j :: 0 <= j < |parents| ==> parents[j] == h(PairPreimage(level, j))
      decreases offset + size - index
    {
      var node, other := nodes[index], nodes[Min(index + 1, offset + size - 1)];
      var parent := JoinNodes(h, Truncated(node), Truncated(other));
      assert node == level[2 * |parents|] && other == level[Min(2 * |parents| + 1, size - 1)];
      nodes, parents := nodes + [parent], parents + [parent];
      index := index + 2;
    }
    assert parents == Parents(h, level);
  }

  /** Pushes the leaves, then level after level of joined pairs, onto one flat vector. */
  method TryNew(h: Hasher, shreds: seq<Result<Hash, Error>>) returns (tree: Result<seq<Hash>, Error>)
    ensures tree == BuildTree(h, shreds)
  {
    if |shreds| == 0 {
      return Failure(EmptyIterator);
    }
    var nodes: seq<Hash> := [];
    for i := 0 to |shreds|
      invariant |nodes| == i
      invariant forall j :: 0 <= j < i ==> shreds[j] == Success(nodes[j])
    {
      if shreds[i].Failure? {
        CollectPrefix(shreds, nodes);
        return Failure(shreds[i].error);
      }
      nodes := nodes + [shreds[i].value];
    }
    CollectAll(shreds, nodes);
    ghost var leaves := nodes;
    ghost var below: seq<Hash>, level := [], nodes;
    var size, pending := |shreds|, |shreds| > 1;
    while pending
      invariant 1 <= size == |level| && (pending <==> size > 1)
      invariant nodes == below + level
      invariant TreeNodes(h, leaves) == below + TreeNodes(h, level)
      decreases size
    {
      nodes := PushParents(h, nodes, size, level);
      assert below + (level + TreeNodes(h, Parents(h, level))) == (below + level) + TreeNodes(h, Parents(h, level));
      below, level := below + level, Parents(h, level);
      pending, size := size > 2, (size + 1) / 2;
    }
    return Success(nodes);
  }

  // ----- Proofs as a stateful iterator -----

  datatype ProofCursor = ProofCursor(index: nat, size: nat, offset: nat)

  /** An index out of range is turned into a position from which only an error can be read. */
  function StartCursor(nodes: seq<Hash>, index: nat, size: nat): ProofCursor {
    if index >= size then ProofCursor(index, 0, |nodes|) else ProofCursor(index, size, 0)
  }

  /** What the iterator yields up to its end or its first error. */
  function ProofRun(nodes: seq<Hash>, c: ProofCursor): Result<seq<MerkleProofEntry>, Error>
    decreases c.size
  {
    if c.size > 1 then
      var at := c.offset + Min(Sibling(c.index), c.size - 1);
      if at >= |nodes| then Failure(InvalidMerkleProof) else
        var rest :- ProofRun(nodes, ProofCursor(c.index / 2, HalfUp(c.size), c.offset + c.size));
        Success([Truncated(nodes[at])] + rest)
    else if c.offset + 1 == |nodes| then Success([])
    else Failure(InvalidMerkleProof)
  }

  /** How many entries the iterator yields before its end or its first error. */
  function OkSteps(nodes: seq<Hash>, c: ProofCursor): nat
    decreases c.size
  {
    if c.size > 1 && c.offset + Min(Sibling(c.index), c.size - 1) < |nodes|
    then 1 + OkSteps(nodes, ProofCursor(c.index / 2, HalfUp(c.size), c.offset + c.size))
    else 0
  }

  function MakeMerkleProof(nodes: seq<Hash>, index: nat, size: nat): Result<seq<MerkleProofEntry>, Error> {
    ProofRun(nodes, StartCursor(nodes, index, size))
  }

  /** `make_merkle_proof`: `index`, `size` and `offset` are captured and advanced by every call. */
  class ProofIterator {
    const nodes: seq<Hash>
    var index: nat
    var size: nat
    var offset: nat

    ghost function Cursor(): ProofCursor
      reads this
    {
      ProofCursor(index, size, offset)
    }

    constructor (nodes: seq<Hash>, index: nat, size: nat)
      ensures this.nodes == nodes
      ensures Cursor() == StartCursor(nodes, index, size)
    {
      this.nodes := nodes;
      this.index := index;
      if index >= size {
        this.size, this.offset := 0, |nodes|;
      } else {
        this.size, this.offset := size, 0;
      }
    }

    /** An entry is the head of what remains; the end and an error leave the state as it was. */
    method Next() returns (item: Option<Result<MerkleProofEntry, Error>>)
      modifies this
      ensures item.Some? && item.value.Success? ==>
                Cursor().size < old(Cursor().size)
      ensures item.Some? && item.value.Success? ==>
                ProofRun(nodes, old(Cursor())) ==
                var rest := ProofRun(nodes, Cursor());
                if rest.Success? then Success([item.value.value] + rest.value) else rest
      ensures OkSteps(nodes, old(Cursor())) ==
              if item.Some? && item.value.Success? then 1 + OkSteps(nodes, Cursor()) else 0
      ensures item.Some? && item.value.Failure? ==>
                Cursor() == old(Cursor()) && item.value.error == InvalidMerkleProof
                && ProofRun(nodes, Cursor()) == Failure(InvalidMerkleProof)
      ensures item.None? ==>
                Cursor() == old(Cursor()) && ProofRun(nodes, Cursor()) == Success([])
    {
      if size > 1 {
        var at := offset + Min(Sibling(index), size - 1);
        if at >= |nodes| {
          return Some(Failure(InvalidMerkleProof));
        }
        offset := offset + size;
        size := (size + 1) / 2;
        index := index / 2;
        return Some(Success(Truncated(nodes[at])));
      } else if offset + 1 == |nodes| {
        return None;
      } else {
        return Some(Failure(InvalidMerkleProof));
      }
    }
  }

  // ----- Folding a proof back into a root -----

  function FoldPreimage(index: nat, node: Hash, other: MerkleProofEntry): Bytes {
    if index % 2 == 0 then NodePreimage(Truncated(node), other) else NodePreimage(other, Truncated(node))
  }

  function FoldProof(h: Hasher, index: nat, node: Hash, proof: seq<MerkleProofEntry>): (nat, Hash)
    decreases |proof|
  {
    if proof == [] then (index, node)
    else FoldProof(h, index / 2, h(FoldPreimage(index, node, proof[0])), proof[1..])
  }

  function GetMerkleRoot(h: Hasher, index: nat, node: Hash, proof: seq<MerkleProofEntry>): Result<Hash, Error> {
    var (rest, root) := FoldProof(h, index, node, proof);
    if rest == 0 then Success(root) else Failure(InvalidMerkleProof)
  }
}
