/** The payload guard and the setters as they run: in place, on objects (src/payload.rs, src/merkle.rs:322-443). */
module ShredObjects {
  import opened Wrappers
  import opened Bytes
  import opened Errors
  import opened Headers
  import opened MerkleTree
  import opened Shreds
  import Setters

  class Payload {
    var bytes: Bytes

    constructor (bytes: Bytes)
      ensures this.bytes == bytes
    {
      this.bytes := bytes;
    }

    method Truncate(len: nat)
      modifies this
      ensures bytes == old(bytes)[..Min(len, |old(bytes)|)]
    {
      if len < |bytes| {
        bytes := bytes[..len];
      }
    }

    /** Only the end of the range is checked; an unbounded range is always granted. */
    method GetMut(lo: nat, hi: Option<nat>) returns (guard: Option<PayloadMutGuard>)
      modifies this
      ensures guard.Some? <==> hi.None? || hi.value <= |old(bytes)|
      ensures guard.None? ==> bytes == old(bytes)
      ensures guard.Some? ==>
                && fresh(guard.value) && guard.value.payload == this && bytes == []
                && guard.value.bytesMut == old(bytes) && guard.value.lo == lo && guard.value.hi == hi
    {
      if hi.Some? && hi.value > |bytes| {
        return None;
      }
      var g := new PayloadMutGuard(this, lo, hi);
      return Some(g);
    }
  }

  /** Takes the bytes out of the payload, lends a range of them for writing and puts them back when dropped. */
  class PayloadMutGuard {
    const payload: Payload
    var bytesMut: Bytes
    const lo: nat
    const hi: Option<nat>

    constructor (payload: Payload, lo: nat, hi: Option<nat>)
      modifies payload
      ensures this.payload == payload && this.lo == lo && this.hi == hi
      ensures bytesMut == old(payload.bytes) && payload.bytes == []
    {
      this.payload := payload;
      this.bytesMut := payload.bytes;
      this.lo, this.hi := lo, hi;
      new;
      payload.bytes := [];
    }

    /** Writes `b` at a position within the lent range. */
    method Write(position: nat, b: Bytes)
      requires lo + position + |b| <= (if hi.Some? then Min(hi.value, |bytesMut|) else |bytesMut|)
      modifies this
      ensures bytesMut == Splice(old(bytesMut), lo + position, b)
    {
      bytesMut := Splice(bytesMut, lo + position, b);
    }

    method Drop()
      modifies this, payload
      ensures payload.bytes == old(bytesMut) && bytesMut == []
    {
      payload.bytes := bytesMut;
      bytesMut := [];
    }
  }

  datatype TypedHeader = CodeHeader(coding: CodingShredHeader) | DataHeader(data: DataShredHeader)

  /** A run of the iterator with entries already read put before it. */
  ghost function Prepend(entries: seq<MerkleProofEntry>, run: Result<seq<MerkleProofEntry>, Error>)
    : Result<seq<MerkleProofEntry>, Error>
  {
    if run.Success? then Success(entries + run.value) else run
  }

  /** The entries are what the iterator yielded on its way from one cursor to another. */
  ghost predicate HasRead(nodes: seq<Hash>, start: ProofCursor, entries: seq<MerkleProofEntry>, c: ProofCursor) {
    && ProofRun(nodes, start) == Prepend(entries, ProofRun(nodes, c))
    && OkSteps(nodes, start) == |entries| + OkSteps(nodes, c)
  }

  lemma PrependStep(entries: seq<MerkleProofEntry>, entry: MerkleProofEntry, run: Result<seq<MerkleProofEntry>, Error>)
    ensures Prepend(entries + [entry], run) == Prepend(entries, Prepend([entry], run))
  {
    if run.Success? {
      assert (entries + [entry]) + run.value == entries + ([entry] + run.value);
    }
  }

  lemma EntryIsRead(nodes: seq<Hash>, start: ProofCursor, entries: seq<MerkleProofEntry>, c: ProofCursor,
      entry: MerkleProofEntry, next: ProofCursor)
    requires HasRead(nodes, start, entries, c)
    requires ProofRun(nodes, c) == Prepend([entry], ProofRun(nodes, next))
    requires OkSteps(nodes, c) == 1 + OkSteps(nodes, next)
    ensures HasRead(nodes, start, entries + [entry], next)
  {
    PrependStep(entries, entry, ProofRun(nodes, next));
  }

  /** A payload too short for the proof: the cursor runs out of room if the iterator gets that far. */
  ghost function NoRoomError(nodes: seq<Hash>, c: ProofCursor, room: nat): Error {
    if OkSteps(nodes, c) > room / SIZE_OF_MERKLE_PROOF_ENTRY then Io else InvalidMerkleProof
  }

  /** What `set_merkle_proof` makes of a shred whose payload reaches at least up to the proof. */
  ghost function WithProof(s: Shred, nodes: seq<Hash>, c: ProofCursor): Result<Shred, Error>
    requires s.VariantMatches() ==> ProofOffset(s.common.variant) <= |s.payload|
  {
    if s.VariantMatches() && |s.payload| < RetransmitterOffset(s.common.variant)
    then Failure(NoRoomError(nodes, c, |s.payload| - ProofOffset(s.common.variant)))
    else Setters.SetMerkleProof(s, ProofRun(nodes, c))
  }

  lemma PrependNothing(run: Result<seq<MerkleProofEntry>, Error>)
    ensures Prepend([], run) == run
  {
    if run.Success? {
      assert [] + run.value == run.value;
    }
  }

  /** A `ShredCode` or `ShredData`: parsed headers beside the payload they were parsed from. */
  class MerkleShred {
    var common: ShredCommonHeader
    var header: TypedHeader
    const payload: Payload

    /** The shred as a value. */
    ghost function Value(): Shred
      reads this, payload
    {
      match header
      case CodeHeader(coding) => ShredCode(common, coding, payload.bytes)
      case DataHeader(data) => ShredData(common, data, payload.bytes)
    }

    constructor (shred: Shred)
      ensures Value() == shred && fresh(payload)
    {
      common := shred.common;
      match shred {
        case ShredCode(_, coding, _) => header := CodeHeader(coding);
        case ShredData(_, data, _) => header := DataHeader(data);
      }
      payload := new Payload(shred.payload);
    }

    method ToValue() returns (shred: Shred)
      ensures shred == Value()
    {
      match header {
        case CodeHeader(coding) => shred := ShredCode(common, coding, payload.bytes);
        case DataHeader(data) => shred := ShredData(common, data, payload.bytes);
      }
    }

    function VariantMatches(): (m: bool)
      reads this, payload
      ensures m == Value().VariantMatches()
    {
      header.CodeHeader? == common.variant.MerkleCode?
    }

    method SetSignature(signature: Signature)
      requires |payload.bytes| >= SIZE_OF_SIGNATURE
      modifies this, payload
      ensures Value() == Setters.SetSignature(old(Value()), signature)
    {
      var guard := new PayloadMutGuard(payload, 0, None);
      guard.Write(0, signature);
      guard.Drop();
      common := common.(signature := signature);
    }

    method SetChainedMerkleRoot(root: Hash) returns (r: Checked)
      modifies payload
      ensures match Setters.SetChainedMerkleRoot(old(Value()), root)
              case Success(shred) => r == Success(()) && Value() == shred
              case Failure(error) => r == Failure(error) && Value() == old(Value())
    {
      if !VariantMatches() {
        return Failure(InvalidShredVariant);
      }
      var offset := ChainedRootOffset(common.variant);
      var buffer := payload.GetMut(offset, Some(offset + SIZE_OF_MERKLE_ROOT));
      if buffer.None? {
        return Failure(InvalidPayloadSize(|payload.bytes|));
      }
      buffer.value.Write(0, root);
      buffer.value.Drop();
      return Success(());
    }

    method SetRetransmitterSignature(signature: Signature) returns (r: Checked)
      modifies payload
      ensures match Setters.SetRetransmitterSignature(old(Value()), signature)
              case Success(shred) => r == Success(()) && Value() == shred
              case Failure(error) => r == Failure(error) && Value() == old(Value())
    {
      if !VariantMatches() || !common.variant.resigned {
        return Failure(InvalidShredVariant);
      }
      var offset := RetransmitterOffset(common.variant);
      var buffer := payload.GetMut(offset, Some(offset + SIZE_OF_SIGNATURE));
      if buffer.None? {
        return Failure(InvalidPayloadSize(|payload.bytes|));
      }
      buffer.value.Write(0, signature);
      buffer.value.Drop();
      return Success(());
    }

    method SetErasureShard(shard: Bytes)
      requires WellSized(Value()) && |shard| == Setters.ErasureShardLength(Value())
      modifies payload
      ensures Value() == Setters.SetErasureShard(old(Value()), shard)
    {
      var start := ErasureShardStart(if header.CodeHeader? then Code else Data);
      var buffer := payload.GetMut(start, Some(ChainedRootOffset(common.variant)));
      buffer.value.Write(0, shard);
      buffer.value.Drop();
    }

    /** `write_all` of the cursor: what does not fit is cut off. */
    static method WriteEntry(slice: PayloadMutGuard, position: nat, entry: MerkleProofEntry, ghost before: Bytes,
        ghost entries: seq<MerkleProofEntry>)
      returns (complete: bool, ghost written: Bytes)
      requires slice.hi == None && slice.lo + position <= |before| && position == |Flatten(entries)|
      requires slice.bytesMut == Splice(before, slice.lo, Flatten(entries))
      modifies slice
      ensures complete <==> slice.lo + position + SIZE_OF_MERKLE_PROOF_ENTRY <= |before|
      ensures slice.lo + |written| <= |before| && slice.bytesMut == Splice(before, slice.lo, written)
      ensures complete ==> written == Flatten(entries + [entry])
      ensures !complete ==> |written| < position + SIZE_OF_MERKLE_PROOF_ENTRY
    {
      var room := |slice.bytesMut| - slice.lo - position;
      complete := room >= SIZE_OF_MERKLE_PROOF_ENTRY;
      var front := if complete then entry else entry[..room];
      SpliceAppend(before, slice.lo, Flatten(entries), front);
      FlattenSnoc(entries, entry);
      slice.Write(position, front);
      written := Flatten(entries) + front;
    }

    /** The loop of `set_merkle_proof`, writing through a cursor over the lent bytes. */
    static method WriteEntries(slice: PayloadMutGuard, proof: ProofIterator, proofSize: nat)
      returns (r: Checked, ghost written: Bytes)
      requires slice.hi == None && slice.lo <= |slice.bytesMut|
      modifies slice, proof
      ensures |written| <= proofSize * SIZE_OF_MERKLE_PROOF_ENTRY && slice.lo + |written| <= |old(slice.bytesMut)|
      ensures slice.bytesMut == Splice(old(slice.bytesMut), slice.lo, written)
      ensures var run, room := ProofRun(proof.nodes, old(proof.Cursor())), |old(slice.bytesMut)| - slice.lo;
              if room < proofSize * SIZE_OF_MERKLE_PROOF_ENTRY
              then r == Failure(NoRoomError(proof.nodes, old(proof.Cursor()), room))
              else
                && (r == Success(()) || r == Failure(InvalidMerkleProof))
                && (r.Success? <==> run.Success? && |run.value| == proofSize)
                && (r.Success? ==> written == Flatten(run.value))
    {
      ghost var before, start := slice.bytesMut, proof.Cursor();
      ghost var entries: seq<MerkleProofEntry> := [];
      var position, k := 0, 0;
      SpliceSame(before, slice.lo, slice.lo);
      assert Flatten([]) == before[slice.lo..slice.lo];
      PrependNothing(ProofRun(proof.nodes, start));
      while true
        invariant |entries| == k <= proofSize && position == k * SIZE_OF_MERKLE_PROOF_ENTRY <= |before| - slice.lo
        invariant |slice.bytesMut| == |before|
        invariant slice.bytesMut == Splice(before, slice.lo, Flatten(entries))
        invariant HasRead(proof.nodes, start, entries, proof.Cursor())
        decreases proof.Cursor().size
      {
        ghost var cursor := proof.Cursor();
        var item := proof.Next();
        if item.None? {
          break;
        }
        if k >= proofSize {
          return Failure(InvalidMerkleProof), Flatten(entries);
        }
        if item.value.Failure? {
          return Failure(item.value.error), Flatten(entries);
        }
        var entry := item.value.value;
        var complete;
        complete, written := WriteEntry(slice, position, entry, before, entries);
        if !complete {
          return Failure(Io), written;
        }
        EntryIsRead(proof.nodes, start, entries, cursor, entry, proof.Cursor());
        entries := entries + [entry];
        position, k := position + SIZE_OF_MERKLE_PROOF_ENTRY, k + 1;
      }
      assert entries + [] == entries;
      if position != proofSize * SIZE_OF_MERKLE_PROOF_ENTRY {
        return Failure(InvalidMerkleProof), Flatten(entries);
      }
      return Success(()), Flatten(entries);
    }

    /**
      * Writes the entries of the proof one after the other. On an error the entries already written stay
      * in the payload, but nothing outside the proof's region has changed.
      */
    method SetMerkleProof(proof: ProofIterator) returns (r: Checked)
      requires VariantMatches() ==> ProofOffset(common.variant) <= |payload.bytes|
      modifies payload, proof
      ensures match WithProof(old(Value()), proof.nodes, old(proof.Cursor()))
              case Success(shred) => r == Success(()) && Value() == shred
              case Failure(error) => r == Failure(error)
      ensures payload.bytes == old(payload.bytes) || exists written: Bytes ::
                && |written| <= common.variant.proofSize * SIZE_OF_MERKLE_PROOF_ENTRY
                && ProofOffset(common.variant) + |written| <= |old(payload.bytes)|
                && payload.bytes == Splice(old(payload.bytes), ProofOffset(common.variant), written)
    {
      if !VariantMatches() {
        return Failure(InvalidShredVariant);
      }
      var proofOffset, proofSize := ProofOffset(common.variant), common.variant.proofSize;
      var slice := payload.GetMut(proofOffset, None);
      ghost var written;
      r, written := WriteEntries(slice.value, proof, proofSize);
      slice.value.Drop();
    }
  }

  // ----- Parsing, which truncates the payload -----

  method ParseCode(payload: Payload) returns (r: Result<Shred, Error>)
    modifies payload
    ensures r == CodeFromPayload(old(payload.bytes))
    ensures r.Success? ==> payload.bytes == r.value.payload
  {
    var headers := DecodeCodingHeaders(payload.bytes);
    if headers.Failure? {
      return Failure(headers.error);
    }
    var (common, coding) := headers.value;
    if !common.variant.MerkleCode? {
      return Failure(InvalidShredVariant);
    }
    if |payload.bytes| < SizeOfPayload(Code) {
      return Failure(InvalidPayloadSize(|payload.bytes|));
    }
    payload.Truncate(SizeOfPayload(Code));
    var shred := ShredCode(common, coding, payload.bytes);
    var sane := Sanitize(shred);
    return if sane.Failure? then Failure(sane.error) else Success(shred);
  }

  method ParseData(payload: Payload) returns (r: Result<Shred, Error>)
    modifies payload
    ensures r == DataFromPayload(old(payload.bytes))
    ensures r.Success? ==> payload.bytes == r.value.payload
  {
    if |payload.bytes| < SizeOfPayload(Data) {
      return Failure(InvalidPayloadSize(|payload.bytes|));
    }
    payload.Truncate(SizeOfPayload(Data));
    var headers := DecodeDataHeaders(payload.bytes);
    if headers.Failure? {
      return Failure(headers.error);
    }
    var (common, data) := headers.value;
    if !common.variant.MerkleData? {
      return Failure(InvalidShredVariant);
    }
    var shred := ShredData(common, data, payload.bytes);
    var sane := Sanitize(shred);
    return if sane.Failure? then Failure(sane.error) else Success(shred);
  }

  /** A payload parses to exactly the sane shred it begins with, whose bytes it then consists of. */
  method Parse(payload: Payload) returns (r: Result<Shred, Error>)
    modifies payload
    ensures r == FromPayload(old(payload.bytes))
    ensures r.Success? ==> payload.bytes == r.value.payload
  {
    var variant := GetShredVariant(payload.bytes);
    if variant.Failure? {
      return Failure(variant.error);
    }
    if variant.value.MerkleCode? {
      r := ParseCode(payload);
    } else {
      r := ParseData(payload);
    }
  }
}
