/** The fetch-stage filter, its counters, and the batches it lets through (src/lib.rs:746-912). */
module Filter {
  import opened Wrappers
  import opened Bytes
  import opened Headers
  import opened Shreds
  import opened Wire
  import opened Recovery
  import opened BatchTheorems

  // ----- Verdicts -----

  /** The counters of `ShredFetchStats` that the filter touches. */
  datatype Counter =
    | IndexOverrun | ShredVersionMismatch | BadShredType | SlotOutOfRange | SlotBadDeserialize
    | IndexBadDeserialize | FecSetIndexBadDeserialize | IndexOutOfBounds | ErasureConfigBadDeserialize
    | MisalignedErasureConfig | BadParentOffset | ShredFlagsBadDeserialize | UnexpectedDataCompleteShred
    | MisalignedLastDataIndex | MisalignedFecSet | MerkleCodeChained | MerkleDataChained

  /** The decision on one buffer, the counter that goes with it, and whether a tolerated oddity is counted too. */
  datatype Verdict = Verdict(discard: bool, counter: Counter, tolerated: bool)

  datatype Limits = Limits(root: u64, maxSlot: u64, shredVersion: u16, discardUnexpected: u64 -> bool)

  function Discard(counter: Counter): Verdict {
    Verdict(true, counter, false)
  }

  predicate VerifyShredSlots(slot: u64, parent: u64, root: u64) {
    (slot == 0 && parent == 0 && root == 0) || (root <= parent && parent < slot)
  }

  predicate CheckFixedFecSet(index: u32, fecSetIndex: u32) {
    && fecSetIndex + DATA_SHREDS_PER_FEC_BLOCK < 0x1_0000_0000
    && fecSetIndex <= index < fecSetIndex + DATA_SHREDS_PER_FEC_BLOCK
    && fecSetIndex % DATA_SHREDS_PER_FEC_BLOCK == 0
  }

  predicate CheckLastDataShredIndex(index: u32) {
    (index + 1) % DATA_SHREDS_PER_FEC_BLOCK == 0
  }

  /** DATA_COMPLETE_SHRED is bit 6; LAST_SHRED_IN_SLOT is bits 6 and 7. */
  predicate DataComplete(flags: byte) {
    flags / 64 == 1 || flags / 64 == 3
  }

  predicate LastInSlot(flags: byte) {
    flags / 64 == 3
  }

  predicate UnexpectedComplete(flags: byte, index: u32, fecSetIndex: u32) {
    DataComplete(flags) && (fecSetIndex + DATA_SHREDS_PER_FEC_BLOCK >= 0x1_0000_0000
                            || index != fecSetIndex + DATA_SHREDS_PER_FEC_BLOCK - 1)
  }

  function JudgeCode(shred: Bytes, limits: Limits, slot: u64, index: u32, fecSetIndex: u32): Verdict {
    if index >= MAX_CODE_SHREDS_PER_SLOT then Discard(IndexOutOfBounds)
    else if slot <= limits.root then Discard(SlotOutOfRange)
    else
      match GetErasureConfig(shred)
      case Failure(_) => Discard(ErasureConfigBadDeserialize)
      case Success(config) =>
        if !config.IsFixed() then Discard(MisalignedErasureConfig)
        else if !CheckFixedFecSet(index, fecSetIndex) then Discard(MisalignedFecSet)
        else Verdict(false, MerkleCodeChained, false)
  }

  function JudgeData(shred: Bytes, limits: Limits, slot: u64, index: u32, fecSetIndex: u32): Verdict {
    if index >= MAX_DATA_SHREDS_PER_SLOT then Discard(IndexOutOfBounds)
    else
      match GetParentOffset(shred)
      case None => Discard(BadParentOffset)
      case Some(parentOffset) =>
        if parentOffset > slot then Discard(BadParentOffset)
        else if !VerifyShredSlots(slot, slot - parentOffset, limits.root) then Discard(SlotOutOfRange)
        else
          match GetFlags(shred)
          case Failure(_) => Discard(ShredFlagsBadDeserialize)
          case Success(flags) =>
            var unexpected := UnexpectedComplete(flags, index, fecSetIndex);
            if unexpected && limits.discardUnexpected(slot) then Discard(UnexpectedDataCompleteShred)
            else if LastInSlot(flags) && !CheckLastDataShredIndex(index)
            then Verdict(true, MisalignedLastDataIndex, unexpected)
            else if !CheckFixedFecSet(index, fecSetIndex) then Verdict(true, MisalignedFecSet, unexpected)
            else Verdict(false, MerkleDataChained, unexpected)
  }

  function JudgeFields(shred: Bytes, limits: Limits): Verdict {
    match GetShredVariant(shred)
    case Failure(_) => Discard(BadShredType)
    case Success(variant) =>
      match GetSlot(shred)
      case None => Discard(SlotBadDeserialize)
      case Some(slot) =>
        if slot > limits.maxSlot then Discard(SlotOutOfRange) else
          match GetIndex(shred)
          case None => Discard(IndexBadDeserialize)
          case Some(index) =>
            match GetFecSetIndex(shred)
            case None => Discard(FecSetIndexBadDeserialize)
            case Some(fecSetIndex) =>
              if variant.MerkleCode? then JudgeCode(shred, limits, slot, index, fecSetIndex)
              else JudgeData(shred, limits, slot, index, fecSetIndex)
  }

  function JudgeShred(shred: Bytes, limits: Limits): Verdict {
    match GetVersion(shred)
    case None => Discard(IndexOverrun)
    case Some(version) =>
      if version != limits.shredVersion then Discard(ShredVersionMismatch) else JudgeFields(shred, limits)
  }

  /** The specification of `should_discard_shred`. */
  function Judge(buf: Bytes, limits: Limits): Verdict {
    match GetShredFromBuf(buf)
    case None => Discard(IndexOverrun)
    case Some(shred) => JudgeShred(shred, limits)
  }

  // ----- The counters -----

  /** How often one call raises a counter. */
  function Raises(v: Verdict, c: Counter): nat {
    (if v.counter == c then 1 else 0) + (if v.tolerated && c == UnexpectedDataCompleteShred then 1 else 0)
  }

  const USIZE_MAX := 0xFFFF_FFFF_FFFF_FFFF

  /** The counters of kept shreds. */
  predicate CountsKept(c: Counter) {
    c.MerkleCodeChained? || c.MerkleDataChained?
  }

  function SaturatingIncrement(value: u64): u64 {
    if value < USIZE_MAX then value + 1 else value
  }

  /** A counter after a number of raises: the two counters of kept shreds saturate. */
  function Bumped(value: nat, c: Counter, raises: nat): nat {
    if CountsKept(c) then Min(USIZE_MAX, value + raises) else value + raises
  }

  // ----- Totals over runs of calls -----

  function Verdicts(calls: seq<(Bytes, Limits)>): (verdicts: seq<Verdict>)
    ensures |verdicts| == |calls|
  {
    seq(|calls|, j requires 0 <= j < |calls| => Judge(calls[j].0, calls[j].1))
  }

  function Total(verdicts: seq<Verdict>, c: Counter): nat {
    if verdicts == [] then 0 else Raises(verdicts[0], c) + Total(verdicts[1..], c)
  }

  function Kept(verdicts: seq<Verdict>): nat {
    if verdicts == [] then 0 else (if verdicts[0].discard then 0 else 1) + Kept(verdicts[1..])
  }

  function Tolerated(verdicts: seq<Verdict>): nat {
    if verdicts == [] then 0 else (if verdicts[0].tolerated then 1 else 0) + Tolerated(verdicts[1..])
  }

  lemma {:induction false} TotalSnoc(verdicts: seq<Verdict>, v: Verdict, c: Counter)
    ensures Total(verdicts + [v], c) == Total(verdicts, c) + Raises(v, c)
  {
    if verdicts == [] {
      assert [] + [v] == [v];
    } else {
      assert (verdicts + [v])[1..] == verdicts[1..] + [v];
      TotalSnoc(verdicts[1..], v, c);
    }
  }

  /** Saturation does not depend on how the raises are grouped. */
  lemma BumpedTwice(value: nat, c: Counter, a: nat, b: nat)
    ensures Bumped(Bumped(value, c, a), c, b) == Bumped(value, c, a + b)
  {
  }

  lemma NextCallBumps(value: nat, c: Counter, calls: seq<(Bytes, Limits)>, i: nat)
    requires i < |calls|
    ensures Bumped(Bumped(value, c, Total(Verdicts(calls[..i]), c)), c, Raises(Judge(calls[i].0, calls[i].1), c))
         == Bumped(value, c, Total(Verdicts(calls[..i + 1]), c))
  {
    var verdicts, verdict := Verdicts(calls[..i]), Judge(calls[i].0, calls[i].1);
    assert Verdicts(calls[..i + 1]) == verdicts + [verdict];
    TotalSnoc(verdicts, verdict, c);
    BumpedTwice(value, c, Total(verdicts, c), Raises(verdict, c));
  }

  /** A counter that no call can raise: a buffer of full length and valid variant has all these fields. */
  predicate NeverRaised(c: Counter) {
    || c.BadShredType? || c.SlotBadDeserialize? || c.IndexBadDeserialize? || c.FecSetIndexBadDeserialize?
    || c.ErasureConfigBadDeserialize? || c.ShredFlagsBadDeserialize?
  }

  /** A verdict that raises the counter of a kept shred exactly if it keeps, and never an unreachable one. */
  predicate WellCounted(v: Verdict) {
    && !NeverRaised(v.counter) && (v.discard <==> !CountsKept(v.counter))
    && (v.tolerated ==> v.counter != UnexpectedDataCompleteShred)
  }

  lemma JudgedShredIsWellCounted(shred: Bytes, limits: Limits)
    requires GetShredVariant(shred).Success? && |shred| == SizeOfPayload(GetShredVariant(shred).value.Type())
    ensures WellCounted(JudgeShred(shred, limits))
  {
    assert WellCounted(JudgeFields(shred, limits));
  }

  lemma VerdictIsWellCounted(buf: Bytes, limits: Limits)
    ensures WellCounted(Judge(buf, limits))
  {
    var shred := GetShredFromBuf(buf);
    if shred.Some? {
      assert shred.value[64] == buf[64];
      JudgedShredIsWellCounted(shred.value, limits);
    }
  }

  function DiscardTotal(verdicts: seq<Verdict>): nat {
    Total(verdicts, IndexOverrun) + Total(verdicts, ShredVersionMismatch) + Total(verdicts, SlotOutOfRange)
    + Total(verdicts, IndexOutOfBounds) + Total(verdicts, MisalignedErasureConfig) + Total(verdicts, BadParentOffset)
    + Total(verdicts, UnexpectedDataCompleteShred) + Total(verdicts, MisalignedLastDataIndex)
    + Total(verdicts, MisalignedFecSet)
  }

  predicate IsAccounted(verdicts: seq<Verdict>) {
    && Total(verdicts, MerkleCodeChained) + Total(verdicts, MerkleDataChained) == Kept(verdicts)
    && DiscardTotal(verdicts) == |verdicts| - Kept(verdicts) + Tolerated(verdicts)
    && forall c :: NeverRaised(c) ==> Total(verdicts, c) == 0
  }

  /** One well-counted call raises one counter under its reason, and the tolerated one on top. */
  lemma RaisesOnce(v: Verdict)
    requires WellCounted(v)
    ensures Raises(v, MerkleCodeChained) + Raises(v, MerkleDataChained) == if v.discard then 0 else 1
    ensures Raises(v, IndexOverrun) + Raises(v, ShredVersionMismatch) + Raises(v, SlotOutOfRange)
            + Raises(v, IndexOutOfBounds) + Raises(v, MisalignedErasureConfig) + Raises(v, BadParentOffset)
            + Raises(v, UnexpectedDataCompleteShred) + Raises(v, MisalignedLastDataIndex) + Raises(v, MisalignedFecSet)
         == (if v.discard then 1 else 0) + (if v.tolerated then 1 else 0)
    ensures forall c :: NeverRaised(c) ==> Raises(v, c) == 0
  {
  }

  lemma TotalStep(verdicts: seq<Verdict>, c: Counter)
    requires verdicts != []
    ensures Total(verdicts, c) == Raises(verdicts[0], c) + Total(verdicts[1..], c)
  {
  }

  lemma {:induction false} WellCountedRunIsAccounted(verdicts: seq<Verdict>)
    requires forall j :: 0 <= j < |verdicts| ==> WellCounted(verdicts[j])
    ensures IsAccounted(verdicts)
  {
    if verdicts != [] {
      WellCountedRunIsAccounted(verdicts[1..]);
      assert WellCounted(verdicts[0]);
      RaisesOnce(verdicts[0]);
      forall c ensures Total(verdicts, c) == Raises(verdicts[0], c) + Total(verdicts[1..], c) {
        TotalStep(verdicts, c);
      }
    }
  }

  /** The raises of any run account for every call, whatever the buffers and the limits. */
  lemma RunIsAccounted(calls: seq<(Bytes, Limits)>)
    ensures IsAccounted(Verdicts(calls))
  {
    forall j | 0 <= j < |calls| ensures WellCounted(Verdicts(calls)[j]) {
      VerdictIsWellCounted(calls[j].0, calls[j].1);
    }
    WellCountedRunIsAccounted(Verdicts(calls));
  }

  /** What two saturating counters show between them is exact if and only if neither lost a raise. */
  lemma SaturationLoses(code: u64, data: u64, codeRaises: nat, dataRaises: nat)
    ensures var shown := Bumped(code, MerkleCodeChained, codeRaises) + Bumped(data, MerkleDataChained, dataRaises);
            && shown <= code + data + codeRaises + dataRaises
            && (shown == code + data + codeRaises + dataRaises <==>
                code + codeRaises <= USIZE_MAX && data + dataRaises <= USIZE_MAX)
  {
  }

  // ----- The filter -----

  class ShredFetchStats {
    var indexOverrun: nat
    var shredVersionMismatch: nat
    var badShredType: nat
    var slotOutOfRange: nat
    var slotBadDeserialize: nat
    var indexBadDeserialize: nat
    var fecSetIndexBadDeserialize: nat
    var indexOutOfBounds: nat
    var erasureConfigBadDeserialize: nat
    var misalignedErasureConfig: nat
    var badParentOffset: nat
    var shredFlagsBadDeserialize: nat
    var unexpectedDataCompleteShred: nat
    var misalignedLastDataIndex: nat
    var misalignedFecSet: nat
    var numShredsMerkleCodeChained: u64
    var numShredsMerkleDataChained: u64

    function Count(c: Counter): (count: nat)
      reads this
      ensures CountsKept(c) ==> count <= USIZE_MAX
    {
      match c
      case IndexOverrun => indexOverrun
      case ShredVersionMismatch => shredVersionMismatch
      case BadShredType => badShredType
      case SlotOutOfRange => slotOutOfRange
      case SlotBadDeserialize => slotBadDeserialize
      case IndexBadDeserialize => indexBadDeserialize
      case FecSetIndexBadDeserialize => fecSetIndexBadDeserialize
      case IndexOutOfBounds => indexOutOfBounds
      case ErasureConfigBadDeserialize => erasureConfigBadDeserialize
      case MisalignedErasureConfig => misalignedErasureConfig
      case BadParentOffset => badParentOffset
      case ShredFlagsBadDeserialize => shredFlagsBadDeserialize
      case UnexpectedDataCompleteShred => unexpectedDataCompleteShred
      case MisalignedLastDataIndex => misalignedLastDataIndex
      case MisalignedFecSet => misalignedFecSet
      case MerkleCodeChained => numShredsMerkleCodeChained
      case MerkleDataChained => numShredsMerkleDataChained
    }

    function KeptCount(): nat
      reads this
    {
      Count(MerkleCodeChained) + Count(MerkleDataChained)
    }

    function DiscardCount(): nat
      reads this
    {
      Count(IndexOverrun) + Count(ShredVersionMismatch) + Count(SlotOutOfRange) + Count(IndexOutOfBounds)
      + Count(MisalignedErasureConfig) + Count(BadParentOffset) + Count(UnexpectedDataCompleteShred)
      + Count(MisalignedLastDataIndex) + Count(MisalignedFecSet)
    }

    /** The checks on coding shreds; false if the shred is to be discarded. */
    method PassesCode(shred: Bytes, limits: Limits, slot: u64,
        index: u32) returns (passes: bool, ghost counter: Counter)
      modifies this
      ensures forall c :: Count(c) == old(Count(c)) + if !passes && c == counter then 1 else 0
      ensures !counter.MerkleCodeChained? && !counter.MerkleDataChained?
      ensures forall fecSetIndex ::
                JudgeCode(shred, limits, slot, index, fecSetIndex) ==
                if !passes then Discard(counter)
                else if !CheckFixedFecSet(index, fecSetIndex) then Discard(MisalignedFecSet)
                else Verdict(false, MerkleCodeChained, false)
    {
      counter := MisalignedFecSet;
      if index >= MAX_CODE_SHREDS_PER_SLOT {
        indexOutOfBounds := indexOutOfBounds + 1;
        return false, IndexOutOfBounds;
      }
      if slot <= limits.root {
        slotOutOfRange := slotOutOfRange + 1;
        return false, SlotOutOfRange;
      }
      var config := GetErasureConfig(shred);
      if config.Failure? {
        erasureConfigBadDeserialize := erasureConfigBadDeserialize + 1;
        return false, ErasureConfigBadDeserialize;
      }
      if !config.value.IsFixed() {
        misalignedErasureConfig := misalignedErasureConfig + 1;
        return false, MisalignedErasureConfig;
      }
      passes := true;
    }

    /** The checks on data shreds, and whether an unexpected end of data was tolerated. */
    method PassesData(shred: Bytes, limits: Limits, slot: u64, index: u32, fecSetIndex: u32)
      returns (passes: bool, ghost counter: Counter, ghost tolerated: bool)
      modifies this
      ensures forall c :: Count(c) == old(Count(c)) + (if !passes && c == counter then 1 else 0)
                                      + (if tolerated && c == UnexpectedDataCompleteShred then 1 else 0)
      ensures !counter.MerkleCodeChained? && !counter.MerkleDataChained?
      ensures JudgeData(shred, limits, slot, index, fecSetIndex) ==
              if !passes then Verdict(true, counter, tolerated)
              else if !CheckFixedFecSet(index, fecSetIndex) then Verdict(true, MisalignedFecSet, tolerated)
              else Verdict(false, MerkleDataChained, tolerated)
    {
      counter, tolerated := MisalignedFecSet, false;
      if index >= MAX_DATA_SHREDS_PER_SLOT {
        indexOutOfBounds := indexOutOfBounds + 1;
        return false, IndexOutOfBounds, false;
      }
      var parentOffset := GetParentOffset(shred);
      if parentOffset.None? || parentOffset.value > slot {
        badParentOffset := badParentOffset + 1;
        return false, BadParentOffset, false;
      }
      if !VerifyShredSlots(slot, slot - parentOffset.value, limits.root) {
        slotOutOfRange := slotOutOfRange + 1;
        return false, SlotOutOfRange, false;
      }
      var flags := GetFlags(shred);
      if flags.Failure? {
        shredFlagsBadDeserialize := shredFlagsBadDeserialize + 1;
        return false, ShredFlagsBadDeserialize, false;
      }
      if UnexpectedComplete(flags.value, index, fecSetIndex) {
        unexpectedDataCompleteShred := unexpectedDataCompleteShred + 1;
        if limits.discardUnexpected(slot) {
          return false, UnexpectedDataCompleteShred, false;
        }
        tolerated := true;
      }
      if LastInSlot(flags.value) && !CheckLastDataShredIndex(index) {
        misalignedLastDataIndex := misalignedLastDataIndex + 1;
        return false, MisalignedLastDataIndex, tolerated;
      }
      passes := true;
    }

    method DiscardByType(shred: Bytes, limits: Limits, variant: ShredVariant, slot: u64, index: u32, fecSetIndex: u32)
      returns (discard: bool)
      modifies this
      ensures var v := if variant.MerkleCode? then JudgeCode(shred, limits, slot, index, fecSetIndex)
                       else JudgeData(shred, limits, slot, index, fecSetIndex);
              discard == v.discard && forall c :: Count(c) == Bumped(old(Count(c)), c, Raises(v, c))
    {
      var passes;
      ghost var counter, tolerated := MisalignedFecSet, false;
      if variant.MerkleCode? {
        passes, counter := PassesCode(shred, limits, slot, index);
      } else {
        passes, counter, tolerated := PassesData(shred, limits, slot, index, fecSetIndex);
      }
      if !passes {
        return true;
      }
      if !CheckFixedFecSet(index, fecSetIndex) {
        misalignedFecSet := misalignedFecSet + 1;
        return true;
      }
      if variant.MerkleCode? {
        numShredsMerkleCodeChained := SaturatingIncrement(numShredsMerkleCodeChained);
      } else {
        numShredsMerkleDataChained := SaturatingIncrement(numShredsMerkleDataChained);
      }
      return false;
    }

    method DiscardByFields(shred: Bytes, limits: Limits) returns (discard: bool)
      modifies this
      ensures discard == JudgeFields(shred, limits).discard
      ensures forall c :: Count(c) == Bumped(old(Count(c)), c, Raises(JudgeFields(shred, limits), c))
    {
      var variant := GetShredVariant(shred);
      if variant.Failure? {
        badShredType := badShredType + 1;
        return true;
      }
      var slot := GetSlot(shred);
      if slot.None? {
        slotBadDeserialize := slotBadDeserialize + 1;
        return true;
      }
      if slot.value > limits.maxSlot {
        slotOutOfRange := slotOutOfRange + 1;
        return true;
      }
      var index := GetIndex(shred);
      if index.None? {
        indexBadDeserialize := indexBadDeserialize + 1;
        return true;
      }
      var fecSetIndex := GetFecSetIndex(shred);
      if fecSetIndex.None? {
        fecSetIndexBadDeserialize := fecSetIndexBadDeserialize + 1;
        return true;
      }
      discard := DiscardByType(shred, limits, variant.value, slot.value, index.value, fecSetIndex.value);
    }

    method DiscardShred(shred: Bytes, limits: Limits) returns (discard: bool)
      modifies this
      ensures discard == JudgeShred(shred, limits).discard
      ensures forall c :: Count(c) == Bumped(old(Count(c)), c, Raises(JudgeShred(shred, limits), c))
    {
      var version := GetVersion(shred);
      if version.None? {
        indexOverrun := indexOverrun + 1;
        return true;
      }
      if version.value != limits.shredVersion {
        shredVersionMismatch := shredVersionMismatch + 1;
        return true;
      }
      discard := DiscardByFields(shred, limits);
    }

    method ShouldDiscardShred(buf: Bytes, limits: Limits) returns (discard: bool)
      modifies this
      ensures discard == Judge(buf, limits).discard
      ensures forall c :: Count(c) == Bumped(old(Count(c)), c, Raises(Judge(buf, limits), c))
    {
      var shred := GetShredFromBuf(buf);
      if shred.None? {
        indexOverrun := indexOverrun + 1;
        return true;
      }
      discard := DiscardShred(shred.value, limits);
    }

    /** Every counter has been raised as often as a run of calls demands. */
    twostate predicate HasRun(calls: seq<(Bytes, Limits)>)
      reads this
    {
      forall c :: Count(c) == Bumped(old(Count(c)), c, Total(Verdicts(calls), c))
    }

    /**
      * The counters account for every call of a run: discarded shreds are counted once under their reason,
      * tolerated ends of data come on top, and the counters of fields that could not be read stay where they
      * are. Kept shreds are all counted exactly if neither of their counters saturates.
      */
    twostate predicate AccountsFor(calls: seq<(Bytes, Limits)>)
      reads this
    {
      var verdicts := Verdicts(calls);
      && DiscardCount() == old(DiscardCount()) + |calls| - Kept(verdicts) + Tolerated(verdicts)
      && (forall c :: NeverRaised(c) ==> Count(c) == old(Count(c)))
      && KeptCount() <= old(KeptCount()) + Kept(verdicts)
      && (KeptCount() == old(KeptCount()) + Kept(verdicts) <==>
          forall c :: CountsKept(c) ==> old(Count(c)) + Total(verdicts, c) <= USIZE_MAX)
    }

    twostate lemma RunAccountsForCalls(calls: seq<(Bytes, Limits)>)
      requires HasRun(calls)
      ensures AccountsFor(calls)
    {
      RunIsAccounted(calls);
      SaturationLoses(old(numShredsMerkleCodeChained), old(numShredsMerkleDataChained),
                      Total(Verdicts(calls), MerkleCodeChained), Total(Verdicts(calls), MerkleDataChained));
      assert CountsKept(MerkleCodeChained) && CountsKept(MerkleDataChained);
    }

    /** A run of calls on one set of counters. */
    method DiscardAll(calls: seq<(Bytes, Limits)>) returns (discards: seq<bool>)
      modifies this
      ensures |discards| == |calls|
      ensures forall j :: 0 <= j < |calls| ==> discards[j] == Judge(calls[j].0, calls[j].1).discard
      ensures HasRun(calls) && AccountsFor(calls)
    {
      discards := [];
      for i := 0 to |calls|
        invariant |discards| == i
        invariant forall j :: 0 <= j < i ==> discards[j] == Judge(calls[j].0, calls[j].1).discard
        invariant HasRun(calls[..i])
      {
        label before:
        var (buf, limits) := calls[i];
        var discard := ShouldDiscardShred(buf, limits);
        discards := discards + [discard];
        forall c ensures Count(c) == Bumped(old(Count(c)), c, Total(Verdicts(calls[..i + 1]), c)) {
          assert old@before(Count(c)) == Bumped(old(Count(c)), c, Total(Verdicts(calls[..i]), c));
          NextCallBumps(old(Count(c)), c, calls, i);
        }
      }
      assert calls[..|calls|] == calls;
      RunAccountsForCalls(calls);
    }
  }

  // ----- What is kept -----

  lemma AlignedFecSet(index: u32, fecSetIndex: u32)
    requires CheckFixedFecSet(index, fecSetIndex)
    ensures fecSetIndex == DATA_SHREDS_PER_FEC_BLOCK * (index / DATA_SHREDS_PER_FEC_BLOCK)
  {
  }

  /**
    * Every buffer that is kept, whether or not it parses, holds a shred of the right version whose slot lies in
    * the window, or which is data of the genesis slot, and whose FEC set is the aligned one around its index.
    */
  lemma KeptWindow(buf: Bytes, limits: Limits)
    requires !Judge(buf, limits).discard
    ensures GetShredFromBuf(buf).Some?
    ensures var p := GetShredFromBuf(buf).value;
            && GetShredVariant(p).Success? && |p| == SizeOfPayload(GetShredVariant(p).value.Type())
            && GetVersion(p) == Some(limits.shredVersion)
            && GetSlot(p).Some? && GetIndex(p).Some? && GetFecSetIndex(p).Some?
            && (|| limits.root < GetSlot(p).value <= limits.maxSlot
                || (GetSlot(p) == Some(0) && limits.root == 0 && GetShredVariant(p).value.MerkleData?))
            && GetIndex(p).value < MAX_DATA_SHREDS_PER_SLOT
            && GetFecSetIndex(p).value == DATA_SHREDS_PER_FEC_BLOCK * (GetIndex(p).value / DATA_SHREDS_PER_FEC_BLOCK)
  {
    var p := GetShredFromBuf(buf).value;
    assert p[64] == buf[64];
    AlignedFecSet(GetIndex(p).value, GetFecSetIndex(p).value);
  }

  lemma ParsedHasIndex(buf: Bytes, s: Shred)
    requires FromPayload(buf) == Success(s)
    ensures WellSized(s) && ErasureShardIndex(s).Success?
  {
    FromPayloadExact(buf, s);
  }

  /** The verdict on a buffer that parses, in terms of the parsed shred. */
  lemma KeptVerdict(buf: Bytes, limits: Limits, s: Shred)
    requires !Judge(buf, limits).discard && FromPayload(buf) == Success(s)
    ensures HeadersAgree(s.payload, s) && GetShredFromBuf(buf) == Some(s.payload)
    ensures var slot, index, fecSetIndex := s.common.slot, s.common.index, s.common.fecSetIndex;
            if s.ShredCode? then !JudgeCode(s.payload, limits, slot, index, fecSetIndex).discard
            else !JudgeData(s.payload, limits, slot, index, fecSetIndex).discard
  {
    RawReadersAgree(_ => Zeros(32), buf, s);
    FromPayloadExact(buf, s);
  }

  /** A kept shred that parses stands in a 32:32 set: data at 0..32 and coding shreds at 32..64. */
  lemma KeptPlace(buf: Bytes, limits: Limits, s: Shred)
    requires !Judge(buf, limits).discard && FromPayload(buf) == Success(s)
    ensures s.common.version == limits.shredVersion && s.common.slot <= limits.maxSlot
    ensures s.common.fecSetIndex == DATA_SHREDS_PER_FEC_BLOCK * (s.common.index / DATA_SHREDS_PER_FEC_BLOCK)
    ensures ErasureShardIndex(s).Success?
    ensures s.ShredData? ==> ErasureShardIndex(s).value < DATA_SHREDS_PER_FEC_BLOCK
    ensures s.ShredCode? ==> s.coding.numDataShreds == s.coding.numCodingShreds == DATA_SHREDS_PER_FEC_BLOCK
    ensures s.ShredCode? ==> DATA_SHREDS_PER_FEC_BLOCK <= ErasureShardIndex(s).value < 2 * DATA_SHREDS_PER_FEC_BLOCK
  {
    KeptVerdict(buf, limits, s);
    ParsedHasIndex(buf, s);
    AlignedFecSet(s.common.index, s.common.fecSetIndex);
  }

  /** Parsed from a buffer that the filter keeps, and of the given erasure set. */
  predicate IsKept(buf: Bytes, limits: Limits, s: Shred, signature: Signature, slot: u64, fecSetIndex: u32,
      firstCodingIndex: u32) {
    && !Judge(buf, limits).discard && FromPayload(buf) == Success(s)
    && s.common.signature == signature && s.common.slot == slot && s.common.fecSetIndex == fecSetIndex
    && (s.ShredCode? ==> FirstCodingIndex(s) == Some(firstCodingIndex))
  }

  predicate AllKept(bufs: seq<Bytes>, limits: Limits, shreds: seq<Shred>, signature: Signature, slot: u64,
      fecSetIndex: u32, firstCodingIndex: u32) {
    && |bufs| == |shreds|
    && forall j :: 0 <= j < |bufs| ==>
         IsKept(bufs[j], limits, shreds[j], signature, slot, fecSetIndex, firstCodingIndex)
  }

  predicate DistinctIds(shreds: seq<Shred>) {
    forall i, j :: 0 <= i < j < |shreds| ==> Id(shreds[i]) != Id(shreds[j])
  }

  /** What the batch loop needs of a single shred of a fixed 32:32 set. */
  predicate IsPlaceableInSet(s: Shred, signature: Signature, slot: u64, fecSetIndex: u32, firstCodingIndex: u32) {
    && WellSized(s) && s.common.signature == signature && s.common.slot == slot
    && InSet(s, fecSetIndex, firstCodingIndex, 32, 32)
    && ErasureShardIndex(s).value < 2 * DATA_SHREDS_PER_FEC_BLOCK
  }

  lemma KeptIsPlaceable(buf: Bytes, limits: Limits, s: Shred, signature: Signature, slot: u64, fecSetIndex: u32,
      firstCodingIndex: u32)
    requires IsKept(buf, limits, s, signature, slot, fecSetIndex, firstCodingIndex)
    ensures IsPlaceableInSet(s, signature, slot, fecSetIndex, firstCodingIndex)
  {
    KeptPlace(buf, limits, s);
    ParsedHasIndex(buf, s);
  }

  /** Sorted shreds of one set with different ids ascend in their erasure shard index. */
  lemma SortedSetAscends(a: Shred, b: Shred, signature: Signature, slot: u64, fecSetIndex: u32, firstCodingIndex: u32)
    requires IsPlaceableInSet(a, signature, slot, fecSetIndex, firstCodingIndex)
    requires IsPlaceableInSet(b, signature, slot, fecSetIndex, firstCodingIndex)
    requires AtMost(a, b) && Id(a) != Id(b)
    ensures ErasureShardIndex(a).value < ErasureShardIndex(b).value
  {
    OrderIsShardOrder(a, b, fecSetIndex, firstCodingIndex, 32, 32);
  }

  lemma PlaceableSetAssembles(sorted: seq<Shred>, signature: Signature, slot: u64, fecSetIndex: u32,
      firstCodingIndex: u32)
    requires IsSorted(sorted) && DistinctIds(sorted) && sorted != [] && Last(sorted).ShredCode?
    requires forall j :: 0 <= j < |sorted| ==>
               IsPlaceableInSet(sorted[j], signature, slot, fecSetIndex, firstCodingIndex)
    ensures MakeTemplate(sorted).Success? && Assemble(MakeTemplate(sorted).value, sorted).Success?
    ensures MakeTemplate(sorted).value.NumData() == DATA_SHREDS_PER_FEC_BLOCK
    ensures MakeTemplate(sorted).value.NumShards() == 2 * DATA_SHREDS_PER_FEC_BLOCK
  {
    var last := sorted[|sorted| - 1];
    assert IsPlaceableInSet(last, signature, slot, fecSetIndex, firstCodingIndex);
    TemplateFacts(sorted);
    var t := MakeTemplate(sorted).value;
    forall j | 0 <= j < |sorted| ensures FitsNext(t, sorted[j], 0) {
      assert IsPlaceableInSet(sorted[j], signature, slot, fecSetIndex, firstCodingIndex);
    }
    forall i, j | 0 <= i < j < |sorted|
      ensures ErasureShardIndex(sorted[i]).value < ErasureShardIndex(sorted[j]).value
    {
      assert AtMost(sorted[i], sorted[j]);
      SortedSetAscends(sorted[i], sorted[j], signature, slot, fecSetIndex, firstCodingIndex);
    }
    AssembleExact(t, sorted);
  }

  lemma DistinctIdsPermute(sorted: seq<Shred>, shreds: seq<Shred>)
    requires multiset(sorted) == multiset(shreds) && DistinctIds(shreds)
    ensures DistinctIds(sorted)
  {
    PermutationFacts(sorted, shreds);
    forall i, j | 0 <= i < j < |sorted| ensures Id(sorted[i]) != Id(sorted[j]) {
      if Id(sorted[i]) == Id(sorted[j]) {
        assert sorted[i] in shreds && sorted[j] in shreds;
        assert sorted[i] == sorted[j];
        DuplicatesCount(sorted, i, j);
        CountsOnce(shreds, sorted[i]);
      }
    }
  }

  /**
    * The filter feeds recovery: shreds parsed from kept buffers, of one slot, FEC set, signature and first
    * coding index, with different ids and a coding shred among them, pass the batch loop in every order.
    */
  lemma FilterFeedsRecovery(bufs: seq<Bytes>, limits: Limits, shreds: seq<Shred>, sorted: seq<Shred>,
                            signature: Signature, slot: u64, fecSetIndex: u32, firstCodingIndex: u32)
    requires AllKept(bufs, limits, shreds, signature, slot, fecSetIndex, firstCodingIndex) && DistinctIds(shreds)
    requires exists s :: s in shreds && s.ShredCode?
    requires IsSortOf(sorted, shreds)
    ensures MakeTemplate(sorted).Success? && Assemble(MakeTemplate(sorted).value, sorted).Success?
    ensures MakeTemplate(sorted).value.NumData() == DATA_SHREDS_PER_FEC_BLOCK
    ensures MakeTemplate(sorted).value.NumShards() == 2 * DATA_SHREDS_PER_FEC_BLOCK
  {
    PermutationFacts(sorted, shreds);
    forall j | 0 <= j < |sorted|
      ensures IsPlaceableInSet(sorted[j], signature, slot, fecSetIndex, firstCodingIndex)
    {
      assert sorted[j] in shreds;
      var i :| 0 <= i < |shreds| && shreds[i] == sorted[j];
      KeptIsPlaceable(bufs[i], limits, shreds[i], signature, slot, fecSetIndex, firstCodingIndex);
    }
    DistinctIdsPermute(sorted, shreds);
    CodeSortsLast(sorted);
    PlaceableSetAssembles(sorted, signature, slot, fecSetIndex, firstCodingIndex);
  }
}
