/** What the filter keeps and why it discards, in the raw fields of a buffer (src/lib.rs:747-912). */
module FilterTheorems {
  import opened Wrappers
  import opened Bytes
  import opened Headers
  import opened Shreds
  import opened Wire
  import opened ParseTheorems
  import opened Filter

  // ----- The shred in a buffer -----

  /** A full-sized shred with a variant; all raw fields of its kind can be read. */
  predicate IsRaw(p: Bytes) {
    |p| > 64 && (if p[64] / 16 in {0x6, 0x7} then |p| == 1228 else p[64] / 16 in {0x9, 0xb} && |p| == 1203)
  }

  predicate IsRawCode(p: Bytes)
    requires IsRaw(p)
  {
    p[64] / 16 in {0x6, 0x7}
  }

  /** A buffer holds the shred it begins with, if it has a variant and is long enough for it. */
  lemma RawShredExactly(buf: Bytes, p: Bytes)
    ensures GetShredFromBuf(buf) == Some(p) <==> IsRaw(p) && |p| <= |buf| && p == buf[..|p|]
    ensures IsRaw(p) ==> GetShredVariant(p).Success? && (GetShredVariant(p).value.MerkleCode? <==> IsRawCode(p))
  {
    LayoutInNumbers(MerkleCode(0, false));
    LayoutInNumbers(MerkleData(0, false));
    if |buf| > 64 && GetShredFromBuf(buf).Some? {
      assert GetShredFromBuf(buf).value[64] == buf[64];
    }
    if |buf| > 64 && |p| > 64 && |p| <= |buf| && p == buf[..|p|] {
      assert p[64] == buf[64];
    }
  }

  /** The raw fields the filter looks at; of the two readings of bytes 83 to 87 one goes with each kind. */
  datatype Fields = Fields(isCode: bool, version: u16, slot: u64, index: u32, fecSet: u32, parentOffset: u16,
    flags: byte, numData: u16, numCoding: u16)

  function FieldsOf(p: Bytes): Fields
    requires IsRaw(p)
  {
    Pow256Values();
    Fields(IsRawCode(p), Le(p, 77, 2), Le(p, 65, 8), Le(p, 73, 4), Le(p, 79, 4), Le(p, 83, 2), p[85], Le(p, 83, 2),
           Le(p, 85, 2))
  }

  /** What the raw readers return. */
  predicate AreRead(p: Bytes, f: Fields) {
    && GetShredVariant(p).Success? && (GetShredVariant(p).value.MerkleCode? <==> f.isCode)
    && GetVersion(p) == Some(f.version) && GetSlot(p) == Some(f.slot) && GetIndex(p) == Some(f.index)
    && GetFecSetIndex(p) == Some(f.fecSet) && GetParentOffset(p) == Some(f.parentOffset)
    && (f.isCode ==> GetErasureConfig(p) == Success(ErasureConfig(f.numData, f.numCoding)))
    && (!f.isCode ==> GetFlags(p) == Success(f.flags))
  }

  lemma FieldsAreRead(p: Bytes)
    requires IsRaw(p)
    ensures AreRead(p, FieldsOf(p))
  {
    RawShredExactly(p, p);
    RawFieldsStandAt(p);
    RawTypedFieldsStandAt(p);
  }

  // ----- Faults -----

  predicate IsAligned(f: Fields) {
    f.fecSet % 32 == 0 && f.fecSet <= f.index < f.fecSet + 32
  }

  /** The parent lies in `[root, slot)`, or both are the genesis slot and so is the root. */
  predicate HasParent(f: Fields, limits: Limits) {
    || limits.root <= f.slot - f.parentOffset < f.slot
    || (f.slot == 0 && f.parentOffset == 0 && limits.root == 0)
  }

  /** Bit 6 of the flags says that data is complete, anywhere but at the end of its FEC set. */
  predicate IsUnexpected(f: Fields) {
    f.flags / 64 % 2 == 1 && f.index != f.fecSet + 31
  }

  /** Bits 6 and 7 of the flags say that the shred is the last of its slot, but it is not the last of 32. */
  predicate IsMisplacedLast(f: Fields) {
    f.flags / 64 == 3 && f.index % 32 != 31
  }

  predicate IsCurrent(f: Fields, limits: Limits) {
    f.version == limits.shredVersion && f.slot <= limits.maxSlot
  }

  /** Data that passes all checks up to that of its flags. */
  predicate IsPlacedData(f: Fields, limits: Limits) {
    !f.isCode && IsCurrent(f, limits) && f.index < 32768 && HasParent(f, limits)
  }

  /** Code that passes all checks up to that of its configuration. */
  predicate IsPlacedCode(f: Fields, limits: Limits) {
    f.isCode && IsCurrent(f, limits) && f.index < 32768 && limits.root < f.slot
  }

  predicate IsFixed(f: Fields) {
    f.numData == 32 && f.numCoding == 32
  }

  predicate KeepsCode(f: Fields, limits: Limits) {
    IsPlacedCode(f, limits) && IsFixed(f) && IsAligned(f)
  }

  predicate KeepsData(f: Fields, limits: Limits) {
    && IsPlacedData(f, limits) && IsAligned(f) && !IsMisplacedLast(f)
    && (IsUnexpected(f) ==> !limits.discardUnexpected(f.slot))
  }

  /** The cause of every counter for coding shreds. */
  predicate IsCodeVerdict(f: Fields, limits: Limits, v: Verdict) {
    && (v.counter == ShredVersionMismatch <==> f.version != limits.shredVersion)
    && (v.counter == SlotOutOfRange <==>
        && f.version == limits.shredVersion
        && (f.slot > limits.maxSlot || (f.index < 32768 && f.slot <= limits.root)))
    && (v.counter == IndexOutOfBounds <==> IsCurrent(f, limits) && f.index >= 32768)
    && (v.counter == MisalignedErasureConfig <==> IsPlacedCode(f, limits) && !IsFixed(f))
    && (v.counter == MisalignedFecSet <==> IsPlacedCode(f, limits) && IsFixed(f) && !IsAligned(f))
    && (v.counter == MerkleCodeChained <==> KeepsCode(f, limits))
    && (!v.discard <==> KeepsCode(f, limits))
    && v.counter in {ShredVersionMismatch, SlotOutOfRange, IndexOutOfBounds, MisalignedErasureConfig, MisalignedFecSet,
                     MerkleCodeChained}
    && !v.tolerated
  }

  /** The cause of every counter for data shreds, and when an unexpected end of data is tolerated. */
  predicate IsDataVerdict(f: Fields, limits: Limits, v: Verdict) {
    var refused := IsUnexpected(f) && limits.discardUnexpected(f.slot);
    && (v.counter == ShredVersionMismatch <==> f.version != limits.shredVersion)
    && (v.counter == SlotOutOfRange <==>
        && f.version == limits.shredVersion
        && (f.slot > limits.maxSlot || (f.index < 32768 && f.parentOffset <= f.slot && !HasParent(f, limits))))
    && (v.counter == IndexOutOfBounds <==> IsCurrent(f, limits) && f.index >= 32768)
    && (v.counter == BadParentOffset <==> IsCurrent(f, limits) && f.index < 32768 && f.parentOffset > f.slot)
    && (v.counter == UnexpectedDataCompleteShred <==> IsPlacedData(f, limits) && refused)
    && (v.counter == MisalignedLastDataIndex <==> IsPlacedData(f, limits) && !refused && IsMisplacedLast(f))
    && (v.counter == MisalignedFecSet <==>
        IsPlacedData(f, limits) && !refused && !IsMisplacedLast(f) && !IsAligned(f))
    && (v.counter == MerkleDataChained <==> KeepsData(f, limits))
    && (!v.discard <==> KeepsData(f, limits))
    && v.counter in {ShredVersionMismatch, SlotOutOfRange, IndexOutOfBounds, BadParentOffset,
                     UnexpectedDataCompleteShred, MisalignedLastDataIndex, MisalignedFecSet, MerkleDataChained}
    && (v.tolerated <==> IsPlacedData(f, limits) && IsUnexpected(f) && !refused)
  }

  /** A shred of the right version and a slot that is not too high is judged by the checks on its kind. */
  lemma CurrentIsJudgedByKind(p: Bytes, f: Fields, limits: Limits)
    requires AreRead(p, f)
    ensures JudgeShred(p, limits) ==
            if f.version != limits.shredVersion then Discard(ShredVersionMismatch)
            else if f.slot > limits.maxSlot then Discard(SlotOutOfRange)
            else if f.isCode then JudgeCode(p, limits, f.slot, f.index, f.fecSet)
            else JudgeData(p, limits, f.slot, f.index, f.fecSet)
  {
  }

  lemma AlignmentInNumbers(f: Fields)
    requires f.index < 32768
    ensures CheckFixedFecSet(f.index, f.fecSet) <==> IsAligned(f)
  {
  }

  lemma FlagsInNumbers(f: Fields)
    requires f.index < 32768
    ensures UnexpectedComplete(f.flags, f.index, f.fecSet) <==> IsUnexpected(f)
    ensures LastInSlot(f.flags) && !CheckLastDataShredIndex(f.index) <==> IsMisplacedLast(f)
  {
  }

  lemma ParentInNumbers(f: Fields, limits: Limits)
    requires f.parentOffset <= f.slot
    ensures VerifyShredSlots(f.slot, f.slot - f.parentOffset, limits.root) <==> HasParent(f, limits)
  {
  }

  lemma CodeVerdict(p: Bytes, f: Fields, limits: Limits)
    requires AreRead(p, f) && f.isCode
    ensures IsCodeVerdict(f, limits, JudgeShred(p, limits))
  {
    CurrentIsJudgedByKind(p, f, limits);
    if f.index < 32768 {
      AlignmentInNumbers(f);
    }
  }

  /** The checks on data in the order in which they are made. */
  lemma DataIsJudgedInNumbers(p: Bytes, f: Fields, limits: Limits)
    requires AreRead(p, f) && !f.isCode
    ensures var unexpected := IsUnexpected(f);
            JudgeData(p, limits, f.slot, f.index, f.fecSet) ==
            if f.index >= 32768 then Discard(IndexOutOfBounds)
            else if f.parentOffset > f.slot then Discard(BadParentOffset)
            else if !HasParent(f, limits) then Discard(SlotOutOfRange)
            else if unexpected && limits.discardUnexpected(f.slot) then Discard(UnexpectedDataCompleteShred)
            else if IsMisplacedLast(f) then Verdict(true, MisalignedLastDataIndex, unexpected)
            else if !IsAligned(f) then Verdict(true, MisalignedFecSet, unexpected)
            else Verdict(false, MerkleDataChained, unexpected)
  {
    if f.index < 32768 && f.parentOffset <= f.slot {
      ParentInNumbers(f, limits);
      FlagsInNumbers(f);
      AlignmentInNumbers(f);
    }
  }

  lemma DataVerdict(p: Bytes, f: Fields, limits: Limits)
    requires AreRead(p, f) && !f.isCode
    ensures IsDataVerdict(f, limits, JudgeShred(p, limits))
  {
    CurrentIsJudgedByKind(p, f, limits);
    DataIsJudgedInNumbers(p, f, limits);
  }

  // ----- The theorems -----

  /** Every other verdict follows from the fields of the shred in the buffer, each counter from its own cause. */
  lemma VerdictIsCaused(buf: Bytes, p: Bytes, limits: Limits)
    requires GetShredFromBuf(buf) == Some(p)
    ensures IsRaw(p)
    ensures if IsRawCode(p) then IsCodeVerdict(FieldsOf(p), limits, Judge(buf, limits))
            else IsDataVerdict(FieldsOf(p), limits, Judge(buf, limits))
  {
    RawShredExactly(buf, p);
    FieldsAreRead(p);
    if IsRawCode(p) {
      CodeVerdict(p, FieldsOf(p), limits);
    } else {
      DataVerdict(p, FieldsOf(p), limits);
    }
  }

  /** Only a buffer without a full-sized shred is counted as an overrun. */
  lemma OverrunExactly(buf: Bytes, limits: Limits)
    ensures Judge(buf, limits).counter == IndexOverrun <==>
            |buf| <= 64 || (if buf[64] / 16 in {0x6, 0x7} then |buf| < 1228
                            else buf[64] / 16 !in {0x9, 0xb} || |buf| < 1203)
    ensures Judge(buf, limits).counter == IndexOverrun ==> Judge(buf, limits) == Discard(IndexOverrun)
  {
    if GetShredFromBuf(buf).Some? {
      var p := GetShredFromBuf(buf).value;
      VerdictIsCaused(buf, p, limits);
      assert p[64] == buf[64];
    } else if |buf| > 64 {
      if |buf| >= 1228 {
        RawShredExactly(buf, buf[..1228]);
      }
      if |buf| >= 1203 {
        RawShredExactly(buf, buf[..1203]);
      }
    }
  }

  /** The filter keeps exactly the buffers that begin with a shred whose fields are within all of these bounds. */
  lemma KeptExactly(buf: Bytes, limits: Limits)
    ensures !Judge(buf, limits).discard <==>
            exists p :: IsRaw(p) && p <= buf && (KeepsCode(FieldsOf(p), limits) || KeepsData(FieldsOf(p), limits))
  {
    if GetShredFromBuf(buf).Some? {
      var p := GetShredFromBuf(buf).value;
      RawShredExactly(buf, p);
      VerdictIsCaused(buf, p, limits);
      forall q | IsRaw(q) && q <= buf ensures q == p {
        RawShredExactly(buf, q);
      }
    } else if p :| IsRaw(p) && p <= buf {
      RawShredExactly(buf, p);
    }
  }
}
