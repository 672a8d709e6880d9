/** What the fast path yields on any input, without a root check and without honesty (src/merkle.rs:781-870). */
module FastPathTheorems {
  import opened Wrappers
  import opened Headers
  import opened Shreds
  import opened ErasureCode
  import opened Recovery
  import opened BatchTheorems
  import opened RecoveryTheorems

  // ----- The places that are yielded -----

  predicate IsParsedFrom(t: Template, batch: seq<Shred>, i: nat, s: Shred) {
    i < |batch| && ParsedData(t, i, batch[i]) == Some(s)
  }

  predicate GivesItem(t: Template, batch: seq<Shred>, i: nat) {
    i < |batch| && ParsedData(t, i, batch[i]).Some?
  }

  /** The places that are received or give no item, so that the missing ones of them are yielded. */
  function Skipped(t: Template, batch: seq<Shred>, mask: seq<bool>): (skipped: seq<bool>)
    requires |batch| == |mask|
    ensures |skipped| == |mask|
    ensures forall i :: 0 <= i < |mask| ==> skipped[i] == (mask[i] || !GivesItem(t, batch, i))
  {
    seq(|mask|, i requires 0 <= i < |mask| => mask[i] || !GivesItem(t, batch, i))
  }

  predicate AreParsedFrom(t: Template, batch: seq<Shred>, places: seq<nat>, items: seq<Shred>) {
    |items| == |places| && forall j :: 0 <= j < |items| ==> IsParsedFrom(t, batch, places[j], items[j])
  }

  lemma OneMoreIsParsed(t: Template, batch: seq<Shred>, i: nat, s: Shred, places: seq<nat>, items: seq<Shred>)
    requires AreParsedFrom(t, batch, places, items) && IsParsedFrom(t, batch, i, s)
    ensures AreParsedFrom(t, batch, [i] + places, [s] + items)
  {
  }

  lemma {:induction false} YieldedAreParsed(t: Template, batch: seq<Shred>, mask: seq<bool>, start: nat)
    requires |batch| == |mask|
    ensures AreParsedFrom(t, batch, MissingFrom(Skipped(t, batch, mask), start), ParsedMissing(t, batch, mask, start))
    decreases |batch| - start
  {
    if start < |batch| {
      YieldedAreParsed(t, batch, mask, start + 1);
      if !mask[start] && GivesItem(t, batch, start) {
        var s := ParsedData(t, start, batch[start]).value;
        OneMoreIsParsed(t, batch, start, s, MissingFrom(Skipped(t, batch, mask), start + 1),
                        ParsedMissing(t, batch, mask, start + 1));
      }
    }
  }

  // ----- The batch behind the fast path -----

  /** The sorted shreds and stubs, and what reconstruction made of them. */
  predicate IsFastTrace(code: ReedSolomon, sorted: seq<Shred>, t: Template, placed: seq<Shred>, mask: seq<bool>,
      rebuilt: seq<Shred>) {
    && MakeTemplate(sorted) == Success(t) && Assemble(t, sorted) == Success((placed, mask))
    && |placed| == |mask| && Reconstruct(code, t, placed, mask) == Success(rebuilt)
  }

  lemma FastTrace(code: ReedSolomon, sorted: seq<Shred>)
    returns (t: Template, placed: seq<Shred>, mask: seq<bool>, rebuilt: seq<Shred>)
    requires RecoverDataOnlySorted(code, sorted).Success?
    ensures IsFastTrace(code, sorted, t, placed, mask, rebuilt) && |rebuilt| == |mask|
    ensures RecoverDataOnlySorted(code, sorted) == Success(ParsedMissing(t, rebuilt, mask, 0))
  {
    t := MakeTemplate(sorted).value;
    placed, mask := Assemble(t, sorted).value.0, Assemble(t, sorted).value.1;
    rebuilt := Reconstruct(code, t, placed, mask).value;
  }

  /** The last coding shred vouches for the template, and every missing place holds its rebuilt stub. */
  lemma FastTraceFacts(code: ReedSolomon, sorted: seq<Shred>, t: Template, placed: seq<Shred>, mask: seq<bool>,
      rebuilt: seq<Shred>)
    requires IsFastTrace(code, sorted, t, placed, mask, rebuilt)
    ensures |rebuilt| == |mask| == t.NumShards() && TemplateOk(t) && TemplateBounded(t) && WellSized(Last(sorted))
    ensures forall i :: 0 <= i < |mask| && !mask[i] ==> StandsAt(t, i, rebuilt[i]) && WellSized(rebuilt[i])
    ensures forall i :: 0 <= i < |mask| ==>
              (mask[i] <==> exists j :: 0 <= j < |sorted| && ErasureShardIndex(sorted[j]) == Success(i))
  {
    ReceivedLast(t, sorted, placed, mask);
    RebuiltAreWellSized(placed, mask, rebuilt);
    TemplateFacts(sorted);
    AssembleExact(t, sorted);
    forall i | 0 <= i < |mask| && !mask[i] ensures StandsAt(t, i, rebuilt[i]) && WellSized(rebuilt[i]) {
      StubFacts(t, i);
      assert RebuiltAt(placed, mask, rebuilt, i);
    }
    forall i | 0 <= i < |mask|
      ensures mask[i] <==> exists j :: 0 <= j < |sorted| && ErasureShardIndex(sorted[j]) == Success(i)
    {
      MaskMeansReceived(t, sorted, i);
    }
  }

  // ----- The theorems -----

  /** The common header of data shred `i` in the erasure set of a coding shred. */
  function HeaderInSet(last: Shred, i: nat): ShredCommonHeader
    requires last.common.fecSetIndex + i < 0x1_0000_0000
  {
    var c := last.common;
    ShredCommonHeader(c.signature, MerkleData(c.variant.proofSize, c.variant.resigned), c.slot,
                      c.fecSetIndex + i, c.version, c.fecSetIndex)
  }

  lemma PlaceHasHeaderInSet(sorted: seq<Shred>, t: Template, i: nat, s: Shred)
    requires MakeTemplate(sorted) == Success(t) && TemplateOk(t) && TemplateBounded(t) && i < t.NumData()
    requires StandsAt(t, i, s)
    ensures s.common == HeaderInSet(Last(sorted), i) && s.ShredData?
    ensures ErasureShardIndex(s) == Success(i)
  {
    StubStandsAtItsIndex(t, i, s);
  }

  /** A data shred for place `i` of the set, with its headers in its payload. */
  predicate IsFastItem(s: Shred, last: Shred, i: nat) {
    && last.common.fecSetIndex + i < 0x1_0000_0000
    && s.ShredData? && s.common == HeaderInSet(last, i) && WellSized(s) && HeadersInPayload(s)
    && ErasureShardIndex(s) == Success(i)
  }

  /** A missing place gives an item exactly if its payload begins with the header that belongs there. */
  lemma PlaceIsYieldedExactly(sorted: seq<Shred>, t: Template, i: nat, s: Shred)
    requires MakeTemplate(sorted) == Success(t) && TemplateOk(t) && TemplateBounded(t) && i < t.NumShards()
    requires StandsAt(t, i, s) && WellSized(s)
    ensures ParsedData(t, i, s).Some? <==>
            i < t.NumData() && s.payload[..83] == EncodeCommonHeader(HeaderInSet(Last(sorted), i))
    ensures ParsedData(t, i, s).Some? ==>
              IsFastItem(ParsedData(t, i, s).value, Last(sorted), i) && ParsedData(t, i, s).value.payload == s.payload
  {
    if i < t.NumData() {
      PlaceHasHeaderInSet(sorted, t, i, s);
      CommonHeaderExact(s.payload, s.common);
      if ParsedData(t, i, s).Some? {
        var item := ParsedData(t, i, s).value;
        DataHeadersExact(s.payload, item.common, item.data);
      }
    }
  }

  predicate IsReceived(sorted: seq<Shred>, i: nat) {
    exists j :: 0 <= j < |sorted| && ErasureShardIndex(sorted[j]) == Success(i)
  }

  /** What the fast path yields, place by place of the rebuilt batch. */
  predicate AreFastItems(sorted: seq<Shred>, rebuilt: seq<Shred>, items: seq<Shred>, places: seq<nat>)
    requires sorted != [] && Last(sorted).ShredCode?
    requires Last(sorted).common.fecSetIndex + Last(sorted).coding.numDataShreds <= 0x1_0000_0000
  {
    var last, k := Last(sorted), Last(sorted).coding.numDataShreds;
    && |items| == |places| && Ascending(places)
    && (forall j :: 0 <= j < |items| ==> IsFastItem(items[j], last, places[j]))
    && (forall j :: 0 <= j < |items| ==> places[j] < |rebuilt| && items[j].payload == rebuilt[places[j]].payload)
    && (forall i :: 0 <= i < |rebuilt| ==>
          (i in places <==>
           && i < k && !IsReceived(sorted, i) && |rebuilt[i].payload| >= 83
           && rebuilt[i].payload[..83] == EncodeCommonHeader(HeaderInSet(last, i))))
  }

  /**
    * Whatever was received, the fast path yields exactly those data shreds of the last coding shred's set that
    * were not received and whose reconstructed payload begins with the common header of their place. They come in
    * ascending order, with that payload and with the headers that it holds.
    */
  lemma FastPathYieldsExactly(code: ReedSolomon, sorted: seq<Shred>) returns (rebuilt: seq<Shred>, places: seq<nat>)
    requires RecoverDataOnlySorted(code, sorted).Success?
    ensures sorted != [] && Last(sorted).ShredCode? && WellSized(Last(sorted))
    ensures Last(sorted).common.fecSetIndex + Last(sorted).coding.numDataShreds <= 0x1_0000_0000
    ensures exists t, placed, mask :: IsFastTrace(code, sorted, t, placed, mask, rebuilt)
    ensures AreFastItems(sorted, rebuilt, RecoverDataOnlySorted(code, sorted).value, places)
  {
    var t, placed, mask;
    t, placed, mask, rebuilt := FastTrace(code, sorted);
    FastTraceFacts(code, sorted, t, placed, mask, rebuilt);
    YieldedAreParsed(t, rebuilt, mask, 0);
    places := Missing(Skipped(t, rebuilt, mask));
    MissingExact(Skipped(t, rebuilt, mask));
    var items := ParsedMissing(t, rebuilt, mask, 0);
    forall j | 0 <= j < |items|
      ensures IsFastItem(items[j], Last(sorted), places[j])
      ensures places[j] < |rebuilt| && items[j].payload == rebuilt[places[j]].payload
    {
      assert IsParsedFrom(t, rebuilt, places[j], items[j]);
      assert places[j] in places;
      PlaceIsYieldedExactly(sorted, t, places[j], rebuilt[places[j]]);
    }
    forall i | 0 <= i < |rebuilt|
      ensures i in places <==>
              && i < t.NumData() && !IsReceived(sorted, i) && |rebuilt[i].payload| >= 83
              && rebuilt[i].payload[..83] == EncodeCommonHeader(HeaderInSet(Last(sorted), i))
    {
      if !mask[i] {
        PlaceIsYieldedExactly(sorted, t, i, rebuilt[i]);
      }
    }
  }
}
