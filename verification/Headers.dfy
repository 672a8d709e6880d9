/** Shred headers and their fixed little-endian encoding (src/lib.rs:236-272, src/wire.rs:35-115). */
module Headers {
  import opened Wrappers
  import opened Bytes
  import opened Errors

  type Signature = b: Bytes | |b| == 64 witness Zeros(64)

  datatype ShredType = Data | Code

  /** Decoding leaves four bits for the proof size, and every variant stems from a decoded one. */
  type ProofSize = p: int | 0 <= p < 16

  datatype ShredVariant =
    | MerkleCode(proofSize: ProofSize, resigned: bool)
    | MerkleData(proofSize: ProofSize, resigned: bool)
  {
    function Type(): ShredType {
      if MerkleCode? then Code else Data
    }
  }

  datatype ShredCommonHeader = ShredCommonHeader(
    signature: Signature, variant: ShredVariant, slot: u64, index: u32, version: u16, fecSetIndex: u32)

  datatype DataShredHeader = DataShredHeader(parentOffset: u16, flags: byte, size: u16)

  datatype CodingShredHeader = CodingShredHeader(numDataShreds: u16, numCodingShreds: u16, position: u16)

  const SIZE_OF_SIGNATURE := 64
  const SIZE_OF_COMMON_SHRED_HEADER := 83
  const SIZE_OF_DATA_SHRED_HEADERS := 88
  const SIZE_OF_CODING_SHRED_HEADERS := 89

  // ----- Variant byte -----

  function VariantToByte(v: ShredVariant): byte {
    match v
    case MerkleCode(p, false) => 0x60 + p
    case MerkleCode(p, true) => 0x70 + p
    case MerkleData(p, false) => 0x90 + p
    case MerkleData(p, true) => 0xb0 + p
  }

  /** The two bytes of the legacy shred types, 0x5a and 0xa5, fall under the last case. */
  function VariantFromByte(b: byte): Result<ShredVariant, Error> {
    var high, p := b / 16, b % 16;
    if high == 6 then Success(MerkleCode(p, false))
    else if high == 7 then Success(MerkleCode(p, true))
    else if high == 9 then Success(MerkleData(p, false))
    else if high == 11 then Success(MerkleData(p, true))
    else Failure(InvalidShredVariant)
  }

  /** The variant bytes and the variants are in one-to-one correspondence. */
  lemma VariantBytesAreExact(v: ShredVariant, b: byte)
    ensures VariantFromByte(b) == Success(v) <==> VariantToByte(v) == b
  {
  }

  // ----- Headers -----

  function EncodeCommonHeader(c: ShredCommonHeader): (b: Bytes)
    ensures |b| == SIZE_OF_COMMON_SHRED_HEADER
  {
    c.signature + [VariantToByte(c.variant)] + ToLe(c.slot, 8) + ToLe(c.index, 4) + ToLe(c.version, 2)
    + ToLe(c.fecSetIndex, 4)
  }

  function EncodeDataHeader(d: DataShredHeader): (b: Bytes)
    ensures |b| == 5
  {
    ToLe(d.parentOffset, 2) + [d.flags] + ToLe(d.size, 2)
  }

  function EncodeCodingHeader(c: CodingShredHeader): (b: Bytes)
    ensures |b| == 6
  {
    ToLe(c.numDataShreds, 2) + ToLe(c.numCodingShreds, 2) + ToLe(c.position, 2)
  }

  /** Reading stops at the first field it cannot read; trailing bytes are not looked at. */
  function DecodeCommonHeader(b: Bytes): (r: Result<ShredCommonHeader, Error>)
    ensures r.Success? ==> |b| >= SIZE_OF_COMMON_SHRED_HEADER
  {
    if |b| < SIZE_OF_COMMON_SHRED_HEADER then Failure(WincodeRead) else
      match VariantFromByte(b[64])
      case Failure(_) => Failure(WincodeRead)
      case Success(variant) =>
        Success(ShredCommonHeader(b[..64], variant, ReadU64(b[65..73]), ReadU32(b[73..77]), ReadU16(b[77..79]),
                                  ReadU32(b[79..83])))
  }

  function DecodeDataHeaders(b: Bytes): (r: Result<(ShredCommonHeader, DataShredHeader), Error>)
    ensures r.Success? ==> |b| >= SIZE_OF_DATA_SHRED_HEADERS
  {
    var common :- DecodeCommonHeader(b);
    if |b| < SIZE_OF_DATA_SHRED_HEADERS then Failure(WincodeRead) else
      Success((common, DataShredHeader(ReadU16(b[83..85]), b[85], ReadU16(b[86..88]))))
  }

  function DecodeCodingHeaders(b: Bytes): (r: Result<(ShredCommonHeader, CodingShredHeader), Error>)
    ensures r.Success? ==> |b| >= SIZE_OF_CODING_SHRED_HEADERS
  {
    var common :- DecodeCommonHeader(b);
    if |b| < SIZE_OF_CODING_SHRED_HEADERS then Failure(WincodeRead) else
      Success((common, CodingShredHeader(ReadU16(b[83..85]), ReadU16(b[85..87]), ReadU16(b[87..89]))))
  }

  // ----- Round trips -----

  lemma ReadU16Exact(b: Bytes, x: u16)
    requires |b| == 2
    ensures ReadU16(b) == x <==> b == ToLe(x, 2)
  {
    Pow256Values();
    ToLeFromLe(b);
    FromLeToLe(x, 2);
  }

  lemma ReadU32Exact(b: Bytes, x: u32)
    requires |b| == 4
    ensures ReadU32(b) == x <==> b == ToLe(x, 4)
  {
    Pow256Values();
    ToLeFromLe(b);
    FromLeToLe(x, 4);
  }

  lemma ReadU64Exact(b: Bytes, x: u64)
    requires |b| == 8
    ensures ReadU64(b) == x <==> b == ToLe(x, 8)
  {
    Pow256Values();
    ToLeFromLe(b);
    FromLeToLe(x, 8);
  }

  /** The first 83 bytes of a buffer decode to a header exactly if they are its encoding. */
  lemma CommonHeaderExact(b: Bytes, c: ShredCommonHeader)
    requires |b| >= SIZE_OF_COMMON_SHRED_HEADER
    ensures DecodeCommonHeader(b) == Success(c) <==> b[..SIZE_OF_COMMON_SHRED_HEADER] == EncodeCommonHeader(c)
  {
    var e1 := c.signature + [VariantToByte(c.variant)];
    var e2 := e1 + ToLe(c.slot, 8);
    var e3 := e2 + ToLe(c.index, 4);
    var e4 := e3 + ToLe(c.version, 2);
    PrefixIs(b, 64, 65, c.signature, [VariantToByte(c.variant)]);
    PrefixIs(b, 65, 73, e1, ToLe(c.slot, 8));
    PrefixIs(b, 73, 77, e2, ToLe(c.index, 4));
    PrefixIs(b, 77, 79, e3, ToLe(c.version, 2));
    PrefixIs(b, 79, 83, e4, ToLe(c.fecSetIndex, 4));
    assert b[64..65] == [b[64]];
    VariantBytesAreExact(c.variant, b[64]);
    ReadU64Exact(b[65..73], c.slot);
    ReadU32Exact(b[73..77], c.index);
    ReadU16Exact(b[77..79], c.version);
    ReadU32Exact(b[79..83], c.fecSetIndex);
  }

  lemma DataHeadersExact(b: Bytes, c: ShredCommonHeader, d: DataShredHeader)
    requires |b| >= SIZE_OF_DATA_SHRED_HEADERS
    ensures DecodeDataHeaders(b) == Success((c, d)) <==>
            b[..SIZE_OF_DATA_SHRED_HEADERS] == EncodeCommonHeader(c) + EncodeDataHeader(d)
  {
    CommonHeaderExact(b, c);
    var e := EncodeDataHeader(d);
    var p := b[83..88];
    PrefixIs(b, 83, 88, EncodeCommonHeader(c), e);
    PrefixIs(p, 3, 5, ToLe(d.parentOffset, 2) + [d.flags], ToLe(d.size, 2));
    PrefixIs(p, 2, 3, ToLe(d.parentOffset, 2), [d.flags]);
    SliceOfSlice(b, 83, 88, 0, 2);
    SliceOfSlice(b, 83, 88, 3, 5);
    assert p[..5] == p;
    assert p[2] == b[85] && p[2..3] == [p[2]];
    ReadU16Exact(b[83..85], d.parentOffset);
    ReadU16Exact(b[86..88], d.size);
  }

  lemma CodingHeadersExact(b: Bytes, c: ShredCommonHeader, d: CodingShredHeader)
    requires |b| >= SIZE_OF_CODING_SHRED_HEADERS
    ensures DecodeCodingHeaders(b) == Success((c, d)) <==>
            b[..SIZE_OF_CODING_SHRED_HEADERS] == EncodeCommonHeader(c) + EncodeCodingHeader(d)
  {
    CommonHeaderExact(b, c);
    var e := EncodeCodingHeader(d);
    var p := b[83..89];
    PrefixIs(b, 83, 89, EncodeCommonHeader(c), e);
    PrefixIs(p, 4, 6, ToLe(d.numDataShreds, 2) + ToLe(d.numCodingShreds, 2), ToLe(d.position, 2));
    PrefixIs(p, 2, 4, ToLe(d.numDataShreds, 2), ToLe(d.numCodingShreds, 2));
    SliceOfSlice(b, 83, 89, 0, 2);
    SliceOfSlice(b, 83, 89, 2, 4);
    SliceOfSlice(b, 83, 89, 4, 6);
    assert p[..6] == p;
    ReadU16Exact(b[83..85], d.numDataShreds);
    ReadU16Exact(b[85..87], d.numCodingShreds);
    ReadU16Exact(b[87..89], d.position);
  }
}
