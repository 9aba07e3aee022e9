/** The Compression Identification Packet of CCSDS 121.0-B-2: the four fixed bytes of the source
    data field and the six bytes of its Preprocessor, Entropy Coder and Extended Parameters
    subfields. */
module Cip {
  import opened Bytes

  datatype CipFields = CipFields(
    grouping: half, technique: byte, interval: byte, status: byte, predictor: byte, mapper: byte,
    blockSize: half, sense: byte, resolution: byte, cds: half, restricted: byte)

  const ZERO_FIXED := Four(0, 0, 0, 0)
  const ZERO_VARIABLE := Six(0, 0, 0, 0, 0, 0)

  // -------------------------------------------------------------- codes
  // An argument outside the standard's table sets no bit: the exception object is built, not thrown.

  function StatusCode(status: byte): byte { if status == 1 then 1 else 0 }

  function PredictorCode(predictor: byte): byte {
    if predictor == 7 then 7 else if predictor == 1 then 1 else 0
  }

  function MapperCode(mapper: byte): byte { if mapper == 3 then 3 else 0 }

  function BlockCode(size: half): byte {
    if size == 0 || size == 8 then 0
    else if size == 16 then 1
    else if size == 32 || size == 64 then 2
    else 3
  }

  function SenseCode(sense: byte): byte { if sense == 1 then 1 else 0 }

  function ResolutionBits(resolution: byte): byte {
    if 1 <= resolution <= 32 then resolution & 0x1F else 0
  }

  function RangeCode(resolution: byte): byte {
    if resolution == 0 then 0
    else if resolution <= 8 then 1
    else if resolution <= 16 then 2
    else if resolution <= 32 then 3
    else 0
  }

  function ExtendedBlockCode(size: half): byte {
    if size == 0 || size == 8 then 0
    else if size == 16 then 1
    else if size == 32 then 2
    else if size == 64 then 3
    else 0xF
  }

  function RestrictedCode(option: byte): byte { if option == 1 then 1 else 0 }

  function CdsHigh(num: half): byte { if 1 <= num <= 4096 then Hi(num) & 0x0F else 0 }

  /** `(interval - 1) % 256` in `int`, stored in a byte: 0 gives -1, which is stored as 255. */
  function LessOne(interval: byte): byte {
    if interval == 0 then 255 else interval - 1
  }

  // -------------------------------------------------------------- encoding

  function EncodedFixed(g: Four, f: CipFields): Four {
    Four(g.b0 | Hi(f.grouping & 0xFFF), Lo(f.grouping & 0xFFF), f.technique, LessOne(f.interval))
  }

  /** Over a buffer that held `v`: the preprocessor bytes and the first entropy coder byte only gain
      bits, the extended parameters are cleared first. */
  function EncodedVariable(v: Six, f: CipFields): Six {
    Six(v.b0 | (StatusCode(f.status) << 5) | (PredictorCode(f.predictor) << 2) | MapperCode(f.mapper),
        v.b1 | (BlockCode(f.blockSize) << 6) | (SenseCode(f.sense) << 5) | ResolutionBits(f.resolution),
        v.b2 | 0x40 | (RangeCode(f.resolution) << 4) | CdsHigh(f.cds),
        if 1 <= f.cds <= 4096 then Lo(f.cds) else v.b3,
        0xC0 | ExtendedBlockCode(f.blockSize),
        (RestrictedCode(f.restricted) << 6) | (LessOne(f.interval) & 0x0F))
  }

  // -------------------------------------------------------------- decoders

  function DecodeGrouping(x: Four): half { Join(x.b0, x.b1) }

  function DecodeTechnique(x: Four): byte { x.b2 }

  /** The `+ 1` is computed in `int` and returned as a byte: 255 gives 0. */
  function DecodeInterval(x: Four): byte { if x.b3 == 255 then 0 else x.b3 + 1 }

  function DecodeStatus(v: Six): byte { (v.b0 & 0x20) >> 5 }

  function DecodePredictor(v: Six): byte { (v.b0 & 0x1C) >> 2 }

  function DecodeMapper(v: Six): byte { v.b0 & 0x03 }

  function DecodeSense(v: Six): byte { (v.b1 & 0x20) >> 5 }

  function DecodeResolution(v: Six): byte { v.b1 & 0x1F }

  function DecodeBlock(v: Six): half {
    var code := (v.b1 & 0xC0) >> 6;
    if code == 0 then 8 else if code == 1 then 16 else 0
  }

  function DecodeExtendedBlock(v: Six): half {
    var code := v.b4 & 0x0F;
    if code == 0 then 8
    else if code == 1 then 16
    else if code == 2 then 32
    else if code == 3 then 64
    else 0
  }

  function DecodeExtendedInterval(v: Six): byte { v.b5 & 0x0F }

  /** Masked but not shifted down: the option decodes as 0 or 0x40. */
  function DecodeRestricted(v: Six): byte { v.b5 & 0x40 }

  /** Each decoder reads the bits the standard gives its field; bit 0 is the first of the 16. */
  lemma PreprocessorLayout(v: Six)
    ensures var w := Join(v.b0, v.b1);
            && DecodeStatus(v) as half == (w >> 13) & 0x1
            && DecodePredictor(v) as half == (w >> 10) & 0x7
            && DecodeMapper(v) as half == (w >> 8) & 0x3
            && ((v.b1 & 0xC0) >> 6) as half == (w >> 6) & 0x3
            && DecodeSense(v) as half == (w >> 5) & 0x1
            && DecodeResolution(v) as half == w & 0x1F
  {
  }

  lemma ExtendedParametersLayout(v: Six)
    ensures var w := Join(v.b4, v.b5);
            && (v.b4 & 0x0F) as half == (w >> 8) & 0xF
            && (DecodeRestricted(v) != 0 <==> (w >> 6) & 0x1 == 1)
            && DecodeExtendedInterval(v) as half == w & 0xF
  {
  }

  /** What the decoders make of any bytes, written by `encode` or not. */
  lemma FixedDecoders(x: Four)
    ensures DecodeGrouping(x) == x.b0 as half * 256 + x.b1 as half
    ensures DecodeTechnique(x) == x.b2 && DecodeInterval(x) == x.b3 + 1
  {
    JoinValue(x.b0, x.b1);
    OneMore(x.b3);
  }

  lemma OneMore(b: byte)
    ensures (if b == 255 then 0 else b + 1) == b + 1
  {
  }

  lemma BlockDecoders(v: Six)
    ensures DecodeBlock(v) == if v.b1 >> 6 == 0 then 8 else if v.b1 >> 6 == 1 then 16 else 0
    ensures DecodeExtendedBlock(v) == if v.b4 & 0xF <= 3 then (8 as half) << (v.b4 & 0xF) else 0
  {
    TopTwo(v.b1);
    if v.b4 & 0x0F <= 3 {
      EightTimes(v.b4 & 0x0F);
    }
  }

  lemma TopTwo(b: byte)
    ensures (b & 0xC0) >> 6 == b >> 6
  {
  }

  lemma EightTimes(code: byte)
    requires code <= 3
    ensures (8 as half) << code == if code == 0 then 8 else if code == 1 then 16 else if code == 2 then 32 else 64
  {
  }

  // -------------------------------------------------------------- layout of what is written
  // The bits of each byte from the values passed, without the code functions. They are stated for
  // all values: one outside the standard's table leaves its bits 0.

  /** The grouping length, modulo 4096, high byte first; the technique; the interval less one. */
  predicate FixedLayout(x: Four, grouping: half, technique: byte, interval: byte) {
    Join(x.b0, x.b1) == grouping & 0xFFF && x.b2 == technique && x.b3 == interval - 1
  }

  predicate PredictionLayout(b: byte, status: byte, predictor: byte, mapper: byte) {
    && b >> 6 == 0
    && (b >> 5) & 1 == (if status == 1 then 1 else 0)
    && (b >> 2) & 7 == (if predictor in {1, 7} then predictor else 0)
    && b & 3 == (if mapper == 3 then 3 else 0)
  }

  predicate SampleLayout(b: byte, blockSize: half, sense: byte, resolution: byte) {
    && b >> 6 == (if blockSize in {0, 8} then 0 else if blockSize == 16 then 1
                  else if blockSize in {32, 64} then 2 else 3)
    && (b >> 5) & 1 == (if sense == 1 then 1 else 0)
    && b & 0x1F == (if resolution < 32 then resolution else 0)
  }

  predicate EntropyLayout(high: byte, low: byte, resolution: byte, cds: half) {
    && high >> 6 == 1
    && (high >> 4) & 3 ==
       (if 1 <= resolution <= 8 then 1 else if 9 <= resolution <= 16 then 2
        else if 17 <= resolution <= 32 then 3 else 0)
    && Join(high & 0xF, low) == (if 1 <= cds < 4096 then cds else 0)
  }

  predicate ExtendedLayout(high: byte, low: byte, blockSize: half, restricted: byte, interval: byte) {
    && high >> 4 == 0xC
    && high & 0xF == (if blockSize in {0, 8} then 0 else if blockSize == 16 then 1 else if blockSize == 32 then 2
                      else if blockSize == 64 then 3 else 0xF)
    && low >> 4 == (if restricted == 1 then 4 else 0)
    && low & 0xF == (interval - 1) & 0xF
  }

  predicate VariableLayout(v: Six, f: CipFields) {
    && PredictionLayout(v.b0, f.status, f.predictor, f.mapper)
    && SampleLayout(v.b1, f.blockSize, f.sense, f.resolution)
    && EntropyLayout(v.b2, v.b3, f.resolution, f.cds)
    && ExtendedLayout(v.b4, v.b5, f.blockSize, f.restricted, f.interval)
  }

  lemma FixedIsLaidOut(f: CipFields)
    ensures FixedLayout(EncodedFixed(ZERO_FIXED, f), f.grouping, f.technique, f.interval)
  {
    GroupingBits(f.grouping);
    LessOneValue(f.interval);
  }

  lemma GroupingBits(grouping: half)
    ensures Join(0 | Hi(grouping & 0xFFF), Lo(grouping & 0xFFF)) == grouping & 0xFFF
  {
  }

  lemma LessOneValue(interval: byte)
    ensures LessOne(interval) == interval - 1
  {
  }

  lemma VariableIsLaidOut(f: CipFields)
    ensures VariableLayout(EncodedVariable(ZERO_VARIABLE, f), f)
  {
    PredictionIsLaidOut(f);
    SampleIsLaidOut(f);
    EntropyIsLaidOut(f);
    ExtendedIsLaidOut(f);
  }

  lemma PredictionIsLaidOut(f: CipFields)
    ensures PredictionLayout(EncodedVariable(ZERO_VARIABLE, f).b0, f.status, f.predictor, f.mapper)
  {
    PredictionBits(StatusCode(f.status), PredictorCode(f.predictor), MapperCode(f.mapper));
  }

  lemma PredictionBits(status: byte, predictor: byte, mapper: byte)
    requires status <= 1 && predictor <= 7 && mapper <= 3
    ensures var b := 0 | (status << 5) | (predictor << 2) | mapper;
            b >> 6 == 0 && (b >> 5) & 1 == status && (b >> 2) & 7 == predictor && b & 3 == mapper
  {
  }

  lemma SampleIsLaidOut(f: CipFields)
    ensures SampleLayout(EncodedVariable(ZERO_VARIABLE, f).b1, f.blockSize, f.sense, f.resolution)
  {
    ResolutionValue(f.resolution);
    SampleBits(BlockCode(f.blockSize), SenseCode(f.sense), ResolutionBits(f.resolution));
  }

  lemma ResolutionValue(resolution: byte)
    ensures ResolutionBits(resolution) == if resolution < 32 then resolution else 0
  {
  }

  lemma SampleBits(block: byte, sense: byte, resolution: byte)
    requires block <= 3 && sense <= 1 && resolution <= 31
    ensures var b := 0 | (block << 6) | (sense << 5) | resolution;
            b >> 6 == block && (b >> 5) & 1 == sense && b & 0x1F == resolution
  {
  }

  lemma EntropyIsLaidOut(f: CipFields)
    ensures var v := EncodedVariable(ZERO_VARIABLE, f); EntropyLayout(v.b2, v.b3, f.resolution, f.cds)
  {
    CdsValue(f.cds);
    EntropyBits(RangeCode(f.resolution), CdsHigh(f.cds));
  }

  lemma CdsValue(cds: half)
    ensures CdsHigh(cds) <= 0xF
    ensures Join(CdsHigh(cds), if 1 <= cds <= 4096 then Lo(cds) else 0) == if 1 <= cds < 4096 then cds else 0
  {
  }

  lemma EntropyBits(range: byte, cds: byte)
    requires range <= 3 && cds <= 0xF
    ensures var b := 0 | 0x40 | (range << 4) | cds;
            b >> 6 == 1 && (b >> 4) & 3 == range && b & 0xF == cds
  {
  }

  lemma ExtendedIsLaidOut(f: CipFields)
    ensures var v := EncodedVariable(ZERO_VARIABLE, f);
            ExtendedLayout(v.b4, v.b5, f.blockSize, f.restricted, f.interval)
  {
    LessOneValue(f.interval);
    ExtendedBits(ExtendedBlockCode(f.blockSize), RestrictedCode(f.restricted), LessOne(f.interval));
  }

  lemma ExtendedBits(block: byte, restricted: byte, interval: byte)
    requires block <= 0xF && restricted <= 1
    ensures (0xC0 | block) >> 4 == 0xC && (0xC0 | block) & 0xF == block
    ensures var low := (restricted << 6) | (interval & 0x0F);
            low >> 4 == (if restricted == 1 then 4 else 0) && low & 0xF == interval & 0xF
  {
  }

  /** Over any buffer the first three variable bytes gain the bits written to a zeroed one; the others
      are replaced, the low count byte only by a count that fits. */
  function VariableOver(v: Six, n: Six, cds: half): Six {
    Six(v.b0 | n.b0, v.b1 | n.b1, v.b2 | n.b2, if 1 <= cds <= 4096 then n.b3 else v.b3, n.b4, n.b5)
  }

  lemma EncodedVariableOver(v: Six, f: CipFields)
    ensures EncodedVariable(v, f) == VariableOver(v, EncodedVariable(ZERO_VARIABLE, f), f.cds)
  {
    PredictionOver(v, f);
    SampleOver(v, f);
    EntropyOver(v, f);
  }

  lemma PredictionOver(v: Six, f: CipFields)
    ensures EncodedVariable(v, f).b0 == v.b0 | EncodedVariable(ZERO_VARIABLE, f).b0
  {
    OrTogether(v.b0, StatusCode(f.status) << 5, PredictorCode(f.predictor) << 2, MapperCode(f.mapper));
  }

  lemma SampleOver(v: Six, f: CipFields)
    ensures EncodedVariable(v, f).b1 == v.b1 | EncodedVariable(ZERO_VARIABLE, f).b1
  {
    OrTogether(v.b1, BlockCode(f.blockSize) << 6, SenseCode(f.sense) << 5, ResolutionBits(f.resolution));
  }

  lemma EntropyOver(v: Six, f: CipFields)
    ensures EncodedVariable(v, f).b2 == v.b2 | EncodedVariable(ZERO_VARIABLE, f).b2
  {
    OrTogether(v.b2, 0x40, RangeCode(f.resolution) << 4, CdsHigh(f.cds));
  }

  lemma OrTogether(v: byte, a: byte, b: byte, c: byte)
    ensures v | a | b | c == v | (0 | a | b | c)
  {
  }

  /** The buffers after `encode`, from the buffers before and the values passed. */
  ghost predicate Written(x: Four, v: Six, f: CipFields, x': Four, v': Six) {
    exists n: Four, w: Six ::
      && FixedLayout(n, f.grouping, f.technique, f.interval) && x' == n.(b0 := x.b0 | n.b0)
      && VariableLayout(w, f) && v' == VariableOver(v, w, f.cds)
  }

  lemma IsWritten(x: Four, v: Six, f: CipFields)
    ensures Written(x, v, f, EncodedFixed(x, f), EncodedVariable(v, f))
  {
    FixedIsLaidOut(f);
    VariableIsLaidOut(f);
    EncodedVariableOver(v, f);
    FixedOver(x, f);
  }

  lemma FixedOver(x: Four, f: CipFields)
    ensures var n := EncodedFixed(ZERO_FIXED, f); EncodedFixed(x, f) == n.(b0 := x.b0 | n.b0)
  {
    OrZero(Hi(f.grouping & 0xFFF));
  }

  // -------------------------------------------------------------- decode after encode

  /** The fixed part round-trips on all values, the grouping length modulo 4096 and the reference
      sample interval for all 256 bytes. */
  lemma FixedRoundTrip(f: CipFields)
    ensures var x := EncodedFixed(ZERO_FIXED, f);
            && DecodeGrouping(x) == f.grouping & 0xFFF
            && DecodeTechnique(x) == f.technique
            && DecodeInterval(x) == f.interval
  {
  }

  /** The first preprocessor byte. */
  lemma PredictionRoundTrip(f: CipFields)
    ensures var v := EncodedVariable(ZERO_VARIABLE, f);
            && (DecodeStatus(v) == f.status <==> f.status <= 1)
            && DecodeStatus(v) == StatusCode(f.status)
            && (DecodePredictor(v) == f.predictor <==> f.predictor in {0, 1, 7})
            && (DecodeMapper(v) == f.mapper <==> f.mapper in {0, 3})
  {
  }

  /** The second preprocessor byte: resolution 32 packs to 0, the other resolutions of the
      standard come back. */
  lemma SampleRoundTrip(f: CipFields)
    ensures var v := EncodedVariable(ZERO_VARIABLE, f);
            && (DecodeSense(v) == f.sense <==> f.sense <= 1)
            && DecodeSense(v) == SenseCode(f.sense)
            && (DecodeResolution(v) == f.resolution <==> f.resolution <= 31)
  {
  }

  /** Block sizes: the preprocessor subfield recovers 8 and 16, the extended parameters 8 to 64. */
  lemma BlockRoundTrip(f: CipFields)
    ensures var v := EncodedVariable(ZERO_VARIABLE, f);
            && (DecodeBlock(v) == f.blockSize <==> f.blockSize in {8, 16})
            && (DecodeExtendedBlock(v) == f.blockSize <==> f.blockSize in {8, 16, 32, 64})
  {
    BlockDecoded(f);
  }

  /** What each level decodes for any size; 0 sends the parser on to the next level. */
  function FirstLevel(size: half): half {
    if size == 0 || size == 8 then 8 else if size == 16 then 16 else 0
  }

  function SecondLevel(size: half): half {
    if size == 0 || size == 8 then 8 else if size in {16, 32, 64} then size else 0
  }

  lemma BlockDecoded(f: CipFields)
    ensures var v := EncodedVariable(ZERO_VARIABLE, f);
            DecodeBlock(v) == FirstLevel(f.blockSize) && DecodeExtendedBlock(v) == SecondLevel(f.blockSize)
  {
    BlockCodes(f.blockSize);
    BlockBits(BlockCode(f.blockSize), SenseCode(f.sense), ResolutionBits(f.resolution), ExtendedBlockCode(f.blockSize));
  }

  lemma BlockCodes(size: half)
    ensures BlockCode(size) <= 3 && ExtendedBlockCode(size) <= 15
  {
  }

  lemma BlockBits(block: byte, sense: byte, resolution: byte, extended: byte)
    requires block <= 3 && sense <= 1 && resolution <= 31 && extended <= 15
    ensures ((0 | (block << 6) | (sense << 5) | resolution) & 0xC0) >> 6 == block
    ensures (0xC0 | extended) & 0x0F == extended
  {
  }

  /** The extended parameters: only the low four bits of the interval less one are kept, and
      the restricted option decodes to a non-zero value exactly for 1, but to itself only for 0. */
  lemma ExtendedRoundTrip(f: CipFields)
    ensures var v := EncodedVariable(ZERO_VARIABLE, f);
            && DecodeExtendedInterval(v) == LessOne(f.interval) & 0x0F
            && (DecodeRestricted(v) != 0 <==> f.restricted == 1)
            && (DecodeRestricted(v) == f.restricted <==> f.restricted == 0)
            && DecodeRestricted(v) == (if f.restricted == 1 then 0x40 else 0)
  {
  }

  // -------------------------------------------------------------- the class

  // The switches below pick the code first and OR it in once; the source ORs inside each case and
  // writes nothing for an invalid argument, which is OR-ing 0.

  class CompressionIdentificationPacket {
    const fixed: array<byte>
    const variable: array<byte>

    /** `encode` runs in the constructor, over buffers assumed to start zeroed. */
    constructor (f: CipFields)
      ensures fresh(fixed) && fresh(variable) && Valid()
      ensures Fixed() == EncodedFixed(ZERO_FIXED, f) && Variable() == EncodedVariable(ZERO_VARIABLE, f)
      ensures FixedLayout(Fixed(), f.grouping, f.technique, f.interval) && VariableLayout(Variable(), f)
    {
      fixed := new byte[4](_ => 0);
      variable := new byte[6](_ => 0);
      new;
      assert Fixed() == ZERO_FIXED && Variable() == ZERO_VARIABLE;
      Encode(f);
      FixedIsLaidOut(f);
      VariableIsLaidOut(f);
    }

    /** The default constructor leaves the buffers unset. */
    constructor Blank()
      ensures fresh(fixed) && fresh(variable) && Valid()
    {
      fixed := new byte[4](_ => 0);
      variable := new byte[6](_ => 0);
    }

    /** `set_source_data_fixed` and `set_source_data_variable`. */
    method Set(x: Four, v: Six)
      requires Valid() && fixed != variable
      modifies fixed, variable
      ensures Fixed() == x && Variable() == v
    {
      fixed[0], fixed[1], fixed[2], fixed[3] := x.b0, x.b1, x.b2, x.b3;
      variable[0], variable[1], variable[2], variable[3] := v.b0, v.b1, v.b2, v.b3;
      variable[4], variable[5] := v.b4, v.b5;
    }

    ghost predicate Valid() { fixed.Length == 4 && variable.Length == 6 }

    function Fixed(): Four
      requires Valid()
      reads fixed
    {
      Four(fixed[0], fixed[1], fixed[2], fixed[3])
    }

    function Variable(): Six
      requires Valid()
      reads variable
    {
      Six(variable[0], variable[1], variable[2], variable[3], variable[4], variable[5])
    }

    /** `encode` over any buffers, by what it writes to zeroed ones and how those bits are laid out. */
    method Encode(f: CipFields)
      requires Valid()
      modifies fixed, variable
      ensures Fixed() == EncodedFixed(old(Fixed()), f) && Variable() == EncodedVariable(old(Variable()), f)
      ensures Written(old(Fixed()), old(Variable()), f, Fixed(), Variable())
    {
      IsWritten(Fixed(), Variable(), f);
      EncodeParts(f);
    }

    /** Its calls, in order. */
    method EncodeParts(f: CipFields)
      requires Valid()
      modifies fixed, variable
      ensures Fixed() == EncodedFixed(old(Fixed()), f) && Variable() == EncodedVariable(old(Variable()), f)
    {
      EncodeGroupingLength(f.grouping);
      fixed[2] := f.technique;
      fixed[3] := LessOne(f.interval);
      EncodePreprocessor(f);
      EncodeEntropyCoder(f);
      EncodeExtendedParameters(f);
    }

    method EncodeGroupingLength(length: half)
      requires Valid()
      modifies fixed
      ensures Fixed() == old(Fixed()).(b0 := old(fixed[0]) | Hi(length & 0xFFF), b1 := Lo(length & 0xFFF))
    {
      var reduced := length % 4096;
      assert reduced == length & 0xFFF;
      fixed[0] := fixed[0] | Hi(reduced);
      fixed[1] := Lo(reduced);
    }

    method EncodePreprocessor(f: CipFields)
      requires Valid()
      modifies variable
      ensures var v := EncodedVariable(old(Variable()), f);
              Variable() == old(Variable()).(b0 := v.b0, b1 := v.b1)
    {
      EncodePrediction(f);
      EncodeBlockSize(f.blockSize);
      EncodeSense(f.sense);
      EncodeResolution(f.resolution);
    }

    /** The subfield header 0, the status, the predictor and the mapper. */
    method EncodePrediction(f: CipFields)
      requires Valid()
      modifies variable
      ensures Variable() == old(Variable()).(b0 := EncodedVariable(old(Variable()), f).b0)
    {
      EncodeSubfieldHeader();
      EncodeStatus(f.status);
      EncodePredictor(f.predictor);
      EncodeMapper(f.mapper);
    }

    method EncodeSubfieldHeader()
      requires Valid()
      modifies variable
      ensures Variable() == old(Variable())
    {
      OrZero(variable[0]);
      variable[0] := variable[0] | (0 << 6);
    }

    method EncodeResolution(resolution: byte)
      requires Valid()
      modifies variable
      ensures Variable() == old(Variable()).(b1 := old(variable[1]) | ResolutionBits(resolution))
    {
      var bits: byte := 0;
      if 1 <= resolution <= 32 {
        bits := resolution & 0x1F;
      }
      variable[1] := variable[1] | bits;
    }

    method EncodeStatus(status: byte)
      requires Valid()
      modifies variable
      ensures Variable() == old(Variable()).(b0 := old(variable[0]) | (StatusCode(status) << 5))
    {
      var code: byte := 0;
      if status == 0 {
        code := 0;
      } else if status == 1 {
        code := 1;
      }
      variable[0] := variable[0] | (code << 5);
    }

    method EncodePredictor(predictor: byte)
      requires Valid()
      modifies variable
      ensures Variable() == old(Variable()).(b0 := old(variable[0]) | (PredictorCode(predictor) << 2))
    {
      var code: byte := 0;
      if predictor == 7 {
        code := 7;
      } else if predictor == 0 {
        code := 0;
      } else if predictor == 1 {
        code := 1;
      }
      variable[0] := variable[0] | (code << 2);
    }

    method EncodeMapper(mapper: byte)
      requires Valid()
      modifies variable
      ensures Variable() == old(Variable()).(b0 := old(variable[0]) | MapperCode(mapper))
    {
      var code: byte := 0;
      if mapper == 3 {
        code := 3 & 0x03;
      } else if mapper == 0 {
        code := 0 & 0x03;
      }
      variable[0] := variable[0] | code;
    }

    method EncodeBlockSize(size: half)
      requires Valid()
      modifies variable
      ensures Variable() == old(Variable()).(b1 := old(variable[1]) | (BlockCode(size) << 6))
    {
      var code: byte := 0;
      if size <= 0 {
      } else if size == 8 {
        code := 0;
      } else if size == 16 {
        code := 1;
      } else if size == 32 || size == 64 {
        code := 2;
      } else {
        code := 3;
      }
      variable[1] := variable[1] | (code << 6);
    }

    method EncodeSense(sense: byte)
      requires Valid()
      modifies variable
      ensures Variable() == old(Variable()).(b1 := old(variable[1]) | (SenseCode(sense) << 5))
    {
      var code: byte := 0;
      if sense == 1 {
        code := 1;
      } else if sense == 0 {
        code := 0;
      }
      variable[1] := variable[1] | (code << 5);
    }

    method EncodeEntropyCoder(f: CipFields)
      requires Valid()
      modifies variable
      ensures var v := EncodedVariable(old(Variable()), f);
              Variable() == old(Variable()).(b2 := v.b2, b3 := v.b3)
    {
      EncodeEntropyCoderHeader();
      EncodeResolutionRange(f.resolution);
      EncodeCdsNum(f.cds);
    }

    method EncodeEntropyCoderHeader()
      requires Valid()
      modifies variable
      ensures Variable() == old(Variable()).(b2 := old(variable[2]) | 0x40)
    {
      variable[2] := variable[2] | (1 << 6);
    }

    method EncodeCdsNum(num: half)
      requires Valid()
      modifies variable
      ensures Variable() == old(Variable()).(b2 := old(variable[2]) | CdsHigh(num),
                                             b3 := if 1 <= num <= 4096 then Lo(num) else old(variable[3]))
    {
      if !(1 <= num <= 4096) {
        OrZero(variable[2]);
        return;
      }
      variable[2] := variable[2] | (Hi(num) & 0x0F);
      variable[3] := Lo(num);
    }

    method EncodeResolutionRange(resolution: byte)
      requires Valid()
      modifies variable
      ensures Variable() == old(Variable()).(b2 := old(variable[2]) | (RangeCode(resolution) << 4))
    {
      var code: byte := 0;
      if resolution <= 0 {
      } else if resolution <= 8 {
        code := 1;
      } else if resolution <= 16 {
        code := 2;
      } else if resolution <= 32 {
        code := 3;
      } else {
        code := 0;
      }
      variable[2] := variable[2] | (code << 4);
    }

    /** The subfield is cleared before it is encoded. */
    method EncodeExtendedParameters(f: CipFields)
      requires Valid()
      modifies variable
      ensures var v := EncodedVariable(old(Variable()), f);
              Variable() == old(Variable()).(b4 := v.b4, b5 := v.b5)
    {
      variable[4] := 0;
      variable[5] := 0;
      variable[4] := variable[4] | (3 << 6);
      EncodeExtendedBlockSize(f.blockSize);
      EncodeRestricted(f.restricted);
      variable[5] := variable[5] | (LessOne(f.interval) & 0x0F);
      OrZero(RestrictedCode(f.restricted) << 6);
    }

    method EncodeRestricted(option: byte)
      requires Valid()
      modifies variable
      ensures Variable() == old(Variable()).(b5 := old(variable[5]) | (RestrictedCode(option) << 6))
    {
      var code: byte := 0;
      if option == 0 {
        code := 0;
      } else if option == 1 {
        code := 1;
      }
      variable[5] := variable[5] | (code << 6);
    }

    method EncodeExtendedBlockSize(size: half)
      requires Valid()
      modifies variable
      ensures Variable() == old(Variable()).(b4 := old(variable[4]) | ExtendedBlockCode(size))
    {
      var code: byte := 0;
      if size <= 0 {
      } else if size == 8 {
        code := 0;
      } else if size == 16 {
        code := 1;
      } else if size == 32 {
        code := 2;
      } else if size == 64 {
        code := 3;
      } else {
        code := 0xF;
      }
      variable[4] := variable[4] | code;
    }
  }
}
