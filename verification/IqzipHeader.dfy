/**
 The header of an iqzip file: primary header, Compression Identification Packet, and the iqzip
 extension for block sizes above 64. It is 14, 16 or 18 bytes long and describes its own length.
 */
module IqzipHeader {
  import opened Bytes
  import P = PrimaryHeader
  import C = Cip

  /** The constructor arguments of the compressor. */
  datatype Params = Params(
    version: byte, kind: byte, secFlag: byte, apid: half, seqFlags: byte, seqCount: half, dataLength: half,
    grouping: half, technique: byte, interval: byte, status: byte, predictor: byte, mapper: byte,
    blockSize: half, sense: byte, resolution: byte, cds: half, restricted: byte, endianness: byte)
  {
    function Primary(): P.Fields {
      P.Fields(version, kind, secFlag, apid, seqFlags, seqCount, dataLength)
    }

    function Packet(): C.CipFields {
      C.CipFields(grouping, technique, interval, status, predictor, mapper, blockSize, sense, resolution, cds,
                  restricted)
    }
  }

  // -------------------------------------------------------------- the extension word
  // A 16-bit word, stored low byte first: block size in bits 0-3, interval in bits 4-14,
  // endianness in bit 15.

  function ExtensionCode(size: half): half {
    if size == 128 then 0
    else if size == 256 then 1
    else if size == 512 then 2
    else if size == 1024 then 3
    else if size == 2048 then 4
    else if size == 4096 then 5
    else if size == 8192 then 6
    else if size == 16384 then 7
    else if size == 32768 then 8
    else 0
  }

  /** `(interval - 1) % 2048` in `int`, stored in 11 bits: 0 gives -1, which is stored as 2047. */
  function ExtensionInterval(interval: half): half {
    if interval == 0 then 2047 else (interval - 1) & 0x7FF
  }

  function SetBlock(w: half, size: half): half {
    (w & 0xFFF0) | ExtensionCode(size)
  }

  /** Only 0 and 1 are written. */
  function SetEndianness(w: half, endianness: byte): half {
    if endianness == 1 then w | 0x8000 else if endianness == 0 then w & 0x7FFF else w
  }

  function SetInterval(w: half, interval: half): half {
    (w & 0x800F) | (ExtensionInterval(interval) << 4)
  }

  /** `encode` over a word that held `w`. */
  function EncodedWord(w: half, size: half, endianness: byte, interval: half): half {
    SetInterval(SetEndianness(SetBlock(w, size), endianness), interval)
  }

  function WordOf(w: half, code: half, endianness: byte, interval: half): half {
    (SetEndianness((w & 0xFFF0) | code, endianness) & 0x800F) | (interval << 4)
  }

  /** The word is assumed to start zeroed. */
  function ExtensionWord(size: half, endianness: byte, interval: half): half {
    EncodedWord(0, size, endianness, interval)
  }

  function DecodeExtensionBlock(w: half): half {
    var code := w & 0xF;
    if code == 0 then 128
    else if code == 1 then 256
    else if code == 2 then 512
    else if code == 3 then 1024
    else if code == 4 then 2048
    else if code == 5 then 4096
    else if code == 6 then 8192
    else if code == 7 then 16384
    else if code == 8 then 32768
    else if code == 9 then 65535
    else 0
  }

  function DecodeEndianness(w: half): half { w >> 15 }

  function DecodeExtensionInterval(w: half): half { (w >> 4) & 0x7FF }

  predicate ExtensionSize(size: half) {
    size in {128, 256, 512, 1024, 2048, 4096, 8192, 16384, 32768}
  }

  /** Encoding into a word that held anything: the powers of two from 128 to 32768 are recovered, and
      every other size, 65535 included, comes back as 128. The endianness bit is the option when that
      is 0 or 1, and the old bit otherwise. The interval comes back less one, modulo 2048. */
  lemma ExtensionOverAny(w: half, size: half, endianness: byte, interval: half)
    ensures var word := EncodedWord(w, size, endianness, interval);
            && DecodeExtensionBlock(word) == (if ExtensionSize(size) then size else 128)
            && DecodeEndianness(word) ==
               (if endianness == 1 then 1 else if endianness == 0 then 0 else DecodeEndianness(w))
            && DecodeExtensionInterval(word) == (interval - 1) & 0x7FF
  {
    ExtensionCodeRange(size);
    ExtensionIntervalRange(interval);
    ByParts(w, size, endianness, interval);
    WordOfParts(w, ExtensionCode(size), endianness, ExtensionInterval(interval));
    CodeDecoded(size, EncodedWord(w, size, endianness, interval));
    ExtensionIntervalBits(interval);
  }

  lemma ByParts(w: half, size: half, endianness: byte, interval: half)
    ensures EncodedWord(w, size, endianness, interval) ==
            WordOf(w, ExtensionCode(size), endianness, ExtensionInterval(interval))
  {
  }

  lemma WordOfParts(w: half, code: half, endianness: byte, interval: half)
    requires code <= 8 && interval <= 0x7FF
    ensures WordOf(w, code, endianness, interval) & 0xF == code
    ensures DecodeExtensionInterval(WordOf(w, code, endianness, interval)) == interval
    ensures DecodeEndianness(WordOf(w, code, endianness, interval)) ==
            if endianness == 1 then 1 else if endianness == 0 then 0 else DecodeEndianness(w)
  {
  }

  /** The bits of the extension word from the values passed: the size is 128 times a power of two, and
      the interval is stored less one, modulo 2048. */
  predicate ExtensionLayout(word: half, size: half, endianness: byte, interval: half) {
    && (if ExtensionSize(size) then word & 0xF <= 8 && 128 << (word & 0xF) == size else word & 0xF == 0)
    && (word >> 4) & 0x7FF == (interval - 1) & 0x7FF
    && (endianness <= 1 ==> word >> 15 == endianness as half)
  }

  lemma ExtensionIsLaidOut(w: half, size: half, endianness: byte, interval: half)
    ensures ExtensionLayout(EncodedWord(w, size, endianness, interval), size, endianness, interval)
    ensures endianness > 1 ==> EncodedWord(w, size, endianness, interval) >> 15 == w >> 15
  {
    ExtensionCodeRange(size);
    ExtensionIntervalRange(interval);
    ByParts(w, size, endianness, interval);
    WordOfParts(w, ExtensionCode(size), endianness, ExtensionInterval(interval));
    ExtensionIntervalBits(interval);
    CodeIsPower(size);
  }

  lemma CodeIsPower(size: half)
    ensures if ExtensionSize(size) then 128 << ExtensionCode(size) == size else ExtensionCode(size) == 0
  {
  }

  lemma CodeDecoded(size: half, w: half)
    requires w & 0xF == ExtensionCode(size)
    ensures DecodeExtensionBlock(w) == if ExtensionSize(size) then size else 128
  {
  }

  /** Over a zeroed word a size is recovered exactly when it has a code of its own. */
  lemma ExtensionRoundTrip(size: half, endianness: byte, interval: half)
    ensures var w := ExtensionWord(size, endianness, interval);
            && (DecodeExtensionBlock(w) == size <==> ExtensionSize(size))
            && DecodeEndianness(w) == (if endianness == 1 then 1 else 0)
            && DecodeExtensionInterval(w) == (interval - 1) & 0x7FF
  {
    ExtensionOverAny(0, size, endianness, interval);
  }

  lemma ExtensionCodeRange(size: half)
    ensures ExtensionCode(size) <= 8
  {
  }

  lemma ExtensionIntervalRange(interval: half)
    ensures ExtensionInterval(interval) <= 0x7FF
  {
  }

  lemma ExtensionIntervalBits(interval: half)
    ensures ExtensionInterval(interval) == (interval - 1) & 0x7FF
  {
  }

  // -------------------------------------------------------------- writing

  /** The interval is a byte widened to 16 bits, so the middle test never decides. */
  predicate HasExtended(p: Params) {
    p.blockSize > 16 || p.interval as half > 255 || p.restricted != 0
  }

  predicate HasExtension(p: Params) {
    p.blockSize > 64
  }

  function Fixed(p: Params): Four { C.EncodedFixed(C.ZERO_FIXED, p.Packet()) }

  function Variable(p: Params): Six { C.EncodedVariable(C.ZERO_VARIABLE, p.Packet()) }

  function Extension(p: Params): half { ExtensionWord(p.blockSize, p.endianness, p.interval as half) }

  function Mandatory(h: Six, x: Four, v: Six): (s: seq<byte>)
    ensures |s| == 14
  {
    h.ToSeq() + x.ToSeq() + [v.b0, v.b1, v.b2, v.b3]
  }

  /** The bytes `write_header_to_file` puts in the file. */
  function WrittenHeader(p: Params): (s: seq<byte>)
    ensures |s| == 14 + (if HasExtended(p) then 2 else 0) + (if HasExtension(p) then 2 else 0)
  {
    Mandatory(P.Encoded(P.ZERO, p.Primary()), Fixed(p), Variable(p))
    + (if HasExtended(p) then [Variable(p).b4, Variable(p).b5] else [])
    + (if HasExtension(p) then [Lo(Extension(p)), Hi(Extension(p))] else [])
  }

  /** The file's header, byte by byte, from the constructor arguments. */
  predicate FileLayout(w: seq<byte>, p: Params) {
    && |w| == (if p.blockSize > 64 then 18 else if p.blockSize > 16 || p.restricted != 0 then 16 else 14)
    && P.HeaderLayout(Six(w[0], w[1], w[2], w[3], w[4], w[5]),
                      p.version, p.kind, p.secFlag, p.apid, p.seqCount, p.dataLength)
    && C.FixedLayout(Four(w[6], w[7], w[8], w[9]), p.grouping, p.technique, p.interval)
    && C.PredictionLayout(w[10], p.status, p.predictor, p.mapper)
    && C.SampleLayout(w[11], p.blockSize, p.sense, p.resolution)
    && C.EntropyLayout(w[12], w[13], p.resolution, p.cds)
    && (|w| >= 16 ==> C.ExtendedLayout(w[14], w[15], p.blockSize, p.restricted, p.interval))
    && (|w| == 18 ==> ExtensionLayout(Join(w[17], w[16]), p.blockSize, p.endianness, p.interval as half))
  }

  lemma FileIsLaidOut(p: Params)
    ensures FileLayout(WrittenHeader(p), p)
  {
    P.IsLaidOut(p.Primary());
    C.FixedIsLaidOut(p.Packet());
    C.VariableIsLaidOut(p.Packet());
    ExtensionIsLaidOut(0, p.blockSize, p.endianness, p.interval as half);
    JoinSplits(Extension(p));
    BytesOfWritten(p);
  }

  lemma BytesOfWritten(p: Params)
    ensures var w, h, x, v := WrittenHeader(p), P.Encoded(P.ZERO, p.Primary()), Fixed(p), Variable(p);
            && |w| == (if p.blockSize > 64 then 18 else if p.blockSize > 16 || p.restricted != 0 then 16 else 14)
            && Six(w[0], w[1], w[2], w[3], w[4], w[5]) == h && Four(w[6], w[7], w[8], w[9]) == x
            && w[10] == v.b0 && w[11] == v.b1 && w[12] == v.b2 && w[13] == v.b3
            && (|w| >= 16 ==> w[14] == v.b4 && w[15] == v.b5)
            && (|w| == 18 ==> w[16] == Lo(Extension(p)) && w[17] == Hi(Extension(p)))
  {
    WrittenLength(p);
    assert WrittenHeader(p)[..14] == Mandatory(P.Encoded(P.ZERO, p.Primary()), Fixed(p), Variable(p));
    MandatoryAt(P.Encoded(P.ZERO, p.Primary()), Fixed(p), Variable(p), WrittenHeader(p));
  }

  lemma WrittenLength(p: Params)
    ensures HasExtended(p) <==> p.blockSize > 16 || p.restricted != 0
    ensures HasExtension(p) ==> HasExtended(p)
  {
  }

  // -------------------------------------------------------------- parsing

  const MAX_HEADER_SIZE: nat := 18

  datatype Parsed = Parsed(primary: Six, fixed: Four, variable: Six, extension: half, size: nat)

  datatype ParseResult = Ok(header: Parsed) | FileReadingError

  function DecodedSize(v: Six): nat {
    if C.DecodeBlock(v) != 0 then 14 else if C.DecodeExtendedBlock(v) != 0 then 16 else 18
  }

  /** The header length by the raw codes: 14 for preprocessor block size codes 0 and 1, otherwise 16
      for extended codes up to 3, otherwise 18. */
  function LengthInBits(sample: byte, extended: byte): nat {
    if sample >> 6 <= 1 then 14 else if extended & 0xF <= 3 then 16 else 18
  }

  lemma LengthBits(v: Six)
    ensures DecodedSize(v) == LengthInBits(v.b1, v.b4)
  {
    TopBits(v.b1);
  }

  lemma TopBits(b: byte)
    ensures (b & 0xC0) >> 6 == b >> 6 <= 3
  {
  }

  /** The extension's block size code: powers of two, then 65535, then nothing. */
  lemma ExtensionBlockCodes(w: half)
    ensures w & 0xF <= 8 ==> DecodeExtensionBlock(w) == 128 << (w & 0xF)
    ensures w & 0xF == 9 ==> DecodeExtensionBlock(w) == 65535
    ensures w & 0xF > 9 ==> DecodeExtensionBlock(w) == 0
  {
    if w & 0xF <= 8 {
      ShiftedUnit(w & 0xF);
    }
  }

  lemma ShiftedUnit(code: half)
    requires code <= 8
    ensures (128 as half) << code == if code == 0 then 128 else if code == 1 then 256 else if code == 2 then 512
            else if code == 3 then 1024 else if code == 4 then 2048 else if code == 5 then 4096
            else if code == 6 then 8192 else if code == 7 then 16384 else 32768
  {
  }

  /** `parse_header_from_file`: 18 bytes are read whatever the header's real length. */
  function Parse(file: seq<byte>): ParseResult {
    if |file| < MAX_HEADER_SIZE then FileReadingError
    else
      var v := SixAt(file, 10);
      Ok(Parsed(SixAt(file, 0), FourAt(file, 6), v, Join(file[17], file[16]), DecodedSize(v)))
  }

  /** `decode_block_size`: preprocessor, then extended parameters, then extension. */
  function DecodeBlockSize(d: Parsed): half {
    Cascade(C.DecodeBlock(d.variable), C.DecodeExtendedBlock(d.variable), DecodeExtensionBlock(d.extension))
  }

  function Cascade(first: half, second: half, third: half): half {
    if first != 0 then first else if second != 0 then second else third
  }

  /** What the parser finds behind a written header: everything that was written, and payload
      bytes where a subfield was not written. */
  lemma ParseWritten(p: Params, payload: seq<byte>)
    requires |WrittenHeader(p)| + |payload| >= MAX_HEADER_SIZE
    ensures var r := Parse(WrittenHeader(p) + payload);
            && r.Ok?
            && r.header.primary == P.Encoded(P.ZERO, p.Primary())
            && r.header.fixed == Fixed(p)
            && r.header.variable ==
                 (if HasExtended(p) then Variable(p) else Variable(p).(b4 := payload[0], b5 := payload[1]))
            && r.header.extension ==
                 (if HasExtension(p) then Extension(p)
                  else if HasExtended(p) then Join(payload[1], payload[0])
                  else Join(payload[3], payload[2]))
  {
    var m := Mandatory(P.Encoded(P.ZERO, p.Primary()), Fixed(p), Variable(p));
    var file := WrittenHeader(p) + payload;
    assert file[..14] == m;
    MandatoryAt(P.Encoded(P.ZERO, p.Primary()), Fixed(p), Variable(p), file);
    JoinSplits(Extension(p));
  }

  lemma MandatoryAt(h: Six, x: Four, v: Six, file: seq<byte>)
    requires |file| >= 14 && file[..14] == Mandatory(h, x, v)
    ensures SixAt(file, 0) == h && FourAt(file, 6) == x
    ensures file[10] == v.b0 && file[11] == v.b1 && file[12] == v.b2 && file[13] == v.b3
  {
    assert forall i :: 0 <= i < 14 ==> file[i] == file[..14][i];
  }

  /** The first level is always decoded as written, the second when it was written. */
  lemma LevelsOfWritten(p: Params, payload: seq<byte>)
    requires |WrittenHeader(p)| + |payload| >= MAX_HEADER_SIZE
    ensures var r := Parse(WrittenHeader(p) + payload);
            && r.Ok?
            && C.DecodeBlock(r.header.variable) == C.FirstLevel(p.blockSize)
            && (HasExtended(p) ==> C.DecodeExtendedBlock(r.header.variable) == C.SecondLevel(p.blockSize))
            && (HasExtension(p) ==> r.header.extension == Extension(p))
  {
    ParseWritten(p, payload);
    C.BlockDecoded(p.Packet());
  }

  /** The parameters the primary header has room for. */
  function Carried(p: Params): P.Fields {
    P.Fields(version := p.version, kind := p.kind, secFlag := p.secFlag, apid := p.apid,
             seqFlags := p.seqFlags, seqCount := p.seqCount & 0x3FFF, dataLength := p.dataLength)
  }

  /** Behind any payload the primary header's decoders return the parameters themselves, the count
      modulo 16384, exactly for parameters in range with sequence flags 0. */
  lemma PrimaryReadBack(p: Params, payload: seq<byte>)
    requires |WrittenHeader(p)| + |payload| >= MAX_HEADER_SIZE
    ensures var r := Parse(WrittenHeader(p) + payload);
            r.Ok? &&
            (P.Decode(r.header.primary) == Carried(p) <==>
             p.version <= 7 && p.kind <= 1 && p.secFlag <= 1 && p.apid <= 0x7FF && p.seqFlags == 0)
  {
    ParseWritten(p, payload);
    PrimaryDecoded(p);
  }

  lemma PrimaryDecoded(p: Params)
    ensures P.Decode(P.Encoded(P.ZERO, p.Primary())) == Carried(p) <==>
            p.version <= 7 && p.kind <= 1 && p.secFlag <= 1 && p.apid <= 0x7FF && p.seqFlags == 0
  {
    CarriedFields(p);
    P.EncodeThenDecode(p.Primary());
  }

  lemma CarriedFields(p: Params)
    ensures Carried(p) == p.Primary().(seqCount := p.Primary().seqCount & 0x3FFF)
    ensures P.InRange(p.Primary()) && p.Primary().seqFlags == 0 <==>
            p.version <= 7 && p.kind <= 1 && p.secFlag <= 1 && p.apid <= 0x7FF && p.seqFlags == 0
  {
  }

  /** So do the packet's, field by field exactly for the values the writer has codes for. */
  lemma PacketReadBack(p: Params, payload: seq<byte>)
    requires |WrittenHeader(p)| + |payload| >= MAX_HEADER_SIZE
    ensures var r := Parse(WrittenHeader(p) + payload);
            r.Ok? && FixedIs(r.header.fixed, p) && PreprocessorIs(r.header.variable, p)
  {
    ParseWritten(p, payload);
    C.FixedRoundTrip(p.Packet());
    WrittenPreprocessor(p, Parse(WrittenHeader(p) + payload).header.variable);
  }

  predicate FixedIs(x: Four, p: Params) {
    && C.DecodeGrouping(x) == p.grouping & 0xFFF
    && C.DecodeTechnique(x) == p.technique && C.DecodeInterval(x) == p.interval
  }

  predicate PreprocessorIs(v: Six, p: Params) {
    && (C.DecodeStatus(v) == p.status <==> p.status <= 1)
    && (C.DecodePredictor(v) == p.predictor <==> p.predictor in {0, 1, 7})
    && (C.DecodeMapper(v) == p.mapper <==> p.mapper in {0, 3})
    && (C.DecodeSense(v) == p.sense <==> p.sense <= 1)
    && (C.DecodeResolution(v) == p.resolution <==> p.resolution <= 31)
  }

  lemma WrittenPreprocessor(p: Params, v: Six)
    requires v.b0 == Variable(p).b0 && v.b1 == Variable(p).b1
    ensures PreprocessorIs(v, p)
  {
    PredictionRead(p, v);
    SampleRead(p, v);
  }

  lemma PredictionRead(p: Params, v: Six)
    requires v.b0 == Variable(p).b0
    ensures C.DecodeStatus(v) == p.status <==> p.status <= 1
    ensures C.DecodePredictor(v) == p.predictor <==> p.predictor in {0, 1, 7}
    ensures C.DecodeMapper(v) == p.mapper <==> p.mapper in {0, 3}
  {
    C.PredictionRoundTrip(p.Packet());
  }

  lemma SampleRead(p: Params, v: Six)
    requires v.b1 == Variable(p).b1
    ensures C.DecodeSense(v) == p.sense <==> p.sense <= 1
    ensures C.DecodeResolution(v) == p.resolution <==> p.resolution <= 31
  {
    C.SampleRoundTrip(p.Packet());
  }

  predicate LengthIsSound(p: Params) {
    (p.blockSize in {0, 8, 16} && p.restricted == 0) || p.blockSize in {32, 64} || p.blockSize > 64
  }

  /** The parser finds the real header length exactly for block sizes 0, 8 and 16 without
      restricted codes, for 32 and 64, and for everything above 64, whatever the payload. */
  lemma HeaderLengthAgreement(p: Params, payload: seq<byte>)
    requires |WrittenHeader(p)| + |payload| >= MAX_HEADER_SIZE
    ensures var r := Parse(WrittenHeader(p) + payload);
            r.Ok? && (r.header.size == |WrittenHeader(p)| <==> LengthIsSound(p))
  {
    LevelsOfWritten(p, payload);
    LengthByLevels(p, C.DecodeExtendedBlock(Parse(WrittenHeader(p) + payload).header.variable));
  }

  lemma LengthByLevels(p: Params, second: half)
    requires HasExtended(p) ==> second == C.SecondLevel(p.blockSize)
    ensures (if C.FirstLevel(p.blockSize) != 0 then 14 else if second != 0 then 16 else 18) ==
            14 + (if HasExtended(p) then 2 else 0) + (if HasExtension(p) then 2 else 0)
            <==> LengthIsSound(p)
  {
  }

  predicate RecoverableSize(size: half) {
    size in {8, 16, 32, 64} || ExtensionSize(size)
  }

  /** The block size comes back exactly for the powers of two from 8 to 32768, whatever the
      other parameters and the payload are. */
  lemma BlockSizeRecovered(p: Params, payload: seq<byte>)
    requires |WrittenHeader(p)| + |payload| >= MAX_HEADER_SIZE
    ensures var r := Parse(WrittenHeader(p) + payload);
            r.Ok? && (DecodeBlockSize(r.header) == p.blockSize <==> RecoverableSize(p.blockSize))
  {
    LevelsOfWritten(p, payload);
    var d := Parse(WrittenHeader(p) + payload).header;
    ThirdLevel(p, d);
    SecondLevelRange(d.variable);
    SizeByLevels(p, C.DecodeExtendedBlock(d.variable), DecodeExtensionBlock(d.extension));
  }

  lemma ThirdLevel(p: Params, d: Parsed)
    requires HasExtension(p) ==> d.extension == Extension(p)
    ensures DecodeExtensionBlock(d.extension) == 0 || DecodeExtensionBlock(d.extension) >= 128
    ensures HasExtension(p) ==> (DecodeExtensionBlock(d.extension) == p.blockSize <==> ExtensionSize(p.blockSize))
  {
    ExtensionRoundTrip(p.blockSize, p.endianness, p.interval as half);
    ExtensionRange(d.extension);
  }

  lemma SizeByLevels(p: Params, second: half, third: half)
    requires HasExtended(p) ==> second == C.SecondLevel(p.blockSize)
    requires second in {0, 8, 16, 32, 64}
    requires third == 0 || third >= 128
    requires HasExtension(p) ==> (third == p.blockSize <==> ExtensionSize(p.blockSize))
    ensures Cascade(C.FirstLevel(p.blockSize), second, third) == p.blockSize
            <==>
            RecoverableSize(p.blockSize)
  {
  }

  lemma SecondLevelRange(v: Six)
    ensures C.DecodeExtendedBlock(v) in {0, 8, 16, 32, 64}
  {
  }

  lemma ExtensionRange(w: half)
    ensures DecodeExtensionBlock(w) == 0 || DecodeExtensionBlock(w) >= 128
  {
  }

  // -------------------------------------------------------------- the class

  class IqzipCompressionHeader {
    const primary: P.CcsdsPrimaryHeader
    const cip: C.CompressionIdentificationPacket
    var blockSize: half
    var interval: half
    var restricted: byte
    var extension: half

    ghost predicate Valid()
    {
      && primary.Valid() && cip.Valid()
      && primary.d != cip.fixed && primary.d != cip.variable && cip.fixed != cip.variable
    }

    /** The object holds what a header with these parameters encodes to. */
    ghost predicate Holds(p: Params)
      requires Valid()
      reads this, primary.d, cip.fixed, cip.variable
    {
      && primary.Bytes() == P.Encoded(P.ZERO, p.Primary())
      && cip.Fixed() == Fixed(p) && cip.Variable() == Variable(p)
      && extension == Extension(p)
      && blockSize == p.blockSize && interval == p.interval as half && restricted == p.restricted
    }

    /** The buffers' bits, from the parameters themselves. */
    ghost predicate LaidOut(p: Params)
      requires Valid()
      reads this, primary.d, cip.fixed, cip.variable
    {
      var v := cip.Variable();
      && P.HeaderLayout(primary.Bytes(), p.version, p.kind, p.secFlag, p.apid, p.seqCount, p.dataLength)
      && C.FixedLayout(cip.Fixed(), p.grouping, p.technique, p.interval)
      && C.PredictionLayout(v.b0, p.status, p.predictor, p.mapper)
      && C.SampleLayout(v.b1, p.blockSize, p.sense, p.resolution)
      && C.EntropyLayout(v.b2, v.b3, p.resolution, p.cds)
      && C.ExtendedLayout(v.b4, v.b5, p.blockSize, p.restricted, p.interval)
      && ExtensionLayout(extension, p.blockSize, p.endianness, p.interval as half)
    }

    lemma HoldsIsLaidOut(p: Params)
      requires Valid() && Holds(p)
      ensures LaidOut(p)
    {
      P.IsLaidOut(p.Primary());
      C.FixedIsLaidOut(p.Packet());
      C.VariableIsLaidOut(p.Packet());
      ExtensionIsLaidOut(0, p.blockSize, p.endianness, p.interval as half);
    }

    constructor (p: Params)
      ensures Valid() && Holds(p) && LaidOut(p)
      ensures fresh(primary.d) && fresh(cip.fixed) && fresh(cip.variable)
    {
      blockSize, interval, restricted := p.blockSize, p.interval as half, p.restricted;
      var word := EncodeExtension(0, p.blockSize, p.endianness, p.interval as half);
      extension := word;
      primary := new P.CcsdsPrimaryHeader(p.Primary());
      cip := new C.CompressionIdentificationPacket(p.Packet());
      new;
      HoldsIsLaidOut(p);
    }

    /** The decompressor's object, before a header has been parsed into it. */
    constructor Blank()
      ensures Valid()
      ensures fresh(primary.d) && fresh(cip.fixed) && fresh(cip.variable)
    {
      blockSize, interval, restricted, extension := 0, 0, 0, 0;
      primary := new P.CcsdsPrimaryHeader.Blank();
      cip := new C.CompressionIdentificationPacket.Blank();
    }

    /** `encode`: block size, endianness, interval. */
    static method EncodeExtension(start: half, size: half, endianness: byte, interval: half) returns (word: half)
      ensures word == EncodedWord(start, size, endianness, interval)
      ensures DecodeExtensionBlock(word) == if ExtensionSize(size) then size else 128
      ensures DecodeEndianness(word) ==
              if endianness == 1 then 1 else if endianness == 0 then 0 else DecodeEndianness(start)
      ensures DecodeExtensionInterval(word) == (interval - 1) & 0x7FF
      ensures ExtensionLayout(word, size, endianness, interval)
      ensures endianness > 1 ==> word >> 15 == start >> 15
    {
      word := SetBlock(start, size);
      word := SetEndianness(word, endianness);
      word := SetInterval(word, interval);
      assert word == EncodedWord(start, size, endianness, interval);
      ExtensionIsLaidOut(start, size, endianness, interval);
      ExtensionOverAny(start, size, endianness, interval);
    }

    /** `write_header_to_file`, on the bytes of the file. */
    method WriteHeader(ghost p: Params) returns (file: seq<byte>)
      requires Valid() && Holds(p)
      ensures file == WrittenHeader(p) && FileLayout(file, p)
    {
      file := WriteParts(p);
      FileIsLaidOut(p);
    }

    /** Its writes and their conditions. */
    method WriteParts(ghost p: Params) returns (file: seq<byte>)
      requires Valid() && Holds(p)
      ensures file == WrittenHeader(p)
    {
      var v := cip.Variable();
      file := primary.Bytes().ToSeq();
      file := file + cip.Fixed().ToSeq();
      file := file + [v.b0, v.b1, v.b2, v.b3];
      if blockSize > 16 || interval > 255 || restricted != 0 {
        file := file + [v.b4, v.b5];
      }
      if blockSize > 64 {
        file := file + [Lo(extension), Hi(extension)];
      }
    }

    /** The object's buffers as the parser's result. */
    ghost function Contents(size: nat): Parsed
      requires Valid()
      reads this, primary.d, cip.fixed, cip.variable
    {
      Parsed(primary.Bytes(), cip.Fixed(), cip.Variable(), extension, size)
    }

    /** `parse_header_from_file`. A file shorter than 18 bytes throws and leaves the object alone. */
    method ParseHeader(file: seq<byte>) returns (ok: bool, size: nat)
      requires Valid()
      modifies this, primary.d, cip.fixed, cip.variable
      ensures ok <==> Parse(file).Ok?
      ensures ok ==> Parse(file) == Ok(Contents(size))
      ensures ok <==> |file| >= 18
      ensures ok ==> primary.d[..] == file[..6] && cip.fixed[..] == file[6..10] && cip.variable[..] == file[10..16]
      ensures ok ==> extension == Join(file[17], file[16]) && size == LengthInBits(file[11], file[14])
      ensures ok ==> blockSize == Cascade(C.DecodeBlock(cip.Variable()), C.DecodeExtendedBlock(cip.Variable()), 0)
      ensures !ok ==> unchanged(this, primary.d, cip.fixed, cip.variable)
    {
      size := 0;
      if |file| < MAX_HEADER_SIZE {
        return false, 0;
      }
      primary.Set(SixAt(file, 0));
      cip.Set(FourAt(file, 6), SixAt(file, 10));
      extension := Join(file[17], file[16]);
      LengthBits(cip.Variable());
      ok, size := true, 14;
      blockSize := C.DecodeBlock(cip.Variable());
      if blockSize == 0 {
        blockSize := C.DecodeExtendedBlock(cip.Variable());
        size := size + 2;
        if blockSize == 0 {
          size := size + 2;
        }
      }
    }
  }
}
