/**
 From header parameters to the codec configuration (`init_aec_stream`), on the compressor's side
 from the constructor arguments, on the decompressor's side from the parsed header.
 */
module AecConf {
  import opened Bytes
  import C = Cip
  import opened IqzipHeader

  // The flag values of libaec's public header, which is not part of this model; the file only
  // needs them to be distinct powers of two.
  const AEC_DATA_SIGNED: bv32 := 1
  const AEC_DATA_3BYTE: bv32 := 2
  const AEC_DATA_MSB: bv32 := 4
  const AEC_NOT_ENFORCE: bv32 := 64
  // Exponents of AEC_DATA_SIGNED, AEC_DATA_MSB, AEC_DATA_PREPROCESS and AEC_RESTRICTED.
  const SIGNED_SHIFT: nat := 0
  const MSB_SHIFT: nat := 2
  const PREPROCESS_SHIFT: nat := 3
  const RESTRICTED_SHIFT: nat := 4

  datatype AecConf = AecConf(bitsPerSample: byte, blockSize: half, rsi: byte, flags: bv32)

  /** The members of `iqzip_impl` the configuration depends on. */
  datatype Settings = Settings(
    resolution: byte, blockSize: half, sense: byte, endianness: byte, status: byte, restricted: byte, interval: byte)

  function Flags(sense: byte, endianness: byte, status: byte, restricted: byte): bv32 {
    AEC_DATA_3BYTE | AEC_NOT_ENFORCE
    | (!((sense as bv32) << 0) & AEC_DATA_SIGNED)
    | (!((endianness as bv32) << 2) & AEC_DATA_MSB)
    | ((status as bv32) << 3)
    | ((restricted as bv32) << 4)
  }

  function ConfOf(s: Settings): AecConf {
    AecConf(s.resolution, s.blockSize, s.interval, Flags(s.sense, s.endianness, s.status, s.restricted))
  }

  /** What the codec is told, from the values passed, for all values. Signedness and byte order are
      inverted into bits 0 and 2, bit 1 is 3-byte samples, and bit 6 not to enforce; status and restricted
      codes are not masked. */
  predicate Says(conf: AecConf, resolution: byte, blockSize: half, interval: byte,
                 sense: byte, endianness: byte, status: byte, restricted: byte)
  {
    && conf.bitsPerSample == resolution && conf.blockSize == blockSize && conf.rsi == interval
    && FlagsSay(conf.flags, sense, endianness, status, restricted)
  }

  predicate FlagsSay(flags: bv32, sense: byte, endianness: byte, status: byte, restricted: byte) {
    && (flags & 1 != 0 <==> sense & 1 == 0)
    && flags & 2 != 0
    && (flags & 4 != 0 <==> endianness & 1 == 0)
    && flags >> 3 == 8 | (status as bv32) | ((restricted as bv32) << 1)
  }

  lemma FlagsMean(sense: byte, endianness: byte, status: byte, restricted: byte)
    ensures FlagsSay(Flags(sense, endianness, status, restricted), sense, endianness, status, restricted)
  {
  }

  lemma ParametersAreSaid(p: Params)
    ensures Says(ConfOf(SettingsOf(p)), p.resolution, p.blockSize, p.interval,
                 p.sense, p.endianness, p.status, p.restricted)
  {
    FlagsMean(p.sense, p.endianness, p.status, p.restricted);
  }

  /** `init_aec_stream`. */
  method InitAecStream(s: Settings) returns (conf: AecConf)
    ensures conf == ConfOf(s)
    ensures Says(conf, s.resolution, s.blockSize, s.interval, s.sense, s.endianness, s.status, s.restricted)
  {
    FlagsMean(s.sense, s.endianness, s.status, s.restricted);
    var flags: bv32 := 0;
    flags := flags | AEC_DATA_3BYTE;
    flags := flags | AEC_NOT_ENFORCE;
    assert flags == AEC_DATA_3BYTE | AEC_NOT_ENFORCE;
    flags := flags | (!((s.sense as bv32) << SIGNED_SHIFT) & AEC_DATA_SIGNED);
    flags := flags | (!((s.endianness as bv32) << MSB_SHIFT) & AEC_DATA_MSB);
    flags := flags | ((s.status as bv32) << PREPROCESS_SHIFT);
    flags := flags | ((s.restricted as bv32) << RESTRICTED_SHIFT);
    conf := AecConf(s.resolution, s.blockSize, s.interval, flags);
  }

  /** The compressor's members are its constructor arguments. */
  function SettingsOf(p: Params): Settings {
    Settings(p.resolution, p.blockSize, p.sense, p.endianness, p.status, p.restricted, p.interval)
  }

  /** The decompressor's members are decoded from the parsed header (`decompress_init`). */
  function SettingsFrom(d: Parsed): Settings {
    Settings(C.DecodeResolution(d.variable), DecodeBlockSize(d), C.DecodeSense(d.variable),
             Lo(DecodeEndianness(d.extension)), C.DecodeStatus(d.variable), C.DecodeRestricted(d.variable),
             C.DecodeInterval(d.fixed))
  }

  /** For 0/1 options each flag bit means what its option says. */
  lemma FlagBits(sense: byte, endianness: byte, status: byte, restricted: byte)
    requires sense <= 1 && endianness <= 1 && status <= 1 && restricted <= 1
    ensures var f := Flags(sense, endianness, status, restricted);
            && (f & 1 != 0 <==> sense == 0)
            && (f & 4 != 0 <==> endianness == 0)
            && (f & 8 != 0 <==> status == 1)
            && (f & 16 != 0 <==> restricted == 1)
            && f & 0xFFFFFFE2 == 0x42
  {
  }

  /** The values of each parameter for which the header carries everything the flags depend on. */
  predicate FlagsSurvive(p: Params) {
    && (p.sense == 1 || p.sense & 1 == 0)
    && (p.endianness == 1 || p.endianness & 1 == 0)
    && p.status in {0, 1, 8}
    && p.restricted in {0, 4}
  }

  /** The flag words of both sides, when the decompressor finds 0/1 for sense and status, `e'` for
      endianness and `found` for the restricted option. Status and option share flag bits. */
  lemma FlagsAgreeIff(sense: byte, e: byte, status: byte, restricted: byte, e': byte, found: byte)
    requires e' <= 1 && found in {0, 0x40}
    requires found != 0 ==> restricted <= 1
    ensures Flags(C.SenseCode(sense), e', C.StatusCode(status), found) == Flags(sense, e, status, restricted) <==>
            (sense == 1 || sense & 1 == 0) && e & 1 == e' && OptionsSurvive(status, restricted, found)
  {
  }

  predicate OptionsSurvive(status: byte, restricted: byte, found: byte) {
    if found == 0 then status in {0, 1, 8} && restricted in {0, 4} else status in {0x80, 0x88} && restricted == 0
  }

  predicate Supported(p: Params) {
    p.resolution <= 31 && ExtensionSize(p.blockSize) && FlagsSurvive(p)
  }

  /** What is read back from the part of the header that is always written. */
  lemma SettingsBehindHeader(p: Params, payload: seq<byte>)
    requires |WrittenHeader(p)| + |payload| >= MAX_HEADER_SIZE
    ensures var r := Parse(WrittenHeader(p) + payload);
            r.Ok? && SettingsFrom(r.header) ==
                     Settings(C.DecodeResolution(Variable(p)), DecodeBlockSize(r.header), C.SenseCode(p.sense),
                              Lo(DecodeEndianness(r.header.extension)), C.StatusCode(p.status),
                              C.DecodeRestricted(r.header.variable), p.interval)
  {
    ParseWritten(p, payload);
    C.FixedRoundTrip(p.Packet());
    C.PredictionRoundTrip(p.Packet());
    C.SampleRoundTrip(p.Packet());
  }

  /** The file is long enough for the parser. */
  predicate LongEnough(p: Params, payload: seq<byte>) {
    |WrittenHeader(p)| + |payload| >= MAX_HEADER_SIZE
  }

  /** Where the extension was not written, the endianness bit is read from this payload byte. */
  function StrayByte(p: Params, payload: seq<byte>): byte
    requires LongEnough(p, payload) && p.blockSize <= 64
  {
    if HasExtended(p) then payload[1] else payload[3]
  }

  function FoundEndianness(p: Params, payload: seq<byte>): byte
    requires LongEnough(p, payload)
  {
    if p.blockSize <= 64 then StrayByte(p, payload) >> 7 else if p.endianness == 1 then 1 else 0
  }

  /** Where the extended parameters were not written, the restricted bit is a payload bit, too. */
  function FoundRestricted(p: Params, payload: seq<byte>): byte
    requires LongEnough(p, payload)
  {
    if HasExtended(p) then (if p.restricted == 1 then 0x40 else 0) else payload[1] & 0x40
  }

  lemma FoundOptions(p: Params, payload: seq<byte>)
    requires LongEnough(p, payload)
    ensures var r := Parse(WrittenHeader(p) + payload);
            && r.Ok?
            && Lo(DecodeEndianness(r.header.extension)) == FoundEndianness(p, payload)
            && C.DecodeRestricted(r.header.variable) == FoundRestricted(p, payload)
  {
    ParseWritten(p, payload);
    OptionBits(p);
    if p.blockSize <= 64 {
      StrayBit(payload, if HasExtended(p) then 1 else 3);
    }
  }

  lemma StrayBit(payload: seq<byte>, i: nat)
    requires 1 <= i < |payload|
    ensures Lo(DecodeEndianness(Join(payload[i], payload[i - 1]))) == payload[i] >> 7
  {
  }

  lemma OptionBits(p: Params)
    ensures Lo(DecodeEndianness(Extension(p))) == (if p.endianness == 1 then 1 else 0)
    ensures C.DecodeRestricted(Variable(p)) == (if p.restricted == 1 then 0x40 else 0)
  {
    C.ExtendedRoundTrip(p.Packet());
    ExtensionRoundTrip(p.blockSize, p.endianness, p.interval as half);
  }

  /** The codec sees the same configuration on `payload` behind a header written for `p`. */
  predicate Agrees(p: Params, payload: seq<byte>) {
    var r := Parse(WrittenHeader(p) + payload);
    r.Ok? && ConfOf(SettingsFrom(r.header)) == ConfOf(SettingsOf(p))
  }

  /** The parameters that come back, behind this payload. */
  predicate Matches(p: Params, payload: seq<byte>)
    requires LongEnough(p, payload)
  {
    && p.resolution <= 31 && RecoverableSize(p.blockSize)
    && (p.sense == 1 || p.sense & 1 == 0)
    && p.endianness & 1 == FoundEndianness(p, payload)
    && OptionsSurvive(p.status, p.restricted, FoundRestricted(p, payload))
  }

  /** For all parameters and payloads: the two sides configure the codec alike exactly when the
      parameters survive the header and the unwritten bits happen to match. */
  lemma ConfigurationAgreesIff(p: Params, payload: seq<byte>)
    requires LongEnough(p, payload)
    ensures Agrees(p, payload) <==> Matches(p, payload)
  {
    SettingsBehindHeader(p, payload);
    FoundOptions(p, payload);
    C.SampleRoundTrip(p.Packet());
    BlockSizeRecovered(p, payload);
    FoundRange(p, payload);
    ConfByParts(p, C.DecodeResolution(Variable(p)), DecodeBlockSize(Parse(WrittenHeader(p) + payload).header),
                FoundEndianness(p, payload), FoundRestricted(p, payload));
  }

  lemma FoundRange(p: Params, payload: seq<byte>)
    requires LongEnough(p, payload)
    ensures FoundEndianness(p, payload) <= 1 && FoundRestricted(p, payload) in {0, 0x40}
    ensures FoundRestricted(p, payload) != 0 ==> p.restricted <= 1
  {
    if p.blockSize <= 64 {
      TopBit(StrayByte(p, payload));
    }
    if !HasExtended(p) {
      RestrictedBit(payload[1]);
    }
  }

  lemma TopBit(b: byte)
    ensures b >> 7 <= 1
  {
  }

  lemma RestrictedBit(b: byte)
    ensures b & 0x40 in {0, 0x40}
  {
  }

  lemma ConfByParts(p: Params, resolution: byte, blockSize: half, e': byte, found: byte)
    requires resolution == p.resolution <==> p.resolution <= 31
    requires blockSize == p.blockSize <==> RecoverableSize(p.blockSize)
    requires e' <= 1 && found in {0, 0x40}
    requires found != 0 ==> p.restricted <= 1
    ensures ConfOf(Settings(resolution, blockSize, C.SenseCode(p.sense), e', C.StatusCode(p.status), found, p.interval))
            == ConfOf(SettingsOf(p))
            <==>
            && p.resolution <= 31 && RecoverableSize(p.blockSize) && (p.sense == 1 || p.sense & 1 == 0)
            && p.endianness & 1 == e' && OptionsSurvive(p.status, p.restricted, found)
  {
    FlagsAgreeIff(p.sense, p.endianness, p.status, p.restricted, e', found);
  }

  /** Above block size 64 the payload has no say. */
  lemma ConfigurationAgrees(p: Params, payload: seq<byte>)
    requires p.blockSize > 64
    ensures Agrees(p, payload) <==> Supported(p)
  {
    ConfigurationAgreesIff(p, payload);
    SurvivalAboveSmall(p);
  }

  lemma SurvivalAboveSmall(p: Params)
    requires p.blockSize > 64
    ensures RecoverableSize(p.blockSize) <==> ExtensionSize(p.blockSize)
    ensures OptionsSurvive(p.status, p.restricted, if p.restricted == 1 then 0x40 else 0) <==>
            p.status in {0, 1, 8} && p.restricted in {0, 4}
    ensures p.endianness & 1 == (if p.endianness == 1 then 1 else 0) <==> p.endianness == 1 || p.endianness & 1 == 0
  {
  }

  /** Up to block size 64 agreement forces a payload bit. */
  lemma SmallBlocksReadPayload(p: Params, payload: seq<byte>)
    requires p.blockSize <= 64 && LongEnough(p, payload)
    requires Agrees(p, payload)
    ensures StrayByte(p, payload) >> 7 == p.endianness & 1
  {
    ConfigurationAgreesIff(p, payload);
  }

  /** Unsupported parameters have a payload behind which the sides disagree. */
  lemma DisagreeingPayload(p: Params) returns (payload: seq<byte>)
    requires !Supported(p)
    ensures |payload| == 4 && !Agrees(p, payload)
  {
    var b: byte := if p.endianness & 1 == 1 then 0 else 0x80;
    payload := [b, b, b, b];
    if p.blockSize > 64 {
      ConfigurationAgrees(p, payload);
    } else if Agrees(p, payload) {
      SmallBlocksReadPayload(p, payload);
      OppositeBit(p.endianness, b);
    }
  }

  lemma OppositeBit(e: byte, b: byte)
    requires b == if e & 1 == 1 then 0 else 0x80
    ensures b >> 7 != e & 1
  {
  }

  /** The two sides agree behind every payload exactly for supported parameters. */
  lemma ConfigurationAgreesAlwaysIff(p: Params)
    ensures (forall payload: seq<byte> :: LongEnough(p, payload) ==> Agrees(p, payload)) <==> Supported(p)
  {
    if Supported(p) {
      ExtensionSizesAreLarge(p.blockSize);
      forall payload: seq<byte>
        ensures Agrees(p, payload)
      {
        ConfigurationAgrees(p, payload);
      }
    } else {
      var payload := DisagreeingPayload(p);
      assert LongEnough(p, payload);
    }
  }

  lemma ExtensionSizesAreLarge(size: half)
    requires ExtensionSize(size)
    ensures size > 64
  {
  }

  // -------------------------------------------------------------- files that can be read back

  /** The parser accepts the file, finds the header's length, and recovers the configuration. */
  predicate Recoverable(p: Params, payload: seq<byte>) {
    LongEnough(p, payload) && LengthIsSound(p) && Matches(p, payload)
  }

  /** Behind a recoverable header the codec is told the parameters the file was written with. */
  lemma RecoveredConfiguration(p: Params, payload: seq<byte>)
    requires Recoverable(p, payload)
    ensures var r := Parse(WrittenHeader(p) + payload);
            && r.Ok? && r.header.size == |WrittenHeader(p)|
            && Says(ConfOf(SettingsFrom(r.header)), p.resolution, p.blockSize, p.interval,
                    p.sense, p.endianness, p.status, p.restricted)
  {
    ConfigurationAgreesIff(p, payload);
    HeaderLengthAgreement(p, payload);
    ParametersAreSaid(p);
  }

  /** Files with supported parameters are recoverable whatever they hold, the empty payload included. */
  lemma SupportedIsRecoverable(p: Params, payload: seq<byte>)
    requires Supported(p)
    ensures Recoverable(p, payload)
  {
    ExtensionSizesAreLarge(p.blockSize);
    LargeIsSound(p);
    SurvivalAboveSmall(p);
  }

  lemma LargeIsSound(p: Params)
    requires p.blockSize > 64
    ensures LengthIsSound(p) && |WrittenHeader(p)| == MAX_HEADER_SIZE
  {
  }
}
