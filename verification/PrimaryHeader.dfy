/** The six bytes of the CCSDS packet primary header (section 4.1.2 of CCSDS 133.0-B-1). */
module PrimaryHeader {
  import opened Bytes

  /** The buffer the constructors are assumed to start from. */
  const ZERO: Six := Six(0, 0, 0, 0, 0, 0)

  datatype Fields = Fields(
    version: byte, kind: byte, secFlag: byte, apid: half, seqFlags: byte, seqCount: half, dataLength: half)

  /** The seven public setters. */
  datatype Setter =
    | Version(v: byte)
    | Kind(v: byte)
    | SecondaryFlag(v: byte)
    | SequenceFlags(v: byte)
    | Apid(x: half)
    | SequenceCount(x: half)
    | DataLength(x: half)

  // -------------------------------------------------------------- decoders

  function DecodeVersion(h: Six): byte { (h.b0 & 0xE0) >> 5 }

  function DecodeKind(h: Six): byte { (h.b0 & 0x10) >> 4 }

  function DecodeSecondaryFlag(h: Six): byte { (h.b0 & 0x08) >> 3 }

  function DecodeApid(h: Six): half { Join(h.b0 & 0x07, h.b1) }

  function DecodeSequenceFlags(h: Six): byte { (h.b2 & 0xC0) >> 6 }

  function DecodeSequenceCount(h: Six): half { Join(h.b2 & 0x3F, h.b3) }

  function DecodeDataLength(h: Six): half { Join(h.b4, h.b5) }

  function Decode(h: Six): Fields {
    Fields(DecodeVersion(h), DecodeKind(h), DecodeSecondaryFlag(h), DecodeApid(h),
           DecodeSequenceFlags(h), DecodeSequenceCount(h), DecodeDataLength(h))
  }

  /** Each decoder reads exactly the bits the standard gives its field, here in the three 16-bit
      words packet identification, sequence control and data length. */
  lemma IdentificationLayout(h: Six)
    ensures var w := Join(h.b0, h.b1);
            && DecodeVersion(h) as half == w >> 13
            && DecodeKind(h) as half == (w >> 12) & 0x1
            && DecodeSecondaryFlag(h) as half == (w >> 11) & 0x1
            && DecodeApid(h) == w & 0x7FF
  {
  }

  lemma SequenceControlLayout(h: Six)
    ensures var w := Join(h.b2, h.b3);
            DecodeSequenceFlags(h) as half == w >> 14 && DecodeSequenceCount(h) == w & 0x3FFF
  {
  }

  // -------------------------------------------------------------- setters

  /** What each setter ORs into bytes 0, 2 and 4. The sequence flags are masked with 0xC0 before
      being shifted left by 6, so nothing of them is left in the byte. */
  function Part0(op: Setter): byte {
    match op
    case Version(v) => (v & 0x7) << 5
    case Kind(v) => (v & 0x1) << 4
    case SecondaryFlag(v) => v << 3
    case Apid(x) => Hi(x) & 0x07
    case _ => 0
  }

  function Part2(op: Setter): byte {
    match op
    case SequenceFlags(v) => (v & 0xC0) << 6
    case SequenceCount(x) => Hi(x & 0x3FFF) & 0x3F
    case _ => 0
  }

  function Part4(op: Setter): byte {
    if op.DataLength? then Hi(op.x) else 0
  }

  /** Bytes 0, 2 and 4 are OR-ed into the buffer, the others are assigned. */
  function Over(h: Six, n: Six): Six {
    Six(h.b0 | n.b0, n.b1, h.b2 | n.b2, n.b3, h.b4 | n.b4, n.b5)
  }

  /** One call. A low byte that is not assigned keeps its value. */
  function Apply(h: Six, op: Setter): Six {
    Over(h, Contribution(h, op))
  }

  function Contribution(h: Six, op: Setter): Six {
    Six(Part0(op), if op.Apid? then Lo(op.x) else h.b1,
        Part2(op), if op.SequenceCount? then Lo(op.x) else h.b3,
        Part4(op), if op.DataLength? then Lo(op.x) else h.b5)
  }

  /** Any number of calls, in order. */
  function Run(h: Six, ops: seq<Setter>): Six {
    if ops == [] then h else Apply(Run(h, ops[..|ops| - 1]), ops[|ops| - 1])
  }

  /** The first byte `encode` ORs in: type, version, secondary flag and the high bits of the APID. */
  function FirstByte(f: Fields): byte {
    ((f.kind & 0x1) << 4) | ((f.version & 0x7) << 5) | (f.secFlag << 3) | (Hi(f.apid) & 0x07)
  }

  /** What `encode` contributes to the six bytes. */
  function Image(f: Fields): Six {
    Six(FirstByte(f), Lo(f.apid), Hi(f.seqCount & 0x3FFF), Lo(f.seqCount), Hi(f.dataLength), Lo(f.dataLength))
  }

  /** The bytes after `encode`, over a buffer that held `h`. */
  function Encoded(h: Six, f: Fields): Six {
    Over(h, Image(f))
  }

  lemma OverZero(n: Six)
    ensures Over(ZERO, n) == n
  {
  }

  /** Values the fields are wide enough for. */
  predicate InRange(f: Fields) {
    f.version <= 7 && f.kind <= 1 && f.secFlag <= 1 && f.apid <= 0x7FF && f.seqFlags <= 3
  }

  /** Decoding what `encode` wrote into a zeroed buffer returns the fields, the sequence count
      modulo 16384, exactly when the fields are in range and the sequence flags are 0. */
  lemma EncodeThenDecode(f: Fields)
    ensures Decode(Encoded(ZERO, f)) == f.(seqCount := f.seqCount & 0x3FFF) <==> InRange(f) && f.seqFlags == 0
  {
    OverZero(Image(f));
  }

  /** The bits of the six bytes from the values passed, for all values: the secondary flag spills into
      type and version, and of the sequence flags nothing is left. */
  predicate HeaderLayout(
    h: Six, version: byte, kind: byte, secFlag: byte, apid: half, seqCount: half, dataLength: half)
  {
    && h.b0 >> 5 == (version & 7) | ((secFlag >> 2) & 7)
    && (h.b0 >> 4) & 1 == (kind & 1) | ((secFlag >> 1) & 1)
    && (h.b0 >> 3) & 1 == secFlag & 1
    && Join(h.b0 & 7, h.b1) == apid & 0x7FF
    && Join(h.b2, h.b3) == seqCount & 0x3FFF
    && Join(h.b4, h.b5) == dataLength
  }

  lemma IsLaidOut(f: Fields)
    ensures HeaderLayout(Encoded(ZERO, f), f.version, f.kind, f.secFlag, f.apid, f.seqCount, f.dataLength)
  {
    OverZero(Image(f));
    FirstByteBits(f.kind, f.version, f.secFlag, Hi(f.apid));
    WordBits(f.apid, f.seqCount, f.dataLength);
  }

  /** The bytes after `encode`, from the bytes before and the values passed. */
  ghost predicate Written(h: Six, f: Fields, h': Six) {
    exists n: Six ::
      && HeaderLayout(n, f.version, f.kind, f.secFlag, f.apid, f.seqCount, f.dataLength)
      && h' == Six(h.b0 | n.b0, n.b1, h.b2 | n.b2, n.b3, h.b4 | n.b4, n.b5)
  }

  lemma IsWritten(h: Six, f: Fields)
    ensures Written(h, f, Encoded(h, f))
  {
    IsLaidOut(f);
    OverZero(Image(f));
    var n := Encoded(ZERO, f);
    assert Encoded(h, f) == Over(h, n);
  }

  lemma FirstByteBits(kind: byte, version: byte, secFlag: byte, high: byte)
    ensures var b := ((kind & 0x1) << 4) | ((version & 0x7) << 5) | (secFlag << 3) | (high & 0x07);
            && b >> 5 == (version & 7) | ((secFlag >> 2) & 7)
            && (b >> 4) & 1 == (kind & 1) | ((secFlag >> 1) & 1)
            && (b >> 3) & 1 == secFlag & 1
            && b & 7 == high & 7
  {
  }

  lemma WordBits(apid: half, count: half, length: half)
    ensures Join(Hi(apid) & 7, Lo(apid)) == apid & 0x7FF
    ensures Join(Hi(count & 0x3FFF), Lo(count)) == count & 0x3FFF
    ensures Join(Hi(length), Lo(length)) == length
  {
    JoinSplits(length);
  }

  /** Re-encoding a decoded header gives the same bytes exactly when its sequence flag bits are 0. */
  lemma DecodeThenEncode(h: Six)
    ensures Encoded(ZERO, Decode(h)) == h <==> DecodeSequenceFlags(h) == 0
  {
    OverZero(Image(Decode(h)));
  }

  /** The constructors do not zero the buffer: what `encode` leaves is independent of what was
      there exactly when the old bits are among the new ones in the three OR-ed bytes. */
  lemma EncodeOverGarbage(h: Six, f: Fields, n: Six)
    requires n == Image(f)
    ensures Encoded(ZERO, f) == n
    ensures Encoded(h, f) == n <==> h.b0 | n.b0 == n.b0 && h.b2 | n.b2 == n.b2 && h.b4 | n.b4 == n.b4
  {
    GarbageShows(h, n);
  }

  lemma GarbageShows(h: Six, n: Six)
    ensures Over(ZERO, n) == n
    ensures Over(h, n) == n <==> h.b0 | n.b0 == n.b0 && h.b2 | n.b2 == n.b2 && h.b4 | n.b4 == n.b4
  {
    OverZero(n);
    if h.b0 | n.b0 == n.b0 && h.b2 | n.b2 == n.b2 && h.b4 | n.b4 == n.b4 {
      Covered(h, n);
    } else {
      NotCovered(h, n);
    }
  }

  lemma Covered(h: Six, n: Six)
    requires h.b0 | n.b0 == n.b0 && h.b2 | n.b2 == n.b2 && h.b4 | n.b4 == n.b4
    ensures Over(h, n) == n
  {
  }

  lemma NotCovered(h: Six, n: Six)
    requires h.b0 | n.b0 != n.b0 || h.b2 | n.b2 != n.b2 || h.b4 | n.b4 != n.b4
    ensures Over(h, n) != n
  {
  }

  lemma OrZeros(h: Six)
    ensures h.b0 | 0 == h.b0 && h.b2 | 0 == h.b2 && h.b4 | 0 == h.b4
  {
  }

  /** Repeating a call changes nothing. */
  lemma CallsAreIdempotent(h: Six, op: Setter)
    ensures Apply(Apply(h, op), op) == Apply(h, op)
  {
    OverTwice(h, Contribution(h, op));
  }

  lemma OverTwice(h: Six, n: Six)
    ensures Over(Over(h, n), n) == Over(h, n)
  {
    OrTwice(h.b0, n.b0);
    OrTwice(h.b2, n.b2);
    OrTwice(h.b4, n.b4);
  }

  lemma OrTwice(a: byte, b: byte)
    ensures (a | b) | b == a | b
  {
  }

  // -------------------------------------------------------------- call history

  /** What a call contributes to each field. The secondary flag is not masked, so its upper bits
      end up in type and version. */
  function VersionPart(op: Setter): byte {
    if op.Version? then op.v & 0x7 else if op.SecondaryFlag? then (op.v >> 2) & 0x7 else 0
  }

  function KindPart(op: Setter): byte {
    if op.Kind? then op.v & 0x1 else if op.SecondaryFlag? then (op.v >> 1) & 0x1 else 0
  }

  function SecondaryPart(op: Setter): byte { if op.SecondaryFlag? then op.v & 0x1 else 0 }

  function ApidHighPart(op: Setter): byte { if op.Apid? then Hi(op.x) & 0x07 else 0 }

  function CountHighPart(op: Setter): byte { if op.SequenceCount? then Hi(op.x) & 0x3F else 0 }

  function LengthHighPart(op: Setter): byte { if op.DataLength? then Hi(op.x) else 0 }

  /** The bitwise OR of one part over a history. */
  function OrOf(ops: seq<Setter>, part: Setter -> byte): byte {
    if ops == [] then 0 else OrOf(ops[..|ops| - 1], part) | part(ops[|ops| - 1])
  }

  /** The low byte given by the last call of one kind, 0 if there was none. */
  function LastLow(ops: seq<Setter>, ofKind: Setter -> bool): byte {
    if ops == [] then 0
    else
      var op := ops[|ops| - 1];
      if ofKind(op) && (op.Apid? || op.SequenceCount? || op.DataLength?) then Lo(op.x)
      else LastLow(ops[..|ops| - 1], ofKind)
  }

  function IsApid(op: Setter): bool { op.Apid? }

  function IsCount(op: Setter): bool { op.SequenceCount? }

  function IsLength(op: Setter): bool { op.DataLength? }

  /** After any history of calls from a zeroed buffer: version, type and secondary flag are the OR of
      all values passed, the bits a secondary flag spills included; APID and data length are the OR of
      the high parts joined with the last low byte. */
  lemma CallHistory(ops: seq<Setter>)
    ensures var h := Run(ZERO, ops);
            && DecodeVersion(h) == OrOf(ops, VersionPart)
            && DecodeKind(h) == OrOf(ops, KindPart)
            && DecodeSecondaryFlag(h) == OrOf(ops, SecondaryPart)
            && DecodeApid(h) == Join(OrOf(ops, ApidHighPart), LastLow(ops, IsApid))
            && DecodeDataLength(h) == Join(OrOf(ops, LengthHighPart), LastLow(ops, IsLength))
  {
    HistoryBytes(ops);
    FirstByteFields(ops);
  }

  /** So is the sequence count, and the sequence flags stay 0 whatever is passed for them. */
  lemma CallHistoryCounts(ops: seq<Setter>)
    ensures var h := Run(ZERO, ops);
            && DecodeSequenceFlags(h) == 0
            && DecodeSequenceCount(h) == Join(OrOf(ops, CountHighPart), LastLow(ops, IsCount))
  {
    HistoryBytes(ops);
    CountField(ops);
    CountOf(Run(ZERO, ops), OrOf(ops, CountHighPart));
  }

  lemma CountOf(h: Six, high: byte)
    requires h.b2 & 0x3F == high && (h.b2 & 0xC0) >> 6 == 0
    ensures DecodeSequenceFlags(h) == 0 && DecodeSequenceCount(h) == Join(high, h.b3)
  {
  }

  /** The history byte by byte. */
  lemma {:induction false} HistoryBytes(ops: seq<Setter>)
    ensures Run(ZERO, ops) == Six(OrOf(ops, Part0), LastLow(ops, IsApid), OrOf(ops, Part2), LastLow(ops, IsCount),
                                  OrOf(ops, Part4), LastLow(ops, IsLength))
    ensures OrOf(ops, Part4) == OrOf(ops, LengthHighPart)
  {
    if ops != [] {
      HistoryBytes(ops[..|ops| - 1]);
    }
  }

  lemma {:induction false} FirstByteFields(ops: seq<Setter>)
    ensures var b := OrOf(ops, Part0);
            && (b & 0xE0) >> 5 == OrOf(ops, VersionPart)
            && (b & 0x10) >> 4 == OrOf(ops, KindPart)
            && (b & 0x08) >> 3 == OrOf(ops, SecondaryPart)
            && b & 0x07 == OrOf(ops, ApidHighPart)
  {
    if ops != [] {
      FirstByteFields(ops[..|ops| - 1]);
      MasksDistribute(OrOf(ops[..|ops| - 1], Part0), Part0(ops[|ops| - 1]));
      Part0Bits(ops[|ops| - 1]);
    }
  }

  lemma MasksDistribute(b: byte, p: byte)
    ensures ((b | p) & 0xE0) >> 5 == ((b & 0xE0) >> 5) | ((p & 0xE0) >> 5)
    ensures ((b | p) & 0x10) >> 4 == ((b & 0x10) >> 4) | ((p & 0x10) >> 4)
    ensures ((b | p) & 0x08) >> 3 == ((b & 0x08) >> 3) | ((p & 0x08) >> 3)
    ensures (b | p) & 0x07 == (b & 0x07) | (p & 0x07)
  {
  }

  lemma Part0Bits(op: Setter)
    ensures var p := Part0(op);
            && (p & 0xE0) >> 5 == VersionPart(op)
            && (p & 0x10) >> 4 == KindPart(op)
            && (p & 0x08) >> 3 == SecondaryPart(op)
            && p & 0x07 == ApidHighPart(op)
  {
  }

  lemma {:induction false} CountField(ops: seq<Setter>)
    ensures var b := OrOf(ops, Part2);
            (b & 0xC0) >> 6 == 0 && b & 0x3F == OrOf(ops, CountHighPart)
  {
    if ops != [] {
      CountField(ops[..|ops| - 1]);
      CountStep(OrOf(ops[..|ops| - 1], Part2), ops[|ops| - 1]);
    }
  }

  lemma CountStep(b: byte, op: Setter)
    requires (b & 0xC0) >> 6 == 0
    ensures ((b | Part2(op)) & 0xC0) >> 6 == 0
    ensures (b | Part2(op)) & 0x3F == (b & 0x3F) | CountHighPart(op)
  {
  }

  /** What a call does to the decoded fields: its own is ORed with the argument, or for a two-byte
      field has its high part ORed and its low byte replaced, and the others stay. The sequence flags'
      setter does nothing, and the secondary flag's reaches into type and version. */
  function Updated(d: Fields, op: Setter): Fields {
    Fields(
      if op.Version? || op.SecondaryFlag? then d.version | VersionPart(op) else d.version,
      if op.Kind? || op.SecondaryFlag? then d.kind | KindPart(op) else d.kind,
      if op.SecondaryFlag? then d.secFlag | SecondaryPart(op) else d.secFlag,
      if op.Apid? then Join(Hi(d.apid) | ApidHighPart(op), Lo(op.x)) else d.apid,
      d.seqFlags,
      if op.SequenceCount? then Join(Hi(d.seqCount) | CountHighPart(op), Lo(op.x)) else d.seqCount,
      if op.DataLength? then Join(Hi(d.dataLength) | LengthHighPart(op), Lo(op.x)) else d.dataLength)
  }

  /** On every header and for every argument, each of the seven calls changes its own field and,
      apart from the secondary flag's, no other. */
  lemma CallUpdatesItsField(h: Six, op: Setter)
    ensures Decode(Apply(h, op)) == Updated(Decode(h), op)
  {
    FirstByteUpdated(h, op);
    ApidUpdated(h, op);
    CountUpdated(h, op);
    LengthUpdated(h, op);
  }

  lemma OrPart(b: byte, p: byte, own: bool)
    requires !own ==> p == 0
    ensures b | p == if own then b | p else b
  {
  }

  lemma WordPart(high: byte, low: byte, p: byte, own: bool, low': byte)
    requires !own ==> p == 0
    ensures Join(high | p, if own then low' else low) ==
            if own then Join(Hi(Join(high, low)) | p, low') else Join(high, low)
  {
    OrPart(high, p, own);
    Rejoined(high, low);
  }

  lemma Rejoined(a: byte, b: byte)
    ensures Hi(Join(a, b)) == a && Lo(Join(a, b)) == b
  {
  }

  lemma FirstByteUpdated(h: Six, op: Setter)
    ensures var d, g := Updated(Decode(h), op), Apply(h, op);
            DecodeVersion(g) == d.version && DecodeKind(g) == d.kind && DecodeSecondaryFlag(g) == d.secFlag
  {
    FirstByteOr(h, op);
    OrPart(DecodeVersion(h), VersionPart(op), op.Version? || op.SecondaryFlag?);
    OrPart(DecodeKind(h), KindPart(op), op.Kind? || op.SecondaryFlag?);
    OrPart(DecodeSecondaryFlag(h), SecondaryPart(op), op.SecondaryFlag?);
  }

  lemma FirstByteOr(h: Six, op: Setter)
    ensures var g := Apply(h, op);
            && DecodeVersion(g) == DecodeVersion(h) | VersionPart(op)
            && DecodeKind(g) == DecodeKind(h) | KindPart(op)
            && DecodeSecondaryFlag(g) == DecodeSecondaryFlag(h) | SecondaryPart(op)
  {
    MasksDistribute(h.b0, Part0(op));
    Part0Bits(op);
  }

  lemma ApidUpdated(h: Six, op: Setter)
    ensures DecodeApid(Apply(h, op)) == Updated(Decode(h), op).apid
  {
    MasksDistribute(h.b0, Part0(op));
    Part0Bits(op);
    WordPart(h.b0 & 0x07, h.b1, ApidHighPart(op), op.Apid?, if op.Apid? then Lo(op.x) else 0);
  }

  lemma CountUpdated(h: Six, op: Setter)
    ensures var d, g := Updated(Decode(h), op), Apply(h, op);
            DecodeSequenceFlags(g) == d.seqFlags && DecodeSequenceCount(g) == d.seqCount
  {
    Part2Bits(op);
    CountMasks(h.b2, Part2(op));
    WordPart(h.b2 & 0x3F, h.b3, CountHighPart(op), op.SequenceCount?, if op.SequenceCount? then Lo(op.x) else 0);
  }

  lemma Part2Bits(op: Setter)
    ensures Part2(op) & 0xC0 == 0 && Part2(op) & 0x3F == CountHighPart(op)
  {
  }

  lemma CountMasks(b: byte, p: byte)
    ensures (b | p) & 0x3F == (b & 0x3F) | (p & 0x3F)
    ensures p & 0xC0 == 0 ==> (b | p) & 0xC0 == b & 0xC0
  {
  }

  lemma LengthUpdated(h: Six, op: Setter)
    ensures DecodeDataLength(Apply(h, op)) == Updated(Decode(h), op).dataLength
  {
    WordPart(h.b4, h.b5, LengthHighPart(op), op.DataLength?, if op.DataLength? then Lo(op.x) else 0);
  }

  /** On every header the secondary flag's setter leaves the other fields alone exactly when bits 1
      to 4 of the flag are 0. */
  lemma SecondaryFlagIsolated(v: byte)
    ensures (forall h: Six :: OnlySecondaryDiffers(h, Apply(h, SecondaryFlag(v)))) <==> v & 0x1E == 0
  {
    if v & 0x1E != 0 {
      SecondaryFlagSpills(v);
    } else {
      forall h: Six
        ensures OnlySecondaryDiffers(h, Apply(h, SecondaryFlag(v)))
      {
        SecondaryFlagStays(h, v);
      }
    }
  }

  lemma SecondaryFlagSpills(v: byte)
    requires v & 0x1E != 0
    ensures !OnlySecondaryDiffers(ZERO, Apply(ZERO, SecondaryFlag(v)))
  {
    OrZero(v << 3);
  }

  lemma SecondaryFlagStays(h: Six, v: byte)
    requires v & 0x1E == 0
    ensures OnlySecondaryDiffers(h, Apply(h, SecondaryFlag(v)))
  {
    MasksDistribute(h.b0, v << 3);
    OrZeros(h);
  }

  predicate OnlySecondaryDiffers(h: Six, g: Six) {
    Decode(g) == Decode(h).(secFlag := DecodeSecondaryFlag(g))
  }

  /** The seven calls of `encode`, in its order, have the effect `Encoded` states. */
  lemma SettersJoin(h: Six, f: Fields, h3: Six)
    requires h3 == Apply(Apply(Apply(h, Kind(f.kind)), Version(f.version)), SequenceFlags(f.seqFlags))
    ensures Apply(Apply(Apply(Apply(h3, SecondaryFlag(f.secFlag)), SequenceCount(f.seqCount)), Apid(f.apid)),
                  DataLength(f.dataLength)) == Encoded(h, f)
  {
    FirstThree(h, f);
    LastFour(h3, f);
    var a, b := (f.kind & 0x1) << 4, (f.version & 0x7) << 5;
    OrAssociates(h.b0, a, b, f.secFlag << 3, Hi(f.apid) & 0x07);
  }

  lemma FirstThree(h: Six, f: Fields)
    ensures Apply(Apply(Apply(h, Kind(f.kind)), Version(f.version)), SequenceFlags(f.seqFlags)) ==
            h.(b0 := h.b0 | ((f.kind & 0x1) << 4) | ((f.version & 0x7) << 5))
  {
    FirstTwo(h, f);
    NoFlags(Apply(Apply(h, Kind(f.kind)), Version(f.version)), f.seqFlags);
  }

  lemma FirstTwo(h: Six, f: Fields)
    ensures Apply(Apply(h, Kind(f.kind)), Version(f.version)) ==
            h.(b0 := h.b0 | ((f.kind & 0x1) << 4) | ((f.version & 0x7) << 5))
  {
    KindOnly(h, f.kind);
    VersionOnly(Apply(h, Kind(f.kind)), f.version);
  }

  lemma KindOnly(h: Six, v: byte)
    ensures Apply(h, Kind(v)) == h.(b0 := h.b0 | ((v & 0x1) << 4))
  {
    OrZeros(h);
  }

  lemma VersionOnly(h: Six, v: byte)
    ensures Apply(h, Version(v)) == h.(b0 := h.b0 | ((v & 0x7) << 5))
  {
    OrZeros(h);
  }

  lemma NoFlags(h: Six, flags: byte)
    ensures Apply(h, SequenceFlags(flags)) == h
  {
    assert (flags & 0xC0) << 6 == 0;
    OrZeros(h);
  }

  lemma LastFour(h: Six, f: Fields)
    ensures Apply(Apply(Apply(Apply(h, SecondaryFlag(f.secFlag)), SequenceCount(f.seqCount)), Apid(f.apid)),
                  DataLength(f.dataLength)) ==
            Six(h.b0 | (f.secFlag << 3) | (Hi(f.apid) & 0x07), Lo(f.apid),
                h.b2 | Hi(f.seqCount & 0x3FFF), Lo(f.seqCount),
                h.b4 | Hi(f.dataLength), Lo(f.dataLength))
  {
    LastTwo(Apply(Apply(h, SecondaryFlag(f.secFlag)), SequenceCount(f.seqCount)), f);
    OrZeros(h);
    OrZero(h.b0 | (f.secFlag << 3));
    CountLow(f.seqCount);
  }

  lemma CountLow(count: half)
    ensures Hi(count & 0x3FFF) & 0x3F == Hi(count & 0x3FFF) && Lo(count & 0x3FFF) == Lo(count)
  {
  }

  lemma LastTwo(h: Six, f: Fields)
    ensures Apply(Apply(h, Apid(f.apid)), DataLength(f.dataLength)) ==
            Six(h.b0 | (Hi(f.apid) & 0x07), Lo(f.apid), h.b2, h.b3, h.b4 | Hi(f.dataLength), Lo(f.dataLength))
  {
    OrZeros(h);
    OrZero(h.b0 | (Hi(f.apid) & 0x07));
  }

  lemma OrAssociates(h: byte, a: byte, b: byte, c: byte, d: byte)
    ensures h | a | b | c | d == h | (a | b | c | d)
  {
  }

  // -------------------------------------------------------------- the class

  class CcsdsPrimaryHeader {
    const d: array<byte>

    /** `encode` runs in the constructor, over a buffer assumed to start zeroed. */
    constructor (f: Fields)
      ensures fresh(d) && Valid() && Bytes() == Encoded(ZERO, f)
      ensures HeaderLayout(Bytes(), f.version, f.kind, f.secFlag, f.apid, f.seqCount, f.dataLength)
    {
      d := new byte[6](_ => 0);
      new;
      assert Bytes() == ZERO;
      Encode(f);
      IsLaidOut(f);
    }

    /** The default constructor leaves the buffer unset. */
    constructor Blank()
      ensures fresh(d) && Valid()
    {
      d := new byte[6](_ => 0);
    }

    /** `set_primary_header`. */
    method Set(h: Six)
      requires Valid()
      modifies d
      ensures Bytes() == h
    {
      d[0], d[1], d[2], d[3], d[4], d[5] := h.b0, h.b1, h.b2, h.b3, h.b4, h.b5;
    }

    ghost predicate Valid() { d.Length == 6 }

    function Bytes(): Six
      requires Valid()
      reads d
    {
      Six(d[0], d[1], d[2], d[3], d[4], d[5])
    }

    method EncodeVersion(version: byte)
      requires Valid()
      modifies d
      ensures Bytes() == Apply(old(Bytes()), Version(version))
    {
      OrZeros(Bytes());
      d[0] := d[0] | ((version & 0x7) << 5);
    }

    method EncodeKind(kind: byte)
      requires Valid()
      modifies d
      ensures Bytes() == Apply(old(Bytes()), Kind(kind))
    {
      OrZeros(Bytes());
      d[0] := d[0] | ((kind & 0x1) << 4);
    }

    method EncodeSecondaryFlag(flag: byte)
      requires Valid()
      modifies d
      ensures Bytes() == Apply(old(Bytes()), SecondaryFlag(flag))
    {
      OrZeros(Bytes());
      d[0] := d[0] | (flag << 3);
    }

    method EncodeSequenceFlags(flags: byte)
      requires Valid()
      modifies d
      ensures Bytes() == Apply(old(Bytes()), SequenceFlags(flags))
    {
      OrZeros(Bytes());
      d[2] := d[2] | ((flags & 0xC0) << 6);
    }

    method EncodeApid(apid: half)
      requires Valid()
      modifies d
      ensures Bytes() == Apply(old(Bytes()), Apid(apid))
    {
      OrZeros(Bytes());
      d[0] := d[0] | (Hi(apid) & 0x07);
      d[1] := Lo(apid);
    }

    method EncodeSequenceCount(count: half)
      requires Valid()
      modifies d
      ensures Bytes() == Apply(old(Bytes()), SequenceCount(count))
    {
      OrZeros(Bytes());
      var reduced := count % 16384;
      assert reduced == count & 0x3FFF;
      d[2] := d[2] | (Hi(reduced) & 0x3F);
      d[3] := Lo(reduced);
    }

    method EncodeDataLength(length: half)
      requires Valid()
      modifies d
      ensures Bytes() == Apply(old(Bytes()), DataLength(length))
    {
      OrZeros(Bytes());
      d[4] := d[4] | Hi(length);
      d[5] := Lo(length);
    }

    method Encode(f: Fields)
      requires Valid()
      modifies d
      ensures Bytes() == Encoded(old(Bytes()), f) && Written(old(Bytes()), f, Bytes())
    {
      ghost var h := Bytes();
      IsWritten(h, f);
      EncodeKind(f.kind);
      EncodeVersion(f.version);
      EncodeSequenceFlags(f.seqFlags);
      ghost var h3 := Bytes();
      EncodeSecondaryFlag(f.secFlag);
      EncodeSequenceCount(f.seqCount);
      EncodeApid(f.apid);
      EncodeDataLength(f.dataLength);
      SettersJoin(h, f, h3);
    }
  }
}
