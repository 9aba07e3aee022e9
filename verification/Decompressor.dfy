/** The public calls of `decompressor_impl`. */
module Decompressor {
  import opened Bytes
  import opened MachineInts
  import opened AecContract
  import opened StreamSpec
  import opened Session
  import opened IqzipHeader
  import opened AecConf
  import StreamLaws

  /** `decompress_init`: parse the header, recover the configuration, skip the header. A file too
      short for the parser's 18-byte read throws, and there is no session. */
  method DecompressInit<S(!new)>(family: AecConf -> Codec<S>, file: seq<byte>)
    returns (s: CodecSession?<S>, status: int)
    ensures s == null <==> Parse(file) == FileReadingError
    ensures s != null ==>
              && fresh(s) && fresh(s.tmpStream) && fresh(s.outBuffer) && s.Unused()
              && s.codec == family(ConfOf(SettingsFrom(Parse(file).header))) && status == s.codec.initStatus
              && s.input == file && s.inputStart == Parse(file).header.size && s.output == []
              && (Tame(s.codec) ==> s.StreamReady())
    ensures forall p, payload :: Recoverable(p, payload) && file == WrittenHeader(p) + payload ==>
              && s != null && s.inputStart == |WrittenHeader(p)|
              && Says(ConfOf(SettingsFrom(Parse(file).header)), p.resolution, p.blockSize, p.interval,
                      p.sense, p.endianness, p.status, p.restricted)
  {
    s, status := null, -1;
    forall p, payload | Recoverable(p, payload) && file == WrittenHeader(p) + payload
      ensures Parse(file).Ok? && Parse(file).header.size == |WrittenHeader(p)|
      ensures Says(ConfOf(SettingsFrom(Parse(file).header)), p.resolution, p.blockSize, p.interval,
                   p.sense, p.endianness, p.status, p.restricted)
    {
      RecoveredConfiguration(p, payload);
    }
    var header := new IqzipCompressionHeader.Blank();
    var ok, size := header.ParseHeader(file);
    if ok {
      var parsed := Parsed(header.primary.Bytes(), header.cip.Fixed(), header.cip.Variable(), header.extension, size);
      var conf := InitAecStream(SettingsFrom(parsed));
      var codec := family(conf);
      s := new CodecSession(codec, STREAM_CHUNK, file, size, []);
      status := codec.initStatus;
    }
  }

  /** `decompress`: the loop alone; a decoder has nothing to flush. All writes are sound exactly when
      the decoded file is shorter than 2^31 bytes. */
  method Decompress<S(!new)>(s: CodecSession<S>, ghost m: Meaning<S>) returns (status: int, sound: bool)
    requires Lawful(s.codec, m) && s.Unused() && s.inputStart <= |s.input|
    requires m.usable(CHUNK) > 0 && |m.eager(s.input[s.inputStart..])| < TWO_63
    modifies s
    ensures var payload := s.input[s.inputStart..];
            && (m.accepts(payload) ==> status == 0)
            && (status == 0 ==> (sound <==> |m.eager(payload)| < TWO_31))
            && (status == 0 && sound ==> s.output == old(s.output) + m.eager(payload))
            && (status != 0 ==> s.StoppedBy(m, old(s.output), payload, status))
    ensures old(s.output) <= s.output
  {
    var inb, outb := new byte[CHUNK], new byte[CHUNK];
    var total;
    status, total, sound := s.FilePump(m, inb, outb);
  }

  /** A streaming session: `decompress_init` for the header, one `stream_decompress` per payload
      buffer until one fails, `stream_decompress_fin`. */
  method StreamDecompressAll<S(!new)>(family: AecConf -> Codec<S>, file: seq<byte>, bufs: seq<seq<byte>>)
    returns (output: seq<byte>, status: int)
    requires Parse(file).Ok? && Tame(family(ConfOf(SettingsFrom(Parse(file).header))))
    requires forall i :: 0 <= i < |bufs| ==> |bufs[i]| + STREAM_CHUNK < TWO_63
    ensures (output, status) ==
            StreamLaws.StreamSession(family(ConfOf(SettingsFrom(Parse(file).header))), [], bufs, NoFlush)
  {
    var s;
    s, status := DecompressInit(family, file);
    assert s.Model() == Stream(s.codec.start, [], []);
    status := PushAll(s, bufs);
    if status == AEC_OK {
      status := s.StreamFinish(NoFlush);
    }
    output := s.output;
  }
}
