/** End to end: compressing a file and decompressing the result, and the streaming calls against
    the file calls. */
module RoundTrip {
  import opened Bytes
  import opened MachineInts
  import opened AecContract
  import opened StreamSpec
  import opened StreamLaws
  import opened Session
  import opened IqzipHeader
  import opened AecConf
  import Compressor
  import Decompressor

  /** What `decompress_init` needs to find on file: the compressor's configuration, and exactly the
      payload behind the header. */
  predicate Found(p: Params, payload: seq<byte>) {
    var file := WrittenHeader(p) + payload;
    var r := Parse(file);
    && r.Ok?
    && ConfOf(SettingsFrom(r.header)) == ConfOf(SettingsOf(p))
    && r.header.size <= |file| && file[r.header.size..] == payload
  }

  /** For all parameters and payloads, it is there exactly when the file is recoverable. */
  lemma PayloadIsFound(p: Params, payload: seq<byte>)
    ensures Found(p, payload) <==> Recoverable(p, payload)
  {
    if LongEnough(p, payload) {
      ConfigurationAgreesIff(p, payload);
      HeaderLengthAgreement(p, payload);
      BehindIff(WrittenHeader(p), payload, Parse(WrittenHeader(p) + payload).header.size);
    }
  }

  lemma BehindIff(h: seq<byte>, payload: seq<byte>, n: nat)
    ensures n <= |h + payload| && (h + payload)[n..] == payload <==> n == |h|
  {
    if n <= |h + payload| && n != |h| {
      assert |(h + payload)[n..]| != |payload|;
    }
  }

  /** The last flush of the file calls loses nothing. */
  predicate FlushFits<S>(m: Meaning<S>, input: seq<byte>) {
    |m.full(input)| <= |m.eager(input)| + m.usable(CHUNK)
  }

  /** Compress a file, decompress the result: when the file is recoverable the input comes back. The
      only hypothesis relating the two codecs is that, under the compressor's configuration,
      decoding the encoding of this input gives the input. */
  method FileRoundTrip<S(!new), T(!new)>(
    p: Params, enc: AecConf -> Codec<S>, dec: AecConf -> Codec<T>, ghost me: Meaning<S>, ghost md: Meaning<T>,
    input: seq<byte>)
    returns (status: int, output: seq<byte>)
    requires Recoverable(p, me.full(input))
    requires Lawful(enc(ConfOf(SettingsOf(p))), me) && Lawful(dec(ConfOf(SettingsOf(p))), md)
    requires me.usable(CHUNK) > 0 && md.usable(CHUNK) > 0
    requires me.accepts(input) && md.accepts(me.full(input))
    requires md.eager(me.full(input)) == input
    requires FlushFits(me, input) && |me.eager(input)| < TWO_31 && |input| < TWO_31
    ensures status == 0 && output == input
  {
    var s, t, sound;
    s, status := Compressor.CompressInit(p, enc, input);
    assert input[0..] == input;
    status, sound := Compressor.Compress(s, me);
    var file := s.output;
    assert file == WrittenHeader(p) + me.full(input);
    PayloadIsFound(p, me.full(input));
    t, status := Decompressor.DecompressInit(dec, file);
    status, sound := Decompressor.Decompress(t, md);
    output := t.output;
  }

  /** Whatever the buffers, the streaming calls write byte for byte the file of the file calls,
      exactly when the last flush of the streaming session fits or the tail emits nothing early. */
  method StreamMatchesFile<S(!new)>(p: Params, family: AecConf -> Codec<S>, ghost m: Meaning<S>, bufs: seq<seq<byte>>)
    returns (streamed: seq<byte>, filed: seq<byte>)
    requires p.resolution != 0 && forall i :: 0 <= i < |bufs| ==> |bufs[i]| + STREAM_CHUNK < TWO_63
    requires Lawful(family(ConfOf(SettingsOf(p))), m) && m.usable(CHUNK) > 0
    requires m.accepts(Concat(bufs)) && Undivided(family(ConfOf(SettingsOf(p))), Concat(bufs))
    requires |m.eager(Concat(bufs))| < TWO_31
    ensures var data := Concat(bufs);
            var early := EarlyOutput(m, data);
            streamed == filed <==> |m.full(data)| <= early + m.usable(CHUNK) || early == |m.eager(data)|
  {
    var status, s, sound;
    ghost var data, k := Concat(bufs), family(ConfOf(SettingsOf(p)));
    streamed, status := Compressor.StreamCompressAll(p, family, bufs);
    StreamingCompresses(k, m, WrittenHeader(p), bufs);
    var joined := Concat(bufs);
    s, status := Compressor.CompressInit(p, family, joined);
    assert joined[0..] == data;
    status, sound := Compressor.Compress(s, m);
    filed := s.output;
    EarlyOutputIsEarly(k, m, bufs);
    CutsMatchIff(WrittenHeader(p), m.full(data), EarlyOutput(m, data), |m.eager(data)|, m.usable(CHUNK));
  }

  lemma EarlyOutputIsEarly<S(!new)>(k: Codec<S>, m: Meaning<S>, bufs: seq<seq<byte>>)
    requires Lawful(k, m) && Undivided(k, Concat(bufs)) && m.accepts(Concat(bufs))
    ensures EarlyOutput(m, Concat(bufs)) <= |m.eager(Concat(bufs))| <= |m.full(Concat(bufs))|
  {
    var data := Concat(bufs);
    UndividedSession(k, m, [], bufs);
    PrefixOf(k, m, WholeBlocks(data), data);
    PrefixOf(k, m, data, data);
  }

  lemma CutsMatchIff(h: seq<byte>, full: seq<byte>, early: nat, all: nat, usable: nat)
    requires early <= all <= |full|
    requires usable > 0
    ensures h + Cut(full, early + usable) == h + Cut(full, all + usable) <==>
            |full| <= early + usable || early == all
  {
    if h + Cut(full, early + usable) == h + Cut(full, all + usable) {
      assert |Cut(full, early + usable)| == |Cut(full, all + usable)|;
    }
  }

  /** Shutting the codec down reports no error, whatever its state. */
  ghost predicate EndsWell<S(!new)>(k: Codec<S>) {
    forall s :: k.end(s) == AEC_OK
  }

  /** Compress with the streaming calls, cut into any buffers, decompress as a file. */
  method StreamRoundTrip<S(!new), T(!new)>(
    p: Params, enc: AecConf -> Codec<S>, dec: AecConf -> Codec<T>, ghost me: Meaning<S>, ghost md: Meaning<T>,
    bufs: seq<seq<byte>>)
    returns (packed: int, status: int, output: seq<byte>)
    requires Recoverable(p, me.full(Concat(bufs))) && p.resolution != 0
    requires forall i :: 0 <= i < |bufs| ==> |bufs[i]| + STREAM_CHUNK < TWO_63
    requires Lawful(enc(ConfOf(SettingsOf(p))), me) && Lawful(dec(ConfOf(SettingsOf(p))), md)
    requires me.accepts(Concat(bufs)) && md.accepts(me.full(Concat(bufs)))
    requires md.eager(me.full(Concat(bufs))) == Concat(bufs)
    requires Undivided(enc(ConfOf(SettingsOf(p))), Concat(bufs))
    requires |me.full(Concat(bufs))| <= EarlyOutput(me, Concat(bufs)) + me.usable(CHUNK)
    requires md.usable(CHUNK) > 0 && |Concat(bufs)| < TWO_31
    ensures status == 0 && output == Concat(bufs)
    ensures EndsWell(enc(ConfOf(SettingsOf(p)))) ==> packed == 0
  {
    var file, t, sound;
    file, packed := Compressor.StreamCompressAll(p, enc, bufs);
    StreamingCompresses(enc(ConfOf(SettingsOf(p))), me, WrittenHeader(p), bufs);
    PayloadIsFound(p, me.full(Concat(bufs)));
    t, status := Decompressor.DecompressInit(dec, file);
    status, sound := Decompressor.Decompress(t, md);
    output := t.output;
  }

  /** Streaming on both sides: cut the input into any buffers, and what is found behind the header
      into any other pieces. The streaming decompressor, configured from the header, writes the input. */
  method StreamToStream<S(!new), T(!new)>(
    p: Params, enc: AecConf -> Codec<S>, dec: AecConf -> Codec<T>, ghost me: Meaning<S>, ghost md: Meaning<T>,
    bufs: seq<seq<byte>>, pieces: seq<seq<byte>>)
    returns (packed: int, unpacked: int, output: seq<byte>)
    requires Recoverable(p, me.full(Concat(bufs))) && p.resolution != 0
    requires Concat(pieces) == me.full(Concat(bufs))
    requires forall i :: 0 <= i < |bufs| ==> |bufs[i]| + STREAM_CHUNK < TWO_63
    requires forall i :: 0 <= i < |pieces| ==> |pieces[i]| + STREAM_CHUNK < TWO_63
    requires Lawful(enc(ConfOf(SettingsOf(p))), me) && Lawful(dec(ConfOf(SettingsOf(p))), md)
    requires me.accepts(Concat(bufs)) && md.accepts(Concat(pieces))
    requires md.eager(me.full(Concat(bufs))) == Concat(bufs)
    requires Undivided(enc(ConfOf(SettingsOf(p))), Concat(bufs))
    requires Undivided(dec(ConfOf(SettingsOf(p))), Concat(pieces))
    requires |me.full(Concat(bufs))| <= EarlyOutput(me, Concat(bufs)) + me.usable(CHUNK)
    requires |Concat(bufs)| <= EarlyOutput(md, Concat(pieces)) + md.usable(CHUNK)
    ensures output == Concat(bufs)
    ensures EndsWell(enc(ConfOf(SettingsOf(p)))) ==> packed == 0
    ensures EndsWell(dec(ConfOf(SettingsOf(p)))) ==> unpacked == 0
  {
    var file;
    file, packed := Compressor.StreamCompressAll(p, enc, bufs);
    StreamingCompresses(enc(ConfOf(SettingsOf(p))), me, WrittenHeader(p), bufs);
    PayloadIsFound(p, me.full(Concat(bufs)));
    output, unpacked := Decompressor.StreamDecompressAll(dec, file, pieces);
    StreamingDecompresses(dec(ConfOf(SettingsOf(p))), md, [], pieces);
    assert [] + Concat(bufs) == Concat(bufs);
  }
}
