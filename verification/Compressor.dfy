/** The public calls of `compressor_impl`. A session object is made by the `init` calls; the model
    has one session per compressor object. */
module Compressor {
  import opened Bytes
  import opened MachineInts
  import opened AecContract
  import opened StreamSpec
  import opened Session
  import opened IqzipHeader
  import opened AecConf
  import StreamLaws

  /** `compress_init` and, with an empty input file, `stream_compress_init`. The codec is the one
      its configuration selects. The chunk buffer holds a whole block exactly when the sample
      resolution is not 0. */
  method CompressInit<S(!new)>(p: Params, family: AecConf -> Codec<S>, input: seq<byte>)
    returns (s: CodecSession<S>, status: int)
    ensures fresh(s) && fresh(s.tmpStream) && fresh(s.outBuffer) && s.Unused()
    ensures s.codec == family(ConfOf(SettingsOf(p))) && status == s.codec.initStatus
    ensures Says(ConfOf(SettingsOf(p)), p.resolution, p.blockSize, p.interval,
                 p.sense, p.endianness, p.status, p.restricted)
    ensures s.input == input && s.inputStart == 0 && s.output == WrittenHeader(p) && FileLayout(s.output, p)
    ensures s.tmpStream != s.outBuffer && s.outBuffer.Length == CHUNK == 10485760
    ensures s.tmpStream.Length == p.resolution as nat * 32768
    ensures s.tmpStream.Length >= STREAM_CHUNK <==> p.resolution != 0
  {
    var conf := InitAecStream(SettingsOf(p));
    ParametersAreSaid(p);
    var header := new IqzipCompressionHeader(p);
    var bytes := header.WriteHeader(p);
    var codec := family(conf);
    s := new CodecSession(codec, p.resolution as nat * STREAM_CHUNK, input, 0, bytes);
    status := codec.initStatus;
  }

  /** `compress`: the loop, then one flush into one output buffer. All writes are sound exactly
      when fewer than 2^31 bytes are emitted before the flush. The call succeeds even when the flush
      does not fit; the whole encoding is on file exactly when it does. */
  method Compress<S(!new)>(s: CodecSession<S>, ghost m: Meaning<S>) returns (status: int, sound: bool)
    requires Lawful(s.codec, m) && s.Unused() && s.inputStart <= |s.input|
    requires m.usable(CHUNK) > 0 && |m.eager(s.input[s.inputStart..])| < TWO_63
    modifies s
    ensures var all := s.input[s.inputStart..];
            && (m.accepts(all) ==> status == 0)
            && (status == 0 ==> (sound <==> |m.eager(all)| < TWO_31))
            && (status == 0 && sound ==>
                  && s.output == old(s.output) + Flushed(m, all, |m.eager(all)|, CHUNK)
                  && (s.output == old(s.output) + m.full(all) <==> |m.full(all)| <= |m.eager(all)| + m.usable(CHUNK)))
    ensures var all := s.input[s.inputStart..];
            status != 0 ==>
              || s.StoppedBy(m, old(s.output), all, status)
              || (status == -1 && s.output == old(s.output) + m.eager(all) && FlushFails(s.codec, m, all))
    ensures old(s.output) <= s.output
  {
    ghost var held, all := s.output, s.input[s.inputStart..];
    var inb, outb := new byte[CHUNK], new byte[CHUNK];
    var total;
    status, total, sound := s.FilePump(m, inb, outb);
    if status != AEC_OK || !sound {
      return;
    }
    status := FlushFile(s, m, inb, outb, held, all, total);
    CompleteIff(m, held, all);
  }

  /** The flush call fails in a state in which the whole file has been consumed and written out. */
  ghost predicate FlushFails<S(!new)>(k: Codec<S>, m: Meaning<S>, all: seq<byte>) {
    exists before: S :: m.rep(before, all, m.eager(all)) && k.run(before, DoFlush, [], CHUNK).status != AEC_OK
  }

  lemma CompleteIff<S>(m: Meaning<S>, held: seq<byte>, all: seq<byte>)
    ensures held + Flushed(m, all, |m.eager(all)|, CHUNK) == held + m.full(all) <==>
            |m.full(all)| <= |m.eager(all)| + m.usable(CHUNK)
  {
  }

  /** The end of `compress`: one flush call with nothing waiting, and its output. */
  method FlushFile<S(!new)>(s: CodecSession<S>, ghost m: Meaning<S>, inb: array<byte>, outb: array<byte>,
                            ghost held: seq<byte>, ghost all: seq<byte>, total: int)
    returns (status: int)
    requires Lawful(s.codec, m) && |m.eager(all)| < TWO_31
    requires s.Pumping(m, inb, outb, held, all, [], m.eager(all), total) && s.nextIn != null
    modifies s, outb
    ensures m.accepts(all) ==> status == 0
    ensures status == 0 ==> s.output == held + Flushed(m, all, |m.eager(all)|, CHUNK)
    ensures status != 0 ==> status == -1 && s.output == held + m.eager(all) && FlushFails(s.codec, m, all)
    ensures held <= s.output
  {
    FlushOutcome(s.codec, m, s.state, all);
    ghost var r;
    status, r := s.Run(DoFlush, []);
    if status != AEC_OK {
      return -1;
    }
    var produced := CodecSession<S>.Difference(s.totalOut, total);
    if produced > 0 {
      s.Write(outb, produced);
    }
    assert s.output == held + (m.eager(all) + r.out);
    status := 0;
  }

  lemma FlushOutcome<S(!new)>(k: Codec<S>, m: Meaning<S>, before: S, all: seq<byte>)
    requires Lawful(k, m) && m.rep(before, all, m.eager(all))
    ensures var r := k.run(before, DoFlush, [], CHUNK);
            && (m.accepts(all) ==> r.status == AEC_OK)
            && (r.status == AEC_OK ==> m.eager(all) + r.out == Flushed(m, all, |m.eager(all)|, CHUNK))
            && (r.status != AEC_OK ==> FlushFails(k, m, all))
  {
    assert all + [] == all;
    FlushFacts(k, m, before, all, m.eager(all), [], CHUNK);
  }

  /** A streaming session: `stream_compress_init`, one `stream_compress` per buffer until one
      fails, `stream_compress_fin`. */
  method StreamCompressAll<S(!new)>(p: Params, family: AecConf -> Codec<S>, bufs: seq<seq<byte>>)
    returns (file: seq<byte>, status: int)
    requires p.resolution != 0 && Tame(family(ConfOf(SettingsOf(p))))
    requires forall i :: 0 <= i < |bufs| ==> |bufs[i]| + STREAM_CHUNK < TWO_63
    ensures (file, status) == StreamLaws.StreamSession(family(ConfOf(SettingsOf(p))), WrittenHeader(p), bufs, DoFlush)
  {
    var s;
    s, status := CompressInit(p, family, []);
    assert s.Model() == Stream(s.codec.start, [], WrittenHeader(p));
    status := PushAll(s, bufs);
    if status == AEC_OK {
      status := s.StreamFinish(DoFlush);
    }
    file := s.output;
  }
}
