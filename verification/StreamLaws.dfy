/** What the chunked stream means when the codec is lawful. */
module StreamLaws {
  import opened Bytes
  import opened AecContract
  import opened StreamSpec

  /** The first n whole blocks. */
  function Head(data: seq<byte>, n: nat): seq<byte>
    requires n * STREAM_CHUNK <= |data|
  {
    data[..n * STREAM_CHUNK]
  }

  /** The tail after the whole blocks. */
  function Tail(data: seq<byte>): seq<byte> {
    data[|data| / STREAM_CHUNK * STREAM_CHUNK..]
  }

  function WholeBlocks(data: seq<byte>): seq<byte> {
    Head(data, |data| / STREAM_CHUNK)
  }

  /** A whole streaming session, on values: any number of calls, then the closing call. */
  function StreamSession<S>(k: Codec<S>, held: seq<byte>, bufs: seq<seq<byte>>, f: Flush): (seq<byte>, int) {
    var r := FeedAll(k, Stream(k.start, [], held), bufs);
    if r.1 != AEC_OK then (r.0.written, r.1) else Finish(k, r.0, f)
  }

  // -------------------------------------------------------------- with no assumption on output space

  /** The bytes the codec really took out of the first n blocks. `avail_in` is zeroed after each
      call, so the untaken end of a block is gone. */
  function TakenBytes<S>(k: Codec<S>, s: S, data: seq<byte>, n: nat): seq<byte>
    requires n * STREAM_CHUNK <= |data|
  {
    if n == 0 then []
    else
      var p := RunBlocks(k, s, data, n - 1);
      var r := k.run(p.0.state, NoFlush, Block(data, n - 1), CHUNK);
      TakenBytes(k, s, data, n - 1) + Block(data, n - 1)[..if r.taken <= STREAM_CHUNK then r.taken else STREAM_CHUNK]
  }

  ghost predicate TakesBlock<S>(k: Codec<S>, s: S, data: seq<byte>, i: nat) {
    (i + 1) * STREAM_CHUNK <= |data| &&
    k.run(RunBlocks(k, s, data, i).0.state, NoFlush, Block(data, i), CHUNK).taken == STREAM_CHUNK
  }

  ghost predicate TakesBlocks<S>(k: Codec<S>, s: S, data: seq<byte>, n: nat) {
    forall i: nat :: i < n ==> TakesBlock(k, s, data, i)
  }

  /** Every call of a session took its whole block. `Fits`, below, is enough for it (`BlocksConserve`),
      and a frugal codec needs that (`BlocksTakenIff`). */
  ghost predicate Undivided<S>(k: Codec<S>, data: seq<byte>) {
    TakesBlocks(k, k.start, data, |data| / STREAM_CHUNK)
  }

  /** The file is what the codec emits for the bytes it took. */
  lemma {:induction false} OutputIsOfTakenBytes<S(!new)>(k: Codec<S>, m: Meaning<S>, data: seq<byte>, n: nat)
    requires Lawful(k, m)
    requires n * STREAM_CHUNK <= |data|
    requires RunBlocks(k, k.start, data, n).0.status == AEC_OK
    ensures var r := RunBlocks(k, k.start, data, n);
            m.rep(r.0.state, TakenBytes(k, k.start, data, n), r.1)
  {
    if n > 0 {
      var p := RunBlocks(k, k.start, data, n - 1);
      OutputIsOfTakenBytes(k, m, data, n - 1);
      assert NoFlushLaw(k, m, p.0.state, TakenBytes(k, k.start, data, n - 1), p.1, Block(data, n - 1), CHUNK);
    }
  }

  /** No input byte is lost exactly when every call took its whole block. */
  lemma {:induction false} NothingLostIff<S(!new)>(k: Codec<S>, s: S, data: seq<byte>, n: nat)
    requires Tame(k)
    requires n * STREAM_CHUNK <= |data|
    ensures |TakenBytes(k, s, data, n)| <= n * STREAM_CHUNK
    ensures TakenBytes(k, s, data, n) == Head(data, n) <==> TakesBlocks(k, s, data, n)
  {
    if n > 0 {
      NothingLostIff(k, s, data, n - 1);
      var p := RunBlocks(k, s, data, n - 1);
      assert Bounded(k.run(p.0.state, NoFlush, Block(data, n - 1), CHUNK), Block(data, n - 1), CHUNK);
      assert Head(data, n) == Head(data, n - 1) + Block(data, n - 1);
      if TakesBlock(k, s, data, n - 1) {
        assert Block(data, n - 1)[..STREAM_CHUNK] == Block(data, n - 1);
      } else {
        assert |TakenBytes(k, s, data, n)| < |Head(data, n)|;
      }
    }
  }

  /** All the codec took during the calls, before the closing one. */
  function SessionTaken<S>(k: Codec<S>, data: seq<byte>): seq<byte> {
    TakenBytes(k, k.start, data, |data| / STREAM_CHUNK)
  }

  /** After calls that succeed, however the data was cut: the file is what the codec emits for what
      it took, and the tail waits. */
  lemma SessionBeforeFinish<S(!new)>(k: Codec<S>, m: Meaning<S>, held: seq<byte>, bufs: seq<seq<byte>>)
    requires Lawful(k, m) && FeedAll(k, Stream(k.start, [], held), bufs).1 == AEC_OK
    ensures var data := Concat(bufs);
            var st := FeedAll(k, Stream(k.start, [], held), bufs).0;
            var r := RunBlocks(k, k.start, data, |data| / STREAM_CHUNK);
            && r.0.status == AEC_OK
            && st == Stream(r.0.state, Tail(data), held + r.1)
            && m.rep(st.state, SessionTaken(k, data), r.1)
  {
    var data := Concat(bufs);
    PartitionIndependence(k, Stream(k.start, [], held), bufs);
    CanonicalBlocks(k, k.start, data, held);
    OutputIsOfTakenBytes(k, m, data, |data| / STREAM_CHUNK);
  }

  /** All calls succeed, and the closing one does not use up the output space. */
  ghost predicate EndsWithRoom<S>(k: Codec<S>, m: Meaning<S>, held: seq<byte>, bufs: seq<seq<byte>>) {
    var (st, status) := FeedAll(k, Stream(k.start, [], held), bufs);
    var r := k.run(st.state, NoFlush, st.tmp, CHUNK);
    status == AEC_OK && r.status == AEC_OK && |r.out| < m.usable(CHUNK)
  }

  /** The closing call of a decompression session. */
  lemma FinishDrains<S(!new)>(
    k: Codec<S>, m: Meaning<S>, st: Stream<S>, held: seq<byte>, c: seq<byte>, e: seq<byte>)
    requires Lawful(k, m) && m.rep(st.state, c, e) && st.written == held + e
    requires k.run(st.state, NoFlush, st.tmp, CHUNK).status == AEC_OK
    ensures var r := k.run(st.state, NoFlush, st.tmp, CHUNK);
            var whole := m.eager(c + st.tmp);
            && Finish(k, st, NoFlush).0 == held + Cut(whole, |e| + m.usable(CHUNK))
            && (|r.out| < m.usable(CHUNK) ==> Finish(k, st, NoFlush).0 == held + whole)
  {
    CallFacts(k, m, st.state, c, e, st.tmp, CHUNK, c + st.tmp);
    var r := k.run(st.state, NoFlush, st.tmp, CHUNK);
    assert held + e + r.out == held + (e + r.out);
  }

  /** Such a decompression session writes exactly what the decoder emits for the bytes it took during
      the calls followed by the tail. */
  lemma DecompressesTakenBytes<S(!new)>(k: Codec<S>, m: Meaning<S>, held: seq<byte>, bufs: seq<seq<byte>>)
    requires Lawful(k, m) && EndsWithRoom(k, m, held, bufs)
    ensures StreamSession(k, held, bufs, NoFlush).0 ==
            held + m.eager(SessionTaken(k, Concat(bufs)) + Tail(Concat(bufs)))
  {
    var data := Concat(bufs);
    SessionBeforeFinish(k, m, held, bufs);
    var st := FeedAll(k, Stream(k.start, [], held), bufs).0;
    var e := RunBlocks(k, k.start, data, |data| / STREAM_CHUNK).1;
    FinishDrains(k, m, st, held, SessionTaken(k, data), e);
  }

  /** The closing call of a compression session. */
  lemma FinishFlushes<S(!new)>(
    k: Codec<S>, m: Meaning<S>, st: Stream<S>, held: seq<byte>, c: seq<byte>, e: seq<byte>)
    requires Lawful(k, m) && m.rep(st.state, c, e) && st.written == held + e
    requires k.run(st.state, DoFlush, st.tmp, CHUNK).status == AEC_OK
    ensures Finish(k, st, DoFlush).0 == held + Flushed(m, c + st.tmp, |e|, CHUNK)
  {
    FlushFacts(k, m, st.state, c, e, st.tmp, CHUNK);
    var r := k.run(st.state, DoFlush, st.tmp, CHUNK);
    assert held + e + r.out == held + (e + r.out);
  }

  /** A compression session likewise encodes the bytes it took followed by the tail, as far as the
      flush reaches. */
  lemma CompressesTakenBytes<S(!new)>(k: Codec<S>, m: Meaning<S>, held: seq<byte>, bufs: seq<seq<byte>>)
    requires Lawful(k, m) && FeedAll(k, Stream(k.start, [], held), bufs).1 == AEC_OK
    requires var st := FeedAll(k, Stream(k.start, [], held), bufs).0;
             k.run(st.state, DoFlush, st.tmp, CHUNK).status == AEC_OK
    ensures var data := Concat(bufs);
            var before := RunBlocks(k, k.start, data, |data| / STREAM_CHUNK).1;
            StreamSession(k, held, bufs, DoFlush).0 ==
            held + Flushed(m, SessionTaken(k, data) + Tail(data), |before|, CHUNK)
  {
    var data := Concat(bufs);
    SessionBeforeFinish(k, m, held, bufs);
    var st := FeedAll(k, Stream(k.start, [], held), bufs).0;
    var e := RunBlocks(k, k.start, data, |data| / STREAM_CHUNK).1;
    FinishFlushes(k, m, st, held, SessionTaken(k, data), e);
  }

  /** When every call took its whole block, a decompression session writes what the decoder emits for
      the joined buffers. */
  lemma DecompressesWhenTaken<S(!new)>(k: Codec<S>, m: Meaning<S>, held: seq<byte>, bufs: seq<seq<byte>>)
    requires Lawful(k, m) && EndsWithRoom(k, m, held, bufs)
    requires Undivided(k, Concat(bufs))
    ensures StreamSession(k, held, bufs, NoFlush).0 == held + m.eager(Concat(bufs))
  {
    DecompressesTakenBytes(k, m, held, bufs);
    NothingLostIff(k, k.start, Concat(bufs), |Concat(bufs)| / STREAM_CHUNK);
    assert WholeBlocks(Concat(bufs)) + Tail(Concat(bufs)) == Concat(bufs);
  }

  // -------------------------------------------------------------- the condition on output lengths

  /** How many bytes are on file after i whole blocks, when all of them were consumed: each call
      adds all that can be emitted, or one output buffer of it. */
  function Emitted<S>(m: Meaning<S>, data: seq<byte>, i: nat): nat
    requires i * STREAM_CHUNK <= |data|
  {
    if i == 0 then 0
    else
      var full := Emitted(m, data, i - 1) + m.usable(CHUNK);
      if |m.eager(Head(data, i))| <= full then |m.eager(Head(data, i))| else full
  }

  /** All but the last byte of block i leave room in the output buffer. */
  ghost predicate FitsAt<S>(m: Meaning<S>, data: seq<byte>, i: nat)
    requires (i + 1) * STREAM_CHUNK <= |data|
  {
    |m.eager(data[..(i + 1) * STREAM_CHUNK - 1])| < Emitted(m, data, i) + m.usable(CHUNK)
  }

  ghost predicate FitsUpTo<S>(m: Meaning<S>, data: seq<byte>, n: nat)
    requires n * STREAM_CHUNK <= |data|
  {
    forall i: nat :: i < n ==> FitsAt(m, data, i)
  }

  ghost predicate Fits<S>(m: Meaning<S>, data: seq<byte>) {
    FitsUpTo(m, data, |data| / STREAM_CHUNK)
  }

  /** When the first n blocks were taken whole, the file holds the first `Emitted` bytes of what
      can be emitted for them. */
  lemma {:induction false} OutputOfWholeBlocks<S(!new)>(k: Codec<S>, m: Meaning<S>, data: seq<byte>, n: nat)
    requires Lawful(k, m)
    requires n * STREAM_CHUNK <= |data|
    requires RunBlocks(k, k.start, data, n).0.status == AEC_OK
    requires TakesBlocks(k, k.start, data, n)
    ensures var r := RunBlocks(k, k.start, data, n);
            && m.rep(r.0.state, Head(data, n), r.1)
            && r.1 == Cut(m.eager(Head(data, n)), Emitted(m, data, n))
            && |r.1| == Emitted(m, data, n)
  {
    if n == 0 {
      assert Head(data, 0) == [];
    } else {
      OutputOfWholeBlocks(k, m, data, n - 1);
      var p := RunBlocks(k, k.start, data, n - 1);
      var b := Block(data, n - 1);
      assert Head(data, n - 1) + b == Head(data, n);
      assert TakesBlock(k, k.start, data, n - 1) && b[..STREAM_CHUNK] == b;
      CallFacts(k, m, p.0.state, Head(data, n - 1), p.1, b, CHUNK, Head(data, n));
    }
  }

  /** Block n is taken whole when it fits; by a frugal codec only then. */
  lemma BlockTakenIff<S(!new)>(k: Codec<S>, m: Meaning<S>, data: seq<byte>, n: nat)
    requires Lawful(k, m)
    requires (n + 1) * STREAM_CHUNK <= |data|
    requires RunBlocks(k, k.start, data, n + 1).0.status == AEC_OK
    requires TakesBlocks(k, k.start, data, n)
    ensures FitsAt(m, data, n) ==> TakesBlock(k, k.start, data, n)
    ensures Frugal(k, m) ==> (TakesBlock(k, k.start, data, n) <==> FitsAt(m, data, n))
  {
    EarlierBlocksPass(k, k.start, data, n, n + 1);
    OutputOfWholeBlocks(k, m, data, n);
    var p := RunBlocks(k, k.start, data, n);
    var b := Block(data, n);
    assert Head(data, n) + b[..STREAM_CHUNK - 1] == data[..(n + 1) * STREAM_CHUNK - 1];
    TakesAllIff(k, m, p.0.state, Head(data, n), p.1, b, CHUNK);
  }

  /** The first n blocks are taken whole when each of them fits; by a frugal codec only then. */
  lemma {:induction false} BlocksTakenIff<S(!new)>(k: Codec<S>, m: Meaning<S>, data: seq<byte>, n: nat)
    requires Lawful(k, m)
    requires n * STREAM_CHUNK <= |data|
    requires RunBlocks(k, k.start, data, n).0.status == AEC_OK
    ensures FitsUpTo(m, data, n) ==> TakesBlocks(k, k.start, data, n)
    ensures Frugal(k, m) ==> (TakesBlocks(k, k.start, data, n) <==> FitsUpTo(m, data, n))
  {
    if n > 0 {
      EarlierBlocksPass(k, k.start, data, n - 1, n);
      BlocksTakenIff(k, m, data, n - 1);
      if TakesBlocks(k, k.start, data, n - 1) {
        BlockTakenIff(k, m, data, n - 1);
      }
    }
  }

  /** On accepted data block n does not fail when the blocks before it were taken whole. */
  lemma BlockPasses<S(!new)>(k: Codec<S>, m: Meaning<S>, data: seq<byte>, n: nat)
    requires Lawful(k, m) && m.accepts(data)
    requires (n + 1) * STREAM_CHUNK <= |data|
    requires RunBlocks(k, k.start, data, n).0.status == AEC_OK && TakesBlocks(k, k.start, data, n)
    ensures RunBlocks(k, k.start, data, n + 1).0.status == AEC_OK
  {
    OutputOfWholeBlocks(k, m, data, n);
    var p := RunBlocks(k, k.start, data, n);
    assert Head(data, n) + Block(data, n) == Head(data, n + 1);
    CallFacts(k, m, p.0.state, Head(data, n), p.1, Block(data, n), CHUNK, data);
  }

  lemma {:induction false} BlocksPass<S(!new)>(k: Codec<S>, m: Meaning<S>, data: seq<byte>, n: nat)
    requires Lawful(k, m) && m.accepts(data)
    requires n * STREAM_CHUNK <= |data| && TakesBlocks(k, k.start, data, n)
    ensures RunBlocks(k, k.start, data, n).0.status == AEC_OK
  {
    if n > 0 {
      BlocksPass(k, m, data, n - 1);
      BlockPasses(k, m, data, n - 1);
    }
  }

  /** With room, no block fails on accepted data and nothing is lost. */
  lemma {:induction false} BlocksConserve<S(!new)>(k: Codec<S>, m: Meaning<S>, data: seq<byte>, n: nat)
    requires Lawful(k, m) && m.accepts(data)
    requires n * STREAM_CHUNK <= |data| && FitsUpTo(m, data, n)
    ensures RunBlocks(k, k.start, data, n).0.status == AEC_OK && TakesBlocks(k, k.start, data, n)
  {
    if n > 0 {
      BlocksConserve(k, m, data, n - 1);
      BlockPasses(k, m, data, n - 1);
      BlockTakenIff(k, m, data, n - 1);
    }
  }

  // -------------------------------------------------------------- whole sessions

  /** How many bytes are on file before the closing call, when every block was consumed. */
  function EarlyOutput<S>(m: Meaning<S>, data: seq<byte>): nat {
    Emitted(m, data, |data| / STREAM_CHUNK)
  }

  /** All but the last byte of the tail leave room in the closing call's output buffer. */
  predicate FitsTail<S>(m: Meaning<S>, data: seq<byte>) {
    |data| % STREAM_CHUNK != 0 ==> |m.eager(data[..|data| - 1])| < EarlyOutput(m, data) + m.usable(CHUNK)
  }

  /** Every call of the session, the closing one included, took all it was given. */
  ghost predicate EverythingTaken<S>(k: Codec<S>, held: seq<byte>, bufs: seq<seq<byte>>) {
    var data := Concat(bufs);
    var st := FeedAll(k, Stream(k.start, [], held), bufs).0;
    && Undivided(k, data)
    && k.run(st.state, NoFlush, st.tmp, CHUNK).taken == |st.tmp|
  }

  /** The decoder is given exactly the joined buffers when all calls have room for all but the last
      byte of their input, a condition on output lengths alone; a frugal decoder only then. */
  lemma EverythingTakenIff<S(!new)>(k: Codec<S>, m: Meaning<S>, held: seq<byte>, bufs: seq<seq<byte>>)
    requires Lawful(k, m) && FeedAll(k, Stream(k.start, [], held), bufs).1 == AEC_OK
    requires var st := FeedAll(k, Stream(k.start, [], held), bufs).0;
             k.run(st.state, NoFlush, st.tmp, CHUNK).status == AEC_OK
    ensures Fits(m, Concat(bufs)) && FitsTail(m, Concat(bufs)) ==> EverythingTaken(k, held, bufs)
    ensures Frugal(k, m) ==> (EverythingTaken(k, held, bufs) <==> Fits(m, Concat(bufs)) && FitsTail(m, Concat(bufs)))
  {
    var data := Concat(bufs);
    var n := |data| / STREAM_CHUNK;
    SessionBeforeFinish(k, m, held, bufs);
    BlocksTakenIff(k, m, data, n);
    if Undivided(k, data) {
      TailTakenIff(k, m, held, bufs);
    }
  }

  lemma TailTakenIff<S(!new)>(k: Codec<S>, m: Meaning<S>, held: seq<byte>, bufs: seq<seq<byte>>)
    requires Lawful(k, m) && FeedAll(k, Stream(k.start, [], held), bufs).1 == AEC_OK
    requires Undivided(k, Concat(bufs))
    requires var st := FeedAll(k, Stream(k.start, [], held), bufs).0;
             k.run(st.state, NoFlush, st.tmp, CHUNK).status == AEC_OK
    ensures var data := Concat(bufs);
            var st := FeedAll(k, Stream(k.start, [], held), bufs).0;
            var all := k.run(st.state, NoFlush, st.tmp, CHUNK).taken == |st.tmp|;
            (FitsTail(m, data) ==> all) && (Frugal(k, m) ==> (all <==> FitsTail(m, data)))
  {
    var data := Concat(bufs);
    var n := |data| / STREAM_CHUNK;
    SessionBeforeFinish(k, m, held, bufs);
    OutputOfWholeBlocks(k, m, data, n);
    var r := RunBlocks(k, k.start, data, n);
    TailAtState(k, m, r.0.state, data, r.1);
  }

  lemma TailAtState<S(!new)>(k: Codec<S>, m: Meaning<S>, s: S, data: seq<byte>, e: seq<byte>)
    requires Lawful(k, m) && m.rep(s, WholeBlocks(data), e) && |e| == EarlyOutput(m, data)
    requires k.run(s, NoFlush, Tail(data), CHUNK).status == AEC_OK
    ensures var all := k.run(s, NoFlush, Tail(data), CHUNK).taken == |Tail(data)|;
            (FitsTail(m, data) ==> all) && (Frugal(k, m) ==> (all <==> FitsTail(m, data)))
  {
    if Tail(data) == [] {
      assert Bounded(k.run(s, NoFlush, Tail(data), CHUNK), Tail(data), CHUNK);
    } else {
      assert WholeBlocks(data) + Tail(data)[..|Tail(data)| - 1] == data[..|data| - 1];
      TakesAllIff(k, m, s, WholeBlocks(data), e, Tail(data), CHUNK);
    }
  }

  /** Before the closing call the file holds all that the output buffers could carry, and the tail
      waits. */
  lemma UndividedSession<S(!new)>(k: Codec<S>, m: Meaning<S>, held: seq<byte>, bufs: seq<seq<byte>>)
    requires Lawful(k, m) && Undivided(k, Concat(bufs)) && m.accepts(Concat(bufs))
    ensures var data := Concat(bufs);
            var e := Cut(m.eager(WholeBlocks(data)), EarlyOutput(m, data));
            var r := FeedAll(k, Stream(k.start, [], held), bufs);
            && r.1 == AEC_OK && r.0.tmp == Tail(data) && r.0.written == held + e
            && |e| == EarlyOutput(m, data) && m.rep(r.0.state, WholeBlocks(data), e)
  {
    var data := Concat(bufs);
    BlocksPass(k, m, data, |data| / STREAM_CHUNK);
    PartitionIndependence(k, Stream(k.start, [], held), bufs);
    CanonicalBlocks(k, k.start, data, held);
    OutputOfWholeBlocks(k, m, data, |data| / STREAM_CHUNK);
  }

  /** The codec after the closing call. */
  function LastState<S>(k: Codec<S>, held: seq<byte>, bufs: seq<seq<byte>>, f: Flush): S {
    var st := FeedAll(k, Stream(k.start, [], held), bufs).0;
    k.run(st.state, f, st.tmp, CHUNK).state
  }

  /** The status of a session is that of its first failing step: a streaming call's own, -1 for the
      closing call, and otherwise that of shutting the codec down. A failing step writes nothing. */
  lemma SessionStatus<S>(k: Codec<S>, held: seq<byte>, bufs: seq<seq<byte>>, f: Flush)
    ensures var (st, status) := FeedAll(k, Stream(k.start, [], held), bufs);
            var last := k.run(st.state, f, st.tmp, CHUNK);
            var (file, result) := StreamSession(k, held, bufs, f);
            && (status != AEC_OK ==> result == status && file == st.written)
            && (status == AEC_OK && last.status != AEC_OK ==> result == -1 && file == st.written)
            && (status == AEC_OK && last.status == AEC_OK ==>
                  result == k.end(LastState(k, held, bufs, f)) && file == st.written + last.out)
            && (result == 0 <==>
                status == AEC_OK && last.status == AEC_OK && k.end(LastState(k, held, bufs, f)) == 0)
  {
  }

  /** A streaming compression session writes the encoding of the joined buffers, cut short only
      when the last flush does not fit the output buffer. */
  lemma StreamingCompresses<S(!new)>(k: Codec<S>, m: Meaning<S>, held: seq<byte>, bufs: seq<seq<byte>>)
    requires Lawful(k, m) && Undivided(k, Concat(bufs)) && m.accepts(Concat(bufs))
    ensures var data := Concat(bufs);
            && StreamSession(k, held, bufs, DoFlush).0 == held + Flushed(m, data, EarlyOutput(m, data), CHUNK)
            && StreamSession(k, held, bufs, DoFlush).1 == k.end(LastState(k, held, bufs, DoFlush))
  {
    var data := Concat(bufs);
    UndividedSession(k, m, held, bufs);
    assert WholeBlocks(data) + Tail(data) == data;
    var st := FeedAll(k, Stream(k.start, [], held), bufs).0;
    var e := Cut(m.eager(WholeBlocks(data)), EarlyOutput(m, data));
    FlushFacts(k, m, st.state, WholeBlocks(data), e, st.tmp, CHUNK);
    FinishFlushes(k, m, st, held, WholeBlocks(data), e);
  }

  /** A streaming decompression session writes what the decoder emits for the joined buffers, as far
      as the closing call's output buffer reaches. */
  lemma StreamingDecompresses<S(!new)>(k: Codec<S>, m: Meaning<S>, held: seq<byte>, bufs: seq<seq<byte>>)
    requires Lawful(k, m) && Undivided(k, Concat(bufs)) && m.accepts(Concat(bufs))
    ensures var data := Concat(bufs);
            var last := EarlyOutput(m, data) + m.usable(CHUNK);
            && StreamSession(k, held, bufs, NoFlush).0 == held + Cut(m.eager(data), last)
            && (StreamSession(k, held, bufs, NoFlush).0 == held + m.eager(data) <==> |m.eager(data)| <= last)
            && StreamSession(k, held, bufs, NoFlush).1 == k.end(LastState(k, held, bufs, NoFlush))
  {
    var data := Concat(bufs);
    UndividedSession(k, m, held, bufs);
    assert WholeBlocks(data) + Tail(data) == data;
    var st := FeedAll(k, Stream(k.start, [], held), bufs).0;
    var e := Cut(m.eager(WholeBlocks(data)), EarlyOutput(m, data));
    CallFacts(k, m, st.state, WholeBlocks(data), e, st.tmp, CHUNK, data);
    FinishDrains(k, m, st, held, WholeBlocks(data), e);
  }
}
