/**
 Concrete codecs that meet the contract, so that the theorems about lawful codecs speak of
 something: block-buffering ones, on which the round trips run, and ones that emit so much that a
 single call cannot write out a whole stream block.
 */
module SampleCodecs {
  import opened Bytes
  import opened MachineInts
  import opened AecContract
  import opened StreamSpec
  import opened StreamLaws
  import opened IqzipHeader
  import opened AecConf
  import Compressor
  import RoundTrip

  /** Everything consumed so far, and how much has been emitted for it. */
  datatype History = History(consumed: seq<byte>, emitted: nat)

  type Text = seq<byte>

  /** How much input a call takes: what was consumed before, the input, and the output length at
      which the output space is used up. */
  type Policy = (Text, Text, nat) -> nat

  /** The greatest multiple of `size` up to `n`. */
  function Floor(n: nat, size: nat): (r: nat)
    requires size > 0
    ensures r <= n < r + size
  {
    Quotient(n, size);
    n / size * size
  }

  lemma Quotient(n: nat, size: nat)
    requires size > 0
    ensures n == n / size * size + n % size
  {
  }

  lemma FloorGrows(a: nat, b: nat, size: nat)
    requires a <= b && size > 0
    ensures Floor(a, size) <= Floor(b, size)
  {
    if b / size < a / size {
      TimesGrows(b / size + 1, a / size, size);
    } else {
      TimesGrows(a / size, b / size, size);
    }
  }

  lemma TimesGrows(x: nat, y: nat, size: nat)
    requires x <= y
    ensures x * size <= y * size
  {
  }

  /** The part of `s` after the first `n` bytes, at most `room` bytes of it. */
  function Pending(s: Text, n: nat, room: nat): (out: Text)
    ensures |out| <= room
  {
    if |s| <= n then [] else if |s| - n <= room then s[n..] else s[n..n + room]
  }

  /** One call, emitting samples of `unit` bytes. A flush takes all input. */
  function Call(eager: Text -> Text, full: Text -> Text, take: Policy, unit: nat,
                s: History, f: Flush, inp: Text, room: nat): (r: Step<History>)
    requires unit > 0
    ensures r.taken <= |inp| && |r.out| <= Floor(room, unit)
  {
    var wish := take(s.consumed, inp, s.emitted + Floor(room, unit));
    var n := if f.DoFlush? || wish > |inp| then |inp| else wish;
    var c := s.consumed + inp[..n];
    var out := Pending(if f.DoFlush? then full(c) else eager(c), s.emitted, Floor(room, unit));
    Step(AEC_OK, History(c, s.emitted + |out|), n, out)
  }

  function Codify(eager: Text -> Text, full: Text -> Text, take: Policy, unit: nat): Codec<History>
    requires unit > 0
  {
    Codec(AEC_OK, History([], 0),
          (s: History, f: Flush, inp: Text, room: nat) => Call(eager, full, take, unit, s, f, inp, room),
          (s: History) => AEC_OK)
  }

  function MeaningOf(eager: Text -> Text, full: Text -> Text, unit: nat): Meaning<History>
    requires unit > 0
  {
    Meaning((s: History, c: Text, e: Text) => s.consumed == c && s.emitted == |e| && e <= eager(c),
            (c: Text) => true, eager, full, (room: nat) => Floor(room, unit))
  }

  ghost predicate Extends(eager: Text -> Text, full: Text -> Text, c: Text, d: Text) {
    eager(c) <= eager(c + d) && eager(c) <= full(c + d)
  }

  /** Input is left only when what was taken uses up the output space. */
  ghost predicate TakesEnough(eager: Text -> Text, take: Policy, c: Text, inp: Text, limit: nat) {
    take(c, inp, limit) < |inp| ==> |eager(c + inp[..take(c, inp, limit)])| >= limit
  }

  lemma CodifyIsLawful(eager: Text -> Text, full: Text -> Text, take: Policy, unit: nat)
    requires unit > 0 && eager([]) == []
    requires forall c, d :: Extends(eager, full, c, d)
    requires forall c, inp, limit :: TakesEnough(eager, take, c, inp, limit)
    ensures Lawful(Codify(eager, full, take, unit), MeaningOf(eager, full, unit))
  {
    var k, m := Codify(eager, full, take, unit), MeaningOf(eager, full, unit);
    forall s, f, inp, room
      ensures Bounded(k.run(s, f, inp, room), inp, room)
    {
      assert k.run(s, f, inp, room) == Call(eager, full, take, unit, s, f, inp, room);
    }
    forall c, d
      ensures PrefixLaw(m, c, d)
    {
      assert Extends(eager, full, c, d);
    }
    forall s, c, e, inp, room
      ensures NoFlushLaw(k, m, s, c, e, inp, room)
    {
      if m.rep(s, c, e) {
        NoFlushIsLawful(eager, full, take, unit, s, c, e, inp, room);
      }
    }
    forall s, c, e, inp, room
      ensures FlushLaw(k, m, s, c, e, inp, room)
    {
      if m.rep(s, c, e) {
        FlushIsLawful(eager, full, take, unit, s, c, e, inp, room);
      }
    }
  }

  lemma FlushIsLawful(eager: Text -> Text, full: Text -> Text, take: Policy, unit: nat,
                      s: History, c: Text, e: Text, inp: Text, room: nat)
    requires unit > 0
    requires forall c, d :: Extends(eager, full, c, d)
    requires MeaningOf(eager, full, unit).rep(s, c, e)
    ensures FlushLaw(Codify(eager, full, take, unit), MeaningOf(eager, full, unit), s, c, e, inp, room)
  {
    assert Extends(eager, full, c, inp);
    assert c + inp[..|inp|] == c + inp;
    assert e <= full(c + inp);
    assert Codify(eager, full, take, unit).run(s, DoFlush, inp, room) ==
           Call(eager, full, take, unit, s, DoFlush, inp, room);
    assert full(c + inp)[..|e|] == e;
  }

  lemma NoFlushIsLawful(eager: Text -> Text, full: Text -> Text, take: Policy, unit: nat,
                        s: History, c: Text, e: Text, inp: Text, room: nat)
    requires unit > 0
    requires forall c, d :: Extends(eager, full, c, d)
    requires forall c, inp, limit :: TakesEnough(eager, take, c, inp, limit)
    requires MeaningOf(eager, full, unit).rep(s, c, e)
    ensures NoFlushLaw(Codify(eager, full, take, unit), MeaningOf(eager, full, unit), s, c, e, inp, room)
  {
    var r := Call(eager, full, take, unit, s, NoFlush, inp, room);
    assert Codify(eager, full, take, unit).run(s, NoFlush, inp, room) == r;
    var c' := c + inp[..r.taken];
    assert Extends(eager, full, c, inp[..r.taken]);
    assert TakesEnough(eager, take, c, inp, |e| + Floor(room, unit));
    assert e + r.out <= eager(c');
    if r.taken == |inp| {
      assert inp[..r.taken] == inp;
    }
  }

  // -------------------------------------------------------------- how much is taken

  function TakeAll(): Policy { (c: Text, inp: Text, limit: nat) => |inp| }

  /** A codec that takes all its input never leaves part of a block. */
  lemma TakeAllIsUndivided(eager: Text -> Text, full: Text -> Text, unit: nat, data: Text)
    requires unit > 0
    ensures Undivided(Codify(eager, full, TakeAll(), unit), data)
  {
  }

  /** Take bytes until the output space is used up. */
  function TakeUntilFull(eager: Text -> Text): Policy {
    (c: Text, inp: Text, limit: nat) => UntilFull(eager, c, inp, limit, 0)
  }

  function UntilFull(eager: Text -> Text, c: Text, inp: Text, limit: nat, n: nat): (r: nat)
    requires n <= |inp|
    ensures n <= r <= |inp|
    ensures r < |inp| ==> |eager(c + inp[..r])| >= limit
    ensures r > n ==> |eager(c + inp[..r - 1])| < limit
    decreases |inp| - n
  {
    if n == |inp| || |eager(c + inp[..n])| >= limit then n else UntilFull(eager, c, inp, limit, n + 1)
  }

  lemma TakeUntilFullIsFrugal(eager: Text -> Text, full: Text -> Text, unit: nat)
    requires unit > 0
    ensures Frugal(Codify(eager, full, TakeUntilFull(eager), unit), MeaningOf(eager, full, unit))
  {
    var k, m := Codify(eager, full, TakeUntilFull(eager), unit), MeaningOf(eager, full, unit);
    forall s, c, e, inp, room
      ensures FrugalLaw(k, m, s, c, e, inp, room)
    {
      assert k.run(s, NoFlush, inp, room) == Call(eager, full, TakeUntilFull(eager), unit, s, NoFlush, inp, room);
    }
  }

  // -------------------------------------------------------------- whole blocks only

  /** Holds back an incomplete block until it is flushed. */
  function BlockEager(size: nat): Text -> Text
    requires size > 0
  {
    (c: Text) => c[..Floor(|c|, size)]
  }

  function Same(): Text -> Text { (c: Text) => c }

  /** Emits whole blocks, and at the end the rest. */
  function BlockCodec(size: nat): Codec<History>
    requires size > 0
  {
    Codify(BlockEager(size), Same(), TakeAll(), 1)
  }

  function BlockMeaning(size: nat): Meaning<History>
    requires size > 0
  {
    MeaningOf(BlockEager(size), Same(), 1)
  }

  /** Emits whole samples only, so it can fill no more than a multiple of the sample size. */
  function SampleCodec(size: nat): Codec<History>
    requires size > 0
  {
    Codify(BlockEager(size), Same(), TakeAll(), size)
  }

  function SampleMeaning(size: nat): Meaning<History>
    requires size > 0
  {
    MeaningOf(BlockEager(size), Same(), size)
  }

  lemma BlocksAreLawful(size: nat, unit: nat)
    requires size > 0 && unit > 0
    ensures Lawful(Codify(BlockEager(size), Same(), TakeAll(), unit), MeaningOf(BlockEager(size), Same(), unit))
  {
    forall c, d
      ensures Extends(BlockEager(size), Same(), c, d)
    {
      FloorGrows(|c|, |c + d|, size);
    }
    forall c, inp, limit
      ensures TakesEnough(BlockEager(size), TakeAll(), c, inp, limit)
    {
    }
    CodifyIsLawful(BlockEager(size), Same(), TakeAll(), unit);
  }

  /** Holding back less than a block of `size` bytes fits an output buffer that holds a stream block more. */
  lemma {:induction false} BlockEmitted(size: nat, unit: nat, data: Text, n: nat)
    requires size > 0 && unit > 0 && STREAM_CHUNK + size <= Floor(CHUNK, unit)
    requires n * STREAM_CHUNK <= |data|
    ensures Emitted(MeaningOf(BlockEager(size), Same(), unit), data, n) == Floor(n * STREAM_CHUNK, size)
  {
    if n > 0 {
      BlockEmitted(size, unit, data, n - 1);
    }
  }

  lemma BlocksFit(size: nat, unit: nat, data: Text)
    requires size > 0 && unit > 0 && STREAM_CHUNK + size <= Floor(CHUNK, unit)
    ensures var m := MeaningOf(BlockEager(size), Same(), unit);
            Fits(m, data) && |data| <= EarlyOutput(m, data) + m.usable(CHUNK)
  {
    var m := MeaningOf(BlockEager(size), Same(), unit);
    BlockEmitted(size, unit, data, |data| / STREAM_CHUNK);
    forall i: nat | i < |data| / STREAM_CHUNK
      ensures FitsAt(m, data, i)
    {
      BlockEmitted(size, unit, data, i);
    }
  }

  /** All round trips run on this pair: encode in blocks of `size` bytes, decode whole samples of
      `unit` bytes. */
  method BlockRoundTrips(p: Params, size: nat, unit: nat, bufs: seq<Text>, pieces: seq<Text>)
    returns (filed: Text, mixed: Text, streamed: Text, same: bool, statuses: seq<int>)
    requires Supported(p) && p.resolution != 0
    requires 0 < size <= CHUNK - STREAM_CHUNK && 0 < unit <= (CHUNK - STREAM_CHUNK) / 2
    requires Concat(pieces) == Concat(bufs) && |Concat(bufs)| < TWO_31 && |Concat(bufs)| % unit == 0
    requires forall i :: 0 <= i < |bufs| ==> |bufs[i]| < TWO_31
    requires forall i :: 0 <= i < |pieces| ==> |pieces[i]| < TWO_31
    ensures filed == mixed == streamed == Concat(bufs) && same && statuses == [0, 0, 0, 0, 0]
  {
    var enc, dec := (_: AecConf) => BlockCodec(size), (_: AecConf) => SampleCodec(unit);
    ghost var me, md := BlockMeaning(size), SampleMeaning(unit);
    ghost var input := Concat(bufs);
    PairFits(size, unit, input);
    SupportedIsRecoverable(p, input);
    var joined := Concat(bufs);
    var s0, s1, s2, s3, s4, a, b;
    s0, filed := RoundTrip.FileRoundTrip(p, enc, dec, me, md, joined);
    s1, s2, mixed := RoundTrip.StreamRoundTrip(p, enc, dec, me, md, bufs);
    s3, s4, streamed := RoundTrip.StreamToStream(p, enc, dec, me, md, bufs, pieces);
    a, b := RoundTrip.StreamMatchesFile(p, enc, me, bufs);
    same, statuses := a == b, [s0, s1, s2, s3, s4];
  }

  /** The hypotheses of the round trips about this pair. */
  lemma PairFits(size: nat, unit: nat, input: Text)
    requires 0 < size <= CHUNK - STREAM_CHUNK && 0 < unit <= (CHUNK - STREAM_CHUNK) / 2
    requires |input| % unit == 0
    ensures var me, md := BlockMeaning(size), SampleMeaning(unit);
            && Lawful(BlockCodec(size), me) && Lawful(SampleCodec(unit), md)
            && me.usable(CHUNK) == CHUNK && md.usable(CHUNK) > 0
            && me.full(input) == md.eager(input) == input
            && Fits(me, input) && Undivided(BlockCodec(size), input) && |input| <= EarlyOutput(me, input) + CHUNK
            && Fits(md, input) && Undivided(SampleCodec(unit), input)
            && |input| <= EarlyOutput(md, input) + md.usable(CHUNK)
            && RoundTrip.FlushFits(me, input)
            && |me.eager(input)| <= |input|
  {
    BlocksAreLawful(size, 1);
    BlocksAreLawful(unit, unit);
    BlocksFit(size, 1, input);
    BlocksFit(unit, unit, input);
    TakeAllIsUndivided(BlockEager(size), Same(), 1, input);
    TakeAllIsUndivided(BlockEager(unit), Same(), unit, input);
    Quotient(|input|, unit);
  }

  /** The flush of `compress` need not fit: an encoder that holds back more than an output buffer
      loses the end of its encoding, and the call succeeds. */
  method FlushLosesOutput(p: Params, input: Text) returns (file: Text, status: int)
    requires |input| == CHUNK + 1
    ensures status == 0 && file == WrittenHeader(p) + input[..CHUNK]
  {
    var s, sound;
    s, status := Compressor.CompressInit(p, (_: AecConf) => BlockCodec(CHUNK + 2), input);
    HeldBack(input);
    assert input[0..] == input;
    status, sound := Compressor.Compress(s, BlockMeaning(CHUNK + 2));
    file := s.output;
  }

  lemma HeldBack(input: Text)
    requires |input| == CHUNK + 1
    ensures var m := BlockMeaning(CHUNK + 2);
            && Lawful(BlockCodec(CHUNK + 2), m) && m.accepts(input) && m.usable(CHUNK) == CHUNK
            && m.eager(input) == [] && Flushed(m, input, 0, CHUNK) == input[..CHUNK]
  {
    BlocksAreLawful(CHUNK + 2, 1);
    assert Floor(CHUNK + 1, CHUNK + 2) == 0;
  }

  // -------------------------------------------------------------- too much output

  const FACTOR: nat := 512

  /** Every byte becomes 512 of them. */
  function Expand(): Text -> Text {
    (c: Text) => seq(|c| * FACTOR, (i: nat) requires i < |c| * FACTOR => c[i / FACTOR])
  }

  function ExpanderMeaning(): Meaning<History> { MeaningOf(Expand(), Expand(), 1) }

  function Expander(take: Policy): Codec<History> { Codify(Expand(), Expand(), take, 1) }

  lemma ExpanderIsLawful(take: Policy)
    requires forall c, inp, limit :: TakesEnough(Expand(), take, c, inp, limit)
    ensures Lawful(Expander(take), ExpanderMeaning())
  {
    CodifyIsLawful(Expand(), Expand(), take, 1);
  }

  /** The codec stops taking input once the output buffer is full: 12288 bytes of the block are left,
      the driver zeroes `avail_in`, and the session writes only what belongs to the others. */
  lemma FullOutputLosesInput(data: Text)
    requires |data| == STREAM_CHUNK
    ensures var k := Expander(TakeUntilFull(Expand()));
            && Lawful(k, ExpanderMeaning()) && Frugal(k, ExpanderMeaning())
            && StreamSession(k, [], [data], NoFlush).0 == ExpanderMeaning().eager(data[..20480])
  {
    var k, m := Expander(TakeUntilFull(Expand())), ExpanderMeaning();
    ExpanderIsLawful(TakeUntilFull(Expand()));
    TakeUntilFullIsFrugal(Expand(), Expand(), 1);
    var r := k.run(k.start, NoFlush, data, CHUNK);
    assert r == Call(Expand(), Expand(), TakeUntilFull(Expand()), 1, k.start, NoFlush, data, CHUNK);
    assert r.taken == 20480 && |r.out| == CHUNK;
    OneBlock(k, data, r);
    var last := k.run(r.state, NoFlush, [], CHUNK);
    assert last == Call(Expand(), Expand(), TakeUntilFull(Expand()), 1, r.state, NoFlush, [], CHUNK);
    assert last.out == [];
    DecompressesTakenBytes(k, m, [], [data]);
    assert data[..20480] + Tail(data) == data[..20480];
  }

  /** A session over a single block, before the closing call. */
  lemma OneBlock(k: Codec<History>, data: Text, r: Step<History>)
    requires |data| == STREAM_CHUNK && r == k.run(k.start, NoFlush, data, CHUNK)
    requires r.status == AEC_OK && r.taken <= STREAM_CHUNK
    ensures FeedAll(k, Stream(k.start, [], []), [data]) == (Stream(r.state, [], r.out), AEC_OK)
    ensures Concat([data]) == data && SessionTaken(k, data) == data[..r.taken]
  {
    assert Concat([data]) == data && Block(data, 0) == data;
    assert RunBlocks(k, k.start, data, 1) == (r, [] + r.out);
    PartitionIndependence(k, Stream(k.start, [], []), [data]);
    CanonicalBlocks(k, k.start, data, []);
    assert data[1 * STREAM_CHUNK..] == [] && |data| / STREAM_CHUNK == 1;
    assert [] + ([] + r.out) == r.out;
    assert TakenBytes(k, k.start, data, 0) == [];
    assert SessionTaken(k, data) == [] + data[..r.taken];
  }

  /** The codec takes the block although the output buffer fills up: nothing is lost, and the closing
      call writes what was held back. */
  lemma FullOutputLosesNothing(data: Text)
    requires |data| == STREAM_CHUNK
    ensures var k := Expander(TakeAll());
            && Lawful(k, ExpanderMeaning()) && !Fits(ExpanderMeaning(), data)
            && |k.run(k.start, NoFlush, data, CHUNK).out| == CHUNK
            && StreamSession(k, [], [data], NoFlush).0 == ExpanderMeaning().eager(data)
  {
    var k, m := Expander(TakeAll()), ExpanderMeaning();
    ExpanderIsLawful(TakeAll());
    TakeAllIsUndivided(Expand(), Expand(), 1, data);
    assert Concat([data]) == data;
    OneBlockFillsUp(data);
    assert k.run(k.start, NoFlush, data, CHUNK) ==
           Call(Expand(), Expand(), TakeAll(), 1, k.start, NoFlush, data, CHUNK);
    StreamingDecompresses(k, m, [], [data]);
  }

  lemma OneBlockFillsUp(data: Text)
    requires |data| == STREAM_CHUNK
    ensures EarlyOutput(ExpanderMeaning(), data) == CHUNK && !Fits(ExpanderMeaning(), data)
  {
    var m := ExpanderMeaning();
    assert Emitted(m, data, 0) == 0 && |Head(data, 1)| == STREAM_CHUNK;
    assert EarlyOutput(m, data) == Emitted(m, data, 1) == CHUNK;
    assert !FitsAt(m, data, 0);
  }
}
