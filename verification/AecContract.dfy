/**
 The contract of the entropy coder behind `aec_encode` and `aec_decode`. A codec is a
 deterministic state machine; a `Meaning` says what its states stand for.
 */
module AecContract {
  import opened Bytes

  const AEC_OK: int := 0

  datatype Flush = NoFlush | DoFlush

  /** One call: its status, the next state, how much input it took, what it emitted. */
  datatype Step<S> = Step(status: int, state: S, taken: nat, out: seq<byte>)

  datatype Codec<!S> = Codec(
    initStatus: int,
    start: S,
    run: (S, Flush, seq<byte>, nat) -> Step<S>,
    end: S -> int)

  /**
   - `rep(s, c, e)`: state `s` is one in which `c` has been consumed and `e` emitted;
   - `accepts(c)`: no call fails while the input so far is `c`;
   - `eager(c)`: everything emitted for `c` when output space never runs out;
   - `full(c)`: everything emitted for `c` once the codec is flushed;
   - `usable(room)`: how much of an output space the codec can fill: all of it when it emits
     single bytes, a multiple of the sample size when it emits whole samples.
   */
  datatype Meaning<!S> = Meaning(
    rep: (S, seq<byte>, seq<byte>) -> bool,
    accepts: seq<byte> -> bool,
    eager: seq<byte> -> seq<byte>,
    full: seq<byte> -> seq<byte>,
    usable: nat -> nat)

  /** A call never takes more than it is given and never overruns the output space. */
  ghost predicate Tame<S(!new)>(k: Codec<S>) {
    forall s, f, inp, room :: Bounded(k.run(s, f, inp, room), inp, room)
  }

  ghost predicate Bounded<S>(r: Step<S>, inp: seq<byte>, room: nat) {
    r.taken <= |inp| && |r.out| <= room
  }

  ghost predicate RepLaw<S>(m: Meaning<S>, s: S, c: seq<byte>, e: seq<byte>) {
    m.rep(s, c, e) ==> e <= m.eager(c)
  }

  ghost predicate PrefixLaw<S>(m: Meaning<S>, c: seq<byte>, d: seq<byte>) {
    && m.eager(c) <= m.eager(c + d)
    && m.eager(c) <= m.full(c + d)
    && (m.accepts(c + d) ==> m.accepts(c))
  }

  /** A successful call emits no more than fits, and without flush stops only when the output space
      is used up, or when the input is exhausted and nothing that could be emitted is held back. */
  ghost predicate NoFlushLaw<S>(
    k: Codec<S>, m: Meaning<S>, s: S, c: seq<byte>, e: seq<byte>, inp: seq<byte>, room: nat)
  {
    m.rep(s, c, e) ==>
      var r := k.run(s, NoFlush, inp, room);
      && Bounded(r, inp, room)
      && (m.accepts(c + inp) ==> r.status == AEC_OK)
      && (r.status == AEC_OK ==>
            && m.rep(r.state, c + inp[..r.taken], e + r.out)
            && |r.out| <= m.usable(room)
            && (|r.out| == m.usable(room) || (r.taken == |inp| && e + r.out == m.eager(c + inp))))
  }

  /** A flush completes the encoding, or fills the output space with the next part of it. */
  ghost predicate FlushLaw<S>(
    k: Codec<S>, m: Meaning<S>, s: S, c: seq<byte>, e: seq<byte>, inp: seq<byte>, room: nat)
  {
    m.rep(s, c, e) ==>
      var r := k.run(s, DoFlush, inp, room);
      && Bounded(r, inp, room)
      && (m.accepts(c + inp) ==> r.status == AEC_OK)
      && (r.status == AEC_OK ==>
            && e + r.out <= m.full(c + inp)
            && |r.out| <= m.usable(room)
            && (|r.out| == m.usable(room) || e + r.out == m.full(c + inp)))
  }

  ghost predicate Lawful<S(!new)>(k: Codec<S>, m: Meaning<S>) {
    && Tame(k)
    && m.rep(k.start, [], [])
    && m.eager([]) == []
    && (forall s, c, e :: RepLaw(m, s, c, e))
    && (forall c, d :: PrefixLaw(m, c, d))
    && (forall s, c, e, inp, room :: NoFlushLaw(k, m, s, c, e, inp, room))
    && (forall s, c, e, inp, room :: FlushLaw(k, m, s, c, e, inp, room))
  }

  /** A property many codecs have and the contract does not ask for: no byte is taken once the output
      space is used up. */
  ghost predicate FrugalLaw<S>(
    k: Codec<S>, m: Meaning<S>, s: S, c: seq<byte>, e: seq<byte>, inp: seq<byte>, room: nat)
  {
    m.rep(s, c, e) ==>
      var r := k.run(s, NoFlush, inp, room);
      r.status == AEC_OK && 0 < r.taken <= |inp| ==> |m.eager(c + inp[..r.taken - 1])| < |e| + m.usable(room)
  }

  ghost predicate Frugal<S(!new)>(k: Codec<S>, m: Meaning<S>) {
    forall s, c, e, inp, room :: FrugalLaw(k, m, s, c, e, inp, room)
  }

  /** The laws used along a prefix of a known total input. */
  lemma PrefixOf<S(!new)>(k: Codec<S>, m: Meaning<S>, c: seq<byte>, total: seq<byte>)
    requires Lawful(k, m)
    requires c <= total
    ensures m.eager(c) <= m.eager(total)
    ensures m.eager(c) <= m.full(total)
    ensures m.accepts(total) ==> m.accepts(c)
  {
    assert c + total[|c|..] == total;
    assert PrefixLaw(m, c, total[|c|..]);
  }

  function Cut(s: seq<byte>, n: nat): (r: seq<byte>)
    ensures r <= s
  {
    if |s| <= n then s else s[..n]
  }

  /** What one call without flush means: its output brings the total to what `eager` allows or to
      the end of the output space, whichever comes first. */
  lemma CallFacts<S(!new)>(
    k: Codec<S>, m: Meaning<S>, s: S, c: seq<byte>, e: seq<byte>, inp: seq<byte>, room: nat, total: seq<byte>)
    requires Lawful(k, m) && m.rep(s, c, e)
    requires c + inp <= total
    ensures var r := k.run(s, NoFlush, inp, room);
            && Bounded(r, inp, room)
            && (m.accepts(total) ==> r.status == AEC_OK)
            && (r.status == AEC_OK ==>
                  && m.rep(r.state, c + inp[..r.taken], e + r.out)
                  && |e + r.out| <= |m.eager(total)|
                  && (|r.out| < m.usable(room) ==> r.taken == |inp|)
                  && e + r.out == Cut(m.eager(c + inp), |e| + m.usable(room)))
  {
    var r := k.run(s, NoFlush, inp, room);
    assert NoFlushLaw(k, m, s, c, e, inp, room);
    PrefixOf(k, m, c + inp, total);
    if r.status == AEC_OK {
      var c' := c + inp[..r.taken];
      assert c' <= c + inp;
      PrefixOf(k, m, c', total);
      PrefixOf(k, m, c', c + inp);
      assert RepLaw(m, r.state, c', e + r.out);
    }
  }

  /** A call takes its whole input when all but the last byte of it leaves room for output; a
      frugal codec does so only then. */
  lemma TakesAllIff<S(!new)>(
    k: Codec<S>, m: Meaning<S>, s: S, c: seq<byte>, e: seq<byte>, inp: seq<byte>, room: nat)
    requires Lawful(k, m) && m.rep(s, c, e) && |inp| > 0
    requires k.run(s, NoFlush, inp, room).status == AEC_OK
    ensures var all := k.run(s, NoFlush, inp, room).taken == |inp|;
            var fits := |m.eager(c + inp[..|inp| - 1])| < |e| + m.usable(room);
            (fits ==> all) && (Frugal(k, m) ==> (all <==> fits))
  {
    var r := k.run(s, NoFlush, inp, room);
    CallFacts(k, m, s, c, e, inp, room, c + inp);
    if r.taken < |inp| {
      var c', most := c + inp[..r.taken], c + inp[..|inp| - 1];
      assert c' <= most;
      PrefixOf(k, m, c', most);
      assert RepLaw(m, r.state, c', e + r.out);
    }
    if Frugal(k, m) {
      assert FrugalLaw(k, m, s, c, e, inp, room);
    }
  }

  /** What is on file for `all` when `before` bytes were out before a single flush call with
      `room` bytes of output space. */
  function Flushed<S>(m: Meaning<S>, all: seq<byte>, before: nat, room: nat): seq<byte> {
    Cut(m.full(all), before + m.usable(room))
  }

  lemma FlushFacts<S(!new)>(k: Codec<S>, m: Meaning<S>, s: S, c: seq<byte>, e: seq<byte>, inp: seq<byte>, room: nat)
    requires Lawful(k, m) && m.rep(s, c, e)
    ensures var r := k.run(s, DoFlush, inp, room);
            && Bounded(r, inp, room)
            && (m.accepts(c + inp) ==> r.status == AEC_OK)
            && (r.status == AEC_OK ==> e + r.out == Flushed(m, c + inp, |e|, room))
  {
    assert FlushLaw(k, m, s, c, e, inp, room);
  }
}
