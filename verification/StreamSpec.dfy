/**
 The chunking of `stream_compress` and `stream_decompress` on values: caller buffers of any
 size go in, the codec sees blocks of exactly STREAM_CHUNK bytes, the rest waits in `tmp`.
 Nothing here assumes that the codec obeys any law.
 */
module StreamSpec {
  import opened Bytes
  import opened AecContract

  const CHUNK: nat := 10485760
  const STREAM_CHUNK: nat := 32768

  datatype Stream<S> = Stream(state: S, tmp: seq<byte>, written: seq<byte>)

  /** The effect of one call, and its status. After a failed codec call the offending block
      stays in `tmp`, complete, and the rest of the caller's buffer is dropped. */
  function Feed<S>(k: Codec<S>, st: Stream<S>, data: seq<byte>): (r: (Stream<S>, int))
    requires |st.tmp| <= STREAM_CHUNK
    ensures |r.0.tmp| <= STREAM_CHUNK
    ensures r.1 == AEC_OK ==> |r.0.tmp| < STREAM_CHUNK
    decreases |st.tmp| + |data|
  {
    if |st.tmp| + |data| < STREAM_CHUNK then
      (st.(tmp := st.tmp + data), AEC_OK)
    else
      var need := STREAM_CHUNK - |st.tmp|;
      var block := st.tmp + data[..need];
      var r := k.run(st.state, NoFlush, block, CHUNK);
      if r.status != AEC_OK then
        (Stream(r.state, block, st.written), r.status)
      else
        Feed(k, Stream(r.state, [], st.written + r.out), data[need..])
  }

  /** How many bytes wait after a call. */
  lemma {:induction false} FeedLength<S>(k: Codec<S>, st: Stream<S>, data: seq<byte>)
    requires |st.tmp| <= STREAM_CHUNK
    ensures Feed(k, st, data).1 == AEC_OK ==> |Feed(k, st, data).0.tmp| == (|st.tmp| + |data|) % STREAM_CHUNK
    decreases |st.tmp| + |data|
  {
    if |st.tmp| + |data| >= STREAM_CHUNK {
      var need := STREAM_CHUNK - |st.tmp|;
      var r := k.run(st.state, NoFlush, st.tmp + data[..need], CHUNK);
      if r.status == AEC_OK {
        FeedLength(k, Stream(r.state, [], st.written + r.out), data[need..]);
      }
    }
  }

  /** Two calls have the effect of one call on the joined buffer, when the first succeeds; it does
      when the joined call does. */
  lemma {:induction false} FeedSplits<S>(k: Codec<S>, st: Stream<S>, a: seq<byte>, b: seq<byte>)
    requires |st.tmp| <= STREAM_CHUNK
    ensures Feed(k, st, a).1 == AEC_OK ==> Feed(k, st, a + b) == Feed(k, Feed(k, st, a).0, b)
    ensures Feed(k, st, a + b).1 == AEC_OK ==> Feed(k, st, a).1 == AEC_OK
    decreases |st.tmp| + |a|
  {
    var need := STREAM_CHUNK - |st.tmp|;
    if |st.tmp| + |a| < STREAM_CHUNK {
      assert st.tmp + (a + b) == (st.tmp + a) + b;
      if |st.tmp| + |a + b| >= STREAM_CHUNK {
        var more := need - |a|;
        assert st.tmp + (a + b)[..need] == (st.tmp + a) + b[..more];
        assert (a + b)[need..] == b[more..];
      }
    } else {
      assert (a + b)[..need] == a[..need];
      assert (a + b)[need..] == a[need..] + b;
      var r := k.run(st.state, NoFlush, st.tmp + a[..need], CHUNK);
      if r.status == AEC_OK {
        FeedSplits(k, Stream(r.state, [], st.written + r.out), a[need..], b);
      }
    }
  }

  /** A call that fails does so whatever follows in the buffer. */
  lemma {:induction false} FailureAbsorbs<S>(k: Codec<S>, st: Stream<S>, a: seq<byte>, b: seq<byte>)
    requires |st.tmp| <= STREAM_CHUNK && Feed(k, st, a).1 != AEC_OK
    ensures Feed(k, st, a + b) == Feed(k, st, a)
    decreases |st.tmp| + |a|
  {
    var need := STREAM_CHUNK - |st.tmp|;
    assert (a + b)[..need] == a[..need];
    assert (a + b)[need..] == a[need..] + b;
    var r := k.run(st.state, NoFlush, st.tmp + a[..need], CHUNK);
    if r.status == AEC_OK {
      FailureAbsorbs(k, Stream(r.state, [], st.written + r.out), a[need..], b);
    }
  }

  function Concat(bufs: seq<seq<byte>>): seq<byte> {
    if bufs == [] then [] else bufs[0] + Concat(bufs[1..])
  }

  /** A caller that stops at the first failing call. */
  function FeedAll<S>(k: Codec<S>, st: Stream<S>, bufs: seq<seq<byte>>): (r: (Stream<S>, int))
    requires |st.tmp| < STREAM_CHUNK
    ensures |r.0.tmp| <= STREAM_CHUNK
    decreases |bufs|
  {
    if bufs == [] then (st, AEC_OK)
    else
      var r := Feed(k, st, bufs[0]);
      if r.1 != AEC_OK then r else FeedAll(k, r.0, bufs[1..])
  }

  /** However the data is cut into buffers, the outcome is that of a single call: status, codec
      state, waiting bytes and file, on success and on failure. */
  lemma {:induction false} PartitionIndependence<S>(k: Codec<S>, st: Stream<S>, bufs: seq<seq<byte>>)
    requires |st.tmp| < STREAM_CHUNK
    ensures FeedAll(k, st, bufs) == Feed(k, st, Concat(bufs))
    decreases |bufs|
  {
    if bufs == [] {
      assert st.tmp + [] == st.tmp;
    } else {
      var r := Feed(k, st, bufs[0]);
      if r.1 == AEC_OK {
        FeedSplits(k, st, bufs[0], Concat(bufs[1..]));
        PartitionIndependence(k, r.0, bufs[1..]);
      } else {
        FailureAbsorbs(k, st, bufs[0], Concat(bufs[1..]));
      }
    }
  }

  /** Block i of the data as the codec must see it. */
  function Block(data: seq<byte>, i: nat): (b: seq<byte>)
    requires (i + 1) * STREAM_CHUNK <= |data|
    ensures |b| == STREAM_CHUNK
  {
    data[i * STREAM_CHUNK..(i + 1) * STREAM_CHUNK]
  }

  /** Reference run: one codec call per whole block of the data, in order, n of them. */
  function RunBlocks<S>(k: Codec<S>, s: S, data: seq<byte>, n: nat): (r: (Step<S>, seq<byte>))
    requires n * STREAM_CHUNK <= |data|
  {
    if n == 0 then (Step(AEC_OK, s, 0, []), [])
    else
      var p := RunBlocks(k, s, data, n - 1);
      if p.0.status != AEC_OK then p
      else
        var r := k.run(p.0.state, NoFlush, Block(data, n - 1), CHUNK);
        (r, if r.status == AEC_OK then p.1 + r.out else p.1)
  }

  /** From an empty buffer, the codec has seen exactly the |data| / STREAM_CHUNK whole blocks of
      the data, its output stands behind what the file held, and the rest is waiting. */
  lemma CanonicalBlocks<S>(k: Codec<S>, s: S, data: seq<byte>, held: seq<byte>)
    ensures var n := |data| / STREAM_CHUNK;
            var r := RunBlocks(k, s, data, n);
            var f := Feed(k, Stream(s, [], held), data);
            && f.1 == r.0.status
            && (f.1 == AEC_OK ==>
                  f.0 == Stream(r.0.state, data[n * STREAM_CHUNK..], held + r.1) && |f.0.tmp| == |data| % STREAM_CHUNK)
  {
    assert held + [] == held;
    assert data[0..] == data;
    CanonicalFrom(k, s, data, held, 0);
  }

  /** The same from the n-th block on. */
  lemma {:induction false} CanonicalFrom<S>(k: Codec<S>, s: S, data: seq<byte>, held: seq<byte>, n: nat)
    requires n * STREAM_CHUNK <= |data|
    requires RunBlocks(k, s, data, n).0.status == AEC_OK
    ensures var total := |data| / STREAM_CHUNK;
            var before := RunBlocks(k, s, data, n);
            var after := RunBlocks(k, s, data, total);
            var f := Feed(k, Stream(before.0.state, [], held + before.1), data[n * STREAM_CHUNK..]);
            && f.1 == after.0.status
            && (f.1 == AEC_OK ==> f.0 == Stream(after.0.state, data[total * STREAM_CHUNK..], held + after.1))
    decreases |data| - n * STREAM_CHUNK
  {
    var total := |data| / STREAM_CHUNK;
    var rest := data[n * STREAM_CHUNK..];
    var before := RunBlocks(k, s, data, n);
    if n == total {
      assert [] + rest == rest;
    } else {
      assert (n + 1) * STREAM_CHUNK <= |data|;
      assert [] + rest[..STREAM_CHUNK] == Block(data, n);
      assert rest[STREAM_CHUNK..] == data[(n + 1) * STREAM_CHUNK..];
      var next := RunBlocks(k, s, data, n + 1);
      if next.0.status == AEC_OK {
        assert held + before.1 + next.0.out == held + next.1;
        CanonicalFrom(k, s, data, held, n + 1);
      } else {
        FailureStays(k, s, data, n + 1, total);
      }
    }
  }

  lemma {:induction false} FailureStays<S>(k: Codec<S>, s: S, data: seq<byte>, n: nat, total: nat)
    requires n <= total && total * STREAM_CHUNK <= |data|
    requires RunBlocks(k, s, data, n).0.status != AEC_OK
    ensures RunBlocks(k, s, data, total) == RunBlocks(k, s, data, n)
    decreases total - n
  {
    if n < total {
      FailureStays(k, s, data, n + 1, total);
    }
  }

  /** When the codec fails on block n of the joined buffers, that block stays in the chunk buffer,
      complete, the output of the blocks before it is on file, and the data behind it is nowhere. */
  lemma FailureState<S>(k: Codec<S>, s: S, bufs: seq<seq<byte>>, held: seq<byte>, n: nat)
    requires (n + 1) * STREAM_CHUNK <= |Concat(bufs)|
    requires RunBlocks(k, s, Concat(bufs), n).0.status == AEC_OK
    requires RunBlocks(k, s, Concat(bufs), n + 1).0.status != AEC_OK
    ensures var data := Concat(bufs);
            FeedAll(k, Stream(s, [], held), bufs) ==
            (Stream(RunBlocks(k, s, data, n + 1).0.state, Block(data, n), held + RunBlocks(k, s, data, n).1),
             RunBlocks(k, s, data, n + 1).0.status)
  {
    var data := Concat(bufs);
    PartitionIndependence(k, Stream(s, [], held), bufs);
    assert held + [] == held;
    assert data[0..] == data;
    EarlierBlocksPass(k, s, data, 0, n);
    FailureFrom(k, s, data, held, 0, n);
  }

  lemma {:induction false} EarlierBlocksPass<S>(k: Codec<S>, s: S, data: seq<byte>, i: nat, n: nat)
    requires i <= n && n * STREAM_CHUNK <= |data|
    requires RunBlocks(k, s, data, n).0.status == AEC_OK
    ensures RunBlocks(k, s, data, i).0.status == AEC_OK
    decreases n
  {
    if i < n {
      EarlierBlocksPass(k, s, data, i, n - 1);
    }
  }

  lemma {:induction false} FailureFrom<S>(k: Codec<S>, s: S, data: seq<byte>, held: seq<byte>, i: nat, n: nat)
    requires i <= n && (n + 1) * STREAM_CHUNK <= |data|
    requires RunBlocks(k, s, data, i).0.status == AEC_OK && RunBlocks(k, s, data, n).0.status == AEC_OK
    requires RunBlocks(k, s, data, n + 1).0.status != AEC_OK
    ensures var before := RunBlocks(k, s, data, i);
            var failed := RunBlocks(k, s, data, n + 1);
            Feed(k, Stream(before.0.state, [], held + before.1), data[i * STREAM_CHUNK..]) ==
            (Stream(failed.0.state, Block(data, n), held + RunBlocks(k, s, data, n).1), failed.0.status)
    decreases n - i
  {
    var rest := data[i * STREAM_CHUNK..];
    assert [] + rest[..STREAM_CHUNK] == Block(data, i);
    if i < n {
      EarlierBlocksPass(k, s, data, i + 1, n);
      assert rest[STREAM_CHUNK..] == data[(i + 1) * STREAM_CHUNK..];
      var before, next := RunBlocks(k, s, data, i), RunBlocks(k, s, data, i + 1);
      assert held + before.1 + next.0.out == held + next.1;
      FailureFrom(k, s, data, held, i + 1, n);
    }
  }

  /** The closing call: what waits in `tmp` goes to the codec, the output to the file, and the
      codec is shut down. */
  function Finish<S>(k: Codec<S>, st: Stream<S>, f: Flush): (seq<byte>, int) {
    var r := k.run(st.state, f, st.tmp, CHUNK);
    if r.status != AEC_OK then (st.written, -1) else (st.written + r.out, k.end(r.state))
  }
}
