/**
 The state shared by `compressor_impl` and `decompressor_impl`: the codec stream `d_strm`, the
 chunk buffer, the output buffer and the two files. The two classes run the same loops, one
 around `aec_encode`, the other around `aec_decode`; here the loops are written once and the
 codec decides which call is meant.
 */
module Session {
  import opened Bytes
  import opened MachineInts
  import opened AecContract
  import opened StreamSpec

  class CodecSession<S(!new)> {
    const codec: Codec<S>

    // d_strm. The running totals are kept unbounded; the unsigned subtractions that use them
    // are the source's, modulo 2^64.
    var state: S
    var nextIn: array?<byte>
    var nextInPos: nat
    var availIn: nat
    var nextOut: array?<byte>
    var nextOutPos: nat
    var availOut: nat
    var totalOut: nat

    // The chunk buffer of the stream calls, their output buffer and their accounting.
    const tmpStream: array<byte>
    const outBuffer: array<byte>
    var streamAvailIn: nat
    var streamTotalOut: nat

    // Input and output file.
    const input: seq<byte>
    const inputStart: nat
    var output: seq<byte>

    /** A session just after `init_aec_stream` and the codec's own initialisation: the input file
        is positioned at `start`, the output file holds `written`. */
    constructor (codec: Codec<S>, tmpLength: nat, input: seq<byte>, start: nat, written: seq<byte>)
      ensures fresh(tmpStream) && fresh(outBuffer) && tmpStream != outBuffer
      ensures tmpStream.Length == tmpLength && outBuffer.Length == CHUNK
      ensures this.codec == codec && this.input == input && inputStart == start && output == written
      ensures Unused()
    {
      this.codec := codec;
      state := codec.start;
      nextIn, nextInPos, availIn := null, 0, 0;
      nextOut, nextOutPos, availOut, totalOut := null, 0, CHUNK, 0;
      streamAvailIn, streamTotalOut := 0, 0;
      this.input, inputStart, output := input, start, written;
      tmpStream := new byte[tmpLength];
      outBuffer := new byte[CHUNK];
    }

    ghost predicate Unused()
      reads this
    {
      state == codec.start && availIn == 0 && availOut == CHUNK && totalOut == 0 &&
      streamAvailIn == 0 && streamTotalOut == 0
    }

    /** What must hold of the pointers of `d_strm` when the codec is called. */
    ghost predicate Wired()
      reads this
    {
      && nextIn != null && nextOut != null && nextIn != nextOut
      && nextInPos + availIn <= nextIn.Length
      && nextOutPos + availOut <= nextOut.Length
    }

    /** `aec_encode` or `aec_decode`: consumes from the input pointer, emits at the output pointer,
        and moves the cursors by as much, whether or not the call fails. */
    method Run(f: Flush, ghost inp: seq<byte>) returns (status: int, ghost r: Step<S>)
      requires Tame(codec) && Wired() && inp == nextIn[nextInPos..nextInPos + availIn]
      modifies `state, `nextInPos, `availIn, `nextOutPos, `availOut, `totalOut, nextOut
      ensures r == codec.run(old(state), f, inp, old(availOut)) && Bounded(r, inp, old(availOut))
      ensures state == r.state && status == r.status
      ensures nextInPos == old(nextInPos) + r.taken && availIn == old(availIn) - r.taken
      ensures nextOutPos == old(nextOutPos) + |r.out| && availOut == old(availOut) - |r.out|
      ensures totalOut == old(totalOut) + |r.out|
      ensures Wired()
      ensures nextOut[old(nextOutPos)..nextOutPos] == r.out
    {
      var step := codec.run(state, f, nextIn[nextInPos..nextInPos + availIn], availOut);
      r := step;
      assert Bounded(r, inp, availOut);
      state := step.state;
      status := step.status;
      forall i | 0 <= i < |step.out| {
        nextOut[nextOutPos + i] := step.out[i];
      }
      nextInPos, availIn := nextInPos + step.taken, availIn - step.taken;
      nextOutPos, availOut := nextOutPos + |step.out|, availOut - |step.out|;
      totalOut := totalOut + |step.out|;
    }

    /** `output_stream.write`. */
    method Write(buffer: array<byte>, count: nat)
      requires count <= buffer.Length
      modifies `output
      ensures output == old(output) + buffer[0..count]
    {
      output := output + buffer[..count];
    }

    /** `now - before` on two `size_t` counters. */
    static method Difference(now: nat, before: nat) returns (produced: nat)
      requires before <= now < before + TWO_64
      ensures produced == now - before
    {
      produced := Size(now - before);
    }

    // ---------------------------------------------------------------- stream calls

    /** The buffers of the stream calls are in place. */
    ghost predicate Placed()
      reads this
    {
      && Tame(codec)
      && STREAM_CHUNK <= tmpStream.Length && outBuffer.Length == CHUNK && tmpStream != outBuffer
      && streamAvailIn <= STREAM_CHUNK
    }

    /** Between successful stream calls the output buffer is empty and all output has been written.
        A failing call may leave output behind that was never written. */
    ghost predicate StreamReady()
      reads this
    {
      Placed() && availOut == CHUNK && totalOut == streamTotalOut
    }

    /** The abstract value: codec state, waiting bytes, written file. */
    ghost function Model(): (st: Stream<S>)
      requires streamAvailIn <= tmpStream.Length
      reads this, tmpStream
    {
      Stream(state, tmpStream[..streamAvailIn], output)
    }

    /** One turn of the loop after the chunk buffer has been filled: call the codec, write what it
        emitted, and empty the chunk buffer. */
    method PushBlock() returns (status: int)
      requires StreamReady() && streamAvailIn == STREAM_CHUNK
      modifies this, outBuffer
      ensures Placed() && (status == AEC_OK ==> StreamReady())
      ensures var r := codec.run(old(state), NoFlush, old(tmpStream[..STREAM_CHUNK]), CHUNK);
              && state == r.state && status == r.status
              && streamAvailIn == (if status == AEC_OK then 0 else STREAM_CHUNK)
              && output == old(output) + (if status == AEC_OK then r.out else [])
    {
      availIn := streamAvailIn;
      nextOut, nextOutPos := outBuffer, 0;
      nextIn, nextInPos := tmpStream, 0;
      assert tmpStream[0..STREAM_CHUNK] == tmpStream[..STREAM_CHUNK];
      ghost var r;
      status, r := Run(NoFlush, tmpStream[..STREAM_CHUNK]);
      if status != AEC_OK {
        return;
      }
      var produced := Difference(totalOut, streamTotalOut);
      if produced > 0 {
        Write(outBuffer, produced);
        availOut := CHUNK;
        streamTotalOut := totalOut;
      }
      streamAvailIn := 0;
      availIn := streamAvailIn;
    }

    /** `std::memcpy` from the caller's buffer to the end of the chunk buffer. */
    method CopyIn(inbuf: seq<byte>, pos: nat, count: nat)
      requires pos + count <= |inbuf|
      requires streamAvailIn + count <= tmpStream.Length
      modifies tmpStream
      ensures tmpStream[..streamAvailIn + count] == old(tmpStream[..streamAvailIn]) + inbuf[pos..pos + count]
    {
      forall i | 0 <= i < count {
        tmpStream[streamAvailIn + i] := inbuf[pos + i];
      }
    }

    /** Top up the chunk buffer to a whole block and push it. */
    method FillAndPush(inbuf: seq<byte>, pos: nat, ghost goal: (Stream<S>, int)) returns (status: int)
      requires StreamReady()
      requires pos <= |inbuf| && STREAM_CHUNK <= streamAvailIn + (|inbuf| - pos)
      requires Feed(codec, Model(), inbuf[pos..]) == goal
      modifies this, tmpStream, outBuffer
      ensures Placed() && (status == AEC_OK ==> StreamReady())
      ensures streamAvailIn == if status == AEC_OK then 0 else STREAM_CHUNK
      ensures status == AEC_OK ==> Feed(codec, Model(), inbuf[pos + (STREAM_CHUNK - old(streamAvailIn))..]) == goal
      ensures status != AEC_OK ==> (Model(), status) == goal
    {
      ghost var before := Model();
      var need := STREAM_CHUNK - streamAvailIn;
      CopyIn(inbuf, pos, need);
      assert inbuf[pos..][..need] == inbuf[pos..pos + need];
      assert inbuf[pos..][need..] == inbuf[pos + need..];
      streamAvailIn := STREAM_CHUNK;
      ghost var block := before.tmp + inbuf[pos..][..need];
      assert tmpStream[..STREAM_CHUNK] == block;
      status := PushBlock();
      if status == AEC_OK {
        assert Model() == Stream(state, [], output);
      } else {
        assert tmpStream[..STREAM_CHUNK] == tmpStream[..][..STREAM_CHUNK] == block;
        assert Model() == Stream(state, block, before.written);
      }
    }

    /** `d_stream_avail_in + nbytes - STREAM_CHUNK`, computed in `size_t` and stored in a `long`. */
    static method Remainder(avail: nat, nbytes: nat) returns (remainder: int)
      requires avail + nbytes < TWO_63
      ensures remainder == avail + nbytes - STREAM_CHUNK
    {
      RemainderIsExact(avail + nbytes, STREAM_CHUNK);
      remainder := Long(Size(avail + nbytes - STREAM_CHUNK));
    }

    /** The loop of the stream calls, from a point where at least one whole block is at hand. */
    method PushBlocks(inbuf: seq<byte>, ghost goal: (Stream<S>, int)) returns (status: int, pos: nat)
      requires StreamReady()
      requires Feed(codec, Model(), inbuf) == goal
      requires STREAM_CHUNK <= streamAvailIn + |inbuf| < TWO_63
      modifies this, tmpStream, outBuffer
      ensures Placed() && (status == AEC_OK ==> StreamReady()) && pos <= |inbuf|
      ensures status == AEC_OK ==> streamAvailIn == 0 && |inbuf| - pos < STREAM_CHUNK
      ensures status == AEC_OK ==> Feed(codec, Model(), inbuf[pos..]) == goal
      ensures status != AEC_OK ==> (Model(), status) == goal
    {
      status, pos := AEC_OK, 0;
      var nbytes: nat := |inbuf|;
      var remainder := Remainder(streamAvailIn, nbytes);
      assert inbuf[0..] == inbuf;
      while remainder >= 0
        invariant StreamReady()
        invariant pos + nbytes == |inbuf|
        invariant remainder == streamAvailIn + nbytes - STREAM_CHUNK
        invariant remainder < 0 ==> streamAvailIn == 0
        invariant status == AEC_OK
        invariant Feed(codec, Model(), inbuf[pos..]) == goal
        decreases remainder
      {
        status := FillAndPush(inbuf, pos, goal);
        if status != AEC_OK {
          return;
        }
        pos := pos + (nbytes - remainder);
        nbytes := nbytes - (nbytes - remainder);
        remainder := Remainder(streamAvailIn, nbytes);
      }
    }

    /** `stream_compress` and `stream_decompress`. Buffer sizes are those of real objects, hence
        below 2^63. */
    method StreamPush(inbuf: seq<byte>) returns (status: int)
      requires StreamReady()
      requires streamAvailIn + |inbuf| < TWO_63
      modifies this, tmpStream, outBuffer
      ensures Placed() && (status == AEC_OK ==> StreamReady())
      ensures (Model(), status) == Feed(codec, old(Model()), inbuf)
    {
      var nbytes := |inbuf|;
      if Size(streamAvailIn + nbytes) < STREAM_CHUNK {
        CopyIn(inbuf, 0, nbytes);
        assert inbuf[0..nbytes] == inbuf;
        streamAvailIn := streamAvailIn + nbytes;
        availIn := streamAvailIn;
        return AEC_OK;
      }
      var pos;
      status, pos := PushBlocks(inbuf, Feed(codec, Model(), inbuf));
      if status != AEC_OK {
        return;
      }
      nbytes := nbytes - pos;
      if nbytes != 0 {
        CopyIn(inbuf, pos, nbytes);
        assert inbuf[pos..pos + nbytes] == inbuf[pos..];
        assert tmpStream[..nbytes] == [] + inbuf[pos..];
        streamAvailIn := nbytes;
      } else {
        assert Model().tmp == [] && inbuf[pos..] == [];
      }
    }

    /** `stream_compress_fin` with a flush, `stream_decompress_fin` without. A failing codec call gives
        -1 and writes nothing; otherwise the status is that of shutting the codec down. */
    method StreamFinish(f: Flush) returns (status: int)
      requires StreamReady()
      modifies this, outBuffer
      ensures var r := codec.run(old(state), f, old(tmpStream[..streamAvailIn]), CHUNK);
              && status == (if r.status == AEC_OK then codec.end(r.state) else -1)
              && output == old(output) + (if r.status == AEC_OK then r.out else [])
      ensures (output, status) == Finish(codec, old(Model()), f)
    {
      nextOut, nextOutPos := outBuffer, 0;
      nextIn, nextInPos := tmpStream, 0;
      availIn := streamAvailIn;
      ghost var r;
      assert tmpStream[0..streamAvailIn] == tmpStream[..streamAvailIn];
      status, r := Run(f, tmpStream[..streamAvailIn]);
      if status != AEC_OK {
        return -1;
      }
      var produced := Difference(totalOut, streamTotalOut);
      if produced > 0 {
        Write(outBuffer, produced);
      } else {
        assert output + r.out == output;
      }
      status := codec.end(state);
    }

    // ---------------------------------------------------------------- file calls

    /** What the loop of `compress` and `decompress` keeps: `c` has been consumed, `w` waits at the
        input pointer, `e` has been emitted and written after `header`, the output buffer is
        empty again, and `total` is the `int` running total. */
    ghost predicate Pumping(m: Meaning<S>, inb: array<byte>, outb: array<byte>, header: seq<byte>,
                            c: seq<byte>, w: seq<byte>, e: seq<byte>, total: int)
      reads this, inb
    {
      && inb != outb && inb.Length == CHUNK && outb.Length == CHUNK
      && nextOut == outb && nextOutPos == 0 && availOut == CHUNK
      && availIn == |w|
      && (nextIn == null ==> w == [])
      && (nextIn != null ==> nextIn == inb && nextInPos + availIn <= CHUNK && inb[nextInPos..nextInPos + availIn] == w)
      && m.rep(state, c, e)
      && output == header + e
      && totalOut == |e| && total == Int(|e|)
    }

    /** How the loop ends on a codec error: some call on input waiting after `c` failed, its status is
        returned, and the file holds everything emitted before that call and nothing of it. */
    ghost predicate StoppedBy(m: Meaning<S>, header: seq<byte>, all: seq<byte>, status: int)
      reads this
    {
      exists before: S, c, w, e :: StoppedAt(m, header, all, status, before, c, w, e)
    }

    ghost predicate StoppedAt(m: Meaning<S>, header: seq<byte>, all: seq<byte>, status: int,
                              before: S, c: seq<byte>, w: seq<byte>, e: seq<byte>)
      reads this
    {
      var r := codec.run(before, NoFlush, w, CHUNK);
      && m.rep(before, c, e) && c + w <= all
      && r.status == status != AEC_OK && state == r.state
      && output == header + e && totalOut == |e| + |r.out|
    }

    /** `input_stream.read(in, CHUNK)` followed by `gcount()`. */
    method Read(inb: array<byte>, pos: nat) returns (got: nat)
      requires inb.Length == CHUNK && pos <= |input|
      modifies inb
      ensures got == if |input| - pos < CHUNK then |input| - pos else CHUNK
      ensures inb[0..got] == input[pos..pos + got]
    {
      got := if |input| - pos < CHUNK then |input| - pos else CHUNK;
      forall i | 0 <= i < got {
        inb[i] := input[pos + i];
      }
    }

    /** Write what the last codec call produced and give the output buffer back to the codec. The
        count is taken through the `int` running total. When it is not the number of bytes in the
        buffer the source writes something else; the model then stops and says so. */
    method WriteProduced(outb: array<byte>, total: int, ghost before: nat, ghost made: seq<byte>)
      returns (produced: nat, total': int, sound: bool)
      requires nextOut == outb && total == Int(before) && totalOut == before + |made| < TWO_63
      requires |made| == nextOutPos <= outb.Length == CHUNK == nextOutPos + availOut && outb[0..nextOutPos] == made
      modifies `output, `nextOut, `nextOutPos, `availOut
      ensures sound <==> before < TWO_31
      ensures sound ==> output == old(output) + made && produced == |made| && total' == Int(totalOut)
      ensures sound ==> nextOut == outb && nextOutPos == 0 && availOut == CHUNK
      ensures !sound ==> output == old(output)
    {
      IntTotalIsExact(totalOut, before);
      produced, total' := Size(totalOut - total), total;
      sound := produced == nextOutPos;
      if sound && produced > 0 {
        Write(outb, produced);
        total' := Int(totalOut);
        nextOut, nextOutPos := outb, 0;
        availOut := CHUNK;
      }
    }

    /** The second half of the loop body: one codec call, then write what it produced. The write is
        sound exactly while fewer than 2^31 bytes are out before the call. */
    method PumpOnce(ghost m: Meaning<S>, inb: array<byte>, outb: array<byte>, ghost header: seq<byte>,
                    ghost c: seq<byte>, ghost w: seq<byte>, ghost e: seq<byte>, ghost all: seq<byte>, total: int)
      returns (status: int, produced: nat, total': int, sound: bool,
               ghost c': seq<byte>, ghost w': seq<byte>, ghost e': seq<byte>)
      requires Lawful(codec, m) && c + w <= all && |m.eager(all)| < TWO_63
      requires Pumping(m, inb, outb, header, c, w, e, total) && nextIn != null
      modifies this, outb
      ensures m.accepts(all) ==> status == AEC_OK
      ensures status == AEC_OK ==> (sound <==> |e| < TWO_31)
      ensures status == AEC_OK && sound ==>
                && Pumping(m, inb, outb, header, c', w', e', total') && nextIn != null
                && c' + w' == c + w && |c| <= |c'|
                && |e'| == |e| + produced && |e'| <= |m.eager(all)|
                && (produced < m.usable(CHUNK) ==> w' == [] && e' == m.eager(c'))
      ensures status != AEC_OK || !sound ==> output == old(output)
      ensures status != AEC_OK ==> StoppedBy(m, header, all, status)
    {
      produced, total', sound := 0, total, true;
      CallFacts(codec, m, state, c, e, w, CHUNK, all);
      ghost var r;
      c', w', e' := c, w, e;
      ghost var before := state;
      status, r := Run(NoFlush, w);
      if status != AEC_OK {
        assert StoppedAt(m, header, all, status, before, c, w, e);
        return;
      }
      c', w', e' := c + w[..r.taken], w[r.taken..], e + r.out;
      assert w == w[..r.taken] + w[r.taken..];
      assert r.taken == |w| ==> c' == c + w;
      assert header + e + r.out == header + (e + r.out);
      assert inb[nextInPos..nextInPos + availIn] == w[r.taken..];
      produced, total', sound := WriteProduced(outb, total, |e|, r.out);
    }

    /** The first half of the loop body: read the next piece of the file once the previous one is
        used up. A short read means the end of the file. */
    method Refill(ghost m: Meaning<S>, inb: array<byte>, outb: array<byte>, ghost header: seq<byte>,
                  ghost c: seq<byte>, ghost w: seq<byte>, ghost e: seq<byte>, total: int, pos: nat, inputAvail: bool)
      returns (pos': nat, inputAvail': bool, ghost w': seq<byte>)
      requires Pumping(m, inb, outb, header, c, w, e, total)
      requires pos <= |input| && (!inputAvail ==> pos == |input| && nextIn != null)
      modifies `nextIn, `nextInPos, `availIn, inb
      ensures Pumping(m, inb, outb, header, c, w', e, total) && nextIn != null
      ensures pos <= pos' <= |input| && w' == w + input[pos..pos']
      ensures !inputAvail' ==> pos' == |input|
      ensures inputAvail' ==> inputAvail && |w'| > 0
    {
      pos', inputAvail', w' := pos, inputAvail, w;
      if availIn == 0 && inputAvail {
        availIn := Read(inb, pos);
        if availIn != CHUNK {
          inputAvail' := false;
        }
        nextIn, nextInPos := inb, 0;
        pos' := pos + availIn;
        w' := input[pos..pos'];
      }
    }

    /** One turn of the loop. The file is always consumed ++ waiting ++ unread, and a turn that
        neither consumes nor emits anything has seen the end of the file. */
    method PumpTurn(ghost m: Meaning<S>, inb: array<byte>, outb: array<byte>, ghost header: seq<byte>,
                    ghost c: seq<byte>, ghost w: seq<byte>, ghost e: seq<byte>, ghost all: seq<byte>,
                    total: int, pos: nat, inputAvail: bool)
      returns (status: int, produced: nat, total': int, sound: bool, pos': nat, inputAvail': bool,
               ghost c': seq<byte>, ghost w': seq<byte>, ghost e': seq<byte>)
      requires Lawful(codec, m) && |m.eager(all)| < TWO_63 && m.usable(CHUNK) > 0
      requires Pumping(m, inb, outb, header, c, w, e, total)
      requires pos <= |input| && all == c + w + input[pos..]
      requires !inputAvail ==> pos == |input| && nextIn != null
      modifies this, inb, outb
      ensures m.accepts(all) ==> status == AEC_OK
      ensures status == AEC_OK ==> (sound <==> |e| < TWO_31)
      ensures status != AEC_OK || !sound ==> output == old(output)
      ensures status != AEC_OK ==> StoppedBy(m, header, all, status)
      ensures status == AEC_OK && sound ==>
                && Pumping(m, inb, outb, header, c', w', e', total') && nextIn != null
                && pos' <= |input| && all == c' + w' + input[pos'..]
                && (!inputAvail' ==> pos' == |input|)
                && (inputAvail' ==> inputAvail)
                && |c| <= |c'| && |e'| == |e| + produced && |e'| <= |m.eager(all)|
                && (produced == 0 ==> w' == [] && e' == m.eager(c'))
                && (produced == 0 && |c'| == |c| ==> !inputAvail')
    {
      ghost var w1;
      pos', inputAvail', w1 := Refill(m, inb, outb, header, c, w, e, total, pos, inputAvail);
      assert input[pos..] == input[pos..pos'] + input[pos'..];
      assert all == c + w1 + input[pos'..];
      status, produced, total', sound, c', w', e' := PumpOnce(m, inb, outb, header, c, w1, e, all, total);
    }

    /** The loop of `compress` and `decompress`. It terminates for every lawful codec, has then
        read the whole file, handed every byte to the codec in order, and written everything the
        codec can emit without a flush, exactly when that is less than 2^31 bytes; otherwise some
        write comes out wrong. */
    method FilePump(ghost m: Meaning<S>, inb: array<byte>, outb: array<byte>)
      returns (status: int, total: int, sound: bool)
      requires Lawful(codec, m) && Unused() && inputStart <= |input|
      requires inb != outb && inb.Length == CHUNK && outb.Length == CHUNK
      requires m.usable(CHUNK) > 0 && |m.eager(input[inputStart..])| < TWO_63
      modifies this, inb, outb
      ensures m.accepts(input[inputStart..]) ==> status == AEC_OK
      ensures status == AEC_OK ==> (sound <==> |m.eager(input[inputStart..])| < TWO_31)
      ensures status != AEC_OK ==> StoppedBy(m, old(output), input[inputStart..], status)
      ensures var all := input[inputStart..];
              status == AEC_OK && sound ==>
                Pumping(m, inb, outb, old(output), all, [], m.eager(all), total) && nextIn != null
      ensures old(output) <= output
    {
      status, total, sound := AEC_OK, 0, true;
      ghost var header, all := output, input[inputStart..];
      ghost var c, w, e := [], [], [];
      var pos: nat := inputStart;
      var inputAvail, outputAvail := true, true;
      nextOut, nextOutPos := outb, 0;
      nextIn := null;
      assert header + e == header;
      while inputAvail || outputAvail
        invariant status == AEC_OK && sound && pos <= |input|
        invariant Pumping(m, inb, outb, header, c, w, e, total)
        invariant all == c + w + input[pos..]
        invariant !inputAvail ==> pos == |input| && nextIn != null
        invariant !outputAvail ==> w == [] && e == m.eager(c) && |e| < TWO_31
        invariant |e| <= |m.eager(all)|
        decreases |all| - |c|, if inputAvail then 1 else 0, |m.eager(all)| - |e|, if outputAvail then 1 else 0
      {
        var produced;
        status, produced, total, sound, pos, inputAvail, c, w, e :=
          PumpTurn(m, inb, outb, header, c, w, e, all, total, pos, inputAvail);
        if status != AEC_OK || !sound {
          return;
        }
        outputAvail := produced > 0;
      }
      assert c == all;
    }
  }

  /** The caller's loop over its buffers, up to the first call that fails. */
  method PushAll<S(!new)>(s: CodecSession<S>, bufs: seq<seq<byte>>) returns (status: int)
    requires s.StreamReady() && s.streamAvailIn < STREAM_CHUNK
    requires forall i :: 0 <= i < |bufs| ==> |bufs[i]| + STREAM_CHUNK < TWO_63
    modifies s, s.tmpStream, s.outBuffer
    ensures s.Placed() && (status == AEC_OK ==> s.StreamReady())
    ensures (s.Model(), status) == FeedAll(s.codec, old(s.Model()), bufs)
    decreases |bufs|
  {
    status := AEC_OK;
    if bufs != [] {
      status := s.StreamPush(bufs[0]);
      if status == AEC_OK {
        status := PushAll(s, bufs[1..]);
      }
    }
  }
}
