/**
 The receiver: its two framing loops over a serial port, proved against the
 framing machines.
 */
module Receiver {
  import opened Dmx
  import opened BreakVote
  import opened BreakFraming
  import opened Channels
  import Alignment
  import FB = FallbackFraming
  import SP = SerialPort

  const DEFAULT_GAP_THRESHOLD := 2000000 // nanoseconds

  class Receiver {
    const port: SP.SerialPort
    const output: Chan<Frame>
    const inferBreaks: bool
    const gapThreshold: int

    constructor (port: SP.SerialPort, inferBreaks: bool, gapThreshold: int)
      ensures this.port == port && this.inferBreaks == inferBreaks && this.gapThreshold == gapThreshold
      ensures fresh(output) && output.Valid() && output.capacity == 4
      ensures output.queue == output.taken == output.offered == []
    {
      this.port, this.inferBreaks, this.gapThreshold := port, inferBreaks, gapThreshold;
      output := new Chan(4);
    }

    /** Publish a frame, or drop it if the consumer is behind. */
    method Emit(frame: Frame)
      requires output.Valid()
      modifies output
      ensures output.Valid() && output.offered == old(output.offered) + [frame]
      ensures output.taken + output.queue == old(output.taken + output.queue) + [frame]
           || (output.taken + output.queue == old(output.taken + output.queue) && |old(output.queue)| == output.capacity)
    {
      output.Offer(frame);
    }

    // ----- break detection -----

    method OnByte(state: RxState, frame: Frame, breaks: BreakValidator, b: byte)
      returns (state': RxState, frame': Frame)
      requires output.Valid() && breaks.Valid() && breaks.infer == inferBreaks
      modifies output
      ensures output.Valid()
      ensures var r := BreakFraming.OnByte(Rx(state, frame, breaks.Abs()), b);
              && Rx(state', frame', breaks.Abs()) == r.rx
              && output.offered == old(output.offered) + r.frames
    {
      state', frame' := state, frame;
      match state
      case WaitStartCode =>
        frame' := frame'.(startCode := b);
        state' := if b == START_CODE_DMX then ReadData else WaitBreak;
      case ReadData =>
        if frame'.length < MAX_CHANNELS {
          frame' := frame'.Store(b);
        }
        if inferBreaks && breaks.locked > 0 && frame'.length == breaks.locked {
          Emit(frame');
          frame' := EMPTY_FRAME;
          state' := SkipTrailer;
        }
      case SkipTrailer =>
        state' := WaitStartCode;
      case WaitBreak =>
    }

    method OnMarker(state: RxState, frame: Frame, breaks: BreakValidator, m: Marker)
      returns (state': RxState, frame': Frame)
      requires output.Valid() && breaks.Valid() && breaks.infer == inferBreaks
      modifies output, breaks
      ensures output.Valid() && breaks.Valid() && breaks.infer == inferBreaks
      ensures var r := Frames(Rx(state, frame, old(breaks.Abs())), MarkerItems(m));
              && Rx(state', frame', breaks.Abs()) == r.rx
              && output.offered == old(output.offered) + r.frames
    {
      state', frame' := state, frame;
      FramesOfMarker(Rx(state, frame, breaks.Abs()), m);
      match m
      case MarkerNone =>
      case MarkerBreak =>
        if inferBreaks && breaks.locked > 0 {
          if state' == WaitBreak {
            state' := WaitStartCode;
          }
          return;
        }
        if state' == ReadData && frame'.length > 0 {
          var boundary, publish := breaks.Classify(frame'.length);
          if !boundary {
            return;
          }
          if publish {
            Emit(frame');
          }
        }
        frame' := EMPTY_FRAME;
        state' := WaitStartCode;
      case MarkerError =>
        frame' := EMPTY_FRAME;
        state' := WaitBreak;
    }

    method OnChunk(state: RxState, frame: Frame, breaks: BreakValidator, buf: array<byte>, n: nat, m: Marker)
      returns (state': RxState, frame': Frame)
      requires output.Valid() && breaks.Valid() && breaks.infer == inferBreaks && n <= buf.Length
      modifies output, breaks
      ensures output.Valid() && breaks.Valid() && breaks.infer == inferBreaks
      ensures var r := Frames(Rx(state, frame, old(breaks.Abs())), DataItems(buf[..n]) + MarkerItems(m));
              && Rx(state', frame', breaks.Abs()) == r.rx
              && output.offered == old(output.offered) + r.frames
    {
      hide BreakFraming.OnByte, OnItem, Frames, Chan.Valid, BreakValidator.Valid, BreakValidator.Abs;
      NoFrames(Rx(state, frame, breaks.Abs()));
      ghost var rx := Rx(state, frame, breaks.Abs());
      state', frame' := state, frame;
      assert DataItems(buf[..0]) == [];
      for i := 0 to n
        invariant output.Valid() && breaks.Valid() && breaks.infer == inferBreaks
        invariant Rx(state', frame', breaks.Abs()) == Frames(rx, DataItems(buf[..i])).rx
        invariant output.offered == old(output.offered) + Frames(rx, DataItems(buf[..i])).frames
      {
        FramesByte(rx, buf[..i], buf[i]);
        assert buf[..i] + [buf[i]] == buf[..i + 1];
        state', frame' := OnByte(state', frame', breaks, buf[i]);
      }
      FramesAppend(rx, DataItems(buf[..n]), MarkerItems(m));
      state', frame' := OnMarker(state', frame', breaks, m);
    }

    /**
     Until the port fails: the frames emitted are the machine's frames on
     everything the port delivered, and nothing that was read is left over.
     */
    method RunWithBreakDetect() returns (ghost items: seq<Item>)
      requires port.Valid() && output.Valid()
      modifies port, port.tty, port.dec, port.carryBuf, port.outBuf, output
      ensures port.Valid() && port.Drained() && output.Valid()
      ensures port.results == old(port.results + SP.Due(port.tty.script, port.pollable))
      ensures port.delivered == old(port.delivered) + items
      ensures output.offered == old(output.offered) + Frames(Start(inferBreaks), items).frames
    {
      hide Frames, DataItems, MarkerItems;
      hide SP.SerialPort.Valid, SP.SerialPort.Drained, SP.SerialPort.Undelivered, SP.SerialPort.Raws, SP.Due, SP.QuietsAt;
      hide Chan.Valid, BreakValidator.Valid, BreakValidator.Abs;
      var buf := new byte[CHUNK_SIZE];
      var frame, state := EMPTY_FRAME, WaitBreak;
      var breaks := new BreakValidator(inferBreaks);
      items := [];
      ghost var start := Start(inferBreaks);
      ghost var delivered, offered := port.delivered, output.offered;
      ghost var goal := port.results + SP.Due(port.tty.script, port.pollable);
      NoFrames(start);
      var ok := true;
      while ok
        invariant port.Valid() && output.Valid() && fresh(buf) && buf != port.out
        invariant breaks.Valid() && fresh(breaks) && breaks.infer == inferBreaks
        invariant port.delivered == delivered + items
        invariant Rx(state, frame, breaks.Abs()) == Frames(start, items).rx
        invariant output.offered == offered + Frames(start, items).frames
        invariant !ok ==> port.Drained()
        invariant goal == if ok then port.results + SP.Due(port.tty.script, port.pollable) else port.results
        decreases ok, |port.tty.script|, port.Undelivered()
      {
        var n, m;
        n, m, ok := port.ReadChunk(buf);
        ghost var chunk := DataItems(buf[..n]) + MarkerItems(m);
        FramesAppend(start, items, chunk);
        state, frame := OnChunk(state, frame, breaks, buf, n, m);
        items := items + chunk;
      }
    }

    // ----- fallback -----

    function Gap(): int {
      if gapThreshold <= 0 then DEFAULT_GAP_THRESHOLD else gapThreshold
    }

    method ConsumeByte(ghost fb: FB.Fb, state: RxState, frame: Frame, b: byte)
      returns (state': RxState, frame': Frame)
      requires output.Valid() && fb.state == state && fb.frame == frame
      modifies output
      ensures output.Valid()
      ensures var r := FB.ConsumeByte(fb, b);
              && fb.(state := state', frame := frame') == r.fb
              && output.offered == old(output.offered) + r.frames
    {
      state', frame' := state, frame;
      match state
      case WaitStartCode =>
        frame' := frame'.(startCode := b);
        state' := if b == START_CODE_DMX then ReadData else WaitBreak;
      case ReadData =>
        frame' := frame'.Store(b);
        if frame'.length == MAX_CHANNELS {
          Emit(frame');
          frame' := EMPTY_FRAME;
          state' := WaitStartCode;
        }
      case _ =>
    }

    /** Feed aligned bytes through the length-anchored machine. */
    method Consume(ghost fb: FB.Fb, state: RxState, frame: Frame, data: seq<byte>)
      returns (state': RxState, frame': Frame)
      requires output.Valid() && fb.state == state && fb.frame == frame
      modifies output
      ensures output.Valid()
      ensures var r := FB.Consume(fb, data);
              && fb.(state := state', frame := frame') == r.fb
              && output.offered == old(output.offered) + r.frames
    {
      hide FB.ConsumeByte;
      state', frame' := state, frame;
      for i := 0 to |data|
        invariant output.Valid()
        invariant frame'.length < MAX_CHANNELS
        invariant fb.(state := state', frame := frame') == FB.Consume(fb, data[..i]).fb
        invariant output.offered == old(output.offered) + FB.Consume(fb, data[..i]).frames
      {
        assert data[..i + 1][..i] == data[..i];
        state', frame' := ConsumeByte(FB.Consume(fb, data[..i]).fb, state', frame', data[i]);
      }
      assert data[..|data|] == data;
    }

    /** A read that brought nothing. */
    method OnIdle(gap: int, state: RxState, frame: Frame, syncBuf: seq<byte>, lastData: int, now: int)
      returns (state': RxState, frame': Frame, syncBuf': seq<byte>)
      requires output.Valid() && frame.length < MAX_CHANNELS
      modifies output
      ensures output.Valid() && |syncBuf'| <= |syncBuf|
      ensures var r := FB.OnIdle(gap, FB.Fb(state, frame, syncBuf, lastData), now);
              && FB.Fb(state', frame', syncBuf', lastData) == r.fb
              && output.offered == old(output.offered) + r.frames
    {
      state', frame', syncBuf' := state, frame, syncBuf;
      if now - lastData < gap {
        return;
      }
      if state == ReadData && frame.length > 0 {
        Emit(frame);
        frame' := EMPTY_FRAME;
        state' := WaitStartCode;
      } else if state == WaitBreak && |syncBuf| > 1 {
        if syncBuf[0] == START_CODE_DMX {
          Emit(MakeFrame(Cap(syncBuf[1..])));
        }
        syncBuf' := [];
        state' := WaitStartCode;
      }
    }

    method OnData(gap: int, state: RxState, frame: Frame, syncBuf: seq<byte>, lastData: int,
                  data: seq<byte>, m: Marker, now: int)
      returns (state': RxState, frame': Frame, syncBuf': seq<byte>)
      requires output.Valid() && frame.length < MAX_CHANNELS
      requires 0 < |data| <= CHUNK_SIZE && |syncBuf| <= 4 * PACKET_SIZE
      modifies output
      ensures output.Valid() && |syncBuf'| <= 4 * PACKET_SIZE
      ensures var r := FB.OnRead(gap, FB.Fb(state, frame, syncBuf, lastData), FB.Read(data, m, now));
              && FB.Fb(state', frame', syncBuf', now) == r.fb
              && output.offered == old(output.offered) + r.frames
    {
      state', frame', syncBuf' := state, frame, syncBuf;
      // A hardware error means resync, even here.
      if m == MarkerError {
        frame' := EMPTY_FRAME;
        state' := WaitBreak;
      }
      var chunk := data;
      if state' == WaitBreak {
        syncBuf' := syncBuf' + chunk;
        assert |syncBuf'| <= 4 * PACKET_SIZE + CHUNK_SIZE;
        var off, found := Alignment.FindAlignment(syncBuf');
        if !found {
          // Keep the hunting window bounded.
          if |syncBuf'| > 4 * PACKET_SIZE {
            syncBuf' := syncBuf'[|syncBuf'| - 2 * PACKET_SIZE..];
          }
          return;
        }
        Alignment.AlignmentIsLeast(syncBuf');
        state' := WaitStartCode;
        chunk := syncBuf'[off..];
        syncBuf' := [];
      }
      state', frame' := Consume(FB.Fb(state', frame', syncBuf', now), state', frame', chunk);
    }

    /** One read, with or without data. */
    method OnRead(gap: int, state: RxState, frame: Frame, syncBuf: seq<byte>, lastData: int,
                  data: seq<byte>, m: Marker, now: int)
      returns (state': RxState, frame': Frame, syncBuf': seq<byte>, lastData': int)
      requires output.Valid() && frame.length < MAX_CHANNELS
      requires |data| <= CHUNK_SIZE && |syncBuf| <= 4 * PACKET_SIZE
      modifies output
      ensures output.Valid() && |syncBuf'| <= 4 * PACKET_SIZE
      ensures var r := FB.OnRead(gap, FB.Fb(state, frame, syncBuf, lastData), FB.Read(data, m, now));
              && FB.Fb(state', frame', syncBuf', lastData') == r.fb
              && output.offered == old(output.offered) + r.frames
    {
      hide FB.OnIdle;
      lastData' := lastData;
      if |data| == 0 {
        state', frame', syncBuf' := OnIdle(gap, state, frame, syncBuf, lastData, now);
        return;
      }
      state', frame', syncBuf' := OnData(gap, state, frame, syncBuf, lastData, data, m, now);
      lastData' := now;
    }

    /** As above without break detection: `clock` gives the readings of the clock, one at the start and one after each read. */
    method RunFallback(clock: nat -> int) returns (ghost rds: seq<FB.Read>)
      requires port.Valid() && output.Valid()
      modifies port, port.tty, port.dec, port.carryBuf, port.outBuf, output
      ensures port.Valid() && port.Drained() && output.Valid()
      ensures port.results == old(port.results + SP.Due(port.tty.script, port.pollable))
      ensures port.delivered == old(port.delivered) + FB.ReadItems(rds)
      ensures Stamped(rds, clock)
      ensures SP.QuietsAt(port.platform, port.results)
           == old(SP.QuietsAt(port.platform, port.results)) + FB.QuietsOf(|old(port.delivered)|, rds)
      ensures output.offered == old(output.offered) + FB.FbRun(Gap(), FB.Begin(clock(0)), rds).frames
    {
      hide FB.FbRun, FB.OnRead, FB.ReadItems, FB.QuietsOf, DataItems, SP.QuietsAt, Stamped;
      hide SP.SerialPort.Valid, SP.SerialPort.Drained, SP.SerialPort.Undelivered, SP.SerialPort.Raws, SP.Due, Chan.Valid;
      var buf := new byte[CHUNK_SIZE];
      var frame, state, syncBuf: seq<byte> := EMPTY_FRAME, WaitBreak, [];
      var lastData, ticks := clock(0), 0;
      var gap := Gap();
      ghost var t0 := lastData;
      rds := [];
      ghost var delivered, offered := port.delivered, output.offered;
      ghost var quiets := SP.QuietsAt(port.platform, port.results);
      ghost var goal := port.results + SP.Due(port.tty.script, port.pollable);
      NoReads(gap, t0);
      var ok := true;
      while ok
        invariant port.Valid() && output.Valid() && fresh(buf) && buf != port.out && buf.Length == CHUNK_SIZE
        invariant frame.length < MAX_CHANNELS && |syncBuf| <= 4 * PACKET_SIZE
        invariant port.delivered == delivered + FB.ReadItems(rds)
        invariant SP.QuietsAt(port.platform, port.results) == quiets + FB.QuietsOf(|delivered|, rds)
        invariant ticks == |rds| && Stamped(rds, clock)
        invariant FB.Fb(state, frame, syncBuf, lastData) == FB.FbRun(gap, FB.Begin(t0), rds).fb
        invariant output.offered == offered + FB.FbRun(gap, FB.Begin(t0), rds).frames
        invariant !ok ==> port.Drained()
        invariant goal == if ok then port.results + SP.Due(port.tty.script, port.pollable) else port.results
        decreases ok, |port.tty.script|, port.Undelivered()
      {
        var n, m;
        n, m, ok := port.ReadChunk(buf);
        if ok {
          ticks := ticks + 1;
          var now := clock(ticks);
          ghost var rd := FB.Read(buf[..n], m, now);
          OneRead(gap, t0, rds, rd);
          OneQuiet(|delivered|, rds, rd);
          StampedSnoc(rds, rd, clock);
          state, frame, syncBuf, lastData := OnRead(gap, state, frame, syncBuf, lastData, buf[..n], m, now);
          rds := rds + [rd];
        }
      }
    }
  }

  lemma NoReads(gap: int, t0: int)
    ensures FB.FbRun(gap, FB.Begin(t0), []) == FB.Out(FB.Begin(t0), []) && FB.ReadItems([]) == []
    ensures forall base :: FB.QuietsOf(base, []) == []
    ensures forall clock :: Stamped([], clock)
  {
  }

  /** Every read is of at most a chunk, and carries the next reading of the clock. */
  ghost predicate Stamped(rds: seq<FB.Read>, clock: nat -> int) {
    forall i :: 0 <= i < |rds| ==> rds[i].now == clock(i + 1) && |rds[i].data| <= CHUNK_SIZE
  }

  lemma StampedSnoc(rds: seq<FB.Read>, rd: FB.Read, clock: nat -> int)
    requires Stamped(rds, clock) && rd.now == clock(|rds| + 1) && |rd.data| <= CHUNK_SIZE
    ensures Stamped(rds + [rd], clock)
  {
  }

  lemma OneQuiet(base: nat, rds: seq<FB.Read>, rd: FB.Read)
    ensures FB.QuietsOf(base, rds + [rd])
         == FB.QuietsOf(base, rds)
            + (if rd.data == [] && rd.marker == MarkerNone then [base + |FB.ReadItems(rds)|] else [])
  {
    assert (rds + [rd])[..|rds|] == rds;
  }

  lemma OneRead(gap: int, t0: int, rds: seq<FB.Read>, rd: FB.Read)
    ensures var r := FB.FbRun(gap, FB.Begin(t0), rds);
            var s := FB.OnRead(gap, r.fb, rd);
            FB.FbRun(gap, FB.Begin(t0), rds + [rd]) == FB.Out(s.fb, r.frames + s.frames)
    ensures FB.ReadItems(rds + [rd]) == FB.ReadItems(rds) + (DataItems(rd.data) + MarkerItems(rd.marker))
  {
    assert (rds + [rd])[..|rds|] == rds;
  }

  lemma FramesOfMarker(rx: Rx, m: Marker)
    ensures Frames(rx, MarkerItems(m)) == match m
                                          case MarkerNone => Framed(rx, [])
                                          case MarkerBreak => OnItem(rx, Break)
                                          case MarkerError => OnItem(rx, Error)
  {
    hide OnItem, Frames;
    NoFrames(rx);
    FramesSnoc(rx, [], if m == MarkerBreak then Break else Error);
    assert [] + [Break] == [Break] && [] + [Error] == [Error];
  }
}
