/**
 Line errors without break detection: which reads abandon an open frame.
 */
module FallbackErrors {
  import opened Dmx
  import opened BreakFraming
  import opened Alignment
  import opened FallbackFraming
  import opened FallbackSync
  import opened FallbackGaps

  /** What the read leads to does not depend on the frame that is open. */
  ghost predicate Abandons(gap: int, fb: Fb, rd: Read) {
    forall f: Frame :: f.length < MAX_CHANNELS ==> OnRead(gap, fb.(frame := f), rd) == OnRead(gap, fb, rd)
  }

  /**
   After any run, a read that ends in a line error abandons the open frame if and
   only if it brings data. With data the hunt starts over on that data; without,
   the frame stays open, or is emitted as it is once the gap has passed.
   */
  lemma ErrorAbandonsIff(gap: int, t0: int, rds: seq<Read>, rd: Read)
    requires FbRun(gap, Begin(t0), rds).fb.state == ReadData && rd.marker == MarkerError
    ensures var fb := FbRun(gap, Begin(t0), rds).fb;
            var r := OnRead(gap, fb, rd);
            && (Abandons(gap, fb, rd) <==> rd.data != [])
            && (rd.data != [] ==> r == OnData(Fb(WaitBreak, EMPTY_FRAME, [], rd.now), rd.data))
            && (rd.data == [] ==>
                  r == if rd.now - fb.lastData < gap || fb.frame.length == 0 then Out(fb, [])
                       else Out(fb.(frame := EMPTY_FRAME, state := WaitStartCode), [fb.frame]))
  {
    TidyRun(gap, t0, rds);
    hide FbRun, OnData;
    var fb := FbRun(gap, Begin(t0), rds).fb;
    if rd.data == [] {
      var other := fb.frame.(startCode := if fb.frame.startCode == 0 then 1 else 0);
      assert OnRead(gap, fb.(frame := other), rd) != OnRead(gap, fb, rd);
    }
  }

  /**
   Away from an open frame an error with data only starts or continues the hunt: a
   hunt keeps the bytes it has, a receiver at a boundary has none, and the read's
   own bytes join them.
   */
  lemma ErrorKeepsHunt(gap: int, t0: int, rds: seq<Read>, rd: Read)
    requires FbRun(gap, Begin(t0), rds).fb.state != ReadData && rd.marker == MarkerError && rd.data != []
    ensures var fb := FbRun(gap, Begin(t0), rds).fb;
            var h := Look((if fb.state == WaitBreak then fb.syncBuf else []) + rd.data);
            var r := FbRun(gap, Begin(t0), rds + [rd]);
            && (h.Searching? ==> Hunting(r.fb, h.buf) && r.frames == FbRun(gap, Begin(t0), rds).frames)
            && (h.Anchored? ==>
                  Synced(r.fb, h.data) && r.frames == FbRun(gap, Begin(t0), rds).frames + Windows(h.data))
  {
    TidyRun(gap, t0, rds);
    assert (rds + [rd])[..|rds|] == rds;
    var before := FbRun(gap, Begin(t0), rds);
    var fb := before.fb;
    var at := fb.(frame := EMPTY_FRAME, state := WaitBreak, lastData := rd.now);
    HuntRead(at, at.syncBuf, rd.data);
    LookIsTail(at.syncBuf + rd.data);
    assert FbRun(gap, Begin(t0), rds + [rd]).fb == OnData(at, rd.data).fb;
    hide FbRun, OnData, Look, Aligned, Windows, Synced;
    assert before.frames + [] == before.frames;
  }

  /** Without data an error is no different from silence. */
  lemma EmptyErrorIsSilence(gap: int, fb: Fb, now: int)
    ensures OnRead(gap, fb, Read([], MarkerError, now)) == OnRead(gap, fb, Read([], MarkerNone, now))
  {
  }

  /** The gap is always measured from the last read that brought data, whatever ended it. */
  function LastHeard(t0: int, rds: seq<Read>): int {
    if rds == [] then t0
    else if rds[|rds| - 1].data != [] then rds[|rds| - 1].now
    else LastHeard(t0, rds[..|rds| - 1])
  }

  lemma {:induction false} GapFromLastHeard(gap: int, t0: int, rds: seq<Read>)
    ensures FbRun(gap, Begin(t0), rds).fb.lastData == LastHeard(t0, rds)
  {
    if rds != [] {
      var init, rd := rds[..|rds| - 1], rds[|rds| - 1];
      GapFromLastHeard(gap, t0, init);
      if rd.data != [] {
        ReadSetsTime(gap, FbRun(gap, Begin(t0), init).fb, rd);
      }
    }
  }

  /**
   So a frame may span a line error: with 511 channels open, an error that comes
   without data and then one byte give a frame.
   */
  lemma FrameSpansError(gap: int, fb: Fb, error: Read, next: Read)
    requires fb.state == ReadData && fb.frame.length == MAX_CHANNELS - 1
    requires error.data == [] && error.marker == MarkerError && error.now - fb.lastData < gap
    requires |next.data| == 1 && next.marker != MarkerError
    ensures FbRun(gap, fb, [error, next]).frames == [fb.frame.Store(next.data[0])]
  {
    var at := fb.(lastData := next.now);
    assert [error, next][..1] == [error] && [error][..0] == [];
    assert FbRun(gap, fb, [error]) == Out(fb, []) by {
      assert FbRun(gap, fb, []) == Out(fb, []);
    }
    assert Consume(at, next.data).frames == [at.frame.Store(next.data[0])] by {
      assert next.data[..0] == [];
      assert Consume(at, []) == Out(at, []);
    }
  }

  /** Zeros cut into two reads. */
  function Dark(t0: int, n: nat): seq<Read>
    requires CHUNK_SIZE <= n
  {
    [Read(Zeros(CHUNK_SIZE), MarkerNone, t0), Read(Zeros(n - CHUNK_SIZE), MarkerNone, t0)]
  }

  lemma DarkReceived(t0: int, n: nat)
    requires CHUNK_SIZE <= n
    ensures Received(Dark(t0, n)) == Zeros(n) && Received(Dark(t0, n)[..1]) == Zeros(CHUNK_SIZE)
  {
    var rds := Dark(t0, n);
    assert rds[..1][..0] == [] && rds[..1] == [rds[0]];
    assert Received(rds[..1]) == [] + Zeros(CHUNK_SIZE);
    assert Received(rds) == Received(rds[..1]) + rds[1].data;
  }

  lemma DarkInSync(gap: int, t0: int)
    requires gap > 0
    ensures var r := FbRun(gap, Begin(t0), Dark(t0, 1538));
            && r.frames == [MakeFrame(Zeros(512)), MakeFrame(Zeros(512))]
            && r.fb.state == ReadData && r.fb.frame == MakeFrame(Zeros(511)) && r.fb.lastData == t0
  {
    var rds, data := Dark(t0, 1538), Zeros(1538);
    assert Flowing(gap, Begin(t0), rds) by {
      assert rds[..1][..0] == [] && rds[..1] == [rds[0]];
      assert Flowing(gap, Begin(t0), []);
      assert Flowing(gap, Begin(t0), rds[..1]);
    }
    DarkReceived(t0, 1538);
    FreshHunt(rds, 0);
    HoldsSync(gap, Begin(t0), rds);
    assert data[0..] == data;
    WindowsAt(data, 0);
    WindowsAt(data, 1);
    assert data[1..513] == Zeros(512) && data[514..1026] == Zeros(512) && data[1027..] == Zeros(511);
    ReadSetsTime(gap, FbRun(gap, Begin(t0), rds[..1]).fb, rds[1]);
  }

  lemma ReadSetsTime(gap: int, fb: Fb, rd: Read)
    requires rd.data != []
    ensures OnRead(gap, fb, rd).fb.lastData == rd.now
  {
    var timed := fb.(lastData := rd.now);
    var at := if rd.marker == MarkerError then timed.(frame := EMPTY_FRAME, state := WaitBreak) else timed;
    ConsumeKeepsTime(at, rd.data);
    var buf := at.syncBuf + rd.data;
    AlignmentIsLeast(buf);
    if AlignmentOf(buf).Found? {
      ConsumeKeepsTime(at.(syncBuf := [], state := WaitStartCode), buf[AlignmentOf(buf).off..]);
    }
  }

  /** And it does from power-up: 1538 zeros are three packets but for the last channel. */
  lemma ErrorSpanned(gap: int, t0: int, b: byte)
    requires gap > 0
    ensures var rds := Dark(t0, 1538) + [Read([], MarkerError, t0), Read([b], MarkerNone, t0)];
            FbRun(gap, Begin(t0), rds).frames ==
              [MakeFrame(Zeros(512)), MakeFrame(Zeros(512)), MakeFrame(Zeros(511) + [b])]
  {
    hide FbRun, MakeFrame, Zeros, Dark;
    DarkInSync(gap, t0);
    var error, next := Read([], MarkerError, t0), Read([b], MarkerNone, t0);
    OpenLength();
    FbRunAppend(gap, Begin(t0), Dark(t0, 1538), [error, next]);
    FrameSpansError(gap, FbRun(gap, Begin(t0), Dark(t0, 1538)).fb, error, next);
    StoreExtends(Zeros(511), b);
  }

  lemma OpenLength()
    ensures |Zeros(511)| == 511 && MakeFrame(Zeros(511)).length == 511
  {
  }
}
