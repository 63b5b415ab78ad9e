/**
 Fallback framing of short packets: where an idle gap follows every packet, each
 is emitted exactly, whatever its size.
 */
module FallbackGaps {
  import opened Dmx
  import opened BreakFraming
  import opened Alignment
  import opened FallbackFraming
  import opened FallbackSync

  /** A packet in any number of reads, then an idle read after the gap has passed. */
  datatype Burst = Burst(channels: seq<byte>, parts: seq<Read>, quiet: Read)

  ghost predicate WellTimed(gap: int, b: Burst) {
    && 1 <= |b.channels| <= MAX_CHANNELS
    && Received(b.parts) == [START_CODE_DMX] + b.channels
    && (forall i :: 0 <= i < |b.parts| ==> b.parts[i].data != [] && b.parts[i].marker != MarkerError)
    && b.parts != [] && b.quiet.data == [] && b.quiet.now - b.parts[|b.parts| - 1].now >= gap
  }

  function Reads(bs: seq<Burst>): seq<Read> {
    if bs == [] then [] else Reads(bs[..|bs| - 1]) + (bs[|bs| - 1].parts + [bs[|bs| - 1].quiet])
  }

  function FramesOf(bs: seq<Burst>): seq<Frame> {
    if bs == [] then [] else FramesOf(bs[..|bs| - 1]) + [MakeFrame(Cap(bs[|bs| - 1].channels))]
  }

  lemma {:induction false} FbRunAppend(gap: int, fb: Fb, a: seq<Read>, b: seq<Read>)
    ensures FbRun(gap, fb, a + b).fb == FbRun(gap, FbRun(gap, fb, a).fb, b).fb
    ensures FbRun(gap, fb, a + b).frames == FbRun(gap, fb, a).frames + FbRun(gap, FbRun(gap, fb, a).fb, b).frames
  {
    hide OnRead;
    if b == [] {
      assert a + b == a;
    } else {
      assert (a + b)[..|a + b| - 1] == a + b[..|b| - 1];
      FbRunAppend(gap, fb, a, b[..|b| - 1]);
    }
  }

  /** Less than two packets only pile up while hunting. */
  lemma {:induction false} PartsHunting(gap: int, fb: Fb, parts: seq<Read>)
    requires Hunting(fb, []) && |Received(parts)| < 2 * PACKET_SIZE
    requires forall i :: 0 <= i < |parts| ==> parts[i].data != [] && parts[i].marker != MarkerError
    ensures var r := FbRun(gap, fb, parts);
            && Hunting(r.fb, Received(parts)) && r.frames == []
            && r.fb.lastData == if parts == [] then fb.lastData else parts[|parts| - 1].now
  {
    if parts != [] {
      PartsHunting(gap, fb, parts[..|parts| - 1]);
    }
  }

  /** A packet that starts at a boundary is consumed in sync. */
  lemma {:induction false} PartsInSync(gap: int, fb: Fb, parts: seq<Read>)
    requires AtStart(fb) && Aligned(Received(parts), 0)
    requires forall i :: 0 <= i < |parts| ==> parts[i].data != [] && parts[i].marker != MarkerError
    ensures var r := FbRun(gap, fb, parts);
            && Synced(r.fb, Received(parts)) && r.frames == Windows(Received(parts))
            && r.fb.lastData == if parts == [] then fb.lastData else parts[|parts| - 1].now
  {
    hide Windows, ConsumeByte, Synced;
    if parts == [] {
      StartIsSynced(fb);
    } else {
      var init, rd := parts[..|parts| - 1], parts[|parts| - 1];
      AlignedPrefix(Received(parts), 0, |Received(init)|);
      assert Received(parts)[..|Received(init)|] == Received(init);
      PartsInSync(gap, fb, init);
      var at := FbRun(gap, fb, init).fb;
      SyncedNotHunting(at, Received(init), rd.now);
      ConsumeInSync(at.(lastData := rd.now), Received(init), rd.data);
      ConsumeKeepsTime(at.(lastData := rd.now), rd.data);
    }
  }

  lemma StartIsSynced(fb: Fb)
    requires AtStart(fb)
    ensures Synced(fb, []) && Windows([]) == []
  {
  }

  lemma {:induction false} ConsumeKeepsTime(fb: Fb, data: seq<byte>)
    ensures Consume(fb, data).fb.lastData == fb.lastData
  {
    if data != [] {
      ConsumeKeepsTime(fb, data[..|data| - 1]);
    }
  }

  ghost predicate Ready(fb: Fb) {
    Hunting(fb, []) || AtStart(fb)
  }

  lemma QuietHunting(gap: int, fb: Fb, channels: seq<byte>, now: int)
    requires Hunting(fb, [START_CODE_DMX] + channels) && channels != [] && now - fb.lastData >= gap
    ensures AtStart(OnIdle(gap, fb, now).fb) && OnIdle(gap, fb, now).frames == [MakeFrame(Cap(channels))]
  {
    assert ([START_CODE_DMX] + channels)[1..] == channels;
  }

  lemma QuietInSync(gap: int, fb: Fb, channels: seq<byte>, now: int)
    requires 1 <= |channels| <= MAX_CHANNELS && Synced(fb, [START_CODE_DMX] + channels) && now - fb.lastData >= gap
    ensures AtStart(OnIdle(gap, fb, now).fb)
    ensures Windows([START_CODE_DMX] + channels) + OnIdle(gap, fb, now).frames == [MakeFrame(Cap(channels))]
  {
    PacketWindow(channels);
    assert ([START_CODE_DMX] + channels)[1..] == channels;
    hide Windows, Phase;
  }

  /** One packet and its gap. */
  lemma BurstFramed(gap: int, fb: Fb, b: Burst)
    requires Ready(fb) && WellTimed(gap, b)
    ensures AtStart(FbRun(gap, fb, b.parts + [b.quiet]).fb)
    ensures FbRun(gap, fb, b.parts + [b.quiet]).frames == [MakeFrame(Cap(b.channels))]
  {
    assert (b.parts + [b.quiet])[..|b.parts|] == b.parts;
    var at := FbRun(gap, fb, b.parts).fb;
    hide OnIdle, AtStart, Hunting, Synced, Windows, MakeFrame, Cap, Aligned;
    if Hunting(fb, []) {
      PartsHunting(gap, fb, b.parts);
      QuietHunting(gap, at, b.channels, b.quiet.now);
    } else {
      OnePacketAligned(b.channels);
      PartsInSync(gap, fb, b.parts);
      QuietInSync(gap, at, b.channels, b.quiet.now);
    }
  }

  lemma OnePacketAligned(channels: seq<byte>)
    requires |channels| <= MAX_CHANNELS
    ensures Aligned([START_CODE_DMX] + channels, 0)
  {
  }

  lemma PacketWindow(channels: seq<byte>)
    requires |channels| <= MAX_CHANNELS
    ensures Windows([START_CODE_DMX] + channels) == if |channels| == MAX_CHANNELS then [MakeFrame(channels)] else []
    ensures Phase(|channels| + 1) == if |channels| == MAX_CHANNELS then 0 else |channels| + 1
  {
    WindowsAt([START_CODE_DMX] + channels, 0);
    if |channels| == MAX_CHANNELS {
      assert ([START_CODE_DMX] + channels)[1..513] == channels;
    }
  }

  /** From any state at a boundary, packets of any size, each followed by a gap, are emitted exactly. */
  lemma {:induction false} GapFramed(gap: int, fb: Fb, bs: seq<Burst>)
    requires Ready(fb) && forall i :: 0 <= i < |bs| ==> WellTimed(gap, bs[i])
    ensures FbRun(gap, fb, Reads(bs)).frames == FramesOf(bs)
    ensures Ready(FbRun(gap, fb, Reads(bs)).fb)
  {
    hide Ready, WellTimed;
    if bs != [] {
      var init, b := bs[..|bs| - 1], bs[|bs| - 1];
      GapFramed(gap, fb, init);
      FbRunAppend(gap, fb, Reads(init), b.parts + [b.quiet]);
      BurstFramed(gap, FbRun(gap, fb, Reads(init)).fb, b);
      AtStartReady(FbRun(gap, fb, Reads(bs)).fb);
    }
  }

  lemma AtStartReady(fb: Fb)
    ensures AtStart(fb) ==> Ready(fb)
  {
  }

  // ----- resynchronising -----

  /**
   After any run, an idle read past the gap leaves the receiver at a boundary if
   and only if it was neither right after a lone start code nor hunting with one
   byte buffered.
   */
  lemma GapResyncsIff(gap: int, t0: int, rds: seq<Read>, quiet: Read)
    requires quiet.data == [] && quiet.now - FbRun(gap, Begin(t0), rds).fb.lastData >= gap
    ensures var fb := FbRun(gap, Begin(t0), rds).fb;
            Ready(FbRun(gap, Begin(t0), rds + [quiet]).fb) <==>
              !(fb.state == ReadData && fb.frame.length == 0) && !(fb.state == WaitBreak && |fb.syncBuf| == 1)
  {
    TidyRun(gap, t0, rds);
    assert (rds + [quiet])[..|rds|] == rds;
    hide FbRun;
    var fb := FbRun(gap, Begin(t0), rds).fb;
    assert FbRun(gap, Begin(t0), rds + [quiet]).fb == OnIdle(gap, fb, quiet.now).fb;
  }

  /** So after any run and a gap that resynchronises, packets each followed by a gap are emitted exactly. */
  lemma ResyncedFraming(gap: int, t0: int, rds: seq<Read>, quiet: Read, bs: seq<Burst>)
    requires quiet.data == [] && quiet.now - FbRun(gap, Begin(t0), rds).fb.lastData >= gap
    requires var fb := FbRun(gap, Begin(t0), rds).fb;
             !(fb.state == ReadData && fb.frame.length == 0) && !(fb.state == WaitBreak && |fb.syncBuf| == 1)
    requires forall i :: 0 <= i < |bs| ==> WellTimed(gap, bs[i])
    ensures FbRun(gap, Begin(t0), rds + [quiet] + Reads(bs)).frames
         == FbRun(gap, Begin(t0), rds + [quiet]).frames + FramesOf(bs)
  {
    GapResyncsIff(gap, t0, rds, quiet);
    GapFramed(gap, FbRun(gap, Begin(t0), rds + [quiet]).fb, bs);
    FbRunAppend(gap, Begin(t0), rds + [quiet], Reads(bs));
  }
}
