/**
 From raw tty bytes to emitted frames.
 */
module EndToEnd {
  import opened Dmx
  import opened BreakFraming
  import opened InferredFraming
  import Channels
  import DF = DriverFraming
  import FB = FallbackFraming
  import Parmrk
  import PV = Provenance
  import RC = Receiver
  import SP = SerialPort

  /** Every frame emitted by a break-detecting receiver whose port has read `raws` and been drained. */
  ghost function Emitted(p: SP.Platform, infer: bool, raws: seq<seq<byte>>): seq<Frame> {
    Frames(Start(infer), SP.AfterReads(p, raws).items).frames
  }

  /**
   Data, breaks and line errors, escaped by the driver and split into reads in
   any way: the frames are exactly those delimited by breaks.
   */
  lemma DriverEndToEnd(p: SP.Platform, raws: seq<seq<byte>>, line: seq<Parmrk.LineEvent>)
    requires !p.breakFromShortRead && Concat(raws) == Parmrk.EscapeAll(line)
    ensures Emitted(p, false, raws) == DF.DriverFrames(Parmrk.ForgetAll(line))
  {
    SP.SplitInvariance(p, raws);
    Parmrk.RoundTrip(line);
    DF.DriverExact(Parmrk.ForgetAll(line));
  }

  // ----- inferred breaks -----

  function Bytes(data: seq<byte>): seq<Parmrk.LineEvent> {
    if data == [] then [] else Bytes(data[..|data| - 1]) + [Parmrk.Byte(data[|data| - 1])]
  }

  lemma {:induction false} BytesItems(data: seq<byte>)
    ensures Parmrk.ForgetAll(Bytes(data)) == DataItems(data)
  {
    if data != [] {
      var init, b := data[..|data| - 1], data[|data| - 1];
      BytesItems(init);
      assert Bytes(data)[..|Bytes(data)| - 1] == Bytes(init);
      assert DataItems(data) == DataItems(init) + [Data(b)];
    }
  }

  ghost predicate NoError(items: seq<Item>) {
    forall i :: 0 <= i < |items| ==> items[i] != Error
  }

  lemma NoErrorAppend(a: seq<Item>, b: seq<Item>)
    ensures NoError(a + b) <==> NoError(a) && NoError(b)
  {
    assert forall i :: 0 <= i < |a| ==> (a + b)[i] == a[i];
    assert forall i :: 0 <= i < |b| ==> (a + b)[|a| + i] == b[i];
  }

  lemma RunEmpty(s: Parmrk.State)
    ensures Parmrk.Run(s, Concat([])) == Parmrk.Decoded(s, [])
  {
  }

  lemma ConcatLast(parts: seq<seq<byte>>)
    requires parts != []
    ensures Concat(parts) == Concat(parts[..|parts| - 1]) + parts[|parts| - 1]
  {
  }

  /** Reads extend the stream: what they add is their decoding with nothing but breaks mixed in. */
  lemma {:induction false} ReadsExtend(p: SP.Platform, raws: seq<seq<byte>>, more: seq<seq<byte>>) returns (added: seq<Item>)
    ensures SP.AfterReads(p, raws + more).items == SP.AfterReads(p, raws).items + added
    ensures var d := Parmrk.Run(SP.AfterReads(p, raws).state, Concat(more));
            && SP.AfterReads(p, raws + more).state == d.state
            && DataOf(added) == DataOf(d.items)
            && (NoError(d.items) ==> NoError(added))
  {
    hide SP.Finish, SP.AfterReads, Parmrk.Run, DataOf, Concat, NoError;
    if more == [] {
      added := [];
      assert raws + more == raws;
      RunEmpty(SP.AfterReads(p, raws).state);
    } else {
      var m0, raw := more[..|more| - 1], more[|more| - 1];
      ConcatLast(more);
      added := ReadsExtend(p, raws, m0);
      assert raws + more == (raws + m0) + [raw];
      SP.AfterReadsSnoc(p, raws + m0, raw);
      var s0 := SP.AfterReads(p, raws).state;
      Parmrk.RunAppend(s0, Concat(m0), raw);
      var s := SP.AfterReads(p, raws + m0);
      var timed := s.(pending := s.pending || (p.breakFromShortRead && |raw| < p.usbPayloadSize));
      var latest := FinishAdds(timed, raw);
      NoErrorAppend(added, latest);
      NoErrorAppend(Parmrk.Run(s0, Concat(m0)).items, Parmrk.Run(s.state, raw).items);
      DataOfAppend(added, latest);
      DataOfAppend(Parmrk.Run(s0, Concat(m0)).items, Parmrk.Run(s.state, raw).items);
      assert SP.AfterReads(p, raws).items + (added + latest) == (SP.AfterReads(p, raws).items + added) + latest;
      added := added + latest;
    }
  }

  lemma FinishAdds(s: SP.Stream, raw: seq<byte>) returns (added: seq<Item>)
    ensures SP.Finish(s, raw).items == s.items + added
    ensures DataOf(added) == DataOf(Parmrk.Run(s.state, raw).items)
    ensures SP.Finish(s, raw).state == Parmrk.Run(s.state, raw).state
    ensures NoError(Parmrk.Run(s.state, raw).items) ==> NoError(added)
  {
    added := SP.Finish(s.(items := []), raw).items;
    SP.FinishData(s.(items := []), raw);
    assert [] + DataOf(Parmrk.Run(s.state, raw).items) == DataOf(Parmrk.Run(s.state, raw).items);
    var d := Parmrk.Run(s.state, raw).items;
    assert [] + d == d;
  }

  /**
   The inferring receiver, locked and at a packet boundary, fed escaped packets
   in any reads whatever: those packets are emitted exactly, so neither read sizes
   nor the breaks inferred from them make a difference.
   */
  lemma InferredEndToEnd(p: SP.Platform, raws: seq<seq<byte>>, more: seq<seq<byte>>,
                         ps: seq<Packet>, pk: Packet, k: nat)
    requires SP.AfterReads(p, raws).state == Parmrk.Idle
    requires AtBoundary(Frames(Start(true), SP.AfterReads(p, raws).items).rx, |pk.channels|)
    requires Sized(ps, |pk.channels|) && k <= |Wire(pk)|
    requires Concat(more) == Parmrk.EscapeAll(Bytes(WireAll(ps) + Wire(pk)[..k]))
    ensures Emitted(p, true, raws + more)
         == Emitted(p, true, raws) + (MadeFrom(ps) + (if k <= |pk.channels| then [] else [MakeFrame(pk.channels)]))
  {
    hide Frames, SP.AfterReads, Parmrk.Run, DataOf, Concat, AtBoundary, Sized, WireAll, MadeFrom, Bytes;
    var data := WireAll(ps) + Wire(pk)[..k];
    var before := SP.AfterReads(p, raws).items;
    var added := ReadsExtend(p, raws, more);
    Parmrk.RoundTrip(Bytes(data));
    BytesItems(data);
    DataOfDataItems(data);
    assert NoError(DataItems(data));
    FramesAppend(Start(true), before, added);
    InferredExact(Frames(Start(true), before).rx, added, ps, pk, k);
  }

  // ----- sessions -----

  /**
   Receive from a port on an arbitrary script of reads until it fails: the
   frames are those of the bytes that the script holds up to its first failure.
   */
  method Session(script: seq<SP.ReadResult>, platform: SP.Platform, pollable: bool, infer: bool)
    returns (output: Channels.Chan<Frame>)
    ensures var raws := SP.Ahead(script, pollable);
            var data := DataOf(SP.AfterReads(platform, raws).items);
            && output.Valid() && output.offered == Emitted(platform, infer, raws)
            && PV.Sourced(data, output.offered, |data|)
            && (!platform.breakFromShortRead && !infer ==>
                  forall line :: Concat(raws) == Parmrk.EscapeAll(line) ==>
                    output.offered == DF.DriverFrames(Parmrk.ForgetAll(line)))
  {
    hide Frames, SP.AfterReads, SP.Look, DataOf, PV.Sourced, PV.Traced;
    hide DF.DriverFrames, Parmrk.EscapeAll, Parmrk.ForgetAll, Concat;
    var tty := new SP.Tty(script);
    var port := new SP.SerialPort(tty, platform, pollable);
    var receiver := new RC.Receiver(port, infer, 0);
    output := receiver.output;
    ghost var items := receiver.RunWithBreakDetect();
    ghost var raws := SP.Ahead(script, pollable);
    assert port.results == [] + SP.Due(script, pollable) == SP.Due(script, pollable) && port.Raws() == raws;
    assert [] + items == items && SP.AfterReads(platform, raws).items == items;
    assert output.offered == [] + Frames(Start(infer), items).frames == Emitted(platform, infer, raws);
    PV.BreakModeProvenance(infer, items);
    forall line | !platform.breakFromShortRead && !infer && Concat(raws) == Parmrk.EscapeAll(line)
      ensures output.offered == DF.DriverFrames(Parmrk.ForgetAll(line))
    {
      DriverEndToEnd(platform, raws, line);
    }
  }

  /** The same without break detection, under any clock: every frame is a window of the decoded data. */
  method FallbackSession(script: seq<SP.ReadResult>, platform: SP.Platform, pollable: bool, gapThreshold: int,
                         clock: nat -> int)
    returns (output: Channels.Chan<Frame>, ghost rds: seq<FB.Read>)
    ensures RC.Stamped(rds, clock)
    ensures FB.Received(rds) == DataOf(Parmrk.Run(Parmrk.Idle, Concat(SP.Ahead(script, pollable))).items)
    ensures FB.ReadItems(rds) == SP.AfterReads(platform, SP.Ahead(script, pollable)).items
    ensures FB.QuietsOf(0, rds) == SP.QuietsAt(platform, SP.Due(script, pollable))
    ensures var gap := if gapThreshold <= 0 then RC.DEFAULT_GAP_THRESHOLD else gapThreshold;
            && output.Valid() && output.offered == FB.FbRun(gap, FB.Begin(clock(0)), rds).frames
            && PV.Sourced(FB.Received(rds), output.offered, |FB.Received(rds)|)
  {
    hide FB.FbRun, SP.AfterReads, SP.Look, DataOf, PV.Sourced, FB.FbTraced, FB.ReadItems, FB.QuietsOf, FB.Received;
    hide Parmrk.Run, Concat;
    var tty := new SP.Tty(script);
    var port := new SP.SerialPort(tty, platform, pollable);
    var receiver := new RC.Receiver(port, false, gapThreshold);
    output := receiver.output;
    rds := receiver.RunFallback(clock);
    ghost var raws := SP.Ahead(script, pollable);
    assert port.results == [] + SP.Due(script, pollable) == SP.Due(script, pollable) && port.Raws() == raws;
    assert [] + FB.ReadItems(rds) == FB.ReadItems(rds) == SP.AfterReads(platform, raws).items;
    assert FB.QuietsOf(0, rds) == [] + FB.QuietsOf(0, rds);
    assert [] + FB.FbRun(receiver.Gap(), FB.Begin(clock(0)), rds).frames == output.offered;
    FB.ReadItemsData(rds);
    SP.InferenceKeepsData(platform, raws);
    FB.FallbackSafety(receiver.Gap(), clock(0), rds);
  }
}
