/**
 Short packets without break detection, from tty reads and idle lines to frames.
 */
module IdleEndToEnd {
  import opened Dmx
  import opened BreakFraming
  import opened FallbackFraming
  import opened FallbackGaps
  import opened EndToEnd
  import Parmrk
  import SP = SerialPort

  // ----- what the operating system reports -----

  /** The reads of one packet, and the idle line after it. */
  datatype Turn = Turn(raws: seq<SP.RawRead>, idle: SP.ReadResult)

  function ResultsOf(raws: seq<SP.RawRead>): seq<SP.ReadResult> {
    seq(|raws|, i requires 0 <= i < |raws| => SP.Bytes(raws[i]))
  }

  function AllResults(turns: seq<Turn>): seq<SP.ReadResult> {
    if turns == [] then []
    else AllResults(turns[..|turns| - 1]) + (ResultsOf(turns[|turns| - 1].raws) + [turns[|turns| - 1].idle])
  }

  /** A packet on the wire: the start code and its channels. */
  function PacketBytes(channels: seq<byte>): seq<byte> {
    [START_CODE_DMX] + channels
  }

  /** The packet's bytes, escaped and read in any pieces, then an idle line. */
  ghost predicate Carries(t: Turn, channels: seq<byte>) {
    !t.idle.Bytes? && Concat(t.raws) == Parmrk.EscapeAll(Bytes(PacketBytes(channels)))
  }

  function AllBytes(packets: seq<seq<byte>>): seq<byte> {
    if packets == [] then [] else AllBytes(packets[..|packets| - 1]) + PacketBytes(packets[|packets| - 1])
  }

  /** Where the packets end. */
  function Ends(packets: seq<seq<byte>>): seq<nat> {
    if packets == [] then [] else Ends(packets[..|packets| - 1]) + [|AllBytes(packets)|]
  }

  lemma {:induction false} ConcatAppend<T>(a: seq<seq<T>>, b: seq<seq<T>>)
    ensures Concat(a + b) == Concat(a) + Concat(b)
  {
    if b == [] {
      assert a + b == a;
    } else {
      assert (a + b)[..|a + b| - 1] == a + b[..|b| - 1];
      ConcatAppend(a, b[..|b| - 1]);
    }
  }

  lemma {:induction false} ReadsKeepQuiets(p: SP.Platform, results: seq<SP.ReadResult>, raws: seq<SP.RawRead>)
    ensures SP.RawsOf(results + ResultsOf(raws)) == SP.RawsOf(results) + raws
    ensures SP.QuietsAt(p, results + ResultsOf(raws)) == SP.QuietsAt(p, results)
  {
    hide SP.RawsOf, SP.QuietsAt;
    if raws == [] {
      assert results + ResultsOf(raws) == results;
    } else {
      var init, raw := raws[..|raws| - 1], raws[|raws| - 1];
      ReadsKeepQuiets(p, results, init);
      assert results + ResultsOf(raws) == (results + ResultsOf(init)) + [SP.Bytes(raw)];
      SP.ReadsSnoc(p, results + ResultsOf(init), SP.Bytes(raw));
    }
  }

  /** Where the driver reports breaks, the turns stand for the packets' bytes, with an idle line at every packet's end. */
  lemma {:induction false} TurnsHeard(p: SP.Platform, turns: seq<Turn>, packets: seq<seq<byte>>)
    requires !p.breakFromShortRead && |turns| == |packets|
    requires forall i :: 0 <= i < |turns| ==> Carries(turns[i], packets[i])
    ensures Parmrk.Run(Parmrk.Idle, Concat(SP.RawsOf(AllResults(turns))))
         == Parmrk.Decoded(Parmrk.Idle, DataItems(AllBytes(packets)))
    ensures SP.QuietsAt(p, AllResults(turns)) == Ends(packets)
  {
    hide Parmrk.Run, Concat, SP.RawsOf, SP.QuietsAt, Carries;
    if turns == [] {
      NothingHeard(p);
    } else {
      var k := |turns| - 1;
      var before, raws := AllResults(turns[..k]), turns[k].raws;
      TurnsHeard(p, turns[..k], packets[..k]);
      OneTurn(p, before, turns[k], AllBytes(packets[..k]), packets[k]);
      assert AllResults(turns) == before + (ResultsOf(raws) + [turns[k].idle]);
    }
  }

  lemma NothingHeard(p: SP.Platform)
    ensures Parmrk.Run(Parmrk.Idle, Concat(SP.RawsOf(AllResults([])))) == Parmrk.Decoded(Parmrk.Idle, DataItems([]))
    ensures SP.QuietsAt(p, AllResults([])) == []
  {
  }

  lemma OneTurn(p: SP.Platform, before: seq<SP.ReadResult>, t: Turn, data: seq<byte>, channels: seq<byte>)
    requires !p.breakFromShortRead && Carries(t, channels)
    requires Parmrk.Run(Parmrk.Idle, Concat(SP.RawsOf(before))) == Parmrk.Decoded(Parmrk.Idle, DataItems(data))
    ensures var after := before + (ResultsOf(t.raws) + [t.idle]);
            && Parmrk.Run(Parmrk.Idle, Concat(SP.RawsOf(after)))
            == Parmrk.Decoded(Parmrk.Idle, DataItems(data + PacketBytes(channels)))
            && SP.QuietsAt(p, after) == SP.QuietsAt(p, before) + [|data + PacketBytes(channels)|]
  {
    hide Parmrk.Run, Concat, SP.RawsOf, SP.QuietsAt, SP.AfterReads, PacketBytes, Bytes, Parmrk.EscapeAll, DataItems;
    var heard := before + ResultsOf(t.raws);
    ReadsKeepQuiets(p, before, t.raws);
    assert before + (ResultsOf(t.raws) + [t.idle]) == heard + [t.idle];
    SP.ReadsSnoc(p, heard, t.idle);
    ConcatAppend(SP.RawsOf(before), t.raws);
    Parmrk.RunAppend(Parmrk.Idle, Concat(SP.RawsOf(before)), Concat(t.raws));
    Parmrk.RoundTrip(Bytes(PacketBytes(channels)));
    BytesItems(PacketBytes(channels));
    DataItemsAppend(data, PacketBytes(channels));
    SP.SplitInvariance(p, SP.RawsOf(heard));
    assert SP.RawsOf(heard) + [] == SP.RawsOf(heard);
  }

  // ----- what the receiver reads -----

  /** The reads cut after every one that brought nothing. */
  datatype Cutting = Cutting(bs: seq<Burst>, open: seq<Read>)

  function Cut(rds: seq<Read>): Cutting {
    if rds == [] then Cutting([], [])
    else
      var c, rd := Cut(rds[..|rds| - 1]), rds[|rds| - 1];
      if rd.data == [] then Cutting(c.bs + [Burst(AfterStart(Received(c.open)), c.open, rd)], [])
      else Cutting(c.bs, c.open + [rd])
  }

  function AfterStart(data: seq<byte>): seq<byte> {
    if data == [] then [] else data[1..]
  }

  /** No read ended in an event. */
  ghost predicate Plain(rds: seq<Read>) {
    forall k :: 0 <= k < |rds| ==> rds[k].marker == MarkerNone
  }

  /** Every read that brought nothing follows one that did, after the gap. */
  ghost predicate QuietLongEnough(gap: int, rds: seq<Read>) {
    forall i :: 0 <= i < |rds| && rds[i].data == [] ==>
      0 < i && rds[i].now - rds[i - 1].now >= gap
  }

  lemma {:induction false} CutIsAll(rds: seq<Read>)
    ensures Reads(Cut(rds).bs) + Cut(rds).open == rds
    ensures forall k :: 0 <= k < |Cut(rds).open| ==> Cut(rds).open[k].data != []
    ensures Cut(rds).open != [] ==> rds != [] && Cut(rds).open[|Cut(rds).open| - 1] == rds[|rds| - 1]
    ensures Cut(rds).open == [] && rds != [] ==> rds[|rds| - 1].data == []
  {
    if rds != [] {
      var init, rd := rds[..|rds| - 1], rds[|rds| - 1];
      var c := Cut(init);
      CutIsAll(init);
      assert rds == init + [rd];
      if rd.data == [] {
        var b := Burst(AfterStart(Received(c.open)), c.open, rd);
        assert (c.bs + [b])[..|c.bs|] == c.bs;
        assert Reads(c.bs + [b]) == Reads(c.bs) + (c.open + [rd]);
      }
    }
  }

  lemma {:induction false} ItemsOfPlain(rds: seq<Read>)
    requires Plain(rds)
    ensures ReadItems(rds) == DataItems(Received(rds))
  {
    if rds != [] {
      ItemsOfPlain(rds[..|rds| - 1]);
    }
  }

  lemma {:induction false} PlainIfData(rds: seq<Read>)
    requires forall i :: 0 <= i < |ReadItems(rds)| ==> ReadItems(rds)[i].Data?
    ensures Plain(rds)
  {
    if rds != [] {
      var init, rd := rds[..|rds| - 1], rds[|rds| - 1];
      var more := DataItems(rd.data) + MarkerItems(rd.marker);
      assert ReadItems(rds) == ReadItems(init) + more;
      assert forall i :: 0 <= i < |ReadItems(init)| ==> ReadItems(rds)[i] == ReadItems(init)[i];
      PlainIfData(init);
      if rd.marker != MarkerNone {
        assert !ReadItems(rds)[|ReadItems(rds)| - 1].Data?;
      }
    }
  }

  lemma {:induction false} QuietsWithin(rds: seq<Read>)
    ensures forall k :: 0 <= k < |QuietsOf(0, rds)| ==> QuietsOf(0, rds)[k] <= |ReadItems(rds)|
  {
    if rds != [] {
      QuietsWithin(rds[..|rds| - 1]);
    }
  }

  lemma EndsLast(packets: seq<seq<byte>>)
    requires packets != []
    ensures Ends(packets) == Ends(packets[..|packets| - 1]) + [|AllBytes(packets)|]
    ensures AllBytes(packets) == AllBytes(packets[..|packets| - 1]) + PacketBytes(packets[|packets| - 1])
  {
  }

  lemma SplitTail(a: seq<byte>, d: seq<byte>, x: seq<byte>, rest: seq<byte>)
    requires a + d == x + rest && |x| <= |a|
    ensures |a| - |x| <= |rest| && a == x + rest[..|a| - |x|] && d == rest[|a| - |x|..]
  {
    assert |a + d| == |x + rest|;
    assert a == (x + rest)[..|a|] && d == (x + rest)[|a|..];
  }

  /** The cut has a burst for every packet, each well timed, and the rest is open. */
  ghost predicate Matches(gap: int, c: Cutting, packets: seq<seq<byte>>, rest: seq<byte>) {
    && |c.bs| == |packets| && Received(c.open) == rest
    && forall j :: 0 <= j < |packets| ==> c.bs[j].channels == packets[j] && WellTimed(gap, c.bs[j])
  }

  lemma DataMatches(gap: int, init: seq<Read>, rd: Read, packets: seq<seq<byte>>, rest: seq<byte>)
    requires Matches(gap, Cut(init), packets, rest) && rd.data != []
    ensures Matches(gap, Cut(init + [rd]), packets, rest + rd.data)
  {
    hide WellTimed;
    assert (init + [rd])[..|init|] == init;
    var open := Cut(init).open;
    assert (open + [rd])[..|open|] == open;
  }

  lemma QuietMatches(gap: int, init: seq<Read>, rd: Read, packets: seq<seq<byte>>, channels: seq<byte>)
    requires Matches(gap, Cut(init), packets, PacketBytes(channels)) && 1 <= |channels| <= MAX_CHANNELS
    requires Plain(init) && QuietLongEnough(gap, init + [rd]) && rd.data == []
    ensures Matches(gap, Cut(init + [rd]), packets + [channels], [])
  {
    var more, c := init + [rd], Cut(init);
    assert more[..|init|] == init;
    CutIsAll(init);
    OpenIsPlain(init);
    var b := Burst(AfterStart(Received(c.open)), c.open, rd);
    assert more[|init|].data == [] && more[|init| - 1] == init[|init| - 1];
    assert b.channels == channels && WellTimed(gap, b);
    hide WellTimed;
    assert Cut(more) == Cutting(c.bs + [b], []);
  }

  lemma {:induction false} OpenIsPlain(rds: seq<Read>)
    requires Plain(rds)
    ensures forall k :: 0 <= k < |Cut(rds).open| ==> Cut(rds).open[k].marker == MarkerNone
  {
    if rds != [] {
      OpenIsPlain(rds[..|rds| - 1]);
    }
  }

  /** Every packet has 1 to 512 channels. */
  ghost predicate Full(packets: seq<seq<byte>>) {
    forall j :: 0 <= j < |packets| ==> 1 <= |packets[j]| <= MAX_CHANNELS
  }

  lemma Shorter(gap: int, rds: seq<Read>)
    requires Plain(rds) && QuietLongEnough(gap, rds) && rds != []
    ensures Plain(rds[..|rds| - 1]) && QuietLongEnough(gap, rds[..|rds| - 1])
  {
  }

  lemma NothingQuiet(packets: seq<seq<byte>>, rest: seq<byte>)
    requires Received([]) == AllBytes(packets) + rest && QuietsOf(0, []) == Ends(packets)
    ensures packets == [] && rest == []
  {
  }

  lemma Unsnoc<T>(a: seq<T>, x: T, b: seq<T>, y: T)
    requires a + [x] == b + [y]
    ensures a == b && x == y
  {
    assert |a + [x]| == |b + [y]|;
    assert a == (a + [x])[..|a|] && b == (b + [y])[..|b|];
    assert (a + [x])[|a|] == x && (b + [y])[|b|] == y;
  }

  /** A read that brought nothing comes at the end of the last packet. */
  lemma QuietStep(rds: seq<Read>, packets: seq<seq<byte>>, rest: seq<byte>)
    requires rds != [] && rds[|rds| - 1].data == [] && Plain(rds) && Full(packets)
    requires Received(rds) == AllBytes(packets) + rest && QuietsOf(0, rds) == Ends(packets)
    ensures packets != [] && rest == []
    ensures var before, channels := packets[..|packets| - 1], packets[|packets| - 1];
            && Full(before) && 1 <= |channels| <= MAX_CHANNELS
            && Received(rds[..|rds| - 1]) == AllBytes(before) + PacketBytes(channels)
            && QuietsOf(0, rds[..|rds| - 1]) == Ends(before)
  {
    var init := rds[..|rds| - 1];
    ItemsOfPlain(init);
    hide ReadItems, AllBytes, PacketBytes;
    assert packets != [];
    EndsLast(packets);
    Unsnoc(QuietsOf(0, init), |Received(init)|, Ends(packets[..|packets| - 1]), |AllBytes(packets)|);
    assert Received(rds) == Received(init);
    assert |AllBytes(packets) + rest| == |AllBytes(packets)|;
    assert AllBytes(packets) + [] == AllBytes(packets);
  }

  /** A read that brought data does not reach back behind the last packet's end. */
  lemma DataStep(rds: seq<Read>, packets: seq<seq<byte>>, rest: seq<byte>) returns (k: nat)
    requires rds != [] && rds[|rds| - 1].data != [] && Plain(rds)
    requires Received(rds) == AllBytes(packets) + rest && QuietsOf(0, rds) == Ends(packets)
    ensures k <= |rest| && rds[|rds| - 1].data == rest[k..]
    ensures Received(rds[..|rds| - 1]) == AllBytes(packets) + rest[..k]
    ensures QuietsOf(0, rds[..|rds| - 1]) == Ends(packets)
  {
    var init := rds[..|rds| - 1];
    ItemsOfPlain(init);
    QuietsWithin(init);
    hide ReadItems, PacketBytes;
    assert QuietsOf(0, rds) == QuietsOf(0, init);
    if packets != [] {
      EndsLast(packets);
      var last := |Ends(packets)| - 1;
      assert QuietsOf(0, init)[last] == |AllBytes(packets)|;
    }
    SplitTail(Received(init), rds[|rds| - 1].data, AllBytes(packets), rest);
    k := |Received(init)| - |AllBytes(packets)|;
  }

  /** The bursts are the packets, when the line was quiet exactly at packet ends. */
  lemma {:induction false} CutMatches(gap: int, rds: seq<Read>, packets: seq<seq<byte>>, rest: seq<byte>)
    requires Plain(rds) && QuietLongEnough(gap, rds) && Full(packets)
    requires Received(rds) == AllBytes(packets) + rest && QuietsOf(0, rds) == Ends(packets)
    ensures Matches(gap, Cut(rds), packets, rest)
  {
    hide Matches, PacketBytes, Ends, QuietsOf, AllBytes, Cut, Received, QuietLongEnough, Plain, Full;
    if rds == [] {
      NothingQuiet(packets, rest);
      NothingMatches(gap);
    } else {
      var init, rd := rds[..|rds| - 1], rds[|rds| - 1];
      Shorter(gap, rds);
      if rd.data == [] {
        QuietStep(rds, packets, rest);
        var before, channels := packets[..|packets| - 1], packets[|packets| - 1];
        assert packets == before + [channels] && rds == init + [rd];
        CutMatches(gap, init, before, PacketBytes(channels));
        QuietMatches(gap, init, rd, before, channels);
      } else {
        var k := DataStep(rds, packets, rest);
        CutMatches(gap, init, packets, rest[..k]);
        DataMatches(gap, init, rd, packets, rest[..k]);
        assert rest[..k] + rest[k..] == rest && rds == init + [rd];
      }
    }
  }

  lemma NothingMatches(gap: int)
    ensures Matches(gap, Cut([]), [], [])
  {
  }

  /** The frames of the packets, zero past their channels. */
  function FramesFor(packets: seq<seq<byte>>): seq<Frame> {
    if packets == [] then [] else FramesFor(packets[..|packets| - 1]) + [MakeFrame(Cap(packets[|packets| - 1]))]
  }

  lemma {:induction false} FramesMatch(bs: seq<Burst>, packets: seq<seq<byte>>)
    requires |bs| == |packets| && forall j :: 0 <= j < |packets| ==> bs[j].channels == packets[j]
    ensures FramesOf(bs) == FramesFor(packets)
  {
    if bs != [] {
      FramesMatch(bs[..|bs| - 1], packets[..|bs| - 1]);
    }
  }

  /** What is read of the turns: the packets' bytes, no event, and silence exactly at packet ends. */
  lemma TurnsRead(p: SP.Platform, rds: seq<Read>, turns: seq<Turn>, packets: seq<seq<byte>>)
    requires !p.breakFromShortRead && |turns| == |packets|
    requires forall i :: 0 <= i < |turns| ==> Carries(turns[i], packets[i])
    requires ReadItems(rds) == SP.AfterReads(p, SP.RawsOf(AllResults(turns))).items
    requires QuietsOf(0, rds) == SP.QuietsAt(p, AllResults(turns))
    ensures Plain(rds)
    ensures Received(rds) == AllBytes(packets) && QuietsOf(0, rds) == Ends(packets)
  {
    hide Parmrk.Run, Concat, SP.RawsOf, SP.AfterReads, SP.QuietsAt, Carries, AllResults, AllBytes, Ends, QuietsOf, ReadItems;
    TurnsHeard(p, turns, packets);
    SP.SplitInvariance(p, SP.RawsOf(AllResults(turns)));
    PlainIfData(rds);
    ReadItemsData(rds);
    DataOfDataItems(AllBytes(packets));
  }

  /**
   Packets of 1 to 512 channels, escaped and read in any pieces, the line idle after
   each for longer than the gap: every packet is emitted, exactly and in order, for
   any reads `rds` that the receiver makes of them.
   */
  lemma IdleFramed(p: SP.Platform, gap: int, t0: int, rds: seq<Read>, turns: seq<Turn>, packets: seq<seq<byte>>)
    requires !p.breakFromShortRead && |turns| == |packets|
    requires Full(packets) && forall i :: 0 <= i < |turns| ==> Carries(turns[i], packets[i])
    requires ReadItems(rds) == SP.AfterReads(p, SP.RawsOf(AllResults(turns))).items
    requires QuietsOf(0, rds) == SP.QuietsAt(p, AllResults(turns))
    requires QuietLongEnough(gap, rds)
    ensures FbRun(gap, Begin(t0), rds).frames == FramesFor(packets)
  {
    hide FbRun, WellTimed, Carries, QuietLongEnough, Ends, QuietsOf, AllBytes, Cut, AllResults, Received, ReadItems;
    hide SP.AfterReads, SP.RawsOf, SP.QuietsAt;
    TurnsRead(p, rds, turns, packets);
    assert AllBytes(packets) + [] == AllBytes(packets);
    CutMatches(gap, rds, packets, []);
    CutIsAll(rds);
    var c := Cut(rds);
    NothingOpen(c.open);
    assert Reads(c.bs) == Reads(c.bs) + [] == rds;
    FramesMatch(c.bs, packets);
    BeginIsReady(t0);
    GapFramed(gap, Begin(t0), c.bs);
  }

  lemma NothingOpen(open: seq<Read>)
    requires Received(open) == [] && forall k :: 0 <= k < |open| ==> open[k].data != []
    ensures open == []
  {
  }

  lemma BeginIsReady(t0: int)
    ensures Ready(Begin(t0))
  {
  }
}
