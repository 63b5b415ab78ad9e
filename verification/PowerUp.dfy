/**
 Inferred breaks from power-up: reads that are short exactly at packet ends.
 */
module PowerUp {
  import opened Dmx
  import opened BreakVote
  import opened BreakFraming
  import opened InferredFraming
  import opened EndToEnd
  import Parmrk
  import SP = SerialPort

  /** The reads of one packet: full payloads, then one that is short. */
  ghost predicate ReadsOf(p: SP.Platform, raws: seq<seq<byte>>, pk: Packet) {
    && raws != [] && Concat(raws) == Parmrk.EscapeAll(Bytes(Wire(pk)))
    && forall k :: 0 <= k < |raws| ==> raws[k] != [] && (|raws[k]| < p.usbPayloadSize <==> k == |raws| - 1)
  }

  /** Escaped data holds no event, wherever it is cut. */
  lemma {:induction false} NoEventWithin(data: seq<byte>, k: nat)
    requires k <= |Parmrk.EscapeAll(Bytes(data))|
    ensures Parmrk.Run(Parmrk.Idle, Parmrk.EscapeAll(Bytes(data))[..k]).state != Parmrk.SawFF00
  {
    hide Parmrk.Run, Parmrk.Escape;
    var wire := Parmrk.EscapeAll(Bytes(data));
    if data != [] {
      var init, b := data[..|data| - 1], data[|data| - 1];
      assert Bytes(data)[..|Bytes(data)| - 1] == Bytes(init);
      var w0, w1 := Parmrk.EscapeAll(Bytes(init)), Parmrk.Escape(Parmrk.Byte(b));
      assert wire == w0 + w1;
      if k <= |w0| {
        NoEventWithin(init, k);
        assert wire[..k] == w0[..k];
      } else {
        assert wire[..k] == w0 + w1[..k - |w0|];
        Parmrk.RoundTrip(Bytes(init));
        Parmrk.RunAppend(Parmrk.Idle, w0, w1[..k - |w0|]);
        NoEventInByte(b, k - |w0|);
      }
    } else {
      RunEmpty(Parmrk.Idle);
      assert wire[..k] == [];
      assert Concat<byte>([]) == [];
    }
  }

  lemma NoEventInByte(b: byte, k: nat)
    requires 1 <= k <= |Parmrk.Escape(Parmrk.Byte(b))|
    ensures Parmrk.Run(Parmrk.Idle, Parmrk.Escape(Parmrk.Byte(b))[..k]).state != Parmrk.SawFF00
  {
    hide Parmrk.Run;
    var w := Parmrk.Escape(Parmrk.Byte(b));
    if k == |w| {
      assert w[..k] == w;
      Parmrk.RunEscape(Parmrk.Byte(b));
    } else {
      assert w[..k] == [w[0]];
      Parmrk.RunOne(Parmrk.Idle, w[0]);
    }
  }

  /** Full payloads stand for nothing but their data. */
  lemma {:induction false} FullPayloads(p: SP.Platform, before: seq<seq<byte>>, raws: seq<seq<byte>>)
    requires SP.AfterReads(p, before).state == Parmrk.Idle && !SP.AfterReads(p, before).pending
    requires forall k :: 0 <= k < |raws| ==> |raws[k]| >= p.usbPayloadSize
    ensures var d := Parmrk.Run(Parmrk.Idle, Concat(raws));
            SP.AfterReads(p, before + raws) == SP.Stream(d.state, false, SP.AfterReads(p, before).items + d.items)
  {
    hide Parmrk.Run, Parmrk.EndsOnEvent, SP.AfterReads;
    var s := SP.AfterReads(p, before);
    if raws == [] {
      assert before + raws == before;
      RunEmpty(Parmrk.Idle);
      assert s.items + [] == s.items;
    } else {
      var init, raw := raws[..|raws| - 1], raws[|raws| - 1];
      FullPayloads(p, before, init);
      assert before + raws == (before + init) + [raw];
      SP.AfterReadsSnoc(p, before + init, raw);
      var d := Parmrk.Run(Parmrk.Idle, Concat(init));
      Parmrk.RunAppend(Parmrk.Idle, Concat(init), raw);
      assert raw == [] ==> Concat(raws) == Concat(init);
      assert (s.items + d.items) + Parmrk.Run(d.state, raw).items == s.items + (d.items + Parmrk.Run(d.state, raw).items);
      assert (s.items + d.items) + Parmrk.Run(d.state, raw).items + [] == (s.items + d.items) + Parmrk.Run(d.state, raw).items;
    }
  }

  /** One packet's reads stand for its bytes and a break. */
  lemma PacketHeard(p: SP.Platform, before: seq<seq<byte>>, raws: seq<seq<byte>>, pk: Packet)
    requires p.breakFromShortRead && ReadsOf(p, raws, pk)
    requires SP.AfterReads(p, before).state == Parmrk.Idle && !SP.AfterReads(p, before).pending
    ensures SP.AfterReads(p, before + raws)
         == SP.Stream(Parmrk.Idle, false, SP.AfterReads(p, before).items + Burst(pk))
  {
    hide Parmrk.Run, SP.AfterReads, Parmrk.EscapeAll, Bytes;
    var init, raw := raws[..|raws| - 1], raws[|raws| - 1];
    var wire := Concat(raws);
    FullPayloads(p, before, init);
    assert before + raws == (before + init) + [raw];
    SP.AfterReadsSnoc(p, before + init, raw);
    var d := Parmrk.Run(Parmrk.Idle, Concat(init));
    assert wire[..|wire| - 1] == Concat(init) + raw[..|raw| - 1];
    NoEventWithin(Wire(pk), |wire| - 1);
    Parmrk.RunAppend(Parmrk.Idle, Concat(init), raw[..|raw| - 1]);
    Parmrk.RunAppend(Parmrk.Idle, Concat(init), raw);
    Parmrk.RoundTrip(Bytes(Wire(pk)));
    BytesItems(Wire(pk));
    var items, e := SP.AfterReads(p, before).items, Parmrk.Run(d.state, raw).items;
    assert (items + d.items) + e + [Break] == items + ((d.items + e) + [Break]);
  }

  lemma {:induction false} PacketsHeard(p: SP.Platform, groups: seq<seq<seq<byte>>>, ps: seq<Packet>)
    requires p.breakFromShortRead && |groups| == |ps|
    requires forall i :: 0 <= i < |ps| ==> ReadsOf(p, groups[i], ps[i])
    ensures SP.AfterReads(p, Concat(groups)) == SP.Stream(Parmrk.Idle, false, Bursts(ps))
  {
    hide ReadsOf, Burst;
    if ps != [] {
      var k := |ps| - 1;
      PacketsHeard(p, groups[..k], ps[..k]);
      PacketHeard(p, Concat(groups[..k]), groups[k], ps[k]);
    }
  }

  lemma FirstBreak(pk: Packet)
    ensures Frames(Start(true), Burst(pk)) == Frames(Start(true), [Break])
  {
    hide Wire;
    WaitsForBreak(Start(true), DataItems(Wire(pk)));
    FramesSnoc(Start(true), DataItems(Wire(pk)), Break);
    NoFrames(Start(true));
    FramesSnoc(Start(true), [], Break);
    assert [] + [Break] == [Break];
  }

  /**
   From power-up, packets of n channels in reads that are short exactly at packet
   ends: the first packet gives the first break, the next 24 are learned, and all
   later ones are emitted exactly if and only if packets are full.
   */
  lemma FromPowerUp(p: SP.Platform, groups: seq<seq<seq<byte>>>, ps: seq<Packet>, n: nat)
    requires p.breakFromShortRead && |groups| == |ps| && |ps| > BREAK_VOTE_WINDOW + 1
    requires forall i :: 0 <= i < |ps| ==> ReadsOf(p, groups[i], ps[i])
    requires 1 <= n <= MAX_CHANNELS && Sized(ps, n)
    ensures Emitted(p, true, Concat(groups)) == MadeFrom(ps[BREAK_VOTE_WINDOW + 1..]) <==> n == MAX_CHANNELS
  {
    hide Frames, SP.AfterReads, Bursts, Burst, MadeFrom, ReadsOf, Concat;
    PacketsHeard(p, groups, ps);
    var rest := ps[1..];
    assert ps == [ps[0]] + rest;
    BurstsAppend([ps[0]], rest);
    OneBurst(ps[0]);
    FirstBreak(ps[0]);
    FramesAppend(Start(true), Burst(ps[0]), Bursts(rest));
    FramesAppend(Start(true), [Break], Bursts(rest));
    AfterFirstBreak();
    ExactIffFullSize(rest, n);
    assert rest[BREAK_VOTE_WINDOW..] == ps[BREAK_VOTE_WINDOW + 1..];
  }

  lemma OneBurst(pk: Packet)
    ensures Bursts([pk]) == Burst(pk)
  {
    hide Burst;
    assert [pk][..0] == [];
    assert Bursts([]) == [];
  }

  lemma AfterFirstBreak()
    ensures Frames(Start(true), [Break]).frames == []
  {
    NoFrames(Start(true));
    FramesSnoc(Start(true), [], Break);
    assert [] + [Break] == [Break];
  }
}
