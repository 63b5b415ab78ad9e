/**
 The Art-Net node: the packet sequence counter and the loopback filter.
 */
module Node {
  import opened Dmx
  import opened Htp
  import opened ArtNet
  import opened Channels

  // A datagram is cut to the receive buffer.
  const RECEIVE_BUFFER := 1024

  type IP = seq<byte>

  datatype ReceivedFrame = ReceivedFrame(frame: Frame, universe: Universe, source: IP)

  datatype Datagram = Datagram(data: seq<byte>, source: IP)

  function CutToBuffer(data: seq<byte>): seq<byte> {
    if |data| <= RECEIVE_BUFFER then data else data[..RECEIVE_BUFFER]
  }

  /** What a datagram contributes to ReceivedDmx. */
  function Accepted(localIP: IP, outputs: set<Universe>, d: Datagram): seq<ReceivedFrame> {
    var data := CutToBuffer(d.data);
    if IsArtPoll(data) then []
    else
      match Parse(data)
      case NotArtDmx => []
      case ArtDmx(frame, universe) =>
        if d.source == localIP && universe in outputs then [] else [ReceivedFrame(frame, universe, d.source)]
  }

  function AllAccepted(localIP: IP, outputs: set<Universe>, ds: seq<Datagram>): seq<ReceivedFrame> {
    if ds == [] then []
    else AllAccepted(localIP, outputs, ds[..|ds| - 1]) + Accepted(localIP, outputs, ds[|ds| - 1])
  }

  /** The sequence number of the n-th packet, counting from 1: 1 to 255, never 0. */
  function SequenceOf(n: nat): byte
    requires n > 0
  {
    (n - 1) % 255 + 1
  }

  /** They start at 1, are never 0, and two are the same exactly if they are a multiple of 255 apart. */
  lemma SequencesMeetIff(n: nat, m: nat)
    requires 0 < n && 0 < m
    ensures SequenceOf(1) == 1 && 1 <= SequenceOf(n) <= 255
    ensures SequenceOf(n + 1) == SequenceOf(n) + 1 || (SequenceOf(n) == 255 && SequenceOf(n + 1) == 1)
    ensures SequenceOf(n) == SequenceOf(m) <==> (n - m) % 255 == 0
  {
  }

  lemma NextSequence(n: nat)
    ensures SequenceOf(n + 1) == if n == 0 || SequenceOf(n) == 255 then 1 else SequenceOf(n) + 1
  {
  }

  class Node {
    var seqNo: byte
    const universe: Universe
    const localIP: IP
    const received: Chan<ReceivedFrame>
    var outputUniverses: set<Universe>

    var sent: seq<seq<byte>> // the socket: every packet written, oldest first

    ghost predicate Valid()
      reads this, received
    {
      && received.Valid() && received.capacity == 8
      && seqNo == (if sent == [] then 0 else SequenceOf(|sent|))
      && forall k :: 0 <= k < |sent| ==> |sent[k]| == HEADER_SIZE + MAX_CHANNELS && sent[k][12] == SequenceOf(k + 1)
    }

    constructor (localIP: IP, universe: Universe)
      ensures Valid() && this.universe == universe && this.localIP == localIP
      ensures outputUniverses == {universe} && sent == [] && fresh(received)
      ensures received.offered == received.taken == []
    {
      this.localIP, this.universe, seqNo, sent := localIP, universe, 0, [];
      outputUniverses := {universe};
      received := new Chan(8);
    }

    method AddOutputUniverse(u: Universe)
      requires Valid()
      modifies this`outputUniverses
      ensures Valid() && outputUniverses == old(outputUniverses) + {u}
    {
      outputUniverses := outputUniverses + {u};
    }

    /** Encode and write one packet, with the next sequence number. */
    method SendDmxUniverse(frame: Frame, u: Universe)
      requires Valid()
      modifies this`seqNo, this`sent
      ensures Valid()
      ensures sent == old(sent) + [Packet(frame.channels, SequenceOf(|old(sent)| + 1), u, 0)]
    {
      NextSequence(|sent|);
      seqNo := (seqNo + 1) % 0x100;
      if seqNo == 0 {
        seqNo := 1;
      }
      var packet := EncodeArtDmx(frame, seqNo, u, 0);
      sent := sent + [packet];
    }

    method HandleDatagram(d: Datagram)
      requires Valid()
      modifies received
      ensures Valid() && received.offered == old(received.offered) + Accepted(localIP, outputUniverses, d)
      ensures old(received.taken) <= received.taken
      ensures var kept := old(received.taken + received.queue);
              |old(received.queue)| < received.capacity ==>
                received.taken + received.queue == kept + Accepted(localIP, outputUniverses, d)
    {
      hide Parse, IsArtPoll;
      assert received.taken + received.queue + [] == received.taken + received.queue;
      var data := CutToBuffer(d.data);
      if IsArtPoll(data) {
        return; // answered with an ArtPollReply
      }
      var frame, u, ok := DecodeArtDmx(data);
      if ok {
        if d.source == localIP && u in outputUniverses {
          return;
        }
        received.Offer(ReceivedFrame(frame, u, d.source));
      }
    }

    /** The receive loop over the datagrams that arrive. */
    method Run(ds: seq<Datagram>)
      requires Valid()
      modifies received
      ensures Valid() && received.offered == old(received.offered) + AllAccepted(localIP, outputUniverses, ds)
    {
      hide Accepted;
      for i := 0 to |ds|
        invariant Valid()
        invariant received.offered == old(received.offered) + AllAccepted(localIP, outputUniverses, ds[..i])
      {
        assert ds[..i + 1][..i] == ds[..i];
        HandleDatagram(ds[i]);
      }
      assert ds[..|ds|] == ds;
    }
  }

  // ----- loopback -----

  /** The receive buffer is large enough for every channel: cutting a datagram to it changes nothing. */
  lemma BufferSuffices(data: seq<byte>)
    ensures Parse(CutToBuffer(data)) == Parse(data) && IsArtPoll(CutToBuffer(data)) == IsArtPoll(data)
  {
    var cut := CutToBuffer(data);
    if |data| > RECEIVE_BUFFER {
      assert cut[..8] == data[..8];
      var k := Least(Word(data[17], data[16]), MAX_CHANNELS);
      assert Least(k, |cut| - HEADER_SIZE) == k == Least(k, |data| - HEADER_SIZE);
      assert cut[HEADER_SIZE..HEADER_SIZE + k] == data[HEADER_SIZE..HEADER_SIZE + k];
    }
  }

  /** Any datagram contributes what it decodes to, except from the node's own address on a universe it sends on. */
  lemma DmxReceived(localIP: IP, outputs: set<Universe>, data: seq<byte>, source: IP)
    ensures Accepted(localIP, outputs, Datagram(data, source))
         == match Parse(data)
            case NotArtDmx => []
            case ArtDmx(frame, u) =>
              if source == localIP && u in outputs then [] else [ReceivedFrame(frame, u, source)]
  {
    BufferSuffices(data);
    PollIsNotDmx(data);
  }

  /** A packet is received as its channels on its 15-bit universe, from whoever sent it, unless the node sends there itself. */
  lemma PacketReceived(localIP: IP, outputs: set<Universe>, channels: ChannelData, sequence: byte, u: Universe, source: IP)
    ensures Accepted(localIP, outputs, Datagram(Packet(channels, sequence, u, 0), source))
         == if source == localIP && u % PORT_ADDRESSES in outputs then []
            else [ReceivedFrame(MakeFrame(channels), u % PORT_ADDRESSES, source)]
  {
    hide Accepted, Packet, Parse;
    RoundTrip(channels, sequence, u, 0);
    DmxReceived(localIP, outputs, Packet(channels, sequence, u, 0), source);
  }

  /** The node's own packet coming back from the local address is dropped exactly if its 15-bit universe is registered. */
  lemma OwnPacketDroppedIff(localIP: IP, outputs: set<Universe>, channels: ChannelData, sequence: byte, u: Universe)
    ensures Accepted(localIP, outputs, Datagram(Packet(channels, sequence, u, 0), localIP)) == []
       <==> u % PORT_ADDRESSES in outputs
  {
    RoundTrip(channels, sequence, u, 0);
    PollIsNotDmx(Packet(channels, sequence, u, 0));
  }

  /**
   Every own packet on a registered universe is dropped exactly if the registered
   universes are closed under the cut to 15 bits.
   */
  lemma LoopbackClosedIff(localIP: IP, outputs: set<Universe>)
    ensures (forall u: Universe, channels, sequence :: u in outputs ==>
               Accepted(localIP, outputs, Datagram(Packet(channels, sequence, u, 0), localIP)) == [])
       <==> (forall u :: u in outputs ==> u % PORT_ADDRESSES in outputs)
  {
    forall u: Universe, channels, sequence
      ensures Accepted(localIP, outputs, Datagram(Packet(channels, sequence, u, 0), localIP)) == []
         <==> u % PORT_ADDRESSES in outputs
    {
      OwnPacketDroppedIff(localIP, outputs, channels, sequence, u);
    }
    if !(forall u :: u in outputs ==> u % PORT_ADDRESSES in outputs) {
      var u :| u in outputs && u % PORT_ADDRESSES !in outputs;
      assert Accepted(localIP, outputs, Datagram(Packet(EMPTY_FRAME.channels, 1, u, 0), localIP)) != [];
    }
  }

  /** A universe beyond 15 bits does come back: 40000 returns as 7232. */
  lemma WideUniverseLoopsBack(localIP: IP, frame: Frame, sequence: byte)
    ensures Accepted(localIP, {40000}, Datagram(Packet(frame.channels, sequence, 40000, 0), localIP))
         == [ReceivedFrame(MakeFrame(frame.channels), 7232, localIP)]
  {
    RoundTrip(frame.channels, sequence, 40000, 0);
    PollIsNotDmx(Packet(frame.channels, sequence, 40000, 0));
  }
}
